/** The read-side configuration (XsvRead) and its range checks. */
module XsvRead {
  import opened Common

  /** csv.ParseError handler: true means "keep going". */
  type ErrorHandler = ParseError -> bool

  /** XsvRead[T]: the tag settings, the header policies, the From/To record
      range, the per-record callback, the header-name normaliser and the
      optional parse-error handler. */
  datatype ReadConfig<!T> = ReadConfig(
    tagName: string,
    tagSeparator: string,
    failIfUnmatchedStructTags: bool,
    failIfDoubleHeaderNames: bool,
    shouldAlignDuplicateHeadersWithStructFieldOrder: bool,
    from: int,
    to: int,
    onRecord: Option<T -> T>,
    nameNormalizer: string -> string,
    errorHandler: Option<ErrorHandler>)

  /** NewXsvRead: tag "csv" split on ",", both header policies off, no
      alignment, the range 1..-1 (to the end), no callback, the identity
      normaliser and no error handler. */
  function NewXsvRead<T>(): (c: ReadConfig<T>)
    ensures c.tagName == "csv" && c.tagSeparator == ","
    ensures !c.failIfUnmatchedStructTags && !c.failIfDoubleHeaderNames
    ensures !c.shouldAlignDuplicateHeadersWithStructFieldOrder
    ensures c.from == 1 && c.to == -1
    ensures c.onRecord.None? && c.errorHandler.None?
    ensures forall s :: c.nameNormalizer(s) == s
  {
    ReadConfig("csv", ",", false, false, false, 1, -1, None, s => s, None)
  }

  /** Why a From/To range was refused. */
  datatype RangeError = FromNegative | ToBelowMinusOne | ToBeforeFrom

  /** checkFrom: From may not be negative. */
  function CheckFrom<T>(c: ReadConfig<T>): (r: Option<RangeError>)
    ensures r.None? <==> c.from >= 0
    ensures r.Some? ==> r.value == FromNegative
  {
    if c.from >= 0 then None else Some(FromNegative)
  }

  /** checkTo: To may be -1 (to the end) but no other negative value. */
  function CheckTo<T>(c: ReadConfig<T>): (r: Option<RangeError>)
    ensures r.None? <==> c.to >= -1
    ensures r.Some? ==> r.value == ToBelowMinusOne
  {
    if c.to >= -1 then None else Some(ToBelowMinusOne)
  }

  /** checkFromTo: the range is accepted exactly when From is not negative and
      To is either -1 or a position not before From; the From check is
      reported first, then the To check, then the ordering. */
  function CheckFromTo<T>(c: ReadConfig<T>): (r: Option<RangeError>)
    ensures r.None? <==> c.from >= 0 && (c.to == -1 || c.from <= c.to)
    ensures c.from < 0 ==> r == Some(FromNegative)
    ensures c.from >= 0 && c.to < -1 ==> r == Some(ToBelowMinusOne)
    ensures c.from >= 0 && c.to >= 0 && c.from > c.to ==> r == Some(ToBeforeFrom)
  {
    match CheckFrom(c)
    case Some(e) => Some(e)
    case None =>
      match CheckTo(c)
      case Some(e) => Some(e)
      case None =>
        if c.to == -1 then None
        else if c.from <= c.to then None
        else Some(ToBeforeFrom)
  }

  /** The default range passes the checks. */
  lemma DefaultRangeAccepted<T>()
    ensures CheckFromTo(NewXsvRead<T>()).None?
  {
  }
}
