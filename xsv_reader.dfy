/** XsvReader: reads CSV records into struct values. With a header row, each
    header cell is normalised and bound to a field; every body row then
    fills a newInner record through the bound columns. Without a header row,
    column j fills field j. Failures to set a field are reported with 1-based
    line and column. */
module XsvReader {
  import opened Common
  import opened XsvRead

  /** The errors the read paths return. */
  datatype ReadError =
    | TypeMismatch(reason: string)   // the destination kind checks (ensureOutType / ensureOutInnerType)
    | Tokenizer(reason: string)      // an error from csv.Reader
    | EndOfInput                     // io.EOF, returned when there is not even a header row to read
    | EmptyCsvFile
    | NoStructTags
    | UnmatchedStructFields          // maybeMissingStructFields
    | DoubleHeaderNames              // maybeDoubleHeaderNames
    | Parse(error: ParseError)
    | IndexOutOfRange                // a panic: a headerless row wider than the schema

  /** getCSVFieldPosition: the field a header name binds to, given how many
      earlier columns of that name were bound under the alignment policy. */
  type Locator = (string, nat) -> Option<FieldInfo>

  /** setInnerField: sets the field along an index chain of a record to a
      cell's text (honouring omitempty), or reports why it could not. */
  type Setter<!R> = (R, seq<nat>, string, bool) -> Result<R, string>

  // ---------------------------------------------------------------------------
  // Header normalisation and binding

  function Normalised(normalizer: string -> string, row: seq<string>): (r: seq<string>)
    ensures |r| == |row|
  {
    seq(|row|, i requires 0 <= i < |row| => normalizer(row[i]))
  }

  /** The header-normalisation loop: every header cell through NameNormalizer. */
  method NormaliseHeaders(normalizer: string -> string, row: seq<string>) returns (headers: seq<string>)
    ensures |headers| == |row|
    ensures forall i :: 0 <= i < |row| ==> headers[i] == normalizer(row[i])
  {
    var buf := new string[|row|];
    var i := 0;
    while i < |row|
      invariant 0 <= i <= |row|
      invariant forall k :: 0 <= k < i ==> buf[k] == normalizer(row[k])
    {
      buf[i] := normalizer(row[i]);
      i := i + 1;
    }
    headers := buf[..];
  }

  /** The column-to-field map (csvHeadersLabels) and the per-name counts
      (headerCount) after binding a header row. */
  datatype Binding = Binding(labels: map<int, FieldInfo>, counts: map<string, nat>)

  /** Binding column by column: a name is looked up with its current count
      (0 when absent); a match binds the column and, under the alignment
      policy only, bumps the name's count. */
  function BindHeaders(headers: seq<string>, locate: Locator, align: bool): (b: Binding)
    ensures forall k :: k in b.labels ==> 0 <= k < |headers|
    decreases |headers|
  {
    if headers == [] then Binding(map[], map[])
    else
      var n := |headers| - 1;
      var b := BindHeaders(headers[..n], locate, align);
      var h := headers[n];
      var cur := if h in b.counts then b.counts[h] else 0;
      match locate(h, cur)
      case None => b
      case Some(f) => Binding(b.labels[n := f], if align then b.counts[h := cur + 1] else b.counts)
  }

  method BindColumns(headers: seq<string>, locate: Locator, align: bool)
    returns (labels: map<int, FieldInfo>, counts: map<string, nat>)
    ensures Binding(labels, counts) == BindHeaders(headers, locate, align)
  {
    labels := map[];
    counts := map[];
    var i := 0;
    while i < |headers|
      invariant 0 <= i <= |headers|
      invariant Binding(labels, counts) == BindHeaders(headers[..i], locate, align)
    {
      var h := headers[i];
      var cur := if h in counts then counts[h] else 0;
      var found := locate(h, cur);
      if found.Some? {
        labels := labels[i := found.value];
        if align {
          counts := counts[h := cur + 1];
        }
      }
      assert headers[..i + 1][..i] == headers[..i];
      i := i + 1;
    }
    assert headers[..i] == headers;
  }

  /** Under the default policy the counts stay empty, so every column is
      looked up with count 0: all occurrences of a repeated name bind to the
      same field. */
  lemma {:induction false} BindDefaultPolicy(headers: seq<string>, locate: Locator)
    ensures var b := BindHeaders(headers, locate, false);
      && b.counts == map[]
      && forall j :: 0 <= j < |headers| ==>
           (j in b.labels <==> locate(headers[j], 0).Some?) &&
           (j in b.labels ==> b.labels[j] == locate(headers[j], 0).value)
    decreases |headers|
  {
    if headers != [] {
      var n := |headers| - 1;
      BindDefaultPolicy(headers[..n], locate);
    }
  }

  /** How many of the first n columns are named h and bound. */
  function CountBound(headers: seq<string>, labels: map<int, FieldInfo>, h: string, n: nat): nat
    requires n <= |headers|
  {
    if n == 0 then 0
    else CountBound(headers, labels, h, n - 1) + (if headers[n - 1] == h && n - 1 in labels then 1 else 0)
  }

  lemma {:induction false} CountBoundFrame(headers: seq<string>, a: map<int, FieldInfo>, b: map<int, FieldInfo>, h: string, n: nat)
    requires n <= |headers|
    requires forall k :: 0 <= k < n ==> (k in a <==> k in b)
    ensures CountBound(headers, a, h, n) == CountBound(headers, b, h, n)
  {
    if n > 0 {
      CountBoundFrame(headers, a, b, h, n - 1);
    }
  }

  lemma {:induction false} CountBoundPrefix(headers: seq<string>, labels: map<int, FieldInfo>, h: string, n: nat, m: nat)
    requires n <= m <= |headers|
    ensures CountBound(headers[..m], labels, h, n) == CountBound(headers, labels, h, n)
  {
    if n > 0 {
      CountBoundPrefix(headers, labels, h, n - 1, m);
    }
  }

  /** The count kept for each name is the number of its bound columns. */
  ghost predicate CountsMatch(headers: seq<string>, b: Binding) {
    && (forall h :: h in b.counts ==> b.counts[h] == CountBound(headers, b.labels, h, |headers|))
    && (forall h :: h !in b.counts ==> CountBound(headers, b.labels, h, |headers|) == 0)
  }

  /** Column j is bound exactly when its name, looked up with the number of
      earlier bound columns of that name, locates a field, and then to that
      field. */
  ghost predicate LookupsMatch(headers: seq<string>, b: Binding, locate: Locator) {
    forall j :: 0 <= j < |headers| ==> LookupAt(headers, b, locate, j)
  }

  ghost predicate LookupAt(headers: seq<string>, b: Binding, locate: Locator, j: int)
    requires 0 <= j < |headers|
  {
    var k := CountBound(headers, b.labels, headers[j], j);
    (j in b.labels <==> locate(headers[j], k).Some?) &&
    (j in b.labels ==> b.labels[j] == locate(headers[j], k).value)
  }

  /** Binding one more column leaves the counts over the earlier columns as
      they were. */
  lemma AlignCarry(headers: seq<string>, locate: Locator)
    requires headers != []
    ensures var n := |headers| - 1;
      var b0 := BindHeaders(headers[..n], locate, true);
      var b := BindHeaders(headers, locate, true);
      && (forall k :: 0 <= k < n ==> (k in b.labels <==> k in b0.labels))
      && (forall k :: 0 <= k < n && k in b0.labels ==> b.labels[k] == b0.labels[k])
      && (forall h :: CountBound(headers, b.labels, h, n) == CountBound(headers[..n], b0.labels, h, n))
  {
    var n := |headers| - 1;
    var b0 := BindHeaders(headers[..n], locate, true);
    var b := BindHeaders(headers, locate, true);
    forall h
      ensures CountBound(headers, b.labels, h, n) == CountBound(headers[..n], b0.labels, h, n)
    {
      CountBoundFrame(headers, b.labels, b0.labels, h, n);
      CountBoundPrefix(headers, b0.labels, h, n, n);
    }
  }

  lemma AlignCounts(headers: seq<string>, locate: Locator)
    requires headers != []
    requires CountsMatch(headers[..|headers| - 1], BindHeaders(headers[..|headers| - 1], locate, true))
    ensures CountsMatch(headers, BindHeaders(headers, locate, true))
  {
    AlignCarry(headers, locate);
  }

  lemma AlignLookupEarlier(headers: seq<string>, locate: Locator, j: int)
    requires 0 <= j < |headers| - 1
    requires LookupAt(headers[..|headers| - 1], BindHeaders(headers[..|headers| - 1], locate, true), locate, j)
    ensures LookupAt(headers, BindHeaders(headers, locate, true), locate, j)
  {
    var n := |headers| - 1;
    var b0 := BindHeaders(headers[..n], locate, true);
    var b := BindHeaders(headers, locate, true);
    AlignCarry(headers, locate);
    CountBoundFrame(headers, b.labels, b0.labels, headers[j], j);
    CountBoundPrefix(headers, b0.labels, headers[j], j, n);
  }

  lemma AlignLookupLast(headers: seq<string>, locate: Locator)
    requires headers != []
    requires CountsMatch(headers[..|headers| - 1], BindHeaders(headers[..|headers| - 1], locate, true))
    ensures LookupAt(headers, BindHeaders(headers, locate, true), locate, |headers| - 1)
  {
    var n := |headers| - 1;
    var b0 := BindHeaders(headers[..n], locate, true);
    AlignCarry(headers, locate);
    var h := headers[n];
    assert CountBound(headers[..n], b0.labels, h, n) == (if h in b0.counts then b0.counts[h] else 0);
  }

  /** Under the alignment policy the k-th bound occurrence of a name is the
      one looked up with count k: each column is looked up with the number of
      earlier bound columns of the same name, and the count of a name is the
      number of its bound columns. */
  lemma {:induction false} BindAlignPolicy(headers: seq<string>, locate: Locator)
    ensures CountsMatch(headers, BindHeaders(headers, locate, true))
    ensures LookupsMatch(headers, BindHeaders(headers, locate, true), locate)
    decreases |headers|
  {
    if headers != [] {
      var n := |headers| - 1;
      BindAlignPolicy(headers[..n], locate);
      AlignCounts(headers, locate);
      AlignLookupLast(headers, locate);
      forall j | 0 <= j < n
        ensures LookupAt(headers, BindHeaders(headers, locate, true), locate, j)
      {
        AlignLookupEarlier(headers, locate, j);
      }
    }
  }

  // ---------------------------------------------------------------------------
  // Assembling one record from one row

  /** How a row's columns reach fields: through the header binding (a
      column bound to nothing is skipped) or by position (column j is field
      j, and a column past the last field is an index-out-of-range panic). */
  datatype Columns = ByHeader(labels: map<int, FieldInfo>) | ByPosition(fields: seq<FieldInfo>)

  /** Everything row assembly depends on: the columns, whether an empty cell
      takes the field's default, the error handler, the setter, and the
      newInner record each row starts from (createNewOutInner). */
  datatype RowPlan<!R> = RowPlan(columns: Columns, useDefault: bool, handler: Option<ErrorHandler>,
                                 setter: Setter<R>, newInner: R)

  datatype RowOutcome<R> = RowOutcome(record: R, err: Option<ReadError>)

  /** Setting one cell into field f. A failure becomes a ParseError at
      (line, j+1); a handler that returns true suppresses it and the record is
      kept as it was. */
  function SetCell<R>(record: R, f: FieldInfo, cell: string, plan: RowPlan<R>, line: int, j: nat): (o: RowOutcome<R>)
    ensures o.err.Some? ==> o.err.value.Parse? && o.err.value.error.line == line && o.err.value.error.column == j + 1
  {
    var value := if plan.useDefault && cell == "" then f.defaultValue else cell;
    match plan.setter(record, f.indexChain, value, f.omitEmpty)
    case Ok(r) => RowOutcome(r, None)
    case Err(e) =>
      var pe := ParseError(line, j + 1, e);
      if plan.handler.Some? && plan.handler.value(pe) then RowOutcome(record, None)
      else RowOutcome(record, Some(Parse(pe)))
  }

  /** The record assembled from a row, cell by cell from the left, stopping
      at the first reported failure. */
  function AssembleRow<R>(cells: seq<string>, plan: RowPlan<R>, line: int): RowOutcome<R>
    decreases |cells|
  {
    if cells == [] then RowOutcome(plan.newInner, None)
    else
      var n := |cells| - 1;
      var prev := AssembleRow(cells[..n], plan, line);
      if prev.err.Some? then prev
      else match plan.columns
        case ByPosition(fs) =>
          if n >= |fs| then RowOutcome(prev.record, Some(ReadError.IndexOutOfRange))
          else SetCell(prev.record, fs[n], cells[n], plan, line, n)
        case ByHeader(labels) =>
          if n !in labels then prev
          else SetCell(prev.record, labels[n], cells[n], plan, line, n)
  }

  /** The column loop of the read paths. */
  method FillRecord<R>(cells: seq<string>, plan: RowPlan<R>, line: int) returns (record: R, err: Option<ReadError>)
    ensures RowOutcome(record, err) == AssembleRow(cells, plan, line)
  {
    record := plan.newInner;
    err := None;
    var j := 0;
    while j < |cells|
      invariant 0 <= j <= |cells|
      invariant RowOutcome(record, None) == AssembleRow(cells[..j], plan, line)
    {
      assert cells[..j + 1][..j] == cells[..j];
      var f: FieldInfo;
      match plan.columns {
        case ByPosition(fs) =>
          if j >= |fs| {
            AssembleStops(cells, plan, line, j + 1);
            return record, Some(ReadError.IndexOutOfRange);
          }
          f := fs[j];
        case ByHeader(labels) =>
          if j !in labels {
            j := j + 1;
            continue;
          }
          f := labels[j];
      }
      var o := SetCell(record, f, cells[j], plan, line, j);
      if o.err.Some? {
        AssembleStops(cells, plan, line, j + 1);
        return o.record, o.err;
      }
      record := o.record;
      j := j + 1;
    }
    assert cells[..j] == cells;
  }

  /** Once a prefix of the row fails, the whole row fails the same way. */
  lemma {:induction false} AssembleStops<R>(cells: seq<string>, plan: RowPlan<R>, line: int, j: nat)
    requires j <= |cells| && AssembleRow(cells[..j], plan, line).err.Some?
    ensures AssembleRow(cells, plan, line) == AssembleRow(cells[..j], plan, line)
    decreases |cells| - j
  {
    if j < |cells| {
      var n := |cells| - 1;
      assert cells[..n][..j] == cells[..j];
      AssembleStops(cells[..n], plan, line, j);
    } else {
      assert cells[..j] == cells;
    }
  }

  /** A parse failure is reported at the given line and at the 1-based
      column of a cell that is bound to a field. */
  lemma {:induction false} ParseErrorPosition<R>(cells: seq<string>, plan: RowPlan<R>, line: int)
    ensures var o := AssembleRow(cells, plan, line);
      o.err.Some? && o.err.value.Parse? ==>
        var pe := o.err.value.error;
        && pe.line == line
        && 1 <= pe.column <= |cells|
        && (plan.columns.ByHeader? ==> pe.column - 1 in plan.columns.labels)
        && (plan.columns.ByPosition? ==> pe.column - 1 < |plan.columns.fields|)
    decreases |cells|
  {
    if cells != [] {
      ParseErrorPosition(cells[..|cells| - 1], plan, line);
    }
  }

  /** A handler that accepts every failure means no parse error is ever
      reported under header binding. */
  lemma {:induction false} HandlerSuppressesAll<R>(cells: seq<string>, plan: RowPlan<R>, line: int)
    requires plan.columns.ByHeader? && plan.handler.Some?
    requires forall pe :: plan.handler.value(pe)
    ensures AssembleRow(cells, plan, line).err.None?
    decreases |cells|
  {
    if cells != [] {
      HandlerSuppressesAll(cells[..|cells| - 1], plan, line);
    }
  }

  /** A column bound to no field is skipped: its cell never affects the
      record or the outcome. */
  lemma {:induction false} UnboundColumnIgnored<R>(cells: seq<string>, plan: RowPlan<R>, line: int, j: int, x: string)
    requires plan.columns.ByHeader? && 0 <= j < |cells| && j !in plan.columns.labels
    ensures AssembleRow(cells[j := x], plan, line) == AssembleRow(cells, plan, line)
    decreases |cells|
  {
    var n := |cells| - 1;
    var changed := cells[j := x];
    if j < n {
      assert changed[..n] == cells[..n][j := x];
      UnboundColumnIgnored(cells[..n], plan, line, j, x);
    } else {
      assert changed[..n] == cells[..n];
    }
  }

  /** The cells after default substitution: an empty cell in a bound column
      becomes that field's default. */
  function WithDefaults(cells: seq<string>, labels: map<int, FieldInfo>): (r: seq<string>)
    ensures |r| == |cells|
  {
    seq(|cells|, j requires 0 <= j < |cells| =>
      if j in labels && cells[j] == "" then labels[j].defaultValue else cells[j])
  }

  /** Substituting defaults while setting (ReadTo) is the same as setting
      the cells with the defaults already filled in and no substitution
      (ReadEach). */
  lemma {:induction false} DefaultSubstitution<R>(cells: seq<string>, plan: RowPlan<R>, line: int)
    requires plan.columns.ByHeader?
    ensures AssembleRow(cells, plan.(useDefault := true), line)
         == AssembleRow(WithDefaults(cells, plan.columns.labels), plan.(useDefault := false), line)
    decreases |cells|
  {
    if cells != [] {
      var n := |cells| - 1;
      assert WithDefaults(cells, plan.columns.labels)[..n] == WithDefaults(cells[..n], plan.columns.labels);
      DefaultSubstitution(cells[..n], plan, line);
    }
  }

  /** A setter that never fails and overwrites the field along the chain,
      over records that map each index chain to its text. */
  function Overwrite(r: map<seq<nat>, string>, chain: seq<nat>, value: string, omitEmpty: bool): Result<map<seq<nat>, string>, string> {
    Ok(r[chain := value])
  }

  /** With a setter that never fails, a header-bound row never reports an error. */
  lemma {:induction false} NoErrors(cells: seq<string>, plan: RowPlan<map<seq<nat>, string>>, line: int)
    requires plan.columns.ByHeader? && plan.setter == Overwrite
    ensures AssembleRow(cells, plan, line).err.None?
    decreases |cells|
  {
    if cells != [] {
      NoErrors(cells[..|cells| - 1], plan, line);
    }
  }

  /** When two bound columns set the same field, the cell further right wins:
      each cell overwrites the field it is bound to, from the left, so a
      field holds the value of its last bound column. */
  lemma {:induction false} LastCellWins(cells: seq<string>, plan: RowPlan<map<seq<nat>, string>>, line: int, j: int)
    requires plan.columns.ByHeader? && plan.setter == Overwrite
    requires 0 <= j < |cells| && j in plan.columns.labels
    requires forall k :: j < k < |cells| && k in plan.columns.labels ==>
               plan.columns.labels[k].indexChain != plan.columns.labels[j].indexChain
    ensures var f := plan.columns.labels[j];
      var o := AssembleRow(cells, plan, line);
      && o.err.None?
      && f.indexChain in o.record
      && o.record[f.indexChain] == if plan.useDefault && cells[j] == "" then f.defaultValue else cells[j]
    decreases |cells|
  {
    var n := |cells| - 1;
    NoErrors(cells, plan, line);
    NoErrors(cells[..n], plan, line);
    if j < n {
      LastCellWins(cells[..n], plan, line, j);
      assert cells[..n][j] == cells[j];
    }
  }

  /** Default policy, headers foo,BAR,foo and the row f,1,baz: both foo
      columns bind to the same field, and that field reads baz. */
  lemma RepeatedHeaderExample(foo: FieldInfo, bar: FieldInfo)
    requires foo.indexChain != bar.indexChain
    ensures var locate := (h: string, k: nat) => if h == "foo" then Some(foo) else if h == "BAR" then Some(bar) else None;
      var b := BindHeaders(["foo", "BAR", "foo"], locate, false);
      var o := AssembleRow(["f", "1", "baz"], RowPlan(ByHeader(b.labels), false, None, Overwrite, map[]), 2);
      && b.labels == map[0 := foo, 1 := bar, 2 := foo]
      && o.err.None? && o.record[foo.indexChain] == "baz"
  {
    var locate := (h: string, k: nat) => if h == "foo" then Some(foo) else if h == "BAR" then Some(bar) else None;
    var headers := ["foo", "BAR", "foo"];
    BindDefaultPolicy(headers, locate);
    var b := BindHeaders(headers, locate, false);
    assert b.labels.Keys == {0, 1, 2} by {
      forall k | k in b.labels ensures k in {0, 1, 2} { }
    }
    assert b.labels == map[0 := foo, 1 := bar, 2 := foo];
    LastCellWins(["f", "1", "baz"], RowPlan(ByHeader(b.labels), false, None, Overwrite, map[]), 2, 2);
  }

  // ---------------------------------------------------------------------------
  // A sequence of rows

  /** The records built so far, and the error that ended the run. */
  datatype Outcome<R> = Outcome(records: seq<R>, err: Option<ReadError>)

  /** Rows in order, row i reported on line i + lineBase; a tokenizer error
      or a row failure stops the run, keeping the records before it. */
  function Stream<R>(items: seq<ReadItem>, plan: RowPlan<R>, lineBase: int): (o: Outcome<R>)
    ensures |o.records| <= |items|
    ensures o.err.None? ==> |o.records| == |items|
    decreases |items|
  {
    if items == [] then Outcome([], None)
    else
      var n := |items| - 1;
      var prev := Stream(items[..n], plan, lineBase);
      if prev.err.Some? then prev
      else match items[n]
        case Broken(reason) => Outcome(prev.records, Some(Tokenizer(reason)))
        case Row(cells) =>
          var o := AssembleRow(cells, plan, n + lineBase);
          if o.err.Some? then Outcome(prev.records, o.err) else Outcome(prev.records + [o.record], None)
  }

  /** Record i comes from row i on line i + lineBase. */
  lemma {:induction false} StreamRecordsAt<R>(items: seq<ReadItem>, plan: RowPlan<R>, lineBase: int)
    ensures var o := Stream(items, plan, lineBase);
      forall i :: 0 <= i < |o.records| ==>
        items[i].Row? && AssembleRow(items[i].cells, plan, i + lineBase) == RowOutcome(o.records[i], None)
    decreases |items|
  {
    if items != [] {
      var n := |items| - 1;
      StreamRecordsAt(items[..n], plan, lineBase);
      var o := Stream(items, plan, lineBase);
      forall i | 0 <= i < |o.records| && i < n
        ensures items[i].Row? && AssembleRow(items[i].cells, plan, i + lineBase) == RowOutcome(o.records[i], None)
      {
        assert items[..n][i] == items[i];
      }
    }
  }

  /** An error is that of the row right after the last record, at that
      row's line. */
  lemma {:induction false} StreamErrorAt<R>(items: seq<ReadItem>, plan: RowPlan<R>, lineBase: int)
    ensures var o := Stream(items, plan, lineBase);
      o.err.Some? ==> (
        && |o.records| < |items|
        && var k := |o.records|;
           match items[k]
           case Broken(reason) => o.err.value == Tokenizer(reason)
           case Row(cells) => AssembleRow(cells, plan, k + lineBase).err == o.err)
    decreases |items|
  {
    if items != [] {
      var n := |items| - 1;
      StreamErrorAt(items[..n], plan, lineBase);
      var prev := Stream(items[..n], plan, lineBase);
      if prev.err.Some? {
        assert items[..n][|prev.records|] == items[|prev.records|];
      }
    }
  }

  /** Record i comes from row i on line i + lineBase; an error is that of
      the row right after the last record, at that row's line. */
  lemma StreamAt<R>(items: seq<ReadItem>, plan: RowPlan<R>, lineBase: int)
    ensures var o := Stream(items, plan, lineBase);
      && (forall i :: 0 <= i < |o.records| ==>
            items[i].Row? && AssembleRow(items[i].cells, plan, i + lineBase) == RowOutcome(o.records[i], None))
      && (o.err.Some? ==> (
            && |o.records| < |items|
            && var k := |o.records|;
               match items[k]
               case Broken(reason) => o.err.value == Tokenizer(reason)
               case Row(cells) => AssembleRow(cells, plan, k + lineBase).err == o.err))
  {
    StreamRecordsAt(items, plan, lineBase);
    StreamErrorAt(items, plan, lineBase);
  }

  /** Once a prefix of the rows fails, the whole run fails the same way. */
  lemma {:induction false} StreamStops<R>(items: seq<ReadItem>, plan: RowPlan<R>, lineBase: int, j: nat)
    requires j <= |items| && Stream(items[..j], plan, lineBase).err.Some?
    ensures Stream(items, plan, lineBase) == Stream(items[..j], plan, lineBase)
    decreases |items| - j
  {
    if j < |items| {
      var n := |items| - 1;
      assert items[..n][..j] == items[..j];
      StreamStops(items[..n], plan, lineBase, j);
    } else {
      assert items[..j] == items;
    }
  }

  /** A parse error in a run is reported on the line of the row that failed:
      the row after the last record built. */
  lemma StreamParseErrorLine<R>(items: seq<ReadItem>, plan: RowPlan<R>, lineBase: int)
    ensures var o := Stream(items, plan, lineBase);
      o.err.Some? && o.err.value.Parse? ==>
        |o.records| < |items| && items[|o.records|].Row? &&
        o.err.value.error.line == |o.records| + lineBase &&
        1 <= o.err.value.error.column <= |items[|o.records|].cells|
  {
    var o := Stream(items, plan, lineBase);
    StreamAt(items, plan, lineBase);
    if o.err.Some? && o.err.value.Parse? && items[|o.records|].Row? {
      ParseErrorPosition(items[|o.records|].cells, plan, |o.records| + lineBase);
    }
  }

  // ---------------------------------------------------------------------------
  // Whole reads

  /** maybeMissingStructFields: some field has no key among the headers. */
  predicate MissingStructFields(fields: seq<FieldInfo>, headers: seq<string>) {
    exists i :: 0 <= i < |fields| && Unmatched(fields[i], headers)
  }

  /** None of a field's keys is among the headers. */
  predicate Unmatched(f: FieldInfo, headers: seq<string>) {
    forall key :: key in f.keys ==> key !in headers
  }

  /** maybeDoubleHeaderNames: some header name occurs twice. */
  predicate DoubleHeaders(headers: seq<string>) {
    exists i, j :: 0 <= i < j < |headers| && headers[i] == headers[j]
  }

  /** Extra header columns never make a field unmatched. */
  lemma ExtraHeadersHarmless(fields: seq<FieldInfo>, headers: seq<string>, extra: seq<string>)
    requires MissingStructFields(fields, headers + extra)
    ensures MissingStructFields(fields, headers)
  {
    var i :| 0 <= i < |fields| && Unmatched(fields[i], headers + extra);
    assert Unmatched(fields[i], headers);
  }

  /** The header checks shared by ReadTo and ReadEach, in their order. */
  function HeaderCheck<R>(c: ReadConfig<R>, fields: seq<FieldInfo>, headers: seq<string>): (r: Option<ReadError>)
    ensures r.None? <==> !(c.failIfUnmatchedStructTags && MissingStructFields(fields, headers))
                         && !(c.failIfDoubleHeaderNames && DoubleHeaders(headers))
  {
    if c.failIfUnmatchedStructTags && MissingStructFields(fields, headers) then Some(UnmatchedStructFields)
    else if c.failIfDoubleHeaderNames && DoubleHeaders(headers) then Some(DoubleHeaderNames)
    else None
  }

  /** The column-to-field map a header row yields under a configuration. */
  function HeaderLabels<R>(c: ReadConfig<R>, header: seq<string>, locate: Locator): (labels: map<int, FieldInfo>)
    ensures forall k :: k in labels ==> 0 <= k < |header|
  {
    BindHeaders(Normalised(c.nameNormalizer, header), locate, c.shouldAlignDuplicateHeadersWithStructFieldOrder).labels
  }

  /** ensureOutCapacity on the addressable destination slice, which must
      hold n records: a slice shorter than that is replaced by n zero values
      (blank), a long enough one is kept as it is, old entries included. */
  function EnsureOutCapacity<R>(prior: seq<R>, n: nat, blank: R): (r: seq<R>)
    ensures |r| == if |prior| < n then n else |prior|
    ensures forall i :: 0 <= i < |r| ==> r[i] == if |prior| < n then blank else prior[i]
  {
    if |prior| < n then seq(n, _ => blank) else prior
  }

  /** ReadTo: the destination slice afterwards and the result. typeError is
      the outcome of the destination kind checks; prior is the slice before
      the call, kept on the errors raised before ensureOutCapacity; record i
      is stored at index i of the slice ensureOutCapacity leaves. */
  function ReadToOutcome<R>(c: ReadConfig<R>, typeError: Option<string>, items: seq<ReadItem>,
                            fields: seq<FieldInfo>, locate: Locator, setter: Setter<R>,
                            blank: R, newInner: R, prior: seq<R>): Outcome<R>
  {
    if typeError.Some? then Outcome(prior, Some(TypeMismatch(typeError.value)))
    else match ReadAll(items)
      case Err(e) => Outcome(prior, Some(Tokenizer(e)))
      case Ok(rows) =>
        if rows == [] then Outcome(prior, Some(EmptyCsvFile))
        else
          var dest := EnsureOutCapacity(prior, |rows| - 1, blank);
          if fields == [] then Outcome(dest, Some(NoStructTags))
          else
            var headers := Normalised(c.nameNormalizer, rows[0]);
            var labels := HeaderLabels(c, rows[0], locate);
            match HeaderCheck(c, fields, headers)
            case Some(e) => Outcome(dest, Some(e))
            case None =>
              var s := Stream(items[1..], RowPlan(ByHeader(labels), true, c.errorHandler, setter, newInner), 2);
              Outcome(s.records + dest[|s.records|..], s.err)
  }

  /** ReadEach: the records sent, in order, and the result. The header row
      is read before the destination kind is checked. */
  function ReadEachOutcome<R>(c: ReadConfig<R>, typeError: Option<string>, items: seq<ReadItem>,
                              fields: seq<FieldInfo>, locate: Locator, setter: Setter<R>, newInner: R): Outcome<R>
  {
    if items == [] then Outcome([], Some(EndOfInput))
    else if items[0].Broken? then Outcome([], Some(Tokenizer(items[0].reason)))
    else if typeError.Some? then Outcome([], Some(TypeMismatch(typeError.value)))
    else if fields == [] then Outcome([], Some(NoStructTags))
    else
      var headers := Normalised(c.nameNormalizer, items[0].cells);
      var labels := HeaderLabels(c, items[0].cells, locate);
      match HeaderCheck(c, fields, headers)
      case Some(e) => Outcome([], Some(e))
      case None => Stream(items[1..], RowPlan(ByHeader(labels), false, None, setter, newInner), 2)
  }

  /** ReadToWithoutHeaders: the destination slice afterwards (one entry per
      row) and the result; rows are reported from line 1. */
  function ReadToWithoutHeadersOutcome<R>(typeError: Option<string>, items: seq<ReadItem>, fields: seq<FieldInfo>,
                                          setter: Setter<R>, blank: R, newInner: R, prior: seq<R>): Outcome<R>
  {
    if typeError.Some? then Outcome(prior, Some(TypeMismatch(typeError.value)))
    else match ReadAll(items)
      case Err(e) => Outcome(prior, Some(Tokenizer(e)))
      case Ok(rows) =>
        if rows == [] then Outcome(prior, Some(EmptyCsvFile))
        else
          var dest := EnsureOutCapacity(prior, |rows|, blank);
          if fields == [] then Outcome(dest, Some(NoStructTags))
          else
            var s := Stream(items, RowPlan(ByPosition(fields), false, None, setter, newInner), 1);
            Outcome(s.records + dest[|s.records|..], s.err)
  }

  /** ReadEachWithoutHeaders as written: the records sent and the result;
      rows are reported from line 2 although there is no header row. */
  function ReadEachWithoutHeadersOutcome<R>(typeError: Option<string>, items: seq<ReadItem>, fields: seq<FieldInfo>,
                                            setter: Setter<R>, newInner: R): Outcome<R>
  {
    if typeError.Some? then Outcome([], Some(TypeMismatch(typeError.value)))
    else if fields == [] then Outcome([], Some(NoStructTags))
    else Stream(items, RowPlan(ByPosition(fields), false, None, setter, newInner), 2)
  }

  /** ReadEachWithoutHeaders with the line numbers evidently intended: the
      same as ReadToWithoutHeaders, from line 1. */
  function ReadEachWithoutHeadersIntended<R>(typeError: Option<string>, items: seq<ReadItem>, fields: seq<FieldInfo>,
                                             setter: Setter<R>, newInner: R): Outcome<R>
  {
    if typeError.Some? then Outcome([], Some(TypeMismatch(typeError.value)))
    else if fields == [] then Outcome([], Some(NoStructTags))
    else Stream(items, RowPlan(ByPosition(fields), false, None, setter, newInner), 1)
  }

  // ---------------------------------------------------------------------------
  // The read loops

  /** The first i rows of a run build records with no error. */
  ghost predicate RanSoFar<R>(body: seq<ReadItem>, plan: RowPlan<R>, lineBase: int, i: nat, records: seq<R>) {
    i <= |body| && Stream(body[..i], plan, lineBase) == Outcome(records, None)
  }

  /** One more row of a run with no error so far: a stored record, or the
      error that ends the whole run. */
  lemma StreamStep<R>(body: seq<ReadItem>, plan: RowPlan<R>, lineBase: int, i: int, records: seq<R>)
    requires 0 <= i < |body| && RanSoFar(body, plan, lineBase, i, records)
    ensures body[i].Broken? ==> Stream(body, plan, lineBase) == Outcome(records, Some(Tokenizer(body[i].reason)))
    ensures body[i].Row? ==>
      var o := AssembleRow(body[i].cells, plan, i + lineBase);
      && (o.err.Some? ==> Stream(body, plan, lineBase) == Outcome(records, o.err))
      && (o.err.None? ==> RanSoFar(body, plan, lineBase, i + 1, records + [o.record]))
  {
    assert body[..i + 1][..i] == body[..i];
    if body[i].Broken? || AssembleRow(body[i].cells, plan, i + lineBase).err.Some? {
      StreamStops(body, plan, lineBase, i + 1);
    }
  }

  /** The body loop of ReadTo and ReadToWithoutHeaders: row i is assembled
      and stored at index i of the destination until a row fails; the
      entries after the last stored one are left as they were. */
  method FillRows<R>(body: seq<ReadItem>, plan: RowPlan<R>, lineBase: int, buf: array<R>) returns (err: Option<ReadError>)
    requires buf.Length >= |body|
    modifies buf
    ensures var s := Stream(body, plan, lineBase);
      && |s.records| <= buf.Length
      && buf[..] == s.records + old(buf[..])[|s.records|..]
      && err == s.err
  {
    ghost var before := buf[..];
    var i := 0;
    while i < |body|
      invariant 0 <= i <= |body|
      invariant RanSoFar(body, plan, lineBase, i, buf[..i])
      invariant buf[i..] == before[i..]
    {
      StreamStep(body, plan, lineBase, i, buf[..i]);
      if body[i].Broken? {
        assert buf[..] == buf[..i] + buf[i..];
        return Some(Tokenizer(body[i].reason));
      }
      var record, e := FillRecord(body[i].cells, plan, i + lineBase);
      if e.Some? {
        assert buf[..] == buf[..i] + buf[i..];
        return e;
      }
      buf[i] := record;
      assert buf[..i + 1] == buf[..i] + [record];
      assert buf[i + 1..] == before[i + 1..];
      i := i + 1;
    }
    assert body[..i] == body;
    assert buf[..] == buf[..i] + buf[i..];
    err := None;
  }

  /** The body loop of ReadEach and ReadEachWithoutHeaders: each assembled
      record is sent on the channel (appended to records) until a row fails. */
  method SendRows<R>(body: seq<ReadItem>, plan: RowPlan<R>, lineBase: int) returns (records: seq<R>, err: Option<ReadError>)
    ensures Outcome(records, err) == Stream(body, plan, lineBase)
  {
    records := [];
    var i := 0;
    while i < |body|
      invariant 0 <= i <= |body|
      invariant RanSoFar(body, plan, lineBase, i, records)
    {
      StreamStep(body, plan, lineBase, i, records);
      if body[i].Broken? {
        return records, Some(Tokenizer(body[i].reason));
      }
      var record, e := FillRecord(body[i].cells, plan, i + lineBase);
      if e.Some? {
        return records, e;
      }
      records := records + [record];
      i := i + 1;
    }
    assert body[..i] == body;
    err := None;
  }

  /** ReadTo over the rows the csv reader yields: the destination slice
      afterwards and the error returned. */
  method ReadTo<R>(c: ReadConfig<R>, typeError: Option<string>, items: seq<ReadItem>,
                   fields: seq<FieldInfo>, locate: Locator, setter: Setter<R>,
                   blank: R, newInner: R, prior: seq<R>) returns (out: seq<R>, err: Option<ReadError>)
    ensures Outcome(out, err) == ReadToOutcome(c, typeError, items, fields, locate, setter, blank, newInner, prior)
  {
    if typeError.Some? {
      return prior, Some(TypeMismatch(typeError.value));
    }
    var all := ReadAll(items);
    if all.Err? {
      return prior, Some(Tokenizer(all.error));
    }
    var rows := all.value;
    if |rows| == 0 {
      return prior, Some(EmptyCsvFile);
    }
    var dest := EnsureOutCapacity(prior, |rows| - 1, blank);
    var buf := new R[|dest|](i requires 0 <= i < |dest| => dest[i]);
    assert buf[..] == dest;
    if |fields| == 0 {
      return buf[..], Some(NoStructTags);
    }
    var headers := NormaliseHeaders(c.nameNormalizer, rows[0]);
    assert headers == Normalised(c.nameNormalizer, rows[0]);
    var labels, counts := BindColumns(headers, locate, c.shouldAlignDuplicateHeadersWithStructFieldOrder);
    var check := HeaderCheck(c, fields, headers);
    if check.Some? {
      return buf[..], check;
    }
    var plan := RowPlan(ByHeader(labels), true, c.errorHandler, setter, newInner);
    err := FillRows(items[1..], plan, 2, buf);
    out := buf[..];
  }

  /** ReadEach over the rows the csv reader yields: the records sent and the
      error returned. */
  method ReadEach<R>(c: ReadConfig<R>, typeError: Option<string>, items: seq<ReadItem>,
                     fields: seq<FieldInfo>, locate: Locator, setter: Setter<R>, newInner: R)
    returns (sent: seq<R>, err: Option<ReadError>)
    ensures Outcome(sent, err) == ReadEachOutcome(c, typeError, items, fields, locate, setter, newInner)
  {
    if |items| == 0 {
      return [], Some(EndOfInput);
    }
    if items[0].Broken? {
      return [], Some(Tokenizer(items[0].reason));
    }
    var headers := NormaliseHeaders(c.nameNormalizer, items[0].cells);
    assert headers == Normalised(c.nameNormalizer, items[0].cells);
    if typeError.Some? {
      return [], Some(TypeMismatch(typeError.value));
    }
    if |fields| == 0 {
      return [], Some(NoStructTags);
    }
    var labels, counts := BindColumns(headers, locate, c.shouldAlignDuplicateHeadersWithStructFieldOrder);
    var check := HeaderCheck(c, fields, headers);
    if check.Some? {
      return [], check;
    }
    sent, err := SendRows(items[1..], RowPlan(ByHeader(labels), false, None, setter, newInner), 2);
  }

  /** ReadToWithoutHeaders over the rows the csv reader yields. */
  method ReadToWithoutHeaders<R>(typeError: Option<string>, items: seq<ReadItem>, fields: seq<FieldInfo>,
                                 setter: Setter<R>, blank: R, newInner: R, prior: seq<R>)
    returns (out: seq<R>, err: Option<ReadError>)
    ensures Outcome(out, err) == ReadToWithoutHeadersOutcome(typeError, items, fields, setter, blank, newInner, prior)
  {
    if typeError.Some? {
      return prior, Some(TypeMismatch(typeError.value));
    }
    var all := ReadAll(items);
    if all.Err? {
      return prior, Some(Tokenizer(all.error));
    }
    var rows := all.value;
    if |rows| == 0 {
      return prior, Some(EmptyCsvFile);
    }
    var dest := EnsureOutCapacity(prior, |rows|, blank);
    var buf := new R[|dest|](i requires 0 <= i < |dest| => dest[i]);
    assert buf[..] == dest;
    if |fields| == 0 {
      return buf[..], Some(NoStructTags);
    }
    err := FillRows(items, RowPlan(ByPosition(fields), false, None, setter, newInner), 1, buf);
    out := buf[..];
  }

  /** ReadEachWithoutHeaders over the rows the csv reader yields, as
      written (rows reported from line 2). */
  method ReadEachWithoutHeaders<R>(typeError: Option<string>, items: seq<ReadItem>, fields: seq<FieldInfo>,
                                   setter: Setter<R>, newInner: R)
    returns (sent: seq<R>, err: Option<ReadError>)
    ensures Outcome(sent, err) == ReadEachWithoutHeadersOutcome(typeError, items, fields, setter, newInner)
  {
    if typeError.Some? {
      return [], Some(TypeMismatch(typeError.value));
    }
    if |fields| == 0 {
      return [], Some(NoStructTags);
    }
    sent, err := SendRows(items, RowPlan(ByPosition(fields), false, None, setter, newInner), 2);
  }

  // ---------------------------------------------------------------------------
  // Properties of the whole reads

  /** A successful ReadTo stores one record per body row, record i being
      body row i assembled through the header binding, with defaults and the
      configured error handler, and reported on line i + 2. A destination
      that was already longer keeps its entries after the last body row. */
  lemma ReadToFillsEveryRow<R>(c: ReadConfig<R>, typeError: Option<string>, items: seq<ReadItem>,
                               fields: seq<FieldInfo>, locate: Locator, setter: Setter<R>,
                               blank: R, newInner: R, prior: seq<R>)
    ensures var o := ReadToOutcome(c, typeError, items, fields, locate, setter, blank, newInner, prior);
      o.err.None? ==>
        && |items| > 0 && items[0].Row?
        && |o.records| == (if |prior| < |items| - 1 then |items| - 1 else |prior|)
        && (var plan := RowPlan(ByHeader(HeaderLabels(c, items[0].cells, locate)), true, c.errorHandler, setter, newInner);
            forall i :: 0 <= i < |items| - 1 ==>
              items[i + 1].Row? && AssembleRow(items[i + 1].cells, plan, i + 2) == RowOutcome(o.records[i], None))
        && forall i :: |items| - 1 <= i < |o.records| ==> o.records[i] == prior[i]
  {
    var o := ReadToOutcome(c, typeError, items, fields, locate, setter, blank, newInner, prior);
    if o.err.None? {
      var rows := ReadAll(items).value;
      assert items[0] == Row(rows[0]);
      var plan := RowPlan(ByHeader(HeaderLabels(c, items[0].cells, locate)), true, c.errorHandler, setter, newInner);
      StreamAt(items[1..], plan, 2);
    }
  }

  /** When a body row fails to parse, ReadTo still returns the slice
      ensureOutCapacity left, with the rows before the failing one stored:
      the failing row and every entry after it hold zero values when the
      slice was remade, and the caller's old entries when it was long
      enough. The failing row is the one on the reported line. */
  lemma ReadToParseErrorKeepsEarlierRows<R>(c: ReadConfig<R>, typeError: Option<string>, items: seq<ReadItem>,
                                            fields: seq<FieldInfo>, locate: Locator, setter: Setter<R>,
                                            blank: R, newInner: R, prior: seq<R>)
    ensures var o := ReadToOutcome(c, typeError, items, fields, locate, setter, blank, newInner, prior);
      o.err.Some? && o.err.value.Parse? ==>
        && |items| > 0 && items[0].Row?
        && |o.records| == (if |prior| < |items| - 1 then |items| - 1 else |prior|)
        && var k := o.err.value.error.line - 2;
           && 0 <= k < |items| - 1
           && items[k + 1].Row?
           && 1 <= o.err.value.error.column <= |items[k + 1].cells|
           && (var plan := RowPlan(ByHeader(HeaderLabels(c, items[0].cells, locate)), true, c.errorHandler, setter, newInner);
               forall i :: 0 <= i < k ==>
                 items[i + 1].Row? && AssembleRow(items[i + 1].cells, plan, i + 2) == RowOutcome(o.records[i], None))
           && forall i :: k <= i < |o.records| ==> o.records[i] == if |prior| < |items| - 1 then blank else prior[i]
  {
    var o := ReadToOutcome(c, typeError, items, fields, locate, setter, blank, newInner, prior);
    if o.err.Some? && o.err.value.Parse? {
      var rows := ReadAll(items).value;
      assert items[0] == Row(rows[0]);
      var plan := RowPlan(ByHeader(HeaderLabels(c, items[0].cells, locate)), true, c.errorHandler, setter, newInner);
      var s := Stream(items[1..], plan, 2);
      StreamParseErrorLine(items[1..], plan, 2);
      StreamRecordsAt(items[1..], plan, 2);
      var dest := EnsureOutCapacity(prior, |items| - 1, blank);
      var k := |s.records|;
      assert o.records == s.records + dest[k..];
      forall i | 0 <= i < k
        ensures items[i + 1].Row? && AssembleRow(items[i + 1].cells, plan, i + 2) == RowOutcome(o.records[i], None)
      {
        assert items[1..][i] == items[i + 1];
      }
      forall i | k <= i < |o.records|
        ensures o.records[i] == if |prior| < |items| - 1 then blank else prior[i]
      {
        assert o.records[i] == dest[i];
      }
      assert items[1..][k] == items[k + 1];
    }
  }

  /** The four reads on empty input: the slice reads report an empty file,
      ReadEach reports the end of input (it needs a header row), and
      ReadEachWithoutHeaders sends nothing and succeeds. */
  lemma EmptyInput<R>(c: ReadConfig<R>, fields: seq<FieldInfo>, locate: Locator, setter: Setter<R>,
                      blank: R, newInner: R, prior: seq<R>)
    requires fields != []
    ensures ReadToOutcome(c, None, [], fields, locate, setter, blank, newInner, prior) == Outcome(prior, Some(EmptyCsvFile))
    ensures ReadEachOutcome(c, None, [], fields, locate, setter, newInner) == Outcome([], Some(EndOfInput))
    ensures ReadToWithoutHeadersOutcome(None, [], fields, setter, blank, newInner, prior) == Outcome(prior, Some(EmptyCsvFile))
    ensures ReadEachWithoutHeadersOutcome(None, [], fields, setter, newInner) == Outcome([], None)
  {
  }

  // ---------------------------------------------------------------------------
  // Reported lines

  /** A result with its parse error, if any, moved one line down. */
  function ShiftError(e: Option<ReadError>): (r: Option<ReadError>)
    ensures r.None? <==> e.None?
    ensures e.Some? && e.value.Parse? ==> r.Some? && r.value.Parse? && r.value.error.line == e.value.error.line + 1
    ensures e.Some? && !e.value.Parse? ==> r == e
  {
    if e.Some? && e.value.Parse? then Some(Parse(e.value.error.(line := e.value.error.line + 1))) else e
  }

  /** Without an error handler, the line a row is read as only shows in the
      line of its parse error. */
  lemma {:induction false} AssembleLineShift<R>(cells: seq<string>, plan: RowPlan<R>, line: int)
    requires plan.handler.None?
    ensures AssembleRow(cells, plan, line + 1).record == AssembleRow(cells, plan, line).record
    ensures AssembleRow(cells, plan, line + 1).err == ShiftError(AssembleRow(cells, plan, line).err)
    decreases |cells|
  {
    if cells != [] {
      AssembleLineShift(cells[..|cells| - 1], plan, line);
    }
  }

  /** Likewise for a run of rows: starting the line count one later builds
      the same records and moves a parse error one line down. */
  lemma {:induction false} StreamLineShift<R>(items: seq<ReadItem>, plan: RowPlan<R>, lineBase: int)
    requires plan.handler.None?
    ensures Stream(items, plan, lineBase + 1).records == Stream(items, plan, lineBase).records
    ensures Stream(items, plan, lineBase + 1).err == ShiftError(Stream(items, plan, lineBase).err)
    decreases |items|
  {
    if items != [] {
      var n := |items| - 1;
      StreamLineShift(items[..n], plan, lineBase);
      if items[n].Row? {
        AssembleLineShift(items[n].cells, plan, n + lineBase);
      }
    }
  }

  /** ReadEachWithoutHeaders as written reports every parse error one line
      below the line it evidently means: it sends the same records as the
      corrected version, and its error is the corrected error moved down a
      line. */
  lemma ReadEachWithoutHeadersOffByOne<R>(typeError: Option<string>, items: seq<ReadItem>, fields: seq<FieldInfo>,
                                          setter: Setter<R>, newInner: R)
    ensures var written := ReadEachWithoutHeadersOutcome(typeError, items, fields, setter, newInner);
      var intended := ReadEachWithoutHeadersIntended(typeError, items, fields, setter, newInner);
      written.records == intended.records && written.err == ShiftError(intended.err)
  {
    if typeError.None? && fields != [] {
      StreamLineShift(items, RowPlan(ByPosition(fields), false, None, setter, newInner), 1);
    }
  }

  /** A one-row file whose only cell cannot be set: ReadToWithoutHeaders
      reports line 1, ReadEachWithoutHeaders as written reports line 2. */
  lemma ReadEachWithoutHeadersLineExample()
    ensures var fields := [FieldInfo(["A"], [0], "", false)];
      var failing: Setter<int> := (r: int, chain: seq<nat>, v: string, omit: bool) => Err("bad");
      && ReadToWithoutHeadersOutcome(None, [Row(["x"])], fields, failing, 0, 0, []).err
           == Some(Parse(ParseError(1, 1, "bad")))
      && ReadEachWithoutHeadersOutcome(None, [Row(["x"])], fields, failing, 0).err
           == Some(Parse(ParseError(2, 1, "bad")))
  {
    var fields := [FieldInfo(["A"], [0], "", false)];
    var failing: Setter<int> := (r: int, chain: seq<nat>, v: string, omit: bool) => Err("bad");
    var plan := RowPlan(ByPosition(fields), false, None, failing, 0);
    assert [Row(["x"])][..0] == [];
    assert ["x"][..0] == [];
    assert AssembleRow(["x"], plan, 1).err == Some(Parse(ParseError(1, 1, "bad")));
    assert AssembleRow(["x"], plan, 2).err == Some(Parse(ParseError(2, 1, "bad")));
  }

  /** The corrected ReadEachWithoutHeaders agrees with ReadToWithoutHeaders
      on any input the csv reader reads whole: the same error, at the same
      line, and the records it sends are the ones ReadToWithoutHeaders
      stores first. */
  lemma ReadEachWithoutHeadersIntendedAgrees<R>(typeError: Option<string>, items: seq<ReadItem>, fields: seq<FieldInfo>,
                                                setter: Setter<R>, blank: R, newInner: R, prior: seq<R>)
    requires items != [] && ReadAll(items).Ok?
    ensures var each := ReadEachWithoutHeadersIntended(typeError, items, fields, setter, newInner);
      var to := ReadToWithoutHeadersOutcome(typeError, items, fields, setter, blank, newInner, prior);
      && each.err == to.err
      && |each.records| <= |to.records|
      && (typeError.None? ==> each.records == to.records[..|each.records|])
  {
  }

  // ---------------------------------------------------------------------------
  // ReadTo and ReadEach

  /** The body rows with the defaults of the bound columns filled into their
      empty cells. */
  function FillDefaults(items: seq<ReadItem>, labels: map<int, FieldInfo>): (r: seq<ReadItem>)
    ensures |r| == |items|
    ensures forall i :: 0 <= i < |items| ==> r[i].Row? == items[i].Row?
  {
    seq(|items|, i requires 0 <= i < |items| =>
      match items[i]
      case Row(cells) => Row(WithDefaults(cells, labels))
      case Broken(reason) => Broken(reason))
  }

  /** Substituting defaults while reading a run of rows is reading the rows
      with the defaults filled in. */
  lemma {:induction false} StreamDefaults<R>(items: seq<ReadItem>, plan: RowPlan<R>, lineBase: int)
    requires plan.columns.ByHeader?
    ensures Stream(items, plan.(useDefault := true), lineBase)
         == Stream(FillDefaults(items, plan.columns.labels), plan.(useDefault := false), lineBase)
    decreases |items|
  {
    if items != [] {
      var n := |items| - 1;
      assert FillDefaults(items, plan.columns.labels)[..n] == FillDefaults(items[..n], plan.columns.labels);
      StreamDefaults(items[..n], plan, lineBase);
      if items[n].Row? {
        DefaultSubstitution(items[n].cells, plan, n + lineBase);
      }
    }
  }

  /** Without an error handler, ReadTo is ReadEach on the same file with the
      defaults filled in: the same error, and ReadEach sends exactly the
      records ReadTo stores before the zero-valued tail. */
  lemma ReadToIsReadEachWithDefaults<R>(c: ReadConfig<R>, items: seq<ReadItem>,
                                        fields: seq<FieldInfo>, locate: Locator, setter: Setter<R>,
                                        blank: R, newInner: R, prior: seq<R>)
    requires c.errorHandler.None?
    requires items != [] && ReadAll(items).Ok?
    ensures var to := ReadToOutcome(c, None, items, fields, locate, setter, blank, newInner, prior);
      var filled := [items[0]] + FillDefaults(items[1..], HeaderLabels(c, items[0].cells, locate));
      var each := ReadEachOutcome(c, None, filled, fields, locate, setter, newInner);
      && each.err == to.err
      && |each.records| <= |to.records|
      && each.records == to.records[..|each.records|]
  {
    var labels := HeaderLabels(c, items[0].cells, locate);
    var filled := [items[0]] + FillDefaults(items[1..], labels);
    assert filled[0] == items[0] && filled[1..] == FillDefaults(items[1..], labels);
    assert items[0] == Row(ReadAll(items).value[0]);
    StreamDefaults(items[1..], RowPlan(ByHeader(labels), true, None, setter, newInner), 2);
  }
}
