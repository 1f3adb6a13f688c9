/** XsvWriter: writes a slice of records, or the values received from a
    channel, as a header row and one row per record. The columns are the
    selected fields put in SortOrder; HeaderModifier renames header labels;
    OnRecord transforms each record before its cells are read. */
module XsvWriter {
  import opened Common
  import opened Permutations
  import opened Encode
  import opened XsvWrite

  /** The generic reorderColumns: with more than one target each element
      moves to its target position, otherwise the row is kept as it is. */
  function Ordered<T>(row: seq<T>, sortOrder: seq<int>, zero: T): (r: seq<T>)
    requires |sortOrder| > 1 ==> |sortOrder| <= |row| && InRange(sortOrder, |row|)
    ensures |r| == |row|
    ensures |sortOrder| <= 1 ==> r == row
  {
    if |sortOrder| > 1 then Scatter(row, sortOrder, zero) else row
  }

  /** Every reordered position holds an element of the row or the zero value. */
  lemma OrderedFrom<T>(row: seq<T>, sortOrder: seq<int>, zero: T)
    requires |sortOrder| > 1 ==> |sortOrder| <= |row| && InRange(sortOrder, |row|)
    ensures forall j :: 0 <= j < |row| ==> Ordered(row, sortOrder, zero)[j] == zero || Ordered(row, sortOrder, zero)[j] in row
  {
    if |sortOrder| > 1 {
      ScatterUntargeted(row, sortOrder, zero);
    }
  }

  method ReorderRow<T>(row: seq<T>, sortOrder: seq<int>, zero: T) returns (newLine: seq<T>)
    requires |sortOrder| > 1 ==> |sortOrder| <= |row| && InRange(sortOrder, |row|)
    ensures newLine == Ordered(row, sortOrder, zero)
  {
    if |sortOrder| > 1 {
      var line := new T[|row|](_ => zero);
      assert line[..] == Scatter(row, sortOrder[..0], zero);
      var from := 0;
      while from < |sortOrder|
        invariant 0 <= from <= |sortOrder|
        invariant line[..] == Scatter(row, sortOrder[..from], zero)
      {
        line[sortOrder[from]] := row[from];
        assert sortOrder[..from + 1][..from] == sortOrder[..from];
        from := from + 1;
      }
      assert sortOrder[..|sortOrder|] == sortOrder;
      newLine := line[..];
    } else {
      newLine := row;
    }
  }

  /** The output columns: the selected fields put in SortOrder. A SortOrder of
      the wrong length is refused; a target past the last column panics, and
      so does a column no target fills, whose zero fieldInfo has no key. */
  function OutputColumns(c: WriteConfig<Value>, fields: seq<FieldInfo>): (r: Result<seq<FieldInfo>, WriteError>)
    requires WellFormed(fields)
    ensures r.Ok? ==> WellFormed(r.value)
    ensures r.Err? && |c.sortOrder| > 0 && |c.sortOrder| != |SelectedFieldInfos(c.selectedColumns, fields)| ==>
            r.error == SortOrderLength(|SelectedFieldInfos(c.selectedColumns, fields)|)
    ensures |c.sortOrder| == 0 || (|c.sortOrder| == 1 && |SelectedFieldInfos(c.selectedColumns, fields)| == 1) ==>
            r == Ok(SelectedFieldInfos(c.selectedColumns, fields))
  {
    var selected := SelectedFieldInfos(c.selectedColumns, fields);
    SelectedWellFormed(c.selectedColumns, fields);
    match CheckSortOrderSlice(c, |selected|)
    case Some(e) => Err(e)
    case None =>
      if |c.sortOrder| > 1 && !InRange(c.sortOrder, |selected|) then Err(IndexOutOfRange)
      else
        var cols := Ordered(selected, c.sortOrder, ZeroField);
        OrderedFrom(selected, c.sortOrder, ZeroField);
        if exists i :: 0 <= i < |cols| && |cols[i].keys| == 0 then Err(IndexOutOfRange)
        else Ok(cols)
  }

  /** A header label: the HeaderModifier rename of the canonical key, if any. */
  function Label(f: FieldInfo, modifier: map<string, string>): string
    requires |f.keys| > 0
  {
    if FirstKey(f) in modifier then modifier[FirstKey(f)] else FirstKey(f)
  }

  /** Every column has a canonical key. */
  predicate WellFormedKeys(cols: seq<FieldInfo>) {
    forall i :: 0 <= i < |cols| ==> |cols[i].keys| > 0
  }

  function HeaderRow(cols: seq<FieldInfo>, modifier: map<string, string>): (r: seq<string>)
    requires WellFormedKeys(cols)
    ensures |r| == |cols|
  {
    seq(|cols|, i requires 0 <= i < |cols| => Label(cols[i], modifier))
  }

  /** The records as OnRecord returns them. */
  function Transformed(onRecord: Option<Value -> Value>, data: seq<Value>): (r: seq<Value>)
    ensures |r| == |data|
  {
    if onRecord.None? then data else seq(|data|, i requires 0 <= i < |data| => onRecord.value(data[i]))
  }

  /** Everything Write hands to the csv.Writer, and its result: nothing when
      the element type is not a struct or the columns cannot be built; else
      the header (unless omitted) and one row per transformed record, up to
      the first record whose cells fail. */
  function WriteEmission(c: WriteConfig<Value>, data: seq<Value>, innerKind: Kind, wasPointer: bool,
                         fields: seq<FieldInfo>, asString: Formatter): Emission
    requires WellFormed(fields)
  {
    if EnsureInInnerType(innerKind).Some? then Emission([], EnsureInInnerType(innerKind))
    else match OutputColumns(c, fields)
      case Err(e) => Emission([], Some(e))
      case Ok(cols) =>
        var body := RecordRows(Transformed(c.onRecord, data), cols, wasPointer, asString);
        Emission((if c.omitHeaders then [] else [HeaderRow(cols, c.headerModifier)]) + body.rows, body.err)
  }

  /** The kind of a value's type. */
  function KindOf(v: Value): Kind {
    match v
    case Record(_) => Struct
    case Pointer(_) => Ptr
    case Sequence(_) => Slice
    case Leaf(_) => Other
  }

  /** getConcreteReflectValueAndType on a received value: a pointer is
      followed to what it points at; a nil pointer, whose target has no type
      to report, is a reflect panic. */
  function Concrete(v: Value): Result<Value, WriteError> {
    match v
    case Pointer(None) => Err(ReflectMisuse)
    case Pointer(Some(x)) => Ok(x)
    case _ => Ok(v)
  }

  /** The record the write closure reads cells from: the concrete received
      value, passed through OnRecord when it is set. OnRecord takes the
      element type itself, so for a pointer element the type assertion on the
      dereferenced value panics. */
  function Prepared(onRecord: Option<Value -> Value>, v: Value): Result<Value, WriteError> {
    match Concrete(v)
    case Err(e) => Err(e)
    case Ok(x) =>
      if onRecord.None? then Ok(x)
      else if v.Pointer? then Err(ReflectMisuse)
      else Ok(onRecord.value(x))
  }

  /** The cells of one received value, or why it cannot be written. */
  function ReceivedCells(onRecord: Option<Value -> Value>, v: Value, cols: seq<FieldInfo>,
                         wasPointer: bool, asString: Formatter): Result<seq<string>, WriteError>
    requires WellFormed(cols)
  {
    match Prepared(onRecord, v)
    case Err(e) => Err(e)
    case Ok(record) => RecordCells(record, cols, wasPointer, asString)
  }

  /** The cell rows of the received values in order, stopping at the first
      value that cannot be prepared or whose cells fail. */
  function ChanRows(onRecord: Option<Value -> Value>, received: seq<Value>, cols: seq<FieldInfo>,
                    wasPointer: bool, asString: Formatter): (e: Emission)
    requires WellFormed(cols)
    ensures |e.rows| <= |received|
    ensures e.err.None? ==> |e.rows| == |received|
    decreases |received|
  {
    if received == [] then Emission([], None)
    else
      var prev := ChanRows(onRecord, received[..|received| - 1], cols, wasPointer, asString);
      if prev.err.Some? then prev
      else match ReceivedCells(onRecord, received[|received| - 1], cols, wasPointer, asString)
        case Err(e) => Emission(prev.rows, Some(e))
        case Ok(cells) => Emission(prev.rows + [cells], None)
  }

  /** Everything WriteFromChan hands to the csv.Writer: a channel closed
      before its first value is an error; the first value is made concrete,
      and its kind must be a struct or a pointer and decides whether records
      are followed through a pointer; then the header (unless omitted) and
      every received value, the first included, made concrete in turn. */
  function WriteFromChanEmission(c: WriteConfig<Value>, received: seq<Value>,
                                 fields: seq<FieldInfo>, asString: Formatter): Emission
    requires WellFormed(fields)
  {
    if received == [] then Emission([], Some(ChannelIsClosed))
    else match Concrete(received[0])
      case Err(e) => Emission([], Some(e))
      case Ok(first) =>
        if EnsureStructOrPtr(KindOf(first)).Some? then Emission([], EnsureStructOrPtr(KindOf(first)))
        else ReceivedEmission(c, received, KindOf(first) == Ptr, fields, asString)
  }

  /** What WriteFromChan writes once the first value's kind is accepted:
      nothing when the columns cannot be built, else the header (unless
      omitted) and the rows of the received values. */
  function ReceivedEmission(c: WriteConfig<Value>, received: seq<Value>, wasPointer: bool,
                            fields: seq<FieldInfo>, asString: Formatter): Emission
    requires WellFormed(fields)
  {
    match OutputColumns(c, fields)
    case Err(e) => Emission([], Some(e))
    case Ok(cols) =>
      var body := ChanRows(c.onRecord, received, cols, wasPointer, asString);
      Emission((if c.omitHeaders then [] else [HeaderRow(cols, c.headerModifier)]) + body.rows, body.err)
  }

  /** The header loop: a renamed or canonical label per column; a column
      without a key is an index-out-of-range panic. */
  method BuildHeader(cols: seq<FieldInfo>, modifier: map<string, string>) returns (labels: seq<string>, err: Option<WriteError>)
    ensures err.None? <==> WellFormedKeys(cols)
    ensures err.Some? ==> err.value == IndexOutOfRange
    ensures err.None? ==> labels == HeaderRow(cols, modifier)
  {
    var buf := new string[|cols|];
    var i := 0;
    while i < |cols|
      invariant 0 <= i <= |cols|
      invariant forall k :: 0 <= k < i ==> |cols[k].keys| > 0 && buf[k] == Label(cols[k], modifier)
    {
      if |cols[i].keys| == 0 {
        return [], Some(IndexOutOfRange);
      }
      buf[i] := Label(cols[i], modifier);
      i := i + 1;
    }
    return buf[..], None;
  }

  /** The first r records were written as rows, without error. */
  ghost predicate WroteSoFar(records: seq<Value>, cols: seq<FieldInfo>, wasPointer: bool, asString: Formatter,
                             r: nat, rows: seq<seq<string>>)
    requires WellFormed(cols)
  {
    r <= |records| && RecordRows(records[..r], cols, wasPointer, asString) == Emission(rows, None)
  }

  /** The first r received values were written as rows, without error. */
  ghost predicate ReceivedSoFar(onRecord: Option<Value -> Value>, received: seq<Value>, cols: seq<FieldInfo>,
                                wasPointer: bool, asString: Formatter, r: nat, rows: seq<seq<string>>)
    requires WellFormed(cols)
  {
    r <= |received| && ChanRows(onRecord, received[..r], cols, wasPointer, asString) == Emission(rows, None)
  }

  /** One more record: a failing record ends the whole run with its error,
      a readable one adds its row. */
  lemma WroteStep(records: seq<Value>, cols: seq<FieldInfo>, wasPointer: bool, asString: Formatter,
                  r: nat, rows: seq<seq<string>>)
    requires WellFormed(cols) && WroteSoFar(records, cols, wasPointer, asString, r, rows) && r < |records|
    ensures var cells := RecordCells(records[r], cols, wasPointer, asString);
      && (cells.Err? ==> RecordRows(records, cols, wasPointer, asString) == Emission(rows, Some(cells.error)))
      && (cells.Ok? ==> WroteSoFar(records, cols, wasPointer, asString, r + 1, rows + [cells.value]))
  {
    RecordRowsStep(records, cols, wasPointer, asString, r);
    if RecordCells(records[r], cols, wasPointer, asString).Err? {
      RecordRowsErrSticks(records, cols, wasPointer, asString, r + 1);
    }
  }

  /** One more received value: one that cannot be written ends the whole run
      with its error, any other adds its row. */
  lemma ReceivedStep(onRecord: Option<Value -> Value>, received: seq<Value>, cols: seq<FieldInfo>,
                     wasPointer: bool, asString: Formatter, r: nat, rows: seq<seq<string>>)
    requires WellFormed(cols) && ReceivedSoFar(onRecord, received, cols, wasPointer, asString, r, rows) && r < |received|
    ensures var cells := ReceivedCells(onRecord, received[r], cols, wasPointer, asString);
      && (cells.Err? ==> ChanRows(onRecord, received, cols, wasPointer, asString) == Emission(rows, Some(cells.error)))
      && (cells.Ok? ==> ReceivedSoFar(onRecord, received, cols, wasPointer, asString, r + 1, rows + [cells.value]))
  {
    ChanRowsStep(onRecord, received, cols, wasPointer, asString, r);
    if ReceivedCells(onRecord, received[r], cols, wasPointer, asString).Err? {
      ChanRowsErrSticks(onRecord, received, cols, wasPointer, asString, r + 1);
    }
  }

  /** The row loop: each transformed record's cells are written in turn; the
      first failing record stops the loop. */
  method WriteRows(w: RowWriter, onRecord: Option<Value -> Value>, data: seq<Value>, cols: seq<FieldInfo>,
                   wasPointer: bool, asString: Formatter)
    returns (err: Option<WriteError>)
    requires WellFormed(cols)
    modifies w
    ensures w.rows == old(w.rows) + RecordRows(Transformed(onRecord, data), cols, wasPointer, asString).rows
    ensures err == RecordRows(Transformed(onRecord, data), cols, wasPointer, asString).err
  {
    ghost var records := Transformed(onRecord, data);
    ghost var rows: seq<seq<string>> := [];
    var buf := new string[|cols|];
    var r := 0;
    assert records[..r] == [];
    while r < |data|
      invariant 0 <= r <= |data|
      invariant WroteSoFar(records, cols, wasPointer, asString, r, rows)
      invariant w.rows == old(w.rows) + rows
    {
      var record := data[r];
      if onRecord.Some? {
        record := onRecord.value(data[r]);
      }
      assert record == records[r];
      WroteStep(records, cols, wasPointer, asString, r, rows);
      var e := FillCells(buf, record, cols, wasPointer, asString);
      if e.Some? {
        return e;
      }
      w.Write(buf[..]);
      rows := rows + [buf[..]];
      r := r + 1;
    }
    assert records[..r] == records;
    return None;
  }

  /** The receive loop: each value is made concrete, passed through
      OnRecord when set, and its cells written; the first failure stops the
      loop. */
  method WriteReceived(w: RowWriter, onRecord: Option<Value -> Value>, received: seq<Value>, cols: seq<FieldInfo>,
                       wasPointer: bool, asString: Formatter)
    returns (err: Option<WriteError>)
    requires WellFormed(cols)
    modifies w
    ensures w.rows == old(w.rows) + ChanRows(onRecord, received, cols, wasPointer, asString).rows
    ensures err == ChanRows(onRecord, received, cols, wasPointer, asString).err
  {
    ghost var rows: seq<seq<string>> := [];
    var buf := new string[|cols|];
    var r := 0;
    while r < |received|
      invariant 0 <= r <= |received|
      invariant ReceivedSoFar(onRecord, received, cols, wasPointer, asString, r, rows)
      invariant w.rows == old(w.rows) + rows
    {
      ReceivedStep(onRecord, received, cols, wasPointer, asString, r, rows);
      var val := Concrete(received[r]);
      if val.Err? {
        return Some(val.error);
      }
      var record := val.value;
      if onRecord.Some? {
        if received[r].Pointer? {
          return Some(ReflectMisuse);
        }
        record := onRecord.value(record);
      }
      assert Prepared(onRecord, received[r]) == Ok(record);
      var e := FillCells(buf, record, cols, wasPointer, asString);
      if e.Some? {
        return e;
      }
      w.Write(buf[..]);
      rows := rows + [buf[..]];
      r := r + 1;
    }
    assert received[..r] == received;
    return None;
  }

  /** Selection, the SortOrder check, the reordering and the header loop. */
  method BuildColumns(c: WriteConfig<Value>, fields: seq<FieldInfo>)
    returns (cols: seq<FieldInfo>, labels: seq<string>, err: Option<WriteError>)
    requires WellFormed(fields)
    ensures err.None? <==> OutputColumns(c, fields).Ok?
    ensures err.None? ==> cols == OutputColumns(c, fields).value && labels == HeaderRow(cols, c.headerModifier)
    ensures err.Some? ==> OutputColumns(c, fields) == Err(err.value)
  {
    var fieldInfos := GetSelectedFieldInfos(c, fields);
    SelectedWellFormed(c.selectedColumns, fields);
    err := CheckSortOrderSlice(c, |fieldInfos|);
    if err.Some? {
      return [], [], err;
    }
    if |c.sortOrder| > 1 && !InRange(c.sortOrder, |fieldInfos|) {
      return [], [], Some(IndexOutOfRange);
    }
    cols := ReorderRow(fieldInfos, c.sortOrder, ZeroField);
    OrderedFrom(fieldInfos, c.sortOrder, ZeroField);
    labels, err := BuildHeader(cols, c.headerModifier);
  }

  /** The part Write and WriteFromChan share once the record kind is settled. */
  method Emit(c: WriteConfig<Value>, w: RowWriter, data: seq<Value>, wasPointer: bool,
              fields: seq<FieldInfo>, asString: Formatter)
    returns (err: Option<WriteError>)
    requires WellFormed(fields)
    modifies w
    ensures w.rows == old(w.rows) + WriteEmission(c, data, Struct, wasPointer, fields, asString).rows
    ensures err == WriteEmission(c, data, Struct, wasPointer, fields, asString).err
  {
    var cols, labels;
    cols, labels, err := BuildColumns(c, fields);
    if err.Some? {
      return;
    }
    if !c.omitHeaders {
      w.Write(labels);
    }
    err := WriteRows(w, c.onRecord, data, cols, wasPointer, asString);
  }

  /** The part of WriteFromChan after the first value's kind is accepted. */
  method EmitReceived(c: WriteConfig<Value>, w: RowWriter, received: seq<Value>, wasPointer: bool,
                      fields: seq<FieldInfo>, asString: Formatter)
    returns (err: Option<WriteError>)
    requires WellFormed(fields)
    modifies w
    ensures w.rows == old(w.rows) + ReceivedEmission(c, received, wasPointer, fields, asString).rows
    ensures err == ReceivedEmission(c, received, wasPointer, fields, asString).err
  {
    var cols, labels;
    cols, labels, err := BuildColumns(c, fields);
    if err.Some? {
      return;
    }
    if !c.omitHeaders {
      w.Write(labels);
    }
    err := WriteReceived(w, c.onRecord, received, cols, wasPointer, asString);
  }

  /** An XsvWriter bound to its csv.Writer (SetWriter). */
  class XsvWriter {
    const config: WriteConfig<Value>
    const writer: RowWriter

    constructor (config: WriteConfig<Value>, writer: RowWriter)
      ensures this.config == config && this.writer == writer
    {
      this.config := config;
      this.writer := writer;
    }

    /** Write: data is the container's elements, innerKind and wasPointer
        its element type as the reflection helpers report it, fields the
        schema getFieldInfos builds for it. */
    method Write(data: seq<Value>, innerKind: Kind, wasPointer: bool, fields: seq<FieldInfo>, asString: Formatter)
      returns (err: Option<WriteError>)
      requires WellFormed(fields)
      modifies writer
      ensures writer.rows == old(writer.rows) + WriteEmission(config, data, innerKind, wasPointer, fields, asString).rows
      ensures err == WriteEmission(config, data, innerKind, wasPointer, fields, asString).err
    {
      err := EnsureInInnerType(innerKind);
      if err.Some? {
        return;
      }
      err := Emit(config, writer, data, wasPointer, fields, asString);
    }

    /** WriteFromChan: received is everything the channel delivers before it
        is closed, fields the schema getFieldInfos builds for the first
        value's concrete type. */
    method WriteFromChan(received: seq<Value>, fields: seq<FieldInfo>, asString: Formatter)
      returns (err: Option<WriteError>)
      requires WellFormed(fields)
      modifies writer
      ensures writer.rows == old(writer.rows) + WriteFromChanEmission(config, received, fields, asString).rows
      ensures err == WriteFromChanEmission(config, received, fields, asString).err
    {
      if |received| == 0 {
        return Some(ChannelIsClosed);
      }
      var first := Concrete(received[0]);
      if first.Err? {
        return Some(first.error);
      }
      err := EnsureStructOrPtr(KindOf(first.value));
      if err.Some? {
        return;
      }
      err := EmitReceived(config, writer, received, KindOf(first.value) == Ptr, fields, asString);
    }
  }

  // ---------------------------------------------------------------------------
  // Properties of what is written

  /** With the columns built, Write emits the header row (unless omitted)
      followed by the rows of the transformed records. */
  lemma WriteEmissionBody(c: WriteConfig<Value>, data: seq<Value>, wasPointer: bool, fields: seq<FieldInfo>, asString: Formatter)
    requires WellFormed(fields) && OutputColumns(c, fields).Ok?
    ensures var cols := OutputColumns(c, fields).value;
      var body := RecordRows(Transformed(c.onRecord, data), cols, wasPointer, asString);
      WriteEmission(c, data, Struct, wasPointer, fields, asString)
        == Emission((if c.omitHeaders then [] else [HeaderRow(cols, c.headerModifier)]) + body.rows, body.err)
  {
  }

  /** A successful Write emits the header (unless omitted) and then one row per
      record, each with one cell per output column. On error, the rows of the
      earlier records were written and the error is the failing record's. */
  lemma WriteOutput(c: WriteConfig<Value>, data: seq<Value>, wasPointer: bool, fields: seq<FieldInfo>, asString: Formatter)
    requires WellFormed(fields) && OutputColumns(c, fields).Ok?
    ensures var cols := OutputColumns(c, fields).value;
      var e := WriteEmission(c, data, Struct, wasPointer, fields, asString);
      var records := Transformed(c.onRecord, data);
      var h := if c.omitHeaders then 0 else 1;
      && h <= |e.rows| <= |data| + h
      && (!c.omitHeaders ==> e.rows[0] == HeaderRow(cols, c.headerModifier))
      && (e.err.None? ==> |e.rows| == |data| + h)
      && (forall i :: h <= i < |e.rows| ==> |e.rows[i]| == |cols|)
      && (e.err.Some? ==> |e.rows| < |data| + h)
      && (e.err.Some? ==> RecordCells(records[|e.rows| - h], cols, wasPointer, asString) == Err(e.err.value))
  {
    var cols := OutputColumns(c, fields).value;
    var records := Transformed(c.onRecord, data);
    RecordRowsAt(records, cols, wasPointer, asString);
    WriteEmissionBody(c, data, wasPointer, fields, asString);
  }

  /** Cell j of the data row written for record k (the row after the
      header, when there is one) is the text of output column j read from
      the record OnRecord returned for record k. */
  lemma WriteOutputCells(c: WriteConfig<Value>, data: seq<Value>, wasPointer: bool, fields: seq<FieldInfo>, asString: Formatter)
    requires WellFormed(fields) && OutputColumns(c, fields).Ok?
    ensures var e := WriteEmission(c, data, Struct, wasPointer, fields, asString);
      var h := if c.omitHeaders then 0 else 1;
      h <= |e.rows| && CellsRead(Transformed(c.onRecord, data), OutputColumns(c, fields).value, wasPointer, asString, e.rows[h..])
  {
    var cols := OutputColumns(c, fields).value;
    var records := Transformed(c.onRecord, data);
    RecordRowsCells(records, cols, wasPointer, asString);
    WriteEmissionBody(c, data, wasPointer, fields, asString);
    var e := WriteEmission(c, data, Struct, wasPointer, fields, asString);
    var h := if c.omitHeaders then 0 else 1;
    assert e.rows[h..] == RecordRows(records, cols, wasPointer, asString).rows;
  }

  /** HeaderModifier renames header labels only: the data rows and the
      result do not depend on it. */
  lemma HeaderModifierOnlyRenamesHeader(c: WriteConfig<Value>, m: map<string, string>, data: seq<Value>,
                                        innerKind: Kind, wasPointer: bool, fields: seq<FieldInfo>, asString: Formatter)
    requires WellFormed(fields)
    ensures var e1 := WriteEmission(c, data, innerKind, wasPointer, fields, asString);
      var e2 := WriteEmission(c.(headerModifier := m), data, innerKind, wasPointer, fields, asString);
      var h := if c.omitHeaders || e1.rows == [] then 0 else 1;
      && e1.err == e2.err
      && |e1.rows| == |e2.rows|
      && e1.rows[h..] == e2.rows[h..]
  {
    assert OutputColumns(c.(headerModifier := m), fields) == OutputColumns(c, fields);
  }

  /** OmitHeaders drops the header row and nothing else. */
  lemma OmitHeadersDropsOnlyHeader(c: WriteConfig<Value>, data: seq<Value>, wasPointer: bool,
                                   fields: seq<FieldInfo>, asString: Formatter)
    requires WellFormed(fields) && OutputColumns(c, fields).Ok?
    ensures var shown := WriteEmission(c.(omitHeaders := false), data, Struct, wasPointer, fields, asString);
      var omitted := WriteEmission(c.(omitHeaders := true), data, Struct, wasPointer, fields, asString);
      && |shown.rows| > 0
      && omitted.rows == shown.rows[1..]
      && omitted.err == shown.err
  {
    assert OutputColumns(c.(omitHeaders := false), fields) == OutputColumns(c, fields);
    assert OutputColumns(c.(omitHeaders := true), fields) == OutputColumns(c, fields);
  }

  /** A SortOrder whose length is neither zero nor the number of output
      columns is refused before anything is written. */
  lemma SortOrderLengthChecked(c: WriteConfig<Value>, data: seq<Value>, wasPointer: bool,
                               fields: seq<FieldInfo>, asString: Formatter)
    requires WellFormed(fields)
    requires |c.sortOrder| > 0 && |c.sortOrder| != |SelectedFieldInfos(c.selectedColumns, fields)|
    ensures WriteEmission(c, data, Struct, wasPointer, fields, asString)
         == Emission([], Some(SortOrderLength(|SelectedFieldInfos(c.selectedColumns, fields)|)))
  {
  }

  /** A SortOrder of the right length is accepted exactly when it is a
      permutation, and then selected field k becomes output column
      SortOrder[k]; any other SortOrder panics before anything is written. */
  lemma SortOrderPermutes(c: WriteConfig<Value>, fields: seq<FieldInfo>)
    requires WellFormed(fields)
    requires |c.sortOrder| > 1 && |c.sortOrder| == |SelectedFieldInfos(c.selectedColumns, fields)|
    ensures OutputColumns(c, fields).Ok? <==> IsPermutation(c.sortOrder)
    ensures OutputColumns(c, fields).Err? ==> OutputColumns(c, fields).error == IndexOutOfRange
    ensures IsPermutation(c.sortOrder) ==>
      var selected := SelectedFieldInfos(c.selectedColumns, fields);
      forall k :: 0 <= k < |selected| ==> OutputColumns(c, fields).value[c.sortOrder[k]] == selected[k]
  {
    var selected := SelectedFieldInfos(c.selectedColumns, fields);
    var so := c.sortOrder;
    SelectedWellFormed(c.selectedColumns, fields);
    if InRange(so, |selected|) {
      var cols := Scatter(selected, so, ZeroField);
      ScatterUntargeted(selected, so, ZeroField);
      if Injective(so) {
        ScatterAt(selected, so, ZeroField);
        PermutationOnto(so);
        forall i | 0 <= i < |cols|
          ensures |cols[i].keys| > 0
        {
          assert i in so;
          var k :| 0 <= k < |selected| && cols[i] == selected[k];
        }
      } else {
        NotInjectiveMisses(so);
        var t :| 0 <= t < |so| && t !in so;
        assert cols[t] == ZeroField;
      }
    }
  }

  /** A channel closed before its first value writes nothing. */
  lemma ClosedChannelWritesNothing(c: WriteConfig<Value>, fields: seq<FieldInfo>, asString: Formatter)
    requires WellFormed(fields)
    ensures WriteFromChanEmission(c, [], fields, asString) == Emission([], Some(ChannelIsClosed))
  {
  }

  /** One more received value: one that cannot be written ends the run with
      its error, any other adds its row. */
  lemma ChanRowsStep(onRecord: Option<Value -> Value>, received: seq<Value>, cols: seq<FieldInfo>,
                     wasPointer: bool, asString: Formatter, r: int)
    requires WellFormed(cols) && 0 <= r < |received|
    requires ChanRows(onRecord, received[..r], cols, wasPointer, asString).err.None?
    ensures var prev := ChanRows(onRecord, received[..r], cols, wasPointer, asString);
      var next := ChanRows(onRecord, received[..r + 1], cols, wasPointer, asString);
      var cells := ReceivedCells(onRecord, received[r], cols, wasPointer, asString);
      && (cells.Err? ==> next == Emission(prev.rows, Some(cells.error)))
      && (cells.Ok? ==> next == Emission(prev.rows + [cells.value], None))
  {
    assert received[..r + 1][..r] == received[..r];
  }

  /** Once a prefix of the received values fails, the whole run fails the same way. */
  lemma {:induction false} ChanRowsErrSticks(onRecord: Option<Value -> Value>, received: seq<Value>, cols: seq<FieldInfo>,
                                             wasPointer: bool, asString: Formatter, j: nat)
    requires WellFormed(cols) && j <= |received|
    requires ChanRows(onRecord, received[..j], cols, wasPointer, asString).err.Some?
    ensures ChanRows(onRecord, received, cols, wasPointer, asString) == ChanRows(onRecord, received[..j], cols, wasPointer, asString)
    decreases |received| - j
  {
    if j < |received| {
      var n := |received| - 1;
      assert received[..n][..j] == received[..j];
      ChanRowsErrSticks(onRecord, received[..n], cols, wasPointer, asString, j);
    } else {
      assert received[..j] == received;
    }
  }

  /** Values that are not pointers are written as they are: the run is the
      one Write makes of the same records. */
  lemma {:induction false} ChanRowsPlain(onRecord: Option<Value -> Value>, received: seq<Value>, cols: seq<FieldInfo>,
                                         wasPointer: bool, asString: Formatter)
    requires WellFormed(cols)
    requires forall i :: 0 <= i < |received| ==> !received[i].Pointer?
    ensures ChanRows(onRecord, received, cols, wasPointer, asString)
         == RecordRows(Transformed(onRecord, received), cols, wasPointer, asString)
    decreases |received|
  {
    if received != [] {
      var n := |received| - 1;
      var t := Transformed(onRecord, received);
      ChanRowsPlain(onRecord, received[..n], cols, wasPointer, asString);
      assert t[..n] == Transformed(onRecord, received[..n]);
      assert Prepared(onRecord, received[n]) == Ok(t[n]);
    }
  }

  /** Reading through a non-nil pointer announced as one is reading its target. */
  lemma RecordCellsThroughPointer(x: Value, cols: seq<FieldInfo>, asString: Formatter)
    requires WellFormed(cols)
    ensures RecordCells(Pointer(Some(x)), cols, true, asString) == RecordCells(x, cols, false, asString)
    decreases |cols|
  {
    if cols != [] {
      RecordCellsThroughPointer(x, cols[..|cols| - 1], asString);
    }
  }

  /** Non-nil pointers received without OnRecord are followed: the run is the
      one Write makes of the same pointers. */
  lemma {:induction false} ChanRowsDereferenced(received: seq<Value>, cols: seq<FieldInfo>, asString: Formatter)
    requires WellFormed(cols)
    requires forall i :: 0 <= i < |received| ==> received[i].Pointer? && received[i].target.Some?
    ensures ChanRows(None, received, cols, false, asString) == RecordRows(received, cols, true, asString)
    decreases |received|
  {
    if received != [] {
      var n := |received| - 1;
      ChanRowsDereferenced(received[..n], cols, asString);
      RecordCellsThroughPointer(received[n].target.value, cols, asString);
    }
  }

  /** Streaming struct values writes exactly what Write writes for a slice of
      the same structs, OnRecord included. */
  lemma StreamingMatchesWrite(c: WriteConfig<Value>, received: seq<Value>, fields: seq<FieldInfo>, asString: Formatter)
    requires WellFormed(fields) && |received| > 0 && received[0].Record?
    requires forall i :: 0 <= i < |received| ==> !received[i].Pointer?
    ensures WriteFromChanEmission(c, received, fields, asString) == WriteEmission(c, received, Struct, false, fields, asString)
  {
    if OutputColumns(c, fields).Ok? {
      ChanRowsPlain(c.onRecord, received, OutputColumns(c, fields).value, false, asString);
    }
  }

  /** Streaming non-nil pointers to structs without OnRecord writes exactly
      what Write writes for a slice of the same pointers. */
  lemma StreamingPointersMatchWrite(c: WriteConfig<Value>, received: seq<Value>, fields: seq<FieldInfo>, asString: Formatter)
    requires WellFormed(fields) && c.onRecord.None? && |received| > 0
    requires forall i :: 0 <= i < |received| ==> received[i].Pointer? && received[i].target.Some?
    requires received[0].target.value.Record?
    ensures WriteFromChanEmission(c, received, fields, asString) == WriteEmission(c, received, Struct, true, fields, asString)
  {
    if OutputColumns(c, fields).Ok? {
      ChanRowsDereferenced(received, OutputColumns(c, fields).value, asString);
      assert Transformed(c.onRecord, received) == received;
    }
  }

  /** A nil pointer received is a panic: as the first value before anything
      is written, later with no row written for it or anything after it. */
  lemma NilReceivedPanics(c: WriteConfig<Value>, received: seq<Value>, fields: seq<FieldInfo>, asString: Formatter, k: int)
    requires WellFormed(fields) && 0 <= k < |received| && received[k] == Pointer(None)
    ensures var e := WriteFromChanEmission(c, received, fields, asString);
      && e.err.Some?
      && |e.rows| <= k + 1
      && (k == 0 ==> e == Emission([], Some(ReflectMisuse)))
  {
    if received[0] != Pointer(None) && Concrete(received[0]).Ok? && OutputColumns(c, fields).Ok? {
      var cols := OutputColumns(c, fields).value;
      var wasPointer := KindOf(Concrete(received[0]).value) == Ptr;
      var prev := ChanRows(c.onRecord, received[..k], cols, wasPointer, asString);
      if prev.err.None? {
        ChanRowsStep(c.onRecord, received, cols, wasPointer, asString, k);
      } else {
        assert received[..k + 1][..k] == received[..k];
      }
      ChanRowsErrSticks(c.onRecord, received, cols, wasPointer, asString, k + 1);
    }
  }

  /** With OnRecord set, a pointer element panics at the type assertion on
      the first value: at most the header is written. */
  lemma OnRecordPointerPanics(c: WriteConfig<Value>, received: seq<Value>, fields: seq<FieldInfo>, asString: Formatter)
    requires WellFormed(fields) && c.onRecord.Some? && |received| > 0 && received[0].Pointer?
    ensures var e := WriteFromChanEmission(c, received, fields, asString);
      && e.err.Some?
      && |e.rows| <= 1
      && ((received[0].target.Some? && EnsureStructOrPtr(KindOf(received[0].target.value)).None?
           && OutputColumns(c, fields).Ok?) ==> e.err == Some(ReflectMisuse))
  {
    if received[0].target.Some? && EnsureStructOrPtr(KindOf(received[0].target.value)).None? && OutputColumns(c, fields).Ok? {
      var cols := OutputColumns(c, fields).value;
      var wasPointer := KindOf(received[0].target.value) == Ptr;
      assert received[..0] == [];
      ChanRowsStep(c.onRecord, received, cols, wasPointer, asString, 0);
      ChanRowsErrSticks(c.onRecord, received, cols, wasPointer, asString, 1);
    }
  }
}
