/** Csv: the map conveniences. CSVToMap turns a two-column file into a map
    from first cell to second cell, CSVToMaps turns every body row into a
    map keyed by the header row, and UnmarshalCSVToMap fills a typed map
    through key and value parsers. Records come from the csv reader as a
    sequence of ReadItems, which also fixes every record's width to the
    first record's. */
module Csv {
  import opened Common

  /** DefaultNameNormalizer: the normaliser that changes nothing. */
  function DefaultNameNormalizer(): (n: string -> string)
    ensures forall s :: n(s) == s
  {
    s => s
  }

  datatype CsvError =
    | EndOfInput           // io.EOF from reading the header row of an empty file
    | ReadFailure(reason: string)
    | NotTwoColumns        // "maps can only be created for csv of two columns"
    | NotAMap              // the target of UnmarshalCSVToMap is not a map
    | Unparsable(cause: string)  // setField could not convert a cell

  /** The csv reader's guarantee (FieldsPerRecord left at 0): every record it
      returns has the width of the first record. */
  predicate FixedWidth(items: seq<ReadItem>) {
    items != [] && items[0].Row? ==>
      forall i :: 0 <= i < |items| && items[i].Row? ==> |items[i].cells| == |items[0].cells|
  }

  // ---------------------------------------------------------------------------
  // Building a map from key/value pairs in order

  /** The map built by assigning the pairs in order, so a later pair
      overwrites an earlier one with the same key. */
  function Assoc<K, V>(pairs: seq<(K, V)>): map<K, V>
    decreases |pairs|
  {
    if pairs == [] then map[]
    else
      var n := |pairs| - 1;
      Assoc(pairs[..n])[pairs[n].0 := pairs[n].1]
  }

  /** Every key of the pairs is a key of the map. */
  lemma {:induction false} AssocHasKeys<K, V>(pairs: seq<(K, V)>)
    ensures forall i :: 0 <= i < |pairs| ==> pairs[i].0 in Assoc(pairs)
    decreases |pairs|
  {
    if pairs != [] {
      var n := |pairs| - 1;
      AssocHasKeys(pairs[..n]);
      forall i | 0 <= i < n
        ensures pairs[i].0 in Assoc(pairs)
      {
        assert pairs[..n][i].0 == pairs[i].0;
      }
    }
  }

  /** Every key of the map is the key of some pair. */
  lemma {:induction false} AssocOnlyKeys<K, V>(pairs: seq<(K, V)>)
    ensures forall k :: k in Assoc(pairs) ==> exists i :: 0 <= i < |pairs| && pairs[i].0 == k
    decreases |pairs|
  {
    if pairs != [] {
      var n := |pairs| - 1;
      var pre := pairs[..n];
      AssocOnlyKeys(pre);
      forall k | k in Assoc(pairs)
        ensures exists i :: 0 <= i < |pairs| && pairs[i].0 == k
      {
        if k != pairs[n].0 {
          assert k in Assoc(pre);
          var i :| 0 <= i < |pre| && pre[i].0 == k;
          assert pairs[i].0 == k;
        } else {
          assert pairs[n].0 == k;
        }
      }
    }
  }

  /** A key that no later pair repeats maps to the value of its pair. */
  lemma {:induction false} AssocLastValue<K, V>(pairs: seq<(K, V)>)
    ensures forall i :: 0 <= i < |pairs| && (forall j :: i < j < |pairs| ==> pairs[j].0 != pairs[i].0) ==>
              pairs[i].0 in Assoc(pairs) && Assoc(pairs)[pairs[i].0] == pairs[i].1
    decreases |pairs|
  {
    if pairs != [] {
      var n := |pairs| - 1;
      var pre := pairs[..n];
      AssocLastValue(pre);
      forall i | 0 <= i < n && (forall j :: i < j < |pairs| ==> pairs[j].0 != pairs[i].0)
        ensures pairs[i].0 in Assoc(pairs) && Assoc(pairs)[pairs[i].0] == pairs[i].1
      {
        assert pre[i] == pairs[i];
        forall j | i < j < |pre|
          ensures pre[j].0 != pre[i].0
        {
          assert pre[j] == pairs[j];
        }
      }
    }
  }

  /** The keys of the map are exactly the keys of the pairs, and a key maps
      to the value of its last pair. */
  lemma AssocLastWins<K, V>(pairs: seq<(K, V)>)
    ensures forall i :: 0 <= i < |pairs| ==> pairs[i].0 in Assoc(pairs)
    ensures forall k :: k in Assoc(pairs) ==> exists i :: 0 <= i < |pairs| && pairs[i].0 == k
    ensures forall i :: 0 <= i < |pairs| && (forall j :: i < j < |pairs| ==> pairs[j].0 != pairs[i].0) ==>
              Assoc(pairs)[pairs[i].0] == pairs[i].1
  {
    AssocHasKeys(pairs);
    AssocOnlyKeys(pairs);
    AssocLastValue(pairs);
  }

  /** The pairs (header[i], record[i]) of a header and a record. */
  function Zip(header: seq<string>, record: seq<string>): (r: seq<(string, string)>)
    requires |header| <= |record|
    ensures |r| == |header|
  {
    seq(|header|, i requires 0 <= i < |header| => (header[i], record[i]))
  }

  /** The pairs (first cell, second cell) of two-column rows. */
  function KeyValues(rows: seq<seq<string>>): (r: seq<(string, string)>)
    requires forall i :: 0 <= i < |rows| ==> |rows[i]| >= 2
    ensures |r| == |rows|
  {
    seq(|rows|, i requires 0 <= i < |rows| => (rows[i][0], rows[i][1]))
  }

  // ---------------------------------------------------------------------------
  // CSVToMap

  /** CSVToMap: reading the header row fails on an empty or unreadable file;
      a header not of two cells is refused before any body row is read; then
      each body row maps its first cell to its second, and any read error in
      the body discards the map. */
  function CsvToMapOutcome(items: seq<ReadItem>): Result<map<string, string>, CsvError>
    requires FixedWidth(items)
  {
    if items == [] then Err(EndOfInput)
    else if items[0].Broken? then Err(ReadFailure(items[0].reason))
    else if |items[0].cells| != 2 then Err(NotTwoColumns)
    else match ReadAll(items[1..])
      case Err(e) => Err(ReadFailure(e))
      case Ok(rows) =>
        ReadAllShape(items[1..]);
        assert forall i :: 0 <= i < |rows| ==> items[1..][i] == Row(rows[i]);
        Ok(Assoc(KeyValues(rows)))
  }

  /** The read loop of CSVToMap. */
  method CsvToMap(items: seq<ReadItem>) returns (r: Result<map<string, string>, CsvError>)
    requires FixedWidth(items)
    ensures r == CsvToMapOutcome(items)
  {
    if |items| == 0 {
      return Err(EndOfInput);
    }
    if items[0].Broken? {
      return Err(ReadFailure(items[0].reason));
    }
    if |items[0].cells| != 2 {
      return Err(NotTwoColumns);
    }
    var body := items[1..];
    var m: map<string, string> := map[];
    ghost var rows: seq<seq<string>> := [];
    var i := 0;
    while i < |body|
      invariant 0 <= i <= |body|
      invariant ReadSoFar(body, i, rows)
      invariant forall k :: 0 <= k < |rows| ==> |rows[k]| == 2
      invariant m == Assoc(KeyValues(rows))
    {
      ReadAllStep(body, i, rows);
      if body[i].Broken? {
        return Err(ReadFailure(body[i].reason));
      }
      var line := body[i].cells;
      assert items[i + 1] == body[i];
      m := m[line[0] := line[1]];
      rows := rows + [line];
      assert KeyValues(rows)[..|rows| - 1] == KeyValues(rows[..|rows| - 1]);
      i := i + 1;
    }
    assert body[..i] == body;
    r := Ok(m);
  }

  /** CSVToMap succeeds exactly on a readable file with a two-cell header. */
  lemma CsvToMapSucceeds(items: seq<ReadItem>)
    requires FixedWidth(items)
    ensures CsvToMapOutcome(items).Ok? <==>
      items != [] && items[0].Row? && |items[0].cells| == 2 && ReadAll(items).Ok?
  {
    if items != [] && items[0].Row? {
      ReadAllConcat(items);
    }
  }

  /** The body rows CSVToMap reads, each of two cells. */
  lemma CsvToMapBody(items: seq<ReadItem>)
    requires FixedWidth(items) && CsvToMapOutcome(items).Ok?
    ensures ReadAll(items[1..]).Ok?
    ensures var rows := ReadAll(items[1..]).value;
      && (forall i :: 1 <= i < |items| ==> items[i] == Row(rows[i - 1]))
      && (forall i :: 0 <= i < |rows| ==> |rows[i]| == 2)
      && CsvToMapOutcome(items).value == Assoc(KeyValues(rows))
  {
    ReadAllShape(items[1..]);
    var rows := ReadAll(items[1..]).value;
    forall i | 1 <= i < |items|
      ensures items[i] == Row(rows[i - 1])
    {
      assert items[1..][i - 1] == items[i];
    }
  }

  /** On success the map holds the first cell of every body row and no other
      key (the header row is not an entry), and a key maps to the second cell
      of the last body row that has it. */
  lemma CsvToMapEntries(items: seq<ReadItem>)
    requires FixedWidth(items) && CsvToMapOutcome(items).Ok?
    ensures forall i :: 1 <= i < |items| ==> items[i].Row? && |items[i].cells| == 2
    ensures var m := CsvToMapOutcome(items).value;
      forall i :: 1 <= i < |items| ==> items[i].cells[0] in m
    ensures var m := CsvToMapOutcome(items).value;
      forall k :: k in m ==> exists i :: 1 <= i < |items| && items[i].cells[0] == k
    ensures var m := CsvToMapOutcome(items).value;
      forall i :: 1 <= i < |items| && (forall j :: i < j < |items| ==> items[j].cells[0] != items[i].cells[0]) ==>
        m[items[i].cells[0]] == items[i].cells[1]
  {
    CsvToMapBody(items);
    var rows := ReadAll(items[1..]).value;
    var kv := KeyValues(rows);
    AssocLastWins(kv);
    KeysFromBody(items, rows, kv);
    LastRowWins(items, rows, kv);
  }

  lemma KeysFromBody(items: seq<ReadItem>, rows: seq<seq<string>>, kv: seq<(string, string)>)
    requires |items| == |rows| + 1 && forall i :: 1 <= i < |items| ==> items[i] == Row(rows[i - 1])
    requires forall i :: 0 <= i < |rows| ==> |rows[i]| == 2
    requires kv == KeyValues(rows)
    ensures forall i :: 1 <= i < |items| ==> items[i].cells[0] in Assoc(kv)
    ensures forall k :: k in Assoc(kv) ==> exists i :: 1 <= i < |items| && items[i].cells[0] == k
  {
    AssocLastWins(kv);
    forall k | k in Assoc(kv)
      ensures exists i :: 1 <= i < |items| && items[i].cells[0] == k
    {
      var i :| 0 <= i < |kv| && kv[i].0 == k;
      assert items[i + 1].cells[0] == k;
    }
    forall i | 1 <= i < |items|
      ensures items[i].cells[0] in Assoc(kv)
    {
      assert kv[i - 1].0 == items[i].cells[0];
    }
  }

  lemma LastRowWins(items: seq<ReadItem>, rows: seq<seq<string>>, kv: seq<(string, string)>)
    requires |items| == |rows| + 1 && forall i :: 1 <= i < |items| ==> items[i] == Row(rows[i - 1])
    requires forall i :: 0 <= i < |rows| ==> |rows[i]| == 2
    requires kv == KeyValues(rows)
    ensures forall i :: 1 <= i < |items| ==> items[i].cells[0] in Assoc(kv)
    ensures forall i :: 1 <= i < |items| && (forall j :: i < j < |items| ==> items[j].cells[0] != items[i].cells[0]) ==>
      Assoc(kv)[items[i].cells[0]] == items[i].cells[1]
  {
    KeysFromBody(items, rows, kv);
    AssocLastWins(kv);
    forall i | 1 <= i < |items| && (forall j :: i < j < |items| ==> items[j].cells[0] != items[i].cells[0])
      ensures Assoc(kv)[items[i].cells[0]] == items[i].cells[1]
    {
      assert kv[i - 1] == (items[i].cells[0], items[i].cells[1]);
      forall j | i - 1 < j < |kv|
        ensures kv[j].0 != kv[i - 1].0
      {
        assert kv[j].0 == items[j + 1].cells[0];
      }
    }
  }

  /** ReadAll of a file whose first record reads is that record followed by
      ReadAll of the rest. */
  lemma {:induction false} ReadAllConcat(items: seq<ReadItem>)
    requires items != [] && items[0].Row?
    ensures ReadAll(items).Ok? <==> ReadAll(items[1..]).Ok?
    ensures ReadAll(items).Ok? ==> ReadAll(items).value == [items[0].cells] + ReadAll(items[1..]).value
    decreases |items|
  {
    if |items| > 1 {
      var n := |items| - 1;
      ReadAllConcat(items[..n]);
      assert items[..n][1..] == items[1..][..n - 1];
      match ReadAll(items[1..][..n - 1]) {
        case Err(_) =>
        case Ok(rows) =>
          match items[n] {
            case Broken(_) =>
            case Row(cells) =>
              assert ([items[0].cells] + rows) + [cells] == [items[0].cells] + (rows + [cells]);
          }
      }
    } else {
      assert items == [items[0]];
      assert items[..0] == [];
      assert items[1..] == [];
    }
  }

  // ---------------------------------------------------------------------------
  // CSVToMaps

  /** Every row has the width of the first. */
  predicate Rectangular(rows: seq<seq<string>>) {
    forall i :: 0 <= i < |rows| ==> |rows[i]| == |rows[0]|
  }

  /** The maps of the body rows, keyed by the header row. */
  function Dicts(rows: seq<seq<string>>): (ds: seq<map<string, string>>)
    requires Rectangular(rows)
    ensures |ds| == if rows == [] then 0 else |rows| - 1
  {
    if rows == [] then []
    else seq(|rows| - 1, i requires 0 <= i < |rows| - 1 => Assoc(Zip(rows[0], rows[i + 1])))
  }

  /** One more record: the header gives no map, a later record one more. */
  lemma DictsStep(rows: seq<seq<string>>, r: seq<string>)
    requires Rectangular(rows)
    requires rows != [] ==> |r| == |rows[0]|
    ensures Rectangular(rows + [r])
    ensures Dicts(rows + [r]) == if rows == [] then [] else Dicts(rows) + [Assoc(Zip(rows[0], r))]
  {
    var rs := rows + [r];
    if rows != [] {
      assert rs[0] == rows[0];
      assert forall i :: 1 <= i < |rows| ==> rs[i] == rows[i];
    }
  }

  /** CSVToMaps: the first record is the header, and every later record
      becomes one map; a read error discards them all. */
  function CsvToMapsOutcome(items: seq<ReadItem>): Result<seq<map<string, string>>, CsvError>
    requires FixedWidth(items)
  {
    match ReadAll(items)
    case Err(e) => Err(ReadFailure(e))
    case Ok(rows) =>
      ReadAllShape(items);
      assert forall i :: 0 <= i < |rows| ==> items[i] == Row(rows[i]);
      Ok(Dicts(rows))
  }

  /** The inner loop of CSVToMaps: dict[header[i]] = record[i] for every i. */
  method Dict(header: seq<string>, record: seq<string>) returns (d: map<string, string>)
    requires |header| <= |record|
    ensures d == Assoc(Zip(header, record))
  {
    d := map[];
    var i := 0;
    while i < |header|
      invariant 0 <= i <= |header|
      invariant d == Assoc(Zip(header[..i], record))
    {
      assert Zip(header[..i + 1], record)[..i] == Zip(header[..i], record);
      d := d[header[i] := record[i]];
      i := i + 1;
    }
    assert header[..i] == header;
  }

  /** One more record read by CSVToMaps with no error so far. */
  lemma CsvToMapsStep(items: seq<ReadItem>, i: int, rows: seq<seq<string>>)
    requires FixedWidth(items) && 0 <= i < |items| && ReadSoFar(items, i, rows) && items[i].Row?
    requires Rectangular(rows)
    ensures ReadSoFar(items, i + 1, rows + [items[i].cells])
    ensures rows != [] ==> |items[i].cells| == |rows[0]|
    ensures Rectangular(rows + [items[i].cells])
    ensures Dicts(rows + [items[i].cells]) == if rows == [] then [] else Dicts(rows) + [Assoc(Zip(rows[0], items[i].cells))]
  {
    ReadAllStep(items, i, rows);
    if rows != [] {
      ReadAllShape(items[..i]);
      assert items[..i][0] == items[0];
    }
    DictsStep(rows, items[i].cells);
  }

  /** The read loop of CSVToMaps. */
  method CsvToMaps(items: seq<ReadItem>) returns (r: Result<seq<map<string, string>>, CsvError>)
    requires FixedWidth(items)
    ensures r == CsvToMapsOutcome(items)
  {
    var dicts: seq<map<string, string>> := [];
    var header: Option<seq<string>> := None;
    ghost var rows: seq<seq<string>> := [];
    var i := 0;
    while i < |items|
      invariant 0 <= i <= |items|
      invariant ReadSoFar(items, i, rows)
      invariant header == if rows == [] then None else Some(rows[0])
      invariant Rectangular(rows)
      invariant dicts == Dicts(rows)
    {
      if items[i].Broken? {
        ReadAllStep(items, i, rows);
        return Err(ReadFailure(items[i].reason));
      }
      var record := items[i].cells;
      CsvToMapsStep(items, i, rows);
      if header.None? {
        header := Some(record);
      } else {
        var d := Dict(header.value, record);
        dicts := dicts + [d];
      }
      rows := rows + [record];
      i := i + 1;
    }
    assert items[..i] == items;
    r := Ok(dicts);
  }

  /** A header and a record give a map whose keys are exactly the header
      names, with each name mapped to the cell of its last column. */
  lemma DictEntries(header: seq<string>, record: seq<string>)
    requires |header| <= |record|
    ensures forall k :: k in Assoc(Zip(header, record)) <==> k in header
    ensures forall j :: 0 <= j < |header| && (forall j' :: j < j' < |header| ==> header[j'] != header[j]) ==>
              Assoc(Zip(header, record))[header[j]] == record[j]
  {
    var z := Zip(header, record);
    AssocLastWins(z);
    forall k | k in header
      ensures k in Assoc(z)
    {
      var j :| 0 <= j < |header| && header[j] == k;
      assert z[j].0 == k;
    }
    forall j | 0 <= j < |header| && (forall j' :: j < j' < |header| ==> header[j'] != header[j])
      ensures Assoc(z)[header[j]] == record[j]
    {
      assert z[j] == (header[j], record[j]);
    }
  }

  /** CSVToMaps yields one map per record after the first, in order, and
      none for an empty or header-only file. Map i has exactly the header
      names as keys, and a header name maps to the cell of its last column. */
  lemma CsvToMapsRows(items: seq<ReadItem>)
    requires FixedWidth(items)
    ensures CsvToMapsOutcome(items).Ok? <==> ReadAll(items).Ok?
    ensures match CsvToMapsOutcome(items)
      case Err(_) => true
      case Ok(ds) =>
        && |ds| == (if items == [] then 0 else |items| - 1)
        && forall i :: 0 <= i < |ds| ==>
             items[0].Row? && items[i + 1].Row? && |items[0].cells| <= |items[i + 1].cells| &&
             ds[i] == Assoc(Zip(items[0].cells, items[i + 1].cells))
  {
    match CsvToMapsOutcome(items) {
      case Err(_) =>
      case Ok(ds) =>
        var rows := ReadAll(items).value;
        ReadAllShape(items);
        assert forall i :: 0 <= i < |rows| ==> items[i] == Row(rows[i]);
    }
  }

  // ---------------------------------------------------------------------------
  // UnmarshalCSVToMap

  /** The pairs parsed before the first failure, and that failure. */
  datatype Parsed<K, V> = Parsed(pairs: seq<(K, V)>, err: Option<CsvError>)

  /** Every row of the body has a key cell and a value cell. */
  predicate TwoCells(body: seq<ReadItem>) {
    forall i :: 0 <= i < |body| && body[i].Row? ==> |body[i].cells| == 2
  }

  /** The body loop of UnmarshalCSVToMap: each row's key then value is
      parsed (setField); a read error or a parse failure stops the loop. */
  function ParsePairs<K, V>(body: seq<ReadItem>, parseKey: string -> Result<K, string>,
                            parseValue: string -> Result<V, string>): (p: Parsed<K, V>)
    requires TwoCells(body)
    ensures |p.pairs| <= |body|
    decreases |body|
  {
    if body == [] then Parsed([], None)
    else
      var n := |body| - 1;
      var prev := ParsePairs(body[..n], parseKey, parseValue);
      if prev.err.Some? then prev
      else match body[n]
        case Broken(reason) => Parsed(prev.pairs, Some(ReadFailure(reason)))
        case Row(line) =>
          match parseKey(line[0])
          case Err(e) => Parsed(prev.pairs, Some(Unparsable(e)))
          case Ok(k) =>
            match parseValue(line[1])
            case Err(e) => Parsed(prev.pairs, Some(Unparsable(e)))
            case Ok(v) => Parsed(prev.pairs + [(k, v)], None)
  }

  /** UnmarshalCSVToMap: the target map afterwards and the error returned.
      The header read, the two-column check and the map-kind check come
      first and leave the target as it was (prior); after them the target is
      a new map holding every pair parsed, even when a later row fails. */
  function UnmarshalCsvToMapOutcome<K, V>(items: seq<ReadItem>, targetIsMap: bool,
                                         parseKey: string -> Result<K, string>,
                                         parseValue: string -> Result<V, string>,
                                         prior: map<K, V>): (map<K, V>, Option<CsvError>)
    requires FixedWidth(items)
  {
    if items == [] then (prior, Some(EndOfInput))
    else if items[0].Broken? then (prior, Some(ReadFailure(items[0].reason)))
    else if |items[0].cells| != 2 then (prior, Some(NotTwoColumns))
    else if !targetIsMap then (prior, Some(NotAMap))
    else
      assert forall i :: 0 <= i < |items[1..]| && items[1..][i].Row? ==> items[1..][i] == items[i + 1];
      var p := ParsePairs(items[1..], parseKey, parseValue);
      (Assoc(p.pairs), p.err)
  }

  /** UnmarshalCSVToMap: the header, two-column and map checks, then the body loop. */
  method UnmarshalCsvToMap<K, V>(items: seq<ReadItem>, targetIsMap: bool,
                                 parseKey: string -> Result<K, string>,
                                 parseValue: string -> Result<V, string>,
                                 prior: map<K, V>) returns (out: map<K, V>, err: Option<CsvError>)
    requires FixedWidth(items)
    ensures (out, err) == UnmarshalCsvToMapOutcome(items, targetIsMap, parseKey, parseValue, prior)
  {
    if |items| == 0 {
      return prior, Some(EndOfInput);
    }
    if items[0].Broken? {
      return prior, Some(ReadFailure(items[0].reason));
    }
    if |items[0].cells| != 2 {
      return prior, Some(NotTwoColumns);
    }
    if !targetIsMap {
      return prior, Some(NotAMap);
    }
    var body := items[1..];
    assert forall i :: 0 <= i < |body| && body[i].Row? ==> body[i] == items[i + 1];
    out, err := ParseBody(body, parseKey, parseValue);
  }

  /** The body loop of UnmarshalCSVToMap over a fresh map. */
  method ParseBody<K, V>(body: seq<ReadItem>, parseKey: string -> Result<K, string>,
                         parseValue: string -> Result<V, string>) returns (out: map<K, V>, err: Option<CsvError>)
    requires TwoCells(body)
    ensures out == Assoc(ParsePairs(body, parseKey, parseValue).pairs)
    ensures err == ParsePairs(body, parseKey, parseValue).err
  {
    out := map[];
    ghost var pairs: seq<(K, V)> := [];
    var i := 0;
    while i < |body|
      invariant 0 <= i <= |body|
      invariant ParsedSoFar(body, parseKey, parseValue, i, pairs)
      invariant out == Assoc(pairs)
    {
      ParsedStep(body, parseKey, parseValue, i, pairs);
      if body[i].Broken? {
        ParsePairsStops(body, parseKey, parseValue, i + 1);
        return out, Some(ReadFailure(body[i].reason));
      }
      var line := body[i].cells;
      var key := parseKey(line[0]);
      if key.Err? {
        ParsePairsStops(body, parseKey, parseValue, i + 1);
        return out, Some(Unparsable(key.error));
      }
      var value := parseValue(line[1]);
      if value.Err? {
        ParsePairsStops(body, parseKey, parseValue, i + 1);
        return out, Some(Unparsable(value.error));
      }
      out := out[key.value := value.value];
      pairs := pairs + [(key.value, value.value)];
      i := i + 1;
    }
    assert body[..i] == body;
    err := None;
  }

  /** The first i body rows were parsed into pairs, without error. */
  ghost predicate ParsedSoFar<K, V>(body: seq<ReadItem>, parseKey: string -> Result<K, string>,
                                    parseValue: string -> Result<V, string>, i: nat, pairs: seq<(K, V)>)
    requires TwoCells(body)
  {
    i <= |body| && ParsePairs(body[..i], parseKey, parseValue) == Parsed(pairs, None)
  }

  /** One more body row: a broken row or a cell that does not parse stops
      the loop with its error; otherwise the row adds its pair. */
  lemma ParsedStep<K, V>(body: seq<ReadItem>, parseKey: string -> Result<K, string>,
                         parseValue: string -> Result<V, string>, i: nat, pairs: seq<(K, V)>)
    requires TwoCells(body) && ParsedSoFar(body, parseKey, parseValue, i, pairs) && i < |body|
    ensures TwoCells(body[..i + 1])
    ensures var next := ParsePairs(body[..i + 1], parseKey, parseValue);
      && (body[i].Broken? ==> next == Parsed(pairs, Some(ReadFailure(body[i].reason))))
      && (body[i].Row? ==>
            var key := parseKey(body[i].cells[0]);
            var value := parseValue(body[i].cells[1]);
            && (key.Err? ==> next == Parsed(pairs, Some(Unparsable(key.error))))
            && (key.Ok? && value.Err? ==> next == Parsed(pairs, Some(Unparsable(value.error))))
            && (key.Ok? && value.Ok? ==> next == Parsed(pairs + [(key.value, value.value)], None)))
  {
    var upto := body[..i + 1];
    assert upto[..i] == body[..i] && upto[i] == body[i];
  }

  /** Once a prefix of the body fails, the whole loop fails the same way. */
  lemma {:induction false} ParsePairsStops<K, V>(body: seq<ReadItem>, parseKey: string -> Result<K, string>,
                                                 parseValue: string -> Result<V, string>, j: nat)
    requires TwoCells(body)
    requires j <= |body| && ParsePairs(body[..j], parseKey, parseValue).err.Some?
    ensures ParsePairs(body, parseKey, parseValue) == ParsePairs(body[..j], parseKey, parseValue)
    decreases |body| - j
  {
    if j < |body| {
      var n := |body| - 1;
      assert body[..n][..j] == body[..j];
      ParsePairsStops(body[..n], parseKey, parseValue, j);
    } else {
      assert body[..j] == body;
    }
  }

  /** With parsers that accept every string as it is, the body loop of
      UnmarshalCSVToMap reads the key/value pairs CSVToMap reads, and fails
      with the read error CSVToMap fails with. */
  lemma {:induction false} ParsePairsVerbatim(body: seq<ReadItem>)
    requires TwoCells(body)
    ensures var p := ParsePairs(body, (s: string) => Ok(s), (s: string) => Ok(s));
      match ReadAll(body)
      case Err(e) => p.err == Some(ReadFailure(e))
      case Ok(rows) =>
        && (forall i :: 0 <= i < |rows| ==> |rows[i]| == 2)
        && p == Parsed(KeyValues(rows), None)
    decreases |body|
  {
    if body != [] {
      var n := |body| - 1;
      ParsePairsVerbatim(body[..n]);
      match ReadAll(body[..n]) {
        case Err(_) =>
        case Ok(rows) =>
          if body[n].Row? {
            var rows' := rows + [body[n].cells];
            assert KeyValues(rows')[..n] == KeyValues(rows);
          }
      }
    }
  }

  /** UnmarshalCSVToMap into a string-to-string map is CSVToMap: the same
      error in the same order of checks and, on success, the same map. */
  lemma UnmarshalMatchesCsvToMap(items: seq<ReadItem>, prior: map<string, string>)
    requires FixedWidth(items)
    ensures var (m, err) := UnmarshalCsvToMapOutcome(items, true, (s: string) => Ok(s), (s: string) => Ok(s), prior);
      match CsvToMapOutcome(items)
      case Ok(expected) => err.None? && m == expected
      case Err(e) => err == Some(e)
  {
    if items != [] && items[0].Row? && |items[0].cells| == 2 {
      ParsePairsVerbatim(items[1..]);
    }
  }
}
