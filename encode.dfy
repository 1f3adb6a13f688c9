/** The encoder's building blocks: reflect-kind checks, reading one field of a
    record along its index chain, dropping and picking fields by their
    top-level index, normalising a column order to 0..n-1, scattering a row
    into that order, and the writeTo routine that streams a header and one
    row per record to a csv.Writer. */
module Encode {
  import opened Common
  import opened Permutations

  /** The reflect kinds the kind checks tell apart. */
  datatype Kind = Struct | Ptr | Slice | Array | Other

  /** A reflected value reachable from a record: a struct with its fields in
      declaration order, a possibly nil pointer, a slice or array, or a value
      the field formatter turns into text. */
  datatype Value =
    | Record(fields: seq<Value>)
    | Pointer(target: Option<Value>)
    | Sequence(items: seq<Value>)
    | Leaf(text: string)

  /** A field formatter (getFieldAsString): a text or the formatter's error. */
  type Formatter = Value -> Result<string, string>

  /** ensureStructOrPtr: only a struct or a pointer may start a channel stream. */
  function EnsureStructOrPtr(k: Kind): (r: Option<WriteError>)
    ensures r.None? <==> k == Struct || k == Ptr
    ensures r.Some? ==> r.value == KindMismatch
  {
    match k
    case Struct => None
    case Ptr => None
    case _ => Some(KindMismatch)
  }

  /** ensureInType: the container must be a slice or an array. */
  function EnsureInType(k: Kind): (r: Option<WriteError>)
    ensures r.None? <==> k == Slice || k == Array
    ensures r.Some? ==> r.value == KindMismatch
  {
    match k
    case Slice => None
    case Array => None
    case _ => Some(KindMismatch)
  }

  /** ensureInInnerType: the container's elements must be structs. */
  function EnsureInInnerType(k: Kind): (r: Option<WriteError>)
    ensures r.None? <==> k == Struct
    ensures r.Some? ==> r.value == KindMismatch
  {
    if k == Struct then None else Some(KindMismatch)
  }

  function Format(asString: Formatter, v: Value): (r: Result<string, WriteError>)
    ensures r.Ok? <==> asString(v).Ok?
    ensures r.Ok? ==> r.value == asString(v).value
    ensures r.Err? ==> r.error == Conversion(asString(v).error)
  {
    match asString(v)
    case Ok(s) => Ok(s)
    case Err(e) => Err(Conversion(e))
  }

  // ---------------------------------------------------------------------------
  // Reading one field (getInnerField)

  /** The text of the field reached from v along index. A nil pointer on the
      way, or an element index past the end of a slice, reads as the empty
      cell; a field index on anything but a struct is a reflect panic. */
  function GetInnerField(v: Value, wasPointer: bool, index: seq<nat>, asString: Formatter): Result<string, WriteError>
    requires |index| > 0
    decreases |index|
  {
    if wasPointer && !v.Pointer? then Err(ReflectMisuse)
    else if wasPointer && v.target.None? then Ok("")
    else
      var oi := if wasPointer then v.target.value else v;
      match oi
      case Sequence(items) =>
        if index[0] >= |items| then Ok("")
        else if |index| > 1 then GetInnerField(items[index[0]], false, index[1..], asString)
        else Format(asString, items[index[0]])
      case Record(fs) =>
        if index[0] >= |fs| then Err(ReflectMisuse)
        else if |index| > 1 then GetInnerField(fs[index[0]], fs[index[0]].Pointer?, index[1..], asString)
        else Format(asString, fs[index[0]])
      case _ => Err(ReflectMisuse)
  }

  /** getInnerField's edge cases: a nil pointer, whether the record itself or
      a pointer field met on the way, and an element index past the end of a
      slice read as the empty cell; a value that is not the pointer it was
      announced as, or a leaf or pointer indexed as a struct, is a reflect
      panic. */
  lemma GetInnerFieldEdgeCases(v: Value, wasPointer: bool, index: seq<nat>, asString: Formatter)
    requires |index| > 0
    ensures wasPointer && v == Pointer(None) ==> GetInnerField(v, wasPointer, index, asString) == Ok("")
    ensures !wasPointer && v.Sequence? && index[0] >= |v.items| ==> GetInnerField(v, wasPointer, index, asString) == Ok("")
    ensures (!wasPointer && v.Record? && |index| > 1 && index[0] < |v.fields|
             && v.fields[index[0]] == Pointer(None)) ==> GetInnerField(v, wasPointer, index, asString) == Ok("")
    ensures wasPointer && !v.Pointer? ==> GetInnerField(v, wasPointer, index, asString) == Err(ReflectMisuse)
    ensures !wasPointer && (v.Leaf? || v.Pointer?) ==> GetInnerField(v, wasPointer, index, asString) == Err(ReflectMisuse)
  {
  }

  /** Plain path following through structs and slices, with no pointers and
      every index in range: the value the chain designates. */
  function Walk(v: Value, index: seq<nat>): Option<Value>
    decreases |index|
  {
    if index == [] then Some(v)
    else match v
      case Record(fs) => if index[0] < |fs| then Walk(fs[index[0]], index[1..]) else None
      case Sequence(items) => if index[0] < |items| then Walk(items[index[0]], index[1..]) else None
      case _ => None
  }

  /** A pointer-free path: every step is a struct or slice and in range. */
  predicate PlainPath(v: Value, index: seq<nat>)
    decreases |index|
  {
    index == [] ||
    ((v.Record? && index[0] < |v.fields| && !v.fields[index[0]].Pointer? && PlainPath(v.fields[index[0]], index[1..])) ||
     (v.Sequence? && index[0] < |v.items| && PlainPath(v.items[index[0]], index[1..])))
  }

  /** On a pointer-free path getInnerField formats exactly the value the
      index chain designates. */
  lemma {:induction false} GetInnerFieldFollowsPath(v: Value, index: seq<nat>, asString: Formatter)
    requires |index| > 0 && PlainPath(v, index)
    ensures Walk(v, index).Some?
    ensures GetInnerField(v, false, index, asString) == Format(asString, Walk(v, index).value)
    decreases |index|
  {
    if |index| > 1 {
      if v.Record? {
        GetInnerFieldFollowsPath(v.fields[index[0]], index[1..], asString);
      } else {
        GetInnerFieldFollowsPath(v.items[index[0]], index[1..], asString);
      }
    }
  }

  // ---------------------------------------------------------------------------
  // Dropping and picking fields by their top-level index

  function NotRemoved(removeIdx: seq<int>): FieldInfo -> bool {
    (f: FieldInfo) => |f.indexChain| > 0 && f.indexChain[0] as int !in removeIdx
  }

  function Picked(pickIdx: seq<int>): FieldInfo -> bool {
    (f: FieldInfo) => |f.indexChain| > 0 && f.indexChain[0] as int in pickIdx
  }

  /** What getFilteredFields keeps: everything when no index is given. */
  function FilteredFields(fields: seq<FieldInfo>, removeIdx: seq<int>): seq<FieldInfo> {
    if |removeIdx| > 0 then Keep(fields, NotRemoved(removeIdx)) else fields
  }

  /** What getPickedFields keeps: everything when no index is given. */
  function PickedFields(fields: seq<FieldInfo>, pickIdx: seq<int>): seq<FieldInfo> {
    if |pickIdx| > 0 then Keep(fields, Picked(pickIdx)) else fields
  }

  method GetFilteredFields(fields: seq<FieldInfo>, removeIdx: seq<int>) returns (newFields: seq<FieldInfo>)
    requires WellFormed(fields)
    ensures newFields == FilteredFields(fields, removeIdx)
  {
    if |removeIdx| > 0 {
      newFields := [];
      var i := 0;
      while i < |fields|
        invariant 0 <= i <= |fields|
        invariant newFields == Keep(fields[..i], NotRemoved(removeIdx))
      {
        var field := fields[i];
        if field.indexChain[0] !in removeIdx {
          newFields := newFields + [field];
        }
        assert fields[..i + 1][..i] == fields[..i];
        i := i + 1;
      }
      assert fields[..|fields|] == fields;
    } else {
      newFields := fields;
    }
  }

  method GetPickedFields(fields: seq<FieldInfo>, pickIdx: seq<int>) returns (newFields: seq<FieldInfo>)
    requires WellFormed(fields)
    ensures newFields == PickedFields(fields, pickIdx)
  {
    if |pickIdx| > 0 {
      newFields := [];
      var i := 0;
      while i < |fields|
        invariant 0 <= i <= |fields|
        invariant newFields == Keep(fields[..i], Picked(pickIdx))
      {
        var field := fields[i];
        if field.indexChain[0] in pickIdx {
          newFields := newFields + [field];
        }
        assert fields[..i + 1][..i] == fields[..i];
        i := i + 1;
      }
      assert fields[..|fields|] == fields;
    } else {
      newFields := fields;
    }
  }

  /** A field survives filtering exactly when its top-level index is not
      among the removed ones. */
  lemma FilteredMembership(fields: seq<FieldInfo>, removeIdx: seq<int>, f: FieldInfo)
    requires WellFormed(fields) && |removeIdx| > 0
    ensures f in FilteredFields(fields, removeIdx) <==> f in fields && f.indexChain[0] !in removeIdx
  {
    KeepMembership(fields, NotRemoved(removeIdx), f);
  }

  /** A field is picked exactly when its top-level index is among the given ones. */
  lemma PickedMembership(fields: seq<FieldInfo>, pickIdx: seq<int>, f: FieldInfo)
    requires WellFormed(fields) && |pickIdx| > 0
    ensures f in PickedFields(fields, pickIdx) <==> f in fields && f.indexChain[0] in pickIdx
  {
    KeepMembership(fields, Picked(pickIdx), f);
  }

  /** With the same non-empty index list, filtering and picking split the
      fields: each field lands in exactly one of the two results. */
  lemma FilteredPickedPartition(fields: seq<FieldInfo>, idx: seq<int>)
    requires WellFormed(fields) && |idx| > 0
    ensures |FilteredFields(fields, idx)| + |PickedFields(fields, idx)| == |fields|
    ensures multiset(FilteredFields(fields, idx)) + multiset(PickedFields(fields, idx)) == multiset(fields)
  {
    KeepPartition(fields, NotRemoved(idx), Picked(idx));
  }

  /** Filtering keeps the schema's relative order: the result for a
      concatenation is the concatenation of the results. */
  lemma FilteredKeepsOrder(a: seq<FieldInfo>, b: seq<FieldInfo>, removeIdx: seq<int>)
    ensures FilteredFields(a + b, removeIdx) == FilteredFields(a, removeIdx) + FilteredFields(b, removeIdx)
  {
    if |removeIdx| > 0 {
      KeepConcat(a, b, NotRemoved(removeIdx));
    }
  }

  // ---------------------------------------------------------------------------
  // Normalising a column order (changeToSequence)

  /** How many entries of s are smaller than v. */
  function CountLess(s: seq<int>, v: int): (c: nat)
    ensures c <= |s|
  {
    if s == [] then 0 else (if s[0] < v then 1 else 0) + CountLess(s[1..], v)
  }

  /** An entry is not smaller than itself, so fewer than |s| entries are
      smaller than any entry of s. */
  lemma {:induction false} CountLessBelow(s: seq<int>, v: int)
    requires v in s
    ensures CountLess(s, v) < |s|
    decreases |s|
  {
    if s[0] != v {
      CountLessBelow(s[1..], v);
    }
  }

  lemma CountLessAllBelow(s: seq<int>)
    ensures forall i :: 0 <= i < |s| ==> CountLess(s, s[i]) < |s|
  {
    forall i | 0 <= i < |s|
      ensures CountLess(s, s[i]) < |s|
    {
      CountLessBelow(s, s[i]);
    }
  }

  predicate Sorted(s: seq<int>) {
    forall i, j :: 0 <= i < j < |s| ==> s[i] <= s[j]
  }

  function Insert(x: int, t: seq<int>): seq<int> {
    if t == [] || x <= t[0] then [x] + t else [t[0]] + Insert(x, t[1..])
  }

  /** sort.Ints on a copy, as a value. */
  function SortInts(s: seq<int>): seq<int> {
    if s == [] then [] else Insert(s[0], SortInts(s[1..]))
  }

  /** slices.Index: the first position of v in t, or -1. */
  function IndexOf(t: seq<int>, v: int): (k: int)
    ensures -1 <= k < |t|
    ensures k >= 0 ==> t[k] == v
    ensures k < 0 <==> v !in t
    ensures k >= 0 ==> v !in t[..k]
  {
    if t == [] then -1
    else if t[0] == v then 0
    else
      var k := IndexOf(t[1..], v);
      if k < 0 then -1
      else
        assert t[..k + 1] == [t[0]] + t[1..][..k];
        k + 1
  }

  lemma {:induction false} InsertMultiset(x: int, t: seq<int>)
    ensures multiset(Insert(x, t)) == multiset{x} + multiset(t)
    decreases |t|
  {
    if t != [] && x > t[0] {
      InsertMultiset(x, t[1..]);
      assert t == [t[0]] + t[1..];
    }
  }

  lemma {:induction false} InsertFacts(x: int, t: seq<int>)
    requires Sorted(t)
    ensures Sorted(Insert(x, t))
    ensures multiset(Insert(x, t)) == multiset{x} + multiset(t)
    decreases |t|
  {
    InsertMultiset(x, t);
    if t != [] && x > t[0] {
      var r := Insert(x, t[1..]);
      InsertFacts(x, t[1..]);
      forall j | 0 <= j < |r|
        ensures t[0] <= r[j]
      {
        assert r[j] in multiset(r);
        assert r[j] == x || r[j] in multiset(t[1..]);
        if r[j] != x {
          var k :| 0 <= k < |t[1..]| && t[1..][k] == r[j];
          assert t[k + 1] == r[j];
        }
      }
      assert Insert(x, t) == [t[0]] + r;
    }
  }

  lemma {:induction false} SortFacts(s: seq<int>)
    ensures Sorted(SortInts(s))
    ensures multiset(SortInts(s)) == multiset(s)
    decreases |s|
  {
    if s != [] {
      SortFacts(s[1..]);
      InsertFacts(s[0], SortInts(s[1..]));
      assert s == [s[0]] + s[1..];
    }
  }

  lemma {:induction false} CountLessInsert(x: int, t: seq<int>, v: int)
    ensures CountLess(Insert(x, t), v) == (if x < v then 1 else 0) + CountLess(t, v)
    decreases |t|
  {
    if t != [] && x > t[0] {
      CountLessInsert(x, t[1..], v);
      assert Insert(x, t)[1..] == Insert(x, t[1..]);
    } else {
      assert (Insert(x, t))[1..] == t;
    }
  }

  /** Sorting does not change how many entries are below a value. */
  lemma {:induction false} CountLessSort(s: seq<int>, v: int)
    ensures CountLess(SortInts(s), v) == CountLess(s, v)
    decreases |s|
  {
    if s != [] {
      CountLessSort(s[1..], v);
      CountLessInsert(s[0], SortInts(s[1..]), v);
    }
  }

  lemma {:induction false} CountLessNone(s: seq<int>, v: int)
    requires forall i :: 0 <= i < |s| ==> s[i] >= v
    ensures CountLess(s, v) == 0
    decreases |s|
  {
    if s != [] {
      CountLessNone(s[1..], v);
    }
  }

  /** In a sorted sequence the first position of v is the number of smaller entries. */
  lemma {:induction false} IndexOfSorted(t: seq<int>, v: int)
    requires Sorted(t) && v in t
    ensures IndexOf(t, v) == CountLess(t, v)
    decreases |t|
  {
    if t[0] == v {
      CountLessNone(t[1..], v);
    } else {
      assert v in t[1..];
      var j :| 0 <= j < |t| && t[j] == v;
      assert t[0] <= t[j];
      IndexOfSorted(t[1..], v);
    }
  }

  /** Where v sits in the sorted copy is its rank in the original. */
  lemma PositionInSortedCopy(s: seq<int>, v: int)
    requires v in s
    ensures IndexOf(SortInts(s), v) == CountLess(s, v)
  {
    SortFacts(s);
    assert v in multiset(s);
    assert v in SortInts(s);
    IndexOfSorted(SortInts(s), v);
    CountLessSort(s, v);
  }

  /** The rank of each entry: the number of entries below it. */
  function Ranks(s: seq<int>): (r: seq<int>)
    ensures |r| == |s|
    ensures InRange(r, |s|)
  {
    CountLessAllBelow(s);
    seq(|s|, i requires 0 <= i < |s| => CountLess(s, s[i]))
  }

  /** changeToSequence: replaces each entry by its rank, in place, and returns
      the same slice. */
  method ChangeToSequence(colIndex: array<int>) returns (r: array<int>)
    modifies colIndex
    ensures r == colIndex
    ensures colIndex[..] == Ranks(old(colIndex[..]))
  {
    ghost var original := colIndex[..];
    var copied := SortInts(colIndex[..]);
    var i := 0;
    while i < colIndex.Length
      invariant 0 <= i <= colIndex.Length
      invariant forall k :: 0 <= k < i ==> colIndex[k] == CountLess(original, original[k])
      invariant forall k :: i <= k < colIndex.Length ==> colIndex[k] == original[k]
    {
      var v := colIndex[i];
      PositionInSortedCopy(original, v);
      colIndex[i] := IndexOf(copied, v);
      i := i + 1;
    }
    r := colIndex;
  }

  lemma {:induction false} CountLessMono(s: seq<int>, a: int, b: int)
    requires a <= b
    ensures CountLess(s, a) <= CountLess(s, b)
    decreases |s|
  {
    if s != [] {
      CountLessMono(s[1..], a, b);
    }
  }

  lemma {:induction false} CountLessStrict(s: seq<int>, a: int, b: int)
    requires a < b && a in s
    ensures CountLess(s, a) < CountLess(s, b)
    decreases |s|
  {
    if s[0] == a {
      CountLessMono(s[1..], a, b);
    } else {
      assert a in s[1..];
      CountLessStrict(s[1..], a, b);
    }
  }

  /** Ranking keeps the order between entries, in both directions. */
  lemma RanksKeepOrder(s: seq<int>, i: int, j: int)
    requires 0 <= i < |s| && 0 <= j < |s|
    ensures Ranks(s)[i] < Ranks(s)[j] <==> s[i] < s[j]
    ensures Ranks(s)[i] == Ranks(s)[j] <==> s[i] == s[j]
  {
    if s[i] < s[j] {
      CountLessStrict(s, s[i], s[j]);
    } else if s[j] < s[i] {
      CountLessStrict(s, s[j], s[i]);
    }
  }

  /** Distinct column indices of any magnitude are normalised to a
      permutation of 0..n-1. */
  lemma RanksPermutation(s: seq<int>)
    requires Injective(s)
    ensures IsPermutation(Ranks(s))
    ensures forall t :: 0 <= t < |s| ==> t in Ranks(s)
  {
    forall i, j | 0 <= i < |s| && 0 <= j < |s| && i != j
      ensures Ranks(s)[i] != Ranks(s)[j]
    {
      RanksKeepOrder(s, i, j);
    }
    PermutationOnto(Ranks(s));
  }

  /** The example documented on changeToSequence. */
  lemma ChangeToSequenceExample()
    ensures Ranks([1, 2, 5, 8, 0]) == [1, 2, 3, 4, 0]
  {
    var s := [1, 2, 5, 8, 0];
    var r := Ranks(s);
    assert r[0] == 1 by { assert CountLess(s, 1) == 1; }
    assert r[1] == 2 by { assert CountLess(s, 2) == 2; }
    assert r[2] == 3 by { assert CountLess(s, 5) == 3; }
    assert r[3] == 4 by { assert CountLess(s, 8) == 4; }
    assert r[4] == 0 by { assert CountLess(s, 0) == 0; }
  }

  // ---------------------------------------------------------------------------
  // Moving cells into their target columns (reorderColumns)

  /** Each cell row[k] with k < |targets| is moved to column targets[k]; a
      later move into the same column overwrites an earlier one, and a column
      nobody moves into holds blank. */
  function Scatter<T>(row: seq<T>, targets: seq<int>, blank: T): (r: seq<T>)
    requires |targets| <= |row| && InRange(targets, |row|)
    ensures |r| == |row|
    decreases |targets|
  {
    if targets == [] then seq(|row|, _ => blank)
    else
      var k := |targets| - 1;
      Scatter(row, targets[..k], blank)[targets[k] := row[k]]
  }

  /** reorderColumns: a fresh row of empty cells, filled by moving each cell
      row[from] to column colIndex[from]. */
  method ReorderColumns(row: seq<string>, colIndex: seq<int>) returns (newLine: seq<string>)
    requires |colIndex| <= |row| && InRange(colIndex, |row|)
    ensures newLine == Scatter(row, colIndex, "")
  {
    var line := new string[|row|](_ => "");
    assert line[..] == Scatter(row, colIndex[..0], "");
    var from := 0;
    while from < |colIndex|
      invariant 0 <= from <= |colIndex|
      invariant line[..] == Scatter(row, colIndex[..from], "")
    {
      line[colIndex[from]] := row[from];
      assert colIndex[..from + 1][..from] == colIndex[..from];
      from := from + 1;
    }
    assert colIndex[..|colIndex|] == colIndex;
    newLine := line[..];
  }

  /** A column no target reaches keeps the blank; every other column holds
      some cell of the row. */
  lemma {:induction false} ScatterUntargeted<T>(row: seq<T>, targets: seq<int>, blank: T)
    requires |targets| <= |row| && InRange(targets, |row|)
    ensures forall j :: 0 <= j < |row| && j !in targets ==> Scatter(row, targets, blank)[j] == blank
    ensures forall j :: 0 <= j < |row| && j in targets ==> Scatter(row, targets, blank)[j] in row
    decreases |targets|
  {
    if targets != [] {
      var n := |targets| - 1;
      ScatterUntargeted(row, targets[..n], blank);
      assert targets == targets[..n] + [targets[n]];
    }
  }

  /** With distinct targets every moved cell lands in its target column. */
  lemma {:induction false} ScatterAt<T>(row: seq<T>, targets: seq<int>, blank: T)
    requires |targets| <= |row| && InRange(targets, |row|) && Injective(targets)
    ensures forall k :: 0 <= k < |targets| ==> Scatter(row, targets, blank)[targets[k]] == row[k]
    decreases |targets|
  {
    if targets != [] {
      var n := |targets| - 1;
      ScatterAt(row, targets[..n], blank);
    }
  }

  /** Reading column p[k] back for every k. */
  function Gather<T>(r: seq<T>, p: seq<int>): (g: seq<T>)
    requires InRange(p, |r|)
    ensures |g| == |p|
  {
    seq(|p|, k requires 0 <= k < |p| => r[p[k]])
  }

  /** Reordering by a permutation loses nothing: gathering by the same
      permutation restores the row. */
  lemma GatherScatter<T>(row: seq<T>, p: seq<int>, blank: T)
    requires IsPermutation(p) && |p| == |row|
    ensures Gather(Scatter(row, p, blank), p) == row
  {
    ScatterAt(row, p, blank);
  }

  /** And every column is filled: scattering a gathered row restores it. */
  lemma GatherThenScatter<T>(r: seq<T>, p: seq<int>, blank: T)
    requires IsPermutation(p) && |p| == |r|
    ensures Scatter(Gather(r, p), p, blank) == r
  {
    var g := Gather(r, p);
    ScatterAt(g, p, blank);
    PermutationOnto(p);
    forall j | 0 <= j < |r|
      ensures Scatter(g, p, blank)[j] == r[j]
    {
      assert j in p;
      var k :| 0 <= k < |p| && p[k] == j;
    }
  }

  // ---------------------------------------------------------------------------
  // The cells of one record and of a whole container

  /** The cells of one record, field by field, or the first field's error. */
  function RecordCells(v: Value, fields: seq<FieldInfo>, wasPointer: bool, asString: Formatter): (r: Result<seq<string>, WriteError>)
    requires WellFormed(fields)
    ensures r.Ok? ==> |r.value| == |fields|
    decreases |fields|
  {
    if fields == [] then Ok([])
    else
      var n := |fields| - 1;
      match RecordCells(v, fields[..n], wasPointer, asString)
      case Err(e) => Err(e)
      case Ok(cells) =>
        match GetInnerField(v, wasPointer, fields[n].indexChain, asString)
        case Err(e) => Err(e)
        case Ok(c) => Ok(cells + [c])
  }

  /** A record's cells succeed exactly when every field reads. */
  lemma {:induction false} RecordCellsOk(v: Value, fields: seq<FieldInfo>, wasPointer: bool, asString: Formatter)
    requires WellFormed(fields)
    ensures RecordCells(v, fields, wasPointer, asString).Ok? <==>
            forall j :: 0 <= j < |fields| ==> GetInnerField(v, wasPointer, fields[j].indexChain, asString).Ok?
    decreases |fields|
  {
    if fields != [] {
      var n := |fields| - 1;
      var pre := fields[..n];
      RecordCellsOk(v, pre, wasPointer, asString);
      assert forall j :: 0 <= j < n ==> pre[j] == fields[j];
    }
  }

  /** A record's cells succeed exactly when every field reads, and cell j is
      the text of field j. */
  lemma {:induction false} RecordCellsAt(v: Value, fields: seq<FieldInfo>, wasPointer: bool, asString: Formatter)
    requires WellFormed(fields)
    ensures RecordCells(v, fields, wasPointer, asString).Ok? <==>
            forall j :: 0 <= j < |fields| ==> GetInnerField(v, wasPointer, fields[j].indexChain, asString).Ok?
    ensures RecordCells(v, fields, wasPointer, asString).Ok? ==>
            forall j :: 0 <= j < |fields| ==>
              RecordCells(v, fields, wasPointer, asString).value[j] == GetInnerField(v, wasPointer, fields[j].indexChain, asString).value
    decreases |fields|
  {
    RecordCellsOk(v, fields, wasPointer, asString);
    if fields != [] && RecordCells(v, fields, wasPointer, asString).Ok? {
      var n := |fields| - 1;
      var pre := fields[..n];
      RecordCellsAt(v, pre, wasPointer, asString);
      var cells := RecordCells(v, pre, wasPointer, asString).value;
      assert RecordCells(v, fields, wasPointer, asString).value == cells + [GetInnerField(v, wasPointer, fields[n].indexChain, asString).value];
      assert forall j :: 0 <= j < n ==> pre[j] == fields[j];
    }
  }

  /** A record whose field j is the first to fail reports field j's error. */
  lemma RecordCellsFirstError(v: Value, fields: seq<FieldInfo>, wasPointer: bool, asString: Formatter, j: int)
    requires WellFormed(fields) && 0 <= j < |fields|
    requires forall i :: 0 <= i < j ==> GetInnerField(v, wasPointer, fields[i].indexChain, asString).Ok?
    requires GetInnerField(v, wasPointer, fields[j].indexChain, asString).Err?
    ensures RecordCells(v, fields, wasPointer, asString) == Err(GetInnerField(v, wasPointer, fields[j].indexChain, asString).error)
  {
    var pre := fields[..j];
    assert forall i :: 0 <= i < j ==> pre[i] == fields[i];
    RecordCellsAt(v, pre, wasPointer, asString);
    var upto := fields[..j + 1];
    assert upto[..j] == pre && upto[j] == fields[j];
    RecordCellsErrSticks(v, fields, wasPointer, asString, j + 1);
  }

  /** One more field: a failing field ends the record with its error, a
      readable one adds its cell. */
  lemma RecordCellsStep(v: Value, fields: seq<FieldInfo>, wasPointer: bool, asString: Formatter, j: int)
    requires WellFormed(fields) && 0 <= j < |fields|
    requires RecordCells(v, fields[..j], wasPointer, asString).Ok?
    ensures var prev := RecordCells(v, fields[..j], wasPointer, asString).value;
      var cell := GetInnerField(v, wasPointer, fields[j].indexChain, asString);
      && (cell.Err? ==> RecordCells(v, fields[..j + 1], wasPointer, asString) == Err(cell.error))
      && (cell.Ok? ==> RecordCells(v, fields[..j + 1], wasPointer, asString) == Ok(prev + [cell.value]))
  {
    assert fields[..j + 1][..j] == fields[..j];
  }

  /** Once a prefix of the fields fails, the whole record fails the same way. */
  lemma {:induction false} RecordCellsErrSticks(v: Value, fields: seq<FieldInfo>, wasPointer: bool, asString: Formatter, j: nat)
    requires WellFormed(fields) && j <= |fields|
    requires RecordCells(v, fields[..j], wasPointer, asString).Err?
    ensures RecordCells(v, fields, wasPointer, asString) == RecordCells(v, fields[..j], wasPointer, asString)
    decreases |fields| - j
  {
    if j < |fields| {
      var n := |fields| - 1;
      assert fields[..n][..j] == fields[..j];
      RecordCellsErrSticks(v, fields[..n], wasPointer, asString, j);
    } else {
      assert fields[..j] == fields;
    }
  }

  /** The cells of a record are written into buf field by field; on the first
      failing field the error is returned. */
  method FillCells(buf: array<string>, v: Value, fields: seq<FieldInfo>, wasPointer: bool, asString: Formatter)
    returns (err: Option<WriteError>)
    requires buf.Length == |fields| && WellFormed(fields)
    modifies buf
    ensures err.None? <==> RecordCells(v, fields, wasPointer, asString).Ok?
    ensures err.None? ==> buf[..] == RecordCells(v, fields, wasPointer, asString).value
    ensures err.Some? ==> RecordCells(v, fields, wasPointer, asString) == Err(err.value)
  {
    var j := 0;
    ghost var cells: seq<string> := [];
    while j < |fields|
      invariant 0 <= j <= |fields|
      invariant RecordCells(v, fields[..j], wasPointer, asString) == Ok(cells)
      invariant |cells| == j && buf[..j] == cells
    {
      buf[j] := "";
      var cell := GetInnerField(v, wasPointer, fields[j].indexChain, asString);
      RecordCellsStep(v, fields, wasPointer, asString, j);
      if cell.Err? {
        RecordCellsErrSticks(v, fields, wasPointer, asString, j + 1);
        return Some(cell.error);
      }
      buf[j] := cell.value;
      cells := cells + [cell.value];
      assert buf[..j + 1] == cells;
      j := j + 1;
    }
    assert fields[..j] == fields;
    assert buf[..j] == buf[..];
    return None;
  }

  /** What was written and how it ended. */
  datatype Emission = Emission(rows: seq<seq<string>>, err: Option<WriteError>)

  /** The cell rows of the records in order, stopping at the first record
      that fails. */
  function RecordRows(data: seq<Value>, fields: seq<FieldInfo>, wasPointer: bool, asString: Formatter): (e: Emission)
    requires WellFormed(fields)
    ensures forall i :: 0 <= i < |e.rows| ==> |e.rows[i]| == |fields|
    decreases |data|
  {
    if data == [] then Emission([], None)
    else
      var prev := RecordRows(data[..|data| - 1], fields, wasPointer, asString);
      if prev.err.Some? then prev
      else match RecordCells(data[|data| - 1], fields, wasPointer, asString)
        case Err(e) => Emission(prev.rows, Some(e))
        case Ok(cells) => Emission(prev.rows + [cells], None)
  }

  /** Row i is the cells of record i; with no error every record has a row,
      and an error is that of the first record whose cells fail. */
  lemma {:induction false} RecordRowsAt(data: seq<Value>, fields: seq<FieldInfo>, wasPointer: bool, asString: Formatter)
    requires WellFormed(fields)
    ensures var e := RecordRows(data, fields, wasPointer, asString);
      && |e.rows| <= |data|
      && (forall i :: 0 <= i < |e.rows| ==> RecordCells(data[i], fields, wasPointer, asString) == Ok(e.rows[i]))
      && (e.err.None? ==> |e.rows| == |data|)
      && (e.err.Some? ==> |e.rows| < |data| && RecordCells(data[|e.rows|], fields, wasPointer, asString) == Err(e.err.value))
    decreases |data|
  {
    if data != [] {
      var n := |data| - 1;
      RecordRowsAt(data[..n], fields, wasPointer, asString);
    }
  }

  /** Every row i stands for record i, and its cell j is the text of field j of that record. */
  ghost predicate CellsRead(data: seq<Value>, fields: seq<FieldInfo>, wasPointer: bool, asString: Formatter, rows: seq<seq<string>>)
    requires WellFormed(fields)
  {
    forall i, j :: 0 <= i < |rows| && 0 <= j < |fields| ==>
      i < |data| && j < |rows[i]| && GetInnerField(data[i], wasPointer, fields[j].indexChain, asString) == Ok(rows[i][j])
  }

  /** Cell j of row i is the text of field j of record i. */
  lemma RecordRowsCells(data: seq<Value>, fields: seq<FieldInfo>, wasPointer: bool, asString: Formatter)
    requires WellFormed(fields)
    ensures CellsRead(data, fields, wasPointer, asString, RecordRows(data, fields, wasPointer, asString).rows)
  {
    var e := RecordRows(data, fields, wasPointer, asString);
    RecordRowsAt(data, fields, wasPointer, asString);
    forall i | 0 <= i < |e.rows|
      ensures forall j :: 0 <= j < |fields| ==> GetInnerField(data[i], wasPointer, fields[j].indexChain, asString) == Ok(e.rows[i][j])
    {
      RecordCellsAt(data[i], fields, wasPointer, asString);
    }
  }

  /** Once a prefix of the records fails, the whole container fails the same way. */
  lemma {:induction false} RecordRowsErrSticks(data: seq<Value>, fields: seq<FieldInfo>, wasPointer: bool, asString: Formatter, j: nat)
    requires WellFormed(fields) && j <= |data|
    requires RecordRows(data[..j], fields, wasPointer, asString).err.Some?
    ensures RecordRows(data, fields, wasPointer, asString) == RecordRows(data[..j], fields, wasPointer, asString)
    decreases |data| - j
  {
    if j < |data| {
      var n := |data| - 1;
      assert data[..n][..j] == data[..j];
      RecordRowsErrSticks(data[..n], fields, wasPointer, asString, j);
    } else {
      assert data[..j] == data;
    }
  }

  /** One more record: a failing record ends the run with its error, a
      readable one adds its row. */
  lemma RecordRowsStep(data: seq<Value>, fields: seq<FieldInfo>, wasPointer: bool, asString: Formatter, r: int)
    requires WellFormed(fields) && 0 <= r < |data|
    requires RecordRows(data[..r], fields, wasPointer, asString).err.None?
    ensures var prev := RecordRows(data[..r], fields, wasPointer, asString);
      var cells := RecordCells(data[r], fields, wasPointer, asString);
      && (cells.Err? ==> RecordRows(data[..r + 1], fields, wasPointer, asString) == Emission(prev.rows, Some(cells.error)))
      && (cells.Ok? ==> RecordRows(data[..r + 1], fields, wasPointer, asString) == Emission(prev.rows + [cells.value], None))
  {
    assert data[..r + 1][..r] == data[..r];
  }

  /** Every row reordered by the same column targets. */
  function ReorderEach(rows: seq<seq<string>>, targets: seq<int>, width: nat): (r: seq<seq<string>>)
    requires forall i :: 0 <= i < |rows| ==> |rows[i]| == width
    requires |targets| <= width && InRange(targets, width)
    ensures |r| == |rows|
  {
    seq(|rows|, i requires 0 <= i < |rows| => Scatter(rows[i], targets, ""))
  }

  /** Reordering one more row appends its reordering. */
  lemma ReorderEachSnoc(rows: seq<seq<string>>, row: seq<string>, targets: seq<int>, width: nat)
    requires forall i :: 0 <= i < |rows| ==> |rows[i]| == width
    requires |row| == width && |targets| <= width && InRange(targets, width)
    ensures forall i :: 0 <= i < |rows + [row]| ==> |(rows + [row])[i]| == width
    ensures ReorderEach(rows + [row], targets, width) == ReorderEach(rows, targets, width) + [Scatter(row, targets, "")]
  {
    assert forall i :: 0 <= i < |rows + [row]| ==> |(rows + [row])[i]| == width;
  }

  /** The canonical header label of every field, in order. */
  function Labels(fields: seq<FieldInfo>): (r: seq<string>)
    requires WellFormed(fields)
    ensures |r| == |fields|
  {
    seq(|fields|, i requires 0 <= i < |fields| => FirstKey(fields[i]))
  }

  // ---------------------------------------------------------------------------
  // writeTo

  /** Everything writeTo hands to the csv.Writer, and its result. colIndex is
      normalised to ranks first; a container that is not a slice or array of
      structs is refused before anything is written; more column targets than
      fields is an index-out-of-range panic; otherwise the header (unless
      omitted) and then one row per record are written, each reordered by
      the ranks, up to the first record whose cells fail. */
  function WriteToEmission(containerKind: Kind, innerKind: Kind, wasPointer: bool, data: seq<Value>,
                           fields: seq<FieldInfo>, omitHeaders: bool, removeIdx: seq<int>,
                           colIndex: seq<int>, asString: Formatter): Emission
    requires WellFormed(fields)
  {
    if EnsureInType(containerKind).Some? then Emission([], EnsureInType(containerKind))
    else if EnsureInInnerType(innerKind).Some? then Emission([], EnsureInInnerType(innerKind))
    else
      var fs := FilteredFields(fields, removeIdx);
      KeepWellFormed(fields, NotRemoved(removeIdx));
      WriteToChecked(data, fs, wasPointer, omitHeaders, Ranks(colIndex), asString)
  }

  /** What writeTo writes once the kinds are checked and the fields filtered:
      more column targets than fields is an index-out-of-range panic;
      otherwise the reordered header (unless omitted) and the reordered
      rows, up to the first record whose cells fail. */
  function WriteToChecked(data: seq<Value>, fs: seq<FieldInfo>, wasPointer: bool, omitHeaders: bool,
                          ranks: seq<int>, asString: Formatter): Emission
    requires WellFormed(fs) && InRange(ranks, |ranks|)
  {
    if |ranks| > |fs| then Emission([], Some(IndexOutOfRange))
    else
      var header := Scatter(Labels(fs), ranks, "");
      var body := RecordRows(data, fs, wasPointer, asString);
      Emission((if omitHeaders then [] else [header]) + ReorderEach(body.rows, ranks, |fs|), body.err)
  }

  /** The labels loop of writeTo: the canonical key of each field, in order. */
  method CollectLabels(fs: seq<FieldInfo>) returns (labels: seq<string>)
    requires WellFormed(fs)
    ensures labels == Labels(fs)
  {
    var buf := new string[|fs|];
    var i := 0;
    while i < |fs|
      invariant 0 <= i <= |fs|
      invariant forall k :: 0 <= k < i ==> buf[k] == FirstKey(fs[k])
    {
      buf[i] := FirstKey(fs[i]);
      i := i + 1;
    }
    labels := buf[..];
  }

  /** The record loop of writeTo: each record's cells, reordered, are written
      in turn; the first failing record stops the loop. */
  method WriteRecords(w: RowWriter, data: seq<Value>, fs: seq<FieldInfo>, wasPointer: bool,
                      ranks: seq<int>, asString: Formatter)
    returns (err: Option<WriteError>)
    requires WellFormed(fs) && |ranks| <= |fs| && InRange(ranks, |fs|)
    modifies w
    ensures w.rows == old(w.rows) + ReorderEach(RecordRows(data, fs, wasPointer, asString).rows, ranks, |fs|)
    ensures err == RecordRows(data, fs, wasPointer, asString).err
  {
    var buf := new string[|fs|];
    var r := 0;
    ghost var rows: seq<seq<string>> := [];
    assert data[..r] == [];
    while r < |data|
      invariant 0 <= r <= |data|
      invariant RecordRows(data[..r], fs, wasPointer, asString) == Emission(rows, None)
      invariant forall i :: 0 <= i < |rows| ==> |rows[i]| == |fs|
      invariant w.rows == old(w.rows) + ReorderEach(rows, ranks, |fs|)
    {
      RecordRowsStep(data, fs, wasPointer, asString, r);
      var e := FillCells(buf, data[r], fs, wasPointer, asString);
      if e.Some? {
        RecordRowsErrSticks(data, fs, wasPointer, asString, r + 1);
        return e;
      }
      var line := ReorderColumns(buf[..], ranks);
      w.Write(line);
      ReorderEachSnoc(rows, buf[..], ranks, |fs|);
      rows := rows + [buf[..]];
      r := r + 1;
    }
    assert data[..r] == data;
    return None;
  }

  /** The writing half of writeTo: the column-count check, the reordered
      header unless omitted, then the reordered rows. */
  method WriteChecked(w: RowWriter, data: seq<Value>, fs: seq<FieldInfo>, wasPointer: bool,
                      omitHeaders: bool, ranks: seq<int>, asString: Formatter)
    returns (err: Option<WriteError>)
    requires WellFormed(fs) && InRange(ranks, |ranks|)
    modifies w
    ensures w.rows == old(w.rows) + WriteToChecked(data, fs, wasPointer, omitHeaders, ranks, asString).rows
    ensures err == WriteToChecked(data, fs, wasPointer, omitHeaders, ranks, asString).err
  {
    var labels := CollectLabels(fs);
    if |ranks| > |fs| {
      return Some(IndexOutOfRange);
    }
    var header := ReorderColumns(labels, ranks);
    if !omitHeaders {
      w.Write(header);
    }
    err := WriteRecords(w, data, fs, wasPointer, ranks, asString);
  }

  /** writeTo after colIndex has been normalised to ranks: the kind checks,
      the field filter, the column-count check, then the writing. */
  method WriteNormalised(w: RowWriter, containerKind: Kind, innerKind: Kind, wasPointer: bool, data: seq<Value>,
                         fields: seq<FieldInfo>, omitHeaders: bool, removeIdx: seq<int>,
                         ranks: seq<int>, ghost colIndex: seq<int>, asString: Formatter)
    returns (err: Option<WriteError>)
    requires WellFormed(fields) && ranks == Ranks(colIndex)
    modifies w
    ensures w.rows == old(w.rows) + WriteToEmission(containerKind, innerKind, wasPointer, data, fields, omitHeaders, removeIdx, colIndex, asString).rows
    ensures err == WriteToEmission(containerKind, innerKind, wasPointer, data, fields, omitHeaders, removeIdx, colIndex, asString).err
  {
    err := EnsureInType(containerKind);
    if err.Some? {
      return;
    }
    err := EnsureInInnerType(innerKind);
    if err.Some? {
      return;
    }
    var fs := GetFilteredFields(fields, removeIdx);
    KeepWellFormed(fields, NotRemoved(removeIdx));
    err := WriteChecked(w, data, fs, wasPointer, omitHeaders, ranks, asString);
  }

  /** writeTo: normalises the caller's colIndex in place, then writes through w. */
  method WriteTo(w: RowWriter, containerKind: Kind, innerKind: Kind, wasPointer: bool, data: seq<Value>,
                 fields: seq<FieldInfo>, omitHeaders: bool, removeIdx: seq<int>,
                 colIndex: array<int>, asString: Formatter)
    returns (err: Option<WriteError>)
    requires WellFormed(fields)
    modifies w, colIndex
    ensures colIndex[..] == Ranks(old(colIndex[..]))
    ensures w.rows == old(w.rows) + WriteToEmission(containerKind, innerKind, wasPointer, data, fields, omitHeaders, removeIdx, old(colIndex[..]), asString).rows
    ensures err == WriteToEmission(containerKind, innerKind, wasPointer, data, fields, omitHeaders, removeIdx, old(colIndex[..]), asString).err
  {
    ghost var original := colIndex[..];
    var normalised := ChangeToSequence(colIndex);
    err := WriteNormalised(w, containerKind, innerKind, wasPointer, data, fields, omitHeaders, removeIdx,
                           normalised[..], original, asString);
  }

  // ---------------------------------------------------------------------------
  // An empty column order

  /** As written, an empty colIndex makes reorderColumns move nothing, so the
      header and every row come out as empty cells. */
  lemma WriteToBlanksWithoutColIndex(data: seq<Value>, fields: seq<FieldInfo>, wasPointer: bool,
                                     omitHeaders: bool, removeIdx: seq<int>, asString: Formatter)
    requires WellFormed(fields)
    ensures var e := WriteToEmission(Slice, Struct, wasPointer, data, fields, omitHeaders, removeIdx, [], asString);
      forall i, j :: 0 <= i < |e.rows| && 0 <= j < |e.rows[i]| ==> e.rows[i][j] == ""
  {
  }

  /** A one-field schema whose label is "Name" gets the header [""]. */
  lemma WriteToBlankHeaderExample(asString: Formatter)
    ensures WriteToEmission(Slice, Struct, false, [], [FieldInfo(["Name"], [0], "", false)], false, [], [], asString).rows == [[""]]
  {
    var fs := [FieldInfo(["Name"], [0], "", false)];
    assert FilteredFields(fs, []) == fs;
    assert Scatter(Labels(fs), [], "") == [""];
  }

  /** The row order evidently intended, and the one the generic reorderColumns
      in xsv_writer.go follows: with fewer than two targets the row is kept. */
  function ReorderIntended(row: seq<string>, targets: seq<int>): (r: seq<string>)
    requires |targets| <= |row| && InRange(targets, |row|)
    ensures |targets| <= 1 ==> r == row
    ensures |targets| > 1 ==> r == Scatter(row, targets, "")
  {
    if |targets| > 1 then Scatter(row, targets, "") else row
  }

  /** writeTo with the intended reordering. */
  function WriteToEmissionIntended(containerKind: Kind, innerKind: Kind, wasPointer: bool, data: seq<Value>,
                                   fields: seq<FieldInfo>, omitHeaders: bool, removeIdx: seq<int>,
                                   colIndex: seq<int>, asString: Formatter): Emission
    requires WellFormed(fields)
  {
    var ranks := Ranks(colIndex);
    if EnsureInType(containerKind).Some? then Emission([], EnsureInType(containerKind))
    else if EnsureInInnerType(innerKind).Some? then Emission([], EnsureInInnerType(innerKind))
    else
      var fs := FilteredFields(fields, removeIdx);
      KeepWellFormed(fields, NotRemoved(removeIdx));
      if |ranks| > |fs| then Emission([], Some(IndexOutOfRange))
      else
        var body := RecordRows(data, fs, wasPointer, asString);
        var rows := seq(|body.rows|, i requires 0 <= i < |body.rows| => ReorderIntended(body.rows[i], ranks));
        Emission((if omitHeaders then [] else [ReorderIntended(Labels(fs), ranks)]) + rows, body.err)
  }

  /** Intended: without a column order the header is the fields' labels and
      row i holds record i's cells, in schema order. */
  lemma WriteToIntendedKeepsSchemaOrder(data: seq<Value>, fields: seq<FieldInfo>, wasPointer: bool,
                                        removeIdx: seq<int>, asString: Formatter)
    requires WellFormed(fields)
    ensures var e := WriteToEmissionIntended(Slice, Struct, wasPointer, data, fields, false, removeIdx, [], asString);
      var fs := FilteredFields(fields, removeIdx);
      && |e.rows| > 0
      && WellFormed(fs)
      && e.rows[0] == Labels(fs)
      && (e.err.None? ==> |e.rows| == |data| + 1)
      && |e.rows| <= |data| + 1
      && forall i :: 1 <= i < |e.rows| ==> RecordCells(data[i - 1], fs, wasPointer, asString) == Ok(e.rows[i])
  {
    var fs := FilteredFields(fields, removeIdx);
    KeepWellFormed(fields, NotRemoved(removeIdx));
    RecordRowsAt(data, fs, wasPointer, asString);
  }

  /** With a full column order, the intended and the written outputs agree. */
  lemma WriteToIntendedAgreesWithOrder(containerKind: Kind, innerKind: Kind, wasPointer: bool, data: seq<Value>,
                                       fields: seq<FieldInfo>, omitHeaders: bool, removeIdx: seq<int>,
                                       colIndex: seq<int>, asString: Formatter)
    requires WellFormed(fields) && |colIndex| > 1
    ensures WriteToEmissionIntended(containerKind, innerKind, wasPointer, data, fields, omitHeaders, removeIdx, colIndex, asString)
         == WriteToEmission(containerKind, innerKind, wasPointer, data, fields, omitHeaders, removeIdx, colIndex, asString)
  {
  }
}
