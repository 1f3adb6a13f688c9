/** Shared vocabulary of the struct-to-CSV mapping layer: failure-compatible
    wrappers, the field descriptor produced by the schema builder, and an
    order-preserving filter with the facts the column-selection code relies on. */
module Common {

  datatype Option<T> = None | Some(value: T)

  datatype Result<T, E> = Ok(value: T) | Err(error: E)

  /** csv.ParseError: a 1-based line and column and the underlying cause. */
  datatype ParseError = ParseError(line: int, column: int, cause: string)

  /** One result of csv.Reader.Read: a record's cells, or the error the
      tokenizer reports (a quoting error, a record whose field count differs
      from the first record's, an I/O error). The end of the sequence is io.EOF. */
  datatype ReadItem = Row(cells: seq<string>) | Broken(reason: string)

  /** csv.Reader.ReadAll: every record, or the first error. */
  function ReadAll(items: seq<ReadItem>): (r: Result<seq<seq<string>>, string>)
    ensures r.Ok? ==> |r.value| == |items|
    ensures r.Ok? && items != [] ==> items[0] == Row(r.value[0])
    decreases |items|
  {
    if items == [] then Ok([])
    else match ReadAll(items[..|items| - 1])
      case Err(e) => Err(e)
      case Ok(rows) =>
        match items[|items| - 1]
        case Broken(reason) => Err(reason)
        case Row(cells) => Ok(rows + [cells])
  }

  /** ReadAll fails exactly when some record is broken; otherwise record i
      is row i. */
  lemma {:induction false} ReadAllShape(items: seq<ReadItem>)
    ensures ReadAll(items).Ok? ==> forall i :: 0 <= i < |items| ==> items[i] == Row(ReadAll(items).value[i])
    ensures ReadAll(items).Err? <==> exists i :: 0 <= i < |items| && items[i].Broken?
    decreases |items|
  {
    if items != [] {
      var n := |items| - 1;
      ReadAllShape(items[..n]);
      if ReadAll(items[..n]).Err? {
        var i :| 0 <= i < n && items[..n][i].Broken?;
        assert items[i].Broken?;
      } else if items[n].Row? {
        forall i | 0 <= i < n
          ensures items[i].Row?
        {
          assert items[i] == items[..n][i];
        }
      }
    }
  }

  /** ReadAll stops at the first broken record: once a prefix fails, the
      whole read fails the same way. */
  lemma {:induction false} ReadAllStops(items: seq<ReadItem>, j: nat)
    requires j <= |items| && ReadAll(items[..j]).Err?
    ensures ReadAll(items) == ReadAll(items[..j])
    decreases |items| - j
  {
    if j < |items| {
      var n := |items| - 1;
      assert items[..n][..j] == items[..j];
      ReadAllStops(items[..n], j);
    } else {
      assert items[..j] == items;
    }
  }

  /** The first i records read without error, as rows. */
  ghost predicate ReadSoFar(items: seq<ReadItem>, i: nat, rows: seq<seq<string>>) {
    i <= |items| && ReadAll(items[..i]) == Ok(rows)
  }

  /** One more record of a read with no error so far. */
  lemma ReadAllStep(items: seq<ReadItem>, i: int, rows: seq<seq<string>>)
    requires 0 <= i < |items| && ReadSoFar(items, i, rows)
    ensures items[i].Broken? ==> ReadAll(items) == Err(items[i].reason)
    ensures items[i].Row? ==> ReadSoFar(items, i + 1, rows + [items[i].cells])
  {
    assert items[..i + 1][..i] == items[..i];
    if items[i].Broken? {
      ReadAllStops(items, i + 1);
    }
  }

  /** Failures of the write side: a container or element of the wrong reflect
      kind, a value the field formatter (getFieldAsString, not part of this
      model) could not format, a Go index-out-of-range panic, a reflect panic
      (a field read on a value that is not a struct), a SortOrder of
      the wrong length, and a channel that was closed before its first value. */
  datatype WriteError =
    | KindMismatch
    | Conversion(cause: string)
    | IndexOutOfRange
    | ReflectMisuse
    | SortOrderLength(expected: int)
    | ChannelIsClosed

  /** The csv.Writer the encoder pushes rows to; its I/O never fails here. */
  class RowWriter {
    var rows: seq<seq<string>>

    constructor ()
      ensures rows == []
    {
      rows := [];
    }

    method Write(record: seq<string>)
      modifies this
      ensures rows == old(rows) + [record]
    {
      rows := rows + [record];
    }
  }

  /** A field descriptor as built by getFieldInfos (the builder itself is not
      part of this model): header aliases (the first one is canonical), the
      path of struct-field / element indices from the record root, the
      default substituted for an empty cell, and the omitempty flag. */
  datatype FieldInfo = FieldInfo(keys: seq<string>, indexChain: seq<nat>, defaultValue: string, omitEmpty: bool)

  /** The zero value of fieldInfo, which Go puts in any slot a reordering leaves unfilled. */
  const ZeroField := FieldInfo([], [], "", false)

  /** The schema builder's invariant: every descriptor has a canonical key and
      at least one step in its index chain (fieldInfo.getFirstKey reads keys[0],
      and the encoder reads IndexChain[0]). */
  predicate WellFormed(fields: seq<FieldInfo>) {
    forall i :: 0 <= i < |fields| ==> |fields[i].keys| > 0 && |fields[i].indexChain| > 0
  }

  /** fieldInfo.getFirstKey */
  function FirstKey(f: FieldInfo): string
    requires |f.keys| > 0
  {
    f.keys[0]
  }

  // ---------------------------------------------------------------------------
  // Order-preserving filter (the append loops of getSelectedFieldInfos,
  // getFilteredFields and getPickedFields all compute one).

  /** The elements of s that satisfy p, in their original order. Defined from
      the end so that one loop iteration appends at most one element. */
  function Keep<T>(s: seq<T>, p: T -> bool): (r: seq<T>)
    ensures |r| <= |s|
    decreases |s|
  {
    if s == [] then [] else Keep(s[..|s| - 1], p) + (if p(s[|s| - 1]) then [s[|s| - 1]] else [])
  }

  /** An element is kept exactly when it occurs in s and satisfies p. */
  lemma {:induction false} KeepMembership<T>(s: seq<T>, p: T -> bool, x: T)
    ensures x in Keep(s, p) <==> x in s && p(x)
    decreases |s|
  {
    if s != [] {
      var n := |s| - 1;
      KeepMembership(s[..n], p, x);
      assert s == s[..n] + [s[n]];
    }
  }

  /** Filtering distributes over concatenation: what comes earlier in the
      input comes earlier in the output, so the relative order is kept. */
  lemma {:induction false} KeepConcat<T>(a: seq<T>, b: seq<T>, p: T -> bool)
    ensures Keep(a + b, p) == Keep(a, p) + Keep(b, p)
    decreases |b|
  {
    if b == [] {
      assert a + b == a;
    } else {
      var n := |b| - 1;
      KeepConcat(a, b[..n], p);
      assert (a + b)[..|a + b| - 1] == a + b[..n];
      assert (a + b)[|a + b| - 1] == b[n];
    }
  }

  /** Filtering a well-formed schema leaves a well-formed schema. */
  lemma KeepWellFormed(s: seq<FieldInfo>, p: FieldInfo -> bool)
    requires WellFormed(s)
    ensures WellFormed(Keep(s, p))
  {
    var r := Keep(s, p);
    forall i | 0 <= i < |r|
      ensures |r[i].keys| > 0 && |r[i].indexChain| > 0
    {
      KeepMembership(s, p, r[i]);
    }
  }

  /** When every element satisfies p, nothing is dropped. */
  lemma {:induction false} KeepAll<T>(s: seq<T>, p: T -> bool)
    requires forall i :: 0 <= i < |s| ==> p(s[i])
    ensures Keep(s, p) == s
    decreases |s|
  {
    if s != [] {
      var n := |s| - 1;
      KeepAll(s[..n], p);
      assert s == s[..n] + [s[n]];
    }
  }

  /** Filtering only looks at p on the elements of s. */
  lemma {:induction false} KeepCongruence<T>(s: seq<T>, p: T -> bool, q: T -> bool)
    requires forall i :: 0 <= i < |s| ==> p(s[i]) == q(s[i])
    ensures Keep(s, p) == Keep(s, q)
    decreases |s|
  {
    if s != [] {
      KeepCongruence(s[..|s| - 1], p, q);
    }
  }

  /** Two complementary filters split s: together they keep every element
      exactly once. */
  lemma {:induction false} KeepPartition<T>(s: seq<T>, p: T -> bool, q: T -> bool)
    requires forall i :: 0 <= i < |s| ==> q(s[i]) == !p(s[i])
    ensures |Keep(s, p)| + |Keep(s, q)| == |s|
    ensures multiset(Keep(s, p)) + multiset(Keep(s, q)) == multiset(s)
    decreases |s|
  {
    if s != [] {
      var n := |s| - 1;
      KeepPartition(s[..n], p, q);
      assert s == s[..n] + [s[n]];
    }
  }
}

/** Index sequences that are permutations of 0..n-1, as SortOrder and the
    normalised colIndex are meant to be. */
module Permutations {

  predicate InRange(p: seq<int>, n: int) {
    forall k :: 0 <= k < |p| ==> 0 <= p[k] < n
  }

  predicate Injective(p: seq<int>) {
    forall i, j :: 0 <= i < |p| && 0 <= j < |p| && i != j ==> p[i] != p[j]
  }

  /** p lists every position 0..|p|-1 exactly once. */
  predicate IsPermutation(p: seq<int>) {
    InRange(p, |p|) && Injective(p)
  }

  /** The positions 0..n-1 as a set. */
  function RangeSet(n: nat): (r: set<int>)
    ensures forall t :: t in r <==> 0 <= t < n
  {
    if n == 0 then {} else RangeSet(n - 1) + {n - 1}
  }

  lemma {:induction false} RangeSetSize(n: nat)
    ensures |RangeSet(n)| == n
  {
    if n > 0 {
      RangeSetSize(n - 1);
    }
  }

  function ValueSet(p: seq<int>): set<int> {
    set k | 0 <= k < |p| :: p[k]
  }

  lemma {:induction false} ValueSetSize(p: seq<int>)
    requires Injective(p)
    ensures |ValueSet(p)| == |p|
    decreases |p|
  {
    if p != [] {
      var n := |p| - 1;
      ValueSetSize(p[..n]);
      assert ValueSet(p) == ValueSet(p[..n]) + {p[n]};
      assert p[n] !in ValueSet(p[..n]);
    }
  }

  lemma SubsetSameSize(a: set<int>, b: set<int>)
    requires a <= b && |a| == |b|
    ensures a == b
  {
    assert b == a + (b - a);
    assert |b - a| == 0;
  }

  /** Pigeonhole: an injective sequence of length n with values in 0..n-1
      takes every value in 0..n-1. */
  lemma {:induction false} PermutationOnto(p: seq<int>)
    requires IsPermutation(p)
    ensures forall t :: 0 <= t < |p| ==> t in p
  {
    ValueSetSize(p);
    RangeSetSize(|p|);
    assert ValueSet(p) <= RangeSet(|p|);
    SubsetSameSize(ValueSet(p), RangeSet(|p|));
    forall t | 0 <= t < |p| ensures t in p {
      assert t in RangeSet(|p|);
      var k :| 0 <= k < |p| && p[k] == t;
    }
  }

  lemma {:induction false} ValueSetAtMost(p: seq<int>)
    ensures |ValueSet(p)| <= |p|
    decreases |p|
  {
    if p != [] {
      var n := |p| - 1;
      ValueSetAtMost(p[..n]);
      assert ValueSet(p) == ValueSet(p[..n]) + {p[n]};
    }
  }

  /** Dropping a position whose value occurs elsewhere keeps the value set. */
  lemma DropRepeated(p: seq<int>, i: int, j: int)
    requires 0 <= i < |p| && 0 <= j < |p| && i != j && p[i] == p[j]
    ensures ValueSet(p[..j] + p[j + 1..]) == ValueSet(p)
  {
    var q := p[..j] + p[j + 1..];
    forall v | v in ValueSet(p)
      ensures v in ValueSet(q)
    {
      var k :| 0 <= k < |p| && p[k] == v;
      var m := if k == j then i else k;
      if m < j {
        assert q[m] == v;
      } else {
        assert q[m - 1] == v;
      }
    }
    forall v | v in ValueSet(q)
      ensures v in ValueSet(p)
    {
      var k :| 0 <= k < |q| && q[k] == v;
      if k < j {
        assert p[k] == v;
      } else {
        assert p[k + 1] == v;
      }
    }
  }

  /** Pigeonhole, the other way: a sequence of length n with values in
      0..n-1 that repeats a value misses some position. */
  lemma NotInjectiveMisses(p: seq<int>)
    requires InRange(p, |p|) && !Injective(p)
    ensures exists t :: 0 <= t < |p| && t !in p
  {
    var i, j :| 0 <= i < |p| && 0 <= j < |p| && i != j && p[i] == p[j];
    DropRepeated(p, i, j);
    ValueSetAtMost(p[..j] + p[j + 1..]);
    RangeSetSize(|p|);
    var range := RangeSet(|p|);
    assert ValueSet(p) <= range;
    var missing := range - ValueSet(p);
    assert range == ValueSet(p) + missing;
    assert |missing| > 0;
    var t :| t in missing;
    assert forall k :: 0 <= k < |p| ==> p[k] in ValueSet(p);
    assert 0 <= t < |p| && t !in p;
  }
}
