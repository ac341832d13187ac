/** The iterator over an index set of MCIterator.h, and what `count` has to do with it. */
module IndexSetIterators {
  import opened Basics
  import opened Ranges
  import opened IndexSets
  import IndexSet

  function RangeElements(r: Range): (s: seq<int>)
    ensures |s| == RangeRightBound(r) - r.location + 1
    ensures forall i :: 0 <= i < |s| ==> s[i] == r.location + i
  {
    seq(RangeRightBound(r) - r.location + 1, i => r.location + i)
  }

  /** The indexes of the set, range after range. */
  function Elements(rs: seq<Range>): seq<int> {
    if rs == [] then [] else RangeElements(rs[0]) + Elements(rs[1..])
  }

  lemma {:induction false} ElementsAppend(rs: seq<Range>, r: Range)
    ensures Elements(rs + [r]) == Elements(rs) + RangeElements(r)
  {
    hide RangeElements;
    if rs == [] {
      assert rs + [r] == [r] && [r][1..] == [];
    } else {
      ElementsAppend(rs[1..], r);
      assert (rs + [r])[1..] == rs[1..] + [r];
    }
  }

  lemma {:induction false} ElementsHold(rs: seq<Range>, x: int)
    requires Separated(rs)
    ensures x in Elements(rs) <==> Contains(rs, x)
  {
    if |rs| == 0 {
    } else {
      FirstAndRest(rs, x);
      ElementsHold(rs[1..], x);
      if In(rs[0], x) {
        assert RangeElements(rs[0])[x - rs[0].location] == x;
      }
    }
  }

  /** Each index comes once, the smaller before the greater. */
  lemma {:induction false} ElementsAscend(rs: seq<Range>)
    requires Separated(rs)
    ensures forall i, j :: 0 <= i < j < |Elements(rs)| ==> Elements(rs)[i] < Elements(rs)[j]
  {
    if |rs| == 0 {
    } else {
      ElementsAscend(rs[1..]);
      var first, rest := RangeElements(rs[0]), Elements(rs[1..]);
      forall j | 0 <= j < |rest|
        ensures RangeRightBound(rs[0]) < rest[j]
      {
        ElementsHold(rs[1..], rest[j]);
        FirstAndRest(rs, rest[j]);
      }
    }
  }

  predicate NoneEndless(rs: seq<Range>) {
    forall i :: 0 <= i < |rs| ==> rs[i].length < UINT64_MAX
  }

  /** `count` is the number of indexes, as long as it fits in 32 bits and no range is endless. */
  lemma {:induction false} TotalCountsElements(rs: seq<Range>)
    requires NoneEndless(rs)
    ensures Total(rs) == |Elements(rs)|
  {
    if |rs| == 0 {
    } else {
      var n := |rs| - 1;
      TotalCountsElements(rs[..n]);
      ElementsAppend(rs[..n], rs[n]);
      assert rs == rs[..n] + [rs[n]];
    }
  }

  /** What the iterator's 32-bit index and 64-bit signed value can handle. */
  ghost predicate Iterable(rs: seq<Range>) {
    forall i :: 0 <= i < |rs| ==> rs[i].length < 0xFFFF_FFFF && rs[i].location + rs[i].length < 0x8000_0000_0000_0000
  }

  lemma IterableAt(rs: seq<Range>, k: nat)
    requires Iterable(rs)
    ensures k < |rs| ==> rs[k].length < 0xFFFF_FFFF && rs[k].location + rs[k].length < 0x8000_0000_0000_0000
  {
  }

  /** The indexes from the one at offset `index` of the range at `k` on; none without a current range. */
  function ElementsFrom(rs: seq<Range>, current: bool, k: nat, index: nat): seq<int> {
    if current && k < |rs| && index < |RangeElements(rs[k])| then
      RangeElements(rs[k])[index..] + Elements(rs[k + 1..])
    else
      []
  }

  lemma ElementsFromStart(rs: seq<Range>)
    ensures Elements(rs) == ElementsFrom(rs, |rs| >= 1, 0, 0)
  {
  }

  lemma ElementsFromFirst(rs: seq<Range>, current: bool, k: nat, index: nat)
    requires current ==> k < |rs| && rs[k].length < UINT64_MAX && index <= rs[k].length
    ensures var s := ElementsFrom(rs, current, k, index);
            if current then |s| > 0 && s[0] == rs[k].location + index else |s| == 0
  {
  }

  /** One turn: within the range, or to the next range if there is one. */
  lemma ElementsFromNext(rs: seq<Range>, k: nat, index: nat)
    requires k < |rs| && rs[k].length < UINT64_MAX && index <= rs[k].length
    ensures |ElementsFrom(rs, true, k, index)| > 0
    ensures ElementsFrom(rs, true, k, index)[1..] ==
            if index + 1 > rs[k].length then ElementsFrom(rs, k + 1 < |rs|, k + 1, 0)
            else ElementsFrom(rs, true, k, index + 1)
  {
    if index + 1 <= rs[k].length {
      assert RangeElements(rs[k])[index..][1..] == RangeElements(rs[k])[index + 1..];
    } else if k + 1 < |rs| {
      assert rs[k + 1..][1..] == rs[k + 2..];
    }
  }

  // ----- the 32-bit index

  /** The index in a range after the one given, or nothing when the range is left. */
  function NextIndex(length: nat, index: nat): (r: Option<nat>)
    ensures r.Some? ==> r.value <= length
  {
    var next := (index + 1) % 0x1_0000_0000;
    if next > length then None else Some(next)
  }

  /** The index after `n` turns that start with index 0, as long as the range is not left. */
  function IndexAfter(length: nat, n: nat): Option<nat> {
    if n == 0 then Some(0)
    else if IndexAfter(length, n - 1).None? then None
    else NextIndex(length, IndexAfter(length, n - 1).value)
  }

  lemma {:induction false} IndexWraps(length: nat, n: nat)
    requires length >= 0xFFFF_FFFF || n <= length
    ensures IndexAfter(length, n) == Some(n % 0x1_0000_0000)
  {
    if n == 0 {
    } else {
      IndexWraps(length, n - 1);
      WrapsStep(n - 1);
    }
  }

  lemma WrapsStep(n: nat)
    ensures (n % 0x1_0000_0000 + 1) % 0x1_0000_0000 == (n + 1) % 0x1_0000_0000
    ensures (n + 1) % 0x1_0000_0000 <= n + 1 && (n + 1) % 0x1_0000_0000 <= 0xFFFF_FFFF
  {
  }

  /** The iterator leaves a range exactly when it has fewer than 2^32 indexes; on a longer one it starts over. */
  lemma LeavesRangeIff(length: nat)
    ensures (exists n :: IndexAfter(length, n).None?) <==> length < 0xFFFF_FFFF
  {
    if length < 0xFFFF_FFFF {
      IndexWraps(length, length);
      assert IndexAfter(length, length + 1).None?;
    } else {
      forall n
        ensures IndexAfter(length, n).Some?
      {
        IndexWraps(length, n);
      }
    }
  }

  /** The cast to a signed integer of 64 bits. */
  function ToInt64(n: nat): int {
    var m := n % (UINT64_MAX + 1);
    if m < 0x8000_0000_0000_0000 then m else m - UINT64_MAX - 1
  }

  /** The iterator over a set that is not changed meanwhile, so `allRanges` always reads the same. */
  class IndexSetIterator {
    var rangeIndex: nat
    var index: nat
    var hasCurrentRange: bool
    const allRanges: seq<Range>

    /** The current range, when there is one, is the one at `rangeIndex`. */
    ghost predicate Valid()
      reads this
    {
      hasCurrentRange ==> rangeIndex < |allRanges| && index <= allRanges[rangeIndex].length
    }

    /** The indexes still to come, the current one first. */
    ghost function Remaining(): seq<int>
      reads this
    {
      ElementsFrom(allRanges, hasCurrentRange, rangeIndex, index)
    }

    constructor (indexSet: IndexSet.IndexSet)
      requires indexSet.Valid()
      ensures Valid() && Remaining() == Elements(indexSet.Contents()) && allRanges == indexSet.Contents()
    {
      allRanges := indexSet.mRanges[..indexSet.mCount];
      rangeIndex, index := 0, 0;
      hasCurrentRange := indexSet.mCount >= 1;
      ElementsFromStart(indexSet.Contents());
    }

    /** Whether there is a current range. */
    method IsValid() returns (valid: bool)
      requires Valid()
      ensures valid == hasCurrentRange
      ensures Iterable(allRanges) ==> (valid <==> |Remaining()| > 0)
    {
      if Iterable(allRanges) {
        IterableAt(allRanges, rangeIndex);
        ElementsFromFirst(allRanges, hasCurrentRange, rangeIndex, index);
      }
      valid := hasCurrentRange;
    }

    /** The 64-bit signed value, -1 at the end. */
    method Value() returns (value: int)
      requires Valid()
      ensures value == if hasCurrentRange then ToInt64(allRanges[rangeIndex].location + index) else -1
      ensures Iterable(allRanges) ==> value == if |Remaining()| == 0 then -1 else Remaining()[0]
    {
      if Iterable(allRanges) {
        IterableAt(allRanges, rangeIndex);
        ElementsFromFirst(allRanges, hasCurrentRange, rangeIndex, index);
      }
      if !hasCurrentRange {
        value := -1;
      } else {
        value := ToInt64(allRanges[rangeIndex].location + index);
      }
    }

    method Next() returns (more: bool)
      requires Valid() && hasCurrentRange
      modifies this
      ensures Valid() && more == hasCurrentRange
      ensures var next := NextIndex(allRanges[old(rangeIndex)].length, old(index));
              if next.Some? then rangeIndex == old(rangeIndex) && index == next.value && more
              else rangeIndex == old(rangeIndex) + 1 && index == 0 && (more <==> rangeIndex < |allRanges|)
      ensures Iterable(allRanges) ==> |old(Remaining())| > 0 && Remaining() == old(Remaining())[1..]
    {
      hide ElementsFrom, Iterable, Elements, RangeElements;
      if Iterable(allRanges) {
        IterableAt(allRanges, rangeIndex);
        ElementsFromNext(allRanges, rangeIndex, index);
      }
      index := (index + 1) % 0x1_0000_0000;
      more := true;
      if index > allRanges[rangeIndex].length {
        index := 0;
        rangeIndex := rangeIndex + 1;
        if rangeIndex >= |allRanges| {
          hasCurrentRange := false;
          more := false;
        }
      }
    }
  }

  lemma IterableIsCounted(rs: seq<Range>)
    requires Iterable(rs)
    ensures |Elements(rs)| == Total(rs)
  {
    TotalCountsElements(rs);
  }

  /** What has been visited, followed by what is still to come. */
  lemma VisitsOne(elements: seq<int>, visited: seq<int>, remaining: seq<int>)
    requires elements == visited + remaining && |remaining| > 0
    ensures elements == visited + [remaining[0]] + remaining[1..]
  {
  }

  /** The `mc_foreachindexset` loop, recording what it visits: as many indexes as `count` gives modulo 2^32. */
  method ForEach(indexSet: IndexSet.IndexSet) returns (visited: seq<int>)
    requires indexSet.Valid() && Iterable(indexSet.Contents())
    ensures visited == Elements(indexSet.Contents())
    ensures |visited| == Total(indexSet.Contents())
  {
    hide *;
    visited := [];
    var it := new IndexSetIterator(indexSet);
    ghost var elements := it.Remaining();
    IterableIsCounted(indexSet.Contents());
    var valid := it.IsValid();
    while valid
      invariant it.Valid() && valid == it.hasCurrentRange && (valid <==> |it.Remaining()| > 0)
      invariant elements == visited + it.Remaining()
      decreases |elements| - |visited|
    {
      VisitsOne(elements, visited, it.Remaining());
      var value := it.Value();
      var more := it.Next();
      visited := visited + [value];
      valid := it.IsValid();
    }
  }

  /** Counting first and then visiting: with fewer than 2^32 indexes, as many are visited as were counted. */
  method CountThenForEach(indexSet: IndexSet.IndexSet) returns (total: nat, visited: seq<int>)
    requires indexSet.Valid() && Iterable(indexSet.Contents())
    ensures visited == Elements(indexSet.Contents())
    ensures total == |visited| % 0x1_0000_0000
  {
    hide *;
    total := indexSet.Count();
    visited := ForEach(indexSet);
  }
}
