/**
  The set of 64-bit indexes of MCIndexSet.cpp: an array of ranges in increasing order that do not
  meet. This module says what such an array denotes and what the operations make of it.
 */
module IndexSets {
  import opened Ranges

  ghost predicate Contains(rs: seq<Range>, x: int) {
    exists i :: 0 <= i < |rs| && In(rs[i], x)
  }

  /** In increasing order, no two ranges sharing an index. */
  ghost predicate Separated(rs: seq<Range>) {
    forall i, j :: 0 <= i < j < |rs| ==> RangeRightBound(rs[i]) < rs[j].location
  }

  /** No range starts at the last index, the location that MCRange.h keeps for the empty range. */
  ghost predicate BelowTop(rs: seq<Range>) {
    forall i :: 0 <= i < |rs| ==> rs[i].location < UINT64_MAX
  }

  ghost predicate Denotes(rs: seq<Range>) {
    Separated(rs) && BelowTop(rs)
  }

  ghost predicate SameSet(rs: seq<Range>, ts: seq<Range>) {
    forall x :: Contains(rs, x) <==> Contains(ts, x)
  }

  // ----- the binary searches

  /** The index of a range holding `idx`, or -1. */
  function RangeIndexForIndexWithBounds(rs: seq<Range>, idx: nat, left: nat, right: nat): (at: int)
    requires left <= right < |rs| && Separated(rs)
    ensures at == -1 ==> forall i :: left <= i <= right ==> !In(rs[i], idx)
    ensures at != -1 ==> left <= at <= right && In(rs[at], idx)
    decreases right - left
  {
    var middle := (left + right) / 2;
    if left == right then
      if In(rs[middle], idx) then left else -1
    else if In(rs[middle], idx) then
      middle
    else if idx < rs[middle].location then
      RangeIndexForIndexWithBounds(rs, idx, left, middle)
    else
      RangeIndexForIndexWithBounds(rs, idx, middle + 1, right)
  }

  function RangeIndexForIndex(rs: seq<Range>, idx: nat): (at: int)
    requires Separated(rs)
    ensures at != -1 <==> Contains(rs, idx)
  {
    if |rs| == 0 then -1 else RangeIndexForIndexWithBounds(rs, idx, 0, |rs| - 1)
  }

  /** The first range that ends at `idx` or later. */
  function LeftRangeIndexForIndexWithBounds(rs: seq<Range>, idx: nat, left: nat, right: nat): (at: nat)
    requires left <= right < |rs| && Separated(rs)
    ensures left <= at <= right + 1
    ensures forall i :: left <= i < at ==> RangeRightBound(rs[i]) < idx
    ensures at <= right ==> idx <= RangeRightBound(rs[at])
    decreases right - left
  {
    var middle := (left + right) / 2;
    if left == right then
      if idx <= RangeRightBound(rs[middle]) then left else left + 1
    else if idx <= RangeRightBound(rs[middle]) then
      LeftRangeIndexForIndexWithBounds(rs, idx, left, middle)
    else
      LeftRangeIndexForIndexWithBounds(rs, idx, middle + 1, right)
  }

  function LeftRangeIndexForIndex(rs: seq<Range>, idx: nat): (at: nat)
    requires Separated(rs)
    ensures at <= |rs|
    ensures forall i :: 0 <= i < at ==> RangeRightBound(rs[i]) < idx
    ensures at < |rs| ==> idx <= RangeRightBound(rs[at])
  {
    if |rs| == 0 then 0 else LeftRangeIndexForIndexWithBounds(rs, idx, 0, |rs| - 1)
  }

  lemma StoredBelowTop(rs: seq<Range>, i: nat)
    requires Denotes(rs) && i < |rs|
    ensures rs[i].location < UINT64_MAX
  {
  }

  lemma DenotesBelowTop(rs: seq<Range>)
    requires Denotes(rs)
    ensures Separated(rs) && BelowTop(rs)
  {
  }

  // ----- addRange

  function Inserted(rs: seq<Range>, at: nat, r: Range): seq<Range>
    requires at <= |rs|
  {
    rs[..at] + [r] + rs[at..]
  }

  /** The last of the ranges from `i` on that meet the range at `at`, one after the other. */
  function LastMet(rs: seq<Range>, at: nat, i: nat): (right: nat)
    requires at <= i <= |rs| && at < |rs|
    ensures at <= right < |rs| && i - 1 <= right
    decreases |rs| - i
  {
    if i < |rs| && RangeHasIntersection(rs[at], rs[i]) then
      LastMet(rs, at, i + 1)
    else if i == at then
      at
    else
      i - 1
  }

  /** `mergeRanges`: the range at `at` is united with the last one it meets. */
  function Merged(rs: seq<Range>, at: nat): (m: seq<Range>)
    requires at < |rs|
    ensures at < |m|
  {
    var right := LastMet(rs, at, at);
    if right == at then
      rs
    else
      rs[..at] + [RangeUnion(rs[at], rs[right])[0]] + rs[right + 1..]
  }

  /** `tryToMergeAdjacentRanges`: two neighbours become one when nothing lies between them. */
  function Joined(rs: seq<Range>, at: nat): seq<Range>
    requires at + 1 < |rs|
  {
    var right := RangeRightBound(rs[at]);
    if right == UINT64_MAX || right + 1 != rs[at + 1].location then
      rs
    else
      rs[..at] + [Range(rs[at].location, RangeRightBound(rs[at + 1]) - rs[at].location)] + rs[at + 2..]
  }

  lemma ContainsConcat(rs: seq<Range>, ts: seq<Range>, x: int)
    ensures Contains(rs + ts, x) <==> Contains(rs, x) || Contains(ts, x)
  {
    var all := rs + ts;
    if i :| 0 <= i < |rs| && In(rs[i], x) {
      assert In(all[i], x);
    }
    if i :| 0 <= i < |ts| && In(ts[i], x) {
      assert In(all[|rs| + i], x);
    }
    if i :| 0 <= i < |all| && In(all[i], x) {
      assert i < |rs| || In(ts[i - |rs|], x);
    }
  }

  /** Cutting an array of ranges in three. */
  lemma ContainsThree(rs: seq<Range>, from: nat, to: nat, x: int)
    requires from <= to <= |rs|
    ensures Contains(rs, x) <==> Contains(rs[..from], x) || Contains(rs[from..to], x) || Contains(rs[to..], x)
  {
    assert rs == rs[..from] + (rs[from..to] + rs[to..]);
    ContainsConcat(rs[..from], rs[from..to] + rs[to..], x);
    ContainsConcat(rs[from..to], rs[to..], x);
  }

  lemma ContainsAround(rs: seq<Range>, r: Range, ts: seq<Range>, x: int)
    ensures Contains(rs + [r] + ts, x) <==> Contains(rs, x) || In(r, x) || Contains(ts, x)
  {
    ContainsConcat(rs + [r], ts, x);
    ContainsConcat(rs, [r], x);
    assert Contains([r], x) <==> In(r, x) by {
      if In(r, x) {
        assert In([r][0], x);
      }
    }
  }

  /** The two ranges share an index. */
  predicate Meets(r1: Range, r2: Range) {
    r1.location <= RangeRightBound(r2) && r2.location <= RangeRightBound(r1)
  }

  lemma HasIntersectionIsMeets(r1: Range, r2: Range)
    requires r1.location < UINT64_MAX && r2.location < UINT64_MAX
    ensures RangeHasIntersection(r1, r2) <==> Meets(r1, r2)
  {
  }

  /** The part of the first range met that `mergeRanges` drops when a second one is met. */
  ghost predicate Lost(rs: seq<Range>, r: Range, x: int) {
    && x < r.location
    && exists i :: 0 <= i < |rs| - 1 && In(rs[i], x) && Meets(rs[i], r) && Meets(rs[i + 1], r)
  }

  /** From `at` up to but excluding `end`, the stored ranges meet `r`; the others do not. */
  ghost predicate MetBlock(rs: seq<Range>, r: Range, at: nat, end: nat) {
    && at <= end <= |rs|
    && (forall k :: 0 <= k < at ==> RangeRightBound(rs[k]) < r.location)
    && (at < |rs| ==> r.location <= RangeRightBound(rs[at]))
    && (forall k :: at <= k < end ==> rs[k].location <= RangeRightBound(r))
    && (end < |rs| ==> RangeRightBound(r) < rs[end].location)
  }

  /** The end of the run of ranges from `i` on that meet `r`. */
  ghost function BlockEnd(rs: seq<Range>, r: Range, i: nat): (end: nat)
    requires i <= |rs|
    ensures i <= end <= |rs|
    ensures forall k :: i <= k < end ==> Meets(r, rs[k])
    ensures end < |rs| ==> !Meets(r, rs[end])
    decreases |rs| - i
  {
    if i < |rs| && Meets(r, rs[i]) then BlockEnd(rs, r, i + 1) else i
  }

  lemma {:induction false} LastMetIsBlockEnd(rs: seq<Range>, r: Range, at: nat, i: nat)
    requires BelowTop(rs) && r.location < UINT64_MAX && at <= i <= |rs|
    ensures LastMet(Inserted(rs, at, r), at, i + 1) == BlockEnd(rs, r, i)
    decreases |rs| - i
  {
    var ins := Inserted(rs, at, r);
    if i >= |rs| {
    } else {
      assert ins[i + 1] == rs[i];
      HasIntersectionIsMeets(r, rs[i]);
      if Meets(r, rs[i]) {
        LastMetIsBlockEnd(rs, r, at, i + 1);
      }
    }
  }

  lemma MergeFindsBlock(rs: seq<Range>, r: Range, at: nat)
    requires Denotes(rs) && r.location < UINT64_MAX
    requires at == LeftRangeIndexForIndex(rs, r.location)
    ensures LastMet(Inserted(rs, at, r), at, at) == BlockEnd(rs, r, at)
    ensures MetBlock(rs, r, at, BlockEnd(rs, r, at))
  {
    HasIntersectionIsMeets(r, r);
    assert Inserted(rs, at, r)[at] == r;
    LastMetIsBlockEnd(rs, r, at, at);
    var end := BlockEnd(rs, r, at);
    hide RangeHasIntersection, RangeRightBound, Inserted, LeftRangeIndexForIndex, BlockEnd;
    if at < end < |rs| {
      assert RangeRightBound(rs[at]) < rs[end].location;
    }
  }

  lemma LostIsInBlock(rs: seq<Range>, r: Range, at: nat, end: nat, x: int)
    requires Denotes(rs) && MetBlock(rs, r, at, end)
    ensures Lost(rs, r, x) <==> x < r.location && at + 1 < end && In(rs[at], x)
  {
    hide RangeRightBound;
    if x < r.location && at + 1 < end && In(rs[at], x) {
      assert RangeRightBound(rs[at]) < rs[at + 1].location <= RangeRightBound(rs[at + 1]);
      assert rs[at].location <= RangeRightBound(r) && rs[at + 1].location <= RangeRightBound(r);
      assert Meets(rs[at], r) && Meets(rs[at + 1], r);
    }
    if Lost(rs, r, x) {
      var i :| 0 <= i < |rs| - 1 && In(rs[i], x) && Meets(rs[i], r) && Meets(rs[i + 1], r);
      assert i >= at;
      if i > at {
        assert RangeRightBound(rs[at]) < rs[i].location;
      }
    }
  }

  /** Which indexes the ranges of the block hold. */
  lemma BlockHolds(rs: seq<Range>, r: Range, at: nat, end: nat, x: int)
    requires Denotes(rs) && MetBlock(rs, r, at, end) && at < end
    ensures Contains(rs[at..end], x) ==> rs[at].location <= x <= RangeRightBound(rs[end - 1])
    ensures Contains(rs[at..end], x) && x < r.location ==> In(rs[at], x)
    ensures In(rs[at], x) || In(rs[end - 1], x) ==> Contains(rs[at..end], x)
  {
    hide RangeRightBound;
    var block := rs[at..end];
    if Contains(block, x) {
      var i :| 0 <= i < |block| && In(block[i], x);
      assert block[i] == rs[at + i];
      assert i > 0 ==> RangeRightBound(rs[at]) < rs[at + i].location;
      assert at + i < end - 1 ==> RangeRightBound(rs[at + i]) < rs[end - 1].location;
    }
    assert block[0] == rs[at] && block[end - 1 - at] == rs[end - 1];
  }

  /** What the united range holds: the block it replaces and `r`, except what is lost. */
  lemma UnionOfBlock(rs: seq<Range>, r: Range, at: nat, end: nat, x: int)
    requires Denotes(rs) && r.location < UINT64_MAX
    requires MetBlock(rs, r, at, end) && at < end
    ensures In(RangeUnion(r, rs[end - 1])[0], x) <==>
            (Contains(rs[at..end], x) || In(r, x)) && !Lost(rs, r, x)
  {
    var last := rs[end - 1];
    LostIsInBlock(rs, r, at, end, x);
    BlockHolds(rs, r, at, end, x);
    assert at < end - 1 ==> RangeRightBound(rs[at]) < last.location;
    HasIntersectionIsMeets(r, last);
    assert Meets(r, last);
    hide Contains, Lost, MetBlock, Denotes, RangeHasIntersection;
  }

  ghost function United(rs: seq<Range>, r: Range, at: nat, end: nat): (u: Range)
    requires at <= end <= |rs|
  {
    if end == at then r else RangeUnion(r, rs[end - 1])[0]
  }

  lemma DenotesAround(rs: seq<Range>, u: Range, ts: seq<Range>)
    requires Denotes(rs) && Denotes(ts) && u.location < UINT64_MAX
    requires forall i :: 0 <= i < |rs| ==> RangeRightBound(rs[i]) < u.location
    requires forall i :: 0 <= i < |ts| ==> RangeRightBound(u) < ts[i].location
    ensures Denotes(rs + [u] + ts)
  {
    hide RangeRightBound;
    assert u.location <= RangeRightBound(u);
  }

  lemma MergedSeparated(rs: seq<Range>, r: Range, at: nat, end: nat)
    requires Denotes(rs) && r.location < UINT64_MAX && MetBlock(rs, r, at, end)
    ensures Denotes(rs[..at] + [United(rs, r, at, end)] + rs[end..])
  {
    var u := United(rs, r, at, end);
    if end > at {
      HasIntersectionIsMeets(r, rs[end - 1]);
      assert u.location == Min(r.location, rs[end - 1].location);
      assert RangeRightBound(u) == Max(RangeRightBound(r), RangeRightBound(rs[end - 1]));
    }
    hide RangeRightBound, RangeUnion, RangeHasIntersection;
    DenotesAround(rs[..at], u, rs[end..]);
  }

  lemma InsertedSlices(rs: seq<Range>, at: nat, r: Range, end: nat)
    requires at <= end <= |rs|
    ensures var ins := Inserted(rs, at, r);
            && |ins| == |rs| + 1 && ins[..at] == rs[..at] && ins[at] == r && ins[end + 1..] == rs[end..]
            && (at < end ==> ins[end] == rs[end - 1])
  {
  }

  lemma MergedShape(rs: seq<Range>, r: Range, at: nat)
    requires Denotes(rs) && r.location < UINT64_MAX
    requires at == LeftRangeIndexForIndex(rs, r.location)
    ensures var end := BlockEnd(rs, r, at);
            Merged(Inserted(rs, at, r), at) == rs[..at] + [United(rs, r, at, end)] + rs[end..]
  {
    hide Denotes, MetBlock, RangeRightBound, LeftRangeIndexForIndex, LastMet, BlockEnd, Merged, United;
    MergeFindsBlock(rs, r, at);
    MergedOfBlock(rs, r, at, BlockEnd(rs, r, at));
  }

  lemma MergedOfBlock(rs: seq<Range>, r: Range, at: nat, end: nat)
    requires at <= end <= |rs| && LastMet(Inserted(rs, at, r), at, at) == end
    ensures Merged(Inserted(rs, at, r), at) == rs[..at] + [United(rs, r, at, end)] + rs[end..]
  {
    hide RangeUnion, LastMet;
    InsertedSlices(rs, at, r, end);
  }

  /** After `mergeRanges` at the place of insertion. */
  lemma MergedMeaning(rs: seq<Range>, r: Range, at: nat)
    requires Denotes(rs) && r.location < UINT64_MAX
    requires at == LeftRangeIndexForIndex(rs, r.location)
    ensures var m := Merged(Inserted(rs, at, r), at);
            && at < |m| && Denotes(m)
            && forall x :: Contains(m, x) <==> (Contains(rs, x) || In(r, x)) && !Lost(rs, r, x)
  {
    MergedShape(rs, r, at);
    MergeFindsBlock(rs, r, at);
    var end := BlockEnd(rs, r, at);
    MergedSeparated(rs, r, at, end);
    hide *;
    forall x
      ensures Contains(Merged(Inserted(rs, at, r), at), x) <==> (Contains(rs, x) || In(r, x)) && !Lost(rs, r, x)
    {
      MergedHolds(rs, r, at, end, x);
    }
  }

  lemma MergedHolds(rs: seq<Range>, r: Range, at: nat, end: nat, x: int)
    requires Denotes(rs) && r.location < UINT64_MAX && MetBlock(rs, r, at, end)
    ensures Contains(rs[..at] + [United(rs, r, at, end)] + rs[end..], x) <==>
            (Contains(rs, x) || In(r, x)) && !Lost(rs, r, x)
  {
    var u := United(rs, r, at, end);
    ContainsAround(rs[..at], u, rs[end..], x);
    ContainsThree(rs, at, end, x);
    LostIsInBlock(rs, r, at, end, x);
    assert at < end ==> (In(rs[at], x) ==> !Contains(rs[..at], x) && !Contains(rs[end..], x));
    if end > at {
      UnionOfBlock(rs, r, at, end, x);
    } else {
      assert !Contains(rs[at..end], x);
    }
  }

  lemma JoinedMeaning(rs: seq<Range>, at: nat)
    requires Denotes(rs) && at + 1 < |rs|
    ensures var j := Joined(rs, at);
            && (|j| == |rs| || |j| == |rs| - 1) && Denotes(j)
            && forall x :: Contains(j, x) <==> Contains(rs, x)
  {
    var j := Joined(rs, at);
    if j != rs {
      var u := Range(rs[at].location, RangeRightBound(rs[at + 1]) - rs[at].location);
      assert RangeRightBound(u) == RangeRightBound(rs[at + 1]);
      hide RangeRightBound;
      assert RangeRightBound(rs[at]) < rs[at + 1].location <= RangeRightBound(rs[at + 1]);
      DenotesAround(rs[..at], u, rs[at + 2..]);
      forall x
        ensures Contains(j, x) <==> Contains(rs, x)
      {
        ContainsAround(rs[..at], u, rs[at + 2..], x);
        ContainsThree(rs, at, at + 2, x);
        assert rs[at..at + 2] == [] + [rs[at]] + [rs[at + 1]];
        ContainsAround([], rs[at], [rs[at + 1]], x);
        ContainsAround([], rs[at + 1], [], x);
        assert [rs[at + 1]] == [] + [rs[at + 1]] + [];
      }
    }
  }

  /** The end of `addRange`: the range at `at` is joined with its neighbours. */
  function JoinedAround(rs: seq<Range>, at: nat): seq<Range>
    requires at < |rs|
  {
    var before := if at > 0 then Joined(rs, at - 1) else rs;
    if at < |before| - 1 then Joined(before, at) else before
  }

  /** `addRange` as a whole: insert, merge, then try to join with the neighbours. */
  function Added(rs: seq<Range>, r: Range): seq<Range>
    requires Separated(rs)
  {
    var at := LeftRangeIndexForIndex(rs, r.location);
    JoinedAround(Merged(Inserted(rs, at, r), at), at)
  }

  lemma JoinedAroundMeaning(rs: seq<Range>, at: nat)
    requires Denotes(rs) && at < |rs|
    ensures Denotes(JoinedAround(rs, at))
    ensures forall x :: Contains(JoinedAround(rs, at), x) <==> Contains(rs, x)
  {
    hide Joined, Contains, Denotes;
    var before := if at > 0 then Joined(rs, at - 1) else rs;
    if at > 0 {
      JoinedMeaning(rs, at - 1);
    }
    if at < |before| - 1 {
      JoinedMeaning(before, at);
    }
  }

  lemma AddedMeaning(rs: seq<Range>, r: Range)
    requires Denotes(rs) && r.location < UINT64_MAX
    ensures Denotes(Added(rs, r))
    ensures forall x :: Contains(Added(rs, r), x) <==> (Contains(rs, x) || In(r, x)) && !Lost(rs, r, x)
  {
    var at := LeftRangeIndexForIndex(rs, r.location);
    MergedMeaning(rs, r, at);
    hide JoinedAround, Merged, Contains, Denotes, Lost, LeftRangeIndexForIndex, Inserted;
    JoinedAroundMeaning(Merged(Inserted(rs, at, r), at), at);
  }

  predicate MeetsAtMostOne(rs: seq<Range>, r: Range) {
    forall i :: 0 <= i < |rs| - 1 ==> !(Meets(rs[i], r) && Meets(rs[i + 1], r))
  }

  predicate StartsNoLaterThanFirstMet(rs: seq<Range>, r: Range) {
    forall i :: 0 <= i < |rs| && Meets(rs[i], r) && (i == 0 || !Meets(rs[i - 1], r)) ==> r.location <= rs[i].location
  }

  /** The ranges met are neighbours. */
  lemma MetIsConvex(rs: seq<Range>, r: Range, i: nat, j: nat, k: nat)
    requires Separated(rs) && i <= j <= k < |rs| && Meets(rs[i], r) && Meets(rs[k], r)
    ensures Meets(rs[j], r)
  {
    assert i < j ==> RangeRightBound(rs[i]) < rs[j].location;
    assert j < k ==> RangeRightBound(rs[j]) < rs[k].location;
  }

  lemma LostNeedsTwo(rs: seq<Range>, r: Range, x: int)
    requires Separated(rs) && Lost(rs, r, x)
    ensures Contains(rs, x) && !MeetsAtMostOne(rs, r) && !StartsNoLaterThanFirstMet(rs, r)
  {
    hide RangeRightBound, MeetsAtMostOne, StartsNoLaterThanFirstMet;
    var i :| 0 <= i < |rs| - 1 && In(rs[i], x) && Meets(rs[i], r) && Meets(rs[i + 1], r);
    TwoAreMet(rs, r, i);
    assert i > 0 ==> RangeRightBound(rs[i - 1]) < rs[i].location;
    FirstMetStartsEarlier(rs, r, i);
    HoldsAt(rs, i, x);
  }

  lemma FirstMetStartsEarlier(rs: seq<Range>, r: Range, i: nat)
    requires i < |rs| && Meets(rs[i], r) && (i == 0 || !Meets(rs[i - 1], r)) && rs[i].location < r.location
    ensures !StartsNoLaterThanFirstMet(rs, r)
  {
  }

  lemma TwoAreMet(rs: seq<Range>, r: Range, i: nat)
    requires i + 1 < |rs| && Meets(rs[i], r) && Meets(rs[i + 1], r)
    ensures !MeetsAtMostOne(rs, r)
  {
  }

  /** `j` the first range met, `i` and the next one met: the start of the first is lost. */
  lemma TwoLoseOne(rs: seq<Range>, r: Range, i: nat, j: nat)
    requires Separated(rs) && j <= i < |rs| - 1
    requires Meets(rs[j], r) && Meets(rs[i + 1], r) && rs[j].location < r.location
    ensures Lost(rs, r, rs[j].location)
  {
    hide RangeRightBound, Meets;
    MetIsConvex(rs, r, j, j + 1, i + 1);
    assert In(rs[j], rs[j].location);
  }

  lemma LateStartLoses(rs: seq<Range>, r: Range) returns (x: int)
    requires Separated(rs)
    requires !MeetsAtMostOne(rs, r) && !StartsNoLaterThanFirstMet(rs, r)
    ensures Lost(rs, r, x)
  {
    var i :| 0 <= i < |rs| - 1 && Meets(rs[i], r) && Meets(rs[i + 1], r);
    var j :| 0 <= j < |rs| && Meets(rs[j], r) && (j == 0 || !Meets(rs[j - 1], r)) && r.location > rs[j].location;
    assert j <= i;
    hide Separated, Lost, RangeRightBound;
    TwoLoseOne(rs, r, i, j);
    x := rs[j].location;
  }

  /** Exactly when `addRange` yields the union. */
  lemma AddRangeIsUnionIff(rs: seq<Range>, r: Range)
    requires Denotes(rs) && r.location < UINT64_MAX
    ensures (forall x :: Contains(Added(rs, r), x) <==> Contains(rs, x) || In(r, x)) <==>
            MeetsAtMostOne(rs, r) || StartsNoLaterThanFirstMet(rs, r)
  {
    AddedMeaning(rs, r);
    hide Added, Denotes, MeetsAtMostOne, StartsNoLaterThanFirstMet, Contains, Lost;
    if !MeetsAtMostOne(rs, r) && !StartsNoLaterThanFirstMet(rs, r) {
      var x := LateStartLoses(rs, r);
      LostNeedsTwo(rs, r, x);
      assert Contains(Added(rs, r), x) <==> (Contains(rs, x) || In(r, x)) && !Lost(rs, r, x);
    } else if x :| Lost(rs, r, x) {
      LostNeedsTwo(rs, r, x);
    }
  }

  // ----- removeRange

  /** `r` covers `a`, so that nothing of it is left. */
  predicate Gone(a: Range, r: Range) {
    r.location <= a.location && RangeRightBound(a) <= RangeRightBound(r)
  }

  lemma RemoveLeavesNothingIff(a: Range, r: Range)
    requires a.location < UINT64_MAX && r.location < UINT64_MAX
    ensures RangeRemoveRange(a, r) == [] <==> Gone(a, r)
    ensures |RangeRemoveRange(a, r)| == 2 ==> a.location < r.location && RangeRightBound(r) < RangeRightBound(a)
  {
  }

  /** Reads `pieces` as what `r` leaves of `a`. */
  ghost predicate LeftOver(a: Range, r: Range, pieces: seq<Range>) {
    && (forall x :: Contains(pieces, x) <==> In(a, x) && !In(r, x))
    && (forall i :: 0 <= i < |pieces| ==>
          a.location <= pieces[i].location && RangeRightBound(pieces[i]) <= RangeRightBound(a))
    && (forall i :: 0 <= i < |pieces| ==>
          pieces[i].location == a.location || pieces[i].location == RangeRightBound(r) + 1)
  }

  lemma RemoveLeavesOver(a: Range, r: Range)
    requires a.location < UINT64_MAX && r.location < UINT64_MAX
    ensures LeftOver(a, r, RangeRemoveRange(a, r)) && |RangeRemoveRange(a, r)| <= 2
    ensures |RangeRemoveRange(a, r)| == 2 ==>
              RangeRightBound(RangeRemoveRange(a, r)[0]) < RangeRemoveRange(a, r)[1].location
  {
    RangeRemoveRangeMeaning(a, r);
  }

  /**
    The array while `removeRange` runs: the ranges from `from` up to `i` met `r` and have been
    replaced, those that vanished standing from `left` to `right` (both -1 if there are none).
   */
  ghost predicate Swept(rs: seq<Range>, c: seq<Range>, r: Range, from: nat, i: nat, left: int, right: int) {
    && |c| == |rs| && from <= i <= |rs|
    && (forall j :: 0 <= j < from || i <= j < |rs| ==> c[j] == rs[j])
    && (forall j :: from <= j < i ==> Meets(rs[j], r) && (Gone(rs[j], r) || LeftOver(rs[j], r, [c[j]])))
    && (if left == -1 then right == -1 else from <= left <= right < i)
    && (forall j :: from <= j < i ==> (Gone(rs[j], r) <==> left != -1 && left <= j <= right))
  }

  lemma SweptKeeps(rs: seq<Range>, c: seq<Range>, r: Range, from: nat, i: nat, left: int, right: int, piece: Range)
    requires Denotes(rs) && Swept(rs, c, r, from, i, left, right) && i < |rs|
    requires Meets(rs[i], r) && !Gone(rs[i], r) && LeftOver(rs[i], r, [piece])
    ensures Swept(rs, c[i := piece], r, from, i + 1, left, right)
  {
  }

  lemma SweptDrops(rs: seq<Range>, c: seq<Range>, r: Range, from: nat, i: nat, left: int, right: int)
    requires Denotes(rs) && Swept(rs, c, r, from, i, left, right) && i < |rs|
    requires Meets(rs[i], r) && Gone(rs[i], r)
    ensures Swept(rs, c[i := RangeEmpty], r, from, i + 1, if left == -1 then i else left, i)
  {
    if left != -1 {
      GoneBetween(rs, r, left, i - 1, i);
    }
  }

  /** The ranges covered are neighbours. */
  lemma GoneBetween(rs: seq<Range>, r: Range, i: nat, j: nat, k: nat)
    requires Separated(rs) && i <= j <= k < |rs| && Gone(rs[i], r) && Gone(rs[k], r)
    ensures Gone(rs[j], r)
  {
    hide RangeRightBound;
    assert rs[i].location <= RangeRightBound(rs[i]) && rs[k].location <= RangeRightBound(rs[k]);
  }

  /** The array once the vanished ranges are taken out. */
  function Closed(c: seq<Range>, left: int, right: int): (d: seq<Range>)
    requires left == -1 || 0 <= left <= right < |c|
    ensures |d| == if left == -1 then |c| else |c| - (right - left + 1)
  {
    if left == -1 then c else c[..left] + c[right + 1..]
  }

  ghost predicate IsRemoval(rs: seq<Range>, r: Range, d: seq<Range>) {
    && Separated(d)
    && (forall x :: Contains(d, x) <==> Contains(rs, x) && !In(r, x))
    && (BelowTop(d) <==> !(RangeRightBound(r) == UINT64_MAX - 1 && Contains(rs, UINT64_MAX)))
  }

  lemma SweptElement(rs: seq<Range>, c: seq<Range>, r: Range, from: nat, i: nat, left: int, right: int, j: nat, x: int)
    requires Swept(rs, c, r, from, i, left, right) && j < |rs|
    requires j < from || i <= j ==> !Meets(rs[j], r)
    ensures left <= j <= right ==> In(rs[j], x) ==> In(r, x)
    ensures left == -1 || !(left <= j <= right) ==> (In(c[j], x) <==> In(rs[j], x) && !In(r, x))
  {
    if from <= j < i {
      ContainsAround([], c[j], [], x);
      assert [] + [c[j]] + [] == [c[j]];
    }
  }

  /** Where the elements of the closed array come from. */
  function Origin(left: int, right: int, k: nat): nat
    requires left == -1 || 0 <= left <= right
  {
    if left == -1 || k < left then k else k + (right + 1 - left)
  }

  lemma ClosedAt(c: seq<Range>, left: int, right: int, k: nat)
    requires left == -1 || 0 <= left <= right < |c|
    requires k < |Closed(c, left, right)|
    ensures Origin(left, right, k) < |c| && Closed(c, left, right)[k] == c[Origin(left, right, k)]
    ensures left == -1 || !(left <= Origin(left, right, k) <= right)
  {
  }

  lemma SweptAddsNothing(rs: seq<Range>, c: seq<Range>, r: Range, from: nat, i: nat, left: int, right: int, k: nat,
                         x: int)
    requires Swept(rs, c, r, from, i, left, right)
    requires forall j :: 0 <= j < from || i <= j < |rs| ==> !Meets(rs[j], r)
    requires k < |Closed(c, left, right)| && In(Closed(c, left, right)[k], x)
    ensures Contains(rs, x) && !In(r, x)
  {
    ClosedAt(c, left, right, k);
    var j := Origin(left, right, k);
    SweptElement(rs, c, r, from, i, left, right, j, x);
    assert In(rs[j], x);
  }

  lemma SweptDropsNothingElse(rs: seq<Range>, c: seq<Range>, r: Range, from: nat, i: nat, left: int, right: int,
                              j: nat, x: int)
    requires Swept(rs, c, r, from, i, left, right)
    requires forall j :: 0 <= j < from || i <= j < |rs| ==> !Meets(rs[j], r)
    requires j < |rs| && In(rs[j], x) && !In(r, x)
    ensures Contains(Closed(c, left, right), x)
  {
    hide Swept, Meets, In, Contains, Closed;
    SweptBounds(rs, c, r, from, i, left, right);
    SweptElement(rs, c, r, from, i, left, right, j, x);
    var k := if left == -1 || j < left then j else j - (right + 1 - left);
    ClosedAt(c, left, right, k);
    HoldsAt(Closed(c, left, right), k, x);
  }

  lemma HoldsAt(rs: seq<Range>, k: nat, x: int)
    requires k < |rs| && In(rs[k], x)
    ensures Contains(rs, x)
  {
  }

  lemma SweptHolds(rs: seq<Range>, c: seq<Range>, r: Range, from: nat, i: nat, left: int, right: int, x: int)
    requires Swept(rs, c, r, from, i, left, right)
    requires forall j :: 0 <= j < from || i <= j < |rs| ==> !Meets(rs[j], r)
    ensures Contains(Closed(c, left, right), x) <==> Contains(rs, x) && !In(r, x)
  {
    var d := Closed(c, left, right);
    hide Swept, Closed, RangeRightBound, Meets;
    if k: nat :| k < |d| && In(d[k], x) {
      SweptAddsNothing(rs, c, r, from, i, left, right, k, x);
    }
    if j: nat :| j < |rs| && In(rs[j], x) && !In(r, x) {
      SweptDropsNothingElse(rs, c, r, from, i, left, right, j, x);
    }
  }

  /** Each element kept lies within the one it comes from. */
  lemma SweptWithin(rs: seq<Range>, c: seq<Range>, r: Range, from: nat, i: nat, left: int, right: int, j: nat)
    requires Swept(rs, c, r, from, i, left, right) && j < |rs| && (left == -1 || !(left <= j <= right))
    ensures rs[j].location <= c[j].location && RangeRightBound(c[j]) <= RangeRightBound(rs[j])
    ensures c[j].location == rs[j].location || c[j].location == RangeRightBound(r) + 1
  {
    if from <= j < i {
      assert [c[j]][0] == c[j];
    }
  }

  lemma SweptSeparated(rs: seq<Range>, c: seq<Range>, r: Range, from: nat, i: nat, left: int, right: int)
    requires Denotes(rs) && Swept(rs, c, r, from, i, left, right)
    ensures Separated(Closed(c, left, right))
  {
    var d := Closed(c, left, right);
    hide Swept, RangeRightBound, Closed;
    forall k, l | 0 <= k < l < |d|
      ensures RangeRightBound(d[k]) < d[l].location
    {
      assert |c| == |rs| && (left == -1 || 0 <= left <= right < |c|) by {
        SweptBounds(rs, c, r, from, i, left, right);
      }
      ClosedAt(c, left, right, k);
      ClosedAt(c, left, right, l);
      SweptWithin(rs, c, r, from, i, left, right, Origin(left, right, k));
      SweptWithin(rs, c, r, from, i, left, right, Origin(left, right, l));
    }
  }

  lemma SweptBounds(rs: seq<Range>, c: seq<Range>, r: Range, from: nat, i: nat, left: int, right: int)
    requires Swept(rs, c, r, from, i, left, right)
    ensures |c| == |rs| && (left == -1 || 0 <= left <= right < |c|)
  {
  }

  /** A kept range starts at the last index only if `r` ends just before it. */
  lemma BelowTopIff(rs: seq<Range>, r: Range, d: seq<Range>)
    requires Denotes(rs) && r.location < UINT64_MAX
    requires Separated(d)
    requires forall x :: Contains(d, x) <==> Contains(rs, x) && !In(r, x)
    requires forall k :: 0 <= k < |d| && d[k].location == UINT64_MAX ==> RangeRightBound(r) == UINT64_MAX - 1
    ensures BelowTop(d) <==> !(RangeRightBound(r) == UINT64_MAX - 1 && Contains(rs, UINT64_MAX))
  {
    hide RangeRightBound;
    if k :| 0 <= k < |d| && d[k].location == UINT64_MAX {
      assert In(d[k], UINT64_MAX);
      assert Contains(d, UINT64_MAX);
    }
    if RangeRightBound(r) == UINT64_MAX - 1 && Contains(rs, UINT64_MAX) {
      assert !In(r, UINT64_MAX);
      assert Contains(d, UINT64_MAX);
      var k :| 0 <= k < |d| && In(d[k], UINT64_MAX);
      assert In(r, UINT64_MAX - 1) && !In(d[k], UINT64_MAX - 1);
    }
  }

  lemma SweptStarts(rs: seq<Range>, c: seq<Range>, r: Range, from: nat, i: nat, left: int, right: int)
    requires Denotes(rs) && Swept(rs, c, r, from, i, left, right)
    ensures var d := Closed(c, left, right);
            forall k :: 0 <= k < |d| && d[k].location == UINT64_MAX ==> RangeRightBound(r) == UINT64_MAX - 1
  {
    var d := Closed(c, left, right);
    forall k | 0 <= k < |d| && d[k].location == UINT64_MAX
      ensures RangeRightBound(r) == UINT64_MAX - 1
    {
      ClosedAt(c, left, right, k);
      SweptWithin(rs, c, r, from, i, left, right, Origin(left, right, k));
    }
  }

  /** What `removeRange` has done once the sweep stops at a range that does not meet `r`. */
  lemma SweptIsRemoval(rs: seq<Range>, c: seq<Range>, r: Range, from: nat, i: nat, left: int, right: int)
    requires Denotes(rs) && r.location < UINT64_MAX && Swept(rs, c, r, from, i, left, right)
    requires forall j :: 0 <= j < from || i <= j < |rs| ==> !Meets(rs[j], r)
    ensures IsRemoval(rs, r, Closed(c, left, right))
  {
    SweptSeparated(rs, c, r, from, i, left, right);
    forall x
      ensures Contains(Closed(c, left, right), x) <==> Contains(rs, x) && !In(r, x)
    {
      SweptHolds(rs, c, r, from, i, left, right, x);
    }
    SweptStarts(rs, c, r, from, i, left, right);
    hide Swept, Closed, Contains, Separated;
    BelowTopIff(rs, r, Closed(c, left, right));
  }

  /** The other way it ends: `r` lies inside one range, which is split in two. */
  lemma SplitIsRemoval(rs: seq<Range>, r: Range, i: nat)
    requires Denotes(rs) && r.location < UINT64_MAX && i < |rs| && Meets(rs[i], r)
    requires |RangeRemoveRange(rs[i], r)| == 2
    ensures IsRemoval(rs, r, rs[..i] + RangeRemoveRange(rs[i], r) + rs[i + 1..])
  {
    hide RangeRemoveRange, LeftOver, Separated, RangeRightBound, Contains, IsRemoval;
    var pieces := RangeRemoveRange(rs[i], r);
    RemoveLeavesOver(rs[i], r);
    RemoveLeavesNothingIff(rs[i], r);
    assert pieces == [pieces[0], pieces[1]];
    SplitIsRemovalOf(rs, r, i, pieces[0], pieces[1]);
  }

  lemma SplitIsRemovalOf(rs: seq<Range>, r: Range, i: nat, p: Range, q: Range)
    requires Denotes(rs) && r.location < UINT64_MAX && i < |rs|
    requires LeftOver(rs[i], r, [p, q]) && RangeRightBound(p) < q.location
    requires rs[i].location < r.location && RangeRightBound(r) < RangeRightBound(rs[i])
    ensures IsRemoval(rs, r, rs[..i] + [p, q] + rs[i + 1..])
  {
    hide LeftOver, Separated, RangeRightBound, Contains, BelowTop;
    SplitSeparated(rs, r, i, p, q);
    forall x
      ensures Contains(rs[..i] + [p, q] + rs[i + 1..], x) <==> Contains(rs, x) && !In(r, x)
    {
      SplitHolds(rs, r, i, p, q, x);
    }
    BelowTopIff(rs, r, rs[..i] + [p, q] + rs[i + 1..]);
  }

  lemma SplitHolds(rs: seq<Range>, r: Range, i: nat, p: Range, q: Range, x: int)
    requires Separated(rs) && i < |rs| && LeftOver(rs[i], r, [p, q])
    requires rs[i].location < r.location && RangeRightBound(r) < RangeRightBound(rs[i])
    ensures Contains(rs[..i] + [p, q] + rs[i + 1..], x) <==> Contains(rs, x) && !In(r, x)
  {
    if In(r, x) {
      OthersMissInside(rs, r, i, x);
    }
    hide Contains, Separated, RangeRightBound;
    assert rs[..i] + [p, q] + rs[i + 1..] == rs[..i] + ([p, q] + rs[i + 1..]);
    ContainsConcat(rs[..i], [p, q] + rs[i + 1..], x);
    ContainsConcat([p, q], rs[i + 1..], x);
    assert rs == rs[..i] + [rs[i]] + rs[i + 1..];
    ContainsAround(rs[..i], rs[i], rs[i + 1..], x);
  }

  lemma OthersMissInside(rs: seq<Range>, r: Range, i: nat, x: int)
    requires Separated(rs) && i < |rs|
    requires rs[i].location < r.location && RangeRightBound(r) < RangeRightBound(rs[i]) && In(r, x)
    ensures !Contains(rs[..i], x) && !Contains(rs[i + 1..], x)
  {
  }

  lemma SplitSeparated(rs: seq<Range>, r: Range, i: nat, p: Range, q: Range)
    requires Denotes(rs) && i < |rs|
    requires LeftOver(rs[i], r, [p, q]) && RangeRightBound(p) < q.location
    ensures Separated(rs[..i] + [p, q] + rs[i + 1..])
    ensures var d := rs[..i] + [p, q] + rs[i + 1..];
            forall k :: 0 <= k < |d| && d[k].location == UINT64_MAX ==> RangeRightBound(r) == UINT64_MAX - 1
  {
    hide RangeRightBound;
    assert [p, q][0] == p && [p, q][1] == q;
    var d := rs[..i] + [p, q] + rs[i + 1..];
    assert d[i] == p && d[i + 1] == q;
    assert forall k :: 0 <= k < i ==> d[k] == rs[k];
    assert forall k :: i + 1 < k < |d| ==> d[k] == rs[k - 1];
  }

  /** How far the sweep of `removeRange` has come: no split yet, or just past one. */
  ghost predicate Sweeping(rs: seq<Range>, c: seq<Range>, r: Range, from: nat, i: nat, left: int, right: int,
                           split: bool)
  {
    if split then
      && 0 < i <= |rs| && left == -1 && right == -1
      && Meets(rs[i - 1], r) && |RangeRemoveRange(rs[i - 1], r)| == 2
      && c == rs[..i - 1] + RangeRemoveRange(rs[i - 1], r) + rs[i..]
    else
      Swept(rs, c, r, from, i, left, right)
  }

  lemma SweepStarts(rs: seq<Range>, r: Range, from: nat)
    requires from <= |rs|
    ensures Sweeping(rs, rs, r, from, from, -1, -1, false)
  {
  }

  /** The range just past a split does not meet `r`, so the sweep stops there. */
  lemma SweepStopsAfterSplit(rs: seq<Range>, c: seq<Range>, r: Range, from: nat, i: nat, left: int, right: int)
    requires Denotes(rs) && r.location < UINT64_MAX && Sweeping(rs, c, r, from, i, left, right, true)
    ensures i < |c| == |rs| + 1 && !RangeHasIntersection(c[i], r)
  {
    RemoveLeavesOver(rs[i - 1], r);
    RemoveLeavesNothingIff(rs[i - 1], r);
    var pieces := RangeRemoveRange(rs[i - 1], r);
    assert c[i] == pieces[1];
    assert pieces[1].location == RangeRightBound(r) + 1;
  }

  lemma SweepSees(rs: seq<Range>, c: seq<Range>, r: Range, from: nat, i: nat, left: int, right: int)
    requires Denotes(rs) && r.location < UINT64_MAX && Sweeping(rs, c, r, from, i, left, right, false)
    ensures |c| == |rs| && i <= |c|
    ensures i < |c| ==> c[i] == rs[i] && (RangeHasIntersection(c[i], r) <==> Meets(rs[i], r))
  {
    if i < |c| {
      HasIntersectionIsMeets(rs[i], r);
    }
  }

  lemma TopMeetsNothing(a: Range, r: Range)
    requires r.location == UINT64_MAX
    ensures !RangeHasIntersection(a, r)
  {
  }

  /** One step of the sweep over a range that meets `r`. */
  lemma SweepStep(rs: seq<Range>, c: seq<Range>, r: Range, from: nat, i: nat, left: int, right: int)
    requires Denotes(rs) && r.location < UINT64_MAX && Sweeping(rs, c, r, from, i, left, right, false)
    requires i < |rs| == |c| && Meets(rs[i], r)
    ensures var pieces := RangeRemoveRange(rs[i], r);
            && |pieces| <= 2
            && (|pieces| == 0 ==>
                  Sweeping(rs, c[i := RangeEmpty], r, from, i + 1, if left == -1 then i else left, i, false))
            && (|pieces| == 1 ==> Sweeping(rs, c[i := pieces[0]], r, from, i + 1, left, right, false))
  {
    RemoveLeavesOver(rs[i], r);
    RemoveLeavesNothingIff(rs[i], r);
    var pieces := RangeRemoveRange(rs[i], r);
    hide RangeRemoveRange, LeftOver, Swept, Denotes, Meets, Gone;
    if |pieces| == 0 {
      SweptDrops(rs, c, r, from, i, left, right);
    } else if |pieces| == 1 {
      assert pieces == [pieces[0]];
      SweptKeeps(rs, c, r, from, i, left, right, pieces[0]);
    }
  }

  /** A split happens only at the first range met. */
  lemma SweepSplits(rs: seq<Range>, c: seq<Range>, r: Range, from: nat, i: nat, left: int, right: int)
    requires Denotes(rs) && r.location < UINT64_MAX && Sweeping(rs, c, r, from, i, left, right, false)
    requires i < |rs| && Meets(rs[i], r) && |RangeRemoveRange(rs[i], r)| == 2
    ensures c == rs && left == -1 && right == -1
    ensures Sweeping(rs, rs[..i] + RangeRemoveRange(rs[i], r) + rs[i + 1..], r, from, i + 1, -1, -1, true)
  {
    RemoveLeavesNothingIff(rs[i], r);
    var first, met := RangeRightBound(rs[from]), rs[i].location;
    assert from == i;
  }

  lemma SweepDone(rs: seq<Range>, c: seq<Range>, r: Range, from: nat, i: nat, left: int, right: int, split: bool)
    requires Denotes(rs) && r.location < UINT64_MAX
    requires Sweeping(rs, c, r, from, i, left, right, split)
    requires SweepCanStart(rs, r, from)
    requires !split ==> i >= |rs| || !Meets(rs[i], r)
    ensures left == -1 || 0 <= left <= right < |c|
    ensures IsRemoval(rs, r, Closed(c, left, right))
  {
    if split {
      SplitIsRemoval(rs, r, i - 1);
    } else {
      forall j | i <= j < |rs|
        ensures !Meets(rs[j], r)
      {
        assert i < j ==> RangeRightBound(rs[i]) < rs[j].location;
        assert from < i ==> RangeRightBound(rs[from]) < rs[i].location;
      }
      SweptIsRemoval(rs, c, r, from, i, left, right);
    }
  }

  lemma NothingToRemove(r: Range)
    ensures r.location < UINT64_MAX ==> IsRemoval([], r, [])
  {
  }

  ghost predicate SweepCanStart(rs: seq<Range>, r: Range, from: nat) {
    && (forall j :: 0 <= j < from ==> j < |rs| && !Meets(rs[j], r))
    && (from < |rs| - 1 ==> r.location <= RangeRightBound(rs[from]))
  }

  /** Where the sweep starts: nothing before can meet `r`. */
  lemma StartOfSweep(rs: seq<Range>, r: Range, from: nat)
    requires Denotes(rs) && from < |rs|
    requires from == LeftRangeIndexForIndex(rs, r.location) ||
             (from == |rs| - 1 && LeftRangeIndexForIndex(rs, r.location) == |rs|)
    ensures SweepCanStart(rs, r, from)
  {
  }

  lemma HasIntersectionIsMeetsAt(rs: seq<Range>, r: Range, i: nat)
    requires Denotes(rs) && i < |rs| && r.location < UINT64_MAX
    ensures RangeHasIntersection(rs[i], r) <==> Meets(rs[i], r)
  {
  }

  // ----- count, addIndexSet

  /** What `count` adds up, before it is cut to 32 bits. */
  lemma ReplacedAt(rs: seq<Range>, at: nat, right: nat, range: Range)
    requires at < right < |rs|
    ensures (rs[..at + 1] + rs[right + 1..])[at := range] == rs[..at] + [range] + rs[right + 1..]
  {
  }

  function Total(rs: seq<Range>): nat {
    if rs == [] then 0 else Total(rs[..|rs| - 1]) + (rs[|rs| - 1].length + 1) % (UINT64_MAX + 1)
  }

  lemma NothingCounted()
    ensures Total([]) == 0
  {
  }

  /** Counting one range more, in an unsigned integer of 32 bits. */
  lemma CountStep(rs: seq<Range>, r: Range)
    ensures (Total(rs) % 0x1_0000_0000 + (r.length + 1) % (UINT64_MAX + 1)) % 0x1_0000_0000 ==
            Total(rs + [r]) % 0x1_0000_0000
  {
    assert (rs + [r])[..|rs|] == rs;
    SumModulo(Total(rs), (r.length + 1) % (UINT64_MAX + 1));
  }

  lemma SumModulo(a: nat, b: nat)
    ensures (a % 0x1_0000_0000 + b) % 0x1_0000_0000 == (a + b) % 0x1_0000_0000
  {
  }

  ghost function AddedAll(rs: seq<Range>, ts: seq<Range>): seq<Range>
    requires Denotes(rs) && BelowTop(ts)
    decreases |ts|
  {
    if ts == [] then
      rs
    else
      AddedMeaning(rs, ts[0]);
      AddedAll(Added(rs, ts[0]), ts[1..])
  }

  lemma AddedAllStep(rs: seq<Range>, ts: seq<Range>)
    requires Denotes(rs) && BelowTop(ts)
    ensures ts == [] ==> AddedAll(rs, ts) == rs
    ensures ts != [] ==> ts[0].location < UINT64_MAX && Denotes(Added(rs, ts[0])) && BelowTop(ts[1..])
    ensures ts != [] ==> AddedAll(rs, ts) == AddedAll(Added(rs, ts[0]), ts[1..])
  {
    if ts != [] {
      AddedMeaning(rs, ts[0]);
    }
  }

  /** Every index of the first set is less than every index of the second. */
  ghost predicate Before(rs: seq<Range>, ts: seq<Range>) {
    forall x, y :: Contains(rs, x) && Contains(ts, y) ==> x < y
  }

  lemma AddedAfterAll(rs: seq<Range>, r: Range)
    requires Denotes(rs) && r.location < UINT64_MAX
    requires forall x :: Contains(rs, x) ==> x < r.location
    ensures Denotes(Added(rs, r))
    ensures forall x :: Contains(Added(rs, r), x) <==> Contains(rs, x) || In(r, x)
  {
    AddedMeaning(rs, r);
    forall x
      ensures !Lost(rs, r, x)
    {
      if i :| 0 <= i < |rs| - 1 && In(rs[i], x) && Meets(rs[i], r) && Meets(rs[i + 1], r) {
        assert In(rs[i], RangeRightBound(rs[i])) && Contains(rs, RangeRightBound(rs[i]));
      }
    }
  }

  /** `addIndexSet` of a set lying wholly after this one is the union. */
  lemma {:induction false} AddedAllAfter(rs: seq<Range>, ts: seq<Range>)
    requires Denotes(rs) && Denotes(ts) && Before(rs, ts)
    ensures Denotes(AddedAll(rs, ts))
    ensures forall x :: Contains(AddedAll(rs, ts), x) <==> Contains(rs, x) || Contains(ts, x)
    decreases |ts|
  {
    AddedAllStep(rs, ts);
    if |ts| == 0 {
    } else {
      var t := ts[0];
      assert In(t, t.location) && Contains(ts, t.location);
      AddedAfterAll(rs, t);
      var added := Added(rs, t);
      forall x
        ensures Contains(ts, x) <==> In(t, x) || Contains(ts[1..], x)
        ensures Contains(ts[1..], x) ==> RangeRightBound(t) < x
      {
        FirstAndRest(ts, x);
      }
      hide Added, AddedAll, RangeRightBound;
      AddedAllAfter(added, ts[1..]);
    }
  }

  lemma FirstAndRest(ts: seq<Range>, x: int)
    requires Separated(ts) && ts != []
    ensures Contains(ts, x) <==> In(ts[0], x) || Contains(ts[1..], x)
    ensures Contains(ts[1..], x) ==> RangeRightBound(ts[0]) < x
  {
    assert ts == [] + [ts[0]] + ts[1..];
    ContainsAround([], ts[0], ts[1..], x);
  }

  lemma StoredIsItsBlock(rs: seq<Range>, i: nat)
    requires Denotes(rs) && i < |rs|
    ensures LeftRangeIndexForIndex(rs, rs[i].location) == i && BlockEnd(rs, rs[i], i) > i
  {
    var r, at := rs[i], LeftRangeIndexForIndex(rs, rs[i].location);
    hide RangeRightBound, LeftRangeIndexForIndex;
    assert r.location <= RangeRightBound(r);
  }

  lemma StoredLosesNothing(rs: seq<Range>, i: nat, x: int)
    requires Denotes(rs) && i < |rs|
    ensures !Lost(rs, rs[i], x) && (In(rs[i], x) ==> Contains(rs, x))
  {
    hide RangeRightBound;
  }

  lemma JoinedAroundIsNoLonger(rs: seq<Range>, at: nat)
    requires at < |rs|
    ensures |JoinedAround(rs, at)| <= |rs|
  {
  }

  lemma AddedIsNoLonger(rs: seq<Range>, i: nat)
    requires Denotes(rs) && i < |rs|
    ensures |Added(rs, rs[i])| <= |rs|
  {
    var r := rs[i];
    StoredIsItsBlock(rs, i);
    MergedShape(rs, r, i);
    hide JoinedAround, Merged, Inserted, Denotes, BlockEnd, United, LeftRangeIndexForIndex;
    JoinedAroundIsNoLonger(Merged(Inserted(rs, i, r), i), i);
  }

  /** Adding a stored range once more changes nothing, except perhaps how the set is written, and adds no range. */
  lemma AddedAlready(rs: seq<Range>, i: nat)
    requires Denotes(rs) && i < |rs|
    ensures Denotes(Added(rs, rs[i])) && SameSet(rs, Added(rs, rs[i])) && |Added(rs, rs[i])| <= |rs|
  {
    hide Added, Lost, Contains, In, Separated;
    AddedMeaning(rs, rs[i]);
    AddedIsNoLonger(rs, i);
    forall x
      ensures Contains(Added(rs, rs[i]), x) <==> Contains(rs, x)
    {
      StoredLosesNothing(rs, i, x);
    }
  }

  lemma SameSetTransitive(rs: seq<Range>, ts: seq<Range>, us: seq<Range>)
    requires SameSet(rs, ts) && SameSet(ts, us)
    ensures SameSet(rs, us)
  {
  }

  /** `addIndexSet` after `i` of the ranges `ts`, which are those of the set itself if `itself`. */
  ghost predicate AddingAll(itself: bool, rs: seq<Range>, ts: seq<Range>, i: nat, now: seq<Range>) {
    && Denotes(rs) && Denotes(now) && BelowTop(ts)
    && if itself then
         SameSet(rs, now)
       else
         i <= |ts| && AddedAll(rs, ts) == AddedAll(now, ts[i..])
  }

  lemma AddingStarts(itself: bool, rs: seq<Range>, ts: seq<Range>)
    requires Denotes(rs) && BelowTop(ts)
    ensures AddingAll(itself, rs, ts, 0, rs)
  {
    assert ts[0..] == ts;
  }

  lemma AddingStep(itself: bool, rs: seq<Range>, ts: seq<Range>, i: nat, now: seq<Range>)
    requires AddingAll(itself, rs, ts, i, now)
    requires i < if itself then |now| else |ts|
    ensures var range := if itself then now[i] else ts[i];
            && AddingAll(itself, rs, ts, i + 1, Added(now, range))
            && (itself ==> |Added(now, range)| <= |now|)
  {
    hide Added, AddedAll, Contains, SameSet, Separated;
    if itself {
      AddedAlready(now, i);
      SameSetTransitive(rs, now, Added(now, now[i]));
    } else {
      AddedAllStep(now, ts[i..]);
      assert ts[i..][0] == ts[i] && ts[i..][1..] == ts[i + 1..];
    }
  }

  lemma AddingEnds(itself: bool, rs: seq<Range>, ts: seq<Range>, i: nat, now: seq<Range>)
    requires AddingAll(itself, rs, ts, i, now)
    ensures Denotes(now) && Denotes(rs) && (itself ==> SameSet(rs, now))
    ensures !itself && i >= |ts| ==> now == AddedAll(rs, ts)
  {
    if !itself {
      AddedAllStep(now, ts[i..]);
    }
  }

  // ----- intersectsRange, intersectsIndexSet

  /**
    What `intersectsRange` keeps: the indexes of the range, nothing at all for a range starting at 0
    (`location - 1` wraps), and the last index besides when the range ends just before it.
   */
  predicate Kept(r: Range, x: int) {
    r.location > 0 && (In(r, x) || (x == UINT64_MAX && RangeRightBound(r) == UINT64_MAX - 1))
  }

  ghost predicate IsIntersection(rs: seq<Range>, r: Range, d: seq<Range>) {
    Denotes(d) && forall x :: Contains(d, x) <==> Contains(rs, x) && Kept(r, x)
  }

  /** Removing everything below and everything above `r`. */
  lemma TwoRemovals(rs: seq<Range>, r: Range, low: Range, c: seq<Range>, high: Range, d: seq<Range>)
    requires Denotes(rs) && r.location < UINT64_MAX
    requires low == if r.location == 0 then Range(0, UINT64_MAX) else Range(0, r.location - 1)
    requires IsRemoval(rs, low, c)
    ensures Denotes(c)
    ensures RangeRightBound(r) == UINT64_MAX ==> IsIntersection(rs, r, c)
    ensures RangeRightBound(r) < UINT64_MAX && high == Range(RangeRightBound(r) + 1, UINT64_MAX) ==>
              (if high.location < UINT64_MAX then IsRemoval(c, high, d) else d == c) ==> IsIntersection(rs, r, d)
  {
    forall x
      ensures Contains(c, x) <==> Contains(rs, x) && !In(low, x)
      ensures Contains(rs, x) ==> 0 <= x <= UINT64_MAX
    {
    }
    assert RangeRightBound(low) < UINT64_MAX - 1 || RangeRightBound(low) == UINT64_MAX;
  }

  /** Removing all indexes but the last. */
  lemma OnlyTopIsLeft(rs: seq<Range>, low: Range, c: seq<Range>)
    requires low == Range(0, UINT64_MAX - 1) && IsRemoval(rs, low, c)
    ensures Separated(c) && forall x :: Contains(c, x) <==> Contains(rs, x) && x == UINT64_MAX
  {
  }

  /** What is kept of a set by the first `n` ranges of another. */
  ghost predicate KeptByFirst(rs: seq<Range>, ts: seq<Range>, n: nat, x: int)
    requires n <= |ts|
  {
    Contains(rs, x) && exists k :: 0 <= k < n && Kept(ts[k], x)
  }

  /** What is kept by earlier ranges lies before what is kept by the next one. */
  lemma KeptInOrder(rs: seq<Range>, ts: seq<Range>, n: nat, x: int, y: int)
    requires Denotes(ts) && n < |ts|
    requires KeptByFirst(rs, ts, n, x) && Kept(ts[n], y)
    ensures x < y
  {
    var k :| 0 <= k < n && Kept(ts[k], x);
    assert RangeRightBound(ts[k]) < ts[n].location;
  }

  lemma KeptByNext(rs: seq<Range>, ts: seq<Range>, n: nat, x: int)
    requires n < |ts|
    ensures KeptByFirst(rs, ts, n + 1, x) <==> KeptByFirst(rs, ts, n, x) || (Contains(rs, x) && Kept(ts[n], x))
  {
  }

  lemma KeptByNone(rs: seq<Range>, ts: seq<Range>, x: int)
    ensures !KeptByFirst(rs, ts, 0, x)
  {
  }

  lemma NothingIsBefore(ts: seq<Range>)
    ensures Denotes([]) && Before([], ts)
  {
  }

  /** One turn of the loop of `intersectsIndexSet`. */
  lemma KeptAppends(rs: seq<Range>, ts: seq<Range>, n: nat, result: seq<Range>, part: seq<Range>)
    requires Denotes(rs) && Denotes(ts) && n < |ts|
    requires Denotes(result) && IsIntersection(rs, ts[n], part)
    requires forall x :: Contains(result, x) <==> KeptByFirst(rs, ts, n, x)
    ensures Denotes(part) && Denotes(AddedAll(result, part))
    ensures forall x :: Contains(AddedAll(result, part), x) <==> KeptByFirst(rs, ts, n + 1, x)
  {
    forall x, y | Contains(result, x) && Contains(part, y)
      ensures x < y
    {
      KeptInOrder(rs, ts, n, x, y);
    }
    AddedAllAfter(result, part);
    hide AddedAll, KeptByFirst, Kept;
    forall x
      ensures Contains(AddedAll(result, part), x) <==> KeptByFirst(rs, ts, n + 1, x)
    {
      KeptByNext(rs, ts, n, x);
    }
  }

  /** Exactly when intersecting with another set yields the intersection. */
  lemma KeptIsIntersectionIff(rs: seq<Range>, ts: seq<Range>)
    requires Denotes(rs) && Denotes(ts)
    ensures (forall x :: KeptByFirst(rs, ts, |ts|, x) <==> Contains(rs, x) && Contains(ts, x)) <==>
            && (ts != [] && ts[0].location == 0 ==> forall x :: In(ts[0], x) ==> !Contains(rs, x))
            && (ts != [] && RangeRightBound(ts[|ts| - 1]) == UINT64_MAX - 1 && ts[|ts| - 1].location > 0 ==>
                  !Contains(rs, UINT64_MAX))
  {
  }
}
