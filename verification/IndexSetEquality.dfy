/**
  When two arrays of ranges are equal exactly if they denote the same set, which is what `isEqual` of
  MCIndexSet.cpp takes for granted, and when `addRange` keeps them that way.
 */
module IndexSetEquality {
  import opened Ranges
  import opened IndexSets

  // ----- two arrays denoting the same set

  /** The length is written in the one way `FromBounds` writes it. */
  predicate IsFromBounds(r: Range) {
    r == FromBounds(r.location, RangeRightBound(r))
  }

  /** No two neighbours touch, and lengths are written in one way. */
  ghost predicate Canonical(rs: seq<Range>) {
    && Separated(rs)
    && (forall i :: 0 <= i < |rs| - 1 ==> RangeRightBound(rs[i]) + 1 < rs[i + 1].location)
    && (forall i :: 0 <= i < |rs| ==> IsFromBounds(rs[i]))
  }

  /** `isEqual`, which compares the arrays, decides equality of the sets for canonical arrays. */
  lemma {:induction false} CanonicalIsUnique(rs: seq<Range>, ts: seq<Range>)
    requires Canonical(rs) && Canonical(ts)
    requires forall x :: Contains(rs, x) <==> Contains(ts, x)
    ensures rs == ts
  {
    if |rs| == 0 || |ts| == 0 {
      HoldsItsFirst(rs);
      HoldsItsFirst(ts);
    } else {
      SameFirst(rs, ts);
      SameFirst(ts, rs);
      forall x
        ensures Contains(rs[1..], x) <==> Contains(ts[1..], x)
      {
        RestContains(rs, x);
        RestContains(ts, x);
      }
      assert Canonical(rs[1..]) && Canonical(ts[1..]);
      hide *;
      CanonicalIsUnique(rs[1..], ts[1..]);
      assert rs == [rs[0]] + rs[1..] && ts == [ts[0]] + ts[1..];
    }
  }

  lemma HoldsItsFirst(rs: seq<Range>)
    ensures |rs| > 0 ==> In(rs[0], rs[0].location) && Contains(rs, rs[0].location)
  {
  }

  /** The first range starts no earlier, and one starting alike ends no later. */
  lemma SameFirst(rs: seq<Range>, ts: seq<Range>)
    requires Canonical(rs) && Canonical(ts) && rs != [] && ts != []
    requires forall x :: Contains(rs, x) ==> Contains(ts, x)
    ensures ts[0].location <= rs[0].location
    ensures ts[0].location == rs[0].location ==> RangeRightBound(rs[0]) <= RangeRightBound(ts[0])
  {
    hide RangeRightBound;
    assert In(rs[0], rs[0].location) && Contains(rs, rs[0].location);
    RestContains(ts, rs[0].location);
    var y := RangeRightBound(ts[0]) + 1;
    if ts[0].location == rs[0].location && y <= RangeRightBound(rs[0]) {
      assert In(rs[0], y) && Contains(rs, y);
      RestContains(ts, y);
    }
  }

  lemma RestContains(rs: seq<Range>, x: int)
    requires Canonical(rs) && rs != []
    ensures Contains(rs, x) <==> In(rs[0], x) || Contains(rs[1..], x)
    ensures Contains(rs[1..], x) ==> x > RangeRightBound(rs[0]) + 1
  {
    assert rs == [] + [rs[0]] + rs[1..];
    ContainsAround([], rs[0], rs[1..], x);
    if Contains(rs[1..], x) {
      var i :| 0 <= i < |rs[1..]| && In(rs[1..][i], x);
      assert i > 0 ==> RangeRightBound(rs[1]) < rs[i + 1].location;
    }
  }

  /** A range put before a canonical array, joined with its first range if the two touch. */
  function Prepended(r: Range, rest: seq<Range>): (c: seq<Range>)
    ensures |c| > 0 && c[0].location == r.location
  {
    var left, right := r.location, RangeRightBound(r);
    if |rest| > 0 && right + 1 == rest[0].location then
      [FromBounds(left, RangeRightBound(rest[0]))] + rest[1..]
    else
      [FromBounds(left, right)] + rest
  }

  lemma PrependedIsCanonical(r: Range, rest: seq<Range>)
    requires Canonical(rest) && (|rest| > 0 ==> RangeRightBound(r) < rest[0].location)
    ensures Canonical(Prepended(r, rest))
  {
    hide RangeRightBound;
    if |rest| > 0 {
      assert rest[0].location <= RangeRightBound(rest[0]);
    }
  }

  lemma PrependedHolds(r: Range, rest: seq<Range>, x: int)
    requires |rest| > 0 ==> RangeRightBound(r) < rest[0].location
    ensures Contains(Prepended(r, rest), x) <==> In(r, x) || Contains(rest, x)
  {
    var c := Prepended(r, rest);
    assert c == [] + [c[0]] + c[1..];
    hide Contains, RangeRightBound;
    ContainsAround([], c[0], c[1..], x);
    if |rest| > 0 {
      assert rest[0].location <= RangeRightBound(rest[0]);
      assert rest == [] + [rest[0]] + rest[1..];
      ContainsAround([], rest[0], rest[1..], x);
    } else {
      HoldsNothing(x);
    }
  }

  lemma HoldsNothing(x: int)
    ensures !Contains([], x)
  {
  }

  /** The canonical array of the same set. */
  function Coalesced(rs: seq<Range>): (c: seq<Range>)
    ensures |rs| > 0 ==> |c| > 0 && c[0].location == rs[0].location
  {
    if |rs| == 0 then [] else Prepended(rs[0], Coalesced(rs[1..]))
  }

  lemma {:induction false} CoalescedMeaning(rs: seq<Range>, x: int)
    requires Separated(rs)
    ensures Canonical(Coalesced(rs))
    ensures Contains(Coalesced(rs), x) <==> Contains(rs, x)
  {
    if |rs| == 0 {
    } else {
      CoalescedMeaning(rs[1..], x);
      FirstAndRest(rs, x);
      hide Canonical, Contains, Prepended;
      PrependedIsCanonical(rs[0], Coalesced(rs[1..]));
      PrependedHolds(rs[0], Coalesced(rs[1..]), x);
    }
  }

  /** So comparing with canonical arrays, as `isEqual` does, tells equal sets exactly for a canonical array. */
  lemma EqualSetsMayDifferIff(rs: seq<Range>)
    requires Separated(rs)
    ensures !Canonical(rs) <==> exists ts :: Canonical(ts) && SameSet(rs, ts) && rs != ts
  {
    hide Contains, Canonical;
    if Canonical(rs) {
      forall ts | Canonical(ts) && SameSet(rs, ts)
        ensures rs == ts
      {
        CanonicalIsUnique(rs, ts);
      }
    } else {
      forall x
        ensures Canonical(Coalesced(rs)) && (Contains(rs, x) <==> Contains(Coalesced(rs), x))
      {
        CoalescedMeaning(rs, x);
      }
      assert SameSet(rs, Coalesced(rs));
    }
  }

  // ----- when adding keeps an array canonical

  /** `a` ends right before `b` starts. */
  predicate Touches(a: Range, b: Range) {
    RangeRightBound(a) + 1 == b.location
  }

  /** `u` stands between two canonical arrays without touching them, and its length is written like theirs. */
  ghost predicate FitsBetween(before: seq<Range>, u: Range, after: seq<Range>) {
    && (|before| > 0 ==> RangeRightBound(before[|before| - 1]) + 1 < u.location)
    && (|after| > 0 ==> RangeRightBound(u) + 1 < after[0].location)
    && IsFromBounds(u)
  }

  lemma CanonicalAroundIff(before: seq<Range>, u: Range, after: seq<Range>)
    requires Canonical(before) && Canonical(after) && Separated(before + [u] + after)
    ensures Canonical(before + [u] + after) <==> FitsBetween(before, u, after)
  {
    hide RangeRightBound, IsFromBounds;
    var all, n := before + [u] + after, |before|;
    assert all[n] == u;
    assert n > 0 ==> all[n - 1] == before[n - 1];
    assert |after| > 0 ==> all[n + 1] == after[0];
    if FitsBetween(before, u, after) {
      forall i | 0 <= i < |all|
        ensures IsFromBounds(all[i]) && (i + 1 < |all| ==> RangeRightBound(all[i]) + 1 < all[i + 1].location)
      {
        if i > n {
          assert all[i] == after[i - n - 1];
          assert i + 1 < |all| ==> all[i + 1] == after[i - n];
        }
      }
    }
  }

  lemma CanonicalSlice(rs: seq<Range>, from: nat, to: nat)
    requires Canonical(rs) && from <= to <= |rs|
    ensures Canonical(rs[from..to])
  {
    hide RangeRightBound, IsFromBounds;
  }

  /** What `tryToMergeAdjacentRanges` makes of two neighbours from `left` to `right`. */
  function Span(left: nat, right: nat): (r: Range)
    requires left <= right <= UINT64_MAX
    ensures r.location == left && RangeRightBound(r) == right
    ensures IsFromBounds(r) <==> right < UINT64_MAX || left == 0
  {
    Range(left, right - left)
  }

  /** Two neighbours become one exactly when they touch. */
  lemma JoinedIs(before: seq<Range>, a: Range, b: Range, after: seq<Range>)
    requires RangeRightBound(a) < b.location
    ensures Joined(before + [a, b] + after, |before|) ==
            if Touches(a, b) then before + [Span(a.location, RangeRightBound(b))] + after else before + [a, b] + after
  {
    hide RangeRightBound;
    var all, n := before + [a, b] + after, |before|;
    assert all[n] == a && all[n + 1] == b && all[..n] == before && all[n + 2..] == after;
    assert b.location <= RangeRightBound(b);
  }

  predicate TouchesLast(before: seq<Range>, u: Range) {
    |before| > 0 && Touches(before[|before| - 1], u)
  }

  predicate TouchesFirst(u: Range, after: seq<Range>) {
    |after| > 0 && Touches(u, after[0])
  }

  lemma AroundOne(before: seq<Range>, u: Range, after: seq<Range>)
    ensures var all, n := before + [u] + after, |before|;
            && (n > 0 ==> all == before[..n - 1] + [before[n - 1], u] + after)
            && (|after| > 0 ==> all == before + [u, after[0]] + after[1..])
  {
  }

  lemma SeparatedEnds(before: seq<Range>, u: Range, after: seq<Range>)
    requires Denotes(before + [u] + after)
    ensures |before| > 0 ==> RangeRightBound(before[|before| - 1]) < u.location
    ensures |after| > 0 ==> RangeRightBound(u) < after[0].location
  {
    hide RangeRightBound;
    var all := before + [u] + after;
    assert all[|before|] == u;
    assert |before| > 0 ==> all[|before| - 1] == before[|before| - 1];
    assert |after| > 0 ==> all[|before| + 1] == after[0];
  }

  /** Joining twice: first with the range before, then at the same place. */
  lemma JoinedAroundTwice(rs: seq<Range>, at: nat)
    requires at < |rs|
    ensures at > 0 && |Joined(rs, at - 1)| == |rs| - 1 && at < |rs| - 2 ==>
              JoinedAround(rs, at) == Joined(Joined(rs, at - 1), at)
    ensures at > 0 && |Joined(rs, at - 1)| == |rs| - 1 && at >= |rs| - 2 ==>
              JoinedAround(rs, at) == Joined(rs, at - 1)
    ensures at == 0 || Joined(rs, at - 1) == rs ==>
              JoinedAround(rs, at) == if at < |rs| - 1 then Joined(rs, at) else rs
  {
    hide Joined;
  }

  /** Where the range before is joined, no range after is. */
  lemma JoinsTheOneBefore(before: seq<Range>, u: Range, after: seq<Range>)
    requires Canonical(after) && Denotes(before + [u] + after) && TouchesLast(before, u)
    ensures var n := |before|;
            JoinedAround(before + [u] + after, n) ==
            before[..n - 1] + [Span(before[n - 1].location, RangeRightBound(u))] + after
  {
    hide Joined, JoinedAround, RangeRightBound, Canonical, Denotes, Span;
    var n, l := |before|, before[|before| - 1];
    SeparatedEnds(before, u, after);
    AroundOne(before, u, after);
    JoinedIs(before[..n - 1], l, u, after);
    assert u.location <= RangeRightBound(u);
    JoinedAroundTwice(before + [u] + after, n);
    if |after| >= 2 {
      NotJoinedFurther(before[..n - 1] + [Span(l.location, RangeRightBound(u))], after);
    }
  }

  lemma NotJoinedFurther(before: seq<Range>, after: seq<Range>)
    requires Canonical(after) && |after| >= 2
    ensures Joined(before + after, |before|) == before + after
  {
    SecondIsFurther(after);
    hide Joined, RangeRightBound, Canonical;
    JoinedIs(before, after[0], after[1], after[2..]);
    assert before + after == before + [after[0], after[1]] + after[2..];
  }

  lemma JoinsTheOneAfter(before: seq<Range>, u: Range, after: seq<Range>)
    requires Denotes(before + [u] + after) && !TouchesLast(before, u)
    ensures JoinedAround(before + [u] + after, |before|) ==
            if TouchesFirst(u, after) then
              before + [Span(u.location, RangeRightBound(after[0]))] + after[1..]
            else
              before + [u] + after
  {
    hide Joined, JoinedAround, RangeRightBound, Denotes, Span;
    var n := |before|;
    SeparatedEnds(before, u, after);
    AroundOne(before, u, after);
    if n > 0 {
      JoinedIs(before[..n - 1], before[n - 1], u, after);
    }
    if |after| > 0 {
      assert after[0].location <= RangeRightBound(after[0]);
      JoinedIs(before, u, after[0], after[1..]);
    }
    JoinedAroundTwice(before + [u] + after, n);
  }

  lemma JoinedBeforeIsCanonicalIff(before: seq<Range>, u: Range, after: seq<Range>)
    requires Canonical(before) && Canonical(after) && Denotes(before + [u] + after) && TouchesLast(before, u)
    ensures Canonical(JoinedAround(before + [u] + after, |before|)) <==>
            && !TouchesFirst(u, after)
            && (RangeRightBound(u) < UINT64_MAX || before[|before| - 1].location == 0)
  {
    hide Canonical, Separated, BelowTop, JoinedAround, IsFromBounds, RangeRightBound, Contains, Span;
    var n, l := |before|, before[|before| - 1];
    SeparatedEnds(before, u, after);
    assert l.location <= RangeRightBound(l) && u.location <= RangeRightBound(u);
    JoinedAroundMeaning(before + [u] + after, n);
    JoinsTheOneBefore(before, u, after);
    CanonicalSlice(before, 0, n - 1);
    assert before[0..n - 1] == before[..n - 1];
    LastIsFurther(before);
    CanonicalAroundIff(before[..n - 1], Span(l.location, RangeRightBound(u)), after);
  }

  lemma LastIsFurther(rs: seq<Range>)
    requires Canonical(rs)
    ensures |rs| > 1 ==> RangeRightBound(rs[|rs| - 2]) + 1 < rs[|rs| - 1].location
  {
  }

  lemma SecondIsFurther(rs: seq<Range>)
    requires Canonical(rs)
    ensures |rs| > 1 ==> RangeRightBound(rs[0]) + 1 < rs[1].location
  {
  }

  lemma JoinedAfterIsCanonicalIff(before: seq<Range>, u: Range, after: seq<Range>)
    requires Canonical(before) && Canonical(after) && Denotes(before + [u] + after) && IsFromBounds(u)
    requires !TouchesLast(before, u)
    ensures Canonical(JoinedAround(before + [u] + after, |before|)) <==>
            (TouchesFirst(u, after) ==> RangeRightBound(after[0]) < UINT64_MAX || u.location == 0)
  {
    hide Canonical, Separated, BelowTop, JoinedAround, IsFromBounds, RangeRightBound, Contains;
    JoinedAroundMeaning(before + [u] + after, |before|);
    JoinsTheOneAfter(before, u, after);
    SeparatedEnds(before, u, after);
    if TouchesFirst(u, after) {
      CanonicalSlice(after, 1, |after|);
      assert after[1..|after|] == after[1..];
      SecondIsFurther(after);
      CanonicalAroundIff(before, Span(u.location, RangeRightBound(after[0])), after[1..]);
    } else {
      CanonicalAroundIff(before, u, after);
    }
  }

  /** Exactly when what is left after joining is canonical. */
  lemma JoinedIsCanonicalIff(before: seq<Range>, u: Range, after: seq<Range>)
    requires Canonical(before) && Canonical(after) && Denotes(before + [u] + after) && IsFromBounds(u)
    ensures Canonical(JoinedAround(before + [u] + after, |before|)) <==>
            && !(TouchesLast(before, u) && TouchesFirst(u, after))
            && !(TouchesLast(before, u) && RangeRightBound(u) == UINT64_MAX && before[|before| - 1].location > 0)
            && !(TouchesFirst(u, after) && RangeRightBound(after[0]) == UINT64_MAX && u.location > 0)
  {
    hide *;
    if TouchesLast(before, u) {
      JoinedBeforeIsCanonicalIff(before, u, after);
      TouchedExists(before, u, after);
      assert RangeRightBound(u) <= UINT64_MAX;
    } else {
      JoinedAfterIsCanonicalIff(before, u, after);
    }
  }

  lemma TouchedExists(before: seq<Range>, u: Range, after: seq<Range>)
    ensures TouchesLast(before, u) ==> |before| > 0
    ensures TouchesFirst(u, after) ==> |after| > 0
  {
  }

  // ----- addRange

  /** A range that meets `r`, or `r` itself, ends at the last index. */
  predicate ReachesTop(rs: seq<Range>, r: Range) {
    RangeRightBound(r) == UINT64_MAX ||
    exists i :: 0 <= i < |rs| && Meets(rs[i], r) && RangeRightBound(rs[i]) == UINT64_MAX
  }

  /** `r` starts at 0, or meets a range that does and no other. */
  predicate ReachesZero(rs: seq<Range>, r: Range) {
    r.location == 0 || (|rs| > 0 && rs[0].location == 0 && Meets(rs[0], r) && !(|rs| > 1 && Meets(rs[1], r)))
  }

  predicate TouchesBefore(rs: seq<Range>, r: Range) {
    exists i :: 0 <= i < |rs| && Touches(rs[i], r)
  }

  predicate TouchesAfter(rs: seq<Range>, r: Range) {
    exists i :: 0 <= i < |rs| && Touches(r, rs[i])
  }

  /**
    Joining makes a range that ends at the last index without starting at 0, whose length is then
    written by one too short.
   */
  predicate JoinsToTop(rs: seq<Range>, r: Range) {
    || (ReachesTop(rs, r) && exists i :: 0 <= i < |rs| && Touches(rs[i], r) && rs[i].location > 0)
    || (!ReachesZero(rs, r) && exists i :: 0 <= i < |rs| && Touches(r, rs[i]) && RangeRightBound(rs[i]) == UINT64_MAX)
  }

  lemma UnitedIs(rs: seq<Range>, r: Range, at: nat, end: nat)
    requires BelowTop(rs) && r.location < UINT64_MAX && IsFromBounds(r) && MetBlock(rs, r, at, end)
    requires Separated(rs)
    ensures var u := United(rs, r, at, end);
            && IsFromBounds(u)
            && u.location == (if at < end then Min(r.location, rs[end - 1].location) else r.location)
            && RangeRightBound(u) ==
               (if at < end then Max(RangeRightBound(r), RangeRightBound(rs[end - 1])) else RangeRightBound(r))
  {
    if at < end {
      assert at < end - 1 ==> RangeRightBound(rs[at]) < rs[end - 1].location;
      HasIntersectionIsMeets(r, rs[end - 1]);
    }
  }

  /** The range that touches `r` is the last of those before the block. */
  lemma TouchesBeforeIs(rs: seq<Range>, r: Range, at: nat, end: nat, i: nat)
    requires Canonical(rs) && BelowTop(rs) && r.location < UINT64_MAX && IsFromBounds(r)
    requires MetBlock(rs, r, at, end) && i < |rs|
    ensures Touches(rs[i], r) <==> i == at - 1 && TouchesLast(rs[..at], United(rs, r, at, end))
  {
    UnitedIs(rs, r, at, end);
    hide RangeRightBound, IsFromBounds, United;
    assert i < at - 1 ==> RangeRightBound(rs[i]) + 1 < rs[i + 1].location <= RangeRightBound(rs[i + 1]);
    assert i < at - 1 ==> i + 1 < at - 1 ==> RangeRightBound(rs[i + 1]) < rs[at - 1].location;
    if i == at - 1 {
      assert at < end ==> RangeRightBound(rs[i]) + 1 < rs[at].location;
      assert at < end - 1 ==> RangeRightBound(rs[at]) < rs[end - 1].location;
    }
  }

  lemma TouchesAfterIs(rs: seq<Range>, r: Range, at: nat, end: nat, i: nat)
    requires Canonical(rs) && BelowTop(rs) && r.location < UINT64_MAX && IsFromBounds(r)
    requires MetBlock(rs, r, at, end) && i < |rs|
    ensures Touches(r, rs[i]) <==> i == end && TouchesFirst(United(rs, r, at, end), rs[end..])
  {
    UnitedIs(rs, r, at, end);
    hide RangeRightBound, IsFromBounds, United;
    assert i < end ==> rs[i].location <= RangeRightBound(rs[i]);
    assert i > end ==> RangeRightBound(rs[end]) < rs[i].location && rs[end].location <= RangeRightBound(rs[end]);
    assert i == end > at ==> RangeRightBound(rs[end - 1]) + 1 < rs[end].location;
  }

  lemma ReachesTopIs(rs: seq<Range>, r: Range, at: nat, end: nat)
    requires Canonical(rs) && BelowTop(rs) && r.location < UINT64_MAX && IsFromBounds(r) && MetBlock(rs, r, at, end)
    ensures ReachesTop(rs, r) <==> RangeRightBound(United(rs, r, at, end)) == UINT64_MAX
  {
    UnitedIs(rs, r, at, end);
    hide RangeRightBound, IsFromBounds, United;
    assert at < end ==> r.location <= RangeRightBound(rs[end - 1]);
    if i :| 0 <= i < |rs| && Meets(rs[i], r) && RangeRightBound(rs[i]) == UINT64_MAX {
      assert at <= i < end;
      assert i == end - 1;
    }
  }

  lemma ReachesZeroIs(rs: seq<Range>, r: Range, at: nat, end: nat)
    requires Canonical(rs) && BelowTop(rs) && r.location < UINT64_MAX && IsFromBounds(r) && MetBlock(rs, r, at, end)
    ensures ReachesZero(rs, r) <==> United(rs, r, at, end).location == 0
  {
    UnitedIs(rs, r, at, end);
    hide RangeRightBound, IsFromBounds, United;
    assert |rs| > 0 ==> rs[0].location <= RangeRightBound(rs[0]);
    assert |rs| > 1 ==> RangeRightBound(rs[0]) < rs[1].location <= RangeRightBound(rs[1]);
    assert 0 < end - 1 ==> RangeRightBound(rs[0]) < rs[end - 1].location;
  }

  /** The conditions on the stored ranges, in terms of what `mergeRanges` leaves. */
  lemma JoinsToTopIs(rs: seq<Range>, r: Range, at: nat, end: nat)
    requires Canonical(rs) && BelowTop(rs) && r.location < UINT64_MAX && IsFromBounds(r) && MetBlock(rs, r, at, end)
    ensures var before, u, after := rs[..at], United(rs, r, at, end), rs[end..];
            && (TouchesBefore(rs, r) <==> TouchesLast(before, u))
            && (TouchesAfter(rs, r) <==> TouchesFirst(u, after))
            && (JoinsToTop(rs, r) <==>
                || (TouchesLast(before, u) && RangeRightBound(u) == UINT64_MAX && before[at - 1].location > 0)
                || (TouchesFirst(u, after) && RangeRightBound(after[0]) == UINT64_MAX && u.location > 0))
  {
    ReachesTopIs(rs, r, at, end);
    ReachesZeroIs(rs, r, at, end);
    forall i: nat | i < |rs|
      ensures Touches(rs[i], r) <==> i == at - 1 && TouchesLast(rs[..at], United(rs, r, at, end))
      ensures Touches(r, rs[i]) <==> i == end && TouchesFirst(United(rs, r, at, end), rs[end..])
    {
      TouchesBeforeIs(rs, r, at, end, i);
      TouchesAfterIs(rs, r, at, end, i);
    }
    hide ReachesTop, ReachesZero, Touches, United, Canonical, RangeRightBound;
    assert TouchesLast(rs[..at], United(rs, r, at, end)) ==> Touches(rs[at - 1], r);
    assert TouchesFirst(United(rs, r, at, end), rs[end..]) ==> Touches(r, rs[end]);
  }

  lemma AddedIs(rs: seq<Range>, r: Range, at: nat, end: nat)
    requires Denotes(rs) && r.location < UINT64_MAX
    requires at == LeftRangeIndexForIndex(rs, r.location) && end == BlockEnd(rs, r, at)
    ensures at <= end <= |rs| && MetBlock(rs, r, at, end)
    ensures Added(rs, r) == JoinedAround(rs[..at] + [United(rs, r, at, end)] + rs[end..], at)
  {
    MergeFindsBlock(rs, r, at);
    MergedShape(rs, r, at);
    hide JoinedAround, Merged, United, LeftRangeIndexForIndex, BlockEnd;
  }

  lemma StaysCanonicalIff(rs: seq<Range>, r: Range, at: nat, end: nat)
    requires Canonical(rs) && BelowTop(rs) && r.location < UINT64_MAX && IsFromBounds(r)
    requires Denotes(rs) && Separated(rs) && at <= end <= |rs| && MetBlock(rs, r, at, end)
    ensures Canonical(JoinedAround(rs[..at] + [United(rs, r, at, end)] + rs[end..], at)) <==>
            !(TouchesBefore(rs, r) && TouchesAfter(rs, r)) && !JoinsToTop(rs, r)
  {
    hide *;
    MergedSeparated(rs, r, at, end);
    UnitedIs(rs, r, at, end);
    CanonicalSlice(rs, 0, at);
    CanonicalSlice(rs, end, |rs|);
    assert rs[0..at] == rs[..at] && rs[end..|rs|] == rs[end..];
    JoinsToTopIs(rs, r, at, end);
    JoinedIsCanonicalIff(rs[..at], United(rs, r, at, end), rs[end..]);
  }

  /** Exactly when `addRange` keeps an array canonical, so that comparing goes on to decide equality of sets. */
  lemma AddRangeStaysCanonicalIff(rs: seq<Range>, r: Range)
    requires Canonical(rs) && BelowTop(rs) && r.location < UINT64_MAX && IsFromBounds(r)
    ensures Canonical(Added(rs, r)) <==> !(TouchesBefore(rs, r) && TouchesAfter(rs, r)) && !JoinsToTop(rs, r)
  {
    hide IsFromBounds, TouchesBefore, TouchesAfter, JoinsToTop, JoinedAround, Added, United, MetBlock;
    hide LeftRangeIndexForIndex, BlockEnd;
    var at := LeftRangeIndexForIndex(rs, r.location);
    AddedIs(rs, r, at, BlockEnd(rs, r, at));
    StaysCanonicalIff(rs, r, at, BlockEnd(rs, r, at));
  }

  /** In terms of sets: exactly then comparing what `addRange` leaves with any canonical array tells equal sets. */
  lemma ComparingDecidesAfterAddIff(rs: seq<Range>, r: Range)
    requires Canonical(rs) && BelowTop(rs) && r.location < UINT64_MAX && IsFromBounds(r)
    ensures (forall ts :: Canonical(ts) && SameSet(Added(rs, r), ts) ==> Added(rs, r) == ts) <==>
            !(TouchesBefore(rs, r) && TouchesAfter(rs, r)) && !JoinsToTop(rs, r)
  {
    AddedMeaning(rs, r);
    hide IsFromBounds, TouchesBefore, TouchesAfter, JoinsToTop, Added, SameSet, Lost, Contains;
    AddRangeStaysCanonicalIff(rs, r);
    EqualSetsMayDifferIff(Added(rs, r));
  }

  /** Adding 5 to 0-4 and 6-10 leaves two touching ranges: the second join looks one place too far. */
  lemma AddRangeDoesNotCoalesce(x: int)
    ensures var rs: seq<Range> := [Range(0, 4), Range(6, 4)];
            Separated(rs) && Added(rs, Range(5, 0)) == [Range(0, 5), Range(6, 4)]
    ensures Contains([Range(0, 5), Range(6, 4)], x) <==> Contains([Range(0, 10)], x)
  {
    var rs: seq<Range> := [Range(0, 4), Range(6, 4)];
    assert LeftRangeIndexForIndex(rs, 5) == 1;
    hide Contains, LeftRangeIndexForIndex;
    AddedBetween(Range(0, 4), Range(5, 0), Range(6, 4));
    ContainsPair(Range(0, 5), Range(6, 4), x);
    ContainsOne(Range(0, 10), x);
  }

  /** A range that meets neither of two and touches both is joined with the first only. */
  lemma AddedBetween(a: Range, r: Range, b: Range)
    requires Separated([a, b]) && LeftRangeIndexForIndex([a, b], r.location) == 1
    requires Touches(a, r) && Touches(r, b) && RangeHasIntersection(r, r) && !RangeHasIntersection(r, b)
    ensures Added([a, b], r) == [Span(a.location, RangeRightBound(r)), b]
  {
    hide LeftRangeIndexForIndex, RangeHasIntersection, RangeRightBound, Separated, Span;
    var ins := [a, r, b];
    assert Inserted([a, b], 1, r) == ins;
    assert LastMet(ins, 1, 2) == 1 && LastMet(ins, 1, 1) == 1;
    assert ins == [] + [a, r] + [b];
    assert r.location <= RangeRightBound(r);
    JoinedIs([], a, r, [b]);
    assert [] + [Span(a.location, RangeRightBound(r))] + [b] == [Span(a.location, RangeRightBound(r)), b];
  }

  /**
    Adding the range from 5 without end to 1-4 joins them to one whose length is not UINT64_MAX but one
    less than that.
   */
  lemma AddRangeWritesTopDifferently(x: int)
    ensures Added([Range(1, 3)], Range(5, UINT64_MAX)) == [Range(1, UINT64_MAX - 1)]
    ensures Contains([Range(1, UINT64_MAX - 1)], x) <==> Contains([Range(1, UINT64_MAX)], x)
  {
    var l: Range, r: Range := Range(1, 3), Range(5, UINT64_MAX);
    assert LeftRangeIndexForIndex([l], 5) == 1;
    assert Inserted([l], 1, r) == [l, r];
    assert LastMet([l, r], 1, 2) == 1 && LastMet([l, r], 1, 1) == 1;
    assert [l, r] == [] + [l, r] + [];
    JoinedIs([], l, r, []);
    assert Joined([l, r], 0) == [Range(1, UINT64_MAX - 1)];
    ContainsOne(Range(1, UINT64_MAX - 1), x);
    ContainsOne(Range(1, UINT64_MAX), x);
  }

  lemma ContainsOne(r: Range, x: int)
    ensures Contains([r], x) <==> In(r, x)
  {
    ContainsAround([], r, [], x);
    assert [] + [r] + [] == [r];
  }

  lemma ContainsPair(r: Range, t: Range, x: int)
    ensures Contains([r, t], x) <==> In(r, x) || In(t, x)
  {
    ContainsAround([r], t, [], x);
    ContainsAround([], r, [], x);
    assert [r] + [t] + [] == [r, t] && [] + [r] + [] == [r];
  }
}
