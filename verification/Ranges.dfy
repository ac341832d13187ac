/**
  The closed ranges of 64-bit indexes of MCRange.cpp. `length` is the right end minus the left end;
  the length UINT64_MAX stands for a range without end, whose right bound is UINT64_MAX.
 */
module Ranges {

  const UINT64_MAX: nat := 0xFFFF_FFFF_FFFF_FFFF

  datatype RangeStruct = Range(location: nat, length: nat)

  /** A pair of 64-bit numbers whose right end is itself a 64-bit number. */
  predicate Proper(r: RangeStruct) {
    r.location <= UINT64_MAX && (r.length == UINT64_MAX || r.location + r.length <= UINT64_MAX)
  }

  type Range = r: RangeStruct | Proper(r) witness Range(0, 0)

  const RangeEmpty: Range := Range(UINT64_MAX, 0)

  function RangeRightBound(r: Range): (right: nat)
    ensures r.location <= right <= UINT64_MAX
  {
    if r.length == UINT64_MAX then UINT64_MAX else r.location + r.length
  }

  predicate In(r: Range, x: int) {
    r.location <= x <= RangeRightBound(r)
  }

  function Min(a: nat, b: nat): nat {
    if a < b then a else b
  }

  function Max(a: nat, b: nat): nat {
    if a > b then a else b
  }

  /** The range from `left` to `right`, written without end when it reaches the last index. */
  function FromBounds(left: nat, right: nat): (r: Range)
    requires left <= right <= UINT64_MAX
    ensures r.location == left && RangeRightBound(r) == right
  {
    if right == UINT64_MAX then Range(left, UINT64_MAX) else Range(left, right - left)
  }

  function RangeIntersection(r1: Range, r2: Range): (r: Range)
    ensures r == RangeEmpty || forall x :: In(r, x) <==> In(r1, x) && In(r2, x)
  {
    if RangeRightBound(r2) < r1.location then
      RangeEmpty
    else if RangeRightBound(r1) < r2.location then
      RangeEmpty
    else
      FromBounds(Max(r1.location, r2.location), Min(RangeRightBound(r1), RangeRightBound(r2)))
  }

  /** Exact as long as no range starts at the last index, which is how the empty range is written. */
  predicate RangeHasIntersection(r1: Range, r2: Range)
    ensures r1.location < UINT64_MAX && r2.location < UINT64_MAX ==>
              (RangeHasIntersection(r1, r2) <==> exists x :: In(r1, x) && In(r2, x))
  {
    var meets := RangeIntersection(r1, r2).location != UINT64_MAX;
    assert r1.location < UINT64_MAX && r2.location < UINT64_MAX && meets ==>
        In(r1, Max(r1.location, r2.location)) && In(r2, Max(r1.location, r2.location));
    meets
  }

  /** What is left of `r1` without `r2`, in order: at most two ranges. */
  function RangeRemoveRange(r1: Range, r2: Range): (pieces: seq<Range>) {
    if !RangeHasIntersection(r1, r2) then
      [r1]
    else
      var common := RangeIntersection(r1, r2);
      var left1, right1 := r1.location, RangeRightBound(r1);
      var left2, right2 := common.location, RangeRightBound(common);
      (if left2 > left1 then [Range(left1, left2 - left1 - 1)] else []) +
      (if right2 == UINT64_MAX then
         []
       else if right1 == UINT64_MAX then
         [Range(right2 + 1, UINT64_MAX)]
       else if right2 < right1 then
         [Range(right2 + 1, right1 - (right2 + 1))]
       else
         [])
  }

  /** The one range covering both, or both ranges when they do not meet. */
  function RangeUnion(r1: Range, r2: Range): (pieces: seq<Range>)
    ensures |pieces| == 1 || pieces == [r1, r2]
  {
    if !RangeHasIntersection(r1, r2) then
      [r1, r2]
    else
      [FromBounds(Min(r1.location, r2.location), Max(RangeRightBound(r1), RangeRightBound(r2)))]
  }

  lemma RangeRemoveRangeMeaning(r1: Range, r2: Range)
    requires r1.location < UINT64_MAX && r2.location < UINT64_MAX
    ensures var pieces := RangeRemoveRange(r1, r2);
            && |pieces| <= 2
            && (forall x :: (exists i :: 0 <= i < |pieces| && In(pieces[i], x)) <==> In(r1, x) && !In(r2, x))
            && (forall i :: 0 <= i < |pieces| ==>
                  r1.location <= pieces[i].location && RangeRightBound(pieces[i]) <= RangeRightBound(r1))
            && (|pieces| == 2 ==> RangeRightBound(pieces[0]) + 1 < pieces[1].location)
  {
    var pieces := RangeRemoveRange(r1, r2);
    forall x
      ensures (exists i :: 0 <= i < |pieces| && In(pieces[i], x)) <==> In(r1, x) && !In(r2, x)
    {
      if In(r1, x) && !In(r2, x) {
        assert pieces != [];
        assert In(pieces[0], x) || (|pieces| == 2 && In(pieces[1], x));
      }
    }
  }

  lemma RangeUnionMeaning(r1: Range, r2: Range, x: int)
    ensures (exists i :: 0 <= i < |RangeUnion(r1, r2)| && In(RangeUnion(r1, r2)[i], x)) <==> In(r1, x) || In(r2, x)
  {
    var pieces := RangeUnion(r1, r2);
    if In(r1, x) || In(r2, x) {
      assert In(pieces[0], x) || (|pieces| == 2 && In(pieces[1], x));
    }
  }
}
