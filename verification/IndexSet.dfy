/** The class of MCIndexSet.cpp, its growing array of ranges updated in place. */
module IndexSet {
  import opened Ranges
  import opened IndexSets

  class IndexSet {
    var mRanges: array<Range>
    var mCount: nat

    ghost predicate Valid()
      reads this
    {
      mCount <= mRanges.Length
    }

    ghost function Contents(): (rs: seq<Range>)
      reads this, mRanges
      requires Valid()
      ensures |rs| == mCount
    {
      mRanges[..mCount]
    }

    constructor ()
      ensures Valid() && fresh(mRanges) && Contents() == []
    {
      mRanges := new Range[0];
      mCount := 0;
    }

    constructor Copy(o: IndexSet)
      requires o.Valid()
      ensures Valid() && fresh(mRanges) && Contents() == o.Contents()
    {
      mRanges := new Range[o.mRanges.Length];
      mCount := o.mCount;
      new;
      for i := 0 to mCount
        invariant mRanges.Length == o.mRanges.Length && mCount == o.mCount && fresh(mRanges)
        invariant mRanges[..i] == o.mRanges[..i]
      {
        mRanges[i] := o.mRanges[i];
      }
    }

    method ContainsIndex(idx: nat) returns (found: bool)
      requires Valid() && Separated(Contents())
      ensures found <==> Contains(Contents(), idx)
    {
      found := RangeIndexForIndex(mRanges[..mCount], idx) != -1;
    }

    /** Doubles the capacity from at least four until it exceeds `mCount`. */
    method Grown() returns (size: nat)
      requires Valid()
      ensures size > mCount
    {
      size := mRanges.Length;
      while size < mCount + 1
        decreases mCount + 1 - size
      {
        if size == 0 {
          size := 4;
        }
        size := size * 2;
      }
    }

    /** A larger array holding the ranges, with a place left open at `rangeIndex`. */
    method Replacement(rangeIndex: nat) returns (replacement: array<Range>)
      requires Valid() && rangeIndex <= mCount
      ensures fresh(replacement) && replacement.Length > mCount
      ensures replacement[..rangeIndex] == mRanges[..rangeIndex]
      ensures replacement[rangeIndex + 1..mCount + 1] == mRanges[rangeIndex..mCount]
    {
      var size := Grown();
      replacement := new Range[size];
      for i := 0 to rangeIndex
        invariant replacement[..i] == mRanges[..i]
      {
        replacement[i] := mRanges[i];
      }
      for i := rangeIndex to mCount
        invariant replacement[..rangeIndex] == mRanges[..rangeIndex]
        invariant replacement[rangeIndex + 1..i + 1] == mRanges[rangeIndex..i]
      {
        replacement[i + 1] := mRanges[i];
      }
    }

    /** Moves the ranges from `rangeIndex` on one place to the right, last one first. */
    method ShiftRight(rangeIndex: nat)
      requires Valid() && rangeIndex <= mCount < mRanges.Length
      modifies mRanges
      ensures mRanges[..rangeIndex] == old(mRanges[..rangeIndex])
      ensures mRanges[rangeIndex + 1..mCount + 1] == old(mRanges[rangeIndex..mCount])
    {
      var i: int := mCount - 1;
      while i >= rangeIndex
        invariant rangeIndex - 1 <= i < mCount
        invariant mRanges[..i + 1] == old(mRanges[..i + 1])
        invariant mRanges[i + 2..mCount + 1] == old(mRanges[i + 1..mCount])
      {
        mRanges[i + 1] := mRanges[i];
        i := i - 1;
      }
    }

    /** Opens a place at `rangeIndex`, in a larger array if this one is full. */
    method AddRangeIndex(rangeIndex: nat)
      requires Valid() && rangeIndex <= mCount
      modifies this, mRanges
      ensures Valid() && (mRanges == old(mRanges) || fresh(mRanges))
      ensures Contents() == Inserted(old(Contents()), rangeIndex, Range(0, 0))
    {
      ghost var before, after := mRanges[..rangeIndex], mRanges[rangeIndex..mCount];
      assert Contents() == before + after;
      if mRanges.Length < mCount + 1 {
        var replacement := Replacement(rangeIndex);
        mCount := mCount + 1;
        replacement[rangeIndex] := Range(0, 0);
        mRanges := replacement;
      } else {
        ShiftRight(rangeIndex);
        mCount := mCount + 1;
        mRanges[rangeIndex] := Range(0, 0);
      }
      assert mRanges[..rangeIndex] == before;
      assert mRanges[rangeIndex + 1..mCount] == after;
      assert Contents() == before + [Range(0, 0)] + after;
    }

    /** Moves the ranges from `rangeIndex + count` on to the left by `count`. */
    method ShiftLeft(rangeIndex: nat, count: nat)
      requires Valid() && rangeIndex + count <= mCount
      modifies mRanges
      ensures mRanges[..rangeIndex] == old(mRanges[..rangeIndex])
      ensures mRanges[rangeIndex..mCount - count] == old(mRanges[rangeIndex + count..mCount])
    {
      for i := rangeIndex + count to mCount
        invariant mRanges[..rangeIndex] == old(mRanges[..rangeIndex])
        invariant mRanges[rangeIndex..i - count] == old(mRanges[rangeIndex + count..i])
        invariant mRanges[i..] == old(mRanges[i..])
      {
        assert mRanges[i] == old(mRanges[i..])[0];
        mRanges[i - count] := mRanges[i];
        assert mRanges[i + 1..] == old(mRanges[i..])[1..];
      }
    }

    method RemoveRangeIndex(rangeIndex: nat, count: nat)
      requires Valid() && rangeIndex + count <= mCount
      modifies this, mRanges
      ensures Valid() && mRanges == old(mRanges)
      ensures Contents() == old(Contents())[..rangeIndex] + old(Contents())[rangeIndex + count..]
    {
      ShiftLeft(rangeIndex, count);
      mCount := mCount - count;
      assert Contents() == mRanges[..rangeIndex] + mRanges[rangeIndex..mCount];
    }

    method TryToMergeAdjacentRanges(rangeIndex: nat)
      requires Valid() && rangeIndex + 1 < mCount
      modifies this, mRanges
      ensures Valid() && mRanges == old(mRanges)
      ensures Contents() == Joined(old(Contents()), rangeIndex)
    {
      if RangeRightBound(mRanges[rangeIndex]) == UINT64_MAX {
        return;
      }
      if RangeRightBound(mRanges[rangeIndex]) + 1 != mRanges[rangeIndex + 1].location {
        return;
      }
      var right := RangeRightBound(mRanges[rangeIndex + 1]);
      RemoveRangeIndex(rangeIndex + 1, 1);
      assert mRanges[rangeIndex] == old(Contents())[rangeIndex];
      mRanges[rangeIndex] := Range(mRanges[rangeIndex].location, right - mRanges[rangeIndex].location);
    }

    /** The scan of `mergeRanges`. */
    method FindLastMet(rangeIndex: nat) returns (right: nat)
      requires Valid() && rangeIndex < mCount
      ensures right == LastMet(Contents(), rangeIndex, rangeIndex)
    {
      right := rangeIndex;
      var i := rangeIndex;
      while i < mCount
        invariant rangeIndex <= i <= mCount
        invariant right == if i == rangeIndex then rangeIndex else i - 1
        invariant LastMet(Contents(), rangeIndex, rangeIndex) == LastMet(Contents(), rangeIndex, i)
      {
        if RangeHasIntersection(mRanges[rangeIndex], mRanges[i]) {
          right := i;
        } else {
          break;
        }
        i := i + 1;
      }
    }

    method MergeRanges(rangeIndex: nat)
      requires Valid() && rangeIndex < mCount
      modifies this, mRanges
      ensures Valid() && mRanges == old(mRanges)
      ensures Contents() == Merged(old(Contents()), rangeIndex)
    {
      hide LastMet, RangeUnion, RangeHasIntersection;
      var right := FindLastMet(rangeIndex);
      if right == rangeIndex {
        return;
      }
      var range := RangeUnion(mRanges[rangeIndex], mRanges[right])[0];
      Replace(rangeIndex, right, range);
    }

    /** One range in the place of those from `rangeIndex` to `right`. */
    method Replace(rangeIndex: nat, right: nat, range: Range)
      requires Valid() && rangeIndex < right < mCount
      modifies this, mRanges
      ensures Valid() && mRanges == old(mRanges)
      ensures Contents() == old(Contents())[..rangeIndex] + [range] + old(Contents())[right + 1..]
    {
      ghost var rs := Contents();
      RemoveRangeIndex(rangeIndex + 1, right - rangeIndex);
      ghost var left := Contents();
      mRanges[rangeIndex] := range;
      assert Contents() == left[rangeIndex := range];
      ReplacedAt(rs, rangeIndex, right, range);
    }

    /** The part of `addRange` before it merges. */
    method InsertRange(rangeIndex: nat, range: Range)
      requires Valid() && rangeIndex <= mCount
      modifies this, mRanges
      ensures Valid() && (mRanges == old(mRanges) || fresh(mRanges))
      ensures Contents() == Inserted(old(Contents()), rangeIndex, range)
    {
      AddRangeIndex(rangeIndex);
      mRanges[rangeIndex] := range;
    }

    /** The part of `addRange` after it merges. */
    method JoinNeighbours(rangeIndex: nat)
      requires Valid() && rangeIndex < mCount
      modifies this, mRanges
      ensures Valid() && mRanges == old(mRanges)
      ensures Contents() == JoinedAround(old(Contents()), rangeIndex)
    {
      hide Joined;
      hide IndexSet.Contents, IndexSet.Valid;
      if rangeIndex > 0 {
        TryToMergeAdjacentRanges(rangeIndex - 1);
      }
      if rangeIndex < mCount - 1 {
        TryToMergeAdjacentRanges(rangeIndex);
      }
    }

    method AddRange(range: Range)
      requires Valid() && Denotes(Contents())
      modifies this, mRanges
      ensures Valid() && (mRanges == old(mRanges) || fresh(mRanges))
      ensures Contents() == Added(old(Contents()), range)
    {
      var rangeIndex := LeftRangeIndexForIndex(mRanges[..mCount], range.location);
      assert rangeIndex == LeftRangeIndexForIndex(Contents(), range.location);
      hide Denotes, Separated, BelowTop, Merged, JoinedAround, LeftRangeIndexForIndex, Inserted;
      hide IndexSet.Contents, IndexSet.Valid;
      InsertRange(rangeIndex, range);
      MergeRanges(rangeIndex);
      JoinNeighbours(rangeIndex);
    }

    /** Replaces the range at `at`, which meets `range`, by what `range` leaves of it. */
    method SweepOne(at: nat, range: Range, left0: int, right0: int) returns (left: int, right: int, split: bool)
      requires Valid() && at < mCount && |RangeRemoveRange(Contents()[at], range)| <= 2
      modifies this, mRanges
      ensures Valid() && (mRanges == old(mRanges) || fresh(mRanges))
      ensures var c, pieces := old(Contents()), RangeRemoveRange(old(Contents())[at], range);
              && (split <==> |pieces| == 2)
              && (left, right) == (if |pieces| == 0 then (if left0 == -1 then at else left0, at) else (left0, right0))
              && Contents() == (if |pieces| == 0 then c[at := RangeEmpty]
                                else if |pieces| == 1 then c[at := pieces[0]]
                                else c[..at] + pieces + c[at + 1..])
    {
      var pieces := RangeRemoveRange(mRanges[at], range);
      assert pieces == RangeRemoveRange(Contents()[at], range);
      hide RangeRemoveRange;
      left, right, split := left0, right0, false;
      if |pieces| == 0 {
        if left == -1 {
          left := at;
        }
        right := at;
        mRanges[at] := RangeEmpty;
      } else if |pieces| == 1 {
        mRanges[at] := pieces[0];
      } else {
        SplitAt(at, pieces[0], pieces[1]);
        split := true;
        assert pieces == [pieces[0], pieces[1]];
      }
    }

    /** Two ranges in the place of one. */
    method SplitAt(at: nat, first: Range, second: Range)
      requires Valid() && at < mCount
      modifies this, mRanges
      ensures Valid() && (mRanges == old(mRanges) || fresh(mRanges))
      ensures Contents() == old(Contents())[..at] + [first, second] + old(Contents())[at + 1..]
    {
      AddRangeIndex(at);
      mRanges[at] := first;
      mRanges[at + 1] := second;
    }

    /** The loop of `removeRange` from the range at `from` on. */
    method Sweep(range: Range, from: nat) returns (left: int, right: int, ghost i: nat, ghost split: bool)
      requires Valid() && Denotes(Contents()) && from <= mCount
      modifies this, mRanges
      ensures Valid() && (mRanges == old(mRanges) || fresh(mRanges))
      ensures Sweeping(old(Contents()), Contents(), range, from, i, left, right, split)
      ensures !split ==> i >= |old(Contents())| || !RangeHasIntersection(old(Contents())[i], range)
      ensures range.location == UINT64_MAX ==> left == -1 && Contents() == old(Contents())
    {
      ghost var rs := Contents();
      left, right, split := -1, -1, false;
      SweepStarts(rs, range, from);
      hide Denotes, Sweeping, RangeRemoveRange, RangeHasIntersection, Meets;
      hide IndexSet.Contents;
      var at: nat := from;
      while at < mCount
        invariant Valid() && (mRanges == old(mRanges) || fresh(mRanges))
        invariant Sweeping(rs, Contents(), range, from, at, left, right, split)
        invariant !split ==> |Contents()| == |rs| && at <= |rs|
        invariant range.location == UINT64_MAX ==> !split && left == -1 && Contents() == rs
        decreases !split, mCount - at
      {
        i := at;
        var meets := MeetsStored(at, range);
        if range.location == UINT64_MAX {
          TopMeetsNothing(rs[at], range);
        } else if split {
          SweepStopsAfterSplit(rs, Contents(), range, from, at, left, right);
        } else {
          SweepSees(rs, Contents(), range, from, at, left, right);
        }
        if !meets {
          return;
        }
        SweepStep(rs, Contents(), range, from, at, left, right);
        if |RangeRemoveRange(rs[at], range)| == 2 {
          SweepSplits(rs, Contents(), range, from, at, left, right);
        }
        left, right, split := SweepOne(at, range, left, right);
        at := at + 1;
      }
      i := at;
    }

    method MeetsStored(at: nat, range: Range) returns (meets: bool)
      requires Valid() && at < mCount
      ensures meets <==> RangeHasIntersection(Contents()[at], range)
    {
      meets := RangeHasIntersection(mRanges[at], range);
    }

    /** -1 for an empty set, otherwise a stored range before which nothing meets `range`. */
    method SweepStart(range: Range) returns (leftRangeIndex: int)
      requires Valid() && Denotes(Contents())
      ensures if mCount == 0 then leftRangeIndex == -1
              else 0 <= leftRangeIndex < mCount && SweepCanStart(Contents(), range, leftRangeIndex)
    {
      leftRangeIndex := LeftRangeIndexForIndex(mRanges[..mCount], range.location);
      if leftRangeIndex >= mCount {
        leftRangeIndex := mCount - 1;
      }
      if mCount > 0 {
        StartOfSweep(Contents(), range, leftRangeIndex);
      }
    }

    /**
      Removes the indexes of `range`; a range starting at the last index, the empty one, removes
      nothing. For an empty set the start is -1, which the loop's unsigned comparison rejects.
     */
    method RemoveRange(range: Range)
      requires Valid() && Denotes(Contents())
      modifies this, mRanges
      ensures Valid() && (mRanges == old(mRanges) || fresh(mRanges))
      ensures range.location < UINT64_MAX ==> IsRemoval(old(Contents()), range, Contents())
      ensures range.location == UINT64_MAX ==> Contents() == old(Contents())
    {
      assert range.location <= UINT64_MAX;
      hide *;
      ghost var rs := Contents();
      var leftRangeIndex := SweepStart(range);
      if leftRangeIndex == -1 {
        NothingToRemove(range);
        assert rs == [];
        return;
      }
      var left, right, i, split := Sweep(range, leftRangeIndex);
      if range.location < UINT64_MAX {
        if !split && i < |rs| {
          HasIntersectionIsMeetsAt(rs, range, i);
        }
        SweepDone(rs, Contents(), range, leftRangeIndex, i, left, right, split);
      }
      TakeOut(left, right);
    }

    method TakeOut(left: int, right: int)
      requires Valid() && (left == -1 || 0 <= left <= right < mCount)
      modifies this, mRanges
      ensures Valid() && mRanges == old(mRanges)
      ensures Contents() == Closed(old(Contents()), left, right)
      ensures left == -1 ==> Contents() == old(Contents())
    {
      if left != -1 {
        RemoveRangeIndex(left, right - left + 1);
      }
    }

    /** The number of indexes modulo 2^32, a range without end counting for nothing. */
    method Count() returns (total: nat)
      requires Valid()
      ensures total == Total(Contents()) % 0x1_0000_0000
    {
      hide Total;
      total := 0;
      NothingCounted();
      for i := 0 to mCount
        invariant total == Total(mRanges[..i]) % 0x1_0000_0000
      {
        CountStep(mRanges[..i], mRanges[i]);
        assert mRanges[..i + 1] == mRanges[..i] + [mRanges[i]];
        total := (total + (mRanges[i].length + 1) % (UINT64_MAX + 1)) % 0x1_0000_0000;
      }
      assert mRanges[..mCount] == Contents();
    }

    method RemoveAllIndexes()
      modifies this
      ensures Valid() && fresh(mRanges) && Contents() == []
    {
      mRanges := new Range[0];
      mCount := 0;
    }

    /** `addRange` for every range of the other set, in order; a set added to itself stays the same set. */
    method AddIndexSet(indexSet: IndexSet)
      requires Valid() && Denotes(Contents())
      requires indexSet.Valid() && BelowTop(indexSet.Contents())
      requires indexSet == this || indexSet.mRanges != mRanges
      modifies this, mRanges
      ensures Valid() && (mRanges == old(mRanges) || fresh(mRanges))
      ensures indexSet != this ==> Contents() == AddedAll(old(Contents()), indexSet.Contents())
      ensures indexSet == this ==> Denotes(Contents()) && SameSet(old(Contents()), Contents())
    {
      hide *;
      ghost var rs, ts, itself := Contents(), indexSet.Contents(), indexSet == this;
      AddingStarts(itself, rs, ts);
      var i := 0;
      while i < indexSet.mCount
        invariant indexSet.Valid() && Valid() && (mRanges == old(mRanges) || fresh(mRanges))
        invariant !itself ==> indexSet.Contents() == ts
        invariant AddingAll(itself, rs, ts, i, Contents())
        decreases if itself then mCount - i else |ts| - i
      {
        AddingEnds(itself, rs, ts, i, Contents());
        AddingStep(itself, rs, ts, i, Contents());
        var range := indexSet.RangeAt(i);
        AddRange(range);
        i := i + 1;
      }
      AddingEnds(itself, rs, ts, i, Contents());
    }

    method RangeAt(i: nat) returns (range: Range)
      requires Valid() && i < mCount
      ensures range == Contents()[i]
    {
      range := mRanges[i];
    }

    method AddIndex(idx: nat)
      requires Valid() && Denotes(Contents()) && idx <= UINT64_MAX
      modifies this, mRanges
      ensures Valid() && (mRanges == old(mRanges) || fresh(mRanges))
      ensures Contents() == Added(old(Contents()), Range(idx, 0))
    {
      AddRange(Range(idx, 0));
    }

    /** The last index is written like the empty range, and is not removed. */
    method RemoveIndex(idx: nat)
      requires Valid() && Denotes(Contents()) && idx <= UINT64_MAX
      modifies this, mRanges
      ensures Valid() && (mRanges == old(mRanges) || fresh(mRanges))
      ensures idx < UINT64_MAX ==> IsRemoval(old(Contents()), Range(idx, 0), Contents())
      ensures idx == UINT64_MAX ==> Contents() == old(Contents())
    {
      RemoveRange(Range(idx, 0));
    }

    /** With the range of the last index alone, that index is kept. */
    method IntersectsRange(range: Range)
      requires Valid() && Denotes(Contents())
      modifies this, mRanges
      ensures Valid() && (mRanges == old(mRanges) || fresh(mRanges))
      ensures range.location < UINT64_MAX ==> IsIntersection(old(Contents()), range, Contents())
      ensures range.location == UINT64_MAX ==> Separated(Contents())
      ensures range.location == UINT64_MAX ==>
                forall x :: Contains(Contents(), x) <==> Contains(old(Contents()), x) && x == UINT64_MAX
    {
      ghost var rs := Contents();
      var right := RangeRightBound(range);
      var low: Range := Range(0, if range.location == 0 then UINT64_MAX else range.location - 1);
      hide RangeRightBound, Denotes, IsRemoval, IsIntersection;
      hide IndexSet.Contents;
      RemoveRange(low);
      ghost var c := Contents();
      if range.location == UINT64_MAX {
        OnlyTopIsLeft(rs, low, c);
        return;
      }
      TwoRemovals(rs, range, low, c, range, c);
      if right != UINT64_MAX {
        var high: Range := Range(right + 1, UINT64_MAX);
        RemoveRange(high);
        TwoRemovals(rs, range, low, c, high, Contents());
      }
    }

    /** Adds to `result` what the range at `i` of the other set keeps of a copy of this one. */
    method IntersectsOne(indexSet: IndexSet, i: nat, result: IndexSet)
      requires Valid() && Denotes(Contents())
      requires indexSet.Valid() && Denotes(indexSet.Contents()) && i < |indexSet.Contents()|
      requires result != this && result != indexSet && result.Valid() && Denotes(result.Contents())
      requires forall x :: Contains(result.Contents(), x) <==> KeptByFirst(Contents(), indexSet.Contents(), i, x)
      modifies result, result.mRanges
      ensures result.Valid() && (result.mRanges == old(result.mRanges) || fresh(result.mRanges))
      ensures Denotes(result.Contents())
      ensures forall x ::
                Contains(result.Contents(), x) <==>
                KeptByFirst(old(Contents()), old(indexSet.Contents()), i + 1, x)
    {
      hide *;
      ghost var rs, ts := Contents(), indexSet.Contents();
      var rangeIntersect := new IndexSet.Copy(this);
      var range := indexSet.RangeAt(i);
      StoredBelowTop(ts, i);
      rangeIntersect.IntersectsRange(range);
      KeptAppends(rs, ts, i, result.Contents(), rangeIntersect.Contents());
      DenotesBelowTop(rangeIntersect.Contents());
      result.AddIndexSet(rangeIntersect);
    }

    /** Gathers, range by range of the other set, what that range keeps of a copy of this one. */
    method IntersectsIndexSet(indexSet: IndexSet)
      requires Valid() && Denotes(Contents())
      requires indexSet.Valid() && Denotes(indexSet.Contents())
      modifies this
      ensures Valid() && fresh(mRanges) && Denotes(Contents())
      ensures forall x :: Contains(Contents(), x) <==>
                KeptByFirst(old(Contents()), old(indexSet.Contents()), |old(indexSet.Contents())|, x)
    {
      ghost var rs, ts := Contents(), indexSet.Contents();
      var result := new IndexSet();
      assert Denotes([]) && forall x :: !Contains([], x);
      hide *;
      forall x
        ensures !KeptByFirst(rs, ts, 0, x)
      {
        KeptByNone(rs, ts, x);
      }
      var i := 0;
      while i < indexSet.mCount
        invariant Valid() && indexSet.Valid() && i <= |ts|
        invariant Contents() == rs && indexSet.Contents() == ts
        invariant result.Valid() && fresh(result) && fresh(result.mRanges) && result.mRanges != mRanges
        invariant Denotes(result.Contents())
        invariant forall x :: Contains(result.Contents(), x) <==> KeptByFirst(rs, ts, i, x)
      {
        IntersectsOne(indexSet, i, result);
        i := i + 1;
      }
      RemoveAllIndexes();
      NothingIsBefore(result.Contents());
      AddedAllAfter([], result.Contents());
      AddIndexSet(result);
    }
  }
}
