/**
  The Bentley-McIlroy quicksort of MCAndroid.cpp, over an array of elements.

  The original moves byte pointers by the element size; here `pa`, `pb`, `pc`, `pd`, `pl`, `pm`
  and `pn` are element indices, and the caller's comparator is the function `cmp`.
 */
module QuickSort {

  type Comparator<!T> = (T, T) -> int

  /** What the caller's comparator must be for the sort to mean anything. */
  ghost predicate TotalPreorder<T(!new)>(cmp: Comparator<T>) {
    && (forall x, y :: cmp(x, y) <= 0 <==> cmp(y, x) >= 0)
    && (forall x, y, z :: cmp(x, y) <= 0 && cmp(y, z) <= 0 ==> cmp(x, z) <= 0)
  }

  /** `s` is in order from `lo` up to but excluding `hi`. */
  ghost predicate InOrder<T>(s: seq<T>, lo: nat, hi: nat, cmp: Comparator<T>) {
    hi <= |s| && forall i, j :: lo <= i < j < hi ==> cmp(s[i], s[j]) <= 0
  }

  /** `t` rearranges `s` between `lo` and `hi` and agrees with it elsewhere. */
  ghost predicate Rearranges<T>(s: seq<T>, t: seq<T>, lo: nat, hi: nat) {
    && |s| == |t|
    && lo <= hi <= |s|
    && t[..lo] == s[..lo]
    && t[hi..] == s[hi..]
    && multiset(t[lo..hi]) == multiset(s[lo..hi])
  }

  lemma RearrangesTransitive<T>(s: seq<T>, t: seq<T>, u: seq<T>, lo: nat, hi: nat)
    requires Rearranges(s, t, lo, hi) && Rearranges(t, u, lo, hi)
    ensures Rearranges(s, u, lo, hi)
  {
  }

  /** A rearrangement of a part rearranges the whole. */
  lemma RearrangesWidens<T>(s: seq<T>, t: seq<T>, lo: nat, hi: nat, from: nat, to: nat)
    requires from <= lo && hi <= to <= |s|
    requires Rearranges(s, t, lo, hi)
    ensures Rearranges(s, t, from, to)
  {
    assert t[..from] == t[..lo][..from] == s[..lo][..from] == s[..from];
    assert t[to..] == t[hi..][to - hi..] == s[hi..][to - hi..] == s[to..];
    assert t[from..lo] == t[..lo][from..] == s[..lo][from..] == s[from..lo];
    assert t[hi..to] == t[hi..][..to - hi] == s[hi..][..to - hi] == s[hi..to];
    assert s[from..to] == s[from..lo] + s[lo..hi] + s[hi..to];
    assert t[from..to] == t[from..lo] + t[lo..hi] + t[hi..to];
  }

  /** A property of all elements of a stretch survives rearranging the stretch. */
  lemma RearrangesKeeps<T>(s: seq<T>, t: seq<T>, lo: nat, hi: nat, p: T -> bool)
    requires Rearranges(s, t, lo, hi)
    requires forall i :: lo <= i < hi ==> p(s[i])
    ensures forall i :: lo <= i < hi ==> p(t[i])
  {
    forall i | lo <= i < hi
      ensures p(t[i])
    {
      assert t[i] == t[lo..hi][i - lo];
      assert t[i] in multiset(t[lo..hi]);
      assert t[i] in multiset(s[lo..hi]);
      assert t[i] in s[lo..hi];
    }
  }

  lemma SwapRearranges<T>(s: seq<T>, i: nat, j: nat, lo: nat, hi: nat)
    requires lo <= i < hi <= |s| && lo <= j < hi
    ensures Rearranges(s, s[i := s[j]][j := s[i]], lo, hi)
  {
    var t := s[i := s[j]][j := s[i]];
    var u, v := s[lo..hi], t[lo..hi];
    assert v == u[i - lo := u[j - lo]][j - lo := u[i - lo]];
  }

  function Swapped<T>(s: seq<T>, i: nat, j: nat): seq<T>
    requires i < |s| && j < |s|
  {
    s[i := s[j]][j := s[i]]
  }

  /** Exchanges two elements between `lo` and `hi`; `start` is the array the caller began with. */
  method Swap<T>(a: array<T>, i: nat, j: nat, lo: nat, hi: nat, ghost start: seq<T>)
    requires lo <= i < hi <= a.Length && lo <= j < hi
    requires Rearranges(start, a[..], lo, hi)
    modifies a
    ensures a[..] == Swapped(old(a[..]), i, j)
    ensures Rearranges(start, a[..], lo, hi)
  {
    a[i], a[j] := a[j], a[i];
    assert a[..] == Swapped(old(a[..]), i, j);
    hide Rearranges;
    SwapRearranges(old(a[..]), i, j, lo, hi);
    RearrangesTransitive(start, old(a[..]), a[..], lo, hi);
  }

  /** `t` is `s` with the first `n` elements of the stretches at `i` and at `j` exchanged. */
  ghost predicate Exchanged<T>(s: seq<T>, t: seq<T>, i: nat, j: nat, n: nat) {
    && i + n <= j && j + n <= |s| == |t|
    && (forall k :: i <= k < i + n ==> t[k] == s[k + (j - i)])
    && (forall k :: j <= k < j + n ==> t[k] == s[k - (j - i)])
    && (forall k :: 0 <= k < |s| && !(i <= k < i + n) && !(j <= k < j + n) ==> t[k] == s[k])
  }

  lemma ExchangedStep<T>(s: seq<T>, t: seq<T>, i: nat, j: nat, n: nat)
    requires Exchanged(s, t, i, j, n)
    requires i + n < j && j + n < |s|
    ensures Exchanged(s, Swapped(t, i + n, j + n), i, j, n + 1)
  {
  }

  /** Exchanges two disjoint stretches of `r` elements, element by element. */
  method VecSwap<T>(a: array<T>, i: nat, j: nat, r: nat, lo: nat, hi: nat, ghost start: seq<T>)
    requires lo <= i && i + r <= j && j + r <= hi <= a.Length
    requires Rearranges(start, a[..], lo, hi)
    modifies a
    ensures Exchanged(old(a[..]), a[..], i, j, r)
    ensures Rearranges(start, a[..], lo, hi)
  {
    var n := 0;
    assert Exchanged(a[..], a[..], i, j, 0);
    hide *;
    while n < r
      invariant n <= r
      invariant Exchanged(old(a[..]), a[..], i, j, n)
      invariant Rearranges(start, a[..], lo, hi)
    {
      ExchangedStep(old(a[..]), a[..], i, j, n);
      Swap(a, i + n, j + n, lo, hi, start);
      n := n + 1;
    }
  }

  /** One of three indices: the one whose element is the median. */
  method Med3<T(!new)>(a: array<T>, x: nat, y: nat, z: nat, cmp: Comparator<T>) returns (m: nat)
    requires x < a.Length && y < a.Length && z < a.Length
    ensures m in {x, y, z}
    ensures TotalPreorder(cmp) ==> Median(a[m], a[x], a[y], a[z], cmp)
  {
    if cmp(a[x], a[y]) < 0 {
      m := if cmp(a[y], a[z]) < 0 then y else if cmp(a[x], a[z]) < 0 then z else x;
    } else {
      m := if cmp(a[y], a[z]) > 0 then y else if cmp(a[x], a[z]) < 0 then x else z;
    }
  }

  /** No more than one of three elements is below `m`, and no more than one above. */
  ghost predicate Median<T>(m: T, x: T, y: T, z: T, cmp: Comparator<T>) {
    && m in [x, y, z]
    && (cmp(x, m) >= 0 || cmp(y, m) >= 0) && (cmp(y, m) >= 0 || cmp(z, m) >= 0) && (cmp(x, m) >= 0 || cmp(z, m) >= 0)
    && (cmp(x, m) <= 0 || cmp(y, m) <= 0) && (cmp(y, m) <= 0 || cmp(z, m) <= 0) && (cmp(x, m) <= 0 || cmp(z, m) <= 0)
  }

  /** `s` is in order from `lo` up to and including `to`, leaving out the element at `hole`. */
  ghost predicate SortedBut<T>(s: seq<T>, lo: nat, to: nat, hole: nat, cmp: Comparator<T>) {
    && to < |s|
    && (forall i, j :: lo <= i < j <= to && i != hole && j != hole ==> cmp(s[i], s[j]) <= 0)
    && (forall j :: hole < j <= to ==> cmp(s[hole], s[j]) <= 0)
  }

  lemma InsertionStep<T(!new)>(s: seq<T>, lo: nat, pm: nat, pl: nat, cmp: Comparator<T>)
    requires TotalPreorder(cmp)
    requires lo < pl <= pm
    requires SortedBut(s, lo, pm, pl, cmp)
    requires cmp(s[pl - 1], s[pl]) > 0
    ensures SortedBut(Swapped(s, pl, pl - 1), lo, pm, pl - 1, cmp)
  {
  }

  lemma InsertionDone<T(!new)>(s: seq<T>, lo: nat, pm: nat, pl: nat, cmp: Comparator<T>)
    requires TotalPreorder(cmp)
    requires lo <= pl <= pm
    requires SortedBut(s, lo, pm, pl, cmp)
    requires pl == lo || cmp(s[pl - 1], s[pl]) <= 0
    ensures InOrder(s, lo, pm + 1, cmp)
  {
    forall i, j | lo <= i < j <= pm
      ensures cmp(s[i], s[j]) <= 0
    {
      if j == pl && i != pl - 1 {
        assert cmp(s[i], s[pl - 1]) <= 0;
      }
    }
  }

  lemma InsertionNext<T>(s: seq<T>, lo: nat, pm: nat, cmp: Comparator<T>)
    requires InOrder(s, lo, pm, cmp) && pm < |s|
    ensures SortedBut(s, lo, pm, pm, cmp)
  {
  }

  /** The inner loop of the insertion sort: moves the element at `pm` down to its place. */
  method Insert<T(!new)>(a: array<T>, lo: nat, pm: nat, hi: nat, cmp: Comparator<T>, ghost start: seq<T>)
    requires lo <= pm < hi <= a.Length
    requires Rearranges(start, a[..], lo, hi)
    requires TotalPreorder(cmp) ==> InOrder(a[..], lo, pm, cmp)
    modifies a
    ensures Rearranges(start, a[..], lo, hi)
    ensures TotalPreorder(cmp) ==> InOrder(a[..], lo, pm + 1, cmp)
  {
    hide *;
    var pl := pm;
    if TotalPreorder(cmp) {
      InsertionNext(a[..], lo, pm, cmp);
    }
    while pl > lo && cmp(a[pl - 1], a[pl]) > 0
      invariant lo <= pl <= pm
      invariant Rearranges(start, a[..], lo, hi)
      invariant TotalPreorder(cmp) ==> SortedBut(a[..], lo, pm, pl, cmp)
    {
      if TotalPreorder(cmp) {
        InsertionStep(a[..], lo, pm, pl, cmp);
      }
      Swap(a, pl, pl - 1, lo, hi, start);
      pl := pl - 1;
    }
    if TotalPreorder(cmp) {
      InsertionDone(a[..], lo, pm, pl, cmp);
    }
  }

  /** The insertion sort used for short stretches and after a partition that swapped nothing. */
  method InsertionSort<T(!new)>(a: array<T>, lo: nat, hi: nat, cmp: Comparator<T>, ghost start: seq<T>)
    requires lo <= hi <= a.Length
    requires Rearranges(start, a[..], lo, hi)
    modifies a
    ensures Rearranges(start, a[..], lo, hi)
    ensures TotalPreorder(cmp) ==> InOrder(a[..], lo, hi, cmp)
  {
    var pm := lo + 1;
    assert InOrder(a[..], lo, if pm < hi then pm else hi, cmp);
    hide *;
    while pm < hi
      invariant lo < pm && (lo < hi ==> pm <= hi)
      invariant Rearranges(start, a[..], lo, hi)
      invariant TotalPreorder(cmp) ==> InOrder(a[..], lo, if pm < hi then pm else hi, cmp)
    {
      Insert(a, lo, pm, hi, cmp, start);
      pm := pm + 1;
    }
  }

  /** Where the four scanning indices stand. */
  predicate Bounds(lo: int, hi: int, pa: int, pb: int, pc: int, pd: int) {
    lo < pa <= pb <= pc + 1 && pc <= pd < hi
  }

  /** The five stretches around the pivot `v` at `lo`: equal, less, not scanned, greater, equal. */
  ghost predicate Regions<T>(s: seq<T>, lo: nat, hi: nat, pa: int, pb: int, pc: int, pd: int, v: T,
                             cmp: Comparator<T>)
  {
    && Bounds(lo, hi, pa, pb, pc, pd) && hi <= |s|
    && s[lo] == v
    && (forall k :: lo < k < pa ==> cmp(s[k], v) == 0)
    && (forall k :: pa <= k < pb ==> cmp(s[k], v) < 0)
    && (forall k :: pc < k <= pd ==> cmp(s[k], v) > 0)
    && (forall k :: pd < k < hi ==> cmp(s[k], v) == 0)
  }

  lemma ScanLeft<T>(s: seq<T>, lo: nat, hi: nat, pa: int, pb: int, pc: int, pd: int, v: T, cmp: Comparator<T>)
    requires Regions(s, lo, hi, pa, pb, pc, pd, v, cmp) && pb <= pc
    ensures s[lo] == v
    ensures cmp(s[pb], v) < 0 ==> Regions(s, lo, hi, pa, pb + 1, pc, pd, v, cmp)
    ensures cmp(s[pb], v) == 0 ==> Regions(Swapped(s, pa, pb), lo, hi, pa + 1, pb + 1, pc, pd, v, cmp)
  {
  }

  lemma ScanRight<T>(s: seq<T>, lo: nat, hi: nat, pa: int, pb: int, pc: int, pd: int, v: T, cmp: Comparator<T>)
    requires Regions(s, lo, hi, pa, pb, pc, pd, v, cmp) && pb <= pc
    ensures s[lo] == v
    ensures cmp(s[pc], v) > 0 ==> Regions(s, lo, hi, pa, pb, pc - 1, pd, v, cmp)
    ensures cmp(s[pc], v) == 0 ==> Regions(Swapped(s, pc, pd), lo, hi, pa, pb, pc - 1, pd - 1, v, cmp)
  {
  }

  lemma CrossSwap<T>(s: seq<T>, lo: nat, hi: nat, pa: int, pb: int, pc: int, pd: int, v: T, cmp: Comparator<T>)
    requires Regions(s, lo, hi, pa, pb, pc, pd, v, cmp) && pb <= pc
    requires cmp(s[pb], v) > 0 && cmp(s[pc], v) < 0
    ensures Bounds(lo, hi, pa, pb + 1, pc - 1, pd)
    ensures Regions(Swapped(s, pb, pc), lo, hi, pa, pb + 1, pc - 1, pd, v, cmp)
  {
  }

  /** The scan from the left, up to the first element greater than the pivot. */
  method ScanUp<T(!new)>(a: array<T>, lo: nat, hi: nat, pa0: nat, pb0: nat, pc: nat, pd: nat, swapped0: bool,
                         cmp: Comparator<T>, ghost start: seq<T>)
      returns (pa: nat, pb: nat, swapped: bool)
    requires hi <= a.Length && Bounds(lo, hi, pa0, pb0, pc, pd)
    requires Regions(a[..], lo, hi, pa0, pb0, pc, pd, a[lo], cmp)
    requires Rearranges(start, a[..], lo, hi)
    modifies a
    ensures a[lo] == old(a[lo]) && Rearranges(start, a[..], lo, hi)
    ensures Bounds(lo, hi, pa, pb, pc, pd) && pb0 <= pb
    ensures Regions(a[..], lo, hi, pa, pb, pc, pd, a[lo], cmp)
    ensures pb <= pc ==> cmp(a[pb], a[lo]) > 0
  {
    ghost var v := a[lo];
    hide Regions, Rearranges, Swapped;
    pa, pb, swapped := pa0, pb0, swapped0;
    while pb <= pc && cmp(a[pb], a[lo]) <= 0
      invariant Rearranges(start, a[..], lo, hi)
      invariant Bounds(lo, hi, pa, pb, pc, pd) && pb0 <= pb
      invariant a[lo] == v && Regions(a[..], lo, hi, pa, pb, pc, pd, v, cmp)
      decreases pc + 1 - pb
    {
      ScanLeft(a[..], lo, hi, pa, pb, pc, pd, v, cmp);
      if cmp(a[pb], a[lo]) == 0 {
        swapped := true;
        Swap(a, pa, pb, lo, hi, start);
        pa := pa + 1;
      }
      pb := pb + 1;
      RegionsPivot(a[..], lo, hi, pa, pb, pc, pd, v, cmp);
    }
  }

  /** The scan from the right, down to the first element less than the pivot. */
  method ScanDown<T(!new)>(a: array<T>, lo: nat, hi: nat, pa: nat, pb: nat, pc0: nat, pd0: nat, swapped0: bool,
                           cmp: Comparator<T>, ghost start: seq<T>)
      returns (pc: nat, pd: nat, swapped: bool)
    requires hi <= a.Length && Bounds(lo, hi, pa, pb, pc0, pd0)
    requires Regions(a[..], lo, hi, pa, pb, pc0, pd0, a[lo], cmp)
    requires Rearranges(start, a[..], lo, hi)
    modifies a
    ensures a[lo] == old(a[lo]) && Rearranges(start, a[..], lo, hi)
    ensures Bounds(lo, hi, pa, pb, pc, pd) && pc <= pc0
    ensures Regions(a[..], lo, hi, pa, pb, pc, pd, a[lo], cmp)
    ensures pb <= pc ==> a[pb] == old(a[pb]) && cmp(a[pc], a[lo]) < 0
  {
    ghost var v := a[lo];
    hide Regions, Rearranges;
    pc, pd, swapped := pc0, pd0, swapped0;
    while pb <= pc && cmp(a[pc], a[lo]) >= 0
      invariant Rearranges(start, a[..], lo, hi)
      invariant Bounds(lo, hi, pa, pb, pc, pd) && pc <= pc0
      invariant a[lo] == v && Regions(a[..], lo, hi, pa, pb, pc, pd, v, cmp)
      invariant pb <= pc ==> a[pb] == old(a[pb])
      decreases pc + 1 - pb
    {
      ScanRight(a[..], lo, hi, pa, pb, pc, pd, v, cmp);
      if cmp(a[pc], a[lo]) == 0 {
        swapped := true;
        Swap(a, pc, pd, lo, hi, start);
        pd := pd - 1;
      }
      pc := pc - 1;
      RegionsPivot(a[..], lo, hi, pa, pb, pc, pd, v, cmp);
    }
  }

  lemma RegionsPivot<T>(s: seq<T>, lo: nat, hi: nat, pa: int, pb: int, pc: int, pd: int, v: T, cmp: Comparator<T>)
    requires Regions(s, lo, hi, pa, pb, pc, pd, v, cmp)
    ensures hi <= |s| && lo < |s| && s[lo] == v
  {
  }

  /** The scanning loop: equal elements are parked at both ends, the rest split around the pivot. */
  method Partition<T(!new)>(a: array<T>, lo: nat, hi: nat, cmp: Comparator<T>, ghost start: seq<T>)
      returns (pa: nat, pb: nat, pc: nat, pd: nat, swapped: bool)
    requires lo + 2 <= hi <= a.Length
    requires Rearranges(start, a[..], lo, hi)
    modifies a
    ensures Rearranges(start, a[..], lo, hi)
    ensures pb == pc + 1 && Bounds(lo, hi, pa, pb, pc, pd)
    ensures Regions(a[..], lo, hi, pa, pb, pc, pd, old(a[lo]), cmp)
  {
    ghost var v := a[lo];
    pa, pb, pc, pd := lo + 1, lo + 1, hi - 1, hi - 1;
    swapped := false;
    assert Regions(a[..], lo, hi, pa, pb, pc, pd, v, cmp);
    hide Regions, Rearranges, Swapped;
    while true
      invariant Rearranges(start, a[..], lo, hi)
      invariant Bounds(lo, hi, pa, pb, pc, pd)
      invariant a[lo] == v && Regions(a[..], lo, hi, pa, pb, pc, pd, v, cmp)
      decreases pc + 1 - pb
    {
      pa, pb, swapped := ScanUp(a, lo, hi, pa, pb, pc, pd, swapped, cmp, start);
      pc, pd, swapped := ScanDown(a, lo, hi, pa, pb, pc, pd, swapped, cmp, start);
      if pb > pc {
        return;
      }
      CrossSwap(a[..], lo, hi, pa, pb, pc, pd, v, cmp);
      Swap(a, pb, pc, lo, hi, start);
      swapped := true;
      pb := pb + 1;
      pc := pc - 1;
      RegionsPivot(a[..], lo, hi, pa, pb, pc, pd, v, cmp);
    }
  }

  /** The less, equal and greater elements around `v`, each gathered in one stretch. */
  ghost predicate Split<T>(s: seq<T>, lo: nat, less: nat, great: nat, hi: nat, v: T, cmp: Comparator<T>) {
    && lo <= less <= great <= hi <= |s|
    && (forall k :: lo <= k < less ==> cmp(s[k], v) < 0)
    && (forall k :: less <= k < great ==> cmp(s[k], v) == 0)
    && (forall k :: great <= k < hi ==> cmp(s[k], v) > 0)
  }

  /** The first block swap brings the lesser elements before the equal ones parked on the left. */
  lemma LeftBlockSwap<T>(s: seq<T>, t: seq<T>, lo: nat, pa: nat, pb: nat, r: nat, v: T, cmp: Comparator<T>)
    requires lo <= pa <= pb <= |s|
    requires r == (if pa - lo < pb - pa then pa - lo else pb - pa) && Exchanged(s, t, lo, pb - r, r)
    requires forall k :: lo <= k < pa ==> cmp(s[k], v) == 0
    requires forall k :: pa <= k < pb ==> cmp(s[k], v) < 0
    ensures |t| == |s| && forall k :: pb <= k < |s| ==> t[k] == s[k]
    ensures forall k :: lo <= k < lo + (pb - pa) ==> cmp(t[k], v) < 0
    ensures forall k :: lo + (pb - pa) <= k < pb ==> cmp(t[k], v) == 0
  {
  }

  /** The second brings the equal elements parked on the right before the greater ones. */
  lemma RightBlockSwap<T>(s: seq<T>, t: seq<T>, pb: nat, pd: nat, hi: nat, r: nat, v: T, cmp: Comparator<T>)
    requires pb <= pd <= hi <= |s|
    requires r == (if pd - pb < hi - pd then pd - pb else hi - pd) && Exchanged(s, t, pb, hi - r, r)
    requires forall k :: pb <= k < pd ==> cmp(s[k], v) > 0
    requires forall k :: pd <= k < hi ==> cmp(s[k], v) == 0
    ensures |t| == |s| && forall k :: 0 <= k < pb ==> t[k] == s[k]
    ensures forall k :: pb <= k < hi - (pd - pb) ==> cmp(t[k], v) == 0
    ensures forall k :: hi - (pd - pb) <= k < hi ==> cmp(t[k], v) > 0
  {
  }

  /** Both block swaps move the parked elements to the middle. */
  lemma BlockSwapsSplit<T(!new)>(
      s: seq<T>, t: seq<T>, u: seq<T>, lo: nat, hi: nat, pa: nat, pb: nat, pc: nat, pd: nat,
      r1: nat, r2: nat, v: T, cmp: Comparator<T>)
    requires TotalPreorder(cmp)
    requires pb == pc + 1 && Regions(s, lo, hi, pa, pb, pc, pd, v, cmp)
    requires r1 == (if pa - lo < pb - pa then pa - lo else pb - pa) && Exchanged(s, t, lo, pb - r1, r1)
    requires r2 == (if pd - pc < hi - 1 - pd then pd - pc else hi - 1 - pd) && Exchanged(t, u, pb, hi - r2, r2)
    ensures Split(u, lo, lo + (pb - pa), hi - (pd - pc), hi, v, cmp)
  {
    assert cmp(v, v) == 0;
    hide Exchanged, TotalPreorder;
    LeftBlockSwap(s, t, lo, pa, pb, r1, v, cmp);
    RightBlockSwap(t, u, pb, pd + 1, hi, r2, v, cmp);
  }

  /** Both block swaps of a partition that moved something. */
  method Gather<T(!new)>(a: array<T>, lo: nat, hi: nat, pa: nat, pb: nat, pc: nat, pd: nat, cmp: Comparator<T>,
                         ghost v: T, ghost start: seq<T>)
    requires hi <= a.Length && pb == pc + 1 && Bounds(lo, hi, pa, pb, pc, pd)
    requires Regions(a[..], lo, hi, pa, pb, pc, pd, v, cmp)
    requires Rearranges(start, a[..], lo, hi)
    modifies a
    ensures Rearranges(start, a[..], lo, hi)
    ensures TotalPreorder(cmp) ==> Split(a[..], lo, lo + (pb - pa), hi - (pd - pc), hi, v, cmp)
  {
    hide Regions, Rearranges, Exchanged, Split, TotalPreorder;
    ghost var s := a[..];
    var r1 := if pa - lo < pb - pa then pa - lo else pb - pa;
    VecSwap(a, lo, pb - r1, r1, lo, hi, start);
    ghost var t := a[..];
    var r2 := if pd - pc < hi - 1 - pd then pd - pc else hi - 1 - pd;
    VecSwap(a, pb, hi - r2, r2, lo, hi, start);
    if TotalPreorder(cmp) {
      BlockSwapsSplit(s, t, a[..], lo, hi, pa, pb, pc, pd, r1, r2, v, cmp);
    }
  }

  /** The pivot's index: the middle, a median of three, or a median of three such medians. */
  method ChoosePivot<T(!new)>(a: array<T>, lo: nat, n: nat, cmp: Comparator<T>) returns (pm: nat)
    requires 7 <= n && lo + n <= a.Length
    ensures lo <= pm < lo + n
  {
    hide *;
    pm := lo + n / 2;
    if n > 7 {
      var pl, pn := lo, lo + n - 1;
      if n > 40 {
        var d := n / 8;
        pl := Med3(a, pl, pl + d, pl + 2 * d, cmp);
        pm := Med3(a, pm - d, pm, pm + d, cmp);
        pn := Med3(a, pn - 2 * d, pn - d, pn, cmp);
      }
      pm := Med3(a, pl, pm, pn, cmp);
    }
  }

  /** Everything from `lo` to `base` is in its final place. */
  ghost predicate Settled<T>(s: seq<T>, lo: nat, base: nat, hi: nat, cmp: Comparator<T>) {
    lo <= base <= hi <= |s| && forall i, j :: lo <= i < base && i < j < hi ==> cmp(s[i], s[j]) <= 0
  }

  lemma SettledStays<T>(s: seq<T>, t: seq<T>, lo: nat, base: nat, hi: nat, cmp: Comparator<T>)
    requires Settled(s, lo, base, hi, cmp) && Rearranges(s, t, base, hi)
    ensures Settled(t, lo, base, hi, cmp)
  {
    assert forall i :: 0 <= i < base ==> t[..base][i] == s[..base][i];
    forall i, j | lo <= i < base && i < j < hi
      ensures cmp(t[i], t[j]) <= 0
    {
      if j >= base {
        RearrangesKeeps(s, t, base, hi, x => cmp(s[i], x) <= 0);
      }
    }
  }

  lemma SettledFinishes<T>(s: seq<T>, lo: nat, base: nat, hi: nat, cmp: Comparator<T>)
    requires Settled(s, lo, base, hi, cmp) && InOrder(s, base, hi, cmp)
    ensures InOrder(s, lo, hi, cmp)
  {
  }

  /** Sorting the lesser elements settles them and the ones equal to the pivot. */
  lemma SettledGrows<T(!new)>(
      s: seq<T>, t: seq<T>, lo: nat, base: nat, less: nat, great: nat, hi: nat, v: T, cmp: Comparator<T>)
    requires TotalPreorder(cmp)
    requires Settled(s, lo, base, hi, cmp)
    requires Split(s, base, less, great, hi, v, cmp)
    requires Rearranges(s, t, base, less) && InOrder(t, base, less, cmp)
    ensures Settled(t, lo, great, hi, cmp)
  {
    RearrangesWidens(s, t, base, less, base, hi);
    SettledStays(s, t, lo, base, hi, cmp);
    RearrangesKeeps(s, t, base, less, x => cmp(x, v) < 0);
    forall k | less <= k < hi
      ensures t[k] == s[k]
    {
      assert t[k] == t[less..][k - less];
    }
    forall i, j | base <= i < great && i < j < hi
      ensures cmp(t[i], t[j]) <= 0
    {
      if j >= less {
        assert cmp(t[i], v) <= 0 && cmp(v, t[j]) <= 0;
      }
    }
  }

  ghost predicate SplitAround<T(!new)>(s: seq<T>, lo: nat, less: nat, great: nat, hi: nat, cmp: Comparator<T>) {
    exists v :: Split(s, lo, less, great, hi, v, cmp)
  }

  /**
    One trip from the label `loop`: either the stretch is sorted outright, or it is split into
    less (up to `less`), equal (up to `great`) and greater elements.
   */
  method Pass<T(!new)>(a: array<T>, lo: nat, n: nat, cmp: Comparator<T>)
      returns (done: bool, less: nat, great: nat)
    requires lo + n <= a.Length
    modifies a
    ensures Rearranges(old(a[..]), a[..], lo, lo + n)
    ensures done && TotalPreorder(cmp) ==> InOrder(a[..], lo, lo + n, cmp)
    ensures !done ==> lo <= less <= great <= lo + n && less - lo < n && lo + n - great < n
    ensures !done && TotalPreorder(cmp) ==> SplitAround(a[..], lo, less, great, lo + n, cmp)
  {
    ghost var start := a[..];
    var hi := lo + n;
    assert Rearranges(start, start, lo, hi);
    hide Rearranges, Regions, Split, InOrder, TotalPreorder, Swapped;
    done, less, great := true, lo, hi;
    if n < 7 {
      InsertionSort(a, lo, hi, cmp, start);
      return;
    }
    var pm := ChoosePivot(a, lo, n, cmp);
    Swap(a, lo, pm, lo, hi, start);
    ghost var v := a[lo];
    var pa, pb, pc, pd, swapped := Partition(a, lo, hi, cmp, start);
    if !swapped {
      InsertionSort(a, lo, hi, cmp, start);
      return;
    }
    Gather(a, lo, hi, pa, pb, pc, pd, cmp, v, start);
    done, less, great := false, lo + (pb - pa), hi - (pd - pc);
  }

  /** What holds each time control is at the label `loop`. */
  ghost predicate Progress<T(!new)>(start: seq<T>, s: seq<T>, lo: nat, base: nat, hi: nat, cmp: Comparator<T>) {
    && lo <= base <= hi
    && Rearranges(start, s, lo, hi)
    && (TotalPreorder(cmp) ==> Settled(s, lo, base, hi, cmp))
  }

  lemma ProgressDone<T(!new)>(
      start: seq<T>, s: seq<T>, t: seq<T>, lo: nat, base: nat, hi: nat, cmp: Comparator<T>)
    requires Progress(start, s, lo, base, hi, cmp)
    requires Rearranges(s, t, base, hi)
    requires TotalPreorder(cmp) ==> InOrder(t, base, hi, cmp)
    ensures Rearranges(start, t, lo, hi)
    ensures TotalPreorder(cmp) ==> InOrder(t, lo, hi, cmp)
  {
    assert lo <= base <= hi <= |s| by {
      assert Rearranges(start, s, lo, hi);
    }
    hide Rearranges, Settled, InOrder, TotalPreorder;
    RearrangesWidens(s, t, base, hi, lo, hi);
    RearrangesTransitive(start, s, t, lo, hi);
    if TotalPreorder(cmp) {
      SettledStays(s, t, lo, base, hi, cmp);
      SettledFinishes(t, lo, base, hi, cmp);
    }
  }

  lemma ProgressStarts<T(!new)>(start: seq<T>, lo: nat, hi: nat, cmp: Comparator<T>)
    requires lo <= hi <= |start|
    ensures Progress(start, start, lo, lo, hi, cmp)
  {
  }

  lemma ProgressSplit<T(!new)>(
      start: seq<T>, s: seq<T>, t: seq<T>, u: seq<T>, lo: nat, base: nat, less: nat, great: nat, hi: nat,
      cmp: Comparator<T>)
    requires Progress(start, s, lo, base, hi, cmp)
    requires base <= less <= great <= hi
    requires Rearranges(s, t, base, hi) && Rearranges(t, u, base, less)
    requires TotalPreorder(cmp) ==> SplitAround(t, base, less, great, hi, cmp) && InOrder(u, base, less, cmp)
    ensures Progress(start, u, lo, great, hi, cmp)
  {
    assert |s| == |t| == |start| >= hi by {
      assert Rearranges(start, s, lo, hi) && Rearranges(s, t, base, hi);
    }
    hide Rearranges, Settled, InOrder, TotalPreorder, Split;
    RearrangesWidens(s, t, base, hi, lo, hi);
    RearrangesTransitive(start, s, t, lo, hi);
    RearrangesWidens(t, u, base, less, lo, hi);
    RearrangesTransitive(start, t, u, lo, hi);
    if TotalPreorder(cmp) {
      SettledStays(s, t, lo, base, hi, cmp);
      var v :| Split(t, base, less, great, hi, v, cmp);
      SettledGrows(t, u, lo, base, less, great, hi, v, cmp);
    }
  }

  /** A stretch of at most one element needs no call. */
  lemma ShortIsInOrder<T>(s: seq<T>, lo: nat, hi: nat, cmp: Comparator<T>)
    requires lo <= hi <= |s| && hi - lo <= 1
    ensures InOrder(s, lo, hi, cmp) && Rearranges(s, s, lo, hi)
  {
  }

  /** Sorts `n` elements from `lo`: for any comparator a rearrangement, for a total preorder in order. */
  method Sort<T(!new)>(a: array<T>, lo: nat, n: nat, cmp: Comparator<T>)
    requires lo + n <= a.Length
    modifies a
    ensures Rearranges(old(a[..]), a[..], lo, lo + n)
    ensures TotalPreorder(cmp) ==> InOrder(a[..], lo, lo + n, cmp)
    decreases n
  {
    hide *;
    var base, size := lo, n;
    ghost var start, hi := a[..], lo + n;
    ProgressStarts(start, lo, hi, cmp);
    while true
      invariant lo <= base && base + size == hi && 0 <= size <= n
      invariant Progress(start, a[..], lo, base, hi, cmp)
      decreases size
    {
      ghost var s := a[..];
      var done, less, great := Pass(a, base, size, cmp);
      ghost var t := a[..];
      if done {
        ProgressDone(start, s, t, lo, base, hi, cmp);
        return;
      }
      ShortIsInOrder(t, base, if less - base > 1 then base else less, cmp);
      if less - base > 1 {
        Sort(a, base, less - base, cmp);
      }
      ProgressSplit(start, s, t, a[..], lo, base, less, great, hi, cmp);
      if lo + n - great <= 1 {
        ShortIsInOrder(a[..], great, hi, cmp);
        ProgressDone(start, a[..], a[..], lo, great, hi, cmp);
        return;
      }
      base, size := great, lo + n - great;
    }
  }

  /** The whole array, as its caller asks for it. */
  method QsortR<T(!new)>(a: array<T>, cmp: Comparator<T>)
    modifies a
    ensures multiset(a[..]) == multiset(old(a[..]))
    ensures TotalPreorder(cmp) ==> forall i, j :: 0 <= i < j < a.Length ==> cmp(a[i], a[j]) <= 0
  {
    Sort(a, 0, a.Length, cmp);
    assert a[..] == a[..][0..a.Length];
    assert old(a[..]) == old(a[..])[0..a.Length];
  }
}
