/** The introsort behind qsort.c: three-way partition, insertion sort for short ranges, heapsort as the fallback. */
module Introsort {
  import opened Heapsort
  import Arith

  // ----- insertion sort of a short range -----

  /** s[lo..hi] is in order, except that the element at hole may belong further to the left. */
  ghost predicate SortedBut<T>(s: seq<T>, cmp: (T, T) -> int, lo: nat, hi: nat, hole: nat)
    requires hi <= |s|
  {
    forall i, j :: lo <= i < j < hi && j != hole ==> cmp(s[i], s[j]) <= 0
  }

  lemma InsertStart<T>(s: seq<T>, cmp: (T, T) -> int, lo: nat, pm: nat)
    requires pm < |s| && Sorted(s, cmp, lo, pm)
    ensures SortedBut(s, cmp, lo, pm + 1, pm)
  {}

  lemma InsertStep<T(!new)>(s: seq<T>, cmp: (T, T) -> int, lo: nat, hi: nat, pl: nat)
    requires Consistent(cmp) && lo < pl < hi <= |s| && SortedBut(s, cmp, lo, hi, pl)
    requires cmp(s[pl - 1], s[pl]) > 0
    ensures SortedBut(Swapped(s, pl, pl - 1), cmp, lo, hi, pl - 1)
  {}

  lemma InsertDone<T(!new)>(s: seq<T>, cmp: (T, T) -> int, lo: nat, hi: nat, pl: nat)
    requires Consistent(cmp) && lo <= pl < hi <= |s| && SortedBut(s, cmp, lo, hi, pl)
    requires pl == lo || cmp(s[pl - 1], s[pl]) <= 0
    ensures Sorted(s, cmp, lo, hi)
  {
    forall i, j | lo <= i < j < hi
      ensures cmp(s[i], s[j]) <= 0
    {
      if j == pl && i < pl - 1 {
        assert cmp(s[i], s[pl - 1]) <= 0;
      }
    }
  }

  /** Moves the element at pm back to its place in the sorted range before it. */
  method Insert<T(!new)>(a: array<T>, cmp: (T, T) -> int, lo: nat, pm: nat, ghost hi: nat)
    requires Consistent(cmp) && lo <= pm < hi <= a.Length && Sorted(a[..], cmp, lo, pm)
    modifies a
    ensures Sorted(a[..], cmp, lo, pm + 1) && Rearranged(old(a[..]), a[..], lo, hi)
  {
    hide *;
    ghost var s0 := a[..];
    SelfRearranged(s0, lo, hi);
    InsertStart(s0, cmp, lo, pm);
    var pl := pm;
    while pl > lo && cmp(a[pl - 1], a[pl]) > 0
      invariant lo <= pl <= pm && SortedBut(a[..], cmp, lo, pm + 1, pl) && Rearranged(s0, a[..], lo, hi)
    {
      ghost var s := a[..];
      InsertStep(s, cmp, lo, pm + 1, pl);
      Swap(a, pl, pl - 1, lo, hi);
      RearrangedTrans(s0, s, a[..], lo, hi);
      pl := pl - 1;
    }
    InsertDone(a[..], cmp, lo, pm + 1, pl);
  }

  lemma ShortSorted<T>(s: seq<T>, cmp: (T, T) -> int, lo: nat, hi: nat)
    requires hi <= |s| && hi <= lo + 1
    ensures Sorted(s, cmp, lo, hi)
  {}

  method InsertionSort<T(!new)>(a: array<T>, cmp: (T, T) -> int, lo: nat, n: nat)
    requires Consistent(cmp) && lo + n <= a.Length
    modifies a
    ensures Sorted(a[..], cmp, lo, lo + n) && Rearranged(old(a[..]), a[..], lo, lo + n)
  {
    hide *;
    ghost var s0 := a[..];
    SelfRearranged(s0, lo, lo + n);
    ShortSorted(s0, cmp, lo, lo);
    if n == 0 {
      return;
    }
    var pm := lo + 1;
    ShortSorted(s0, cmp, lo, pm);
    while pm < lo + n
      invariant lo < pm <= lo + n && Sorted(a[..], cmp, lo, pm) && Rearranged(s0, a[..], lo, lo + n)
    {
      ghost var s := a[..];
      Insert(a, cmp, lo, pm, lo + n);
      RearrangedTrans(s0, s, a[..], lo, lo + n);
      pm := pm + 1;
    }
  }

  // ----- the pivot -----

  function Med3<T(!new)>(s: seq<T>, cmp: (T, T) -> int, a: nat, b: nat, c: nat): (m: nat)
    requires a < |s| && b < |s| && c < |s|
    ensures m == a || m == b || m == c
  {
    if cmp(s[a], s[b]) < 0
      then (if cmp(s[b], s[c]) < 0 then b else if cmp(s[a], s[c]) < 0 then c else a)
      else (if cmp(s[b], s[c]) > 0 then b else if cmp(s[a], s[c]) < 0 then a else c)
  }

  predicate Between<T>(cmp: (T, T) -> int, x: T, m: T, y: T) {
    (cmp(x, m) <= 0 && cmp(m, y) <= 0) || (cmp(y, m) <= 0 && cmp(m, x) <= 0)
  }

  /** Of three positions, Med3 names one whose element lies between the other two. */
  lemma Med3IsMedian<T(!new)>(s: seq<T>, cmp: (T, T) -> int, a: nat, b: nat, c: nat)
    requires Consistent(cmp) && a < |s| && b < |s| && c < |s|
    ensures var m := Med3(s, cmp, a, b, c);
      || (m == a && Between(cmp, s[b], s[m], s[c]))
      || (m == b && Between(cmp, s[a], s[m], s[c]))
      || (m == c && Between(cmp, s[a], s[m], s[b]))
  {
    var x, y, z := s[a], s[b], s[c];
    assert cmp(x, y) < 0 <==> cmp(y, x) > 0;
    assert cmp(y, z) < 0 <==> cmp(z, y) > 0;
    assert cmp(x, z) < 0 <==> cmp(z, x) > 0;
  }

  /** The middle element, the median of three, or the pseudo-median of nine. */
  function Pivot<T(!new)>(s: seq<T>, cmp: (T, T) -> int, lo: nat, n: nat): (m: nat)
    requires 1 <= n && lo + n <= |s|
    ensures lo <= m < lo + n
  {
    var mid := lo + n / 2;
    var last := lo + n - 1;
    if n <= 7 then mid
    else if n <= 40 then Med3(s, cmp, lo, mid, last)
    else
      var d := n / 8;
      Med3(s, cmp,
        Med3(s, cmp, lo, lo + d, lo + 2 * d),
        Med3(s, cmp, mid - d, mid, mid + d),
        Med3(s, cmp, last - 2 * d, last - d, last))
  }

  /** In a range of more than seven the pivot is the median of three different places. */
  lemma PivotOfThree<T(!new)>(s: seq<T>, cmp: (T, T) -> int, lo: nat, n: nat) returns (x: nat, y: nat, z: nat)
    requires 7 < n && lo + n <= |s|
    ensures lo <= x < y < z < lo + n && Pivot(s, cmp, lo, n) == Med3(s, cmp, x, y, z)
  {
    hide Med3;
    var mid, last, d := lo + n / 2, lo + n - 1, n / 8;
    x, y, z := lo, mid, last;
    if n > 40 {
      assert lo + 2 * d < mid - d && mid + d < last - 2 * d;
      x, y, z := Med3(s, cmp, lo, lo + d, lo + 2 * d), Med3(s, cmp, mid - d, mid, mid + d), Med3(s, cmp, last - 2 * d, last - d, last);
    }
  }

  /** So it lies between the elements of two others. */
  lemma PivotInside<T(!new)>(s: seq<T>, cmp: (T, T) -> int, lo: nat, n: nat) returns (i: nat, j: nat)
    requires Consistent(cmp) && 7 < n && lo + n <= |s|
    ensures var m := Pivot(s, cmp, lo, n);
      && lo <= i < lo + n && lo <= j < lo + n && i != m && j != m && i != j
      && cmp(s[i], s[m]) <= 0 && cmp(s[m], s[j]) <= 0
  {
    hide Consistent, Med3, Pivot;
    var x, y, z := PivotOfThree(s, cmp, lo, n);
    var m := Med3(s, cmp, x, y, z);
    Med3IsMedian(s, cmp, x, y, z);
    i, j := if m == x then y else x, if m == z then y else z;
    if cmp(s[i], s[m]) > 0 || cmp(s[m], s[j]) > 0 {
      i, j := j, i;
    }
  }

  // ----- the three-way partition -----

  function Sign(c: int): int {
    if c < 0 then -1 else if c > 0 then 1 else 0
  }

  /** Every element of s[lo..hi] compares with v as sgn says. */
  ghost predicate Side<T>(s: seq<T>, cmp: (T, T) -> int, v: T, lo: nat, hi: nat, sgn: int)
    requires hi <= |s|
  {
    forall i :: lo <= i < hi ==> Sign(cmp(s[i], v)) == sgn
  }

  /** The zones of the scan: equal, less, not yet seen, greater, equal. */
  ghost predicate Zones<T>(s: seq<T>, cmp: (T, T) -> int, v: T, lo: nat, pa: nat, pb: nat, pc: nat, pd: nat, hi: nat) {
    && lo < pa <= pb <= pc + 1 <= pd + 1 <= hi <= |s| && s[lo] == v
    && Side(s, cmp, v, lo, pa, 0) && Side(s, cmp, v, pa, pb, -1)
    && Side(s, cmp, v, pc + 1, pd + 1, 1) && Side(s, cmp, v, pd + 1, hi, 0)
  }

  lemma LeftEqual<T>(s: seq<T>, cmp: (T, T) -> int, v: T, lo: nat, pa: nat, pb: nat, pc: nat, pd: nat, hi: nat)
    requires Zones(s, cmp, v, lo, pa, pb, pc, pd, hi) && pb <= pc && cmp(s[pb], v) == 0
    ensures Zones(Swapped(s, pa, pb), cmp, v, lo, pa + 1, pb + 1, pc, pd, hi)
  {}

  lemma LeftLess<T>(s: seq<T>, cmp: (T, T) -> int, v: T, lo: nat, pa: nat, pb: nat, pc: nat, pd: nat, hi: nat)
    requires Zones(s, cmp, v, lo, pa, pb, pc, pd, hi) && pb <= pc && cmp(s[pb], v) < 0
    ensures Zones(s, cmp, v, lo, pa, pb + 1, pc, pd, hi)
  {}

  lemma RightEqual<T>(s: seq<T>, cmp: (T, T) -> int, v: T, lo: nat, pa: nat, pb: nat, pc: nat, pd: nat, hi: nat)
    requires Zones(s, cmp, v, lo, pa, pb, pc, pd, hi) && pb <= pc && cmp(s[pc], v) == 0
    ensures Zones(Swapped(s, pc, pd), cmp, v, lo, pa, pb, pc - 1, pd - 1, hi)
  {}

  lemma RightGreater<T>(s: seq<T>, cmp: (T, T) -> int, v: T, lo: nat, pa: nat, pb: nat, pc: nat, pd: nat, hi: nat)
    requires Zones(s, cmp, v, lo, pa, pb, pc, pd, hi) && pb <= pc && cmp(s[pc], v) > 0
    ensures Zones(s, cmp, v, lo, pa, pb, pc - 1, pd, hi)
  {}

  lemma Crossed<T>(s: seq<T>, cmp: (T, T) -> int, v: T, lo: nat, pa: nat, pb: nat, pc: nat, pd: nat, hi: nat)
    requires Zones(s, cmp, v, lo, pa, pb, pc, pd, hi) && pb < pc && cmp(s[pb], v) > 0 && cmp(s[pc], v) < 0
    ensures Zones(Swapped(s, pb, pc), cmp, v, lo, pa, pb + 1, pc - 1, pd, hi)
  {}

  lemma ZoneBounds<T>(s: seq<T>, cmp: (T, T) -> int, v: T, lo: nat, pa: nat, pb: nat, pc: nat, pd: nat, hi: nat)
    requires Zones(s, cmp, v, lo, pa, pb, pc, pd, hi)
    ensures lo < pa <= pb <= pc + 1 <= pd + 1 <= hi <= |s| && s[lo] == v
  {}

  /** The scan from the left: stops at an element greater than the pivot, or where the scans meet. */
  method ScanLeft<T(!new)>(a: array<T>, cmp: (T, T) -> int, ghost v: T, lo: nat, pa0: nat, pb0: nat, pc: nat,
                           ghost pd: nat, ghost hi: nat) returns (pa: nat, pb: nat)
    requires Zones(a[..], cmp, v, lo, pa0, pb0, pc, pd, hi)
    modifies a
    ensures Zones(a[..], cmp, v, lo, pa, pb, pc, pd, hi) && Rearranged(old(a[..]), a[..], lo, hi)
    ensures pb <= pc ==> cmp(a[pb], v) > 0
    ensures pb >= pb0
  {
    ghost var s0 := a[..];
    ZoneBounds(s0, cmp, v, lo, pa0, pb0, pc, pd, hi);
    SelfRearranged(s0, lo, hi);
    hide Zones, Rearranged, Swapped;
    pa, pb := pa0, pb0;
    while pb <= pc && cmp(a[pb], a[lo]) <= 0
      invariant Zones(a[..], cmp, v, lo, pa, pb, pc, pd, hi) && Rearranged(s0, a[..], lo, hi)
      invariant lo < pa <= pb <= pc + 1 <= hi && a[lo] == v && pb0 <= pb
    {
      ghost var s := a[..];
      if cmp(a[pb], a[lo]) == 0 {
        LeftEqual(s, cmp, v, lo, pa, pb, pc, pd, hi);
        Swap(a, pa, pb, lo, hi);
        RearrangedTrans(s0, s, a[..], lo, hi);
        pa := pa + 1;
      } else {
        LeftLess(s, cmp, v, lo, pa, pb, pc, pd, hi);
      }
      pb := pb + 1;
      ZoneBounds(a[..], cmp, v, lo, pa, pb, pc, pd, hi);
      assert a[..][lo] == a[lo];
    }
  }

  /** The scan from the right: stops at an element less than the pivot, or where the scans meet. */
  method ScanRight<T(!new)>(a: array<T>, cmp: (T, T) -> int, ghost v: T, lo: nat, ghost pa: nat, pb: nat, pc0: nat,
                            pd0: nat, ghost hi: nat) returns (pc: nat, pd: nat)
    requires Zones(a[..], cmp, v, lo, pa, pb, pc0, pd0, hi)
    modifies a
    ensures Zones(a[..], cmp, v, lo, pa, pb, pc, pd, hi) && Rearranged(old(a[..]), a[..], lo, hi)
    ensures pb <= pc ==> cmp(a[pc], v) < 0 && a[pb] == old(a[pb])
    ensures pc <= pc0
  {
    ghost var s0 := a[..];
    ZoneBounds(s0, cmp, v, lo, pa, pb, pc0, pd0, hi);
    SelfRearranged(s0, lo, hi);
    hide Zones, Rearranged;
    pc, pd := pc0, pd0;
    while pb <= pc && cmp(a[pc], a[lo]) >= 0
      invariant Zones(a[..], cmp, v, lo, pa, pb, pc, pd, hi) && Rearranged(s0, a[..], lo, hi)
      invariant lo < pb <= pc + 1 <= pd + 1 <= hi && a[lo] == v && pc <= pc0
      invariant pb <= pc ==> a[pb] == s0[pb]
      decreases pc
    {
      ghost var s := a[..];
      if cmp(a[pc], a[lo]) == 0 {
        RightEqual(s, cmp, v, lo, pa, pb, pc, pd, hi);
        Swap(a, pc, pd, lo, hi);
        RearrangedTrans(s0, s, a[..], lo, hi);
        assert a[..][pb] == a[pb];
        pd := pd - 1;
      } else {
        RightGreater(s, cmp, v, lo, pa, pb, pc, pd, hi);
      }
      pc := pc - 1;
      ZoneBounds(a[..], cmp, v, lo, pa, pb, pc, pd, hi);
      assert a[..][lo] == a[lo];
    }
  }

  lemma ScanStart<T(!new)>(s: seq<T>, cmp: (T, T) -> int, v: T, lo: nat, n: nat)
    requires Consistent(cmp) && 2 <= n && lo + n <= |s| && s[lo] == v
    ensures Zones(s, cmp, v, lo, lo + 1, lo + 1, lo + n - 1, lo + n - 1, lo + n)
  {}

  /** One scan from either side. */
  method ScanBoth<T(!new)>(a: array<T>, cmp: (T, T) -> int, ghost v: T, lo: nat, pa0: nat, pb0: nat, pc0: nat, pd0: nat,
                           ghost hi: nat) returns (pa: nat, pb: nat, pc: nat, pd: nat)
    requires Consistent(cmp) && Zones(a[..], cmp, v, lo, pa0, pb0, pc0, pd0, hi)
    modifies a
    ensures Zones(a[..], cmp, v, lo, pa, pb, pc, pd, hi) && Rearranged(old(a[..]), a[..], lo, hi)
    ensures lo < pb <= pc + 1 <= hi <= a.Length && pb >= pb0 && pc <= pc0
    ensures pb <= pc ==> pb < pc && cmp(a[pb], v) > 0 && cmp(a[pc], v) < 0
  {
    hide *;
    ghost var s1 := a[..];
    pa, pb := ScanLeft(a, cmp, v, lo, pa0, pb0, pc0, pd0, hi);
    ghost var s2 := a[..];
    ZoneBounds(s2, cmp, v, lo, pa, pb, pc0, pd0, hi);
    pc, pd := ScanRight(a, cmp, v, lo, pa, pb, pc0, pd0, hi);
    RearrangedTrans(s1, s2, a[..], lo, hi);
    ZoneBounds(a[..], cmp, v, lo, pa, pb, pc, pd, hi);
  }

  /** The two scans and the exchange of the elements they stop at. */
  method Scan<T(!new)>(a: array<T>, cmp: (T, T) -> int, ghost v: T, lo: nat, n: nat)
    returns (pa: nat, pb: nat, pc: nat, pd: nat)
    requires Consistent(cmp) && 2 <= n && lo + n <= a.Length && a[lo] == v
    modifies a
    ensures Zones(a[..], cmp, v, lo, pa, pb, pc, pd, lo + n) && pb == pc + 1
    ensures Rearranged(old(a[..]), a[..], lo, lo + n)
  {
    hide *;
    ghost var s0 := a[..];
    ghost var hi := lo + n;
    SelfRearranged(s0, lo, hi);
    pa, pb, pc, pd := lo + 1, lo + 1, lo + n - 1, lo + n - 1;
    ScanStart(s0, cmp, v, lo, n);
    while true
      invariant Zones(a[..], cmp, v, lo, pa, pb, pc, pd, hi) && Rearranged(s0, a[..], lo, hi)
      decreases pc + 1 - pb
    {
      ghost var s1 := a[..];
      pa, pb, pc, pd := ScanBoth(a, cmp, v, lo, pa, pb, pc, pd, hi);
      ghost var s2 := a[..];
      RearrangedTrans(s0, s1, s2, lo, hi);
      if pb > pc {
        return;
      }
      Crossed(s2, cmp, v, lo, pa, pb, pc, pd, hi);
      Swap(a, pb, pc, lo, hi);
      RearrangedTrans(s0, s2, a[..], lo, hi);
      pb := pb + 1;
      pc := pc - 1;
    }
  }

  // ----- exchanging two blocks -----

  /** s with the r elements from i on and the r elements from j on exchanged. */
  function BlockSwapped<T>(s: seq<T>, i: nat, j: nat, r: nat): (t: seq<T>)
    requires i + r <= j && j + r <= |s|
    ensures |t| == |s|
  {
    s[..i] + s[j..j + r] + s[i + r..j] + s[i..i + r] + s[j + r..]
  }

  lemma BlockItem<T>(s: seq<T>, i: nat, j: nat, r: nat, k: nat)
    requires i + r <= j && j + r <= |s| && k < |s|
    ensures BlockSwapped(s, i, j, r)[k] ==
      if i <= k < i + r then s[k + (j - i)] else if j <= k < j + r then s[k - (j - i)] else s[k]
  {}

  lemma BlockStep<T>(s: seq<T>, i: nat, j: nat, k: nat)
    requires i + k < j && j + k < |s|
    ensures Swapped(BlockSwapped(s, i, j, k), i + k, j + k) == BlockSwapped(s, i, j, k + 1)
  {
    hide BlockSwapped;
    var t, u := BlockSwapped(s, i, j, k), BlockSwapped(s, i, j, k + 1);
    BlockItem(s, i, j, k, i + k);
    BlockItem(s, i, j, k, j + k);
    forall x: nat | x < |s|
      ensures Swapped(t, i + k, j + k)[x] == u[x]
    {
      BlockItem(s, i, j, k, x);
      BlockItem(s, i, j, k + 1, x);
    }
  }

  lemma BlockStart<T>(s: seq<T>, i: nat, j: nat)
    requires i <= j <= |s|
    ensures BlockSwapped(s, i, j, 0) == s
  {}

  lemma {:induction false} BlockRearranges<T>(s: seq<T>, i: nat, j: nat, k: nat, lo: nat, hi: nat)
    requires lo <= i && i + k <= j && j + k <= hi <= |s|
    ensures Rearranged(s, BlockSwapped(s, i, j, k), lo, hi)
  {
    hide *;
    if k == 0 {
      BlockStart(s, i, j);
      SelfRearranged(s, lo, hi);
    } else {
      var t := BlockSwapped(s, i, j, k - 1);
      BlockRearranges(s, i, j, k - 1, lo, hi);
      BlockStep(s, i, j, k - 1);
      SwapRearranges(t, lo, hi, i + (k - 1), j + (k - 1));
      RearrangedTrans(s, t, BlockSwapped(s, i, j, k), lo, hi);
    }
  }

  /** vecswap: exchanges two blocks element by element. */
  method VecSwap<T>(a: array<T>, i: nat, j: nat, r: nat, ghost lo: nat, ghost hi: nat)
    requires lo <= i && i + r <= j && j + r <= hi <= a.Length
    modifies a
    ensures a[..] == BlockSwapped(old(a[..]), i, j, r)
    ensures Rearranged(old(a[..]), a[..], lo, hi)
  {
    hide *;
    ghost var s0 := a[..];
    BlockStart(s0, i, j);
    BlockRearranges(s0, i, j, r, lo, hi);
    var k := 0;
    while k < r
      invariant 0 <= k <= r && a[..] == BlockSwapped(s0, i, j, k)
    {
      BlockStep(s0, i, j, k);
      Swap(a, i + k, j + k, lo, hi);
      k := k + 1;
    }
  }

  /** Exchanging as many elements as the shorter of two adjacent blocks has puts the blocks in the other order. */
  lemma BlocksTrade<T>(s: seq<T>, cmp: (T, T) -> int, v: T, l: nat, m: nat, h: nat, x: int, y: int)
    requires l <= m <= h <= |s| && Side(s, cmp, v, l, m, x) && Side(s, cmp, v, m, h, y)
    ensures var r := if m - l < h - m then m - l else h - m;
      var t := BlockSwapped(s, l, h - r, r);
      && Side(t, cmp, v, l, l + (h - m), y) && Side(t, cmp, v, l + (h - m), h, x)
      && forall k: nat :: k < |s| && !(l <= k < h) ==> t[k] == s[k]
  {
    hide BlockSwapped;
    var r := if m - l < h - m then m - l else h - m;
    var t := BlockSwapped(s, l, h - r, r);
    forall k: nat | k < |s|
      ensures k < l || h <= k ==> t[k] == s[k]
      ensures l <= k < l + (h - m) ==> Sign(cmp(t[k], v)) == y
      ensures l + (h - m) <= k < h ==> Sign(cmp(t[k], v)) == x
    {
      BlockItem(s, l, h - r, r, k);
    }
  }

  method Exchange<T(!new)>(a: array<T>, ghost cmp: (T, T) -> int, ghost v: T, l: nat, m: nat, h: nat,
                           ghost x: int, ghost y: int, ghost lo: nat, ghost hi: nat)
    requires lo <= l <= m <= h <= hi <= a.Length
    requires Side(a[..], cmp, v, l, m, x) && Side(a[..], cmp, v, m, h, y)
    modifies a
    ensures Side(a[..], cmp, v, l, l + (h - m), y) && Side(a[..], cmp, v, l + (h - m), h, x)
    ensures forall k: nat :: k < a.Length && !(l <= k < h) ==> a[..][k] == old(a[..])[k]
    ensures Rearranged(old(a[..]), a[..], lo, hi)
  {
    hide Rearranged, Side, BlockSwapped;
    BlocksTrade(a[..], cmp, v, l, m, h, x, y);
    var r := if m - l < h - m then m - l else h - m;
    VecSwap(a, l, h - r, r, lo, hi);
  }

  /** s[lo..hi] in three parts: less than v, equal to v, greater than v. */
  ghost predicate Parted<T>(s: seq<T>, cmp: (T, T) -> int, v: T, lo: nat, p: nat, q: nat, hi: nat) {
    && lo <= p < q <= hi <= |s|
    && Side(s, cmp, v, lo, p, -1) && Side(s, cmp, v, p, q, 0) && Side(s, cmp, v, q, hi, 1)
  }

  /** The two block exchanges that bring the equal elements to the middle. */
  method Gather<T(!new)>(a: array<T>, ghost cmp: (T, T) -> int, ghost v: T, lo: nat, pa: nat, pb: nat, pd: nat, hi: nat)
    requires 1 <= pb && Zones(a[..], cmp, v, lo, pa, pb, pb - 1, pd, hi)
    modifies a
    ensures Parted(a[..], cmp, v, lo, lo + (pb - pa), hi - (pd - (pb - 1)), hi)
    ensures Rearranged(old(a[..]), a[..], lo, hi)
  {
    hide Rearranged, Side;
    ghost var s2 := a[..];
    Exchange(a, cmp, v, lo, pa, pb, 0, -1, lo, hi);
    ghost var s3 := a[..];
    SideKept(s2, s3, cmp, v, pb, pd + 1, 1);
    SideKept(s2, s3, cmp, v, pd + 1, hi, 0);
    Exchange(a, cmp, v, pb, pd + 1, hi, 1, 0, lo, hi);
    ghost var s4 := a[..];
    SideKept(s3, s4, cmp, v, lo, lo + (pb - pa), -1);
    SideKept(s3, s4, cmp, v, lo + (pb - pa), pb, 0);
    SideJoin(s4, cmp, v, lo + (pb - pa), pb, hi - (pd - (pb - 1)), 0);
    RearrangedTrans(s2, s3, s4, lo, hi);
  }

  /** Brings the pivot to the start of the range. */
  method PivotFirst<T(!new)>(a: array<T>, cmp: (T, T) -> int, lo: nat, n: nat) returns (ghost v: T)
    requires 1 <= n && lo + n <= a.Length
    modifies a
    ensures a[lo] == v == old(a[..])[Pivot(old(a[..]), cmp, lo, n)] && Rearranged(old(a[..]), a[..], lo, lo + n)
  {
    hide *;
    var pm := Pivot(a[..], cmp, lo, n);
    v := a[pm];
    SwappedFirst(a[..], lo, pm);
    Swap(a, lo, pm, lo, lo + n);
    assert a[..][lo] == a[lo];
  }

  /** The partition of a range: r elements less than a pivot at its start, s greater ones at its end. */
  method Partition<T(!new)>(a: array<T>, cmp: (T, T) -> int, lo: nat, n: nat) returns (r: nat, s: nat, ghost v: T)
    requires Consistent(cmp) && 7 <= n && lo + n <= a.Length
    modifies a
    ensures r + s < n && Parted(a[..], cmp, v, lo, lo + r, lo + n - s, lo + n)
    ensures Rearranged(old(a[..]), a[..], lo, lo + n) && v == old(a[..])[Pivot(old(a[..]), cmp, lo, n)]
  {
    hide *;
    ghost var s0 := a[..];
    v := PivotFirst(a, cmp, lo, n);
    ghost var s1 := a[..];
    var pa, pb, pc, pd := Scan(a, cmp, v, lo, n);
    ghost var s2 := a[..];
    ZoneBounds(s2, cmp, v, lo, pa, pb, pc, pd, lo + n);
    Gather(a, cmp, v, lo, pa, pb, pd, lo + n);
    ghost var s3 := a[..];
    r, s := pb - pa, pd - pc;
    RearrangedTrans(s0, s1, s2, lo, lo + n);
    RearrangedTrans(s0, s2, s3, lo, lo + n);
  }

  lemma SwappedFirst<T>(s: seq<T>, i: nat, j: nat)
    requires i < |s| && j < |s|
    ensures Swapped(s, i, j)[i] == s[j]
  {}

  lemma SideKept<T>(s: seq<T>, t: seq<T>, cmp: (T, T) -> int, v: T, lo: nat, hi: nat, sgn: int)
    requires hi <= |s| == |t| && Side(s, cmp, v, lo, hi, sgn)
    requires forall i :: lo <= i < hi ==> t[i] == s[i]
    ensures Side(t, cmp, v, lo, hi, sgn)
  {}

  lemma SideJoin<T>(s: seq<T>, cmp: (T, T) -> int, v: T, lo: nat, mid: nat, hi: nat, sgn: int)
    requires mid <= hi <= |s| && Side(s, cmp, v, lo, mid, sgn) && Side(s, cmp, v, mid, hi, sgn)
    ensures Side(s, cmp, v, lo, hi, sgn)
  {}

  lemma SideShuffled<T>(s: seq<T>, t: seq<T>, cmp: (T, T) -> int, v: T, lo: nat, hi: nat, sgn: int)
    requires Rearranged(s, t, lo, hi) && Side(s, cmp, v, lo, hi, sgn)
    ensures Side(t, cmp, v, lo, hi, sgn)
  {
    forall i | lo <= i < hi
      ensures Sign(cmp(t[i], v)) == sgn
    {
      var j := FromRange(s, t, lo, hi, i);
    }
  }

  /** Sorting the left part, or the right part, keeps a partition. */
  lemma PartedKept<T>(s: seq<T>, t: seq<T>, cmp: (T, T) -> int, v: T, lo: nat, p: nat, q: nat, hi: nat)
    requires Parted(s, cmp, v, lo, p, q, hi) && (Rearranged(s, t, lo, p) || Rearranged(s, t, q, hi))
    ensures Parted(t, cmp, v, lo, p, q, hi)
  {
    hide Side;
    if Rearranged(s, t, lo, p) {
      SideShuffled(s, t, cmp, v, lo, p, -1);
      SideKept(s, t, cmp, v, q, hi, 1);
    } else {
      SideKept(s, t, cmp, v, lo, p, -1);
      SideShuffled(s, t, cmp, v, q, hi, 1);
    }
    SideKept(s, t, cmp, v, p, q, 0);
  }

  // ----- what is left to sort -----

  /** Every two elements of s[lo..hi] are in order, unless both lie in s[l..h]. */
  ghost predicate Rest<T>(s: seq<T>, cmp: (T, T) -> int, lo: nat, hi: nat, l: nat, h: nat) {
    && lo <= l <= h <= hi <= |s|
    && forall i, j :: lo <= i < j < hi && !(l <= i && j < h) ==> cmp(s[i], s[j]) <= 0
  }

  lemma RestKept<T>(s: seq<T>, t: seq<T>, cmp: (T, T) -> int, lo: nat, hi: nat, l: nat, h: nat)
    requires Rest(s, cmp, lo, hi, l, h) && Rearranged(s, t, l, h)
    ensures Rest(t, cmp, lo, hi, l, h)
  {
    forall i, j | lo <= i < j < hi && !(l <= i && j < h)
      ensures cmp(t[i], t[j]) <= 0
    {
      if l <= i < h {
        var k := FromRange(s, t, l, h, i);
      } else if l <= j < h {
        var k := FromRange(s, t, l, h, j);
      }
    }
  }

  lemma RestDone<T>(s: seq<T>, cmp: (T, T) -> int, lo: nat, hi: nat, l: nat, h: nat)
    requires Rest(s, cmp, lo, hi, l, h) && Sorted(s, cmp, l, h)
    ensures Sorted(s, cmp, lo, hi)
  {}

  /** In a partition, elements of different parts are in order, and so are the equal ones. */
  lemma PartedOrder<T(!new)>(s: seq<T>, cmp: (T, T) -> int, v: T, lo: nat, p: nat, q: nat, hi: nat, i: nat, j: nat)
    requires Consistent(cmp) && Parted(s, cmp, v, lo, p, q, hi)
    requires lo <= i < j < hi && j >= p && i < q
    ensures cmp(s[i], s[j]) <= 0
  {
    assert cmp(s[i], v) <= 0 && cmp(s[j], v) >= 0;
  }

  /** With the left part of a partition in order, only the right part is left to sort. */
  lemma LeftSorted<T(!new)>(s: seq<T>, cmp: (T, T) -> int, v: T, lo: nat, hi: nat, l: nat, p: nat, q: nat, h: nat)
    requires Consistent(cmp) && Rest(s, cmp, lo, hi, l, h) && Parted(s, cmp, v, l, p, q, h) && Sorted(s, cmp, l, p)
    ensures Rest(s, cmp, lo, hi, q, h)
  {
    forall i, j | lo <= i < j < hi && !(q <= i && j < h)
      ensures cmp(s[i], s[j]) <= 0
    {
      if l <= i && j < h && j >= p {
        PartedOrder(s, cmp, v, l, p, q, h, i, j);
      }
    }
  }

  /** With the right part in order, only the left part is. */
  lemma RightSorted<T(!new)>(s: seq<T>, cmp: (T, T) -> int, v: T, lo: nat, hi: nat, l: nat, p: nat, q: nat, h: nat)
    requires Consistent(cmp) && Rest(s, cmp, lo, hi, l, h) && Parted(s, cmp, v, l, p, q, h) && Sorted(s, cmp, q, h)
    ensures Rest(s, cmp, lo, hi, l, p)
  {
    forall i, j | lo <= i < j < hi && !(l <= i && j < p)
      ensures cmp(s[i], s[j]) <= 0
    {
      if l <= i < q && j < h && j >= p {
        PartedOrder(s, cmp, v, l, p, q, h, i, j);
      }
    }
  }

  // ----- the nesting of calls -----

  /** The logarithm of n to base 2, rounded down. */
  function Lg(n: nat): nat {
    if n <= 1 then 0 else 1 + Lg(n / 2)
  }

  lemma {:induction false} LgMonotone(m: nat, n: nat)
    requires m <= n
    ensures Lg(m) <= Lg(n)
  {
    if m > 1 {
      LgMonotone(m / 2, n / 2);
    }
  }

  /** The smaller of two parts that leave out an element has a smaller logarithm. */
  lemma SmallerHalf(r: nat, s: nat, n: nat)
    requires r <= s && r + s < n && 1 < r
    ensures 1 + Lg(r) <= Lg(n)
  {
    LgMonotone(r, n / 2);
  }

  // ----- the work of the rounds -----

  /** Heapsort gets the buffer it asks for, whatever range it is to sort. */
  ghost predicate Provided(memory: (nat, nat) -> bool) {
    forall l: nat, m: nat :: memory(l, m)
  }

  lemma Granted(memory: (nat, nat) -> bool, l: nat, m: nat)
    ensures Provided(memory) ==> memory(l, m)
  {}

  /** With m elements left and d levels to go, what was spent leaves enough of the total. */
  ghost predicate InBudget(memory: (nat, nat) -> bool, work: nat, m: nat, d: nat, total: nat) {
    Provided(memory) ==> work + m * d <= total
  }

  lemma BudgetAtFirst(memory: (nat, nat) -> bool, n: nat, maxdepth: nat)
    ensures InBudget(memory, 0, n, maxdepth, n * maxdepth)
  {}

  lemma BudgetStep(memory: (nat, nat) -> bool, spent: nat, work: nat, m: nat, d: nat, m': nat, d': nat, total: nat)
    requires InBudget(memory, spent, m, d, total)
    requires Provided(memory) ==> d == d' + 1 && work + m' * d' <= m * (d' + 1)
    ensures InBudget(memory, spent + work, m', d', total)
  {}

  lemma BudgetKept(memory: (nat, nat) -> bool, work: nat, m: nat, d: nat, total: nat)
    requires InBudget(memory, work, m, d, total)
    ensures Provided(memory) ==> work <= total
  {}

  /** What two parts of a range cost with d levels left, and the range itself before, is no more than the range with d + 1. */
  lemma RoundCost(m: nat, r: nat, s: nat, d: nat, w: nat)
    requires r + s <= m && w <= r * d
    ensures m + w + s * d <= m * (d + 1)
  {
    assert r * d + s * d == (r + s) * d;
    Arith.MulMono(r + s, m, d);
  }

  // ----- introsort -----

  const SIZE_MAX: nat := 0xFFFF_FFFF_FFFF_FFFF

  /** maxdepth--, on a size_t: it wraps around when heapsort had no buffer at depth zero. */
  function DepthDown(d: nat): (e: nat)
    requires d <= SIZE_MAX
    ensures e <= SIZE_MAX && (e + 1) % (SIZE_MAX + 1) == d && (d > 0 ==> e == d - 1)
  {
    if d == 0 then SIZE_MAX else d - 1
  }

  /**
    * introsort: sorts the range in place, whether or not heapsort gets its buffer when the depth
    * runs out; depth is how many calls of itself it nests, and work how many elements its partitions go over, together.
    */
  method IntroSort<T(!new)>(a: array<T>, cmp: (T, T) -> int, lo: nat, n: nat, maxdepth: nat, memory: (nat, nat) -> bool)
    returns (ghost depth: nat, ghost work: nat)
    requires Consistent(cmp) && lo + n <= a.Length && maxdepth <= SIZE_MAX
    modifies a
    ensures Sorted(a[..], cmp, lo, lo + n)
    ensures Rearranged(old(a[..]), a[..], lo, lo + n)
    ensures depth <= Lg(n) && (Provided(memory) ==> work <= n * maxdepth)
    decreases n, 2
  {
    hide *;
    ghost var s0 := a[..];
    ghost var hi := lo + n;
    var l: nat, m: nat, d: nat := lo, n, maxdepth;
    depth, work := 0, 0;
    SelfRearranged(s0, lo, hi);
    RestStart(s0, cmp, lo, hi);
    BudgetAtFirst(memory, n, maxdepth);
    while m >= 7
      invariant m <= n && lo <= l && l + m <= hi && d <= SIZE_MAX && depth <= Lg(n)
      invariant Rest(a[..], cmp, lo, hi, l, l + m) && Rearranged(s0, a[..], lo, hi)
      invariant InBudget(memory, work, m, d, n * maxdepth)
      decreases m
    {
      BudgetKept(memory, work, m, d, n * maxdepth);
      Granted(memory, l, m);
      var done := Fallback(a, cmp, lo, hi, l, m, d, memory, s0);
      if done {
        return;
      }
      ghost var spent, m0, d0 := work, m, d;
      d := DepthDown(d);
      l, m, depth, work := Reduce(a, cmp, lo, n, l, m, d, memory, s0, depth);
      BudgetStep(memory, spent, work, m0, d0, m, d, n * maxdepth);
      work := spent + work;
      BudgetKept(memory, work, m, d, n * maxdepth);
      if m <= 1 {
        ShortRest(a[..], cmp, lo, hi, l, l + m);
        return;
      }
    }
    BudgetKept(memory, work, m, d, n * maxdepth);
    Finish(a, cmp, lo, hi, l, m, s0);
  }

  lemma ShortRest<T>(s: seq<T>, cmp: (T, T) -> int, lo: nat, hi: nat, l: nat, h: nat)
    requires Rest(s, cmp, lo, hi, l, h) && h <= l + 1
    ensures Sorted(s, cmp, lo, hi)
  {}

  method Finish<T(!new)>(a: array<T>, cmp: (T, T) -> int, ghost lo: nat, ghost hi: nat, l: nat, m: nat, ghost s0: seq<T>)
    requires Consistent(cmp) && lo <= l && l + m <= hi <= a.Length
    requires Rest(a[..], cmp, lo, hi, l, l + m) && Rearranged(s0, a[..], lo, hi)
    modifies a
    ensures Sorted(a[..], cmp, lo, hi) && Rearranged(s0, a[..], lo, hi)
  {
    hide *;
    ghost var s1 := a[..];
    InsertionSort(a, cmp, l, m);
    RangeSorted(s0, s1, a[..], cmp, lo, hi, l, l + m);
  }

  /** Out of depth, heapsort finishes the work, unless it gets no buffer: then nothing has moved. */
  method Fallback<T(!new)>(a: array<T>, cmp: (T, T) -> int, ghost lo: nat, ghost hi: nat, l: nat, m: nat, d: nat,
                           memory: (nat, nat) -> bool, ghost s0: seq<T>) returns (done: bool)
    requires Consistent(cmp) && lo <= l && l + m <= hi <= a.Length
    requires Rest(a[..], cmp, lo, hi, l, l + m) && Rearranged(s0, a[..], lo, hi)
    modifies a
    ensures Rest(a[..], cmp, lo, hi, l, l + m) && Rearranged(s0, a[..], lo, hi)
    ensures done ==> Sorted(a[..], cmp, lo, hi)
    ensures !done ==> a[..] == old(a[..])
    ensures done <==> d == 0 && (m <= 1 || memory(l, m))
  {
    hide *;
    ghost var s1 := a[..];
    done := false;
    if d == 0 {
      var err := HeapSort(a, cmp, l, m, memory(l, m));
      RestKept(s1, a[..], cmp, lo, hi, l, l + m);
      WidenTrans(s0, s1, a[..], lo, hi, l, l + m);
      done := err == 0;
      if done {
        RestDone(a[..], cmp, lo, hi, l, l + m);
      }
    }
  }

  /** One round: partitions s[l..l+m], sorts the smaller part by a call and leaves the larger to the loop. */
  method Reduce<T(!new)>(a: array<T>, cmp: (T, T) -> int, ghost lo: nat, ghost n: nat, l: nat, m: nat, d: nat,
                         memory: (nat, nat) -> bool, ghost s0: seq<T>, ghost depth0: nat)
    returns (l': nat, m': nat, ghost depth: nat, ghost work: nat)
    requires Consistent(cmp) && lo <= l && l + m <= lo + n <= a.Length && 7 <= m && d <= SIZE_MAX && depth0 <= Lg(n)
    requires Rest(a[..], cmp, lo, lo + n, l, l + m) && Rearranged(s0, a[..], lo, lo + n)
    modifies a
    ensures m' < m && l <= l' && l' + m' <= l + m && depth <= Lg(n)
    ensures Provided(memory) ==> work + m' * d <= m * (d + 1)
    ensures Rest(a[..], cmp, lo, lo + n, l', l' + m') && Rearranged(s0, a[..], lo, lo + n)
    decreases m, 1
  {
    hide *;
    ghost var s1 := a[..];
    ghost var hi, h := lo + n, l + m;
    var r, s, v := Partition(a, cmp, l, m);
    ghost var s2 := a[..];
    RestKept(s1, s2, cmp, lo, hi, l, h);
    WidenTrans(s0, s1, s2, lo, hi, l, h);
    if r < s {
      depth, work := LeftFirst(a, cmp, v, lo, n, l, m, r, s, d, memory, s0);
      l', m' := l + m - s, s;
      if Provided(memory) {
        RoundCost(m, r, s, d, work);
      }
    } else {
      depth, work := RightFirst(a, cmp, v, lo, n, l, m, r, s, d, memory, s0);
      l', m' := l, r;
      if Provided(memory) {
        RoundCost(m, s, r, d, work);
      }
    }
    depth, work := if depth0 > depth then depth0 else depth, m + work;
  }

  /** Sorts the smaller part on the left, so that the one on the right is left to sort. */
  method LeftFirst<T(!new)>(a: array<T>, cmp: (T, T) -> int, ghost v: T, ghost lo: nat, ghost n: nat,
                            l: nat, ghost m: nat, r: nat, s: nat, d: nat, memory: (nat, nat) -> bool, ghost s0: seq<T>)
    returns (ghost depth: nat, ghost work: nat)
    requires Consistent(cmp) && lo <= l && l + m <= lo + n <= a.Length && d <= SIZE_MAX && r < s && r + s < m
    requires Parted(a[..], cmp, v, l, l + r, l + m - s, l + m)
    requires Rest(a[..], cmp, lo, lo + n, l, l + m) && Rearranged(s0, a[..], lo, lo + n)
    modifies a
    ensures Rest(a[..], cmp, lo, lo + n, l + m - s, l + m) && Rearranged(s0, a[..], lo, lo + n) && depth <= Lg(n)
    ensures Provided(memory) ==> work <= r * d
    decreases m, 0
  {
    hide *;
    ghost var s1 := a[..];
    ghost var hi, h := lo + n, l + m;
    depth, work := 0, 0;
    if s > 1 && r > 1 {
      depth, work := IntroSort(a, cmp, l, r, d, memory);
      SmallerHalf(r, s, n);
      depth := depth + 1;
      RestWidened(s1, a[..], cmp, lo, hi, l, h, l, l + r);
      PartedKept(s1, a[..], cmp, v, l, l + r, h - s, h);
      WidenTrans(s0, s1, a[..], lo, hi, l, l + r);
    } else {
      ShortSorted(s1, cmp, l, l + r);
    }
    LeftSorted(a[..], cmp, v, lo, hi, l, l + r, h - s, h);
  }

  /** Sorts the part on the right, when it is no larger, so that the one on the left is left to sort. */
  method RightFirst<T(!new)>(a: array<T>, cmp: (T, T) -> int, ghost v: T, ghost lo: nat, ghost n: nat,
                             l: nat, m: nat, r: nat, s: nat, d: nat, memory: (nat, nat) -> bool, ghost s0: seq<T>)
    returns (ghost depth: nat, ghost work: nat)
    requires Consistent(cmp) && lo <= l && l + m <= lo + n <= a.Length && d <= SIZE_MAX && r >= s && r + s < m
    requires Parted(a[..], cmp, v, l, l + r, l + m - s, l + m)
    requires Rest(a[..], cmp, lo, lo + n, l, l + m) && Rearranged(s0, a[..], lo, lo + n)
    modifies a
    ensures Rest(a[..], cmp, lo, lo + n, l, l + r) && Rearranged(s0, a[..], lo, lo + n) && depth <= Lg(n)
    ensures Provided(memory) ==> work <= s * d
    decreases m, 0
  {
    hide *;
    ghost var s1 := a[..];
    ghost var hi, h := lo + n, l + m;
    depth, work := 0, 0;
    if r > 1 && s > 1 {
      depth, work := IntroSort(a, cmp, l + m - s, s, d, memory);
      SmallerHalf(s, r, n);
      depth := depth + 1;
      RestWidened(s1, a[..], cmp, lo, hi, l, h, h - s, h);
      PartedKept(s1, a[..], cmp, v, l, l + r, h - s, h);
      WidenTrans(s0, s1, a[..], lo, hi, h - s, h);
    } else {
      ShortSorted(s1, cmp, h - s, h);
    }
    RightSorted(a[..], cmp, v, lo, hi, l, l + r, h - s, h);
  }

  lemma RestWidened<T>(s: seq<T>, t: seq<T>, cmp: (T, T) -> int, lo: nat, hi: nat, l: nat, h: nat, l': nat, h': nat)
    requires Rest(s, cmp, lo, hi, l, h) && Rearranged(s, t, l', h') && l <= l' && h' <= h
    ensures Rest(t, cmp, lo, hi, l, h)
  {
    Widen(s, t, l, h, l', h');
    hide Rest, Rearranged;
    RestKept(s, t, cmp, lo, hi, l, h);
  }

  lemma RestStart<T>(s: seq<T>, cmp: (T, T) -> int, lo: nat, hi: nat)
    requires lo <= hi <= |s|
    ensures Rest(s, cmp, lo, hi, lo, hi)
  {}

  lemma WidenTrans<T>(s: seq<T>, t: seq<T>, u: seq<T>, lo: nat, hi: nat, l: nat, h: nat)
    requires Rearranged(s, t, lo, hi) && Rearranged(t, u, l, h) && lo <= l && h <= hi
    ensures Rearranged(s, u, lo, hi)
  {
    SameLength(s, t, lo, hi);
    hide *;
    Widen(t, u, lo, hi, l, h);
    RearrangedTrans(s, t, u, lo, hi);
  }

  /** Sorting what is left to sort sorts the whole. */
  lemma RangeSorted<T>(s0: seq<T>, s: seq<T>, t: seq<T>, cmp: (T, T) -> int, lo: nat, hi: nat, l: nat, h: nat)
    requires Rest(s, cmp, lo, hi, l, h) && Rearranged(s0, s, lo, hi) && Rearranged(s, t, l, h)
    requires h <= |t| && Sorted(t, cmp, l, h)
    ensures Rearranged(s0, t, lo, hi) && hi <= |t| && Sorted(t, cmp, lo, hi)
  {
    SameLength(s, t, l, h);
    SameLength(s0, s, lo, hi);
    RestKept(s, t, cmp, lo, hi, l, h);
    RestDone(t, cmp, lo, hi, l, h);
    WidenTrans(s0, s, t, lo, hi, l, h);
  }

  /** The number of binary digits of n. */
  function Bits(n: nat): nat {
    if n == 0 then 0 else 1 + Bits(n / 2)
  }

  lemma {:induction false} BitsBound(n: nat)
    ensures Bits(n) <= n
  {
    if n > 0 {
      BitsBound(n / 2);
    }
  }

  /** qsort's loop over the bits of n, doubled. */
  method MaxDepth(n: nat) returns (maxdepth: nat)
    ensures maxdepth == 2 * Bits(n)
  {
    maxdepth := 0;
    var i := n;
    while i > 0
      invariant maxdepth + Bits(i) == Bits(n)
    {
      maxdepth := maxdepth + 1;
      i := i / 2;
    }
    maxdepth := maxdepth * 2;
  }

  /** qsort: the whole array is sorted and only rearranged, by calls that nest at most log2(n) deep. If heapsort always gets its
      buffer, the partitions go over at most 2 * n * (log2(n) + 1) elements. */
  method Qsort<T(!new)>(a: array<T>, cmp: (T, T) -> int, memory: (nat, nat) -> bool) returns (ghost depth: nat, ghost work: nat)
    requires Consistent(cmp) && a.Length <= SIZE_MAX
    modifies a
    ensures Sorted(a[..], cmp, 0, a.Length)
    ensures multiset(a[..]) == multiset(old(a[..]))
    ensures depth <= Lg(a.Length) && (Provided(memory) ==> work <= 2 * a.Length * (Lg(a.Length) + 1))
  {
    var maxdepth := MaxDepth(a.Length);
    DepthFits(a.Length);
    DepthIsLg(a.Length);
    hide *;
    ghost var s0 := a[..];
    depth, work := IntroSort(a, cmp, 0, a.Length, maxdepth, memory);
    WholeRearranged(s0, a[..]);
  }

  lemma WholeRearranged<T>(s: seq<T>, t: seq<T>)
    requires Rearranged(s, t, 0, |s|)
    ensures multiset(t) == multiset(s)
  {
    assert s[0..|s|] == s && t[0..|s|] == t;
  }

  lemma DepthIsLg(n: nat)
    ensures n * (2 * Bits(n)) <= 2 * n * (Lg(n) + 1)
  {
    hide Bits, Lg;
    BitsIsLg(n);
  }

  /** n has one more binary digit than its logarithm. */
  lemma {:induction false} BitsIsLg(n: nat)
    ensures Bits(n) == if n == 0 then 0 else Lg(n) + 1
  {
    if n > 1 {
      BitsIsLg(n / 2);
    }
  }

  lemma DepthFits(n: nat)
    requires n <= SIZE_MAX
    ensures 2 * Bits(n) <= SIZE_MAX
  {
    BitsBound(n / 2 / 2);
  }
}
