/** The bottom-up heapsort of heapsort.c, on a range of an array and any consistent comparison. */
module Heapsort {

  /** What qsort and heapsort expect of a comparison function: a total preorder. */
  ghost predicate Consistent<T(!new)>(cmp: (T, T) -> int) {
    && (forall x, y :: cmp(x, y) < 0 <==> cmp(y, x) > 0)
    && (forall x, y, z :: cmp(x, y) <= 0 && cmp(y, z) <= 0 ==> cmp(x, z) <= 0)
  }

  /** s[lo..hi] is in order. */
  ghost predicate Sorted<T>(s: seq<T>, cmp: (T, T) -> int, lo: nat, hi: nat)
    requires hi <= |s|
  {
    forall i, j :: lo <= i < j < hi ==> cmp(s[i], s[j]) <= 0
  }

  /** Outside [lo, hi) nothing moved, and inside it the elements were only rearranged. */
  ghost predicate Rearranged<T>(s: seq<T>, t: seq<T>, lo: nat, hi: nat) {
    && |s| == |t| && lo <= hi <= |s|
    && (forall i :: 0 <= i < |s| && !(lo <= i < hi) ==> s[i] == t[i])
    && multiset(s[lo..hi]) == multiset(t[lo..hi])
  }

  lemma RearrangedTrans<T>(s: seq<T>, t: seq<T>, u: seq<T>, lo: nat, hi: nat)
    requires Rearranged(s, t, lo, hi) && Rearranged(t, u, lo, hi)
    ensures Rearranged(s, u, lo, hi)
  {}

  lemma SameLength<T>(s: seq<T>, t: seq<T>, lo: nat, hi: nat)
    requires Rearranged(s, t, lo, hi)
    ensures |s| == |t| && lo <= hi <= |s|
  {}

  lemma SwapMultiset<T>(s: seq<T>, i: nat, j: nat)
    requires i < |s| && j < |s|
    ensures multiset(Swapped(s, i, j)) == multiset(s)
  {
    var t := s[i := s[j]][j := s[i]];
    if i != j {
      assert multiset(s[i := s[j]]) == multiset(s) - multiset{s[i]} + multiset{s[j]};
      assert multiset(t) == multiset(s[i := s[j]]) - multiset{s[j]} + multiset{s[i]};
    } else {
      assert t == s;
    }
  }

  function Swapped<T>(s: seq<T>, i: nat, j: nat): (t: seq<T>)
    requires i < |s| && j < |s|
    ensures |t| == |s|
  {
    s[i := s[j]][j := s[i]]
  }

  /** Exchanging two elements of a range rearranges it. */
  lemma SwapRearranges<T>(s: seq<T>, lo: nat, hi: nat, i: nat, j: nat)
    requires lo <= i < hi <= |s| && lo <= j < hi
    ensures Rearranged(s, Swapped(s, i, j), lo, hi)
  {
    hide Swapped;
    SwapWithin(s, lo, hi, i, j);
    SwapMultiset(s[lo..hi], i - lo, j - lo);
  }

  lemma SwapWithin<T>(s: seq<T>, lo: nat, hi: nat, i: nat, j: nat)
    requires lo <= i < hi <= |s| && lo <= j < hi
    ensures Swapped(s, i, j)[lo..hi] == Swapped(s[lo..hi], i - lo, j - lo)
    ensures forall k :: 0 <= k < |s| && !(lo <= k < hi) ==> Swapped(s, i, j)[k] == s[k]
  {}

  method Swap<T>(a: array<T>, i: nat, j: nat, ghost lo: nat, ghost hi: nat)
    requires lo <= i < hi <= a.Length && lo <= j < hi
    modifies a
    ensures a[..] == Swapped(old(a[..]), i, j)
    ensures Rearranged(old(a[..]), a[..], lo, hi)
  {
    SwapRearranges(a[..], lo, hi, i, j);
    a[i], a[j] := a[j], a[i];
  }

  /** Item j of the heap that starts at lo; items are numbered from 1. */
  function Item<T>(s: seq<T>, lo: nat, j: nat): T
    requires 1 <= j && lo + j <= |s|
  {
    s[lo + j - 1]
  }

  /** Item j does not exceed its parent. */
  predicate Below<T>(s: seq<T>, cmp: (T, T) -> int, lo: nat, j: nat)
    requires 2 <= j && lo + j <= |s|
  {
    cmp(Item(s, lo, j), Item(s, lo, j / 2)) <= 0
  }

  /** The heap order holds below every parent from first on, except possibly below the item hole. */
  ghost predicate HeapBut<T>(s: seq<T>, cmp: (T, T) -> int, lo: nat, n: nat, first: nat, hole: nat)
    requires lo + n <= |s|
  {
    forall j: nat :: 2 <= j <= n && j / 2 >= first && j / 2 != hole ==> Below(s, cmp, lo, j)
  }

  /** Children of hole do not exceed its parent, so that hole may be raised. */
  ghost predicate Bridged<T>(s: seq<T>, cmp: (T, T) -> int, lo: nat, n: nat, first: nat, hole: nat)
    requires lo + n <= |s|
  {
    hole / 2 >= first && hole / 2 >= 1 ==>
      forall j: nat :: 2 <= j <= n && j / 2 == hole ==> cmp(Item(s, lo, j), Item(s, lo, hole / 2)) <= 0
  }

  ghost predicate Heap<T>(s: seq<T>, cmp: (T, T) -> int, lo: nat, n: nat, first: nat)
    requires lo + n <= |s|
  {
    forall j: nat :: 2 <= j <= n && j / 2 >= first ==> Below(s, cmp, lo, j)
  }

  /** No child of item par exceeds item child. */
  ghost predicate Largest<T>(s: seq<T>, cmp: (T, T) -> int, lo: nat, n: nat, par: nat, child: nat)
    requires lo + n <= |s| && 1 <= child <= n
  {
    forall j: nat :: 2 <= j <= n && j / 2 == par ==> cmp(Item(s, lo, j), Item(s, lo, child)) <= 0
  }

  /** The larger of the children of item par. */
  method LargerChild<T(!new)>(a: array<T>, cmp: (T, T) -> int, lo: nat, n: nat, par: nat) returns (child: nat)
    requires Consistent(cmp) && 1 <= par && 2 * par <= n && lo + n <= a.Length
    ensures child / 2 == par && 2 <= child <= n
    ensures Largest(a[..], cmp, lo, n, par, child)
  {
    child := par * 2;
    if child < n && cmp(a[lo + child - 1], a[lo + child]) < 0 {
      child := child + 1;
    }
    forall j: nat | 2 <= j <= n && j / 2 == par
      ensures cmp(Item(a[..], lo, j), Item(a[..], lo, child)) <= 0
    {
      assert j == par * 2 || j == par * 2 + 1;
    }
  }

  /** CREATE: sifts item first down until the heap order holds below it. */
  method Create<T(!new)>(a: array<T>, cmp: (T, T) -> int, lo: nat, n: nat, first: nat)
    requires Consistent(cmp) && 1 <= first <= n && lo + n <= a.Length
    requires Heap(a[..], cmp, lo, n, first + 1)
    modifies a
    ensures Heap(a[..], cmp, lo, n, first)
    ensures Rearranged(old(a[..]), a[..], lo, lo + n)
  {
    hide Rearranged, HeapBut, Bridged, Heap, Consistent, Largest, Swapped;
    ghost var s0 := a[..];
    SiftStart(s0, cmp, lo, n, first);
    var par := first;
    while par * 2 <= n
      invariant first <= par <= n
      invariant HeapBut(a[..], cmp, lo, n, first, par)
      invariant Bridged(a[..], cmp, lo, n, first, par)
      invariant Rearranged(s0, a[..], lo, lo + n)
      decreases n - par
    {
      ghost var s := a[..];
      var child := LargerChild(a, cmp, lo, n, par);
      assert a[..] == s;
      if cmp(a[lo + child - 1], a[lo + par - 1]) <= 0 {
        SiftDone(s, cmp, lo, n, first, par, child);
        return;
      }
      SiftStep(s0, s, cmp, lo, n, first, par, child);
      Swap(a, lo + par - 1, lo + child - 1, lo, lo + n);
      par := child;
    }
    SiftEnd(a[..], cmp, lo, n, first, par);
  }

  lemma SiftStart<T>(s: seq<T>, cmp: (T, T) -> int, lo: nat, n: nat, first: nat)
    requires lo + n <= |s| && Heap(s, cmp, lo, n, first + 1)
    ensures HeapBut(s, cmp, lo, n, first, first) && Bridged(s, cmp, lo, n, first, first)
    ensures Rearranged(s, s, lo, lo + n)
  {}

  lemma SiftEnd<T>(s: seq<T>, cmp: (T, T) -> int, lo: nat, n: nat, first: nat, par: nat)
    requires lo + n <= |s| && HeapBut(s, cmp, lo, n, first, par) && par * 2 > n
    ensures Heap(s, cmp, lo, n, first)
  {}

  lemma SiftDone<T(!new)>(s: seq<T>, cmp: (T, T) -> int, lo: nat, n: nat, first: nat, par: nat, child: nat)
    requires Consistent(cmp) && lo + n <= |s| && 1 <= par && child / 2 == par && 2 <= child <= n
    requires HeapBut(s, cmp, lo, n, first, par)
    requires Largest(s, cmp, lo, n, par, child)
    requires cmp(Item(s, lo, child), Item(s, lo, par)) <= 0
    ensures Heap(s, cmp, lo, n, first)
  {
    forall j: nat | 2 <= j <= n && j / 2 >= first
      ensures Below(s, cmp, lo, j)
    {
      if j / 2 == par {
        assert cmp(Item(s, lo, j), Item(s, lo, child)) <= 0;
      }
    }
  }

  lemma SiftStep<T(!new)>(s0: seq<T>, s: seq<T>, cmp: (T, T) -> int, lo: nat, n: nat, first: nat, par: nat, child: nat)
    requires Consistent(cmp) && lo + n <= |s| && 1 <= first <= par && child / 2 == par && 2 <= child <= n
    requires HeapBut(s, cmp, lo, n, first, par) && Bridged(s, cmp, lo, n, first, par)
    requires Largest(s, cmp, lo, n, par, child)
    requires cmp(Item(s, lo, child), Item(s, lo, par)) > 0
    requires Rearranged(s0, s, lo, lo + n)
    ensures var t := Swapped(s, lo + par - 1, lo + child - 1);
      && HeapBut(t, cmp, lo, n, first, child) && Bridged(t, cmp, lo, n, first, child)
      && Rearranged(s0, t, lo, lo + n)
  {
    hide *;
    SiftOrder(s, cmp, lo, n, first, par, child);
    SwapRearranges(s, lo, lo + n, lo + par - 1, lo + child - 1);
    RearrangedTrans(s0, s, Swapped(s, lo + par - 1, lo + child - 1), lo, lo + n);
  }

  lemma SiftOrder<T(!new)>(s: seq<T>, cmp: (T, T) -> int, lo: nat, n: nat, first: nat, par: nat, child: nat)
    requires Consistent(cmp) && lo + n <= |s| && 1 <= first <= par && child / 2 == par && 2 <= child <= n
    requires HeapBut(s, cmp, lo, n, first, par) && Bridged(s, cmp, lo, n, first, par)
    requires Largest(s, cmp, lo, n, par, child)
    requires cmp(Item(s, lo, child), Item(s, lo, par)) > 0
    ensures var t := Swapped(s, lo + par - 1, lo + child - 1);
      HeapBut(t, cmp, lo, n, first, child) && Bridged(t, cmp, lo, n, first, child)
  {
    hide Consistent, Swapped, Below;
    var t := Swapped(s, lo + par - 1, lo + child - 1);
    forall j: nat | 2 <= j <= n && j / 2 >= first && j / 2 != child
      ensures Below(t, cmp, lo, j)
    {
      SiftBelow(s, cmp, lo, n, first, par, child, j);
    }
    forall j: nat | 2 <= j <= n && j / 2 == child
      ensures cmp(Item(t, lo, j), Item(t, lo, child / 2)) <= 0
    {
      SiftBridge(s, cmp, lo, n, first, par, child, j);
    }
  }

  lemma SiftBelow<T(!new)>(s: seq<T>, cmp: (T, T) -> int, lo: nat, n: nat, first: nat, par: nat, child: nat, j: nat)
    requires Consistent(cmp) && lo + n <= |s| && 1 <= first <= par && child / 2 == par && 2 <= child <= n
    requires HeapBut(s, cmp, lo, n, first, par) && Bridged(s, cmp, lo, n, first, par)
    requires Largest(s, cmp, lo, n, par, child)
    requires cmp(Item(s, lo, child), Item(s, lo, par)) > 0
    requires 2 <= j <= n && j / 2 >= first && j / 2 != child
    ensures Below(Swapped(s, lo + par - 1, lo + child - 1), cmp, lo, j)
  {
    if j / 2 == par {
      assert cmp(Item(s, lo, j), Item(s, lo, child)) <= 0;
    } else if j == par {
      assert cmp(Item(s, lo, child), Item(s, lo, par / 2)) <= 0;
    } else {
      assert Below(s, cmp, lo, j);
    }
  }

  lemma SiftBridge<T>(s: seq<T>, cmp: (T, T) -> int, lo: nat, n: nat, first: nat, par: nat, child: nat, j: nat)
    requires lo + n <= |s| && 1 <= first <= par && child / 2 == par && 2 <= child <= n
    requires HeapBut(s, cmp, lo, n, first, par) && 2 <= j <= n && j / 2 == child
    ensures var t := Swapped(s, lo + par - 1, lo + child - 1);
      cmp(Item(t, lo, j), Item(t, lo, child / 2)) <= 0
  {
    assert Below(s, cmp, lo, j);
  }

  /** The array with k in the place of item hole. */
  function With<T>(s: seq<T>, lo: nat, hole: nat, k: T): seq<T>
    requires 1 <= hole && lo + hole <= |s|
  {
    s[lo + hole - 1 := k]
  }

  /** Moving item from into the hole moves the hole to from. */
  lemma HoleMoves<T>(s: seq<T>, lo: nat, n: nat, hole: nat, from: nat, k: T)
    requires lo + n <= |s| && 1 <= hole <= n && 1 <= from <= n && hole != from
    ensures Rearranged(With(s, lo, hole, k), With(With(s, lo, hole, Item(s, lo, from)), lo, from, k), lo, lo + n)
  {
    hide Rearranged;
    var v := With(s, lo, hole, k);
    var w := With(With(s, lo, hole, Item(s, lo, from)), lo, from, k);
    SwapRearranges(v, lo, lo + n, lo + hole - 1, lo + from - 1);
    assert Swapped(v, lo + hole - 1, lo + from - 1) == w;
  }

  /** Copying the larger child over its parent keeps the heap order, the stale copy included. */
  lemma DownStep<T(!new)>(s: seq<T>, cmp: (T, T) -> int, lo: nat, n: nat, par: nat, child: nat)
    requires Consistent(cmp) && lo + n <= |s| && 1 <= par && child / 2 == par && 2 <= child <= n
    requires Heap(s, cmp, lo, n, 1)
    requires Largest(s, cmp, lo, n, par, child)
    ensures Heap(With(s, lo, par, Item(s, lo, child)), cmp, lo, n, 1)
  {
    var t := With(s, lo, par, Item(s, lo, child));
    assert Below(s, cmp, lo, child);
    forall j: nat | 2 <= j <= n && j / 2 >= 1
      ensures Below(t, cmp, lo, j)
    {
      assert Below(s, cmp, lo, j);
      if j / 2 == par {
        assert cmp(Item(s, lo, j), Item(s, lo, child)) <= 0;
      }
    }
  }

  /** Copying the parent over the hole keeps it too, and k still exceeds what is below. */
  lemma UpStep<T(!new)>(s: seq<T>, cmp: (T, T) -> int, lo: nat, n: nat, child: nat, k: T)
    requires Consistent(cmp) && lo + n <= |s| && 2 <= child <= n && Heap(s, cmp, lo, n, 1)
    requires cmp(k, Item(s, lo, child / 2)) >= 0
    ensures var t := With(s, lo, child, Item(s, lo, child / 2));
      Heap(t, cmp, lo, n, 1) && Covers(t, cmp, lo, n, child / 2, k)
  {
    var t := With(s, lo, child, Item(s, lo, child / 2));
    assert Below(s, cmp, lo, child);
    forall j: nat | 2 <= j <= n
      ensures Below(t, cmp, lo, j)
    {
      assert Below(s, cmp, lo, j);
    }
    forall j: nat | 2 <= j <= n && j / 2 == child / 2
      ensures cmp(Item(t, lo, j), k) <= 0
    {
      assert Below(s, cmp, lo, j);
    }
  }

  /** k is at least every child of item hole. */
  ghost predicate Covers<T>(s: seq<T>, cmp: (T, T) -> int, lo: nat, n: nat, hole: nat, k: T)
    requires lo + n <= |s|
  {
    forall j: nat :: 2 <= j <= n && j / 2 == hole ==> cmp(Item(s, lo, j), k) <= 0
  }

  lemma Place<T(!new)>(s: seq<T>, cmp: (T, T) -> int, lo: nat, n: nat, hole: nat, k: T)
    requires Consistent(cmp) && lo + n <= |s| && 1 <= hole <= n
    requires Heap(s, cmp, lo, n, 1) && Covers(s, cmp, lo, n, hole, k)
    requires hole == 1 || cmp(k, Item(s, lo, hole / 2)) < 0
    ensures Heap(With(s, lo, hole, k), cmp, lo, n, 1)
  {
    var t := With(s, lo, hole, k);
    forall j: nat | 2 <= j <= n
      ensures Below(t, cmp, lo, j)
    {
      assert Below(s, cmp, lo, j);
    }
  }

  lemma LeafCovers<T>(s: seq<T>, cmp: (T, T) -> int, lo: nat, n: nat, hole: nat, k: T)
    requires lo + n <= |s| && hole * 2 > n
    ensures Covers(s, cmp, lo, n, hole, k)
  {}

  lemma SelfRearranged<T>(s: seq<T>, lo: nat, hi: nat)
    requires lo <= hi <= |s|
    ensures Rearranged(s, s, lo, hi)
  {}

  /** The first loop of SELECT: the hole sinks to a leaf along the larger children. */
  method SinkHole<T(!new)>(a: array<T>, cmp: (T, T) -> int, lo: nat, n: nat, ghost k: T) returns (par: nat)
    requires Consistent(cmp) && 1 <= n && lo + n <= a.Length && Heap(a[..], cmp, lo, n, 1)
    modifies a
    ensures 1 <= par <= n && par * 2 > n && Heap(a[..], cmp, lo, n, 1)
    ensures Rearranged(With(old(a[..]), lo, 1, k), With(a[..], lo, par, k), lo, lo + n)
  {
    hide Rearranged, Heap, Consistent, Largest;
    par := 1;
    SelfRearranged(With(a[..], lo, 1, k), lo, lo + n);
    while par * 2 <= n
      invariant 1 <= par <= n && Heap(a[..], cmp, lo, n, 1)
      invariant Rearranged(With(old(a[..]), lo, 1, k), With(a[..], lo, par, k), lo, lo + n)
      decreases n - par
    {
      ghost var s := a[..];
      var child := LargerChild(a, cmp, lo, n, par);
      assert a[..] == s;
      DownStep(s, cmp, lo, n, par, child);
      HoleMoves(s, lo, n, par, child, k);
      a[lo + par - 1] := a[lo + child - 1];
      assert a[..] == With(s, lo, par, Item(s, lo, child));
      RearrangedTrans(With(old(a[..]), lo, 1, k), With(s, lo, par, k), With(a[..], lo, child, k), lo, lo + n);
      par := child;
    }
  }

  /** SELECT: with item 1 vacated, finds the place of k from the bottom of the heap. */
  method Select<T(!new)>(a: array<T>, cmp: (T, T) -> int, lo: nat, n: nat, k: T)
    requires Consistent(cmp) && 1 <= n && lo + n <= a.Length && Heap(a[..], cmp, lo, n, 1)
    modifies a
    ensures Heap(a[..], cmp, lo, n, 1)
    ensures Rearranged(With(old(a[..]), lo, 1, k), a[..], lo, lo + n)
  {
    hide Rearranged, Heap, Consistent, Covers;
    var par := SinkHole(a, cmp, lo, n, k);
    LeafCovers(a[..], cmp, lo, n, par, k);
    while true
      invariant 1 <= par <= n && Heap(a[..], cmp, lo, n, 1) && Covers(a[..], cmp, lo, n, par, k)
      invariant Rearranged(With(old(a[..]), lo, 1, k), With(a[..], lo, par, k), lo, lo + n)
      decreases par
    {
      var child := par;
      par := child / 2;
      ghost var s := a[..];
      if child == 1 || cmp(k, a[lo + par - 1]) < 0 {
        Place(s, cmp, lo, n, child, k);
        a[lo + child - 1] := k;
        assert a[..] == With(s, lo, child, k);
        return;
      }
      UpStep(s, cmp, lo, n, child, k);
      HoleMoves(s, lo, n, child, par, k);
      a[lo + child - 1] := a[lo + par - 1];
      assert a[..] == With(s, lo, child, Item(s, lo, par));
      RearrangedTrans(With(old(a[..]), lo, 1, k), With(s, lo, child, k), With(a[..], lo, par, k), lo, lo + n);
    }
  }

  /** No element of s[lo..mid] exceeds one of s[mid..hi]. */
  ghost predicate Split<T>(s: seq<T>, cmp: (T, T) -> int, lo: nat, mid: nat, hi: nat)
    requires hi <= |s|
  {
    forall i, j :: lo <= i < mid <= j < hi ==> cmp(s[i], s[j]) <= 0
  }

  /** After a rearrangement every element is one that was in the range before. */
  lemma FromRange<T>(s: seq<T>, t: seq<T>, lo: nat, hi: nat, i: nat) returns (j: nat)
    requires Rearranged(s, t, lo, hi) && lo <= i < hi
    ensures lo <= j < hi && s[j] == t[i]
  {
    assert t[lo..hi][i - lo] in multiset(t[lo..hi]);
    assert t[i] in s[lo..hi];
    var k :| 0 <= k < |s[lo..hi]| && s[lo..hi][k] == t[i];
    j := lo + k;
  }

  lemma SplitKeptLeft<T>(s: seq<T>, t: seq<T>, cmp: (T, T) -> int, lo: nat, mid: nat, hi: nat)
    requires lo <= mid <= hi <= |s| && Split(s, cmp, lo, mid, hi) && Rearranged(s, t, lo, mid)
    ensures Split(t, cmp, lo, mid, hi)
  {
    forall i, j | lo <= i < mid <= j < hi
      ensures cmp(t[i], t[j]) <= 0
    {
      var k := FromRange(s, t, lo, mid, i);
    }
  }

  /** A rearrangement of a part is a rearrangement of the whole. */
  lemma Widen<T>(s: seq<T>, t: seq<T>, lo: nat, hi: nat, l: nat, h: nat)
    requires Rearranged(s, t, l, h) && lo <= l && h <= hi <= |s|
    ensures Rearranged(s, t, lo, hi)
  {
    assert s[lo..l] == t[lo..l] && s[h..hi] == t[h..hi];
    assert s[lo..hi] == s[lo..l] + s[l..h] + s[h..hi];
    assert t[lo..hi] == t[lo..l] + t[l..h] + t[h..hi];
  }

  /** The root of a heap is its largest item. */
  lemma {:induction false} RootIsLargest<T(!new)>(s: seq<T>, cmp: (T, T) -> int, lo: nat, n: nat, j: nat)
    requires Consistent(cmp) && lo + n <= |s| && 1 <= j <= n && Heap(s, cmp, lo, n, 1)
    ensures cmp(Item(s, lo, j), Item(s, lo, 1)) <= 0
  {
    if j > 1 {
      assert Below(s, cmp, lo, j);
      RootIsLargest(s, cmp, lo, n, j / 2);
    }
  }

  /** The items after the first m are in place: in order, and none below an item of the heap. */
  ghost predicate Tail<T>(s: seq<T>, cmp: (T, T) -> int, lo: nat, m: nat, n: nat)
    requires lo + n <= |s|
  {
    Split(s, cmp, lo, lo + m, lo + n) && Sorted(s, cmp, lo + m, lo + n)
  }

  /** Exchanging the root with the last item of the heap extends the tail. */
  lemma TailGrows<T(!new)>(s: seq<T>, cmp: (T, T) -> int, lo: nat, m: nat, n: nat)
    requires Consistent(cmp) && 1 < m <= n && lo + n <= |s| && Heap(s, cmp, lo, m, 1) && Tail(s, cmp, lo, m, n)
    ensures Tail(Swapped(s, lo, lo + m - 1), cmp, lo, m - 1, n)
  {
    hide Heap;
    var t := Swapped(s, lo, lo + m - 1);
    forall i | lo <= i < lo + m
      ensures cmp(s[i], s[lo]) <= 0
    {
      RootIsLargest(s, cmp, lo, m, i - lo + 1);
    }
  }

  lemma TailKept<T>(s: seq<T>, t: seq<T>, cmp: (T, T) -> int, lo: nat, m: nat, n: nat)
    requires m <= n && lo + n <= |s| && Tail(s, cmp, lo, m, n) && Rearranged(s, t, lo, lo + m)
    ensures Tail(t, cmp, lo, m, n)
  {
    SplitKeptLeft(s, t, cmp, lo, lo + m, lo + n);
  }

  /** The first loop of heapsort: makes a heap of the whole range. */
  method Build<T(!new)>(a: array<T>, cmp: (T, T) -> int, lo: nat, n: nat)
    requires Consistent(cmp) && lo + n <= a.Length
    modifies a
    ensures Heap(a[..], cmp, lo, n, 1) && Rearranged(old(a[..]), a[..], lo, lo + n)
  {
    ghost var s0 := a[..];
    var l := n / 2;
    SelfRearranged(s0, lo, lo + n);
    assert Heap(s0, cmp, lo, n, l + 1);
    hide Heap, Rearranged, Consistent;
    while l > 0
      invariant 0 <= l <= n / 2
      invariant Heap(a[..], cmp, lo, n, l + 1) && Rearranged(s0, a[..], lo, lo + n)
    {
      ghost var s := a[..];
      Create(a, cmp, lo, n, l);
      RearrangedTrans(s0, s, a[..], lo, lo + n);
      l := l - 1;
    }
  }

  /** What one round of the second loop leaves, said of its values. */
  lemma RoundDone<T(!new)>(s0: seq<T>, s: seq<T>, t: seq<T>, cmp: (T, T) -> int, lo: nat, m: nat, n: nat)
    requires Consistent(cmp) && 1 < m <= n && lo + n <= |s|
    requires Heap(s, cmp, lo, m, 1) && Tail(s, cmp, lo, m, n) && Rearranged(s0, s, lo, lo + n)
    requires Rearranged(Swapped(s, lo, lo + m - 1), t, lo, lo + (m - 1))
    ensures |t| == |s| && Tail(t, cmp, lo, m - 1, n) && Rearranged(s0, t, lo, lo + n)
  {
    hide *;
    var w := Swapped(s, lo, lo + m - 1);
    SameLength(w, t, lo, lo + (m - 1));
    TailGrows(s, cmp, lo, m, n);
    TailKept(w, t, cmp, lo, m - 1, n);
    SwapRearranges(s, lo, lo + n, lo, lo + m - 1);
    Widen(w, t, lo, lo + n, lo, lo + (m - 1));
    RearrangedTrans(s0, s, w, lo, lo + n);
    RearrangedTrans(s0, w, t, lo, lo + n);
  }

  /** A prefix of a heap is a heap, whatever follows it. */
  lemma ShorterHeap<T>(s: seq<T>, cmp: (T, T) -> int, lo: nat, m: nat, k: T)
    requires 1 < m && lo + m <= |s| && Heap(s, cmp, lo, m, 1)
    ensures Heap(s[lo + m - 1 := k], cmp, lo, m - 1, 1)
  {
    var t := s[lo + m - 1 := k];
    forall j: nat | 2 <= j <= m - 1 && j / 2 >= 1
      ensures Below(t, cmp, lo, j)
    {
      assert Below(s, cmp, lo, j);
    }
  }

  lemma SortedByTail<T>(s: seq<T>, cmp: (T, T) -> int, lo: nat, m: nat, n: nat)
    requires m <= 1 && lo + n <= |s| && Tail(s, cmp, lo, m, n)
    ensures Sorted(s, cmp, lo, lo + n)
  {
    forall i, j | lo <= i < j < lo + n
      ensures cmp(s[i], s[j]) <= 0
    {
      assert m == 0 || i == lo || i >= lo + m;
    }
  }

  /**
    * heapsort: sorts the range in place, unless its one-element buffer is refused, which it
    * reports before it moves anything.
    */
  method HeapSort<T(!new)>(a: array<T>, cmp: (T, T) -> int, lo: nat, n: nat, buffer: bool) returns (err: int)
    requires Consistent(cmp) && lo + n <= a.Length
    modifies a
    ensures err == if n <= 1 || buffer then 0 else -1
    ensures err == 0 ==> Sorted(a[..], cmp, lo, lo + n)
    ensures err != 0 ==> a[..] == old(a[..])
    ensures Rearranged(old(a[..]), a[..], lo, lo + n)
  {
    ghost var s0 := a[..];
    SelfRearranged(s0, lo, lo + n);
    if n <= 1 {
      return 0;
    }
    if !buffer {
      return -1;
    }
    Build(a, cmp, lo, n);
    var m := n;
    assert Tail(a[..], cmp, lo, n, n);
    hide Heap, Rearranged, Consistent, Tail, Swapped, Sorted;
    while m > 1
      invariant 1 <= m <= n
      invariant Heap(a[..], cmp, lo, m, 1) && Tail(a[..], cmp, lo, m, n) && Rearranged(s0, a[..], lo, lo + n)
    {
      PlaceLargest(a, cmp, lo, m, n, s0);
      m := m - 1;
    }
    SortedByTail(a[..], cmp, lo, m, n);
    return 0;
  }

  /** One round of the second loop: the root goes to its final slot, the item displaced from there into the heap. */
  method PlaceLargest<T(!new)>(a: array<T>, cmp: (T, T) -> int, lo: nat, m: nat, n: nat, ghost s0: seq<T>)
    requires Consistent(cmp) && 1 < m <= n && lo + n <= a.Length
    requires Heap(a[..], cmp, lo, m, 1) && Tail(a[..], cmp, lo, m, n) && Rearranged(s0, a[..], lo, lo + n)
    modifies a
    ensures Heap(a[..], cmp, lo, m - 1, 1) && Tail(a[..], cmp, lo, m - 1, n) && Rearranged(s0, a[..], lo, lo + n)
  {
    hide Heap, Rearranged, Consistent, Tail;
    ghost var s := a[..];
    var k := a[lo + m - 1];
    a[lo + m - 1] := a[lo];
    assert a[..] == s[lo + m - 1 := s[lo]];
    ShorterHeap(s, cmp, lo, m, s[lo]);
    assert With(a[..], lo, 1, k) == Swapped(s, lo, lo + m - 1);
    Select(a, cmp, lo, m - 1, k);
    RoundDone(s0, s, a[..], cmp, lo, m, n);
  }
}
