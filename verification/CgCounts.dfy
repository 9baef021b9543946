/** The accounting invariant of one cylinder group, stated on values: every summary equals
    a recount of the free map. The lemmas say how each map update carries it along. */
module CgCounts {
  import opened Arith
  import opened Bitmap
  import opened Runs
  import opened Recount
  import opened Clusters

  const MAXFRAG := 8

  /** nbfree, nffree and frsum[1..frag] are recounts of the map, and the other slots are zero. */
  ghost predicate Counted(free: seq<bool>, frag: nat, nbfree: int, nffree: int, frsum: seq<int>) {
    && ValidFrag(frag)
    && |frsum| == MAXFRAG
    && nbfree == Recounted(Whole, free, frag)
    && nffree == Recounted(Loose, free, frag)
    && (forall k :: 1 <= k < frag ==> frsum[k] == Recounted(RunsOf(k), free, frag))
    && forall k :: 0 <= k < MAXFRAG && (k == 0 || frag <= k) ==> frsum[k] == 0
  }

  /** frsum after the first n of a free run of a have been taken. */
  predicate FrsumTaken(before: seq<int>, after: seq<int>, frag: nat, a: nat, n: nat) {
    && |before| == |after| == MAXFRAG
    && (forall k :: 1 <= k < frag && k < MAXFRAG ==> after[k] == before[k] + TakeDelta(RunsOf(k), frag, a, n))
    && forall k :: 0 <= k < MAXFRAG && (k == 0 || frag <= k) ==> after[k] == before[k]
  }

  /** Every allocation takes the front of a maximal run inside one block. */
  lemma TakeCounted(free: seq<bool>, frag: nat, nbfree: int, nffree: int, frsum: seq<int>,
                    b: nat, p: nat, a: nat, n: nat, frsum': seq<int>)
    requires Counted(free, frag, nbfree, nffree, frsum)
    requires b * frag + frag <= |free| && IsRun(Block(free, frag, b), p, a) && 0 < n <= a
    requires FrsumTaken(frsum, frsum', frag, a, n)
    ensures b * frag + p + n <= |free|
    ensures Counted(Fill(free, b * frag + p, n, false), frag,
                    nbfree + TakeDelta(Whole, frag, a, n), nffree + TakeDelta(Loose, frag, a, n), frsum')
  {
    hide Recounted, IsRun, Block;
    RunInBlock(free, frag, b, p, a);
    RecountTake(Whole, free, frag, b, p, a, n);
    RecountTake(Loose, free, frag, b, p, a, n);
    forall k | 1 <= k < frag
      ensures frsum'[k] == Recounted(RunsOf(k), Fill(free, b * frag + p, n, false), frag)
    {
      RecountTake(RunsOf(k), free, frag, b, p, a, n);
    }
  }

  lemma RunInBlock(free: seq<bool>, frag: nat, b: nat, p: nat, a: nat)
    requires b * frag + frag <= |free| && IsRun(Block(free, frag, b), p, a)
    ensures p + a <= frag
  {}

  /** frsum after block b's old runs are subtracted and its new ones added. */
  predicate FrsumMoved(before: seq<int>, after: seq<int>, frag: nat, old_blk: seq<bool>, new_blk: seq<bool>) {
    && |before| == |after| == MAXFRAG
    && (forall k :: 1 <= k < frag && k < MAXFRAG ==>
          after[k] == before[k] - RunCount(old_blk, k) + RunCount(new_blk, k))
    && forall k :: 0 <= k < MAXFRAG && (k == 0 || frag <= k) ==> after[k] == before[k]
  }

  /** Any change confined to one block, with the block's own contribution exchanged. */
  lemma MoveCounted(free: seq<bool>, after: seq<bool>, frag: nat, nbfree: int, nffree: int, frsum: seq<int>,
                    b: nat, frsum': seq<int>)
    requires Counted(free, frag, nbfree, nffree, frsum)
    requires b * frag + frag <= |free| && AgreeOutside(free, after, b * frag, frag)
    requires FrsumMoved(frsum, frsum', frag, Block(free, frag, b), Block(after, frag, b))
    ensures var x, y := Block(free, frag, b), Block(after, frag, b);
      Counted(after, frag, nbfree + Measure(Whole, y) - Measure(Whole, x),
              nffree + Measure(Loose, y) - Measure(Loose, x), frsum')
  {
    hide Recounted, Block, RunCount;
    RecountUpdate(Whole, free, after, frag, b);
    RecountUpdate(Loose, free, after, frag, b);
    forall k | 1 <= k < frag
      ensures frsum'[k] == Recounted(RunsOf(k), after, frag)
    {
      RecountUpdate(RunsOf(k), free, after, frag, b);
    }
  }

  /** The cluster map marks exactly the wholly free blocks. */
  ghost predicate ClusterMap(free: seq<bool>, cl: seq<bool>, frag: nat, n: nat) {
    && n <= |cl|
    && n * frag <= |free|
    && ClearFrom(cl, n)
    && forall b: nat :: b < n ==> (cl[b] <==> WholeBlock(free, frag, b))
  }

  predicate WholeBlock(free: seq<bool>, frag: nat, b: nat) {
    b * frag + frag <= |free| && forall i :: b * frag <= i < b * frag + frag ==> free[i]
  }

  lemma WholeIsAllFree(free: seq<bool>, frag: nat, b: nat)
    requires b * frag + frag <= |free|
    ensures WholeBlock(free, frag, b) <==> AllFree(Block(free, frag, b))
    ensures frag > 0 ==> (WholeBlock(free, frag, b) <==> IsRun(Block(free, frag, b), 0, frag))
  {
    hide Block;
    if AllFree(Block(free, frag, b)) {
      forall i | b * frag <= i < b * frag + frag
        ensures free[i]
      {
        assert Block(free, frag, b)[i - b * frag];
      }
    }
  }

  /** A change inside block b that does not change whether b is whole keeps the cluster map right. */
  lemma ClusterMapKept(free: seq<bool>, after: seq<bool>, cl: seq<bool>, frag: nat, n: nat, b: nat)
    requires ClusterMap(free, cl, frag, n) && AgreeOutside(free, after, b * frag, frag)
    requires WholeBlock(free, frag, b) == WholeBlock(after, frag, b)
    ensures ClusterMap(after, cl, frag, n)
  {
    hide WholeBlock;
    forall c: nat | c < n
      ensures cl[c] <==> WholeBlock(after, frag, c)
    {
      if c != b {
        WholeElsewhere(free, after, frag, b, c);
      }
    }
  }

  lemma WholeElsewhere(free: seq<bool>, after: seq<bool>, frag: nat, b: nat, c: nat)
    requires AgreeOutside(free, after, b * frag, frag) && b != c
    ensures WholeBlock(free, frag, c) == WholeBlock(after, frag, c)
  {
    if b < c {
      MulApart(frag, b, c);
    } else {
      MulApart(frag, c, b);
    }
  }

  /** One that does change it is matched by flipping the block's bit. */
  lemma ClusterMapFlipped(free: seq<bool>, after: seq<bool>, cl: seq<bool>, frag: nat, n: nat, b: nat)
    requires ClusterMap(free, cl, frag, n) && AgreeOutside(free, after, b * frag, frag) && b < n
    ensures ClusterMap(after, cl[b := WholeBlock(after, frag, b)], frag, n)
  {
    hide WholeBlock;
    forall c: nat | c < n && c != b
      ensures cl[c] <==> WholeBlock(after, frag, c)
    {
      WholeElsewhere(free, after, frag, b, c);
    }
  }
}
