/** What the cylinder-group summaries are meant to count, computed from the free map alone. */
module Recount {
  import opened Arith
  import opened Bitmap
  import opened Runs

  /** The three per-block quantities that the summaries add up. */
  datatype Meter =
    | Whole          // cs_nbfree: blocks all of whose fragments are free
    | Loose          // cs_nffree: free fragments in blocks that are not wholly free
    | RunsOf(k: nat) // cg_frsum[k]: maximal free runs of exactly k inside a block

  function Measure(mt: Meter, blk: seq<bool>): nat {
    match mt
    case Whole => if AllFree(blk) then 1 else 0
    case Loose => if AllFree(blk) then 0 else FreeCount(blk)
    case RunsOf(k) => RunCount(blk, k)
  }

  /** Block b of a map cut into blocks of frag fragments. */
  function Block(free: seq<bool>, frag: nat, b: nat): (blk: seq<bool>)
    requires b * frag + frag <= |free|
    ensures |blk| == frag
    ensures forall i :: 0 <= i < frag ==> blk[i] == free[b * frag + i]
  {
    free[b * frag .. b * frag + frag]
  }

  /** The sum of a quantity over the first n blocks. */
  function Total(mt: Meter, free: seq<bool>, frag: nat, n: nat): nat
    requires n * frag <= |free|
  {
    if n == 0 then 0
    else
      assert (n - 1) * frag + frag == n * frag;
      Total(mt, free, frag, n - 1) + Measure(mt, Block(free, frag, n - 1))
  }

  /** The number of blocks in a map. */
  function Blocks(free: seq<bool>, frag: nat): (n: nat)
    requires frag > 0
    ensures n * frag <= |free|
  {
    |free| / frag
  }

  function Recounted(mt: Meter, free: seq<bool>, frag: nat): nat
    requires frag > 0
  {
    Total(mt, free, frag, Blocks(free, frag))
  }

  lemma BlockFits(frag: nat, len: nat, b: nat)
    requires frag > 0 && b < len / frag
    ensures b * frag + frag <= len
  {
    assert (b + 1) * frag <= (len / frag) * frag;
  }

  lemma BlockBelow(frag: nat, len: nat, b: nat)
    requires frag > 0 && b * frag + frag <= len
    ensures b < len / frag
  {
    assert b * frag + frag == (b + 1) * frag;
    assert len - (b + 1) * frag >= 0;
    assert len / frag >= b + 1 by {
      assert len == (b + 1) * frag + (len - (b + 1) * frag);
    }
  }

  /** The two maps differ in block b at most. */
  predicate AgreeOutside(s: seq<bool>, t: seq<bool>, lo: nat, n: nat) {
    && |s| == |t|
    && forall i :: 0 <= i < |s| && !(lo <= i < lo + n) ==> s[i] == t[i]
  }

  lemma BlockOutside(s: seq<bool>, t: seq<bool>, frag: nat, b: nat, c: nat)
    requires AgreeOutside(s, t, b * frag, frag) && b != c && c * frag + frag <= |s|
    ensures Block(s, frag, c) == Block(t, frag, c)
  {
    hide Block;
    if b < c {
      MulApart(frag, b, c);
    } else {
      MulApart(frag, c, b);
    }
    var lo := c * frag;
    assert forall i :: lo <= i < lo + frag ==> s[i] == t[i];
  }

  lemma {:induction false} TotalUpdate(mt: Meter, s: seq<bool>, t: seq<bool>, frag: nat, b: nat, n: nat)
    requires n * frag <= |s| && b * frag + frag <= |s|
    requires AgreeOutside(s, t, b * frag, frag)
    ensures Total(mt, t, frag, n) == Total(mt, s, frag, n)
      + (if b < n then Measure(mt, Block(t, frag, b)) - Measure(mt, Block(s, frag, b)) else 0)
  {
    hide Measure, Block;
    if n > 0 {
      assert (n - 1) * frag + frag == n * frag;
      TotalUpdate(mt, s, t, frag, b, n - 1);
      if b != n - 1 {
        BlockOutside(s, t, frag, b, n - 1);
      }
    }
  }

  /** Changing the map inside one block changes each recount by that block's change only. */
  lemma RecountUpdate(mt: Meter, s: seq<bool>, t: seq<bool>, frag: nat, b: nat)
    requires frag > 0 && b * frag + frag <= |s|
    requires AgreeOutside(s, t, b * frag, frag)
    ensures Recounted(mt, t, frag) == Recounted(mt, s, frag)
      + Measure(mt, Block(t, frag, b)) - Measure(mt, Block(s, frag, b))
  {
    hide Measure, Block, Total;
    TotalUpdate(mt, s, t, frag, b, Blocks(s, frag));
    BlockBelow(frag, |s|, b);
  }

  lemma {:induction false} TotalWitness(mt: Meter, s: seq<bool>, frag: nat, n: nat) returns (b: nat)
    requires n * frag <= |s| && Total(mt, s, frag, n) > 0
    ensures b < n && b * frag + frag <= |s| && Measure(mt, Block(s, frag, b)) > 0
  {
    hide Measure, Block;
    assert (n - 1) * frag + frag == n * frag;
    if Measure(mt, Block(s, frag, n - 1)) > 0 {
      b := n - 1;
    } else {
      b := TotalWitness(mt, s, frag, n - 1);
    }
  }

  lemma {:induction false} TotalAtLeast(mt: Meter, s: seq<bool>, frag: nat, n: nat, b: nat)
    requires b < n && n * frag <= |s| && b * frag + frag <= |s|
    ensures Total(mt, s, frag, n) >= Measure(mt, Block(s, frag, b))
  {
    hide Measure, Block;
    assert (n - 1) * frag + frag == n * frag;
    if b < n - 1 {
      TotalAtLeast(mt, s, frag, n - 1, b);
    }
  }

  /** Block b is the frag-aligned block that contains [lo, lo + n); taking n free
      fragments out of it, starting at a run of exactly a. */
  lemma TakeFromRun(free: seq<bool>, frag: nat, b: nat, p: nat, a: nat, n: nat)
    requires frag > 0 && b * frag + frag <= |free|
    requires IsRun(Block(free, frag, b), p, a) && 0 < n <= a
    ensures p + a <= frag && b * frag + p + n <= |free|
    ensures var after := Fill(free, b * frag + p, n, false);
      && AgreeOutside(free, after, b * frag, frag)
      && Block(after, frag, b) == Fill(Block(free, frag, b), p, n, false)
  {
    hide Block, Fill;
    var lo := b * frag;
    var after := Fill(free, lo + p, n, false);
    assert Block(after, frag, b) == Fill(Block(free, frag, b), p, n, false);
  }

  /** The change of each per-block quantity when n fragments of a run of a are taken
      from a block of frag fragments. */
  function TakeDelta(mt: Meter, frag: nat, a: nat, n: nat): int {
    match mt
    case Whole => if a == frag then -1 else 0
    case Loose => (if a == frag then frag else 0) - n
    case RunsOf(k) => (if k == a then -1 else 0) + (if n < a && k == a - n then 1 else 0)
  }

  /** How each recount moves when the first n of a run of a are taken from block b. */
  lemma RecountTake(mt: Meter, free: seq<bool>, frag: nat, b: nat, p: nat, a: nat, n: nat)
    requires frag > 0 && b * frag + frag <= |free|
    requires IsRun(Block(free, frag, b), p, a) && 0 < n <= a
    requires b * frag + p + n <= |free|
    ensures var after := Fill(free, b * frag + p, n, false);
      Recounted(mt, after, frag) == Recounted(mt, free, frag) +
        TakeDelta(mt, frag, a, n)
  {
    var after := Fill(free, b * frag + p, n, false);
    var blk := Block(free, frag, b);
    TakeFromRun(free, frag, b, p, a, n);
    RecountUpdate(mt, free, after, frag, b);
    MeasureTake(mt, blk, p, a, n);
  }

  lemma MeasureTake(mt: Meter, blk: seq<bool>, p: nat, a: nat, n: nat)
    requires IsRun(blk, p, a) && 0 < n <= a
    ensures Measure(mt, Fill(blk, p, n, false)) == Measure(mt, blk) +
        TakeDelta(mt, |blk|, a, n)
  {
    hide RunCount, FreeCount;
    var after := Fill(blk, p, n, false);
    assert !after[p];
    assert AllFree(blk) <==> a == |blk| by {
      if a < |blk| {
        assert p == 0 ==> !blk[a];
        assert p > 0 ==> !blk[p - 1];
      }
    }
    match mt
    case Whole =>
    case Loose =>
      FreeCountFull(blk);
      FreeCountFill(blk, p, n);
    case RunsOf(k) =>
      RunCountFill(blk, p, a, n, k);
  }

  lemma {:induction false} FreeBeforeSlice(s: seq<bool>, lo: nat, hi: nat, k: nat)
    requires lo + k <= hi <= |s|
    ensures FreeBefore(s, lo + k) == FreeBefore(s, lo) + FreeBefore(s[lo..hi], k)
  {
    if k > 0 {
      FreeBeforeSlice(s, lo, hi, k - 1);
    }
  }

  lemma BlockSplit(b: seq<bool>, frag: nat)
    requires |b| == frag
    ensures Measure(Whole, b) * frag + Measure(Loose, b) == FreeCount(b)
  {
    FreeCountFull(b);
  }

  /** Whole blocks, as fragments, and loose fragments make up all that is free. */
  lemma {:induction false} TotalSplit(free: seq<bool>, frag: nat, n: nat)
    requires n * frag <= |free|
    ensures Total(Whole, free, frag, n) * frag + Total(Loose, free, frag, n) == FreeBefore(free, n * frag)
  {
    if n > 0 {
      hide FreeBefore, Measure, Block;
      MulStep(n - 1, frag);
      TotalSplit(free, frag, n - 1);
      var b, lo := Block(free, frag, n - 1), (n - 1) * frag;
      assert b == free[lo..lo + frag];
      FreeBeforeSlice(free, lo, lo + frag, frag);
      BlockSplit(b, frag);
      Distribute(Total(Whole, free, frag, n - 1), Measure(Whole, b), frag);
    } else {
      assert Total(Whole, free, frag, 0) == 0;
    }
  }

  lemma RecountedSplit(free: seq<bool>, frag: nat)
    requires frag > 0 && |free| % frag == 0
    ensures Recounted(Whole, free, frag) * frag + Recounted(Loose, free, frag) == FreeCount(free)
  {
    hide Total, FreeBefore;
    DivisionLaw(|free|, frag);
    TotalSplit(free, frag, Blocks(free, frag));
  }
}
