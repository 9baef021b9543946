/** The whole blocks of a filesystem as a set: what ffs_alloc and ffs_blkfree of whole blocks do to the maps, the owners and
    the summaries, seen by a caller that takes blocks and may give them back. */
module BlockPool {
  import opened Arith
  import opened Bitmap
  import opened Runs
  import opened Recount
  import opened CgCounts
  import opened Geometry
  import opened Allocator
  import opened Filesystem
  import opened Workload
  import opened Release
  import opened Preference

  /** The addresses of the blocks that are wholly free. */
  ghost function Pool(geo: Geo, s: State): set<nat> {
    set c, h | 0 <= c < |s.frees| && 0 <= h < geo.fpg && WholeIn(geo, s, c, h) :: geo.Base(c) + h * geo.frag
  }

  ghost predicate WholeIn(geo: Geo, s: State, c: nat, h: nat) {
    c < |s.frees| && h * geo.frag + geo.frag <= geo.fpg && WholeBlock(s.frees[c], geo.frag, h)
  }

  /** Fragment i of group c lies in one of the blocks. */
  predicate InBlocks(geo: Geo, out: set<nat>, c: nat, i: nat) {
    geo.frag > 0 && i < geo.fpg && geo.Base(c) + (i - i % geo.frag) in out
  }

  /** s is base with the blocks out taken from the maps and given to an owner. */
  ghost predicate Lent(geo: Geo, base: State, s: State, out: set<nat>) {
    && Sized(geo, base) && Sized(geo, s)
    && (forall c: nat :: c < geo.ncg ==> |s.frees[c]| == |base.frees[c]|)
    && (forall c: nat, i: nat :: c < geo.ncg && i < |s.frees[c]| ==>
          s.frees[c][i] == (base.frees[c][i] && !InBlocks(geo, out, c, i)))
    && (forall c: nat, i: nat :: c < geo.ncg ==> (i in s.owns[c] <==> i in base.owns[c] || InBlocks(geo, out, c, i)))
  }

  /** What was lent decides the rest. */
  lemma LentSame(geo: Geo, base: State, s: State, t: State, out: set<nat>)
    requires Lent(geo, base, s, out) && Lent(geo, base, t, out)
    ensures s.frees == t.frees && s.owns == t.owns
  {
    hide InBlocks;
    forall c | 0 <= c < geo.ncg
      ensures s.frees[c] == t.frees[c] && s.owns[c] == t.owns[c]
    {
      assert forall i :: i in s.owns[c] <==> i in t.owns[c];
    }
  }

  lemma LentBetween(geo: Geo, base: State, s: State, t: State, out: set<nat>, more: set<nat>)
    requires Lent(geo, base, s, out) && Lent(geo, base, t, out + more)
    ensures Lent(geo, s, t, more)
  {
    forall c: nat, i: nat
      ensures InBlocks(geo, out + more, c, i) == (InBlocks(geo, out, c, i) || InBlocks(geo, more, c, i))
    {
    }
    hide InBlocks;
  }

  /** The blocks that left the pool between two states are the one difference. */
  lemma Changed(geo: Geo, base: State, s: State, t: State, was: set<nat>, pool: set<nat>)
    requires pool <= was <= Pool(geo, base)
    requires Lent(geo, base, s, Pool(geo, base) - was) && Lent(geo, base, t, Pool(geo, base) - pool)
    ensures Lent(geo, s, t, was - pool)
    ensures was == pool ==> s.frees == t.frees && s.owns == t.owns
  {
    hide Pool, Lent;
    var all := Pool(geo, base);
    assert all - pool == (all - was) + (was - pool);
    LentBetween(geo, base, s, t, all - was, was - pool);
    if was == pool {
      LentSame(geo, base, s, t, all - was);
    }
  }

  /** Every summary of a group, and the copy in fs_cs, is what this map says. */
  ghost predicate GroupSays(geo: Geo, g: CylGroup, nbfree: int, nffree: int, c: nat, free: seq<bool>)
    reads g, g.frsum, g.clustersfree, g.clustersum
  {
    && geo.Wf() && c < geo.ncg && g.Shape() && SummaryOf(g) == Recap(geo, c, free)
    && nbfree == Recap(geo, c, free).nbfree && nffree == Recap(geo, c, free).nffree
  }

  /** Every summary, at all three levels, is what these maps say. */
  ghost predicate Recapped(fs: FileSystem, frees: seq<seq<bool>>)
    reads *
  {
    && |frees| == |fs.groups| == fs.csNbfree.Length == fs.csNffree.Length
    && (forall c :: 0 <= c < |frees| ==> GroupSays(fs.geo, fs.groups[c], fs.csNbfree[c], fs.csNffree[c], c, frees[c]))
    && fs.nbfree == Sum(fs.csNbfree[..]) && fs.nffree == Sum(fs.csNffree[..])
  }

  lemma MapsDecide(fs: FileSystem, live: seq<Extent>)
    requires Session(fs, live)
    ensures Recapped(fs, fs.Frees())
  {
    hide CylGroup.Valid, Held, FileSystem.Owns, FileSystem.Frees, Bits, Recap, SummaryOf, GroupSays, Repr;
    forall c | 0 <= c < |fs.groups|
      ensures GroupSays(fs.geo, fs.groups[c], fs.csNbfree[c], fs.csNffree[c], c, fs.Frees()[c])
    {
      GroupValid(fs, c);
      assert fs.Mirrored(c);
      GroupDecides(fs.groups[c]);
    }
  }

  lemma GroupDecides(g: CylGroup)
    requires g.Valid()
    ensures GroupSays(g.geo, g, g.nbfree, g.nffree, g.cgx, g.Free())
  {
    hide Bits, Recounted, RecapClusters, Counted, CylGroup.ClustersOk, Partition;
    MapDecides(g);
  }

  lemma LentNone(geo: Geo, base: State)
    requires Sized(geo, base)
    ensures Lent(geo, base, base, {})
  {}

  /** The fragments of a block are those whose block address it is. */
  lemma OneBlock(geo: Geo, cg: nat, h: nat, c: nat, i: nat)
    requires geo.Wf() && cg < geo.ncg && c < geo.ncg && h * geo.frag + geo.frag <= geo.fpg && i < geo.fpg
    ensures geo.Base(c) + (i - i % geo.frag) == geo.Base(cg) + h * geo.frag <==> c == cg && h * geo.frag <= i < h * geo.frag + geo.frag
  {
    hide Geo.Wf;
    FragOf(geo);
    var q, r := i / geo.frag, i % geo.frag;
    DivisionLaw(i, geo.frag);
    if c == cg {
      if q < h {
        MulApart(geo.frag, q, h);
      } else if q > h {
        MulApart(geo.frag, h, q);
      }
    } else if c < cg {
      MulApart(geo.fpg, c, cg);
    } else {
      MulApart(geo.fpg, cg, c);
    }
  }

  lemma FragOf(geo: Geo)
    requires geo.Wf()
    ensures 0 < geo.frag <= geo.fpg
  {}

  /** Taking one more block, and giving one back. */
  lemma LentMore(geo: Geo, base: State, s: State, t: State, out: set<nat>, cg: nat, h: nat)
    requires geo.Wf() && Lent(geo, base, s, out) && h * geo.frag + geo.frag <= geo.fpg
    requires Taken(geo, s, t, cg, h * geo.frag, geo.frag)
    ensures Lent(geo, base, t, out + {geo.Base(cg) + h * geo.frag})
  {
    hide InBlocks, Geo.Wf, Geo.Base;
    forall c: nat, i: nat | c < geo.ncg
      ensures InBlocks(geo, out + {geo.Base(cg) + h * geo.frag}, c, i) ==
        (InBlocks(geo, out, c, i) || (c == cg && h * geo.frag <= i < h * geo.frag + geo.frag))
    {
      MoreBlocks(geo, out, cg, h, c, i);
    }
  }

  lemma MoreBlocks(geo: Geo, out: set<nat>, cg: nat, h: nat, c: nat, i: nat)
    requires geo.Wf() && cg < geo.ncg && c < geo.ncg && h * geo.frag + geo.frag <= geo.fpg
    ensures var b := geo.Base(cg) + h * geo.frag;
      InBlocks(geo, out + {b}, c, i) == (InBlocks(geo, out, c, i) || (c == cg && h * geo.frag <= i < h * geo.frag + geo.frag))
  {
    hide Geo.Wf, Geo.Base;
    FragOf(geo);
    if i < geo.fpg {
      OneBlock(geo, cg, h, c, i);
    }
  }

  lemma BlockAt(geo: Geo, c: nat, h: nat)
    requires geo.Wf() && c < geo.ncg && h * geo.frag + geo.frag <= geo.fpg
    ensures geo.Dtog(geo.Base(c) + h * geo.frag) == c && geo.Dtogd(geo.Base(c) + h * geo.frag) == h * geo.frag
  {
    FragOf(geo);
    DivModBase(c, geo.fpg, h * geo.frag);
  }

  lemma LentLess(geo: Geo, base: State, s: State, t: State, out: set<nat>, cg: nat, h: nat, k: nat)
    requires Proper(geo, base) && Lent(geo, base, s, out) && WholeIn(geo, base, cg, h) && geo.Base(cg) + h * geo.frag in out
    requires k < |s.live| && s.live[k] == Extent(geo.Base(cg) + h * geo.frag, geo.frag) && FreeStep(geo, s, t, k, 0)
    ensures Lent(geo, base, t, out - {geo.Base(cg) + h * geo.frag})
  {
    var b, rel := geo.Base(cg) + h * geo.frag, h * geo.frag;
    var less := out - {b};
    assert less + {b} == out;
    BlockAt(geo, cg, h);
    forall c: nat, i: nat | c < geo.ncg
      ensures InBlocks(geo, out, c, i) == (InBlocks(geo, less, c, i) || (c == cg && rel <= i < rel + geo.frag))
      ensures c == cg && rel <= i < rel + geo.frag ==> !InBlocks(geo, less, c, i)
    {
      MoreBlocks(geo, less, cg, h, c, i);
      NotInLess(geo, less, cg, h, c, i);
    }
    forall i | rel <= i < rel + geo.frag
      ensures i !in base.owns[cg]
    {
      FreeNotOwned(geo, base, cg, h, i);
    }
    hide InBlocks, Geo.Wf, Geo.Base, Held, Geo.Dtog, Geo.Dtogd, OwnedAt, FreeAt;
  }

  lemma NotInLess(geo: Geo, less: set<nat>, cg: nat, h: nat, c: nat, i: nat)
    requires geo.Wf() && cg < geo.ncg && c < geo.ncg && h * geo.frag + geo.frag <= geo.fpg
    requires geo.Base(cg) + h * geo.frag !in less
    ensures c == cg && h * geo.frag <= i < h * geo.frag + geo.frag ==> !InBlocks(geo, less, c, i)
  {
    hide Geo.Wf, Geo.Base;
    FragOf(geo);
    if i < geo.fpg {
      OneBlock(geo, cg, h, c, i);
    }
  }

  lemma FreeNotOwned(geo: Geo, base: State, cg: nat, h: nat, i: nat)
    requires Proper(geo, base) && cg < geo.ncg && WholeIn(geo, base, cg, h) && h * geo.frag <= i < h * geo.frag + geo.frag
    ensures i !in base.owns[cg]
  {
    hide Held, Geo.NDblk;
    FragOf(geo);
    DivModBase(cg, geo.fpg, i);
    var d := geo.Base(cg) + i;
    assert geo.Dtog(d) == cg && geo.Dtogd(d) == i;
    assert FreeAt(geo, base, d);
  }

  lemma WholeLent(geo: Geo, base: State, s: State, out: set<nat>, c: nat, h: nat)
    requires geo.Wf() && Lent(geo, base, s, out) && c < geo.ncg
    ensures WholeIn(geo, s, c, h) <==> WholeIn(geo, base, c, h) && geo.Base(c) + h * geo.frag !in out
  {
    var b, rel := geo.Base(c) + h * geo.frag, h * geo.frag;
    FragOf(geo);
    if rel + geo.frag <= geo.fpg {
      forall i | rel <= i < rel + geo.frag
        ensures InBlocks(geo, out, c, i) == (b in out)
      {
        OneBlock(geo, c, h, c, i);
      }
      hide InBlocks, Geo.Wf, Geo.Base;
      assert WholeIn(geo, s, c, h) ==> s.frees[c][rel];
    }
  }

  lemma InPool(geo: Geo, s: State, c: nat, h: nat)
    requires geo.Wf() && WholeIn(geo, s, c, h)
    ensures geo.Base(c) + h * geo.frag in Pool(geo, s)
  {
    FragOf(geo);
    MulAtLeastOne(h, geo.frag);
  }

  lemma MulAtLeastOne(h: nat, f: nat)
    requires f > 0
    ensures h <= h * f
  {}

  lemma PoolLent(geo: Geo, base: State, s: State, out: set<nat>)
    requires geo.Wf() && Lent(geo, base, s, out)
    ensures Pool(geo, s) == Pool(geo, base) - out
  {
    hide Lent, WholeIn, Geo.Wf, Geo.Base;
    assert |base.frees| == |s.frees| == geo.ncg by { LentSizes(geo, base, s, out); }
    forall b | b in Pool(geo, s)
      ensures b in Pool(geo, base) && b !in out
    {
      var c, h :| 0 <= c < |s.frees| && 0 <= h < geo.fpg && WholeIn(geo, s, c, h) && b == geo.Base(c) + h * geo.frag;
      WholeLent(geo, base, s, out, c, h);
    }
    forall b | b in Pool(geo, base) && b !in out
      ensures b in Pool(geo, s)
    {
      var c, h :| 0 <= c < |base.frees| && 0 <= h < geo.fpg && WholeIn(geo, base, c, h) && b == geo.Base(c) + h * geo.frag;
      WholeLent(geo, base, s, out, c, h);
    }
  }

  lemma LentSizes(geo: Geo, base: State, s: State, out: set<nat>)
    requires Lent(geo, base, s, out)
    ensures |base.frees| == |s.frees| == geo.ncg && |base.owns| == |s.owns| == geo.ncg
  {}

  // ----- how many there are -----

  /** The blocks of the pool among the first n of group c. */
  ghost function PoolIn(geo: Geo, s: State, c: nat, n: nat): set<nat> {
    set h | 0 <= h < n && WholeIn(geo, s, c, h) :: geo.Base(c) + h * geo.frag
  }

  lemma PoolInStep(geo: Geo, s: State, c: nat, n: nat)
    requires geo.frag > 0
    ensures var b := geo.Base(c) + n * geo.frag;
      b !in PoolIn(geo, s, c, n) && PoolIn(geo, s, c, n + 1) == PoolIn(geo, s, c, n) + if WholeIn(geo, s, c, n) then {b} else {}
  {
    hide WholeIn, Geo.Base;
    forall h: nat | h < n
      ensures h * geo.frag < n * geo.frag
    {
      MulApart(geo.frag, h, n);
    }
  }

  /** Nothing past the end of a group is free. */
  ghost predicate Ends(geo: Geo, s: State, c: nat) {
    c < |s.frees| && forall i :: geo.fpg <= i < |s.frees[c]| ==> !s.frees[c][i]
  }

  lemma {:induction false} PoolInSize(geo: Geo, s: State, c: nat, n: nat)
    requires geo.frag > 0 && c < |s.frees| && Ends(geo, s, c) && n * geo.frag <= |s.frees[c]|
    ensures |PoolIn(geo, s, c, n)| == Total(Whole, s.frees[c], geo.frag, n)
  {
    hide PoolIn, WholeIn, Ends, WholeBlock, Block, AllFree;
    if n == 0 {
      NonePool(geo, s, c);
    } else {
      MulStep(n - 1, geo.frag);
      PoolInSize(geo, s, c, n - 1);
      PoolInStep(geo, s, c, n - 1);
      WholeIsAllFree(s.frees[c], geo.frag, n - 1);
      WholeInEnds(geo, s, c, n - 1);
    }
  }

  lemma NonePool(geo: Geo, s: State, c: nat)
    ensures PoolIn(geo, s, c, 0) == {}
  {}

  lemma WholeInEnds(geo: Geo, s: State, c: nat, h: nat)
    requires geo.frag > 0 && Ends(geo, s, c)
    ensures WholeIn(geo, s, c, h) <==> WholeBlock(s.frees[c], geo.frag, h)
  {
    if WholeBlock(s.frees[c], geo.frag, h) {
      assert s.frees[c][h * geo.frag + geo.frag - 1];
    }
  }

  /** The blocks of the pool in the first n groups. */
  ghost function PoolBelow(geo: Geo, s: State, n: nat): set<nat> {
    set c, h | 0 <= c < n && 0 <= h < geo.fpg && WholeIn(geo, s, c, h) :: geo.Base(c) + h * geo.frag
  }

  lemma BelowGroup(geo: Geo, s: State, n: nat, b: nat)
    requires geo.frag > 0 && b in PoolBelow(geo, s, n)
    ensures b < n * geo.fpg
  {
    var c, h :| 0 <= c < n && 0 <= h < geo.fpg && WholeIn(geo, s, c, h) && b == geo.Base(c) + h * geo.frag;
    MulApart(geo.fpg, c, n);
  }

  lemma FromGroup(geo: Geo, s: State, c: nat, n: nat, b: nat)
    requires b in PoolIn(geo, s, c, n)
    ensures b >= c * geo.fpg
  {}

  lemma PoolBelowStep(geo: Geo, s: State, n: nat)
    requires geo.frag > 0
    ensures PoolBelow(geo, s, n + 1) == PoolBelow(geo, s, n) + PoolIn(geo, s, n, geo.fpg)
    ensures PoolBelow(geo, s, n) !! PoolIn(geo, s, n, geo.fpg)
  {
    hide WholeIn, Geo.Base;
    var p, q, r := PoolBelow(geo, s, n), PoolIn(geo, s, n, geo.fpg), PoolBelow(geo, s, n + 1);
    forall b | b in p && b in q
      ensures false
    {
      BelowGroup(geo, s, n, b);
      FromGroup(geo, s, n, geo.fpg, b);
    }
    forall b | b in r
      ensures b in p + q
    {
      var c, h :| 0 <= c < n + 1 && 0 <= h < geo.fpg && WholeIn(geo, s, c, h) && b == geo.Base(c) + h * geo.frag;
    }
    assert r == p + q;
  }

  lemma {:induction false} PoolBelowSize(geo: Geo, s: State, nbs: seq<int>)
    requires geo.frag > 0 && |nbs| <= |s.frees| && forall c :: 0 <= c < |nbs| ==> Ends(geo, s, c)
    requires forall c :: 0 <= c < |nbs| ==> nbs[c] == Recounted(Whole, s.frees[c], geo.frag)
    ensures |PoolBelow(geo, s, |nbs|)| == Sum(nbs)
  {
    hide WholeIn, Ends, PoolIn, Recounted;
    if nbs == [] {
      assert PoolBelow(geo, s, 0) == {};
    } else {
      hide PoolBelow;
      var n := |nbs| - 1;
      PoolBelowSize(geo, s, nbs[..n]);
      PoolBelowStep(geo, s, n);
      PoolInAll(geo, s, n);
    }
  }

  lemma PoolInAll(geo: Geo, s: State, c: nat)
    requires geo.frag > 0 && Ends(geo, s, c)
    ensures |PoolIn(geo, s, c, geo.fpg)| == Recounted(Whole, s.frees[c], geo.frag)
  {
    hide WholeBlock, Total;
    var n := Blocks(s.frees[c], geo.frag);
    PoolInSize(geo, s, c, n);
    forall h: nat | WholeIn(geo, s, c, h)
      ensures h < geo.fpg && h < n
    {
      MulAtLeastOne(h, geo.frag);
      WholeInMap(s.frees[c], geo.frag, h);
    }
    assert PoolIn(geo, s, c, geo.fpg) == PoolIn(geo, s, c, n);
  }

  lemma WholeInMap(free: seq<bool>, frag: nat, h: nat)
    requires frag > 0 && WholeBlock(free, frag, h)
    ensures h < Blocks(free, frag)
  {
    BlockBelow(frag, |free|, h);
  }

  /** fs_cstotal.cs_nbfree is the size of the pool. */
  lemma PoolSize(fs: FileSystem, live: seq<Extent>)
    requires Session(fs, live)
    ensures |Pool(fs.geo, StateOf(fs, live))| == fs.nbfree
  {
    hide CylGroup.Valid, Held, FileSystem.Owns, FileSystem.Frees, Bits, Sum, WholeIn, Ends, Recounted;
    ValidShape(fs);
    var geo, s, nbs := fs.geo, StateOf(fs, live), fs.csNbfree[..];
    forall c | 0 <= c < |nbs|
      ensures Ends(geo, s, c) && nbs[c] == Recounted(Whole, s.frees[c], geo.frag)
    {
      GroupValid(fs, c);
      assert fs.Mirrored(c);
      GroupEnds(fs.groups[c], s, c);
    }
    FragOf(geo);
    PoolBelowSize(geo, s, nbs);
    assert Pool(geo, s) == PoolBelow(geo, s, |nbs|);
  }

  lemma GroupEnds(g: CylGroup, s: State, c: nat)
    requires g.Valid() && c < |s.frees| && s.frees[c] == g.Free()
    ensures Ends(g.geo, s, c) && g.nbfree == Recounted(Whole, s.frees[c], g.geo.frag)
  {
    hide Bits, Recounted, CylGroup.ClustersOk, Geo.Reserved;
    NDblkFits(g.geo, g.cgx);
  }

  // ----- requests for whole blocks -----

  /** A whole block can be taken from a group exactly when one of the pool lies in it. */
  lemma CanTakeWhole(geo: Geo, s: State, c: nat, h: nat)
    requires geo.Wf() && WholeIn(geo, s, c, h)
    ensures CanTake(s.frees[c], geo.frag, geo.frag)
  {
    WholeIsAllFree(s.frees[c], geo.frag, h);
    hide IsRun;
    assert RunIn(s.frees[c], geo.frag, h, 0, geo.frag);
  }

  /** The best run for a whole block is a whole block. */
  lemma BestWhole(free: seq<bool>, frag: nat, rel: nat) returns (h: nat)
    requires BestTake(free, frag, frag, rel)
    ensures WholeBlock(free, frag, h) && rel == h * frag
  {
    var a: nat :| frag <= a <= frag && RunIn(free, frag, rel / frag, rel % frag, a);
    h := rel / frag;
    DivisionLaw(rel, frag);
    assert IsRun(Block(free, frag, h), rel % frag, frag);
    WholeIsAllFree(free, frag, h);
  }

  /** A search for a whole block finds one of the pool, unless the pool is empty. */
  lemma AllocWhole(geo: Geo, base: State, s: State, t: State, out: set<nat>, icg: nat, pref: nat, addr: nat)
    requires geo.Wf() && Lent(geo, base, s, out) && AllocStep(geo, s, t, icg, pref, geo.frag, geo.frag, addr)
    ensures addr == 0 <==> Pool(geo, s) == {}
    ensures addr == 0 ==> t == s
    ensures addr != 0 ==> addr in Pool(geo, s) && Lent(geo, base, t, out + {addr}) && t.live == s.live + [Extent(addr, geo.frag)]
  {
    hide AllocFrom, FirstIn, Order, CansOf, Picked, Lent, Geo.Wf, Geo.NDblk, CanTake, BestTake, Taken, Range, Geo.Reserved;
    if addr == 0 {
      forall b | b in Pool(geo, s)
        ensures false
      {
        var c, h :| 0 <= c < |s.frees| && 0 <= h < geo.fpg && WholeIn(geo, s, c, h) && b == geo.Base(c) + h * geo.frag;
        CanTakeWhole(geo, s, c, h);
      }
    } else {
      var cg := AllocGroup(geo, s, t, icg, pref, geo.frag, geo.frag, addr);
      AllocTaken(geo, s, t, geo.frag, geo.frag, addr, cg, if cg == icg then pref else 0);
      AllocBest(geo, s, t, geo.frag, addr, cg, if cg == icg then pref else 0);
      var h := BestWhole(s.frees[cg], geo.frag, addr - geo.Base(cg));
      NDblkFits(geo, cg);
      InPool(geo, s, cg, h);
      LentMore(geo, base, s, t, out, cg, h);
    }
  }

  lemma AllocBest(geo: Geo, s: State, t: State, size: nat, addr: nat, cg: nat, pref: nat)
    requires AllocFrom(geo, s, t, size, size, addr, cg, pref)
    ensures |s.frees| == geo.ncg && addr - geo.Base(cg) + size <= geo.NDblk(cg)
    ensures BestTake(s.frees[cg], geo.frag, size, addr - geo.Base(cg))
  {
    hide Picked, BestTake, Range, Fill;
  }

  /** Where an address lies, by the block it is in. */
  lemma BlockAround(geo: Geo, c: nat, h: nat, d: nat)
    requires geo.Wf() && c < geo.ncg && h * geo.frag + geo.frag <= geo.fpg && d - d % geo.frag == geo.Base(c) + h * geo.frag
    ensures geo.Dtog(d) == c && geo.Dtogd(d) / geo.frag == h
  {
    hide Geo.Wf;
    FragOf(geo);
    var x := h * geo.frag + d % geo.frag;
    DivModBase(c, geo.fpg, x);
    DivModBase(h, geo.frag, d % geo.frag);
  }

  /** The block around the address wanted is the one taken, if it is wholly free. */
  lemma TakesWanted(geo: Geo, s: State, t: State, want: nat, addr: nat)
    requires geo.Wf() && 0 < want < geo.size && DownTo(want, geo.frag) in Pool(geo, s) && addr != 0 && geo.Dtog(want) < geo.ncg
    requires AllocStep(geo, s, t, geo.Dtog(want), want, geo.frag, geo.frag, addr)
    ensures addr == DownTo(want, geo.frag)
  {
    hide Pool, AllocFrom, TryStep, FirstIn, Order, CansOf, CanTake, WholeBlock, Geo.Dtog, Geo.Dtogd, Geo.Base, Geo.Wf;
    FragOf(geo);
    var c, h := PoolWhole(geo, s, DownTo(want, geo.frag));
    BlockAround(geo, c, h, want);
    CanTakeWhole(geo, s, c, h);
    var cg := SearchIsTry(geo, s, t, c, want, geo.frag, geo.frag, addr);
    TakesPreferred(geo, s, t, c, want, geo.frag, geo.frag, addr);
  }

  lemma NDblkFits(geo: Geo, c: nat)
    requires geo.Wf() && c < geo.ncg
    ensures geo.NDblk(c) <= geo.fpg
  {}

  /** The extents held are those of before and one for each block lent. */
  ghost predicate Claims(geo: Geo, before: seq<Extent>, live: seq<Extent>, out: set<nat>) {
    && before <= live
    && (forall k :: |before| <= k < |live| ==> live[k].n == geo.frag && live[k].addr in out)
    && (forall b :: b in out ==> exists k :: |before| <= k < |live| && live[k] == Extent(b, geo.frag))
  }

  lemma ClaimsMore(geo: Geo, before: seq<Extent>, live: seq<Extent>, out: set<nat>, b: nat)
    requires Claims(geo, before, live, out)
    ensures Claims(geo, before, live + [Extent(b, geo.frag)], out + {b})
  {
    var r := live + [Extent(b, geo.frag)];
    forall x | x in out + {b}
      ensures exists k :: |before| <= k < |r| && r[k] == Extent(x, geo.frag)
    {
      if x in out {
        var k :| |before| <= k < |live| && live[k] == Extent(x, geo.frag);
        assert r[k] == Extent(x, geo.frag);
      } else {
        assert r[|live|] == Extent(x, geo.frag);
      }
    }
  }

  lemma ClaimsLess(geo: Geo, owns: seq<set<nat>>, before: seq<Extent>, live: seq<Extent>, out: set<nat>, k: nat)
    requires geo.Wf() && Held(geo, owns, live) && Claims(geo, before, live, out) && |before| <= k < |live|
    ensures Claims(geo, before, Dropped(live, k), out - {live[k].addr})
  {
    hide OwnedAt, Placed, Geo.Wf;
    FragOf(geo);
    var r, b := Dropped(live, k), live[k].addr;
    forall i | |before| <= i < |r|
      ensures r[i].n == geo.frag && r[i].addr in out - {b}
    {
      var j := if i < k then i else i + 1;
      assert r[i] == live[j];
      assert Apart(live[if j < k then j else k], live[if j < k then k else j]);
    }
    forall x | x in out - {b}
      ensures exists i :: |before| <= i < |r| && r[i] == Extent(x, geo.frag)
    {
      var j :| |before| <= j < |live| && live[j] == Extent(x, geo.frag);
      assert r[if j < k then j else j - 1] == Extent(x, geo.frag);
    }
  }

  lemma Begins(fs: FileSystem, live: seq<Extent>)
    requires Session(fs, live)
    ensures var s := StateOf(fs, live); var p := Pool(fs.geo, s);
      Proper(fs.geo, s) && Lent(fs.geo, s, s, p - p) && Claims(fs.geo, s.live, live, p - p)
  {
    hide Session, Held, Lent, Pool, FileSystem.Frees, FileSystem.Owns;
    SessionHeld(fs, live);
    LentNone(fs.geo, StateOf(fs, live));
    var p := Pool(fs.geo, StateOf(fs, live));
    assert p - p == {};
  }

  lemma Given(geo: Geo, base: State, s: State, t: State, out: set<nat>, k: nat)
    requires Proper(geo, base) && Proper(geo, s) && Lent(geo, base, s, out) && Claims(geo, base.live, s.live, out)
      && |base.live| <= k < |s.live|
    requires s.live[k].addr in Pool(geo, base) && FreeStep(geo, s, t, k, 0)
    ensures Lent(geo, base, t, out - {s.live[k].addr}) && Claims(geo, base.live, t.live, out - {s.live[k].addr})
  {
    hide Held, Lent, Pool, WholeIn, Geo.Base, OwnedAt, FreeAt;
    var b := s.live[k].addr;
    var c, h := PoolWhole(geo, base, b);
    assert s.live[k] == Extent(b, geo.frag);
    LentLess(geo, base, s, t, out, c, h, k);
    ClaimsLess(geo, s.owns, base.live, s.live, out, k);
  }

  lemma LiveOf(fs: FileSystem, live: seq<Extent>)
    ensures StateOf(fs, live).live == live
  {}

  class Space {
    const fs: FileSystem
    const home: nat             // the group of the file's inode
    var live: seq<Extent>       // what is held in the filesystem, by anybody
    ghost const base: State     // the filesystem as it was found
    ghost const parts: set<object>

    constructor (fs: FileSystem, home: nat, live: seq<Extent>)
      requires Session(fs, live) && fs.geo.Searchable() && home < fs.geo.ncg
      ensures this.fs == fs && this.home == home && this.live == live && base == old(StateOf(fs, live))
      ensures Linked(Pool(fs.geo, base)) && parts == {fs, fs.csNbfree, fs.csNffree} + fs.Objects()
    {
      hide Session, StateOf, Lent, Pool, Claims, Proper;
      Begins(fs, live);
      this.fs, this.home, this.live, this.base := fs, home, live, StateOf(fs, live);
      this.parts := {fs, fs.csNbfree, fs.csNffree} + fs.Objects();
      new;
      Separate();
      assert base.live == live by { LiveOf(fs, live); }
    }

    lemma Separate()
      ensures this !in fs.Objects()
    {}

    /** The blocks that are wholly free are pool, and those that were and are not are held by whoever took them here;
        nothing else has changed, and the filesystem is in order. */
    ghost predicate Linked(pool: set<nat>)
      reads this, parts
    {
      && parts == {fs, fs.csNbfree, fs.csNffree} + fs.Objects() && this !in parts
      && Session(fs, live) && fs.geo.Searchable() && home < fs.geo.ncg && Proper(fs.geo, base)
      && pool <= Pool(fs.geo, base) && Lent(fs.geo, base, StateOf(fs, live), Pool(fs.geo, base) - pool)
      && Claims(fs.geo, base.live, live, Pool(fs.geo, base) - pool)
    }

    /** ffs_alloc of a whole block near the address wanted: a block of the pool, the one wanted if it is there, and
        none only if there is none; the test of fs_cstotal made first turns nothing away. */
    method Take(want: nat, ghost pool: set<nat>) returns (b: nat)
      requires Linked(pool)
      modifies this, parts
      ensures b == 0 <==> pool == {}
      ensures b == 0 ==> Linked(pool) && StateOf(fs, live) == old(StateOf(fs, live))
      ensures b != 0 ==> b in pool && Linked(pool - {b})
      ensures fs.geo.frag > 0 && (0 < want < fs.geo.size && DownTo(want, fs.geo.frag) in pool ==> b == DownTo(want, fs.geo.frag))
    {
      hide Session, Stock, Lent, Pool, AllocStep, Claims, Proper, FileSystem.Frees, FileSystem.Owns, FileSystem.Objects, Recapped;
      ghost var s, all := StateOf(fs, live), Pool(fs.geo, base);
      SessionHeld(fs, live);
      assert fs.geo.Wf() && fs.geo.fpg > 0 by { WfOf(fs.geo, s); }
      Account(pool);
      if fs.nbfree == 0 {
        return 0;
      }
      var bpref := if want < fs.geo.size then want else 0;
      GroupIn(fs, live, bpref);
      var cg := if bpref == 0 then home else fs.geo.Dtog(bpref);
      var live';
      b, live' := DoAlloc(fs, live, cg, bpref, fs.geo.frag, fs.geo.frag);
      AllocWhole(fs.geo, base, s, StateOf(fs, live'), all - pool, cg, bpref, b);
      Separate();
      live := live';
      PoolLent(fs.geo, base, s, all - pool);
      assert all - (all - pool) == pool;
      FragOf(fs.geo);
      if b != 0 && 0 < want < fs.geo.size && DownTo(want, fs.geo.frag) in pool {
        TakesWanted(fs.geo, s, StateOf(fs, live'), want, b);
      }
      if b != 0 {
        ClaimsMore(fs.geo, base.live, s.live, all - pool, b);
        assert all - (pool - {b}) == (all - pool) + {b};
      }
    }

    /** ffs_blkfree of a block that was taken. */
    method Give(b: nat, ghost pool: set<nat>)
      requires Linked(pool) && b in Pool(fs.geo, base) - pool
      modifies this, parts
      ensures Linked(pool + {b})
    {
      hide Session, Stock, Lent, Pool, FreeStep, Proper, FileSystem.Frees, FileSystem.Owns, FileSystem.Objects;
      ghost var s, all := StateOf(fs, live), Pool(fs.geo, base);
      SessionHeld(fs, live);
      var k := LastAt(live, Extent(b, fs.geo.frag));
      var live' := FreeWhole(fs, live, k);
      Given(fs.geo, base, s, StateOf(fs, live'), all - pool, k);
      Separate();
      live := live';
      assert all - (pool + {b}) == (all - pool) - {b};
    }

    /** A pool that nobody has taken from is the filesystem as it was found. */
    lemma Untouched()
      requires Linked(Pool(fs.geo, base))
      ensures fs.Frees() == base.frees && fs.Owns() == base.owns && fs.nbfree == |Pool(fs.geo, base)|
    {
      hide Session, Lent, Pool, Claims, FileSystem.Frees, FileSystem.Owns, Recapped, Held;
      var p := Pool(fs.geo, base);
      Account(p);
      assert p - p == {};
      LentNone(fs.geo, base);
      LentSame(fs.geo, base, base, StateOf(fs, live), {});
    }

    /** What the pool says about the maps, the owners and the summaries. */
    lemma Account(pool: set<nat>)
      requires Linked(pool)
      ensures pool <= Pool(fs.geo, base) && Lent(fs.geo, base, StateOf(fs, live), Pool(fs.geo, base) - pool)
      ensures Recapped(fs, fs.Frees()) && |pool| == fs.nbfree
    {
      hide Session, Lent, Pool, Claims, FileSystem.Frees, FileSystem.Owns, Recapped, Held;
      MapsDecide(fs, live);
      PoolSize(fs, live);
      PoolLent(fs.geo, base, StateOf(fs, live), Pool(fs.geo, base) - pool);
      assert Pool(fs.geo, base) - (Pool(fs.geo, base) - pool) == pool;
    }
  }

  /** The last extent that is e. */
  function LastAt(live: seq<Extent>, e: Extent): (k: nat)
    requires e in live
    ensures k < |live| && live[k] == e && forall i :: k < i < |live| ==> live[i] != e
  {
    if live[|live| - 1] == e then |live| - 1 else LastAt(live[..|live| - 1], e)
  }

  lemma PoolWhole(geo: Geo, s: State, b: nat) returns (c: nat, h: nat)
    requires b in Pool(geo, s)
    ensures WholeIn(geo, s, c, h) && b == geo.Base(c) + h * geo.frag
  {
    c, h :| 0 <= c < |s.frees| && 0 <= h < geo.fpg && WholeIn(geo, s, c, h) && b == geo.Base(c) + h * geo.frag;
  }

  /** No block of the pool has address 0. */
  lemma NoBlockZero(fs: FileSystem, live: seq<Extent>)
    requires Session(fs, live)
    ensures 0 !in Pool(fs.geo, StateOf(fs, live))
  {
    hide FileSystem.Valid, CylGroup.Valid, Held, FileSystem.Owns, FileSystem.Frees, Bits;
    ValidShape(fs);
    var geo, s := fs.geo, StateOf(fs, live);
    if 0 in Pool(geo, s) {
      var c, h := PoolWhole(geo, s, 0);
      FragOf(geo);
      GroupValid(fs, c);
      fs.ValuesAt(c);
      FirstReserved(fs.groups[c], h);
      MulAtLeastOne(h, geo.frag);
      MulAtLeastOne(c, geo.fpg);
      assert false;
    }
  }

  lemma FirstReserved(g: CylGroup, h: nat)
    requires g.Valid() && WholeBlock(g.Free(), g.geo.frag, h)
    ensures g.cgx > 0 || h > 0
  {
    hide Bits, Counted, CylGroup.ClustersOk;
    assert g.Free()[h * g.geo.frag];
  }

  lemma GroupIn(fs: FileSystem, live: seq<Extent>, d: nat)
    requires Session(fs, live) && fs.geo.fpg > 0
    ensures d < fs.geo.size ==> fs.geo.Dtog(d) < fs.geo.ncg
    ensures 0 < fs.geo.size
  {
    hide FileSystem.Valid, Held, FileSystem.Owns;
    ValidShape(fs);
    fs.geo.GroupStart(0);
    if d < fs.geo.size {
      fs.Locate(d);
    }
  }

  lemma WfOf(geo: Geo, s: State)
    requires Proper(geo, s)
    ensures geo.Wf() && geo.fpg > 0
  {}
}
