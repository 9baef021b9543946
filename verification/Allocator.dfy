/** The block half of a cylinder group: its free map, its summaries, and the operations that
    allocate, extend and free. Every operation keeps Valid(), which defines each summary as a
    recount of the map. One call stands for one hold of the group's buffer lock. */
module Allocator {
  import opened Arith
  import opened Bitmap
  import opened Runs
  import opened Recount
  import opened Clusters
  import opened CgCounts
  import opened FragSearch
  import opened Geometry

  predicate AllSet(s: seq<bool>, lo: nat, n: nat) {
    lo + n <= |s| && forall i :: lo <= i < lo + n ==> s[i]
  }

  /** The n fragments starting at lo. */
  ghost function Range(lo: nat, n: nat): (r: set<nat>)
    ensures forall i: nat :: i in r <==> lo <= i < lo + n
  {
    if n == 0 then {} else Range(lo, n - 1) + {lo + n - 1}
  }

  /** Each fragment of group c is free, reserved for metadata, or owned by a caller, and only one of them. */
  ghost predicate Partition(geo: Geo, c: nat, free: seq<bool>, owned: set<nat>) {
    && geo.Wf() && c < geo.ncg
    && geo.NDblk(c) <= |free|
    && ClearFrom(free, geo.NDblk(c))
    && (forall i: nat :: i < geo.NDblk(c) ==> (free[i] <==> i !in owned && !geo.Reserved(c, i)))
    && (forall i :: i in owned ==> i < geo.NDblk(c) && !geo.Reserved(c, i))
  }

  lemma PartitionTake(geo: Geo, c: nat, free: seq<bool>, owned: set<nat>, lo: nat, n: nat)
    requires Partition(geo, c, free, owned) && lo + n <= |free|
    requires forall i :: lo <= i < lo + n ==> free[i]
    ensures Partition(geo, c, Fill(free, lo, n, false), owned + Range(lo, n))
    ensures Range(lo, n) !! owned && forall i :: i in Range(lo, n) ==> i < geo.NDblk(c) && !geo.Reserved(c, i)
  {
    hide Range, Fill, Geo.NDblk, Geo.Reserved, Geo.Wf;
    forall i: nat | i in Range(lo, n)
      ensures i < geo.NDblk(c) && !geo.Reserved(c, i) && i !in owned
    {
      assert free[i];
    }
  }

  lemma PartitionGive(geo: Geo, c: nat, free: seq<bool>, owned: set<nat>, lo: nat, n: nat)
    requires Partition(geo, c, free, owned) && lo + n <= |free|
    requires Range(lo, n) <= owned
    ensures Partition(geo, c, Fill(free, lo, n, true), owned - Range(lo, n))
  {
    forall i | lo <= i < lo + n
      ensures i in owned && i < geo.NDblk(c) && !geo.Reserved(c, i)
    {
      assert i in Range(lo, n);
    }
  }

  /** setbit or clrbit on n consecutive fragments. */
  method FillBits(cp: array<bv8>, lo: nat, n: nat, v: bool)
    requires lo + n <= 8 * cp.Length
    modifies cp
    ensures Bits(cp[..]) == Fill(old(Bits(cp[..])), lo, n, v)
  {
    hide Bits, BitOf, IsSet;
    var i := lo;
    while i < lo + n
      invariant lo <= i <= lo + n
      invariant Bits(cp[..]) == Fill(old(Bits(cp[..])), lo, i - lo, v)
    {
      SetClrBit(cp, i, v);
      i := i + 1;
    }
  }

  /** ffs_clrblock and ffs_setblock on the stored map. */
  method PutBlock(cp: array<bv8>, frag: nat, h: nat, v: bool)
    requires HasBlock(frag, cp[..], h)
    modifies cp
    ensures Bits(cp[..]) == Fill(old(Bits(cp[..])), h * frag, frag, v)
  {
    hide Bits, BlockMask, Mask, Fill;
    BlockUpdates(frag, cp[..], h);
    BlockByteInRange(frag, cp[..], h);
    var j := BlockByte(frag, h);
    if v {
      cp[j] := cp[j] | BlockMask(frag, h);
      assert cp[..] == SetBlock(frag, old(cp[..]), h);
    } else {
      cp[j] := cp[j] & !BlockMask(frag, h);
      assert cp[..] == ClrBlock(frag, old(cp[..]), h);
    }
  }

  /** A wholly free block lies inside the group, so it is one of its clusters. */
  lemma WholeInGroup(geo: Geo, c: nat, free: seq<bool>, owned: set<nat>, h: nat)
    requires Partition(geo, c, free, owned) && WholeBlock(free, geo.frag, h)
    ensures h * geo.frag + geo.frag <= geo.NDblk(c) <= geo.fpg
    ensures h < geo.NCluster(c)
  {
    hide Geo.NDblk, Geo.Reserved;
    var last := h * geo.frag + geo.frag - 1;
    assert free[last];
    BlockBelow(geo.frag, geo.NDblk(c), h);
  }

  lemma {:induction false} SomeWholeBlock(free: seq<bool>, frag: nat) returns (h: nat)
    requires frag > 0 && Recounted(Whole, free, frag) > 0
    ensures WholeBlock(free, frag, h)
  {
    h := TotalWitness(Whole, free, frag, Blocks(free, frag));
    WholeIsAllFree(free, frag, h);
  }

  /** The recounts and the partition after the first n of a run of a are taken. */
  lemma AfterTake(geo: Geo, c: nat, free: seq<bool>, owned: set<nat>, nb: int, nf: int, fr: seq<int>, fr': seq<int>,
                  b: nat, p: nat, a: nat, n: nat)
    requires Partition(geo, c, free, owned) && Counted(free, geo.frag, nb, nf, fr)
    requires b * geo.frag + geo.frag <= |free| && IsRun(Block(free, geo.frag, b), p, a) && 0 < n <= a
    requires FrsumTaken(fr, fr', geo.frag, a, n)
    ensures b * geo.frag + p + n <= |free|
    ensures var lo, frag := b * geo.frag + p, geo.frag;
      var after := Fill(free, lo, n, false);
      && Counted(after, frag, nb + TakeDelta(Whole, frag, a, n), nf + TakeDelta(Loose, frag, a, n), fr')
      && Partition(geo, c, after, owned + Range(lo, n))
      && owned !! Range(lo, n)
  {
    hide Counted, Partition, Recounted, Range, Fill;
    TakeCounted(free, geo.frag, nb, nf, fr, b, p, a, n, fr');
    RunIsFree(free, geo.frag, b, p, a);
    PartitionTake(geo, c, free, owned, b * geo.frag + p, n);
  }

  /** The same after the n fragments at lo, in block h, have been returned. */
  lemma AfterGive(geo: Geo, c: nat, free: seq<bool>, owned: set<nat>, nb: int, nf: int, fr: seq<int>, fr': seq<int>,
                  h: nat, lo: nat, n: nat)
    requires Partition(geo, c, free, owned) && Counted(free, geo.frag, nb, nf, fr) && Range(lo, n) <= owned
    requires 0 < n && h * geo.frag <= lo && lo + n <= h * geo.frag + geo.frag <= |free| && forall i :: lo <= i < lo + n ==> !free[i]
    requires FrsumMoved(fr, fr', geo.frag, Block(free, geo.frag, h), Block(Fill(free, lo, n, true), geo.frag, h))
    ensures var after := Fill(free, lo, n, true);
      && Partition(geo, c, after, owned - Range(lo, n))
      && AgreeOutside(free, after, h * geo.frag, geo.frag) && !WholeBlock(free, geo.frag, h)
      && if WholeBlock(after, geo.frag, h) then Counted(after, geo.frag, nb + 1, nf + n - geo.frag, fr') && h < geo.NCluster(c)
         else Counted(after, geo.frag, nb, nf + n, fr')
  {
    hide Counted, Partition, Range, Fill, WholeBlock, Block, FrsumMoved, AgreeOutside, Geo.NDblk;
    var p := lo - h * geo.frag;
    PartitionGive(geo, c, free, owned, lo, n);
    BlockFilled(free, geo.frag, h, p, n);
    FragsReturned(free, geo.frag, h, p, n, nb, nf, fr, fr');
    var after := Fill(free, lo, n, true);
    if WholeBlock(after, geo.frag, h) {
      WholeInGroup(geo, c, after, owned - Range(lo, n), h);
    }
  }

  lemma RunIsFree(free: seq<bool>, frag: nat, b: nat, p: nat, a: nat)
    requires b * frag + frag <= |free| && IsRun(Block(free, frag, b), p, a)
    ensures p + a <= frag
    ensures forall i :: b * frag + p <= i < b * frag + p + a ==> free[i]
  {
    hide Block;
    forall i | b * frag + p <= i < b * frag + p + a
      ensures free[i]
    {
      assert Block(free, frag, b)[i - b * frag];
    }
  }

  class CylGroup {
    const geo: Geo
    const cgx: nat                  // which group this is
    const blksfree: array<bv8>      // free fragments
    const frsum: array<int>         // free runs by length, inside partly free blocks
    const clustersfree: array<bv8>  // wholly free blocks
    const clustersum: array<int>    // free clusters by capped length
    var nbfree: int                 // cg_cs.cs_nbfree
    var nffree: int                 // cg_cs.cs_nffree
    var rotor: nat
    var frotor: nat
    var maxcluster: nat             // fs_maxcluster[cgx], kept in core beside the group
    ghost var owned: set<nat>       // fragments handed out and not yet returned

    ghost predicate Shape() {
      && geo.Wf() && cgx < geo.ncg
      && blksfree.Length == geo.MapBytes() && frsum.Length == MAXFRAG
      && clustersum.Length == geo.cap + 1
      && clustersfree.Length == geo.ClusterBytes() && geo.NCluster(cgx) <= 8 * clustersfree.Length
      && blksfree != clustersfree && frsum != clustersum
      && blksfree as object != frsum && blksfree as object != clustersum
      && clustersfree as object != frsum && clustersfree as object != clustersum
    }

    ghost function Free(): seq<bool>
      reads blksfree
    {
      Bits(blksfree[..])
    }

    ghost function Clusters(): seq<bool>
      reads clustersfree
    {
      Bits(clustersfree[..])
    }

    ghost predicate ClustersOk()
      requires Shape()
      reads this`maxcluster, blksfree, clustersfree, clustersum
    {
      geo.cap > 0 ==>
        && ClusterMap(Free(), Clusters(), geo.frag, geo.NCluster(cgx))
        && ClusterCounted(Clusters(), clustersum[..], geo.cap)
        && MaxKnown(Clusters(), geo.cap, maxcluster)
    }

    ghost function Rot(): Rotors
      reads this`rotor, this`frotor
    {
      Rotors(rotor, frotor)
    }

    ghost predicate Valid()
      reads this, blksfree, frsum, clustersfree, clustersum
    {
      && Shape()
      && Counted(Free(), geo.frag, nbfree, nffree, frsum[..])
      && ClustersOk()
      && Partition(geo, cgx, Free(), owned)
      && rotor % geo.frag == 0 && rotor + geo.frag <= geo.fpg
      && frotor < 8 * blksfree.Length
    }

    /** The zeroed group that newfs starts from: every unreserved fragment counts as taken. */
    constructor (geo: Geo, cgx: nat)
      requires geo.Wf() && cgx < geo.ncg
      ensures this.geo == geo && this.cgx == cgx && Shape()
      ensures fresh(blksfree) && fresh(frsum) && fresh(clustersfree) && fresh(clustersum)
      ensures forall i :: 0 <= i < blksfree.Length ==> blksfree[i] == 0
      ensures forall i :: 0 <= i < clustersfree.Length ==> clustersfree[i] == 0
      ensures forall i :: 0 <= i < frsum.Length ==> frsum[i] == 0
      ensures forall i :: 0 <= i < clustersum.Length ==> clustersum[i] == 0
      ensures nbfree == 0 && nffree == 0 && rotor == 0 && frotor == 0 && maxcluster == geo.cap && owned == {}
    {
      this.geo, this.cgx := geo, cgx;
      this.blksfree := new bv8[geo.MapBytes()](i => 0);
      this.frsum := new int[MAXFRAG](i => 0);
      this.clustersfree := new bv8[geo.ClusterBytes()](i => 0);
      this.clustersum := new int[geo.cap + 1](i => 0);
      nbfree, nffree, rotor, frotor, maxcluster, owned := 0, 0, 0, 0, geo.cap, {};
      new;
      geo.ClustersFit(cgx);
    }

    /** ffs_clusteracct: nothing to do when clusters are not summarised. The map has just
        changed inside block h, which thereby became or stopped being wholly free. */
    method ClusterUpdate(h: nat, cnt: int, ghost before: seq<bool>)
      requires Shape() && (cnt == 1 || cnt == -1)
      requires h < geo.NCluster(cgx) && AgreeOutside(before, Free(), h * geo.frag, geo.frag)
      requires WholeBlock(before, geo.frag, h) == (cnt == -1)
      requires WholeBlock(Free(), geo.frag, h) == (cnt == 1)
      requires geo.cap > 0 ==> ClusterMap(before, Clusters(), geo.frag, geo.NCluster(cgx))
      requires geo.cap > 0 ==> ClusterCounted(Clusters(), clustersum[..], geo.cap)
      modifies this`maxcluster, clustersfree, clustersum
      ensures ClustersOk()
    {
      hide Bits, WholeBlock, ClusterCounted, RunLen, Geo.NDblk, Geo.Wf;
      if geo.cap > 0 {
        ClusterMapFlipped(before, Free(), Clusters(), geo.frag, geo.NCluster(cgx), h);
        maxcluster := ClusterAcct(clustersfree, clustersum, geo.cap, geo.NCluster(cgx), h, cnt);
      }
    }

    /** The address ffs_alloccgblk really looks for: the rotor's successor when there is no
        preference, and the matching zone of this group when the preference lies elsewhere. */
    function Wanted(bpref: nat): nat
      requires geo.Wf()
      reads this`rotor
    {
      if bpref == 0 then geo.Base(cgx) + rotor + geo.frag
      else if geo.Dtog(bpref) != cgx then
        (if bpref < geo.Data(geo.Dtog(bpref)) then geo.Meta(cgx) else geo.Data(cgx))
      else bpref
    }

    /** The same as a block boundary inside the group. */
    function WantedBlock(bpref: nat): nat
      requires geo.Wf()
      reads this`rotor
    {
      geo.Dtogd(geo.Blknum(Wanted(bpref)))
    }

    lemma WantedAligned(bpref: nat)
      requires geo.Wf() && cgx < geo.ncg && bpref < geo.size
      requires rotor % geo.frag == 0 && rotor + geo.frag <= geo.fpg
      ensures WantedBlock(bpref) % geo.frag == 0 && WantedBlock(bpref) < geo.fpg
    {
      if geo.fpg % geo.frag != 0 {
        assert geo.ncg == 1 && cgx == 0 && geo.size <= geo.fpg;
        SmallMod(bpref, geo.fpg);
        assert bpref == 0 ==> Wanted(bpref) < geo.fpg by {
          SumAligned(rotor, geo.frag);
        }
      }
      geo.PreferredBlock(Wanted(bpref));
    }

    /** Where the wanted address lies in the group. */
    lemma WantedIs(bpref: nat)
      requires geo.Wf() && cgx < geo.ncg && bpref < geo.size
      requires rotor % geo.frag == 0 && rotor + geo.frag <= geo.fpg
      ensures var at := PreferredAt(geo, cgx, rotor, bpref);
        geo.Dtogd(Wanted(bpref)) == at && WantedBlock(bpref) == DownTo(at, geo.frag) && at < geo.fpg
    {
      hide Geo.Wf, Geo.Dtogd, Geo.Dtog, Geo.Base, Geo.Blknum;
      GroupShape(geo);
      var w := Wanted(bpref);
      assert geo.Dtogd(w) == PreferredAt(geo, cgx, rotor, bpref) by { WantedOffset(bpref); }
      if geo.fpg % geo.frag == 0 {
        BlknumInGroup(geo, w);
      } else {
        WantedInOne(bpref);
      }
    }

    lemma WantedOffset(bpref: nat)
      requires geo.Wf() && cgx < geo.ncg
      ensures geo.Dtogd(Wanted(bpref)) == PreferredAt(geo, cgx, rotor, bpref) < geo.fpg
    {
      hide Geo.Wf;
      GroupShape(geo);
      OffsetIn(geo, cgx, rotor + geo.frag);
      OffsetIn(geo, cgx, geo.dblkno);
      OffsetIn(geo, cgx, geo.dblkno + geo.metaspace);
      ZoneTest(geo, bpref);
    }

    lemma WantedInOne(bpref: nat)
      requires geo.Wf() && cgx < geo.ncg && bpref < geo.size && geo.fpg % geo.frag != 0
      requires rotor % geo.frag == 0 && rotor + geo.frag <= geo.fpg
      ensures var w := Wanted(bpref);
        geo.Dtogd(w) == w < geo.fpg && geo.Dtogd(geo.Blknum(w)) == DownTo(w, geo.frag)
    {
      var w := Wanted(bpref);
      OneGroupOnly(geo, bpref);
      SumAligned(rotor, geo.frag);
      assert w < geo.fpg;
      SmallMod(w, geo.fpg);
      SmallMod(w - w % geo.frag, geo.fpg);
    }

    /** The test of the wanted block is one of the fragments at the preferred place. */
    lemma WantedTest(bpref: nat)
      requires Valid() && bpref < geo.size
      ensures var at, w := PreferredAt(geo, cgx, rotor, bpref), WantedBlock(bpref);
        && geo.Dtogd(Wanted(bpref)) == at < geo.fpg && w == DownTo(at, geo.frag) && w % geo.frag == 0
        && var h := geo.Fragstoblks(w);
           && geo.Fragstoblks(at) == h && h * geo.frag == w && HasBlock(geo.frag, blksfree[..], h)
           && IsBlock(geo.frag, blksfree[..], h) == WholeBlock(Free(), geo.frag, h)
    {
      hide Bits, Counted, ClustersOk, Partition, Recounted, IsBlock, Geo.NDblk, Geo.Reserved, PreferredAt, Wanted;
      var at, w := PreferredAt(geo, cgx, rotor, bpref), WantedBlock(bpref);
      WantedIs(bpref);
      WantedAligned(bpref);
      geo.MapHoldsBlocks(w);
      SameBlockNo(at, geo.frag);
      BlockTests(geo.frag, blksfree[..], w / geo.frag);
    }

    /** The search of ffs_alloccgblk: the wanted block if it is free, else the next one in the map. */
    method FindBlock(bpref: nat) returns (bno: nat)
      requires Valid() && nbfree > 0 && bpref < geo.size
      modifies this`rotor, this`frotor
      ensures Valid()
      ensures bno % geo.frag == 0 && WholeBlock(Free(), geo.frag, geo.Fragstoblks(bno))
      ensures geo.Fragstoblks(bno) * geo.frag == bno
      ensures var want := old(WantedBlock(bpref));
        if WholeBlock(Free(), geo.frag, geo.Fragstoblks(want)) then bno == want && rotor == old(rotor) && frotor == old(frotor)
        else rotor == if bno >= geo.Dtogd(geo.Data(cgx)) then bno else old(rotor)
      ensures BlockPick(geo, cgx, Free(), old(Rot()), bpref, bno, Rot())
    {
      hide Bits, Counted, ClustersOk, Partition, HasRun, Recounted, IsSet, BlockMask, Fill, IsBlock, Geo.NDblk, Geo.Reserved,
        FirstRun, PreferredAt, BlockPick, WholeBlock, DownTo, Wanted, Geo.Wf, Geo.Fragstoblks, Geo.Dtogd, Geo.Data, Geo.DataOffset,
        Geo.Blknum;
      GroupShape(geo);
      var bp := Wanted(bpref);
      bno := geo.Dtogd(geo.Blknum(bp));
      WantedTest(bpref);
      DataZone(geo, cgx);
      if !IsBlock(geo.frag, blksfree[..], geo.Fragstoblks(bno)) {
        bno := NextBlock(geo.Dtogd(bp));
      }
      BlockPicked(geo, cgx, Free(), old(Rot()), bpref, geo.Dtogd(bp), bno, Rot());
    }

    /** "Take the next available block in this cylinder group", and the block rotor with it if that is in the data zone. */
    method NextBlock(at: nat) returns (bno: nat)
      requires Valid() && nbfree > 0 && at < geo.fpg
      modifies this`rotor, this`frotor
      ensures Valid() && bno % geo.frag == 0 && WholeBlock(Free(), geo.frag, geo.Fragstoblks(bno))
      ensures geo.Fragstoblks(bno) * geo.frag == bno && FirstRun(Free(), geo.frag, geo.frag, DownTo(at, 8), bno)
      ensures rotor == (if bno >= geo.DataOffset() then bno else old(rotor)) && frotor == DownTo(bno, 8)
    {
      hide Bits, Counted, ClustersOk, Partition, HasRun, Recounted, Geo.NDblk, Geo.Reserved, FirstRun, WholeBlock, FirstStart, DownTo,
        Geo.Fragstoblks, Geo.DataOffset, Geo.Dtogd, Geo.Data;
      ghost var h := WholeHasRun();
      geo.MapCovers();
      var last;
      bno, last := MapSearch(blksfree, geo.frag, at / 8, geo.frag);
      FoundBlock(at, bno);
      frotor := last;
      DataZone(geo, cgx);
      if bno >= geo.Dtogd(geo.Data(cgx)) {
        rotor := bno;
      }
    }

    lemma FoundBlock(at: nat, bno: nat)
      requires Valid() && FirstStart(blksfree[..], geo.frag, geo.frag, 8 * (at / 8), bno)
      ensures bno % geo.frag == 0 && WholeBlock(Free(), geo.frag, geo.Fragstoblks(bno)) && geo.Fragstoblks(bno) * geo.frag == bno
      ensures FirstRun(Free(), geo.frag, geo.frag, DownTo(at, 8), bno) && bno + geo.frag <= geo.fpg && DownTo(bno, 8) < 8 * blksfree.Length
    {
      hide Bits, Counted, ClustersOk, Partition, HasRun, Recounted, Geo.NDblk, Geo.Reserved, FirstRun, WholeBlock;
      geo.MapCovers();
      FirstMeans(blksfree[..], geo.frag, geo.frag, 8 * (at / 8), bno);
      WholeRun(blksfree[..], geo.frag, bno / geo.frag, bno % geo.frag);
      DivisionLaw(bno, geo.frag);
      WholeInGroup(geo, cgx, Free(), owned, bno / geo.frag);
    }

    lemma WholeHasRun() returns (h: nat)
      requires Valid() && nbfree > 0
      ensures HasRun(blksfree[..], geo.frag, h, 0, geo.frag)
    {
      hide Bits, IsRun, Partition, ClustersOk, Recounted;
      h := SomeWholeBlock(Free(), geo.frag);
      WholeIsAllFree(Free(), geo.frag, h);
    }

    /** Gives back all but the first size fragments of a block just taken, as one loose run. */
    method GiveTail(bno: nat, size: nat)
      requires Shape() && 1 <= size <= geo.frag && bno + geo.frag <= |Free()|
      modifies this`nffree, blksfree, frsum
      ensures Free() == Fill(old(Free()), bno + size, geo.frag - size, true)
      ensures nffree == old(nffree) + geo.frag - size
      ensures FrsumTaken(old(frsum[..]), frsum[..], geo.frag, geo.frag, size)
    {
      hide Bits, Geo.NDblk;
      if size != geo.frag {
        FillBits(blksfree, bno + size, geo.frag - size, true);
        nffree := nffree + (geo.frag - size);
        frsum[geo.frag - size] := frsum[geo.frag - size] + 1;
      }
    }

    /** The accounting of ffs_alloccgblk once a block has been chosen. */
    method TakeBlock(bno: nat, size: nat)
      requires Valid() && 1 <= size <= geo.frag
      requires WholeBlock(Free(), geo.frag, bno / geo.frag) && (bno / geo.frag) * geo.frag == bno
      modifies this, blksfree, frsum, clustersfree, clustersum
      ensures Valid() && rotor == old(rotor) && frotor == old(frotor)
      ensures bno + geo.frag <= |Free()| && Free() == Fill(old(Free()), bno, size, false)
      ensures owned == old(owned) + Range(bno, size) && old(owned) !! Range(bno, size)
      ensures nbfree == old(nbfree) - 1 && nffree == old(nffree) + geo.frag - size
    {
      hide Bits, Counted, ClusterMap, ClusterCounted, MaxKnown, Partition, Range, Geo.NDblk, WholeBlock, Fill,
        AgreeOutside, Block, IsRun, AllFree, Geo.Reserved, BitOf, Mask, RunLen;
      ghost var free0, fr0, nb0, nf0, own0 := Free(), frsum[..], nbfree, nffree, owned;
      var blkno := bno / geo.frag;
      WholeInGroup(geo, cgx, free0, owned, blkno);
      PutBlock(blksfree, geo.frag, blkno, false);
      ghost var free1 := Free();
      BlockCleared(free0, geo.frag, blkno, geo.frag);
      ClusterUpdate(blkno, -1, free0);
      nbfree := nbfree - 1;
      GiveTail(bno, size);
      ghost var free2 := Fill(free0, bno, size, false);
      assert Free() == free2 by { BlockPart(free0, geo.frag, blkno, size); }
      owned := owned + Range(bno, size);
      WholeIsAllFree(free0, geo.frag, blkno);
      AfterTake(geo, cgx, free0, own0, nb0, nf0, fr0, frsum[..], blkno, 0, geo.frag, size);
      BlockCleared(free0, geo.frag, blkno, size);
      if geo.cap > 0 {
        ClusterMapKept(free1, free2, Clusters(), geo.frag, geo.NCluster(cgx), blkno);
      }
    }

    /** ffs_alloccgblk: takes a wholly free block, the wanted one if it is free, and keeps only
        its first size fragments. */
    method AllocCgBlk(bpref: nat, size: nat) returns (bno: nat)
      requires Valid() && nbfree > 0 && 1 <= size <= geo.frag && bpref < geo.size
      modifies this, blksfree, frsum, clustersfree, clustersum
      ensures Valid()
      ensures bno % geo.frag == 0 && old(WholeBlock(Free(), geo.frag, geo.Fragstoblks(bno)))
      ensures bno + geo.frag <= |Free()| && Free() == Fill(old(Free()), bno, size, false)
      ensures owned == old(owned) + Range(bno, size) && old(owned) !! Range(bno, size)
      ensures nbfree == old(nbfree) - 1 && nffree == old(nffree) + geo.frag - size
      ensures var want := old(WantedBlock(bpref));
        if old(WholeBlock(Free(), geo.frag, geo.Fragstoblks(want))) then bno == want && rotor == old(rotor) && frotor == old(frotor)
        else rotor == if bno >= geo.Dtogd(geo.Data(cgx)) then bno else old(rotor)
      ensures BlockPick(geo, cgx, old(Free()), old(Rot()), bpref, bno, Rot())
    {
      hide Bits, Counted, ClustersOk, Partition, Range, WholeBlock, Fill, BlockPick;
      bno := FindBlock(bpref);
      TakeBlock(bno, size);
    }

    /** The histogram loses a run of a and gains what is left of it. */
    method ShortenRun(a: nat, n: nat)
      requires frsum.Length == MAXFRAG && ValidFrag(geo.frag) && 0 < n <= a < geo.frag
      modifies frsum
      ensures FrsumTaken(old(frsum[..]), frsum[..], geo.frag, a, n)
    {
      frsum[a] := frsum[a] - 1;
      if n != a {
        frsum[a - n] := frsum[a - n] + 1;
      }
    }

    /** Takes the first n fragments of a maximal free run of a at bno inside a partly free block:
        the accounting shared by ffs_alloccg and ffs_fragextend. */
    method TakeFrags(bno: nat, a: nat, n: nat)
      requires Valid() && 0 < n <= a < geo.frag
      requires HasRun(blksfree[..], geo.frag, bno / geo.frag, bno % geo.frag, a)
      modifies this, blksfree, frsum
      ensures Valid() && rotor == old(rotor) && frotor == old(frotor)
      ensures bno + n <= |Free()| && Free() == Fill(old(Free()), bno, n, false)
      ensures owned == old(owned) + Range(bno, n) && old(owned) !! Range(bno, n)
      ensures nbfree == old(nbfree) && nffree == old(nffree) - n
    {
      hide Bits, Counted, ClusterMap, ClusterCounted, MaxKnown, Partition, Range, Geo.NDblk, WholeBlock, Fill,
        IsRun, Geo.Reserved, AgreeOutside, BitOf, Mask, FrsumTaken;
      ghost var free0, fr0, nb0, nf0, own0 := Free(), frsum[..], nbfree, nffree, owned;
      ghost var h, p := bno / geo.frag, bno % geo.frag;
      DivisionLaw(bno, geo.frag);
      PartialRun(free0, geo.frag, h, p, a, n);
      FillBits(blksfree, bno, n, false);
      nffree := nffree - n;
      ShortenRun(a, n);
      owned := owned + Range(bno, n);
      AfterTake(geo, cgx, free0, own0, nb0, nf0, fr0, frsum[..], h, p, a, n);
      if geo.cap > 0 {
        ClusterMapKept(free0, Free(), Clusters(), geo.frag, geo.NCluster(cgx), h);
      }
    }

    /** A slot of cg_frsum is non-zero exactly when the map has a run of that length. */
    lemma SlotHasRun(k: nat)
      requires Valid() && 1 <= k < geo.frag
      ensures frsum[k] >= 0
      ensures frsum[k] != 0 <==> exists h: nat, p: nat :: HasRun(blksfree[..], geo.frag, h, p, k)
    {
      hide Bits, ClustersOk, Partition, Recounted;
      assert frsum[..][k] == Recounted(RunsOf(k), Free(), geo.frag);
      RunsCounted(blksfree[..], geo.frag, k);
    }

    /** The first loop of ffs_alloccg: the smallest sufficient run length in use, or fs_frag. */
    method SmallestFit(size: nat) returns (allocsiz: nat)
      requires Valid() && 1 <= size < geo.frag
      ensures size <= allocsiz <= geo.frag
      ensures allocsiz < geo.frag ==> exists h: nat, p: nat :: HasRun(blksfree[..], geo.frag, h, p, allocsiz)
      ensures forall k: nat, h: nat, p: nat :: size <= k < allocsiz ==> !HasRun(blksfree[..], geo.frag, h, p, k)
    {
      hide Valid, HasRun;
      Bounds();
      allocsiz := size;
      while allocsiz < geo.frag
        invariant size <= allocsiz <= geo.frag
        invariant forall k: nat, h: nat, p: nat :: size <= k < allocsiz ==> !HasRun(blksfree[..], geo.frag, h, p, k)
      {
        SlotHasRun(allocsiz);
        if frsum[allocsiz] != 0 {
          break;
        }
        allocsiz := allocsiz + 1;
      }
    }

    lemma Bounds()
      requires Valid()
      ensures frsum.Length == MAXFRAG && geo.Wf() && cgx < geo.ncg
    {}

    /** cs_nbfree is positive exactly when some block is wholly free. */
    lemma NbfreeExact()
      requires Valid()
      ensures nbfree >= 0
      ensures nbfree != 0 <==> exists h: nat, p: nat :: HasRun(blksfree[..], geo.frag, h, p, geo.frag)
    {
      hide Bits, ClustersOk, Partition, Recounted;
      if nbfree > 0 {
        var h := WholeHasRun();
      }
      if h: nat, p: nat :| HasRun(blksfree[..], geo.frag, h, p, geo.frag) {
        WholeCounted(blksfree[..], geo.frag, h, p);
      }
    }

    /** ffs_mapsearch for a fragment: from the preferred byte, or the fragment rotor. */
    method SearchFrags(bpref: nat, allocsiz: nat) returns (bno: nat)
      requires Valid() && 1 <= allocsiz < geo.frag && bpref < geo.size
      requires exists h: nat, p: nat :: HasRun(blksfree[..], geo.frag, h, p, allocsiz)
      modifies this`frotor
      ensures Valid() && FragPick(geo, Free(), old(Rot()), bpref, allocsiz, bno, Rot())
      ensures HasRun(blksfree[..], geo.frag, bno / geo.frag, bno % geo.frag, allocsiz)
    {
      hide Bits, Counted, ClustersOk, Partition, HasRun, FirstRun;
      geo.MapCovers();
      var start := if bpref != 0 then geo.Dtogd(bpref) / 8 else frotor / 8;
      bno, frotor := MapSearch(blksfree, geo.frag, start, allocsiz);
      FirstMeans(blksfree[..], geo.frag, allocsiz, 8 * start, bno);
      RunInMap(blksfree[..], geo.frag, bno, allocsiz);
    }

    /** ffs_alloccg. Succeeds exactly when the group can satisfy the request; a fragment comes
        from the smallest sufficient partial run, and a whole block is split only when no
        partial run is large enough. The changes to cs_nbfree and cs_nffree are returned so
        that the caller can make them in the other two summaries as well. */
    method AllocCg(bpref: nat, size: nat, rsize: nat) returns (ok: bool, bno: nat, dnb: int, dnf: int)
      requires Valid() && bpref < geo.size
      requires 1 <= rsize <= size <= geo.frag && (size == rsize || size == geo.frag)
      modifies this, blksfree, frsum, clustersfree, clustersum
      ensures Valid()
      ensures ok <==> old(CanAlloc(blksfree[..], geo.frag, size))
      ensures !ok ==> unchanged(this, blksfree, frsum, clustersfree, clustersum) && dnb == dnf == 0
      ensures ok ==> old(BestFit(blksfree[..], geo.frag, size, bno))
      ensures ok ==> Picked(geo, cgx, old(Free()), old(Rot()), bpref, size, bno, Rot())
      ensures ok ==> Took(bno, rsize, old(Free()), old(owned)) && bno % geo.frag + rsize <= geo.frag
      ensures nbfree == old(nbfree) + dnb && nffree == old(nffree) + dnf
    {
      hide Valid, HasRun, Bits, Range, WholeBlock, Fill, BlockPick, FragPick;
      ok, bno, dnb, dnf := true, 0, 0, 0;
      Bounds();
      NbfreeExact();
      var allocsiz := geo.frag;
      if size < geo.frag {
        allocsiz := SmallestFit(size);
      }
      assert blksfree[..] == old(blksfree[..]);
      NoShorter(blksfree[..], geo.frag, size, allocsiz);
      if allocsiz == geo.frag {
        if nbfree == 0 {
          ok := false;
          assert forall k: nat, h: nat, p: nat :: size <= k < geo.frag || k == geo.frag ==> !HasRun(blksfree[..], geo.frag, h, p, k);
          return;
        }
        bno := AllocCgBlk(bpref, rsize);
        WholeHasRunAt(old(blksfree[..]), geo.frag, bno);
        RunTaken(old(blksfree[..]), geo.frag, bno, geo.frag, rsize);
        dnb, dnf := -1, geo.frag - rsize;
      } else {
        bno := SearchFrags(bpref, allocsiz);
        RunTaken(blksfree[..], geo.frag, bno, allocsiz, size);
        TakeFrags(bno, allocsiz, size);
        dnf := dnf - size;
      }
    }

    /** With no block free in the summary, no whole block can be had. */
    lemma NoBlocks()
      requires Valid() && nbfree == 0
      ensures !CanAlloc(blksfree[..], geo.frag, geo.frag)
    {
      hide Valid, HasRun;
      NbfreeExact();
      assert forall k: nat, h: nat, p: nat :: k == geo.frag ==> !HasRun(blksfree[..], geo.frag, h, p, k);
    }

    /** What has been handed out is inside the group and is no metadata; fragment 0 of group 0 never is. */
    lemma OwnedInside(i: nat)
      requires Valid() && i in owned
      ensures i < geo.NDblk(cgx) && !geo.Reserved(cgx, i) && geo.Base(cgx) + i != 0
    {
      hide Bits, Counted, ClustersOk, Geo.NDblk, ClearFrom;
      if cgx > 0 {
        MulMono(1, cgx, geo.fpg);
      }
    }

    /** The two counts together say how many fragments are free. */
    lemma FreeSpace()
      requires Valid()
      ensures nbfree * geo.frag + nffree == FreeCount(Free())
    {
      hide Recounted, FreeCount, Bits, Partition, ClustersOk, Geo.NDblk;
      ProductMod(blksfree.Length, 8, geo.frag);
      RecountedSplit(Free(), geo.frag);
    }

    lemma OwnedNotFree(lo: nat, n: nat)
      requires Valid() && Range(lo, n) <= owned
      ensures n > 0 ==> lo + n <= |Free()|
      ensures forall i :: lo <= i < lo + n ==> i < |Free()| && !Free()[i]
    {
      hide Counted, FreeCount, Bits, ClustersOk, Geo.NDblk, Geo.Reserved;
      if n > 0 {
        assert lo + n - 1 in Range(lo, n);
        OwnedInside(lo + n - 1);
      }
      forall i | lo <= i < lo + n
        ensures i < |Free()| && !Free()[i]
      {
        assert i in Range(lo, n);
        OwnedInside(i);
      }
    }

    lemma TookNotZero(bno: nat, n: nat, free: seq<bool>, own: set<nat>)
      requires Valid() && n > 0 && Took(bno, n, free, own)
      ensures geo.Base(cgx) + bno != 0
    {
      hide Valid, Fill;
      assert bno in Range(bno, n);
      OwnedInside(bno);
    }

    /** ffs_fragextend: the owner of [bno, bno + osize) asks for nsize fragments at the same
        place. Succeeds exactly when the extra ones are free and in the same block. */
    method FragExtend(bno: nat, osize: nat, nsize: nat) returns (ok: bool)
      requires Valid() && 0 < osize < nsize <= geo.frag
      requires bno % geo.frag + osize <= geo.frag && Range(bno, osize) <= owned
      modifies this, blksfree, frsum
      ensures Valid() && rotor == old(rotor) && frotor == old(frotor)
      ensures ok <==> bno % geo.frag + nsize <= geo.frag && old(AllSet(Free(), bno + osize, nsize - osize))
      ensures !ok ==> unchanged(this, blksfree, frsum)
      ensures ok ==> Took(bno + osize, nsize - osize, old(Free()), old(owned))
      ensures nbfree == old(nbfree) && nffree == old(nffree) - (if ok then nsize - osize else 0)
    {
      hide Valid, HasRun, RunIn, Range, Fill, BitOf, Geo.NDblk;
      Bounds();
      OwnedInBlock(bno, osize);
      var bbase := bno % geo.frag;
      if bbase > (bno + nsize - 1) % geo.frag {
        FragWrap(bno, nsize, geo.frag);
        return false;
      }
      FragWrap(bno, nsize, geo.frag);
      var end;
      ok, end := FreeTail(bno, osize, nsize);
      if ok {
        TailIsRun(Free(), geo.frag, bno, osize, end);
        RunMeans(blksfree[..], geo.frag, (bno + osize) / geo.frag, (bno + osize) % geo.frag, end - osize);
        TakeFrags(bno + osize, end - osize, nsize - osize);
      }
    }

    /** The two scans of ffs_fragextend: are the extra fragments free, and where does their run end? */
    method FreeTail(bno: nat, osize: nat, nsize: nat) returns (ok: bool, end: nat)
      requires geo.frag > 0 && osize < nsize && bno % geo.frag + nsize <= geo.frag
      requires bno - bno % geo.frag + geo.frag <= 8 * blksfree.Length
      ensures ok <==> AllSet(Free(), bno + osize, nsize - osize)
      ensures ok ==> nsize <= end <= geo.frag - bno % geo.frag && AllSet(Free(), bno + osize, end - osize)
      ensures ok ==> bno % geo.frag + end == geo.frag || !Free()[bno + end]
    {
      hide Bits;
      var room := geo.frag - bno % geo.frag;
      end := ScanFree(bno, osize, nsize);
      ok := end == nsize;
      if ok {
        end := ScanFree(bno, nsize, room);
      }
    }

    /** The first fragment of [bno + from, bno + to) that is not free, or the end. */
    method ScanFree(bno: nat, from: nat, to: nat) returns (i: nat)
      requires from <= to && bno + to <= 8 * blksfree.Length
      ensures from <= i <= to && AllSet(Free(), bno + from, i - from) && (i < to ==> !Free()[bno + i])
    {
      hide Bits, BitOf, IsSet;
      i := from;
      while i < to
        invariant from <= i <= to && AllSet(Free(), bno + from, i - from)
      {
        if !IsSet(blksfree[..], bno + i) {
          break;
        }
        i := i + 1;
      }
    }

    /** The free fragments beside an owned one are all in cs_nffree. */
    lemma TooFewFrags(bno: nat, osize: nat, nsize: nat)
      requires Valid() && 0 < osize < nsize <= geo.frag && nffree < nsize - osize
      requires bno % geo.frag + osize <= geo.frag && Range(bno, osize) <= owned
      ensures !(bno % geo.frag + nsize <= geo.frag && AllSet(Free(), bno + osize, nsize - osize))
    {
      hide Bits, ClustersOk, Partition, Range, Total;
      Bounds();
      OwnedInBlock(bno, osize);
      DivisionLaw(bno, geo.frag);
      if bno % geo.frag + nsize <= geo.frag && AllSet(Free(), bno + osize, nsize - osize) {
        LooseAtLeast(Free(), geo.frag, bno / geo.frag, bno % geo.frag + osize, nsize - osize);
        assert false;
      }
    }

    /** ffs_blkfree_cg: returns [bno, bno + n), a piece of one block that the caller owns, and
        reassembles the block if it is now wholly free. Neither "freeing free block" nor
        "freeing free frag" can happen. */
    method BlkFree(bno: nat, n: nat) returns (dnb: int, dnf: int)
      requires Valid() && 1 <= n && bno % geo.frag + n <= geo.frag && Range(bno, n) <= owned
      modifies this, blksfree, frsum, clustersfree, clustersum
      ensures Valid() && rotor == old(rotor) && frotor == old(frotor)
      ensures bno + n <= |Free()| && Free() == Fill(old(Free()), bno, n, true)
      ensures owned == old(owned) - Range(bno, n)
      ensures nbfree == old(nbfree) + dnb && nffree == old(nffree) + dnf
    {
      hide Valid, Range, Fill;
      Bounds();
      if n == geo.frag {
        FreeWhole(bno);
        dnb, dnf := 1, 0;
      } else {
        dnb, dnf := FreeFrags(bno, n);
      }
    }

    /** The whole-block branch of ffs_blkfree_cg. */
    method FreeWhole(bno: nat)
      requires Valid() && bno % geo.frag == 0 && Range(bno, geo.frag) <= owned
      modifies this, blksfree, frsum, clustersfree, clustersum
      ensures Valid() && rotor == old(rotor) && frotor == old(frotor)
      ensures bno + geo.frag <= |Free()| && Free() == Fill(old(Free()), bno, geo.frag, true)
      ensures owned == old(owned) - Range(bno, geo.frag)
      ensures nbfree == old(nbfree) + 1 && nffree == old(nffree)
    {
      hide Bits, Counted, ClusterMap, ClusterCounted, MaxKnown, Partition, Range, Geo.NDblk, WholeBlock, Fill,
        IsFreeBlock, AgreeOutside, Block, IsRun, AllFree, Geo.Reserved, BitOf, Mask, RunLen;
      Bounds();
      OwnedInBlock(bno, geo.frag);
      ghost var free0, own0 := Free(), owned;
      var fragno := bno / geo.frag;
      DivisionLaw(bno, geo.frag);
      BlockTests(geo.frag, blksfree[..], fragno);
      if !IsFreeBlock(geo.frag, blksfree[..], fragno) {
        assert false;  // panic: freeing free block
      }
      PutBlock(blksfree, geo.frag, fragno, true);
      BlockFilled(free0, geo.frag, fragno, 0, geo.frag);
      owned := owned - Range(bno, geo.frag);
      PartitionGive(geo, cgx, free0, own0, bno, geo.frag);
      WholeInGroup(geo, cgx, Free(), owned, fragno);
      ClusterUpdate(fragno, 1, free0);
      WholeReturned(free0, geo.frag, fragno, nbfree, nffree, frsum[..]);
      nbfree := nbfree + 1;
    }

    /** The fragment branch of ffs_blkfree_cg. */
    method FreeFrags(bno: nat, n: nat) returns (dnb: int, dnf: int)
      requires Valid() && 1 <= n < geo.frag && bno % geo.frag + n <= geo.frag && Range(bno, n) <= owned
      modifies this, blksfree, frsum, clustersfree, clustersum
      ensures Valid() && rotor == old(rotor) && frotor == old(frotor)
      ensures bno + n <= |Free()| && Free() == Fill(old(Free()), bno, n, true)
      ensures owned == old(owned) - Range(bno, n)
      ensures nbfree == old(nbfree) + dnb && nffree == old(nffree) + dnf
    {
      hide Bits, Counted, ClusterMap, ClusterCounted, MaxKnown, Partition, Range, Geo.NDblk, WholeBlock, Fill,
        IsBlock, Block, RunCount, FrsumMoved, Geo.Reserved, AgreeOutside, BitOf, Mask;
      Bounds();
      OwnedInBlock(bno, n);
      ghost var free0, own0, fr0, nb0, nf0 := Free(), owned, frsum[..], nbfree, nffree;
      DivisionLaw(bno, geo.frag);
      var fragno := bno / geo.frag;
      ReturnBits(fragno, bno, n);
      nffree := nffree + n;
      dnb, dnf := 0, n;
      owned := owned - Range(bno, n);
      AfterGive(geo, cgx, free0, own0, nb0, nf0, fr0, frsum[..], fragno, bno, n);
      var b, f := Reassemble(fragno, free0);
      dnb, dnf := b, n + f;
    }

    /** If the last fragment of block h has come back, the block counts as one, and in the clusters. */
    method Reassemble(h: nat, ghost before: seq<bool>) returns (dnb: int, dnf: int)
      requires Shape() && HasBlock(geo.frag, blksfree[..], h) && AgreeOutside(before, Free(), h * geo.frag, geo.frag)
      requires !WholeBlock(before, geo.frag, h) && (WholeBlock(Free(), geo.frag, h) ==> h < geo.NCluster(cgx))
      requires geo.cap > 0 ==> ClusterMap(before, Clusters(), geo.frag, geo.NCluster(cgx))
      requires geo.cap > 0 ==> ClusterCounted(Clusters(), clustersum[..], geo.cap) && MaxKnown(Clusters(), geo.cap, maxcluster)
      modifies this`nbfree, this`nffree, this`maxcluster, clustersfree, clustersum
      ensures ClustersOk() && nbfree == old(nbfree) + dnb && nffree == old(nffree) + dnf
      ensures if WholeBlock(Free(), geo.frag, h) then dnb == 1 && dnf == 0 - geo.frag else dnb == dnf == 0
    {
      hide Bits, ClusterMap, ClusterCounted, MaxKnown, Geo.NDblk, Geo.Wf, WholeBlock, IsBlock, AgreeOutside;
      dnb, dnf := 0, 0;
      IsBlockWhole(geo.frag, blksfree[..], h);
      if IsBlock(geo.frag, blksfree[..], h) {
        nffree := nffree - geo.frag;
        ClusterUpdate(h, 1, before);
        nbfree := nbfree + 1;
        dnb, dnf := 1, 0 - geo.frag;
      } else if geo.cap > 0 {
        ClusterMapKept(before, Free(), Clusters(), geo.frag, geo.NCluster(cgx), h);
      }
    }

    /** Subtracts the block's runs from the histogram, sets the bits, adds the new runs. */
    method ReturnBits(h: nat, bno: nat, n: nat)
      requires Shape() && HasBlock(geo.frag, blksfree[..], h) && bno + n <= |Free()|
      requires forall i :: bno <= i < bno + n ==> !Free()[i]
      modifies blksfree, frsum
      ensures Free() == Fill(old(Free()), bno, n, true)
      ensures FrsumMoved(old(frsum[..]), frsum[..], geo.frag, Block(old(Free()), geo.frag, h), Block(Free(), geo.frag, h))
    {
      hide Bits, Block, RunCount, Fill;
      AcctBlock(h, -1);
      FreeBits(bno, n);
      AcctBlock(h, 1);
    }

    /** blkmap followed by ffs_fragacct on the stored map and histogram. */
    method AcctBlock(h: nat, cnt: int)
      requires Shape() && HasBlock(geo.frag, blksfree[..], h)
      modifies frsum
      ensures forall k :: 0 <= k < MAXFRAG ==>
        frsum[k] == old(frsum[k]) + if 1 <= k < geo.frag then cnt * RunCount(Block(Free(), geo.frag, h), k) else 0
    {
      hide Bits, BlkMap, BlkBits, InBlock, RunCount, Block;
      var blk := BlkMap(geo.frag, blksfree[..], h * geo.frag);
      BlkMapInBlock(geo.frag, blksfree[..], h * geo.frag);
      BlkMapBlock(geo.frag, blksfree[..], h);
      FragAcct(geo.frag, blk, frsum, cnt);
    }

    /** Sets the bits one by one, checking each. */
    method FreeBits(bno: nat, n: nat)
      requires Shape() && bno + n <= |Free()|
      requires forall i :: bno <= i < bno + n ==> !Free()[i]
      modifies blksfree
      ensures Free() == Fill(old(Free()), bno, n, true)
    {
      hide Bits, BitOf, IsSet, Shape;
      ghost var free0 := Free();
      var i := 0;
      while i < n
        invariant 0 <= i <= n
        invariant Free() == Fill(free0, bno, i, true)
      {
        assert !Free()[bno + i];
        if IsSet(blksfree[..], bno + i) {
          assert false;  // panic: freeing free frag
        }
        SetClrBit(blksfree, bno + i, true);
        i := i + 1;
      }
    }

    /** Where ffs_clusteralloc starts to look, as a block of this group. */
    function ClusterStart(bpref: nat): nat
      requires geo.Wf()
    {
      geo.Dtogd(if geo.Dtog(bpref) != cgx then geo.Data(cgx) else geo.Blknum(bpref)) / geo.frag
    }

    lemma ClusterStartIs(bpref: nat)
      requires geo.Wf() && cgx < geo.ncg && bpref < geo.size
      ensures ClusterStart(bpref) == ClusterFrom(geo, cgx, bpref)
    {
      hide Geo.Wf, Geo.Blknum, Geo.Data;
      GroupShape(geo);
      DataZone(geo, cgx);
      BlknumOffset(geo, bpref);
      SameBlockNo(bpref % geo.fpg, geo.frag);
    }

    /** The search loop of ffs_clusteralloc: the first len consecutive free blocks from start. */
    method FindCluster(start: nat, len: nat) returns (found: bool, first: nat)
      requires Valid() && geo.cap > 0 && len >= 1
      ensures found ==> start <= first && first + len <= geo.NCluster(cgx)
      ensures found ==> forall b: nat :: first <= b < first + len ==> WholeBlock(Free(), geo.frag, b)
      ensures found ==> first + len <= |Clusters()| && AllSet(Clusters(), first, len)
      ensures found ==> forall p: nat :: start <= p < first ==> RunLen(Clusters(), p) < len
      ensures !found ==> forall p: nat :: start <= p ==> RunLen(Clusters(), p) < len
    {
      hide Bits, BitOf, Counted, Partition, ClusterCounted, MaxKnown, WholeBlock, RunLen, Geo.NDblk;
      found, first := ScanClusters(clustersfree, geo.NCluster(cgx), start, len);
      assert Clusters() == old(Clusters());
    }

    /** What becomes of fs_maxcluster, which was m, when a cluster of len is looked for and none taken: it is made exact if it
        promised one that is nowhere, and is left alone otherwise. */
    ghost predicate MaxAfter(m: nat, len: nat)
      reads this`maxcluster, clustersfree
    {
      if len <= m && !HasCluster(Clusters(), geo.cap, len, 0) then LongestCapped(Clusters(), geo.cap, maxcluster)
      else maxcluster == m
    }

    /** The summary tests of ffs_clusteralloc. When they say no, no cluster of len exists
        anywhere in the group; when the second one does, fs_maxcluster becomes exact. */
    method SummaryAllows(len: nat) returns (may: bool)
      requires Valid() && geo.cap > 0 && len >= 1
      modifies this`maxcluster
      ensures Valid()
      ensures may ==> len <= geo.cap
      ensures may <==> HasCluster(Clusters(), geo.cap, len, 0)
      ensures !may ==> forall start: nat :: !HasCluster(Clusters(), geo.cap, len, start)
      ensures MaxAfter(old(maxcluster), len)
    {
      hide Bits, Counted, Partition, ClusterMap, RunLen, HasCluster, LongestCapped, Geo.NDblk, BitOf;
      if maxcluster < len {
        NoCluster(Clusters(), geo.cap, len, maxcluster);
        return false;
      }
      var i := len;
      while i <= geo.cap
        invariant len <= i <= geo.cap + 1
        invariant forall k :: len <= k < i ==> clustersum[k] <= 0
      {
        if clustersum[i] > 0 {
          SlotGives(Clusters(), geo.cap, len, i);
          return true;
        }
        i := i + 1;
      }
      i := len - 1;
      while i > 0
        invariant 0 <= i < len
        invariant forall k :: i < k <= geo.cap ==> clustersum[k] <= 0
      {
        if clustersum[i] > 0 {
          break;
        }
        i := i - 1;
      }
      LargestSlot(Clusters(), clustersum[..], geo.cap, i);
      LongestBounds(Clusters(), geo.cap, i);
      maxcluster := i;
      NoCluster(Clusters(), geo.cap, len, maxcluster);
      return false;
    }

    /** ffs_clusteralloc: takes the first len whole blocks in a row at or after the preferred position.
        It fails only if there is no such cluster, so the test against fs_maxcluster turns
        nothing away; its panics "map mismatch", "allocated out of group" and "lost block" are unreachable. */
    method ClusterAlloc(bpref: nat, len: nat) returns (ok: bool, bno: nat)
      requires Valid() && geo.cap > 0 && len >= 1 && bpref < geo.size
      modifies this, blksfree, frsum, clustersfree, clustersum
      ensures ok <==> old(HasCluster(Clusters(), geo.cap, len, ClusterFrom(geo, cgx, bpref)))
      ensures !ok ==> unchanged(blksfree, frsum, clustersfree, clustersum) && MaxAfter(old(maxcluster), len)
      ensures !ok ==> nbfree == old(nbfree) && nffree == old(nffree) && owned == old(owned)
      ensures ok ==> bno % geo.frag == 0 && FirstCluster(old(Clusters()), len, ClusterFrom(geo, cgx, bpref), geo.Fragstoblks(bno))
      ensures ok ==> Took(bno, len * geo.frag, old(Free()), old(owned))
      ensures ok ==> nbfree == old(nbfree) - len && nffree == old(nffree)
      ensures Valid() && Rot() == old(Rot())
    {
      hide Valid, Bits, WholeBlock, RunLen, Took, HasCluster, AllSet, ClusterFrom, ClusterStart;
      Bounds();
      ok, bno := false, 0;
      var may := SummaryAllows(len);
      assert Clusters() == old(Clusters());
      if !may {
        return;
      }
      var start := ClusterStart(bpref);
      ClusterStartIs(bpref);
      var first;
      ok, first := FindCluster(start, len);
      if !ok {
        NotFound(Clusters(), geo.cap, len, start);
        return;
      }
      ClusterFound(Clusters(), geo.cap, len, start, first);
      bno := first * geo.frag;
      DivModBase(first, geo.frag, 0);
      TakeCluster(first, len, bno, len * geo.frag);
    }

    /** The n fragments at bno have changed hands, from the map free and the owners own, and nothing else has. */
    ghost predicate Took(bno: nat, n: nat, free: seq<bool>, own: set<nat>)
      reads this, blksfree
    {
      && AllSet(free, bno, n)
      && Free() == Fill(free, bno, n, false)
      && owned == own + Range(bno, n)
      && own !! Range(bno, n)
    }

    /** The cluster map has a run of len exactly where the block map has a row of len whole blocks. */
    lemma ClusterRows(p: nat, len: nat)
      requires Valid() && geo.cap > 0 && len >= 1
      ensures RunLen(Clusters(), p) >= len <==> RowAt(Free(), geo.frag, p, len)
    {
      hide Bits, Counted, RunLen, WholeBlock, ClusterCounted, MaxKnown, Geo.NDblk;
      var cl := Clusters();
      if RunLen(cl, p) >= len {
        forall b: nat | p <= b < p + len
          ensures WholeBlock(Free(), geo.frag, b)
        {
          RunCovers(cl, p, b);
        }
      }
      if RowAt(Free(), geo.frag, p, len) {
        forall b: nat | p <= b < p + len
          ensures b < |cl| && cl[b]
        {
          WholeInGroup(geo, cgx, Free(), owned, b);
        }
        WholeInGroup(geo, cgx, Free(), owned, p + len - 1);
        RunLenSplit(cl, p, p + len);
      }
    }

    lemma RowsMean(len: nat, start: nat)
      requires Valid() && geo.cap > 0 && len >= 1
      ensures HasCluster(Clusters(), geo.cap, len, start) == HasRow(Free(), geo.frag, geo.cap, len, start)
      ensures forall p: nat :: RunLen(Clusters(), p) < len ==> !RowAt(Free(), geo.frag, p, len)
    {
      hide Valid, RunLen, RowAt, Bits;
      forall p: nat
        ensures RunLen(Clusters(), p) < len <==> !RowAt(Free(), geo.frag, p, len)
      {
        ClusterRows(p, len);
      }
    }

    /** The two tests made before the cluster is taken, against the block map and against the group's bounds. */
    method CheckCluster(first: nat, len: nat) returns (addr: nat)
      requires Valid() && len >= 1
      requires forall b: nat :: first <= b < first + len ==> WholeBlock(Free(), geo.frag, b)
      ensures addr == geo.Base(cgx) + first * geo.frag && geo.Dtog(addr) == cgx
    {
      hide Valid, Bits, WholeBlock, IsBlock, HasBlock, Geo.NDblk, Geo.Dtog;
      Bounds();
      var i := 0;
      while i < len
        invariant 0 <= i <= len
      {
        BlockInMap(first + i);
        IsBlockWhole(geo.frag, blksfree[..], first + i);
        if !IsBlock(geo.frag, blksfree[..], first + i) {
          assert false;  // panic: map mismatch
        }
        i := i + 1;
      }
      BlockInMap(first);
      addr := geo.Base(cgx) + first * geo.frag;
      if geo.Dtog(addr) != cgx {
        assert false;  // panic: allocated out of group
      }
    }

    lemma BlockInMap(b: nat)
      requires Valid() && WholeBlock(Free(), geo.frag, b)
      ensures HasBlock(geo.frag, blksfree[..], b) && geo.Dtog(geo.Base(cgx) + b * geo.frag) == cgx
    {
      hide Bits, Counted, ClustersOk;
      WholeInGroup(geo, cgx, Free(), owned, b);
      AddressInGroup(geo, cgx, b * geo.frag);
    }

    /** The last loops of ffs_clusteralloc: each block is asked for by name and must be the one returned. */
    method TakeCluster(first: nat, len: nat, bno: nat, n: nat)
      requires Valid() && len >= 1 && bno == first * geo.frag && n == len * geo.frag
      requires forall b: nat :: first <= b < first + len ==> WholeBlock(Free(), geo.frag, b)
      modifies this, blksfree, frsum, clustersfree, clustersum
      ensures Valid() && Rot() == old(Rot())
      ensures Took(bno, n, old(Free()), old(owned))
      ensures nbfree == old(nbfree) - len && nffree == old(nffree)
    {
      hide Valid, Bits, WholeBlock, Range, Fill;
      ghost var free0, own0, nb0, nf0 := Free(), owned, nbfree, nffree;
      Bounds();
      var addr := CheckCluster(first, len);
      assert Free() == free0;
      ClusterBegin(free0, geo.frag, first, bno);
      var i, rel := 0, bno;
      while i < len
        invariant 0 <= i <= len && Valid() && rel == (first + i) * geo.frag && bno <= rel && Rot() == old(Rot())
        invariant Took(bno, rel - bno, free0, own0)
        invariant nbfree == nb0 - i && nffree == nf0
        invariant forall b: nat :: first + i <= b < first + len ==> WholeBlock(Free(), geo.frag, b)
      {
        ghost var free1 := Free();
        MulStep(first + i, geo.frag);
        TakeNamed(first + i, addr + (rel - bno), rel);
        ClusterStep(free0, free1, own0, geo.frag, first + i, bno, rel, first + len);
        i, rel := i + 1, rel + geo.frag;
      }
      assert rel - bno == n by { MulSplit(first, len, geo.frag); }
    }

    /** One block of the cluster, by its address. */
    method TakeNamed(b: nat, addr: nat, rel: nat)
      requires Valid() && WholeBlock(Free(), geo.frag, b) && rel == b * geo.frag && addr == geo.Base(cgx) + rel
      modifies this, blksfree, frsum, clustersfree, clustersum
      ensures Valid() && rel + geo.frag <= |Free()| && Free() == Fill(old(Free()), rel, geo.frag, false) && Rot() == old(Rot())
      ensures owned == old(owned) + Range(rel, geo.frag) && old(owned) !! Range(rel, geo.frag)
      ensures nbfree == old(nbfree) - 1 && nffree == old(nffree)
    {
      hide Valid, Bits, WholeBlock, Range, Fill;
      Bounds();
      NamedBlock(b, rel, addr);
      var got := AllocCgBlk(addr, geo.frag);
      if got != rel {
        assert false;  // panic: lost block
      }
    }

    /** Asking for a wholly free block by its address finds exactly that block. */
    lemma NamedBlock(b: nat, rel: nat, addr: nat)
      requires Valid() && WholeBlock(Free(), geo.frag, b) && rel == b * geo.frag && addr == geo.Base(cgx) + rel
      ensures addr < geo.size && nbfree > 0 && WantedBlock(addr) == rel && rel / geo.frag == b
    {
      hide Bits, Counted, ClustersOk, Recounted;
      assert nbfree > 0 by {
        NbfreeExact();
        WholeIsAllFree(Free(), geo.frag, b);
        assert HasRun(blksfree[..], geo.frag, b, 0, geo.frag);
      }
      WholeInGroup(geo, cgx, Free(), owned, b);
      DivModBase(b, geo.frag, 0);
      geo.GroupStart(cgx);
      assert rel < geo.NDblk(cgx);
      assert addr > 0 by {
        assert rel < |Free()| && Free()[rel];
        assert !geo.Reserved(cgx, rel);
      }
      AddressInGroup(geo, cgx, rel);
    }

    lemma OwnedInBlock(bno: nat, n: nat)
      requires Valid() && 0 < n && bno % geo.frag + n <= geo.frag && Range(bno, n) <= owned
      ensures bno - bno % geo.frag + geo.frag <= |Free()| == 8 * blksfree.Length
      ensures forall i :: bno <= i < bno + n ==> !Free()[i]
    {
      hide Bits, Counted, ClustersOk, Range;
      assert bno in Range(bno, n);
      geo.MapCovers();
      BlockEnd(bno, geo.frag, blksfree.Length);
      forall i | bno <= i < bno + n
        ensures !Free()[i]
      {
        assert i in Range(bno, n);
      }
    }
  }

  /** Giving back n fragments of a block that was not whole; nothing outside it moves. */
  lemma BlockFilled(free: seq<bool>, frag: nat, h: nat, p: nat, n: nat)
    requires h * frag + frag <= |free| && 0 < n && p + n <= frag
    requires forall i :: h * frag + p <= i < h * frag + p + n ==> !free[i]
    ensures var after := Fill(free, h * frag + p, n, true);
      && AgreeOutside(free, after, h * frag, frag)
      && !WholeBlock(free, frag, h)
      && (n == frag ==> WholeBlock(after, frag, h))
      && Fill(Block(after, frag, h), p, n, false) == Block(free, frag, h)
      && forall i :: p <= i < p + n ==> Block(after, frag, h)[i]
  {
    hide Block, Fill;
    assert !free[h * frag + p];
    var after := Fill(free, h * frag + p, n, true);
    assert Fill(Block(after, frag, h), p, n, false) == Block(free, frag, h);
  }

  lemma WholeReturned(free: seq<bool>, frag: nat, h: nat, nb: int, nf: int, fr: seq<int>)
    requires Counted(free, frag, nb, nf, fr) && h * frag + frag <= |free|
    requires forall i :: h * frag <= i < h * frag + frag ==> !free[i]
    ensures Counted(Fill(free, h * frag, frag, true), frag, nb + 1, nf, fr)
  {
    hide Counted, Block, Fill, RunCount;
    CountedShape(free, frag, nb, nf, fr);
    var after := Fill(free, h * frag, frag, true);
    BlockFilled(free, frag, h, 0, frag);
    var x, y := Block(free, frag, h), Block(after, frag, h);
    assert IsRun(y, 0, frag);
    forall k | 1 <= k < frag
      ensures RunCount(x, k) == RunCount(y, k)
    {
      RunCountFill(y, 0, frag, frag, k);
    }
    assert !x[0];
    FreeCountFull(x);
    MoveCounted(free, after, frag, nb, nf, fr, h, fr);
  }

  lemma IsBlockWhole(frag: nat, m: seq<bv8>, h: nat)
    requires HasBlock(frag, m, h)
    ensures IsBlock(frag, m, h) <==> WholeBlock(Bits(m), frag, h)
  {
    hide IsBlock, Bits;
    BlockTests(frag, m, h);
  }

  lemma CountedShape(free: seq<bool>, frag: nat, nb: int, nf: int, fr: seq<int>)
    requires Counted(free, frag, nb, nf, fr)
    ensures ValidFrag(frag) && |fr| == MAXFRAG
  {}

  /** The fragment counts after n fragments of block h are returned. */
  lemma FragsReturned(free: seq<bool>, frag: nat, h: nat, p: nat, n: nat, nb: int, nf: int, fr: seq<int>, fr': seq<int>)
    requires Counted(free, frag, nb, nf, fr) && h * frag + frag <= |free| && 0 < n && p + n <= frag
    requires forall i :: h * frag + p <= i < h * frag + p + n ==> !free[i]
    requires FrsumMoved(fr, fr', frag, Block(free, frag, h), Block(Fill(free, h * frag + p, n, true), frag, h))
    ensures var after := Fill(free, h * frag + p, n, true);
      if WholeBlock(after, frag, h) then Counted(after, frag, nb + 1, nf + n - frag, fr')
      else Counted(after, frag, nb, nf + n, fr')
  {
    hide *;
    var after := Fill(free, h * frag + p, n, true);
    ReturnedMeasures(free, after, frag, h, p, n);
    MoveCounted(free, after, frag, nb, nf, fr, h, fr');
  }

  lemma ReturnedMeasures(free: seq<bool>, after: seq<bool>, frag: nat, h: nat, p: nat, n: nat)
    requires h * frag + frag <= |free| && 0 < n && p + n <= frag && after == Fill(free, h * frag + p, n, true)
    requires forall i :: h * frag + p <= i < h * frag + p + n ==> !free[i]
    ensures AgreeOutside(free, after, h * frag, frag)
    ensures var x, y := Block(free, frag, h), Block(after, frag, h); var w := WholeBlock(after, frag, h);
      && Measure(Whole, y) - Measure(Whole, x) == (if w then 1 else 0)
      && Measure(Loose, y) - Measure(Loose, x) == (if w then n - frag else n)
  {
    hide Block, Fill, WholeBlock, IsRun, FreeCount, AgreeOutside, AllFree;
    BlockFilled(free, frag, h, p, n);
    var x, y := Block(free, frag, h), Block(after, frag, h);
    WholeIsAllFree(free, frag, h);
    WholeIsAllFree(after, frag, h);
    FreeCountFill(y, p, n);
    FreeCountFull(y);
  }

  /** dtog and dtogd take an address of group c apart again, and block alignment survives. */
  lemma AddressInGroup(geo: Geo, c: nat, rel: nat)
    requires geo.Wf() && c < geo.ncg && rel < geo.fpg
    ensures geo.Dtog(geo.Base(c) + rel) == c && geo.Dtogd(geo.Base(c) + rel) == rel
    ensures rel % geo.frag == 0 ==> geo.Blknum(geo.Base(c) + rel) == geo.Base(c) + rel
    ensures (geo.Base(c) + rel) % geo.frag == rel % geo.frag
  {
    DivModBase(c, geo.fpg, rel);
    assert geo.Base(c) % geo.frag == 0 by {
      if geo.fpg % geo.frag == 0 {
        ProductMod(c, geo.fpg, geo.frag);
      } else {
        assert c == 0;
      }
    }
    AddMod(geo.Base(c), rel, geo.frag);
  }

  lemma ClusterBegin(free: seq<bool>, frag: nat, first: nat, bno: nat)
    requires WholeBlock(free, frag, first) && bno == first * frag
    ensures bno <= |free| && Fill(free, bno, 0, false) == free && Range(bno, 0) == {}
  {}

  lemma MulSplit(a: nat, b: nat, f: nat)
    ensures (a + b) * f - a * f == b * f
  {}

  /** One more block of the cluster is taken; the blocks after it are still whole. */
  lemma ClusterStep(free: seq<bool>, now: seq<bool>, own: set<nat>, frag: nat, b: nat, bno: nat, rel: nat, end: nat)
    requires frag > 0 && bno <= rel == b * frag && b < end
    requires AllSet(free, bno, rel - bno) && now == Fill(free, bno, rel - bno, false)
    requires forall c: nat :: b <= c < end ==> WholeBlock(now, frag, c)
    ensures AllSet(free, bno, rel + frag - bno)
    ensures Fill(now, rel, frag, false) == Fill(free, bno, rel + frag - bno, false)
    ensures Range(bno, rel - bno) + Range(rel, frag) == Range(bno, rel + frag - bno)
    ensures forall c: nat :: b + 1 <= c < end ==> WholeBlock(Fill(now, rel, frag, false), frag, c)
  {
    hide Range, Fill;
    assert WholeBlock(now, frag, b);
    forall c: nat | b + 1 <= c < end
      ensures WholeBlock(Fill(now, rel, frag, false), frag, c)
    {
      MulApart(frag, b, c);
      assert WholeBlock(now, frag, c);
    }
  }

  /** len free blocks in a row exist at or after start, and len is a length the summary can speak of. */
  ghost predicate HasCluster(cl: seq<bool>, cap: nat, len: nat, start: nat) {
    len <= cap && exists p: nat :: start <= p && RunLen(cl, p) >= len
  }

  /** No cluster of len begins in [start, h). */
  ghost predicate FirstCluster(cl: seq<bool>, len: nat, start: nat, h: nat) {
    start <= h && forall p: nat :: start <= p < h ==> RunLen(cl, p) < len
  }

  /** The block of group c from which on clusters are looked for: that of the preferred fragment or, if that is not in the
      group, that of the first data fragment. */
  function ClusterFrom(geo: Geo, c: nat, bpref: nat): nat
    requires geo.Wf()
  {
    (if bpref / geo.fpg == c then bpref % geo.fpg else geo.DataOffset()) / geo.frag
  }

  /** No cluster before the preferred fragment is asked for, and none from its block on is passed over. */
  lemma ClusterFromMeans(geo: Geo, c: nat, bpref: nat)
    requires geo.Wf()
    ensures var b := ClusterFrom(geo, c, bpref) * geo.frag;
      if geo.Dtog(bpref) == c then geo.Base(c) + b <= bpref < geo.Base(c) + b + geo.frag
      else b <= geo.Dtogd(geo.Data(c)) < b + geo.frag
  {
    DataZone(geo, c);
    DivisionLaw(bpref, geo.fpg);
    DivisionLaw(bpref % geo.fpg, geo.frag);
    DivisionLaw(geo.DataOffset(), geo.frag);
  }

  lemma SameBlockNo(at: nat, f: nat)
    requires f > 0
    ensures DownTo(at, f) / f == at / f
  {
    DivisionLaw(at, f);
    DivModBase(at / f, f, 0);
  }

  /** The same, said of the block map. */
  ghost predicate HasRow(free: seq<bool>, frag: nat, cap: nat, len: nat, start: nat) {
    len <= cap && exists p: nat :: start <= p && RowAt(free, frag, p, len)
  }

  /** A slot in use promises a cluster. */
  lemma SlotGives(cl: seq<bool>, cap: nat, len: nat, i: nat)
    requires CappedRuns(cl, cap, i) > 0 && 1 <= len <= i <= cap
    ensures HasCluster(cl, cap, len, 0)
  {
    hide CappedRuns;
    SlotWitness(cl, cap, i);
  }

  lemma LongestBounds(cl: seq<bool>, cap: nat, m: nat)
    requires LongestCapped(cl, cap, m) && m <= cap
    ensures MaxKnown(cl, cap, m)
  {}

  lemma NotFound(cl: seq<bool>, cap: nat, len: nat, start: nat)
    requires forall p: nat :: start <= p ==> RunLen(cl, p) < len
    ensures !HasCluster(cl, cap, len, start)
  {}

  lemma NoCluster(cl: seq<bool>, cap: nat, len: nat, m: nat)
    requires MaxKnown(cl, cap, m) && m < len
    ensures forall start: nat :: !HasCluster(cl, cap, len, start)
  {
    forall p: nat | len <= cap
      ensures RunLen(cl, p) < len
    {
      if p < |cl| {
        assert Cap(RunLen(cl, p), cap) <= m;
      }
    }
  }

  lemma ClusterFound(cl: seq<bool>, cap: nat, len: nat, start: nat, first: nat)
    requires len <= cap && start <= first && AllSet(cl, first, len)
    ensures HasCluster(cl, cap, len, start)
  {
    RunLenSplit(cl, first, first + len);
  }

  /** The scan itself: counts consecutive set bits from start on until there are len of them. */
  method ScanClusters(bits: array<bv8>, n: nat, start: nat, len: nat) returns (found: bool, first: nat)
    requires n <= 8 * bits.Length && len >= 1 && ClearFrom(Bits(bits[..]), n)
    ensures found ==> start <= first && first + len <= n && AllSet(Bits(bits[..]), first, len)
    ensures found ==> forall p: nat :: start <= p < first ==> RunLen(Bits(bits[..]), p) < len
    ensures !found ==> forall p: nat :: start <= p ==> RunLen(Bits(bits[..]), p) < len
  {
    hide Bits, BitOf, RunLen;
    ghost var cl := Bits(bits[..]);
    var got, run := start, 0;
    while got < n
      invariant start <= got && 0 <= run < len && run <= got - start
      invariant run > 0 ==> got <= n
      invariant forall j :: got - run <= j < got ==> cl[j]
      invariant forall p: nat :: start <= p < got - run ==> RunLen(cl, p) < len
    {
      if !IsSet(bits[..], got) {
        ShortRuns(cl, got - run, got, len);
        run := 0;
      } else {
        run := run + 1;
        if run == len {
          return true, got + 1 - run;
        }
      }
      got := got + 1;
    }
    ShortRunsAtEnd(cl, got - run, got, n, len);
    found, first := false, 0;
  }

  lemma ShortRuns(cl: seq<bool>, lo: nat, got: nat, len: nat)
    requires lo <= got < |cl| && !cl[got] && got - lo < len
    requires forall j :: lo <= j < got ==> cl[j]
    ensures forall p: nat :: lo <= p <= got ==> RunLen(cl, p) < len
  {
    forall p: nat | lo <= p <= got
      ensures RunLen(cl, p) < len
    {
      RunFromBack(cl, got, p);
    }
  }

  lemma ShortRunsAtEnd(cl: seq<bool>, lo: nat, got: nat, n: nat, len: nat)
    requires ClearFrom(cl, n) && n <= |cl| && n <= got && lo <= got && got - lo < len
    requires lo < got ==> got == n
    requires forall j :: lo <= j < got ==> cl[j]
    ensures forall p: nat :: lo <= p ==> RunLen(cl, p) < len
  {
    forall p: nat | lo <= p
      ensures RunLen(cl, p) < len
    {
      if p < got {
        RunLenSplit(cl, p, n);
        RunLenStops(cl, n);
      } else if p < |cl| {
        RunLenStops(cl, p);
      }
    }
  }

  lemma LooseAtLeast(free: seq<bool>, frag: nat, h: nat, p: nat, n: nat)
    requires frag > 0 && h * frag + frag <= |free| && 0 < p && p + n <= frag
    requires !free[h * frag + p - 1] && AllSet(free, h * frag + p, n)
    ensures Recounted(Loose, free, frag) >= n
  {
    hide Block, Total;
    var blk := Block(free, frag, h);
    assert !blk[p - 1];
    FreeCountFill(blk, p, n);
    BlockBelow(frag, |free|, h);
    TotalAtLeast(Loose, free, frag, Blocks(free, frag), h);
  }

  lemma BlockEnd(i: nat, frag: nat, bytes: nat)
    requires ValidFrag(frag) && i < 8 * bytes
    ensures i - i % frag + frag <= 8 * bytes
  {
    var t := i - i % frag;
    DivisionLaw(i, frag);
    DivModBase(i / frag, frag, 0);
    ProductMod(bytes, 8, frag);
    NextMultiple(t, frag, 8 * bytes);
  }

  /** The boundary test of ffs_fragextend. */
  lemma FragWrap(bno: nat, n: nat, frag: nat)
    requires ValidFrag(frag) && 1 <= n <= frag
    ensures bno % frag > (bno + n - 1) % frag <==> bno % frag + n > frag
  {
    var q, b := bno / frag, bno % frag;
    DivisionLaw(bno, frag);
    if b + n <= frag {
      DivModBase(q, frag, b + n - 1);
    } else {
      MulStep(q, frag);
      DivModBase(q + 1, frag, b + n - 1 - frag);
    }
  }

  /** The free fragments after an owned piece, up to a used one or the end of the block, are a maximal run. */
  lemma TailIsRun(free: seq<bool>, frag: nat, bno: nat, osize: nat, i: nat)
    requires ValidFrag(frag) && 0 < osize < i && bno % frag + i <= frag
    requires bno - bno % frag + frag <= |free|
    requires !free[bno + osize - 1] && AllSet(free, bno + osize, i - osize)
    requires bno % frag + i == frag || !free[bno + i]
    ensures RunIn(free, frag, (bno + osize) / frag, (bno + osize) % frag, i - osize)
  {
    hide Block, IsRun;
    LaterInBlock(bno, osize, frag);
    RunInBlockAt(free, frag, bno / frag, bno % frag + osize, i - osize);
  }

  lemma LaterInBlock(bno: nat, n: nat, frag: nat)
    requires frag > 0 && bno % frag + n < frag
    ensures (bno / frag) * frag + bno % frag == bno
    ensures (bno + n) / frag == bno / frag && (bno + n) % frag == bno % frag + n
  {
    DivisionLaw(bno, frag);
    DivModBase(bno / frag, frag, bno % frag + n);
  }

  lemma RunInBlockAt(free: seq<bool>, frag: nat, h: nat, p: nat, a: nat)
    requires h * frag + frag <= |free| && 0 < p && 0 < a && p + a <= frag
    requires !free[h * frag + p - 1]
    requires forall j :: h * frag + p <= j < h * frag + p + a ==> free[j]
    requires p + a == frag || !free[h * frag + p + a]
    ensures IsRun(Block(free, frag, h), p, a)
  {
    hide Block;
    var blk := Block(free, frag, h);
    assert !blk[p - 1];
    assert p + a < frag ==> !blk[p + a];
  }

  /** The request can be met: some block has a maximal free run that is long enough.
      A wholly free block is such a run. */
  ghost predicate CanAlloc(m: seq<bv8>, frag: nat, size: nat) {
    exists k: nat, h: nat, p: nat :: size <= k <= frag && HasRun(m, frag, h, p, k)
  }

  /** bno starts a maximal free run of sufficient length, and no shorter one would have done. */
  ghost predicate BestFit(m: seq<bv8>, frag: nat, size: nat, bno: nat) {
    frag > 0 && exists a: nat ::
      && size <= a <= frag
      && HasRun(m, frag, bno / frag, bno % frag, a)
      && forall k: nat, h: nat, p: nat :: size <= k < a ==> !HasRun(m, frag, h, p, k)
  }

  /** The same three, said of the map as a sequence of fragments. */
  predicate RunIn(free: seq<bool>, frag: nat, h: nat, p: nat, k: nat) {
    ValidFrag(frag) && h * frag + frag <= |free| && IsRun(Block(free, frag, h), p, k)
  }

  /** The rotors of a group: where the last block and the last run of fragments were found. */
  datatype Rotors = Rotors(block: nat, frag: nat)

  /** A run of siz begins at a. */
  predicate StartsAt(free: seq<bool>, frag: nat, siz: nat, a: nat) {
    frag > 0 && RunIn(free, frag, a / frag, a % frag, siz)
  }

  /** The first place where a run of siz begins, from lo to the end of the map and then from its beginning. */
  ghost predicate FirstRun(free: seq<bool>, frag: nat, siz: nat, lo: nat, bno: nat) {
    && StartsAt(free, frag, siz, bno)
    && (forall a: nat :: lo <= a && (bno < lo || a < bno) ==> !StartsAt(free, frag, siz, a))
    && (bno < lo ==> forall a: nat :: a < bno ==> !StartsAt(free, frag, siz, a))
  }

  lemma FirstMeans(m: seq<bv8>, frag: nat, siz: nat, lo: nat, bno: nat)
    requires FirstStart(m, frag, siz, lo, bno)
    ensures FirstRun(Bits(m), frag, siz, lo, bno)
  {
    hide Bits, RunIn, HasRun;
    forall a: nat
      ensures StartsRun(m, frag, a, siz) == StartsAt(Bits(m), frag, siz, a)
    {
      StartsMeans(m, frag, siz, a);
    }
  }

  lemma StartsMeans(m: seq<bv8>, frag: nat, siz: nat, a: nat)
    ensures StartsRun(m, frag, a, siz) == StartsAt(Bits(m), frag, siz, a)
  {
    hide Bits, RunIn, HasRun;
    if frag > 0 {
      RunMeans(m, frag, a / frag, a % frag, siz);
    }
  }

  /** The fragment of group c that a request for a block asks for: the one after the block rotor when there is no
      preference; the preferred one, when it lies in the group; and otherwise the first of the zone, metadata or data, that
      the preferred one lies in in its own group. */
  function PreferredAt(geo: Geo, c: nat, rotor: nat, bpref: nat): nat
    requires geo.fpg > 0
  {
    if bpref == 0 then (rotor + geo.frag) % geo.fpg
    else if bpref / geo.fpg == c then bpref % geo.fpg
    else if bpref % geo.fpg < geo.dblkno + geo.metaspace then geo.dblkno % geo.fpg
    else geo.DataOffset()
  }

  /** The block taken from group c: the one asked for if it is wholly free, and otherwise the first from there on, which the
      rotors then remember, the block rotor only if it is in the data zone. */
  ghost predicate BlockPick(geo: Geo, c: nat, free: seq<bool>, r: Rotors, bpref: nat, bno: nat, r': Rotors) {
    && geo.fpg > 0 && geo.frag > 0
    && var at := PreferredAt(geo, c, r.block, bpref);
       if WholeBlock(free, geo.frag, geo.Fragstoblks(at)) then bno == DownTo(at, geo.frag) && r' == r
       else
         && FirstRun(free, geo.frag, geo.frag, DownTo(at, 8), bno)
         && r' == Rotors(if bno >= geo.DataOffset() then bno else r.block, DownTo(bno, 8))
  }

  lemma BlockPicked(geo: Geo, c: nat, free: seq<bool>, r: Rotors, bpref: nat, at: nat, bno: nat, r': Rotors)
    requires geo.fpg > 0 && geo.frag > 0 && at == PreferredAt(geo, c, r.block, bpref)
    requires WholeBlock(free, geo.frag, geo.Fragstoblks(at)) ==> bno == DownTo(at, geo.frag) && r' == r
    requires !WholeBlock(free, geo.frag, geo.Fragstoblks(at)) ==> FirstRun(free, geo.frag, geo.frag, DownTo(at, 8), bno)
    requires !WholeBlock(free, geo.frag, geo.Fragstoblks(at)) ==>
      r' == Rotors(if bno >= geo.DataOffset() then bno else r.block, DownTo(bno, 8))
    ensures BlockPick(geo, c, free, r, bpref, bno, r')
  {
    hide PreferredAt, FirstRun, WholeBlock, DownTo, Geo.DataOffset, Geo.Fragstoblks;
  }

  /** The run of siz fragments taken from: the first from the byte of the preferred fragment on or, without a preference,
      from the fragment rotor on, which then remembers its byte. */
  ghost predicate FragPick(geo: Geo, free: seq<bool>, r: Rotors, bpref: nat, siz: nat, bno: nat, r': Rotors) {
    && geo.fpg > 0
    && FirstRun(free, geo.frag, siz, DownTo(if bpref != 0 then geo.Dtogd(bpref) else r.frag, 8), bno)
    && r' == Rotors(r.block, DownTo(bno, 8))
  }

  /** No run of size fragments or more, but fewer than a, is in the map. */
  ghost predicate NoneBetween(free: seq<bool>, frag: nat, size: nat, a: nat) {
    forall k: nat, h: nat, p: nat :: size <= k < a ==> !RunIn(free, frag, h, p, k)
  }

  /** Exactly which extent a group gives, and what becomes of its rotors: a is the length of the run it is taken from. */
  ghost predicate Picked(geo: Geo, c: nat, free: seq<bool>, r: Rotors, bpref: nat, size: nat, bno: nat, r': Rotors) {
    exists a: nat ::
      && size <= a <= geo.frag && NoneBetween(free, geo.frag, size, a)
      && if a == geo.frag then BlockPick(geo, c, free, r, bpref, bno, r') else FragPick(geo, free, r, bpref, a, bno, r')
  }

  lemma NoShorter(m: seq<bv8>, frag: nat, size: nat, a: nat)
    requires forall k: nat, h: nat, p: nat :: size <= k < a ==> !HasRun(m, frag, h, p, k)
    ensures NoneBetween(Bits(m), frag, size, a)
  {
    hide Bits, HasRun, RunIn;
    forall k: nat, h: nat, p: nat | size <= k < a
      ensures !RunIn(Bits(m), frag, h, p, k)
    {
      RunMeans(m, frag, h, p, k);
    }
  }

  lemma GroupShape(geo: Geo)
    requires geo.Wf()
    ensures 0 < geo.frag <= geo.fpg && 0 < geo.ncg
  {}

  lemma BlknumInGroup(geo: Geo, w: nat)
    requires 0 < geo.frag && 0 < geo.fpg && geo.fpg % geo.frag == 0
    ensures geo.Dtogd(geo.Blknum(w)) == DownTo(geo.Dtogd(w), geo.frag)
  {
    DownMod(w, geo.fpg, geo.frag);
  }

  lemma OffsetIn(geo: Geo, c: nat, x: nat)
    requires geo.fpg > 0
    ensures geo.Dtogd(geo.Base(c) + x) == x % geo.fpg
  {
    DivModBase(c, geo.fpg, 0);
    AddMod(geo.Base(c), x, geo.fpg);
  }

  /** The test against the data zone of the preferred group. */
  lemma ZoneTest(geo: Geo, d: nat)
    requires geo.fpg > 0
    ensures d < geo.Data(geo.Dtog(d)) <==> d % geo.fpg < geo.dblkno + geo.metaspace
  {
    DivisionLaw(d, geo.fpg);
  }

  lemma BlknumOffset(geo: Geo, d: nat)
    requires geo.Wf() && d < geo.size
    ensures geo.Dtogd(geo.Blknum(d)) == DownTo(d % geo.fpg, geo.frag)
  {
    hide Geo.Wf;
    GroupShape(geo);
    if geo.fpg % geo.frag == 0 {
      BlknumInGroup(geo, d);
    } else {
      OneGroupOnly(geo, d);
      SmallMod(d, geo.fpg);
      SmallMod(d - d % geo.frag, geo.fpg);
    }
  }

  lemma OneGroupOnly(geo: Geo, bpref: nat)
    requires geo.Wf() && geo.fpg % geo.frag != 0 && bpref < geo.size
    ensures geo.ncg == 1 && geo.Base(0) == 0 && bpref < geo.fpg && geo.Dtog(bpref) == 0
  {
    SmallMod(bpref, geo.fpg);
  }

  lemma DataZone(geo: Geo, c: nat)
    requires geo.fpg > 0
    ensures geo.Dtogd(geo.Data(c)) == geo.DataOffset()
  {
    OffsetIn(geo, c, geo.dblkno + geo.metaspace);
  }

  ghost predicate CanTake(free: seq<bool>, frag: nat, size: nat) {
    exists k: nat, h: nat, p: nat :: size <= k <= frag && RunIn(free, frag, h, p, k)
  }

  ghost predicate BestTake(free: seq<bool>, frag: nat, size: nat, bno: nat) {
    frag > 0 && exists a: nat ::
      && size <= a <= frag
      && RunIn(free, frag, bno / frag, bno % frag, a)
      && forall k: nat, h: nat, p: nat :: size <= k < a ==> !RunIn(free, frag, h, p, k)
  }

  lemma RunMeans(m: seq<bv8>, frag: nat, h: nat, p: nat, k: nat)
    ensures HasRun(m, frag, h, p, k) == RunIn(Bits(m), frag, h, p, k) && (RunIn(Bits(m), frag, h, p, k) ==> ValidFrag(frag))
  {
    hide Bits, IsRun, Block;
  }

  lemma CanMeans(m: seq<bv8>, frag: nat, size: nat)
    ensures CanAlloc(m, frag, size) == CanTake(Bits(m), frag, size)
  {
    hide Bits, HasRun, RunIn;
    if k: nat, h: nat, p: nat :| size <= k <= frag && HasRun(m, frag, h, p, k) {
      RunMeans(m, frag, h, p, k);
    }
    if k: nat, h: nat, p: nat :| size <= k <= frag && RunIn(Bits(m), frag, h, p, k) {
      RunMeans(m, frag, h, p, k);
    }
  }

  lemma BestMeans(m: seq<bv8>, frag: nat, size: nat, bno: nat)
    requires BestFit(m, frag, size, bno)
    ensures BestTake(Bits(m), frag, size, bno)
  {
    hide Bits, HasRun, RunIn;
    var a: nat :| size <= a <= frag && HasRun(m, frag, bno / frag, bno % frag, a)
      && forall k: nat, h: nat, p: nat :: size <= k < a ==> !HasRun(m, frag, h, p, k);
    RunMeans(m, frag, bno / frag, bno % frag, a);
    forall k: nat, h: nat, p: nat | size <= k < a
      ensures !RunIn(Bits(m), frag, h, p, k)
    {
      RunMeans(m, frag, h, p, k);
    }
  }

  /** len wholly free blocks in a row, from block p on. */
  predicate RowAt(free: seq<bool>, frag: nat, p: nat, len: nat) {
    forall b: nat :: p <= b < p + len ==> WholeBlock(free, frag, b)
  }

  lemma RunTaken(m: seq<bv8>, frag: nat, bno: nat, a: nat, n: nat)
    requires ValidFrag(frag) && HasRun(m, frag, bno / frag, bno % frag, a) && n <= a
    ensures AllSet(Bits(m), bno, n) && bno % frag + n <= frag
  {
    hide Bits, HasRun, AllSet;
    DivisionLaw(bno, frag);
    RunTakenIn(m, frag, bno / frag, bno % frag, bno, a, n);
  }

  lemma RunTakenIn(m: seq<bv8>, frag: nat, h: nat, p: nat, bno: nat, a: nat, n: nat)
    requires HasRun(m, frag, h, p, a) && n <= a && bno == h * frag + p
    ensures AllSet(Bits(m), bno, n) && p + n <= frag
  {
    hide Bits;
    RunIsFree(Bits(m), frag, h, p, a);
  }

  lemma RunInMap(m: seq<bv8>, frag: nat, bno: nat, siz: nat)
    requires frag > 0 && HasRun(m, frag, bno / frag, bno % frag, siz)
    ensures bno < 8 * |m| && bno % frag + siz <= frag
  {
    DivisionLaw(bno, frag);
  }

  lemma WholeHasRunAt(m: seq<bv8>, frag: nat, bno: nat)
    requires ValidFrag(frag) && bno % frag == 0 && WholeBlock(Bits(m), frag, bno / frag)
    ensures HasRun(m, frag, bno / frag, bno % frag, frag)
  {
    hide Bits;
    WholeIsAllFree(Bits(m), frag, bno / frag);
  }

  /** A run length is counted exactly when some block has such a run. */
  lemma RunsCounted(m: seq<bv8>, frag: nat, k: nat)
    requires ValidFrag(frag)
    ensures Recounted(RunsOf(k), Bits(m), frag) != 0 <==> exists h: nat, p: nat :: HasRun(m, frag, h, p, k)
  {
    hide Bits, Total, Block, IsRun;
    var s := Bits(m);
    if Recounted(RunsOf(k), s, frag) != 0 {
      var h := TotalWitness(RunsOf(k), s, frag, Blocks(s, frag));
      RunCountPositive(Block(s, frag, h), k);
      var p: nat :| IsRun(Block(s, frag, h), p, k);
      assert HasRun(m, frag, h, p, k);
    }
    if h: nat, p: nat :| HasRun(m, frag, h, p, k) {
      RunStartsInside(Block(s, frag, h), p, k);
      RunCountPositive(Block(s, frag, h), k);
      BlockBelow(frag, |s|, h);
      TotalAtLeast(RunsOf(k), s, frag, Blocks(s, frag), h);
    }
  }

  lemma RunStartsInside(s: seq<bool>, p: nat, k: nat)
    requires IsRun(s, p, k)
    ensures p < |s|
  {}

  lemma WholeCounted(m: seq<bv8>, frag: nat, h: nat, p: nat)
    requires ValidFrag(frag) && HasRun(m, frag, h, p, frag)
    ensures Recounted(Whole, Bits(m), frag) > 0
  {
    hide Bits, Total;
    var s := Bits(m);
    assert AllFree(Block(s, frag, h));
    BlockBelow(frag, |s|, h);
    TotalAtLeast(Whole, s, frag, Blocks(s, frag), h);
  }

  /** A block with a maximal run shorter than itself is not whole, before or after. */
  lemma PartialRun(free: seq<bool>, frag: nat, h: nat, p: nat, a: nat, n: nat)
    requires h * frag + frag <= |free| && IsRun(Block(free, frag, h), p, a) && 0 < n <= a < frag
    ensures h * frag + p + n <= |free|
    ensures var after := Fill(free, h * frag + p, n, false);
      && AgreeOutside(free, after, h * frag, frag)
      && !WholeBlock(free, frag, h) && !WholeBlock(after, frag, h)
  {
    RunIsFree(free, frag, h, p, a);
    var after := Fill(free, h * frag + p, n, false);
    assert !after[h * frag + p];
    assert p > 0 ==> !free[h * frag + p - 1];
    assert p == 0 ==> !free[h * frag + a];
  }

  /** Once its first size fragments are gone a block is no longer whole; nothing outside it moved. */
  lemma BlockCleared(free: seq<bool>, frag: nat, h: nat, size: nat)
    requires WholeBlock(free, frag, h) && 0 < size <= frag
    ensures h * frag + size <= |free|
    ensures var after := Fill(free, h * frag, size, false);
      && AgreeOutside(free, after, h * frag, frag)
      && AgreeOutside(Fill(free, h * frag, frag, false), after, h * frag, frag)
      && !WholeBlock(after, frag, h)
  {
    var after := Fill(free, h * frag, size, false);
    assert !after[h * frag];
  }

  /** Clearing a block and giving back its tail is clearing its head. */
  lemma BlockPart(free: seq<bool>, frag: nat, h: nat, size: nat)
    requires WholeBlock(free, frag, h) && 0 < size <= frag
    ensures var lo := h * frag;
      Fill(Fill(free, lo, frag, false), lo + size, frag - size, true) == Fill(free, lo, size, false)
  {
    hide Fill;
  }

  lemma WholeRun(m: seq<bv8>, frag: nat, h: nat, p: nat)
    requires HasRun(m, frag, h, p, frag) && frag > 0
    ensures p == 0 && WholeBlock(Bits(m), frag, h)
  {
    hide Bits;
    WholeIsAllFree(Bits(m), frag, h);
  }

  lemma SumAligned(r: nat, f: nat)
    requires ValidFrag(f) && r % f == 0
    ensures (r + f) % f == 0
  {
    if f == 8 {} else if f == 4 {} else if f == 2 {} else {}
  }

  /** m is the capped length of the longest free run, or the cap if nobody has looked yet. */
  ghost predicate MaxKnown(cl: seq<bool>, cap: nat, m: nat) {
    m <= cap && (m == cap || LongestCapped(cl, cap, m))
  }
}
