/** What newfs builds: initcg fills each group's maps and summaries with its own loops, and
    mkfs writes closed-form totals into the superblock. */
module Newfs {
  import opened Arith
  import opened Inodes
  import opened Bitmap
  import opened Runs
  import opened Recount
  import opened Clusters
  import opened CgCounts
  import opened Geometry
  import opened FragSearch
  import opened Allocator
  import opened Filesystem

  function RoundUp(x: nat, f: nat): (r: nat)
    requires f > 0
    ensures x <= r < x + f
  {
    if x % f == 0 then x else x + (f - x % f)
  }

  lemma RoundUpAligned(x: nat, f: nat)
    requires ValidFrag(f)
    ensures RoundUp(x, f) % f == 0
  {
    DivisionLaw(x, f);
    MulStep(x / f, f);
    DivModBase(x / f + 1, f, 0);
  }

  /** First fragment past the metadata of group c (dupper). */
  function DataStart(geo: Geo, c: nat): nat {
    geo.dblkno + if c == 0 then geo.csfrags else 0
  }

  /** What mkfs guarantees of a layout before it calls initcg: aligned metadata that fits in every
      group, and room for the summary area in group 0. */
  ghost predicate Layout(geo: Geo) {
    && geo.Wf()
    && geo.sblkno % geo.frag == 0 && geo.dblkno % geo.frag == 0 && geo.sblkno <= geo.dblkno
    && forall c: nat :: c < geo.ncg ==> RoundUp(DataStart(geo, c), geo.frag) <= geo.NDblk(c)
  }

  /** Fragment i of group c is free once initcg has worked up to fragment d. */
  predicate InitFree(geo: Geo, c: nat, d: nat, i: nat)
    requires geo.Wf() && c < geo.ncg
  {
    i < d && i < geo.NDblk(c) && !geo.Reserved(c, i)
  }

  /** The map at that point. */
  ghost predicate InitMap(geo: Geo, c: nat, d: nat, free: seq<bool>)
    requires geo.Wf() && c < geo.ncg
  {
    forall i: nat :: i < |free| ==> (free[i] <==> InitFree(geo, c, d, i))
  }

  /** One-pass count of the clusters: the run that ends at each gap goes into its slot. */
  method CountClusters(clustersfree: array<bv8>, sump: array<int>, n: nat, cap: nat)
    requires clustersfree as object != sump
    requires cap > 0 && sump.Length == cap + 1 && n <= 8 * clustersfree.Length
    requires ClearFrom(Bits(clustersfree[..]), n)
    requires forall k :: 0 <= k <= cap ==> sump[k] == 0
    modifies sump
    ensures ClusterCounted(Bits(clustersfree[..]), sump[..], cap)
    ensures sump[0] == 0
  {
    hide Bits, BitOf, CappedAt, RunLen;
    ghost var s := Bits(clustersfree[..]);
    var run := 0;
    var i := 0;
    while i < n
      invariant 0 <= i <= n && 0 <= run <= i && run == BackLen(s, i)
      invariant sump[0] == 0
      invariant forall k: nat :: 1 <= k <= cap ==> sump[k] == CappedBefore(s, cap, k, i - run)
    {
      if IsSet(clustersfree[..], i) {
        run := run + 1;
      } else {
        ghost var next, from := i + 1, i - run;
        forall k: nat | 1 <= k <= cap
          ensures CappedBefore(s, cap, k, next) == CappedBefore(s, cap, k, from) + One(run > 0 && Cap(run, cap) == k)
        {
          RunEnds(s, cap, k, i, run);
        }
        if run != 0 {
          if run > cap {
            run := cap;
          }
          sump[run] := sump[run] + 1;
          run := 0;
        }
      }
      i := i + 1;
    }
    forall k: nat | 1 <= k <= cap
      ensures CappedRuns(s, cap, k) == CappedBefore(s, cap, k, i - run) + One(run > 0 && Cap(run, cap) == k)
    {
      LastRun(s, cap, k, n, run);
    }
    if run != 0 {
      if run > cap {
        run := cap;
      }
      sump[run] := sump[run] + 1;
    }
  }

  /** The run of length run that ends at the gap i is the only one that starts in [i - run, i]. */
  lemma RunEnds(s: seq<bool>, cap: nat, k: nat, i: nat, run: nat)
    requires i < |s| && !s[i] && run == BackLen(s, i)
    ensures CappedBefore(s, cap, k, i + 1) == CappedBefore(s, cap, k, i - run) + One(run > 0 && Cap(run, cap) == k)
  {
    RunInside(s, cap, k, i, run);
    assert !CappedAt(s, cap, k, i);
  }

  lemma RunInside(s: seq<bool>, cap: nat, k: nat, i: nat, run: nat)
    requires i <= |s| && run == BackLen(s, i) && (i < |s| ==> !s[i])
    ensures CappedBefore(s, cap, k, i) == CappedBefore(s, cap, k, i - run) + One(run > 0 && Cap(run, cap) == k)
  {
    hide RunLen;
    BackIsRun(s, i);
    if run > 0 {
      RunLenSplit(s, i - run, i);
      RunLenStops(s, i);
      assert CappedAt(s, cap, k, i - run) <==> Cap(run, cap) == k;
      forall p: nat | i - run < p < i
        ensures !CappedAt(s, cap, k, p)
      {
        assert s[p - 1];
      }
      CappedGap(s, cap, k, i - run + 1, i);
    }
  }

  lemma {:induction false} CappedGap(s: seq<bool>, cap: nat, k: nat, a: nat, b: nat)
    requires a <= b <= |s|
    requires forall p: nat :: a <= p < b ==> !CappedAt(s, cap, k, p)
    ensures CappedBefore(s, cap, k, b) == CappedBefore(s, cap, k, a)
  {
    hide CappedAt;
    if a < b {
      CappedGap(s, cap, k, a, b - 1);
    }
  }

  lemma LastRun(s: seq<bool>, cap: nat, k: nat, n: nat, run: nat)
    requires n <= |s| && ClearFrom(s, n) && run == BackLen(s, n)
    ensures CappedRuns(s, cap, k) == CappedBefore(s, cap, k, n - run) + One(run > 0 && Cap(run, cap) == k)
  {
    RunInside(s, cap, k, n, run);
    CappedGap(s, cap, k, n, |s|);
  }

  /** A partly built group: the map so far, counted; only the cluster histogram is still to come. */
  ghost predicate Building(g: CylGroup, d: nat)
    reads g, g.blksfree, g.frsum, g.clustersfree, g.clustersum
  {
    && g.Shape()
    && InitMap(g.geo, g.cgx, d, g.Free())
    && Counted(g.Free(), g.geo.frag, g.nbfree, g.nffree, g.frsum[..])
    && (g.geo.cap > 0 ==> ClusterMap(g.Free(), g.Clusters(), g.geo.frag, g.geo.NCluster(g.cgx)))
    && g.rotor == 0 && g.frotor == 0 && g.maxcluster == g.geo.cap
    && (forall k :: 0 <= k < g.clustersum.Length ==> g.clustersum[k] == 0)
  }

  /** One step of the block loops of initcg: setblock, the cluster bit, cs_nbfree. */
  method AddBlock(g: CylGroup, d: nat)
    requires Building(g, d) && d % g.geo.frag == 0 && d + g.geo.frag <= g.geo.NDblk(g.cgx)
    requires forall i: nat :: d <= i < d + g.geo.frag ==> !g.geo.Reserved(g.cgx, i)
    modifies g, g.blksfree, g.clustersfree
    ensures Building(g, d + g.geo.frag)
    ensures g.nbfree == old(g.nbfree) + 1 && g.nffree == old(g.nffree)
    ensures g.owned == old(g.owned)
  {
    hide Bits, Counted, ClusterMap, Geo.NDblk, Geo.Reserved, WholeBlock, Fill, InitMap;
    ghost var free0 := g.Free();
    var blkno := d / g.geo.frag;
    AddedBlock(g.geo, g.cgx, d, free0);
    WholeReturned(free0, g.geo.frag, blkno, g.nbfree, g.nffree, g.frsum[..]);
    PutBlock(g.blksfree, g.geo.frag, blkno, true);
    if g.geo.cap > 0 {
      ClusterMapFlipped(free0, g.Free(), g.Clusters(), g.geo.frag, g.geo.NCluster(g.cgx), blkno);
      SetClrBit(g.clustersfree, blkno, true);
    }
    g.nbfree := g.nbfree + 1;
  }

  lemma AddedBlock(geo: Geo, c: nat, d: nat, free: seq<bool>)
    requires geo.Wf() && c < geo.ncg && d % geo.frag == 0 && d + geo.frag <= geo.NDblk(c) && |free| == 8 * geo.MapBytes()
    requires InitMap(geo, c, d, free)
    requires forall i: nat :: d <= i < d + geo.frag ==> !geo.Reserved(c, i)
    ensures var h := d / geo.frag; var after := Fill(free, d, geo.frag, true);
      && h * geo.frag == d && h * geo.frag + geo.frag <= |free| && h < geo.NCluster(c)
      && (forall i :: d <= i < d + geo.frag ==> !free[i])
      && AgreeOutside(free, after, d, geo.frag)
      && WholeBlock(after, geo.frag, h)
      && InitMap(geo, c, d + geo.frag, after)
  {
    hide Geo.Reserved, Geo.NDblk, Fill;
    geo.MapCovers();
    DivisionLaw(d, geo.frag);
    BlockBelow(geo.frag, geo.NDblk(c), d / geo.frag);
  }

  /** A stretch of single fragments, before the first or after the last whole block. */
  method AddFrags(g: CylGroup, lo: nat, n: nat)
    requires Building(g, lo) && 0 < n < g.geo.frag && lo % g.geo.frag + n <= g.geo.frag && lo + n <= g.geo.NDblk(g.cgx)
    requires forall i: nat :: lo <= i < lo + n ==> !g.geo.Reserved(g.cgx, i)
    requires forall i: nat :: lo - lo % g.geo.frag <= i < lo ==> g.geo.Reserved(g.cgx, i)
    modifies g, g.blksfree, g.frsum
    ensures Building(g, lo + n)
    ensures g.nbfree == old(g.nbfree) && g.nffree == old(g.nffree) + n
    ensures g.owned == old(g.owned)
  {
    hide Bits, Counted, ClusterMap, Geo.NDblk, Geo.Reserved, WholeBlock, Fill, InitMap, RunCount, Block;
    ghost var free0, fr0 := g.Free(), g.frsum[..];
    ghost var frag, h, p := g.geo.frag, lo / g.geo.frag, lo % g.geo.frag;
    AddedFrags(g.geo, g.cgx, lo, n, free0);
    g.frsum[n] := g.frsum[n] + 1;
    FillBits(g.blksfree, lo, n, true);
    g.nffree := g.nffree + n;
    forall k: nat | 1 <= k < frag
      ensures RunCount(Block(g.Free(), frag, h), k) == RunCount(Block(free0, frag, h), k) + if k == n then 1 else 0
    {
      NewRun(free0, frag, h, p, n, k);
    }
    FragsReturned(free0, frag, h, p, n, g.nbfree, old(g.nffree), fr0, g.frsum[..]);
    if g.geo.cap > 0 {
      ClusterMapKept(free0, g.Free(), g.Clusters(), frag, g.geo.NCluster(g.cgx), h);
    }
  }

  lemma AddedFrags(geo: Geo, c: nat, lo: nat, n: nat, free: seq<bool>)
    requires geo.Wf() && c < geo.ncg && 0 < n < geo.frag && lo % geo.frag + n <= geo.frag && lo + n <= geo.NDblk(c)
    requires |free| == 8 * geo.MapBytes() && InitMap(geo, c, lo, free)
    requires forall i: nat :: lo <= i < lo + n ==> !geo.Reserved(c, i)
    requires forall i: nat :: lo - lo % geo.frag <= i < lo ==> geo.Reserved(c, i)
    ensures var h, frag := lo / geo.frag, geo.frag; var after := Fill(free, lo, n, true);
      && h * frag + lo % frag == lo && h * frag + frag <= |free|
      && (forall i :: h * frag <= i < h * frag + frag ==> !free[i])
      && AgreeOutside(free, after, h * frag, frag)
      && !WholeBlock(free, frag, h) && !WholeBlock(after, frag, h)
      && InitMap(geo, c, lo + n, after)
  {
    hide Geo.Reserved, Geo.NDblk, Fill, InitMap, WholeBlock, AgreeOutside;
    geo.MapCovers();
    DivisionLaw(lo, geo.frag);
    BlockEnd(lo, geo.frag, geo.MapBytes());
    FragsInBlock(geo, c, lo / geo.frag, lo % geo.frag, n, free);
  }

  lemma FragsInBlock(geo: Geo, c: nat, h: nat, p: nat, n: nat, free: seq<bool>)
    requires geo.Wf() && c < geo.ncg && 0 < n < geo.frag && p + n <= geo.frag && h * geo.frag + p + n <= geo.NDblk(c)
    requires |free| == 8 * geo.MapBytes() && InitMap(geo, c, h * geo.frag + p, free) && h * geo.frag + geo.frag <= |free|
    requires forall i: nat :: h * geo.frag + p <= i < h * geo.frag + p + n ==> !geo.Reserved(c, i)
    requires forall i: nat :: h * geo.frag <= i < h * geo.frag + p ==> geo.Reserved(c, i)
    ensures var base := h * geo.frag; var after := Fill(free, base + p, n, true);
      && (forall i :: base <= i < base + geo.frag ==> !free[i])
      && AgreeOutside(free, after, base, geo.frag)
      && !WholeBlock(free, geo.frag, h) && !WholeBlock(after, geo.frag, h)
      && InitMap(geo, c, base + p + n, after)
  {
    hide Geo.Reserved, Geo.NDblk, Fill;
    var base, after := h * geo.frag, Fill(free, h * geo.frag + p, n, true);
    assert !free[base];
    assert if p > 0 then !after[base] else !after[base + n];
  }

  lemma NewRun(free: seq<bool>, frag: nat, h: nat, p: nat, n: nat, k: nat)
    requires h * frag + frag <= |free| && 0 < n && p + n <= frag
    requires forall i :: h * frag <= i < h * frag + frag ==> !free[i]
    ensures RunCount(Block(Fill(free, h * frag + p, n, true), frag, h), k)
         == RunCount(Block(free, frag, h), k) + if k == n then 1 else 0
  {
    hide Block, Fill, RunCount;
    BlockFilled(free, frag, h, p, n);
    var y := Block(Fill(free, h * frag + p, n, true), frag, h);
    assert p > 0 ==> !y[p - 1];
    assert p + n < frag ==> !y[p + n];
    RunCountFill(y, p, n, n, k);
  }

  /** What initcg leaves in cs_nbfree. */
  function InitBlocks(geo: Geo, c: nat): int
    requires geo.Wf() && c < geo.ncg
  {
    (if c > 0 then geo.sblkno / geo.frag else 0) + (geo.NDblk(c) - RoundUp(DataStart(geo, c), geo.frag)) / geo.frag
  }

  /** What initcg leaves in cs_nffree. */
  function InitFrags(geo: Geo, c: nat): int
    requires geo.Wf() && c < geo.ncg
  {
    RoundUp(DataStart(geo, c), geo.frag) - DataStart(geo, c) + (geo.NDblk(c) - RoundUp(DataStart(geo, c), geo.frag)) % geo.frag
  }

  lemma ZeroBits(m: seq<bv8>)
    requires forall i :: 0 <= i < |m| ==> m[i] == 0
    ensures forall i :: 0 <= i < 8 * |m| ==> !Bits(m)[i]
  {
    hide Bits, Mask;
    forall i | 0 <= i < 8 * |m|
      ensures !IsSet(m, i)
    {
      assert m[i / 8] == 0;
    }
  }

  lemma {:induction false} NoRunsBefore(s: seq<bool>, k: nat, n: nat)
    requires NoneFree(s) && n <= |s|
    ensures RunsBefore(s, k, n) == 0
  {
    if n > 0 {
      NoRunsBefore(s, k, n - 1);
      assert !s[n - 1];
    }
  }

  lemma {:induction false} TotalNone(mt: Meter, free: seq<bool>, frag: nat, n: nat)
    requires NoneFree(free) && frag > 0 && n * frag <= |free|
    ensures Total(mt, free, frag, n) == 0
  {
    if n > 0 {
      MulStep(n - 1, frag);
      TotalNone(mt, free, frag, n - 1);
      var blk := Block(free, frag, n - 1);
      assert !blk[0];
      FreeCountFull(blk);
      if mt.RunsOf? {
        NoRunsBefore(blk, mt.k, |blk|);
      }
    }
  }

  /** The zeroed group is the starting point of the loops. */
  lemma BlankCounted(free: seq<bool>, frag: nat, frsum: seq<int>)
    requires NoneFree(free) && ValidFrag(frag) && |frsum| == MAXFRAG
    requires forall k :: 0 <= k < MAXFRAG ==> frsum[k] == 0
    ensures Counted(free, frag, 0, 0, frsum)
  {
    hide Total;
    TotalNone(Whole, free, frag, Blocks(free, frag));
    TotalNone(Loose, free, frag, Blocks(free, frag));
    forall k | 1 <= k < frag
      ensures Recounted(RunsOf(k), free, frag) == 0
    {
      TotalNone(RunsOf(k), free, frag, Blocks(free, frag));
    }
  }

  lemma BlankClusters(geo: Geo, c: nat, free: seq<bool>, cl: seq<bool>)
    requires geo.Wf() && c < geo.ncg && NoneFree(free) && NoneFree(cl)
    requires |free| == 8 * geo.MapBytes() && geo.NCluster(c) <= |cl|
    ensures ClusterMap(free, cl, geo.frag, geo.NCluster(c))
  {
    hide Geo.NDblk;
    geo.MapCovers();
    DivisionLaw(geo.NDblk(c), geo.frag);
    forall b: nat | b < geo.NCluster(c)
      ensures !WholeBlock(free, geo.frag, b)
    {
      if b * geo.frag + geo.frag <= |free| {
        assert !free[b * geo.frag];
      }
    }
  }

  method Start(geo: Geo, c: nat) returns (g: CylGroup)
    requires geo.Wf() && c < geo.ncg
    ensures fresh(Repr(g)) && g.geo == geo && g.cgx == c
    ensures Building(g, 0) && g.nbfree == 0 && g.nffree == 0 && g.owned == {}
  {
    hide Bits, Counted, ClusterMap, Geo.NDblk, Geo.Reserved;
    g := new CylGroup(geo, c);
    ZeroBits(g.blksfree[..]);
    ZeroBits(g.clustersfree[..]);
    BlankCounted(g.Free(), geo.frag, g.frsum[..]);
    BlankClusters(geo, c, g.Free(), g.Clusters());
  }

  /** The blocks before the superblock copy, in every group but the first. */
  method HeadBlocks(g: CylGroup)
    requires Layout(g.geo) && Building(g, 0) && g.cgx > 0 && g.nbfree == 0
    modifies g, g.blksfree, g.clustersfree
    ensures Building(g, g.geo.sblkno)
    ensures g.nbfree == g.geo.sblkno / g.geo.frag && g.nffree == old(g.nffree) && g.owned == old(g.owned)
  {
    hide Building, Geo.NDblk;
    var frag := g.geo.frag;
    assert g.cgx < g.geo.ncg by { ShapeOf(g, 0); }
    var d := 0;
    while d < g.geo.sblkno
      invariant Building(g, d) && d % frag == 0 && d <= g.geo.sblkno
      invariant g.nbfree == d / frag && g.nffree == old(g.nffree) && g.owned == old(g.owned)
    {
      AlignedStep(d, frag, g.geo.sblkno);
      AddBlock(g, d);
      d := d + frag;
    }
  }

  lemma ShapeOf(g: CylGroup, d: nat)
    requires Building(g, d)
    ensures g.Shape()
  {}

  lemma AlignedStep(d: nat, f: nat, e: nat)
    requires ValidFrag(f) && d % f == 0
    ensures (d + f) % f == 0 && (d + f) / f == d / f + 1
    ensures e % f == 0 && d < e ==> d + f <= e
  {
    DivisionLaw(d, f);
    MulStep(d / f, f);
    DivModBase(d / f + 1, f, 0);
    if e % f == 0 && d < e {
      NextMultiple(d, f, e);
    }
  }

  /** The blocks from d to the end of the group. */
  method DataBlocks(g: CylGroup, dupper: nat) returns (d: nat)
    requires g.geo.Wf() && g.cgx < g.geo.ncg && Building(g, dupper) && dupper % g.geo.frag == 0
    requires DataStart(g.geo, g.cgx) <= dupper <= g.geo.NDblk(g.cgx)
    modifies g, g.blksfree, g.clustersfree
    ensures Building(g, d) && d % g.geo.frag == 0 && dupper <= d <= g.geo.NDblk(g.cgx) < d + g.geo.frag
    ensures g.nbfree == old(g.nbfree) + (g.geo.NDblk(g.cgx) - dupper) / g.geo.frag
    ensures g.nffree == old(g.nffree) && g.owned == old(g.owned)
  {
    hide Building, Geo.NDblk;
    var frag := g.geo.frag;
    d := dupper;
    ghost var n := 0;
    while d + frag <= g.geo.NDblk(g.cgx)
      invariant Building(g, d) && d % frag == 0 && dupper <= d <= g.geo.NDblk(g.cgx)
      invariant d - dupper == n * frag && n >= 0
      invariant g.nbfree == old(g.nbfree) + n && g.nffree == old(g.nffree) && g.owned == old(g.owned)
    {
      AlignedStep(d, frag, d);
      MulStep(n, frag);
      AddBlock(g, d);
      d := d + frag;
      n := n + 1;
    }
    DivModBase(n, frag, g.geo.NDblk(g.cgx) - d);
  }

  /** initcg, the block maps: the group it builds satisfies the accounting invariant, with
      everything but the metadata free. */
  method InitCg(geo: Geo, c: nat) returns (g: CylGroup)
    requires Layout(geo) && c < geo.ncg
    ensures fresh(Repr(g)) && g.geo == geo && g.cgx == c
    ensures g.Valid() && g.owned == {}
    ensures g.nbfree == InitBlocks(geo, c) && g.nffree == InitFrags(geo, c)
  {
    hide Building, Geo.NDblk, CylGroup.Valid, RoundUp, Geo.Reserved;
    var dupper;
    g, dupper := InitHead(geo, c);
    var d := DataBlocks(g, dupper);
    var ndblk := geo.NDblk(c);
    TailRest(dupper, d, ndblk, geo.frag);
    if d < ndblk {
      assert forall i: nat :: d <= i < ndblk ==> !geo.Reserved(c, i) by { PastReserved(geo, c, d); }
      AddFrags(g, d, ndblk - d);
    }
    Finish(g);
  }

  lemma PastReserved(geo: Geo, c: nat, d: nat)
    requires DataStart(geo, c) <= d
    ensures forall i: nat :: d <= i ==> !geo.Reserved(c, i)
  {}

  /** initcg up to the first whole data block. */
  method InitHead(geo: Geo, c: nat) returns (g: CylGroup, dupper: nat)
    requires Layout(geo) && c < geo.ncg
    ensures fresh(Repr(g)) && g.geo == geo && g.cgx == c
    ensures dupper == RoundUp(DataStart(geo, c), geo.frag) && dupper % geo.frag == 0
    ensures Building(g, dupper) && g.owned == {}
    ensures g.nbfree == if c > 0 then geo.sblkno / geo.frag else 0
    ensures g.nffree == dupper - DataStart(geo, c)
  {
    hide Building, Geo.NDblk, CylGroup.Valid;
    g := Start(geo, c);
    if c > 0 {
      HeadBlocks(g);
    }
    dupper := DataStart(geo, c);
    RoundUpAligned(dupper, geo.frag);
    SkipReserved(g, dupper);
    var i := dupper % geo.frag;
    if i != 0 {
      assert c == 0;
      AddFrags(g, dupper, geo.frag - i);
      dupper := dupper + (geo.frag - i);
    }
  }

  lemma TailRest(a: nat, d: nat, n: nat, f: nat)
    requires ValidFrag(f) && a % f == 0 && d % f == 0 && a <= d <= n < d + f
    ensures (n - a) % f == n - d
  {
    var p, q := a / f, d / f;
    DivisionLaw(a, f);
    DivisionLaw(d, f);
    DivMono(a, d, f);
    Distribute(q - p, p, f);
    DivModBase(q - p, f, n - d);
  }

  /** Nothing between the head blocks and the data is unreserved. */
  lemma SkipReserved(g: CylGroup, d: nat)
    requires g.geo.Wf() && g.geo.sblkno <= g.geo.dblkno && g.cgx < g.geo.ncg && d == DataStart(g.geo, g.cgx)
    requires Building(g, if g.cgx > 0 then g.geo.sblkno else 0)
    ensures Building(g, d)
  {
    hide Counted, ClusterMap, Bits, Geo.NDblk;
  }

  /** The cluster histogram is counted last; then the group is complete. */
  method Finish(g: CylGroup)
    requires g.geo.Wf() && g.cgx < g.geo.ncg && Building(g, g.geo.NDblk(g.cgx)) && g.owned == {}
    modifies g.clustersum
    ensures g.Valid()
  {
    hide Bits, Counted, ClusterCounted, RunLen, Geo.NDblk, Geo.Reserved, WholeBlock;
    if g.geo.cap > 0 {
      CountClusters(g.clustersfree, g.clustersum, g.geo.NCluster(g.cgx), g.geo.cap);
    }
    g.geo.MapCovers();
  }

  /** The sums over the first n groups of what initcg leaves behind. */
  function BlocksBelow(geo: Geo, n: nat): int
    requires geo.Wf() && n <= geo.ncg
  {
    if n == 0 then 0 else BlocksBelow(geo, n - 1) + InitBlocks(geo, n - 1)
  }

  function FragsBelow(geo: Geo, n: nat): int
    requires geo.Wf() && n <= geo.ncg
  {
    if n == 0 then 0 else FragsBelow(geo, n - 1) + InitFrags(geo, n - 1)
  }

  function InodesBelow(ipg: nat, n: nat): int {
    if n == 0 then 0 else InodesBelow(ipg, n - 1) + InitInodes(ipg, n - 1)
  }

  /** fs_cstotal.cs_nifree, the closed form that mkfs stores, is the sum of what initcg leaves in the groups. */
  lemma {:induction false} InodesAgree(ipg: nat, ncg: nat)
    requires ncg > 0
    ensures InodesBelow(ipg, ncg) == ncg * ipg - ROOTINO
  {
    if ncg > 1 {
      InodesAgree(ipg, ncg - 1);
      MulStep(ncg - 1, ipg);
    }
  }

  /** fs_dsize before the summary area is taken out, as mkfs computes it. */
  function DataSize(geo: Geo): int {
    geo.size - geo.sblkno - geo.ncg * (geo.dblkno - geo.sblkno)
  }

  /** fs_cstotal.cs_nbfree, as mkfs computes it. */
  function SuperBlocks(geo: Geo): int
    requires geo.frag > 0
  {
    DataSize(geo) / geo.frag - (geo.csfrags + geo.frag - 1) / geo.frag
  }

  /** fs_cstotal.cs_nffree, as mkfs computes it. */
  function SuperFrags(geo: Geo): int
    requires geo.frag > 0
  {
    geo.size % geo.frag + if geo.csfrags % geo.frag > 0 then geo.frag - geo.csfrags % geo.frag else 0
  }

  lemma DivTimes(x: nat, f: nat)
    requires ValidFrag(f)
    ensures (x / f) * f == x - x % f && 0 <= x % f < f
  {
    DivisionLaw(x, f);
  }

  lemma SubMod(n: nat, u: nat, f: nat)
    requires ValidFrag(f) && u <= n && u % f == 0
    ensures (n - u) % f == n % f
  {
    AddMod(u, n - u, f);
  }

  lemma RoundUpSum(a: nat, b: nat, f: nat)
    requires ValidFrag(f) && a % f == 0
    ensures RoundUp(a + b, f) == a + RoundUp(b, f)
    ensures RoundUp(b, f) - b == if b % f > 0 then f - b % f else 0
  {
    AddMod(a, b, f);
  }

  /** howmany, scaled back, is rounding up. */
  lemma HowMany(b: nat, f: nat)
    requires ValidFrag(f)
    ensures RoundUp(b, f) == ((b + f - 1) / f) * f
  {
    var q, r := b / f, b % f;
    DivisionLaw(b, f);
    MulStep(q, f);
    if r == 0 {
      DivModBase(q, f, f - 1);
    } else {
      DivModBase(q + 1, f, r - 1);
    }
  }

  /** Where initcg's whole blocks begin. */
  lemma FirstWholeBlock(geo: Geo, c: nat)
    requires Layout(geo) && c < geo.ncg
    ensures DataStart(geo, c) == geo.dblkno + if c == 0 then geo.csfrags else 0
    ensures var u := RoundUp(DataStart(geo, c), geo.frag);
      u == geo.dblkno + (if c == 0 then RoundUp(geo.csfrags, geo.frag) else 0) && u % geo.frag == 0 && u <= geo.NDblk(c)
  {
    hide Geo.NDblk, RoundUp;
    var f := geo.frag;
    RoundUpSum(geo.dblkno, if c == 0 then geo.csfrags else 0, f);
    RoundUpSum(0, 0, f);
    RoundUpAligned(DataStart(geo, c), f);
  }

  /** One group: its free blocks and loose fragments, scaled to fragments. */
  lemma OneGroup(geo: Geo, c: nat)
    requires Layout(geo) && c < geo.ncg
    ensures InitBlocks(geo, c) * geo.frag ==
      geo.NDblk(c) - geo.NDblk(c) % geo.frag - geo.dblkno + (if c > 0 then geo.sblkno else 0)
        - (if c == 0 then RoundUp(geo.csfrags, geo.frag) else 0)
    ensures InitFrags(geo, c) == geo.NDblk(c) % geo.frag + if c == 0 then RoundUp(geo.csfrags, geo.frag) - geo.csfrags else 0
  {
    hide Geo.NDblk, RoundUp, DataStart;
    var f, n := geo.frag, geo.NDblk(c);
    var u := RoundUp(DataStart(geo, c), f);
    FirstWholeBlock(geo, c);
    SubMod(n, u, f);
    DivTimes(n - u, f);
    DivTimes(geo.sblkno, f);
    Distribute(if c > 0 then geo.sblkno / f else 0, (n - u) / f, f);
  }

  /** All groups but the last are full. */
  lemma {:induction false} FullGroups(geo: Geo, n: nat)
    requires Layout(geo) && 1 <= n < geo.ncg
    ensures BlocksBelow(geo, n) * geo.frag == n * geo.fpg + (n - 1) * geo.sblkno - n * geo.dblkno - RoundUp(geo.csfrags, geo.frag)
    ensures FragsBelow(geo, n) == RoundUp(geo.csfrags, geo.frag) - geo.csfrags
  {
    hide InitBlocks, InitFrags, RoundUp;
    var c := n - 1;
    OneGroup(geo, c);
    FullGroup(geo, c);
    if n > 1 {
      FullGroups(geo, c);
      Distribute(BlocksBelow(geo, c), InitBlocks(geo, c), geo.frag);
      MulStep(c, geo.fpg);
      MulStep(c - 1, geo.sblkno);
      MulStep(c, geo.dblkno);
    }
  }

  lemma FullGroup(geo: Geo, c: nat)
    requires geo.Wf() && c + 1 < geo.ncg
    ensures geo.NDblk(c) == geo.fpg && geo.fpg % geo.frag == 0
  {
    MulMono(c + 1, geo.ncg - 1, geo.fpg);
  }

  lemma LastGroup(geo: Geo)
    requires geo.Wf()
    ensures geo.NDblk(geo.ncg - 1) == geo.size - (geo.ncg - 1) * geo.fpg
    ensures geo.NDblk(geo.ncg - 1) % geo.frag == geo.size % geo.frag
  {
    var b := (geo.ncg - 1) * geo.fpg;
    MulStep(geo.ncg - 1, geo.fpg);
    assert b % geo.frag == 0 by {
      if geo.ncg > 1 {
        ProductMod(geo.ncg - 1, geo.fpg, geo.frag);
      }
    }
    SubMod(geo.size, b, geo.frag);
  }

  /** The sums over all groups, scaled to fragments. */
  lemma AllGroups(geo: Geo)
    requires Layout(geo)
    ensures BlocksBelow(geo, geo.ncg) * geo.frag == DataSize(geo) - geo.size % geo.frag - RoundUp(geo.csfrags, geo.frag)
    ensures FragsBelow(geo, geo.ncg) == geo.size % geo.frag + RoundUp(geo.csfrags, geo.frag) - geo.csfrags
  {
    hide InitBlocks, InitFrags, RoundUp, Geo.NDblk;
    var f, last := geo.frag, geo.ncg - 1;
    OneGroup(geo, last);
    LastGroup(geo);
    if last > 0 {
      FullGroups(geo, last);
    }
    Distribute(BlocksBelow(geo, last), InitBlocks(geo, last), f);
    SpreadData(geo, last);
  }

  lemma SpreadData(geo: Geo, last: int)
    requires last == geo.ncg - 1
    ensures DataSize(geo) == geo.size - last * geo.dblkno - geo.dblkno + last * geo.sblkno
    ensures (last - 1) * geo.sblkno == last * geo.sblkno - geo.sblkno
  {
    assert geo.ncg * (geo.dblkno - geo.sblkno) == geo.ncg * geo.dblkno - geo.ncg * geo.sblkno;
  }

  /** The closed-form totals in the superblock are the sums of what initcg builds, for every
      layout, including a short last group and a single unaligned one. */
  lemma TotalsAgree(geo: Geo)
    requires Layout(geo)
    ensures SuperBlocks(geo) == BlocksBelow(geo, geo.ncg)
    ensures SuperFrags(geo) == FragsBelow(geo, geo.ncg)
  {
    hide Layout, BlocksBelow, FragsBelow, RoundUp, DataSize;
    LayoutFrag(geo);
    var f, total := geo.frag, BlocksBelow(geo, geo.ncg);
    AllGroups(geo);
    RoundUpSum(0, geo.csfrags, f);
    HowMany(geo.csfrags, f);
    var blocks := (geo.csfrags + f - 1) / f;
    Distribute(total, blocks, f);
    DivTimes(geo.size, f);
    Quotient(DataSize(geo), total + blocks, geo.size % f, f);
  }

  /** fs_dsize, once the summary area is taken out, is exactly the free space newfs reports. */
  lemma DataSizeIsFree(geo: Geo)
    requires Layout(geo)
    ensures SuperBlocks(geo) * geo.frag + SuperFrags(geo) == DataSize(geo) - geo.csfrags
  {
    hide Layout, BlocksBelow, FragsBelow, RoundUp, DataSize, SuperBlocks, SuperFrags;
    LayoutFrag(geo);
    TotalsAgree(geo);
    AllGroups(geo);
  }

  lemma LayoutFrag(geo: Geo)
    requires Layout(geo)
    ensures ValidFrag(geo.frag) && geo.Wf()
  {}

  lemma Quotient(x: int, q: int, r: nat, f: nat)
    requires ValidFrag(f) && r < f && x == q * f + r
    ensures x / f == q
  {
    if f == 8 {
      assert (q * 8 + r) / 8 == q;
    } else if f == 4 {
      assert (q * 4 + r) / 4 == q;
    } else if f == 2 {
      assert (q * 2 + r) / 2 == q;
    }
  }

  /** The loop over initcg. */
  method InitGroups(geo: Geo) returns (groups: seq<CylGroup>)
    requires Layout(geo)
    ensures |groups| == geo.ncg
    ensures forall d :: 0 <= d < |groups| ==> fresh(Repr(groups[d])) && Made(geo, groups[d], d)
    ensures forall d, e :: 0 <= d < e < |groups| ==> Repr(groups[d]) !! Repr(groups[e])
  {
    hide CylGroup.Valid, Layout, InitBlocks, InitFrags;
    LayoutFrag(geo);
    groups := [];
    var c := 0;
    while c < geo.ncg
      invariant 0 <= c <= geo.ncg && |groups| == c
      invariant forall d :: 0 <= d < c ==> fresh(Repr(groups[d])) && Made(geo, groups[d], d)
      invariant forall d, e :: 0 <= d < e < c ==> Repr(groups[d]) !! Repr(groups[e])
    {
      var g := InitCg(geo, c);
      groups := groups + [g];
      c := c + 1;
    }
  }

  /** Group d as initcg leaves it. */
  ghost predicate Made(geo: Geo, g: CylGroup, d: int)
    reads Repr(g)
  {
    && geo.Wf() && 0 <= d < geo.ncg
    && g.geo == geo && g.cgx == d && g.owned == {} && g.Valid()
    && g.nbfree == InitBlocks(geo, d) && g.nffree == InitFrags(geo, d)
  }

  lemma {:induction false} SumsBelow(geo: Geo, nb: seq<int>, nf: seq<int>)
    requires geo.Wf() && |nb| == |nf| <= geo.ncg
    requires forall c :: 0 <= c < |nb| ==> nb[c] == InitBlocks(geo, c) && nf[c] == InitFrags(geo, c)
    ensures Sum(nb) == BlocksBelow(geo, |nb|) && Sum(nf) == FragsBelow(geo, |nb|)
  {
    hide InitBlocks, InitFrags;
    if nb != [] {
      SumsBelow(geo, nb[..|nb| - 1], nf[..|nf| - 1]);
    }
  }

  /** The superblock's copy of each group's summary. */
  method CopySummaries(geo: Geo, groups: seq<CylGroup>) returns (csNbfree: array<int>, csNffree: array<int>)
    requires geo.Wf() && |groups| == geo.ncg
    requires forall c :: 0 <= c < |groups| ==> groups[c].geo == geo && groups[c].cgx == c
    requires forall d, e :: 0 <= d < e < |groups| ==> Repr(groups[d]) !! Repr(groups[e])
    ensures fresh(csNbfree) && fresh(csNffree) && Parts(geo, groups, csNbfree, csNffree)
    ensures forall c :: 0 <= c < |groups| ==> csNbfree[c] == groups[c].nbfree && csNffree[c] == groups[c].nffree
  {
    hide Geo.Wf;
    csNbfree := new int[geo.ncg];
    csNffree := new int[geo.ncg];
    var c := 0;
    while c < geo.ncg
      invariant 0 <= c <= geo.ncg
      invariant forall d :: 0 <= d < c ==> csNbfree[d] == groups[d].nbfree && csNffree[d] == groups[d].nffree
    {
      csNbfree[c], csNffree[c] := groups[c].nbfree, groups[c].nffree;
      c := c + 1;
    }
  }

  /** mkfs: every group is initialised and the closed-form totals are stored; the filesystem it
      produces satisfies the invariant that the allocator keeps, with nothing handed out. */
  method MkFs(geo: Geo) returns (fs: FileSystem)
    requires Layout(geo)
    ensures fs.geo == geo && fs.Valid() && fresh(fs) && fresh(fs.csNbfree) && fresh(fs.csNffree) && fresh(fs.Objects())
    ensures forall c: nat :: c < geo.ncg ==> fs.groups[c].owned == {}
    ensures forall c: nat :: c < geo.ncg ==> fs.groups[c].nbfree == InitBlocks(geo, c) && fs.groups[c].nffree == InitFrags(geo, c)
    ensures fs.nbfree == SuperBlocks(geo) && fs.nffree == SuperFrags(geo)
  {
    hide CylGroup.Valid, InitBlocks, InitFrags, Layout;
    LayoutFrag(geo);
    var groups := InitGroups(geo);
    assert forall d :: 0 <= d < |groups| ==> Made(geo, groups[d], d);
    var csNbfree, csNffree := CopySummaries(geo, groups);
    SumsBelow(geo, csNbfree[..], csNffree[..]);
    TotalsAgree(geo);
    label built:
    fs := new FileSystem(geo, groups, csNbfree, csNffree, SuperBlocks(geo), SuperFrags(geo));
    assert csNbfree[..] == old@built(csNbfree[..]) && csNffree[..] == old@built(csNffree[..]);
    forall c: nat | c < |groups|
      ensures groups[c].Valid() && fs.Mirrored(c)
    {
      assert old@built(Made(geo, groups[c], c));
      GroupKept@built(groups[c]);
    }
  }
}
