/** Returning space: the order and the split of the pieces do not matter, and an allocation
    followed by its free restores the group. */
module Release {
  import opened Arith
  import opened Bitmap
  import opened Recount
  import opened Clusters
  import opened CgCounts
  import opened Geometry
  import opened FragSearch
  import opened Allocator

  /** n fragments at bno, inside one block. */
  datatype Piece = Piece(bno: nat, n: nat)

  predicate Legal(p: Piece, frag: nat, size: nat) {
    frag > 0 && 1 <= p.n && p.bno % frag + p.n <= frag && p.bno + p.n <= size
  }

  predicate AllLegal(ps: seq<Piece>, frag: nat, size: nat) {
    forall i :: 0 <= i < |ps| ==> Legal(ps[i], frag, size)
  }

  ghost predicate Disjoint(ps: seq<Piece>) {
    forall i, j :: 0 <= i < j < |ps| ==> Range(ps[i].bno, ps[i].n) !! Range(ps[j].bno, ps[j].n)
  }

  /** The fragments covered by a list of pieces. */
  ghost function Cover(ps: seq<Piece>): set<nat> {
    if ps == [] then {} else Range(ps[0].bno, ps[0].n) + Cover(ps[1..])
  }

  /** The map after the pieces are returned, one after the other. */
  function GiveAll(free: seq<bool>, ps: seq<Piece>): (r: seq<bool>)
    requires forall i :: 0 <= i < |ps| ==> ps[i].bno + ps[i].n <= |free|
    ensures |r| == |free|
    decreases |ps|
  {
    if ps == [] then free else GiveAll(Fill(free, ps[0].bno, ps[0].n, true), ps[1..])
  }

  lemma {:induction false} GiveAllAt(free: seq<bool>, ps: seq<Piece>, i: nat)
    requires forall j :: 0 <= j < |ps| ==> ps[j].bno + ps[j].n <= |free|
    requires i < |free|
    ensures GiveAll(free, ps)[i] <==> free[i] || i in Cover(ps)
    decreases |ps|
  {
    hide Range, Fill;
    if ps != [] {
      GiveAllAt(Fill(free, ps[0].bno, ps[0].n, true), ps[1..], i);
    }
  }

  /** Two ways of returning the same fragments reach the same map. */
  lemma SameCoverSameMap(free: seq<bool>, ps: seq<Piece>, qs: seq<Piece>)
    requires forall j :: 0 <= j < |ps| ==> ps[j].bno + ps[j].n <= |free|
    requires forall j :: 0 <= j < |qs| ==> qs[j].bno + qs[j].n <= |free|
    requires Cover(ps) == Cover(qs)
    ensures GiveAll(free, ps) == GiveAll(free, qs)
  {
    hide GiveAll;
    forall i | 0 <= i < |free|
      ensures GiveAll(free, ps)[i] == GiveAll(free, qs)[i]
    {
      GiveAllAt(free, ps, i);
      GiveAllAt(free, qs, i);
    }
  }

  lemma {:induction false} CoverHas(ps: seq<Piece>, j: nat)
    requires j < |ps|
    ensures Range(ps[j].bno, ps[j].n) <= Cover(ps)
  {
    if j > 0 {
      CoverHas(ps[1..], j - 1);
    }
  }

  lemma {:induction false} CoverApart(p: Piece, ps: seq<Piece>)
    requires forall j :: 0 <= j < |ps| ==> Range(p.bno, p.n) !! Range(ps[j].bno, ps[j].n)
    ensures Range(p.bno, p.n) !! Cover(ps)
  {
    hide Range;
    if ps != [] {
      CoverApart(p, ps[1..]);
    }
  }

  /** Returns owned, disjoint pieces one by one. */
  method FreeAll(g: CylGroup, ps: seq<Piece>)
    requires g.Valid() && AllLegal(ps, g.geo.frag, |g.Free()|) && Disjoint(ps) && Cover(ps) <= g.owned
    modifies g, g.blksfree, g.frsum, g.clustersfree, g.clustersum
    ensures g.Valid()
    ensures g.Free() == GiveAll(old(g.Free()), ps)
    ensures g.owned == old(g.owned) - Cover(ps)
    decreases |ps|
  {
    hide CylGroup.Valid, Range, Fill, Bits;
    if ps != [] {
      var p := ps[0];
      CoverApart(p, ps[1..]);
      var _, _ := g.BlkFree(p.bno, p.n);
      assert Cover(ps) == Range(p.bno, p.n) + Cover(ps[1..]);
      FreeAll(g, ps[1..]);
    }
  }

  /** Everything a group's summaries say: the histogram of runs, and the cluster map and its sums if there are clusters. */
  datatype Summary = Summary(nbfree: int, nffree: int, frsum: seq<int>, cl: seq<bool>, clustersum: seq<int>)

  ghost function SummaryOf(g: CylGroup): Summary
    requires g.Shape()
    reads g, g.frsum, g.clustersfree, g.clustersum
  {
    Summary(g.nbfree, g.nffree, g.frsum[..],
            if g.geo.cap > 0 then g.Clusters() else [],
            if g.geo.cap > 0 then g.clustersum[1..] else [])
  }

  /** What they must say, counted from the map alone. */
  ghost function Recap(geo: Geo, c: nat, free: seq<bool>): Summary
    requires geo.Wf() && c < geo.ncg
  {
    var cl := RecapClusters(geo, c, free);
    Summary(Recounted(Whole, free, geo.frag), Recounted(Loose, free, geo.frag),
            RecapRuns(free, geo.frag),
            if geo.cap > 0 then cl else [],
            if geo.cap > 0 then RecapSums(cl, geo.cap) else [])
  }

  ghost function RecapRuns(free: seq<bool>, frag: nat): seq<int>
    requires frag > 0
  {
    seq(MAXFRAG, k requires 0 <= k < MAXFRAG => if 1 <= k < frag then Recounted(RunsOf(k), free, frag) else 0)
  }

  ghost function RecapSums(cl: seq<bool>, cap: nat): seq<int> {
    seq(cap, k requires 0 <= k => CappedRuns(cl, cap, k + 1))
  }

  lemma RunsDecided(free: seq<bool>, frag: nat, nb: int, nf: int, frsum: seq<int>)
    requires Counted(free, frag, nb, nf, frsum)
    ensures frag > 0 && frsum == RecapRuns(free, frag)
  {
    hide Recounted;
  }

  lemma SumsDecided(cl: seq<bool>, sum: seq<int>, cap: nat)
    requires ClusterCounted(cl, sum, cap)
    ensures sum[1..] == RecapSums(cl, cap)
  {
    hide CappedRuns;
  }

  /** The cluster map: the wholly free blocks. */
  ghost function RecapClusters(geo: Geo, c: nat, free: seq<bool>): seq<bool>
    requires geo.Wf() && c < geo.ncg
  {
    seq(8 * geo.ClusterBytes(), b requires 0 <= b => b < geo.NCluster(c) && WholeBlock(free, geo.frag, b))
  }

  /** In every group whose invariant holds, the map alone decides every summary. */
  lemma MapDecides(g: CylGroup)
    requires g.Valid()
    ensures SummaryOf(g) == Recap(g.geo, g.cgx, g.Free())
  {
    hide Recounted, WholeBlock, Bits, Partition, MaxKnown, Geo.NDblk, Geo.ClusterBytes, ClusterMap, ClusterCounted, RecapRuns, RecapSums,
      RecapClusters;
    RunsDecided(g.Free(), g.geo.frag, g.nbfree, g.nffree, g.frsum[..]);
    if g.geo.cap > 0 {
      ClusterMapIs(g);
      SumsDecided(g.Clusters(), g.clustersum[..], g.geo.cap);
      assert g.clustersum[..][1..] == g.clustersum[1..];
    }
  }

  lemma ClusterMapIs(g: CylGroup)
    requires g.Valid() && g.geo.cap > 0
    ensures g.Clusters() == RecapClusters(g.geo, g.cgx, g.Free())
  {
    hide Counted, WholeBlock, Bits, Partition, MaxKnown, ClusterCounted, Geo.NDblk, Geo.ClusterBytes;
    var cl, r := g.Clusters(), RecapClusters(g.geo, g.cgx, g.Free());
    assert |cl| == |r|;
    forall b | 0 <= b < |cl|
      ensures cl[b] == r[b]
    {}
  }

  /**
    * Freeing is independent of order and of the split into pieces: two groups in the same state, one freed by one
    * list of pieces and the other by another that covers the same fragments, end with the same map, counts,
    * fragment histogram, cluster map and cluster histogram.
    */
  method FreeBoth(g: CylGroup, h: CylGroup, ps: seq<Piece>, qs: seq<Piece>)
    requires g.Valid() && h.Valid() && g.geo == h.geo && g.cgx == h.cgx && g.Free() == h.Free()
    requires {g, g.blksfree, g.frsum, g.clustersfree, g.clustersum} !! {h, h.blksfree, h.frsum, h.clustersfree, h.clustersum}
    requires AllLegal(ps, g.geo.frag, |g.Free()|) && Disjoint(ps) && Cover(ps) <= g.owned
    requires AllLegal(qs, g.geo.frag, |g.Free()|) && Disjoint(qs) && Cover(qs) <= h.owned
    requires Cover(ps) == Cover(qs)
    modifies g, g.blksfree, g.frsum, g.clustersfree, g.clustersum
    modifies h, h.blksfree, h.frsum, h.clustersfree, h.clustersum
    ensures g.Valid() && h.Valid() && g.Free() == h.Free() == GiveAll(old(g.Free()), ps)
    ensures SummaryOf(g) == SummaryOf(h)
  {
    hide CylGroup.Valid, Bits, GiveAll, Disjoint, Cover, Recap, SummaryOf, AllLegal;
    LegalFits(ps, g.geo.frag, |g.Free()|);
    LegalFits(qs, g.geo.frag, |g.Free()|);
    SameCoverSameMap(g.Free(), ps, qs);
    FreeAll(g, ps);
    FreeAll(h, qs);
    MapDecides(g);
    MapDecides(h);
  }

  lemma LegalFits(ps: seq<Piece>, frag: nat, size: nat)
    requires AllLegal(ps, frag, size)
    ensures forall j :: 0 <= j < |ps| ==> ps[j].bno + ps[j].n <= size
  {}

  /** Allocating a free extent and returning it in any pieces restores the map. */
  lemma AllocThenFree(free: seq<bool>, lo: nat, n: nat, ps: seq<Piece>)
    requires AllSet(free, lo, n) && Cover(ps) == Range(lo, n)
    requires forall j :: 0 <= j < |ps| ==> ps[j].bno + ps[j].n <= |free|
    ensures GiveAll(Fill(free, lo, n, false), ps) == free
  {
    hide GiveAll, Range;
    forall i | 0 <= i < |free|
      ensures GiveAll(Fill(free, lo, n, false), ps)[i] == free[i]
    {
      GiveAllAt(Fill(free, lo, n, false), ps, i);
    }
  }

  /** A way to cut an extent of n fragments into pieces, wherever it lies. */
  ghost predicate Cuts(pieces: nat -> seq<Piece>, n: nat) {
    forall b: nat :: Cover(pieces(b)) == Range(b, n) && Disjoint(pieces(b))
      && forall j :: 0 <= j < |pieces(b)| ==> pieces(b)[j].n >= 1
  }

  lemma InsideLegal(b: nat, n: nat, p: Piece, frag: nat, size: nat)
    requires frag > 0 && b % frag + n <= frag && b + n <= size
    requires 1 <= p.n && b <= p.bno && p.bno + p.n <= b + n
    ensures Legal(p, frag, size)
  {
    DivisionLaw(b, frag);
    DivModBase(b / frag, frag, b % frag + (p.bno - b));
  }

  /** Pieces of an extent inside one block are legal. */
  lemma CutsLegal(pieces: nat -> seq<Piece>, n: nat, b: nat, frag: nat, size: nat)
    requires Cuts(pieces, n) && frag > 0 && b % frag + n <= frag && b + n <= size
    ensures AllLegal(pieces(b), frag, size)
  {
    hide Range, Disjoint, Cover, Legal;
    var ps := pieces(b);
    forall j | 0 <= j < |ps|
      ensures Legal(ps[j], frag, size)
    {
      var p := ps[j];
      CoverHas(ps, j);
      assert p.bno in Range(p.bno, p.n) && p.bno + p.n - 1 in Range(p.bno, p.n);
      assert p.bno in Range(b, n) && p.bno + p.n - 1 in Range(b, n);
      InsideLegal(b, n, p, frag, size);
    }
  }

  /** Allocating from a group and returning the extent in any pieces restores the map, the owners and every summary. */
  method AllocThenFreeAll(g: CylGroup, bpref: nat, size: nat, rsize: nat, pieces: nat -> seq<Piece>) returns (ok: bool, bno: nat)
    requires g.Valid() && bpref < g.geo.size && Cuts(pieces, rsize)
    requires 1 <= rsize <= size <= g.geo.frag && (size == rsize || size == g.geo.frag)
    modifies g, g.blksfree, g.frsum, g.clustersfree, g.clustersum
    ensures g.Valid() && g.Free() == old(g.Free()) && g.owned == old(g.owned)
    ensures SummaryOf(g) == old(SummaryOf(g))
    ensures ok <==> old(CanAlloc(g.blksfree[..], g.geo.frag, size))
  {
    hide CylGroup.Valid, Bits, GiveAll, Disjoint, Cover, Recap, SummaryOf, AllLegal, CanAlloc, BestFit, Range, Fill, Cuts;
    ghost var free, own := g.Free(), g.owned;
    MapDecides(g);
    var dnb, dnf;
    ok, bno, dnb, dnf := g.AllocCg(bpref, size, rsize);
    if ok {
      var ps := pieces(bno);
      g.Bounds();
      CutsAt(pieces, rsize, bno);
      CutsLegal(pieces, rsize, bno, g.geo.frag, |g.Free()|);
      LegalFits(ps, g.geo.frag, |g.Free()|);
      AllocThenFree(free, bno, rsize, ps);
      FreeAll(g, ps);
    }
    MapDecides(g);
  }

  lemma CutsAt(pieces: nat -> seq<Piece>, n: nat, b: nat)
    requires Cuts(pieces, n)
    ensures Cover(pieces(b)) == Range(b, n) && Disjoint(pieces(b))
  {}
}
