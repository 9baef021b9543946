/** The user-level pair of libufs: cgballoc works on the loaded copy of a cylinder group, cgbfree reads the group
    from the disk again, changes it without testing anything, and writes it back. */
module Libufs {
  import opened Arith
  import opened Bitmap
  import opened Runs
  import opened Recount
  import opened Clusters
  import opened CgCounts
  import opened Geometry
  import opened FragSearch
  import opened Allocator

  /** A cylinder group, as the loaded buffer or the disk has it. */
  datatype Cg = Cg(
    free: seq<bool>, cl: seq<bool>, frsum: seq<int>, sums: seq<int>,
    nbfree: int, nffree: int, rotor: nat, frotor: nat)

  ghost predicate Sized(geo: Geo, c: nat, v: Cg) {
    && geo.Wf() && c < geo.ncg && |v.free| == 8 * geo.MapBytes() && |v.cl| == 8 * geo.ClusterBytes()
    && |v.frsum| == MAXFRAG && |v.sums| == geo.cap + 1 && geo.NCluster(c) <= |v.cl|
    && (geo.cap > 0 ==> ClearFrom(v.cl, geo.NCluster(c)))
  }

  /** Every summary of the group recounts its map, and only data fragments of the group are free. */
  ghost predicate Sound(geo: Geo, c: nat, v: Cg) {
    && Sized(geo, c, v) && Counted(v.free, geo.frag, v.nbfree, v.nffree, v.frsum)
    && Within(geo, c, v.free) && Clustered(geo, c, v.free, v.cl, v.sums)
  }

  ghost predicate Within(geo: Geo, c: nat, free: seq<bool>)
    requires geo.Wf() && c < geo.ncg
  {
    forall i :: 0 <= i < |free| && free[i] ==> i < geo.NDblk(c) && !geo.Reserved(c, i)
  }

  ghost predicate Clustered(geo: Geo, c: nat, free: seq<bool>, cl: seq<bool>, sums: seq<int>)
    requires geo.Wf() && c < geo.ncg
  {
    geo.cap > 0 ==> ClusterMap(free, cl, geo.frag, geo.NCluster(c)) && ClusterCounted(cl, sums, geo.cap)
  }

  /** Block h of the group. */
  ghost predicate InGroup(geo: Geo, c: nat, h: nat)
    requires geo.Wf() && c < geo.ncg
  {
    h < geo.NCluster(c) && h * geo.frag + geo.frag <= 8 * geo.MapBytes()
  }

  /** What ffs_clusteracct does to the cluster map and its histogram. */
  function Acct(geo: Geo, c: nat, v: Cg, h: nat, cnt: int): (w: Cg)
    requires geo.cap > 0 ==> h < |v.cl| && |v.sums| == geo.cap + 1
    ensures w == v.(cl := w.cl, sums := w.sums) && |w.cl| == |v.cl| && |w.sums| == |v.sums|
  {
    if geo.cap == 0 then v
    else
      var s := v.cl[h := false];
      v.(cl := v.cl[h := cnt > 0],
         sums := Slots(v.sums, geo.cap, Cap(BackLen(s, h), geo.cap), Cap(RunLen(s, h + 1), geo.cap), cnt))
  }

  /** What cgballoc does to the loaded group when block h is the one it takes. */
  function Balloc(geo: Geo, c: nat, v: Cg, h: nat): (w: Cg)
    requires h * geo.frag + geo.frag <= |v.free| && (geo.cap > 0 ==> h < |v.cl| && |v.sums| == geo.cap + 1)
  {
    Acct(geo, c, v.(free := Fill(v.free, h * geo.frag, geo.frag, false), nbfree := v.nbfree - 1), h, -1)
  }

  /** What the whole-block branch of cgbfree does to the group it read. */
  function Bfree(geo: Geo, c: nat, v: Cg, h: nat): (w: Cg)
    requires h * geo.frag + geo.frag <= |v.free| && (geo.cap > 0 ==> h < |v.cl| && |v.sums| == geo.cap + 1)
  {
    Acct(geo, c, v.(free := Fill(v.free, h * geo.frag, geo.frag, true), nbfree := v.nbfree + 1), h, 1)
  }

  /** The histogram with the runs of one block value taken out and those of another put in. */
  function Moved(frsum: seq<int>, frag: nat, x: seq<bool>, y: seq<bool>): (r: seq<int>)
    ensures |r| == |frsum|
    ensures forall k :: 0 <= k < |frsum| ==>
      r[k] == frsum[k] + if 1 <= k < frag then RunCount(y, k) - RunCount(x, k) else 0
  {
    seq(|frsum|, k requires 0 <= k < |frsum| => frsum[k] + if 1 <= k < frag then RunCount(y, k) - RunCount(x, k) else 0)
  }

  /** The n fragments at offset p of block h can be set; if that makes the block whole, it is a block of the group. */
  ghost predicate Returnable(geo: Geo, c: nat, v: Cg, h: nat, p: nat, n: nat) {
    && geo.Wf() && c < geo.ncg && h * geo.frag + geo.frag <= |v.free| && p + n <= geo.frag
    && (WholeBlock(Fill(v.free, h * geo.frag + p, n, true), geo.frag, h) ==> h < geo.NCluster(c))
  }

  ghost predicate Freeable(geo: Geo, v: Cg, h: nat, p: nat, n: nat) {
    && h * geo.frag + geo.frag <= |v.free| && p + n <= geo.frag
    && (geo.cap > 0 && WholeBlock(Fill(v.free, h * geo.frag + p, n, true), geo.frag, h) ==>
      h < |v.cl| && |v.sums| == geo.cap + 1)
  }

  /** What its fragment branch does, for n fragments at offset p of block h. */
  function Ffree(geo: Geo, c: nat, v: Cg, h: nat, p: nat, n: nat): (w: Cg)
    requires Freeable(geo, v, h, p, n)
  {
    var after := Fill(v.free, h * geo.frag + p, n, true);
    var w := v.(free := after, nffree := v.nffree + n,
                frsum := Moved(v.frsum, geo.frag, Block(v.free, geo.frag, h), Block(after, geo.frag, h)));
    if WholeBlock(after, geo.frag, h) then Acct(geo, c, w.(nffree := w.nffree - geo.frag, nbfree := w.nbfree + 1), h, 1)
    else w
  }

  // ----- the invariant -----

  /** The cluster half: a block that became, or stopped being, wholly free. */
  lemma AcctSound(geo: Geo, c: nat, v: Cg, after: seq<bool>, h: nat, cnt: int)
    requires Sized(geo, c, v) && InGroup(geo, c, h) && (cnt == 1 || cnt == -1)
    requires AgreeOutside(v.free, after, h * geo.frag, geo.frag)
    requires WholeBlock(v.free, geo.frag, h) == (cnt == -1) && WholeBlock(after, geo.frag, h) == (cnt == 1)
    requires Clustered(geo, c, v.free, v.cl, v.sums)
    ensures var w := Acct(geo, c, v, h, cnt); Clustered(geo, c, after, w.cl, w.sums)
  {
    hide WholeBlock, ClusterCounted, RunLen, BackLen, Slots, Geo.NDblk, Counted;
    if geo.cap > 0 {
      ClusterMapFlipped(v.free, after, v.cl, geo.frag, geo.NCluster(c), h);
      var s := v.cl[h := false];
      assert v.cl == if cnt == 1 then s else s[h := true];
      SlotsCount(s, h, v.sums, geo.cap, cnt);
      assert v.cl[h := cnt > 0] == if cnt == 1 then s[h := true] else s;
    }
  }

  lemma WholeInside(geo: Geo, c: nat, v: Cg, h: nat)
    requires Sound(geo, c, v) && WholeBlock(v.free, geo.frag, h)
    ensures InGroup(geo, c, h) && h * geo.frag + geo.frag <= geo.NDblk(c) && geo.Base(c) + h * geo.frag != 0
  {
    hide Counted, ClusterMap, ClusterCounted, Geo.NDblk;
    var lo := h * geo.frag;
    assert v.free[lo] && v.free[lo + geo.frag - 1];
    BlockBelow(geo.frag, geo.NDblk(c), h);
    geo.MapCovers();
  }

  /** Taking a wholly free block keeps the group sound. */
  lemma BallocSound(geo: Geo, c: nat, v: Cg, h: nat)
    requires Sound(geo, c, v) && WholeBlock(v.free, geo.frag, h)
    ensures InGroup(geo, c, h) && Sound(geo, c, Balloc(geo, c, v, h))
  {
    hide Fill, Block, IsRun, Counted, Within, Clustered, Geo.NDblk, WholeBlock, AgreeOutside, Acct, Geo.Reserved, FrsumTaken;
    WholeInside(geo, c, v, h);
    var after := Fill(v.free, h * geo.frag, geo.frag, false);
    WholeIsAllFree(v.free, geo.frag, h);
    CountedShape(v.free, geo.frag, v.nbfree, v.nffree, v.frsum);
    SameTaken(v.frsum, geo.frag);
    TakeCounted(v.free, geo.frag, v.nbfree, v.nffree, v.frsum, h, 0, geo.frag, geo.frag, v.frsum);
    BlockCleared(v.free, geo.frag, h, geo.frag);
    ClearedInside(geo, c, v.free, h * geo.frag, geo.frag);
    AcctSound(geo, c, v, after, h, -1);
    AcctFields(geo, c, v, v.(free := after, nbfree := v.nbfree - 1), h, -1);
    AcctClear(geo, c, v, h, -1);
  }

  lemma SameTaken(frsum: seq<int>, frag: nat)
    requires |frsum| == MAXFRAG
    ensures FrsumTaken(frsum, frsum, frag, frag, frag)
  {}

  lemma ClearedInside(geo: Geo, c: nat, free: seq<bool>, lo: nat, n: nat)
    requires geo.Wf() && c < geo.ncg && Within(geo, c, free) && lo + n <= |free|
    ensures Within(geo, c, Fill(free, lo, n, false))
  {
    hide Fill, Geo.NDblk, Geo.Reserved;
  }

  lemma AcctClear(geo: Geo, c: nat, v: Cg, h: nat, cnt: int)
    requires Sized(geo, c, v) && h < geo.NCluster(c)
    ensures Sized(geo, c, Acct(geo, c, v, h, cnt))
  {
    hide Slots, RunLen, BackLen, Geo.NDblk;
  }

  /** The n fragments at lo are taken, and are data fragments of the group. */
  ghost predicate InUse(geo: Geo, c: nat, v: Cg, lo: nat, n: nat)
    requires geo.Wf() && c < geo.ncg
  {
    forall i :: lo <= i < lo + n ==> i < |v.free| && !v.free[i] && i < geo.NDblk(c) && !geo.Reserved(c, i)
  }

  lemma FilledInside(geo: Geo, c: nat, v: Cg, lo: nat, n: nat)
    requires Sound(geo, c, v) && InUse(geo, c, v, lo, n) && lo + n <= |v.free|
    ensures Within(geo, c, Fill(v.free, lo, n, true))
  {
    hide Fill, Counted, Clustered, Geo.NDblk, Geo.Reserved;
    var after := Fill(v.free, lo, n, true);
    forall i | 0 <= i < |after| && after[i]
      ensures i < geo.NDblk(c) && !geo.Reserved(c, i)
    {
      assert lo <= i < lo + n ==> !v.free[i];
    }
  }

  lemma InUseTaken(geo: Geo, c: nat, v: Cg, lo: nat, n: nat)
    requires geo.Wf() && c < geo.ncg && InUse(geo, c, v, lo, n) && lo + n <= |v.free|
    ensures forall i :: lo <= i < lo + n ==> !v.free[i]
  {}

  /** Returning a block that is in use keeps the group sound. */
  lemma BfreeSound(geo: Geo, c: nat, v: Cg, h: nat)
    requires Sound(geo, c, v) && InGroup(geo, c, h) && InUse(geo, c, v, h * geo.frag, geo.frag)
    ensures Sound(geo, c, Bfree(geo, c, v, h))
  {
    hide Fill, Block, Counted, Within, Clustered, Geo.NDblk, WholeBlock, AgreeOutside, Acct, Geo.Reserved, InUse;
    var after := Fill(v.free, h * geo.frag, geo.frag, true);
    FilledInside(geo, c, v, h * geo.frag, geo.frag);
    InUseTaken(geo, c, v, h * geo.frag, geo.frag);
    CountedShape(v.free, geo.frag, v.nbfree, v.nffree, v.frsum);
    WholeReturned(v.free, geo.frag, h, v.nbfree, v.nffree, v.frsum);
    BlockFilled(v.free, geo.frag, h, 0, geo.frag);
    AcctSound(geo, c, v, after, h, 1);
    AcctFields(geo, c, v, v.(free := after, nbfree := v.nbfree + 1), h, 1);
    AcctClear(geo, c, v, h, 1);
  }

  lemma WholeData(geo: Geo, c: nat, free: seq<bool>, h: nat)
    requires geo.Wf() && c < geo.ncg && Within(geo, c, free) && WholeBlock(free, geo.frag, h)
    ensures h < geo.NCluster(c)
  {
    hide Geo.NDblk, Geo.Reserved;
    var i := h * geo.frag + geo.frag - 1;
    assert free[i];
    BlockBelow(geo.frag, geo.NDblk(c), h);
  }

  /** Data fragments in use can always be returned, those after the last whole block included. */
  lemma InUseReturnable(geo: Geo, c: nat, v: Cg, h: nat, p: nat, n: nat)
    requires Sound(geo, c, v) && h * geo.frag + geo.frag <= 8 * geo.MapBytes() && p + n <= geo.frag
    requires InUse(geo, c, v, h * geo.frag + p, n)
    ensures Returnable(geo, c, v, h, p, n)
  {
    hide Fill, Counted, Within, Clustered, Geo.NDblk, WholeBlock, Geo.Reserved, InUse;
    FilledInside(geo, c, v, h * geo.frag + p, n);
    var after := Fill(v.free, h * geo.frag + p, n, true);
    if WholeBlock(after, geo.frag, h) {
      WholeData(geo, c, after, h);
    }
  }

  /** And so does returning fragments that are in use. */
  lemma FfreeSound(geo: Geo, c: nat, v: Cg, h: nat, p: nat, n: nat)
    requires Sound(geo, c, v) && h * geo.frag + geo.frag <= 8 * geo.MapBytes() && 0 < n && p + n <= geo.frag
    requires InUse(geo, c, v, h * geo.frag + p, n)
    ensures Freeable(geo, v, h, p, n) && Sound(geo, c, Ffree(geo, c, v, h, p, n))
  {
    hide Fill, Block, Counted, Within, Clustered, Geo.NDblk, WholeBlock, AgreeOutside, Acct, Geo.Reserved, RunCount,
      InUse, FrsumMoved, Moved, Returnable, Freeable;
    InUseReturnable(geo, c, v, h, p, n);
    ReturnFits(geo, c, v, h, p, n);
    var after := Fill(v.free, h * geo.frag + p, n, true);
    FilledInside(geo, c, v, h * geo.frag + p, n);
    InUseTaken(geo, c, v, h * geo.frag + p, n);
    var fr := Moved(v.frsum, geo.frag, Block(v.free, geo.frag, h), Block(after, geo.frag, h));
    CountedShape(v.free, geo.frag, v.nbfree, v.nffree, v.frsum);
    MovedIs(v.frsum, geo.frag, Block(v.free, geo.frag, h), Block(after, geo.frag, h));
    FragsReturned(v.free, geo.frag, h, p, n, v.nbfree, v.nffree, v.frsum, fr);
    BlockFilled(v.free, geo.frag, h, p, n);
    if WholeBlock(after, geo.frag, h) {
      WholeData(geo, c, after, h);
      AcctSound(geo, c, v, after, h, 1);
      AcctFields(geo, c, v, v.(free := after, frsum := fr, nffree := v.nffree + n - geo.frag, nbfree := v.nbfree + 1), h, 1);
      AcctClear(geo, c, v, h, 1);
    } else {
      ClusteredKept(geo, c, v, after, h);
    }
  }

  lemma MovedIs(frsum: seq<int>, frag: nat, x: seq<bool>, y: seq<bool>)
    requires |frsum| == MAXFRAG
    ensures FrsumMoved(frsum, Moved(frsum, frag, x, y), frag, x, y)
  {}

  lemma ClusteredKept(geo: Geo, c: nat, v: Cg, after: seq<bool>, h: nat)
    requires Sound(geo, c, v) && AgreeOutside(v.free, after, h * geo.frag, geo.frag)
    requires !WholeBlock(v.free, geo.frag, h) && !WholeBlock(after, geo.frag, h)
    ensures Clustered(geo, c, after, v.cl, v.sums)
  {
    hide Counted, Within, WholeBlock, ClusterCounted, AgreeOutside, Geo.NDblk, ClusterMap;
    if geo.cap > 0 {
      ClusterMapKept(v.free, after, v.cl, geo.frag, geo.NCluster(c), h);
    }
  }

  // ----- allocate, then free -----

  /** The two updates of the cluster half undo one another. */
  lemma AcctUndone(geo: Geo, c: nat, v: Cg, h: nat, cnt: int)
    requires geo.cap > 0 ==> h < |v.cl| && |v.sums| == geo.cap + 1 && v.cl[h] == (cnt == -1)
    requires cnt == 1 || cnt == -1
    ensures var w := Acct(geo, c, v, h, cnt);
      Acct(geo, c, w, h, 0 - cnt) == v
  {
    hide RunLen, BackLen;
    if geo.cap > 0 {
      var w := Acct(geo, c, v, h, cnt);
      assert w.cl[h := false] == v.cl[h := false];
      var s := v.cl[h := false];
      SlotsUndone(v.sums, geo.cap, Cap(BackLen(s, h), geo.cap), Cap(RunLen(s, h + 1), geo.cap), cnt);
      assert w.cl[h := 0 - cnt > 0] == v.cl;
    }
  }

  lemma SlotsUndone(sums: seq<int>, cap: nat, back: nat, forw: nat, cnt: int)
    requires cap > 0 && |sums| == cap + 1 && back <= cap && forw <= cap
    ensures Slots(Slots(sums, cap, back, forw, cnt), cap, back, forw, 0 - cnt) == sums
  {
    var once := Slots(sums, cap, back, forw, cnt);
    var twice := Slots(once, cap, back, forw, 0 - cnt);
    hide Slots;
    forall k | 0 <= k <= cap
      ensures twice[k] == sums[k]
    {
      var d := One(Cap(back + forw + 1, cap) == k) - One(back > 0 && back == k) - One(forw > 0 && forw == k);
      assert k >= 1 ==> once[k] == sums[k] + cnt * d;
      assert k >= 1 ==> twice[k] == once[k] + (0 - cnt) * d;
      assert (0 - cnt) * d == 0 - cnt * d;
    }
  }

  /** A block that cgballoc took and cgbfree returns to that copy leaves the copy as it was, in every field. */
  lemma RoundTrip(geo: Geo, c: nat, v: Cg, h: nat)
    requires Sound(geo, c, v) && WholeBlock(v.free, geo.frag, h)
    ensures InGroup(geo, c, h) && Bfree(geo, c, Balloc(geo, c, v, h), h) == v
  {
    hide Fill, Counted, Within, Clustered, Geo.NDblk, Geo.Reserved, Acct, ClearFrom;
    WholeInside(geo, c, v, h);
    WholeMarked(geo, c, v, h);
    var lo, frag := h * geo.frag, geo.frag;
    var taken := v.(free := Fill(v.free, lo, frag, false), nbfree := v.nbfree - 1);
    assert Fill(taken.free, lo, frag, true) == v.free;
    AcctUndone(geo, c, v, h, -1);
    AcctFields(geo, c, v, taken, h, -1);
    var w := Acct(geo, c, v, h, -1);
    AcctFields(geo, c, w, w.(free := Fill(taken.free, lo, frag, true)), h, 1);
  }

  lemma WholeMarked(geo: Geo, c: nat, v: Cg, h: nat)
    requires Sound(geo, c, v) && InGroup(geo, c, h)
    ensures geo.cap > 0 ==> h < |v.cl| && |v.sums| == geo.cap + 1 && v.cl[h] == WholeBlock(v.free, geo.frag, h)
  {
    hide Counted, ClusterCounted, WholeBlock, Geo.NDblk;
  }

  /** The cluster half commutes with changes of the other fields. */
  lemma AcctFields(geo: Geo, c: nat, v: Cg, x: Cg, h: nat, cnt: int)
    requires v.cl == x.cl && v.sums == x.sums && (geo.cap > 0 ==> h < |v.cl| && |v.sums| == geo.cap + 1)
    ensures var w := Acct(geo, c, v, h, cnt); Acct(geo, c, x, h, cnt) == x.(cl := w.cl, sums := w.sums)
  {}

  /** The free fragments of a sound group, from its counts. */
  lemma SoundCount(geo: Geo, c: nat, v: Cg)
    requires Sound(geo, c, v)
    ensures v.nbfree * geo.frag + v.nffree == FreeCount(v.free)
  {
    hide Recounted, FreeCount, ClusterMap, ClusterCounted, Geo.NDblk;
    ProductMod(geo.MapBytes(), 8, geo.frag);
    RecountedSplit(v.free, geo.frag);
  }

  /** A map that has the block filled in equal to another, and frag fragments fewer, has none of the block. */
  lemma BlockAbsent(m: seq<bool>, free: seq<bool>, lo: nat, n: nat)
    requires lo + n <= |m| == |free| && Fill(m, lo, n, true) == free && FreeCount(m) == FreeCount(free) - n
    ensures m == Fill(free, lo, n, false)
  {
    hide FreeCount;
    FreeCountFill(free, lo, n);
    var none := Fill(free, lo, n, false);
    assert forall i :: 0 <= i < |m| ==> none[i] ==> m[i];
    FreeMore(none, m);
  }

  /** A map that contains another and has as many free fragments is the other. */
  lemma FreeMore(s: seq<bool>, t: seq<bool>)
    requires |s| == |t| && (forall i :: 0 <= i < |s| ==> s[i] ==> t[i]) && FreeCount(s) == FreeCount(t)
    ensures s == t
  {
    FreeMoreBefore(s, t, |s|);
  }

  lemma {:induction false} FreeMoreBefore(s: seq<bool>, t: seq<bool>, n: nat)
    requires |s| == |t| && n <= |s| && forall i :: 0 <= i < |s| ==> s[i] ==> t[i]
    ensures FreeBefore(s, n) <= FreeBefore(t, n)
    ensures FreeBefore(s, n) == FreeBefore(t, n) ==> forall i :: 0 <= i < n ==> s[i] == t[i]
  {
    if n > 0 {
      FreeMoreBefore(s, t, n - 1);
    }
  }

  lemma SoundSizes(geo: Geo, c: nat, v: Cg)
    requires Sound(geo, c, v)
    ensures Sized(geo, c, v) && |v.free| == 8 * geo.MapBytes() && geo.frag > 0
  {}

  lemma NotWhole(free: seq<bool>, frag: nat, h: nat)
    requires frag > 0 && h * frag + frag <= |free| && !free[h * frag]
    ensures !WholeBlock(free, frag, h)
  {}

  /** The other way round: if freeing the block in some sound copy gives the group back, that copy was the loaded one. */
  lemma OnlyFromLoaded(geo: Geo, c: nat, v: Cg, d: Cg, h: nat)
    requires Sound(geo, c, v) && Sound(geo, c, d) && WholeBlock(v.free, geo.frag, h) && InGroup(geo, c, h)
    requires Bfree(geo, c, d, h) == v
    ensures d == Balloc(geo, c, v, h)
  {
    hide Fill, Geo.NDblk, Geo.Reserved, Acct, FreeCount, Sound, WholeBlock;
    var lo, frag := h * geo.frag, geo.frag;
    SoundCount(geo, c, v);
    SoundCount(geo, c, d);
    SoundSizes(geo, c, v);
    SoundSizes(geo, c, d);
    WholeMarked(geo, c, v, h);
    WholeMarked(geo, c, d, h);
    var filled := d.(free := Fill(d.free, lo, frag, true), nbfree := d.nbfree + 1);
    AcctFields(geo, c, d, filled, h, 1);
    assert v.free == filled.free && v.nbfree == d.nbfree + 1 && v.nffree == d.nffree;
    Distribute(d.nbfree, 1, frag);
    BlockAbsent(d.free, v.free, lo, frag);
    NotWhole(d.free, frag, h);
    AcctUndone(geo, c, d, h, 1);
    var w := Acct(geo, c, d, h, 1);
    AcctFields(geo, c, w, v.(free := d.free, nbfree := d.nbfree), h, -1);
  }

  /** Allocating from the loaded copy and freeing through the disk copy d restores the group exactly when d is the
      loaded copy after the allocation. */
  lemma RestoredIff(geo: Geo, c: nat, v: Cg, d: Cg, h: nat)
    requires Sound(geo, c, v) && Sound(geo, c, d) && WholeBlock(v.free, geo.frag, h)
    ensures InGroup(geo, c, h) && (Bfree(geo, c, d, h) == v <==> d == Balloc(geo, c, v, h))
  {
    RoundTrip(geo, c, v, h);
    if Bfree(geo, c, d, h) == v {
      OnlyFromLoaded(geo, c, v, d, h);
    }
  }

  /** So without a write in between, on a disk that was up to date, it never is: the count of free blocks ends one too
      high. */
  lemma StaleNeverRestores(geo: Geo, c: nat, v: Cg, h: nat)
    requires Sound(geo, c, v) && WholeBlock(v.free, geo.frag, h)
    ensures InGroup(geo, c, h) && Bfree(geo, c, v, h).free == v.free && Bfree(geo, c, v, h).nbfree == v.nbfree + 1
    ensures Bfree(geo, c, v, h) != v && !Sound(geo, c, Bfree(geo, c, v, h))
  {
    WholeInside(geo, c, v, h);
    hide Counted, ClusterMap, ClusterCounted, Geo.NDblk, Geo.Reserved, Acct, Recounted;
    assert Fill(v.free, h * geo.frag, geo.frag, true) == v.free;
    var w := Bfree(geo, c, v, h);
    if Sound(geo, c, w) {
      SoundCount(geo, c, v);
      SoundCount(geo, c, w);
      Distribute(v.nbfree, 1, geo.frag);
      assert false;
    }
  }

  /** The smallest case spelled out: one group of two blocks of eight fragments, the first of them metadata and the second
      free. The code takes the second block and, with no write in between, frees it again: the map is right, the count
      of free blocks says two. */
  lemma StaleExample()
    ensures var geo := Geo(8, 16, 1, 16, 0, 0, 8, 0, 0);
      var v := Cg(seq(16, i => i >= 8), seq(8, i => false), seq(MAXFRAG, i => 0), [0], 1, 0, 0, 0);
      && Sound(geo, 0, v) && WholeBlock(v.free, geo.frag, 1) && Bfree(geo, 0, v, 1).free == v.free
      && v.nbfree == 1 && Bfree(geo, 0, v, 1).nbfree == 2
  {
    var geo := Geo(8, 16, 1, 16, 0, 0, 8, 0, 0);
    var free := seq(16, i => i >= 8);
    var v := Cg(free, seq(8, i => false), seq(MAXFRAG, i => 0), [0], 1, 0, 0, 0);
    var x, y := Block(free, 8, 0), Block(free, 8, 1);
    assert !x[0] && AllFree(y);
    NoRunsInNone(x);
    WholeRunOnly(y);
    assert Total(Whole, free, 8, 0) == 0 && Total(Loose, free, 8, 0) == 0;
    assert Total(Whole, free, 8, 1) == 0 && Total(Loose, free, 8, 1) == 0;
    assert Total(Whole, free, 8, 2) == 1 && Total(Loose, free, 8, 2) == 0;
    forall k | 1 <= k < 8
      ensures Recounted(RunsOf(k), free, 8) == 0
    {
      assert Total(RunsOf(k), free, 8, 0) == 0;
      assert Total(RunsOf(k), free, 8, 1) == 0;
      assert Total(RunsOf(k), free, 8, 2) == 0;
    }
    assert Counted(free, 8, 1, 0, v.frsum);
    assert Sound(geo, 0, v);
    StaleNeverRestores(geo, 0, v, 1);
  }

  lemma NoRunsInNone(s: seq<bool>)
    requires NoneFree(s)
    ensures FreeCount(s) == 0 && forall k: nat :: RunCount(s, k) == 0
  {
    FreeCountFull(s);
    forall k: nat
      ensures RunCount(s, k) == 0
    {
      forall p: nat | p < |s|
        ensures !IsRun(s, p, k)
      {
        assert !s[p];
      }
      RunCountPositive(s, k);
    }
  }

  lemma WholeRunOnly(s: seq<bool>)
    requires AllFree(s)
    ensures forall k: nat :: k < |s| ==> RunCount(s, k) == 0
  {
    forall k: nat | k < |s|
      ensures RunCount(s, k) == 0
    {
      forall p: nat | p < |s|
        ensures !IsRun(s, p, k)
      {
        assert p > 0 ==> s[p - 1];
        assert p + k < |s| ==> s[p + k];
      }
      RunCountPositive(s, k);
    }
  }

  // ----- the code -----

  /** A cylinder group as the bytes on the disk. */
  datatype Image = Image(
    free: seq<bv8>, cl: seq<bv8>, frsum: seq<int>, sums: seq<int>,
    nbfree: int, nffree: int, rotor: nat, frotor: nat)

  /** What is written for a group of the kernel's. */
  function ImageOf(g: CylGroup): Image
    reads g, g.blksfree, g.clustersfree, g.frsum, g.clustersum
  {
    Image(g.blksfree[..], g.clustersfree[..], g.frsum[..], g.clustersum[..], g.nbfree, g.nffree, g.rotor, g.frotor)
  }

  /** A group that meets the kernel's invariant is a sound copy. */
  lemma ValidSound(g: CylGroup)
    requires g.Valid()
    ensures Sound(g.geo, g.cgx, Of(ImageOf(g)))
  {
    hide Bits, Counted, WholeBlock, ClusterCounted, MaxKnown, Geo.NDblk, Geo.Reserved;
  }

  ghost function Of(m: Image): Cg {
    Cg(Bits(m.free), Bits(m.cl), m.frsum, m.sums, m.nbfree, m.nffree, m.rotor, m.frotor)
  }

  /** What cgbfree does to the group it read: a whole block, or n fragments at offset p. */
  function Freed(geo: Geo, c: nat, v: Cg, h: nat, p: nat, n: nat): Cg
    requires Freeable(geo, v, h, p, n)
  {
    if n == geo.frag then Bfree(geo, c, v, h) else Ffree(geo, c, v, h, p, n)
  }

  /** cgbfree of data fragments in use keeps the copy it works on sound, whichever branch it takes. */
  lemma FreedSound(geo: Geo, c: nat, v: Cg, h: nat, p: nat, n: nat)
    requires Sound(geo, c, v) && h * geo.frag + geo.frag <= 8 * geo.MapBytes() && 0 < n && p + n <= geo.frag
    requires InUse(geo, c, v, h * geo.frag + p, n)
    ensures Returnable(geo, c, v, h, p, n) && Freeable(geo, v, h, p, n) && Sound(geo, c, Freed(geo, c, v, h, p, n))
  {
    hide Sound, Sized, Returnable, Freeable, InUse, Bfree, Ffree;
    InUseReturnable(geo, c, v, h, p, n);
    FfreeSound(geo, c, v, h, p, n);
    if n == geo.frag {
      SoundSizes(geo, c, v);
      ReturnFits(geo, c, v, h, p, n);
      BfreeSound(geo, c, v, h);
    }
  }

  /** struct uufsd: the loaded group, the disk, and the superblock's summaries. */
  class Uufsd {
    const geo: Geo
    const blksfree: array<bv8>      // d_cg
    const clustersfree: array<bv8>
    const frsum: array<int>
    const clustersum: array<int>
    var cgx: nat
    var nbfree: int
    var nffree: int
    var rotor: nat
    var frotor: nat
    var disk: seq<Image>            // what the device holds, by group
    const csNbfree: array<int>      // fs_cs
    const csNffree: array<int>
    var totNbfree: int              // fs_cstotal
    var totNffree: int
    var maxcluster: seq<nat>        // fs_maxcluster

    ghost function Loaded(): Cg
      reads this`nbfree, this`nffree, this`rotor, this`frotor, blksfree, clustersfree, frsum, clustersum
    {
      Cg(Bits(blksfree[..]), Bits(clustersfree[..]), frsum[..], clustersum[..], nbfree, nffree, rotor, frotor)
    }

    ghost predicate Arrays()
    {
      && geo.Wf() && blksfree.Length == geo.MapBytes() && clustersfree.Length == geo.ClusterBytes()
      && frsum.Length == MAXFRAG && clustersum.Length == geo.cap + 1
      && csNbfree.Length == geo.ncg && csNffree.Length == geo.ncg
      && blksfree != clustersfree && frsum != clustersum && csNbfree != csNffree
      && frsum != csNbfree && frsum != csNffree && clustersum != csNbfree && clustersum != csNffree
      && var maps: set<object> := {blksfree, clustersfree};
         var counts: set<object> := {frsum, clustersum, csNbfree, csNffree};
         maps !! counts
    }

    ghost predicate Shape()
      reads this, blksfree, clustersfree, frsum, clustersum
    {
      && Arrays() && Sized(geo, cgx, Loaded()) && |disk| == geo.ncg && |maxcluster| == geo.ncg
      && forall c :: 0 <= c < geo.ncg ==> Sized(geo, c, Of(disk[c]))
    }

    /** The disk as it is found, with its first group loaded, and the superblock's summaries. */
    constructor (geo: Geo, disk: seq<Image>, nbs: seq<int>, nfs: seq<int>, maxcluster: seq<nat>, nbfree: int, nffree: int)
      requires geo.Wf() && |disk| == |nbs| == |nfs| == |maxcluster| == geo.ncg
      requires forall c :: 0 <= c < geo.ncg ==> Sized(geo, c, Of(disk[c]))
      ensures Shape() && this.geo == geo && this.disk == disk && cgx == 0 && Loaded() == Of(disk[0])
      ensures csNbfree[..] == nbs && csNffree[..] == nfs && this.maxcluster == maxcluster
      ensures totNbfree == nbfree && totNffree == nffree
      ensures fresh(blksfree) && fresh(clustersfree) && fresh(frsum) && fresh(clustersum) && fresh(csNbfree) && fresh(csNffree)
    {
      hide Bits, ClearFrom, Geo.NDblk;
      var m := disk[0];
      this.geo, this.disk, this.maxcluster := geo, disk, maxcluster;
      blksfree := new bv8[|m.free|](i requires 0 <= i < |m.free| => m.free[i]);
      clustersfree := new bv8[|m.cl|](i requires 0 <= i < |m.cl| => m.cl[i]);
      frsum := new int[|m.frsum|](i requires 0 <= i < |m.frsum| => m.frsum[i]);
      clustersum := new int[|m.sums|](i requires 0 <= i < |m.sums| => m.sums[i]);
      csNbfree := new int[|nbs|](i requires 0 <= i < |nbs| => nbs[i]);
      csNffree := new int[|nfs|](i requires 0 <= i < |nfs| => nfs[i]);
      cgx, this.nbfree, this.nffree, rotor, frotor := 0, m.nbfree, m.nffree, m.rotor, m.frotor;
      totNbfree, totNffree := nbfree, nffree;
      new;
      assert Sized(geo, 0, Of(m));
      assert blksfree[..] == m.free && clustersfree[..] == m.cl && frsum[..] == m.frsum && clustersum[..] == m.sums;
      assert csNbfree[..] == nbs && csNffree[..] == nfs;
    }

    /** fs_maxcluster of the loaded group, and of no other, is now the largest slot of its histogram in use. */
    ghost predicate MaxSet(before: seq<nat>)
      reads this`cgx, this`maxcluster, clustersum
    {
      && |maxcluster| == |before| && (geo.cap == 0 ==> maxcluster == before)
      && (forall c :: 0 <= c < |before| && c != cgx ==> maxcluster[c] == before[c])
      && (geo.cap > 0 ==> cgx < |maxcluster| && TopSlot(clustersum[..], geo.cap, maxcluster[cgx]))
    }

    /** cgread1: the group comes from the disk. */
    method CgRead1(c: nat)
      requires Shape() && c < geo.ncg
      modifies this`cgx, this`nbfree, this`nffree, this`rotor, this`frotor, blksfree, clustersfree, frsum, clustersum
      ensures Shape() && cgx == c && Loaded() == Of(disk[c])
    {
      hide Bits, ClearFrom, Geo.NDblk, Geo.Wf;
      var m := disk[c];
      assert Sized(geo, c, Of(m));
      Fetch(blksfree, m.free);
      Fetch(clustersfree, m.cl);
      Fetch(frsum, m.frsum);
      Fetch(clustersum, m.sums);
      cgx, nbfree, nffree, rotor, frotor := c, m.nbfree, m.nffree, m.rotor, m.frotor;
    }

    /** cgwrite: the disk gets the loaded copy, if the device takes it. */
    method CgWrite(accepted: bool) returns (r: int)
      requires Shape()
      modifies this`disk
      ensures Shape() && r == if accepted then 0 else -1
      ensures |disk| == |old(disk)| && forall c :: 0 <= c < |disk| && (c != cgx || !accepted) ==> disk[c] == old(disk)[c]
      ensures accepted ==> Of(disk[cgx]) == Loaded()
    {
      hide Bits, ClearFrom, Geo.NDblk, Geo.Wf;
      if !accepted {
        return -1;
      }
      disk := disk[cgx := Image(blksfree[..], clustersfree[..], frsum[..], clustersum[..], nbfree, nffree, rotor, frotor)];
      return 0;
    }

    /** ffs_clusteracct on the loaded group. */
    method AcctLoaded(h: nat, cnt: int)
      requires Shape() && h < geo.NCluster(cgx)
      modifies this`maxcluster, clustersfree, clustersum
      ensures Shape() && Loaded() == Acct(geo, cgx, old(Loaded()), h, cnt)
      ensures MaxSet(old(maxcluster))
    {
      hide Bits, ClearFrom, Geo.NDblk, Geo.Wf, Slots, RunLen, BackLen;
      if geo.cap > 0 {
        var m := AcctSlots(clustersfree, clustersum, geo.cap, geo.NCluster(cgx), h, cnt);
        maxcluster := maxcluster[cgx := m];
      }
    }

    /** The search loop of cgballoc. */
    method FirstWhole() returns (found: bool, h: nat)
      requires Shape()
      ensures found ==> h < geo.fpg / geo.frag && WholeBlock(Loaded().free, geo.frag, h)
      ensures forall b: nat :: b < (if found then h else geo.fpg / geo.frag) ==> !WholeBlock(Loaded().free, geo.frag, b)
    {
      hide Bits, IsBlock, WholeBlock, ClearFrom, Geo.NDblk, HasBlock;
      h := 0;
      while h < geo.fpg / geo.frag
        invariant 0 <= h <= geo.fpg / geo.frag
        invariant forall b: nat :: b < h ==> !WholeBlock(Loaded().free, geo.frag, b)
      {
        MapHasBlock(geo, blksfree[..], h);
        IsBlockWhole(geo.frag, blksfree[..], h);
        if IsBlock(geo.frag, blksfree[..], h) {
          return true, h;
        }
        h := h + 1;
      }
      found := false;
    }

    /** The block leaves the loaded map, count and clusters. */
    method TakeBlock(h: nat)
      requires Shape() && InGroup(geo, cgx, h)
      modifies this`maxcluster, this`nbfree, blksfree, clustersfree, clustersum
      ensures Shape() && Loaded() == Balloc(geo, cgx, old(Loaded()), h) && MaxSet(old(maxcluster))
    {
      hide MaxSet, Bits, Balloc, Acct, ClearFrom, Geo.NDblk, Fill;
      ghost var v := Loaded();
      PutBlock(blksfree, geo.frag, h, false);
      nbfree := nbfree - 1;
      AcctLoaded(h, -1);
      BallocIs(geo, cgx, v, h);
    }

    /** cgballoc: the first wholly free block of the loaded group, taken out of the loaded copy and of the superblock's
        two summaries; the disk is not touched. */
    method CgBalloc() returns (addr: nat, ghost h: nat)
      requires Shape() && Sound(geo, cgx, Loaded())
      modifies this, blksfree, clustersfree, clustersum, csNbfree
      ensures Shape() && Sound(geo, cgx, Loaded()) && cgx == old(cgx) && disk == old(disk)
      ensures addr == 0 <==> old(nbfree) == 0
      ensures addr == 0 ==> Loaded() == old(Loaded()) && csNbfree[..] == old(csNbfree[..]) && totNbfree == old(totNbfree)
      ensures addr != 0 ==> InGroup(geo, cgx, h) && WholeBlock(old(Loaded()).free, geo.frag, h)
      ensures addr != 0 ==> forall b: nat :: b < h ==> !WholeBlock(old(Loaded()).free, geo.frag, b)
      ensures addr != 0 ==> addr == geo.Base(cgx) + h * geo.frag && Loaded() == Balloc(geo, cgx, old(Loaded()), h)
      ensures addr != 0 ==> csNbfree[..] == old(csNbfree[..])[cgx := old(csNbfree[cgx]) - 1] && totNbfree == old(totNbfree) - 1
      ensures totNffree == old(totNffree) && csNffree[..] == old(csNffree[..])
      ensures if addr == 0 then maxcluster == old(maxcluster) else MaxSet(old(maxcluster))
    {
      hide MaxSet, Bits, Sound, Balloc, Acct, WholeBlock, ClearFrom, Geo.NDblk, HasBlock, Fill;
      ghost var v := Loaded();
      addr := 0;
      var found, b := FirstWhole();
      assert Loaded() == v;
      NoneLeft(geo, cgx, v);
      h := b;
      if !found {
        return;
      }
      SomeLeft(geo, cgx, v, h);
      WholeInside(geo, cgx, v, h);
      BallocSound(geo, cgx, v, h);
      MapHasBlock(geo, blksfree[..], h);
      csNbfree[cgx] := csNbfree[cgx] - 1;
      TakeBlock(b);
      totNbfree := totNbfree - 1;
      addr := geo.Base(cgx) + b * geo.frag;
    }

    /** The whole-block branch of cgbfree, on the group just read. */
    method FreeBlock(h: nat)
      requires Shape() && InGroup(geo, cgx, h)
      modifies this`maxcluster, this`nbfree, blksfree, clustersfree, clustersum
      ensures Shape() && Loaded() == Bfree(geo, cgx, old(Loaded()), h) && MaxSet(old(maxcluster))
    {
      hide MaxSet, Bits, Bfree, Acct, ClearFrom, Geo.NDblk, Fill;
      ghost var v := Loaded();
      PutBlock(blksfree, geo.frag, h, true);
      AcctLoaded(h, 1);
      nbfree := nbfree + 1;
      BfreeIs(geo, cgx, v, h);
    }

    /** The fragment branch: the histogram, the bits, the counts, and the block if it is whole again. */
    method FreeFrags(h: nat, p: nat, n: nat)
      requires Shape() && Returnable(geo, cgx, Loaded(), h, p, n)
      modifies this`maxcluster, this`nbfree, this`nffree, blksfree, clustersfree, clustersum, frsum
      ensures Shape() && Loaded() == Ffree(geo, cgx, old(Loaded()), h, p, n)
      ensures if nbfree == old(nbfree) then maxcluster == old(maxcluster) else MaxSet(old(maxcluster))
    {
      hide MaxSet, Bits, Ffree, Acct, ClearFrom, Geo.NDblk, Fill, Block, IsBlock, WholeBlock, Moved;
      ghost var v := Loaded();
      MoveFrags(h, p, n);
      nffree := nffree + n;
      ghost var w := Loaded();
      IsBlockWhole(geo.frag, blksfree[..], h);
      FfreeIs(geo, cgx, v, h, p, n);
      if IsBlock(geo.frag, blksfree[..], h) {
        nffree := nffree - geo.frag;
        nbfree := nbfree + 1;
        AcctLoaded(h, 1);
      }
    }

    method MoveFrags(h: nat, p: nat, n: nat)
      requires Shape() && h * geo.frag + geo.frag <= |Loaded().free| && p + n <= geo.frag
      modifies blksfree, frsum
      ensures Shape()
      ensures var v := old(Loaded()); var after := Fill(v.free, h * geo.frag + p, n, true);
        Loaded() == v.(free := after, frsum := Moved(v.frsum, geo.frag, Block(v.free, geo.frag, h), Block(after, geo.frag, h)))
    {
      hide Bits, ClearFrom, Geo.NDblk, Fill, Block, RunCount;
      ghost var v := Loaded();
      AcctBlock(h, -1);
      FillBits(blksfree, h * geo.frag + p, n, true);
      AcctBlock(h, 1);
      ghost var after := Loaded().free;
      assert frsum[..] == Moved(v.frsum, geo.frag, Block(v.free, geo.frag, h), Block(after, geo.frag, h));
    }

    /** blkmap followed by ffs_fragacct. */
    method AcctBlock(h: nat, cnt: int)
      requires Shape() && h * geo.frag + geo.frag <= |Loaded().free|
      modifies frsum
      ensures Shape() && forall k :: 0 <= k < MAXFRAG ==>
        frsum[k] == old(frsum[k]) + if 1 <= k < geo.frag then cnt * RunCount(Block(Loaded().free, geo.frag, h), k) else 0
    {
      hide Bits, BlkMap, BlkBits, InBlock, RunCount, Block, ClearFrom, Geo.NDblk;
      var blk := BlkMap(geo.frag, blksfree[..], h * geo.frag);
      BlkMapInBlock(geo.frag, blksfree[..], h * geo.frag);
      BlkMapBlock(geo.frag, blksfree[..], h);
      FragAcct(geo.frag, blk, frsum, cnt);
    }

    /** The two branches of cgbfree. */
    method ReturnLoaded(h: nat, p: nat, n: nat)
      requires Shape() && Returnable(geo, cgx, Loaded(), h, p, n) && 1 <= n
      modifies this`maxcluster, this`nbfree, this`nffree, blksfree, clustersfree, clustersum, frsum
      ensures Shape() && Freeable(geo, old(Loaded()), h, p, n) && Loaded() == Freed(geo, cgx, old(Loaded()), h, p, n)
      ensures if nbfree == old(nbfree) then maxcluster == old(maxcluster) else MaxSet(old(maxcluster))
    {
      hide MaxSet, Bits, Bfree, Ffree, ClearFrom, Geo.NDblk, WholeBlock, Fill, Freeable, Sized;
      ReturnFits(geo, cgx, Loaded(), h, p, n);
      if n == geo.frag {
        BfreeCounts(geo, cgx, Loaded(), h);
        FreeBlock(h);
      } else {
        FreeFrags(h, p, n);
      }
    }

    /** The updates of fs_cs(cg) and fs_cstotal that go with the group's own counts. */
    method Charge(cg: nat, dnb: int, dnf: int)
      requires Arrays() && cg < geo.ncg
      modifies this`totNbfree, this`totNffree, csNbfree, csNffree
      ensures csNbfree[..] == old(csNbfree[..])[cg := old(csNbfree[..])[cg] + dnb] && totNbfree == old(totNbfree) + dnb
      ensures csNffree[..] == old(csNffree[..])[cg := old(csNffree[..])[cg] + dnf] && totNffree == old(totNffree) + dnf
    {
      csNbfree[cg] := csNbfree[cg] + dnb;
      csNffree[cg] := csNffree[cg] + dnf;
      totNbfree := totNbfree + dnb;
      totNffree := totNffree + dnf;
    }

    /** cgbfree: reads the group of the address from the disk, whatever was loaded, returns the fragments to it
        without looking at what it says of them, adds to the superblock's two summaries what the group's counts
        gained, and writes the group back. If the group cannot be read, the disk and the superblock stay as they are. */
    method CgBFree(bno: nat, n: nat, readable: bool, accepted: bool) returns (r: int)
      requires Shape() && geo.Dtog(bno) < geo.ncg && 1 <= n <= geo.frag
      requires readable ==> Returnable(geo, geo.Dtog(bno), Of(disk[geo.Dtog(bno)]), BlockNo(geo, bno), Offset(geo, bno), n)
      modifies this, blksfree, clustersfree, frsum, clustersum, csNbfree, csNffree
      ensures r == if readable && accepted then 0 else -1
      ensures !readable ==> disk == old(disk) && maxcluster == old(maxcluster)
      ensures !readable ==> csNbfree[..] == old(csNbfree[..]) && csNffree[..] == old(csNffree[..])
      ensures !readable ==> totNbfree == old(totNbfree) && totNffree == old(totNffree)
      ensures readable ==> Shape() && cgx == geo.Dtog(bno)
      ensures readable ==> Freeable(geo, Of(old(disk)[cgx]), BlockNo(geo, bno), Offset(geo, bno), n)
      ensures readable ==> Loaded() == Freed(geo, cgx, Of(old(disk)[cgx]), BlockNo(geo, bno), Offset(geo, bno), n)
      ensures readable && accepted ==> Of(disk[cgx]) == Loaded()
      ensures |disk| == |old(disk)| && forall c :: 0 <= c < |disk| && (c != cgx || !accepted) ==> disk[c] == old(disk)[c]
      ensures readable ==> var d := Of(old(disk)[cgx]); var dnb, dnf := Loaded().nbfree - d.nbfree, Loaded().nffree - d.nffree;
        && csNbfree[..] == old(csNbfree[..])[cgx := old(csNbfree[..])[cgx] + dnb] && totNbfree == old(totNbfree) + dnb
        && csNffree[..] == old(csNffree[..])[cgx := old(csNffree[..])[cgx] + dnf] && totNffree == old(totNffree) + dnf
        && if dnb == 0 then maxcluster == old(maxcluster) else MaxSet(old(maxcluster))
    {
      hide MaxSet, Bits, Freed, Freeable, Returnable, ClearFrom, Geo.NDblk, Sized, BlockNo, Offset;
      if !readable {
        return -1;
      }
      var cg := geo.Dtog(bno);
      ghost var nbs, nfs := csNbfree[..], csNffree[..];
      CgRead1(cg);
      var h, p := BlockNo(geo, bno), Offset(geo, bno);
      var nb0, nf0 := nbfree, nffree;
      ReturnLoaded(h, p, n);
      assert csNbfree[..] == nbs && csNffree[..] == nfs;
      Charge(cg, nbfree - nb0, nffree - nf0);
      r := CgWrite(accepted);
    }
  }

  /** fragstoblks and fragnum of an address inside its group. */
  function BlockNo(geo: Geo, bno: nat): nat
    requires geo.fpg > 0 && geo.frag > 0
  {
    geo.Dtogd(bno) / geo.frag
  }

  function Offset(geo: Geo, bno: nat): nat
    requires geo.fpg > 0 && geo.frag > 0
  {
    geo.Dtogd(bno) % geo.frag
  }

  lemma ReturnFits(geo: Geo, c: nat, v: Cg, h: nat, p: nat, n: nat)
    requires Sized(geo, c, v) && Returnable(geo, c, v, h, p, n)
    ensures Freeable(geo, v, h, p, n) && (n == geo.frag ==> InGroup(geo, c, h))
  {
    hide Geo.NDblk;
  }

  lemma BfreeIs(geo: Geo, c: nat, v: Cg, h: nat)
    requires h * geo.frag + geo.frag <= |v.free| && (geo.cap > 0 ==> h < |v.cl| && |v.sums| == geo.cap + 1)
    ensures Bfree(geo, c, v, h) ==
      var w := v.(free := Fill(v.free, h * geo.frag, geo.frag, true));
      Acct(geo, c, w, h, 1).(nbfree := v.nbfree + 1)
  {
    AcctFields(geo, c, v, v.(free := Fill(v.free, h * geo.frag, geo.frag, true)), h, 1);
  }

  lemma FfreeIs(geo: Geo, c: nat, v: Cg, h: nat, p: nat, n: nat)
    requires Freeable(geo, v, h, p, n)
    ensures var after := Fill(v.free, h * geo.frag + p, n, true);
      var w := v.(free := after, nffree := v.nffree + n,
                  frsum := Moved(v.frsum, geo.frag, Block(v.free, geo.frag, h), Block(after, geo.frag, h)));
      Ffree(geo, c, v, h, p, n) ==
        if WholeBlock(after, geo.frag, h) then Acct(geo, c, w.(nffree := w.nffree - geo.frag, nbfree := w.nbfree + 1), h, 1)
        else w
  {}

  /**
    * cgballoc, a cgwrite or none, and cgbfree of the block. The superblock's summaries come back to what they were in
    * any case. The group does exactly when the disk copy is the loaded copy at the time of the free: always after
    * a write, and never without one on a disk that was up to date.
    */
  method AllocFree(d: Uufsd, write: bool) returns (addr: nat, ghost h: nat, ghost asked: Cg, ghost found: Cg)
    requires d.Shape() && Sound(d.geo, d.cgx, d.Loaded()) && Sound(d.geo, d.cgx, Of(d.disk[d.cgx]))
    modifies d, d.blksfree, d.clustersfree, d.frsum, d.clustersum, d.csNbfree, d.csNffree
    ensures d.Shape() && d.cgx == old(d.cgx) && (addr == 0 <==> old(d.nbfree) == 0)
    ensures d.csNbfree[..] == old(d.csNbfree[..]) && d.csNffree[..] == old(d.csNffree[..])
    ensures d.totNbfree == old(d.totNbfree) && d.totNffree == old(d.totNffree)
    ensures addr == 0 ==> d.Loaded() == old(d.Loaded())
    ensures addr != 0 ==> InGroup(d.geo, d.cgx, h) && WholeBlock(old(d.Loaded()).free, d.geo.frag, h)
    ensures addr != 0 ==> addr == d.geo.Base(d.cgx) + h * d.geo.frag && asked == Balloc(d.geo, d.cgx, old(d.Loaded()), h)
    ensures addr != 0 ==> (d.Loaded() == old(d.Loaded()) <==> found == asked)
    ensures addr != 0 ==> found == if write then asked else Of(old(d.disk)[d.cgx])
    ensures addr != 0 ==> Of(d.disk[d.cgx]) == d.Loaded()
    ensures addr == 0 || (d.Loaded() == old(d.Loaded()) && old(d.MaxSet(d.maxcluster))) ==> d.maxcluster == old(d.maxcluster)
    ensures addr != 0 && !write && Of(old(d.disk)[d.cgx]) == old(d.Loaded()) ==>
      d.nbfree == old(d.nbfree) + 1 && !Sound(d.geo, d.cgx, d.Loaded())
  {
    hide Bits, Sound, Bfree, Balloc, Uufsd.Shape, WholeBlock, InGroup, Geo.Dtog, Geo.Base, Geo.NDblk, Geo.Wf, Of,
      Uufsd.Loaded, Uufsd.MaxSet;
    ShapeFacts(d);
    ghost var v, nbs, nfs, c := d.Loaded(), d.csNbfree[..], d.csNffree[..], d.cgx;
    ghost var before := Of(d.disk[c]);
    ghost var max0, top := d.maxcluster, d.MaxSet(d.maxcluster);
    MaxFacts(d, max0);
    addr, h := d.CgBalloc();
    ghost var max1 := d.maxcluster;
    MaxFacts(d, max0);
    ShapeFacts(d);
    asked := d.Loaded();
    if addr == 0 {
      found := before;
      return;
    }
    WholeInside(d.geo, c, v, h);
    if write {
      var _ := d.CgWrite(true);
      ShapeFacts(d);
    }
    found := Of(d.disk[c]);
    SoundFits(d.geo, c, found, h);
    FreeWhole(d, addr, c, h);
    ShapeFacts(d);
    RestoredIff(d.geo, c, v, found, h);
    StaleNeverRestores(d.geo, c, v, h);
    assert d.csNbfree[..] == nbs && d.csNffree[..] == nfs;
    MaxFacts(d, max1);
    if d.Loaded() == v && top && d.geo.cap > 0 {
      SameMax(v.sums, d.geo.cap, c, max0, max1, d.maxcluster);
    }
  }

  /** The other groups' fs_maxcluster, and what MaxSet says of this one. */
  lemma MaxFacts(d: Uufsd, before: seq<nat>)
    ensures d.MaxSet(before) ==> SameBut(d.maxcluster, before, d.cgx) && (d.geo.cap == 0 ==> d.maxcluster == before)
    ensures d.MaxSet(before) && d.geo.cap > 0 ==>
      d.cgx < |before| && TopSlot(d.Loaded().sums, d.geo.cap, d.maxcluster[d.cgx])
  {}

  predicate SameBut(s: seq<nat>, t: seq<nat>, c: nat) {
    |s| == |t| && forall k :: 0 <= k < |s| && k != c ==> s[k] == t[k]
  }

  /** The histogram decides fs_maxcluster. */
  lemma SameMax(sums: seq<int>, cap: nat, c: nat, first: seq<nat>, second: seq<nat>, third: seq<nat>)
    requires SameBut(second, first, c) && SameBut(third, second, c) && c < |first|
    requires TopSlot(sums, cap, first[c]) && TopSlot(sums, cap, third[c])
    ensures third == first
  {}

  /** cgbfree of a whole block, by its address. */
  method FreeWhole(d: Uufsd, addr: nat, ghost c: nat, ghost h: nat)
    requires d.Shape() && c < d.geo.ncg == |d.disk| && InGroup(d.geo, c, h) && h * d.geo.frag + d.geo.frag <= d.geo.NDblk(c)
    requires addr == d.geo.Base(c) + h * d.geo.frag && Sound(d.geo, c, Of(d.disk[c]))
    requires h * d.geo.frag + d.geo.frag <= |Of(d.disk[c]).free| && h < |Of(d.disk[c]).cl| && |Of(d.disk[c]).sums| == d.geo.cap + 1
    modifies d, d.blksfree, d.clustersfree, d.frsum, d.clustersum, d.csNbfree, d.csNffree
    ensures d.Shape() && d.cgx == c && |d.disk| == d.geo.ncg && Of(d.disk[c]) == d.Loaded()
    ensures d.Loaded() == Bfree(d.geo, c, Of(old(d.disk)[c]), h)
    ensures d.csNbfree.Length > c && d.csNbfree[..] == old(d.csNbfree[..])[c := old(d.csNbfree[..])[c] + 1]
    ensures d.totNbfree == old(d.totNbfree) + 1
    ensures d.csNffree[..] == old(d.csNffree[..]) && d.totNffree == old(d.totNffree) && d.MaxSet(old(d.maxcluster))
  {
    hide Uufsd.MaxSet, Bits, Sound, Bfree, Uufsd.Shape, InGroup, BlockNo, Offset, Geo.Dtog, Geo.Base, Geo.NDblk;
    ShapeFacts(d);
    AddrParts(d.geo, c, h);
    BfreeCounts(d.geo, c, Of(d.disk[c]), h);
    var _ := d.CgBFree(addr, d.geo.frag, true, true);
    ShapeFacts(d);
  }

  lemma ShapeFacts(d: Uufsd)
    requires d.Shape()
    ensures d.geo.Wf() && d.cgx < d.geo.ncg == |d.disk| && d.csNbfree.Length == d.csNffree.Length == d.geo.ncg
    ensures d.Loaded().nbfree == d.nbfree
  {}

  lemma AddrParts(geo: Geo, c: nat, h: nat)
    requires geo.Wf() && c < geo.ncg && h * geo.frag + geo.frag <= geo.NDblk(c)
    ensures var addr := geo.Base(c) + h * geo.frag;
      geo.Dtog(addr) == c && BlockNo(geo, addr) == h && Offset(geo, addr) == 0
  {
    hide Geo.NDblk;
    AddressInGroup(geo, c, h * geo.frag);
    DivModBase(h, geo.frag, 0);
  }

  lemma SoundFits(geo: Geo, c: nat, v: Cg, h: nat)
    requires Sound(geo, c, v) && InGroup(geo, c, h)
    ensures h * geo.frag + geo.frag <= |v.free| && h < |v.cl| && |v.sums| == geo.cap + 1
  {}

  lemma BfreeCounts(geo: Geo, c: nat, v: Cg, h: nat)
    requires h * geo.frag + geo.frag <= |v.free| && (geo.cap > 0 ==> h < |v.cl| && |v.sums| == geo.cap + 1)
    ensures Bfree(geo, c, v, h).nbfree == v.nbfree + 1 && Bfree(geo, c, v, h).nffree == v.nffree
  {}

  method Fetch<T>(a: array<T>, s: seq<T>)
    requires |s| == a.Length
    modifies a
    ensures a[..] == s
  {
    forall i | 0 <= i < a.Length {
      a[i] := s[i];
    }
  }

  lemma MapHasBlock(geo: Geo, m: seq<bv8>, h: nat)
    requires geo.Wf() && |m| == geo.MapBytes() && h < geo.fpg / geo.frag
    ensures HasBlock(geo.frag, m, h)
  {
    BlockFits(geo.frag, geo.fpg, h);
    geo.MapCovers();
  }

  lemma BallocIs(geo: Geo, c: nat, v: Cg, h: nat)
    requires h * geo.frag + geo.frag <= |v.free| && (geo.cap > 0 ==> h < |v.cl| && |v.sums| == geo.cap + 1)
    ensures Balloc(geo, c, v, h) ==
      Acct(geo, c, v.(free := Fill(v.free, h * geo.frag, geo.frag, false), nbfree := v.nbfree - 1), h, -1)
  {}

  /** cs_nbfree is zero exactly when no block is whole. */
  lemma SomeLeft(geo: Geo, c: nat, v: Cg, h: nat)
    requires Sound(geo, c, v) && WholeBlock(v.free, geo.frag, h)
    ensures v.nbfree != 0
  {
    hide Within, Clustered, Block, Total;
    WholeIsAllFree(v.free, geo.frag, h);
    BlockBelow(geo.frag, |v.free|, h);
    TotalAtLeast(Whole, v.free, geo.frag, Blocks(v.free, geo.frag), h);
  }

  lemma NoneLeft(geo: Geo, c: nat, v: Cg)
    requires Sound(geo, c, v)
    ensures (forall h: nat :: h < geo.fpg / geo.frag ==> !WholeBlock(v.free, geo.frag, h)) ==> v.nbfree == 0
  {
    if v.nbfree != 0 {
      var h := SomeWholeBlock(v.free, geo.frag);
      WholeInside(geo, c, v, h);
      BlockBelow(geo.frag, geo.fpg, h);
    }
  }
}
