/** TRIM over the allocator: blocks passed to ffs_blkfree stay in use in their groups until their completion task runs, so
    the allocator cannot hand them out before the device was told to unmap them. */
module TrimRun {
  import opened Geometry
  import opened Bitmap
  import opened Allocator
  import opened Filesystem
  import opened Workload
  import Trim

  /** What callers and tasks do: a request to the allocator, the calls of the release interface, and a completion.
      Release passes the fragments of extent k after the first keep to ffs_blkfree. */
  datatype Act =
    | Ask(op: Op)
    | Begin(candelete: bool, dotrimcons: bool)
    | Release(k: nat, keep: nat, key: nat, candelete: bool)
    | End(key: nat, candelete: bool, dotrimcons: bool)
    | Task(i: nat)

  /** The filesystem and the queue. Extents passed to ffs_blkfree and still waiting are among those held. */
  datatype Both = Both(s: State, v: Trim.View)

  function BlkOf(e: Extent): Trim.Blk {
    Trim.Blk(e.addr, e.n)
  }

  function Blks(live: seq<Extent>): (bs: seq<Trim.Blk>)
    ensures |bs| == |live| && forall i :: 0 <= i < |live| ==> bs[i] == BlkOf(live[i])
  {
    seq(|live|, i requires 0 <= i < |live| => BlkOf(live[i]))
  }

  /** The blocks passed to ffs_blkfree and not yet free again. */
  function Waiting(v: Trim.View): multiset<Trim.Blk> {
    v.submitted - v.freed
  }

  ghost predicate Joint(geo: Geo, x: Both) {
    && Proper(geo, x.s) && Trim.Inv(x.v, multiset{})
    && Waiting(x.v) <= multiset(Blks(x.s.live))
  }

  /** Extent k is still its caller's. */
  predicate Mine(x: Both, k: nat) {
    k < |x.s.live| && BlkOf(x.s.live[k]) !in Waiting(x.v)
  }

  /** What a caller may do: leave alone what it has released, and use keys as the release interface wants. */
  predicate Permitted(x: Both, act: Act) {
    match act
    case Ask(op) => !op.Free? && (op.Extend? ==> Mine(x, op.k))
    case Begin(_, _) => true
    case Release(k, keep, key, candelete) =>
      Mine(x, k) && keep < x.s.live[k].n && Trim.Allowed(x.v, Trim.FreeCall(BlkOf(Tail(x.s.live[k], keep)), key, candelete))
    case End(key, candelete, dotrimcons) => Trim.Allowed(x.v, Trim.FinishCall(key, candelete, dotrimcons))
    case Task(i) => i < |x.v.tasks|
  }

  function Tail(e: Extent, keep: nat): Extent
    requires keep <= e.n
  {
    Extent(e.addr + keep, e.n - keep)
  }

  /** Extent k as two: its first keep fragments and the rest. */
  function Cut(live: seq<Extent>, k: nat, keep: nat): seq<Extent>
    requires k < |live| && keep < live[k].n
  {
    if keep == 0 then live else Resized(live, k, keep) + [Tail(live[k], keep)]
  }

  /** The blocks went back to the free map one by one. */
  ghost predicate Given(geo: Geo, s: State, blks: seq<Trim.Blk>, t: State)
    decreases |blks|
  {
    if blks == [] then t == s
    else exists m: State, k: nat ::
      && Given(geo, s, blks[..|blks| - 1], m) && k < |m.live| && BlkOf(m.live[k]) == blks[|blks| - 1]
      && FreeStep(geo, m, t, k, 0)
  }

  ghost predicate ActStep(geo: Geo, x: Both, act: Act, addr: nat, y: Both) {
    if !Permitted(x, act) then addr == 0 && y == x
    else
      match act
      case Ask(op) => Step(geo, x.s, op, addr, y.s) && y.v == x.v
      case Begin(candelete, dotrimcons) =>
        y.s == x.s && y.v == Trim.Next(x.v, Trim.StartCall(candelete, dotrimcons))
      case Release(k, keep, key, candelete) =>
        && y.v == Trim.Next(x.v, Trim.FreeCall(BlkOf(Tail(x.s.live[k], keep)), key, candelete))
        && (if key == Trim.NOTRIM_KEY || !candelete then FreeStep(geo, x.s, y.s, k, keep)
            else y.s == x.s.(live := Cut(x.s.live, k, keep)))
      case End(key, candelete, dotrimcons) =>
        y.s == x.s && y.v == Trim.Next(x.v, Trim.FinishCall(key, candelete, dotrimcons))
      case Task(i) => Given(geo, x.s, x.v.tasks[i].blks, y.s) && y.v == Trim.Next(x.v, Trim.TaskCall(i))
  }

  // ----- multisets of blocks -----

  lemma SubDrop(w: multiset<Trim.Blk>, m: multiset<Trim.Blk>, r: multiset<Trim.Blk>, b: Trim.Blk)
    requires w <= m && b !in w && m == r + multiset{b}
    ensures w <= r
  {
    forall e | e in w
      ensures w[e] <= r[e]
    {
      assert m[e] == r[e] + multiset{b}[e];
    }
  }

  lemma SubSwap(w: multiset<Trim.Blk>, m: multiset<Trim.Blk>, r: multiset<Trim.Blk>, b: Trim.Blk, c: Trim.Blk)
    requires w <= m && b !in w && r + multiset{b} == m + multiset{c}
    ensures w <= r
  {
    SubDrop(w, m + multiset{c}, r, b);
  }

  lemma SubGive(w: multiset<Trim.Blk>, w': multiset<Trim.Blk>, g: multiset<Trim.Blk>, m: multiset<Trim.Blk>, r: multiset<Trim.Blk>)
    requires w <= m && w' + g == w && m == r + g
    ensures w' <= r
  {
    forall e
      ensures w'[e] <= r[e]
    {
      assert w[e] == w'[e] + g[e] && m[e] == r[e] + g[e];
    }
  }

  lemma DiffTask(all: multiset<Trim.Blk>, w: multiset<Trim.Blk>, f: multiset<Trim.Blk>, g: multiset<Trim.Blk>)
    requires all == w + f && g <= w
    ensures (all - (f + g)) + g == w
  {}

  lemma DiffFree(all: multiset<Trim.Blk>, w: multiset<Trim.Blk>, f: multiset<Trim.Blk>, b: Trim.Blk)
    requires all == w + f
    ensures (all + multiset{b}) - f == w + multiset{b} && (all + multiset{b}) - (f + multiset{b}) == w
  {}

  // ----- what every act keeps -----

  lemma WaitingIs(v: Trim.View)
    requires Trim.Inv(v, multiset{})
    ensures Waiting(v) == Trim.Held(v.hash) + Trim.Held(v.tasks) && v.submitted == Waiting(v) + v.freed
  {
    hide Trim.Held, Trim.Collecting, Trim.AllTile;
  }

  /** How each call of the release interface changes what is waiting. */
  lemma NextWaiting(v: Trim.View, c: Trim.Call)
    requires Trim.Inv(v, multiset{}) && Trim.Allowed(v, c)
    ensures var w := Waiting(Trim.Next(v, c));
      match c
      case FreeCall(b, key, candelete) =>
        w == Waiting(v) + if key == Trim.NOTRIM_KEY || !candelete then multiset{} else multiset{b}
      case TaskCall(i) => w + multiset(v.tasks[i].blks) == Waiting(v)
      case _ => w == Waiting(v)
  {
    hide Trim.Inv, Trim.Held, Trim.Next, Trim.Allowed;
    WaitingIs(v);
    NextBooks(v, c);
    match c
    case FreeCall(b, key, candelete) =>
      DiffFree(v.submitted, Waiting(v), v.freed, b);
    case TaskCall(i) =>
      Trim.HeldWithout(v.tasks, i);
      DiffTask(v.submitted, Waiting(v), v.freed, multiset(v.tasks[i].blks));
    case _ =>
  }

  /** What each call adds to the books. */
  lemma NextBooks(v: Trim.View, c: Trim.Call)
    requires Trim.Allowed(v, c)
    ensures var w := Trim.Next(v, c);
      match c
      case FreeCall(b, key, candelete) =>
        && w.submitted == v.submitted + multiset{b}
        && w.freed == if key == Trim.NOTRIM_KEY || !candelete then v.freed + multiset{b} else v.freed
      case TaskCall(i) => i < |v.tasks| && w.submitted == v.submitted && w.freed == v.freed + multiset(v.tasks[i].blks)
      case _ => w.submitted == v.submitted && w.freed == v.freed
  {
    hide Trim.IndexOf, Trim.Keys, Trim.Continues, Trim.Joined, Trim.Without;
  }

  /** Extent k gives way to more. */
  lemma BlksDropped(live: seq<Extent>, k: nat)
    requires k < |live|
    ensures multiset(Blks(live)) == multiset(Blks(Dropped(live, k))) + multiset{BlkOf(live[k])}
  {
    hide Dropped, BlkOf;
    var a := Blks(live);
    BlksWithout(live, k);
    assert a == a[..k] + [a[k]] + a[k + 1..];
  }

  lemma BlksWithout(live: seq<Extent>, k: nat)
    requires k < |live|
    ensures Blks(Dropped(live, k)) == Blks(live)[..k] + Blks(live)[k + 1..]
  {
    hide BlkOf;
    var a, b := Blks(live), Blks(Dropped(live, k));
    forall i | 0 <= i < |b|
      ensures b[i] == (a[..k] + a[k + 1..])[i]
    {
    }
  }

  lemma BlksResized(live: seq<Extent>, k: nat, n: nat)
    requires k < |live|
    ensures multiset(Blks(Resized(live, k, n))) + multiset{BlkOf(live[k])} ==
      multiset(Blks(live)) + multiset{BlkOf(Extent(live[k].addr, n))}
  {
    var r := Resized(live, k, n);
    BlksDropped(live, k);
    BlksDropped(r, k);
    assert Dropped(r, k) == Dropped(live, k);
  }

  lemma BlksJoined(live: seq<Extent>, more: seq<Extent>)
    ensures multiset(Blks(live + more)) == multiset(Blks(live)) + multiset(Blks(more))
  {
    assert Blks(live + more) == Blks(live) + Blks(more);
  }

  lemma KeptWaiting(x: Both, k: nat, keep: nat)
    requires Mine(x, k) && keep < x.s.live[k].n && Waiting(x.v) <= multiset(Blks(x.s.live))
    ensures Waiting(x.v) <= multiset(Blks(Kept(x.s.live, k, keep)))
  {
    hide Waiting, Blks, Dropped, Resized;
    var w, m := Waiting(x.v), multiset(Blks(x.s.live));
    if keep == 0 {
      BlksDropped(x.s.live, k);
      SubDrop(w, m, multiset(Blks(Dropped(x.s.live, k))), BlkOf(x.s.live[k]));
    } else {
      BlksResized(x.s.live, k, keep);
      SubSwap(w, m, multiset(Blks(Resized(x.s.live, k, keep))), BlkOf(x.s.live[k]), BlkOf(Extent(x.s.live[k].addr, keep)));
    }
  }

  lemma CutWaiting(x: Both, k: nat, keep: nat)
    requires Mine(x, k) && keep < x.s.live[k].n && Waiting(x.v) <= multiset(Blks(x.s.live))
    ensures Waiting(x.v) + multiset{BlkOf(Tail(x.s.live[k], keep))} <= multiset(Blks(Cut(x.s.live, k, keep)))
  {
    hide Waiting, Resized, Dropped;
    var live := x.s.live;
    if keep == 0 {
      BlksDropped(live, k);
      SubDrop(Waiting(x.v), multiset(Blks(live)), multiset(Blks(Dropped(live, k))), BlkOf(live[k]));
      assert Tail(live[k], 0) == live[k];
    } else {
      KeptWaiting(x, k, keep);
      BlksJoined(Resized(live, k, keep), [Tail(live[k], keep)]);
      assert Blks([Tail(live[k], keep)]) == [BlkOf(Tail(live[k], keep))];
    }
  }

  lemma AskWaiting(geo: Geo, x: Both, op: Op, addr: nat, t: State)
    requires Permitted(x, Ask(op)) && Step(geo, x.s, op, addr, t) && Waiting(x.v) <= multiset(Blks(x.s.live))
    ensures Waiting(x.v) <= multiset(Blks(t.live))
  {
    hide AllocFrom, FirstIn, Order, CansOf, Picked, Waiting, Blks, Taken, Resized, Row, CanTake, BestTake, HasRow, FirstRow,
      Range, Geo.Reserved, Geo.NDblk, Geo.Dtog, Geo.Dtogd, AllSet, ClusterFrom;
    if t != x.s {
      match op
      case Extend(k, nsize) =>
        BlksResized(x.s.live, k, nsize);
        SubSwap(Waiting(x.v), multiset(Blks(x.s.live)), multiset(Blks(Resized(x.s.live, k, nsize))), BlkOf(x.s.live[k]),
          BlkOf(Extent(x.s.live[k].addr, nsize)));
      case Cluster(cg, bpref, len) =>
        BlksJoined(x.s.live, Row(addr, geo.frag, len));
      case Try(cg, pref, size, rsize) =>
        AllocTaken(geo, x.s, t, size, rsize, addr, cg, pref);
        BlksJoined(x.s.live, [Extent(addr, rsize)]);
      case Alloc(icg, pref, size, rsize) =>
        var cg := AllocGroup(geo, x.s, t, icg, pref, size, rsize, addr);
        AllocTaken(geo, x.s, t, size, rsize, addr, cg, if cg == icg then pref else 0);
        BlksJoined(x.s.live, [Extent(addr, rsize)]);
      case Free(_, _) =>
    }
  }

  lemma {:induction false} GivenBlks(geo: Geo, s: State, blks: seq<Trim.Blk>, t: State)
    requires Given(geo, s, blks, t)
    ensures multiset(Blks(s.live)) == multiset(Blks(t.live)) + multiset(blks)
    decreases |blks|
  {
    hide Blks, Dropped, FreeStep;
    if blks != [] {
      var n := |blks| - 1;
      var m: State, k: nat :| Given(geo, s, blks[..n], m) && k < |m.live| && BlkOf(m.live[k]) == blks[n] && FreeStep(geo, m, t, k, 0);
      GivenBlks(geo, s, blks[..n], m);
      FreeLive(geo, m, t, k, 0);
      BlksDropped(m.live, k);
      assert blks == blks[..n] + [blks[n]];
    }
  }

  /** Every act keeps what is waiting among what is held. */
  lemma ActKeeps(geo: Geo, x: Both, act: Act, addr: nat, y: Both)
    requires Joint(geo, x) && ActStep(geo, x, act, addr, y) && Proper(geo, y.s)
    ensures Joint(geo, y)
  {
    hide Proper, Waiting, Blks, Step, FreeStep, Trim.Inv, Trim.Next, Given, Cut, Kept;
    if Permitted(x, act) {
      match act
      case Ask(op) =>
        AskWaiting(geo, x, op, addr, y.s);
      case Begin(candelete, dotrimcons) =>
        Trim.NextKeeps(x.v, Trim.StartCall(candelete, dotrimcons));
        NextWaiting(x.v, Trim.StartCall(candelete, dotrimcons));
      case Release(k, keep, key, candelete) =>
        var c := Trim.FreeCall(BlkOf(Tail(x.s.live[k], keep)), key, candelete);
        Trim.NextKeeps(x.v, c);
        NextWaiting(x.v, c);
        if key == Trim.NOTRIM_KEY || !candelete {
          FreeLive(geo, x.s, y.s, k, keep);
          KeptWaiting(x, k, keep);
        } else {
          CutWaiting(x, k, keep);
        }
      case End(key, candelete, dotrimcons) =>
        Trim.NextKeeps(x.v, Trim.FinishCall(key, candelete, dotrimcons));
        NextWaiting(x.v, Trim.FinishCall(key, candelete, dotrimcons));
      case Task(i) =>
        Trim.NextKeeps(x.v, Trim.TaskCall(i));
        NextWaiting(x.v, Trim.TaskCall(i));
        GivenBlks(geo, x.s, x.v.tasks[i].blks, y.s);
        SubGive(Waiting(x.v), Waiting(y.v), multiset(x.v.tasks[i].blks), multiset(Blks(x.s.live)), multiset(Blks(y.s.live)));
    }
  }

  lemma FreeLive(geo: Geo, s: State, t: State, k: nat, keep: nat)
    requires FreeStep(geo, s, t, k, keep)
    ensures k < |s.live| && t.live == Kept(s.live, k, keep)
  {}

  // ----- what that means -----

  /** A block that is waiting is in use in its group, and the map does not offer it. */
  lemma WaitingTaken(geo: Geo, x: Both, b: Trim.Blk, d: nat)
    requires Joint(geo, x) && b in Waiting(x.v) && b.bno <= d < b.bno + b.frags
    ensures OwnedAt(geo, x.s.owns, d) && !FreeAt(geo, x.s, d)
  {
    hide Waiting, OwnedAt, FreeAt;
    assert b in multiset(Blks(x.s.live));
    var i :| 0 <= i < |x.s.live| && Blks(x.s.live)[i] == b;
    assert Covers(x.s.live[i], d);
  }

  /** A run of both. */
  ghost predicate JointRun(geo: Geo, trace: seq<Both>, acts: seq<Act>, addrs: seq<nat>) {
    && |trace| == |acts| + 1 && |addrs| == |acts|
    && (forall j :: 0 <= j <= |acts| ==> Joint(geo, trace[j]))
    && forall j :: 0 <= j < |acts| ==> ActStep(geo, trace[j], acts[j], addrs[j], trace[j + 1])
  }

  /** Only the completion of its own request ends a block's wait. */
  lemma StillWaiting(geo: Geo, x: Both, act: Act, addr: nat, y: Both, b: Trim.Blk)
    requires Joint(geo, x) && ActStep(geo, x, act, addr, y) && b in Waiting(x.v)
    ensures b in Waiting(y.v) || (act.Task? && act.i < |x.v.tasks| && b in x.v.tasks[act.i].blks)
  {
    hide Proper, Waiting, Blks, Step, FreeStep, Trim.Inv, Trim.Next, Given, Cut;
    if Permitted(x, act) {
      match act
      case Ask(op) =>
      case Begin(candelete, dotrimcons) =>
        NextWaiting(x.v, Trim.StartCall(candelete, dotrimcons));
      case Release(k, keep, key, candelete) =>
        NextWaiting(x.v, Trim.FreeCall(BlkOf(Tail(x.s.live[k], keep)), key, candelete));
      case End(key, candelete, dotrimcons) =>
        NextWaiting(x.v, Trim.FinishCall(key, candelete, dotrimcons));
      case Task(i) =>
        NextWaiting(x.v, Trim.TaskCall(i));
        if b !in Waiting(y.v) {
          assert b in multiset(x.v.tasks[i].blks);
        }
    }
  }

  /** Step l is the completion of a request that block b is in, for which an unmap of its own had been sent that no
      other completion had used. */
  ghost predicate Completes(x: Both, act: Act, b: Trim.Blk) {
    && act.Task? && act.i < |x.v.tasks| && b in x.v.tasks[act.i].blks
    && multiset(x.v.issued)[x.v.tasks[act.i]] > multiset(x.v.completed)[x.v.tasks[act.i]]
  }

  /**
    * What the postponement is for: if a fragment of a block that was waiting at point j is offered by the map at a
    * later point m, so that the allocator might hand it out, then in between the block's request was completed, after
    * the unmap sent for it.
    */
  lemma {:induction false} ReuseAfterUnmap(geo: Geo, trace: seq<Both>, acts: seq<Act>, addrs: seq<nat>, j: nat, m: nat, b: Trim.Blk, d: nat)
      returns (l: nat)
    requires JointRun(geo, trace, acts, addrs) && j <= m <= |acts| && b in Waiting(trace[j].v)
    requires b.bno <= d < b.bno + b.frags && FreeAt(geo, trace[m].s, d)
    ensures j <= l < m && Completes(trace[l], acts[l], b)
    decreases m - j
  {
    hide Waiting, FreeAt, ActStep, Proper, Trim.Inv;
    assert Joint(geo, trace[j]);
    if j == m {
      WaitingTaken(geo, trace[j], b, d);
      assert false;
    }
    assert ActStep(geo, trace[j], acts[j], addrs[j], trace[j + 1]);
    StillWaiting(geo, trace[j], acts[j], addrs[j], trace[j + 1], b);
    if b in Waiting(trace[j + 1].v) {
      l := ReuseAfterUnmap(geo, trace, acts, addrs, j + 1, m, b, d);
    } else {
      Trim.FreedAfterItsUnmap(trace[j].v, acts[j].i, b);
      l := j;
    }
  }

  /** An act that makes somebody the owner of a fragment found it free. */
  lemma NewlyOwned(geo: Geo, s: State, op: Op, addr: nat, t: State, d: nat)
    requires Proper(geo, s) && Step(geo, s, op, addr, t) && !OwnedAt(geo, s.owns, d) && OwnedAt(geo, t.owns, d)
    ensures FreeAt(geo, s, d)
  {
    hide AllocFrom, FirstIn, Order, CansOf, Picked, Held, Fill, CanTake, BestTake, HasRow, FirstRow, Geo.Reserved, Geo.NDblk,
      ClusterFrom, Row, Resized, Dropped, Kept, OwnedAt, FreeAt, Taken, FreeStep, AllSet, Range, Geo.Dtog, Geo.Dtogd, Geo.Base;
    if Sensible(geo, s.live, op) && t != s {
      match op
      case Try(cg, pref, size, rsize) =>
        AllocTaken(geo, s, t, size, rsize, addr, cg, pref);
        TakenWasFree(geo, s, t, cg, addr - geo.Base(cg), rsize, d);
      case Alloc(icg, pref, size, rsize) =>
        var cg := AllocGroup(geo, s, t, icg, pref, size, rsize, addr);
        AllocTaken(geo, s, t, size, rsize, addr, cg, if cg == icg then pref else 0);
        TakenWasFree(geo, s, t, cg, addr - geo.Base(cg), rsize, d);
      case Cluster(cg, _, len) =>
        TakenWasFree(geo, s, t, cg, addr - geo.Base(cg), len * geo.frag, d);
      case Extend(k, nsize) =>
        var e := s.live[k];
        TakenWasFree(geo, s, t, geo.Dtog(e.addr), geo.Dtogd(e.addr) + e.n, nsize - e.n, d);
      case Free(k, keep) =>
        FreedWasOwned(geo, s, t, k, keep, d);
    }
  }

  lemma FreedWasOwned(geo: Geo, s: State, t: State, k: nat, keep: nat, d: nat)
    requires FreeStep(geo, s, t, k, keep) && OwnedAt(geo, t.owns, d)
    ensures OwnedAt(geo, s.owns, d)
  {
    hide Range, Fill, Kept;
  }

  lemma TakenWasFree(geo: Geo, s: State, t: State, cg: nat, rel: nat, n: nat, d: nat)
    requires Taken(geo, s, t, cg, rel, n) && !OwnedAt(geo, s.owns, d) && OwnedAt(geo, t.owns, d)
    ensures FreeAt(geo, s, d)
  {
    hide Fill;
  }

  /** So whoever gets a fragment of the block from the allocator gets it after that. */
  lemma HandedOutAfterUnmap(geo: Geo, trace: seq<Both>, acts: seq<Act>, addrs: seq<nat>, j: nat, m: nat, b: Trim.Blk, d: nat)
      returns (l: nat)
    requires JointRun(geo, trace, acts, addrs) && j <= m < |acts| && b in Waiting(trace[j].v)
    requires b.bno <= d < b.bno + b.frags && acts[m].Ask?
    requires !OwnedAt(geo, trace[m].s.owns, d) && OwnedAt(geo, trace[m + 1].s.owns, d)
    ensures j <= l < m && Completes(trace[l], acts[l], b)
  {
    hide Waiting, FreeAt, OwnedAt, Proper, Step, Trim.Inv;
    assert Joint(geo, trace[m]) && ActStep(geo, trace[m], acts[m], addrs[m], trace[m + 1]);
    NewlyOwned(geo, trace[m].s, acts[m].op, addrs[m], trace[m + 1].s, d);
    l := ReuseAfterUnmap(geo, trace, acts, addrs, j, m, b, d);
  }

  // ----- the code -----

  /** The place of an extent after a part of its block. */
  lemma PlacedTail(geo: Geo, e: Extent, keep: nat)
    requires geo.Wf() && Placed(geo, e) && 0 < keep < e.n
    ensures Placed(geo, Tail(e, keep)) && Placed(geo, Extent(e.addr, keep))
  {
    hide Geo.NDblk;
    var c := geo.Dtog(e.addr);
    LaterInBlock(e.addr, keep, geo.frag);
    LaterInBlock(e.addr, keep, geo.fpg);
    geo.GroupStart(c);
    InSize(geo, c, geo.Dtogd(e.addr) + keep);
  }

  lemma InSize(geo: Geo, c: nat, rel: nat)
    requires geo.Wf() && c < geo.ncg && rel < geo.NDblk(c)
    ensures c * geo.fpg + rel < geo.size
  {}

  /** Cutting an extent in two changes nothing about what is held. */
  lemma CutHeld(geo: Geo, owns: seq<set<nat>>, live: seq<Extent>, k: nat, keep: nat)
    requires geo.Wf() && Held(geo, owns, live) && k < |live| && keep < live[k].n
    ensures Held(geo, owns, Cut(live, k, keep)) && Size(Cut(live, k, keep)) == Size(live)
  {
    hide OwnedAt, Geo.Wf, Resized, Placed, Size;
    if keep > 0 {
      var e, r := live[k], Cut(live, k, keep);
      assert Placed(geo, e);
      PlacedTail(geo, e, keep);
      SizeResized(live, k, keep);
      SizeAdd(Resized(live, k, keep), Tail(e, keep));
      forall i | 0 <= i < |live| && i != k
        ensures Apart(live[i], r[k]) && Apart(r[k], live[i]) && Apart(live[i], Tail(e, keep))
      {
        assert Apart(live[if i < k then i else k], live[if i < k then k else i]);
      }
      forall d: nat
        ensures OwnedAt(geo, owns, d) <==> exists i :: 0 <= i < |r| && Covers(r[i], d)
      {
        assert Covers(e, d) == (Covers(r[k], d) || Covers(r[|live|], d));
        if OwnedAt(geo, owns, d) {
          var i :| 0 <= i < |live| && Covers(live[i], d);
          assert i != k ==> Covers(r[i], d);
        }
        if i :| 0 <= i < |r| && Covers(r[i], d) {
          assert Covers(live[if i < |live| then i else k], d);
        }
      }
    }
  }

  predicate Queued(rs: seq<Trim.Request>, b: Trim.Blk) {
    exists i :: 0 <= i < |rs| && b in rs[i].blks
  }

  lemma {:induction false} QueuedHeld(rs: seq<Trim.Request>, b: Trim.Blk)
    ensures Queued(rs, b) <==> b in Trim.Held(rs)
  {
    if rs != [] {
      QueuedHeld(rs[1..], b);
      if Queued(rs, b) {
        var i :| 0 <= i < |rs| && b in rs[i].blks;
        assert i > 0 ==> b in rs[1..][i - 1].blks;
      }
      if Queued(rs[1..], b) {
        var i :| 0 <= i < |rs[1..]| && b in rs[1..][i].blks;
        assert b in rs[i + 1].blks;
      }
    }
  }

  lemma QueuedIs(v: Trim.View, b: Trim.Blk)
    requires Trim.Inv(v, multiset{})
    ensures b in Waiting(v) <==> Queued(v.hash, b) || Queued(v.tasks, b)
  {
    hide Trim.Inv, Queued, Trim.Held;
    WaitingIs(v);
    QueuedHeld(v.hash, b);
    QueuedHeld(v.tasks, b);
  }

  lemma Separate(fs: FileSystem, q: Trim.TrimQueue)
    ensures q !in fs.Objects()
  {}

  ghost function Now(fs: FileSystem, q: Trim.TrimQueue, live: seq<Extent>): Both
    reads fs, fs.Objects(), q
  {
    Both(StateOf(fs, live), q.Now())
  }

  /** A session in which what is waiting is among what is held. */
  ghost predicate Ready(fs: FileSystem, q: Trim.TrimQueue, live: seq<Extent>)
    reads fs, fs.csNbfree, fs.csNffree, fs.Objects(), q
  {
    Session(fs, live) && q.Valid() && Waiting(q.Now()) <= multiset(Blks(live))
  }

  lemma ReadyJoint(fs: FileSystem, q: Trim.TrimQueue, live: seq<Extent>)
    requires Ready(fs, q, live)
    ensures Joint(fs.geo, Now(fs, q, live))
  {
    hide Session, Proper, Waiting, Blks, Trim.Inv;
    SessionHeld(fs, live);
  }

  /** The loop of a completion task: each block goes back to its group. */
  method GiveBack(fs: FileSystem, live0: seq<Extent>, blks: seq<Trim.Blk>) returns (live: seq<Extent>)
    requires Session(fs, live0) && multiset(blks) <= multiset(Blks(live0))
    modifies fs, fs.csNbfree, fs.csNffree, fs.Objects()
    ensures Session(fs, live) && Stock(fs, live) == old(Stock(fs, live0))
    ensures Given(fs.geo, old(StateOf(fs, live0)), blks, StateOf(fs, live))
  {
    hide Session, Stock, FileSystem.Frees, FileSystem.Owns, FreeStep, Given, Blks;
    live := live0;
    ghost var s := StateOf(fs, live0);
    NoneGiven(fs.geo, s);
    for j := 0 to |blks|
      invariant Session(fs, live) && Stock(fs, live) == old(Stock(fs, live0))
      invariant Given(fs.geo, s, blks[..j], StateOf(fs, live))
      invariant multiset(blks[j..]) <= multiset(Blks(live))
    {
      NextGiven(blks, j, live);
      var k := Find(live, blks[j]);
      ghost var m := StateOf(fs, live);
      BlksDropped(live, k);
      ghost var before := live;
      live := FreeWhole(fs, live, k);
      GivenStep(fs.geo, s, blks, j, m, k, StateOf(fs, live));
      assert multiset(Blks(before)) == multiset(Blks(live)) + multiset{blks[j]};
      SubGive(multiset(blks[j..]), multiset(blks[j + 1..]), multiset{blks[j]}, multiset(Blks(before)), multiset(Blks(live)));
    }
    assert blks[..|blks|] == blks;
  }

  lemma NoneGiven(geo: Geo, s: State)
    ensures Given(geo, s, [], s)
  {}

  lemma NextGiven(blks: seq<Trim.Blk>, j: nat, live: seq<Extent>)
    requires j < |blks| && multiset(blks[j..]) <= multiset(Blks(live))
    ensures blks[j] in Blks(live) && multiset(blks[j + 1..]) + multiset{blks[j]} == multiset(blks[j..])
  {
    assert blks[j..] == [blks[j]] + blks[j + 1..];
    assert blks[j] in multiset(blks[j..]);
    assert blks[j] in multiset(Blks(live));
  }

  lemma GivenStep(geo: Geo, s: State, blks: seq<Trim.Blk>, j: nat, m: State, k: nat, t: State)
    requires j < |blks| && Given(geo, s, blks[..j], m) && k < |m.live| && BlkOf(m.live[k]) == blks[j] && FreeStep(geo, m, t, k, 0)
    ensures Given(geo, s, blks[..j + 1], t)
  {
    hide FreeStep;
    assert blks[..j + 1][..j] == blks[..j];
  }

  method Find(live: seq<Extent>, b: Trim.Blk) returns (k: nat)
    requires b in Blks(live)
    ensures k < |live| && BlkOf(live[k]) == b
  {
    k := 0;
    while BlkOf(live[k]) != b
      invariant k < |live| && forall i :: 0 <= i < k ==> BlkOf(live[i]) != b
      decreases |live| - k
    {
      k := k + 1;
    }
  }

  /** A request to the allocator by a caller that leaves alone what it has released. */
  method DoAsk(fs: FileSystem, q: Trim.TrimQueue, live0: seq<Extent>, op: Op) returns (addr: nat, live: seq<Extent>)
    requires Ready(fs, q, live0) && Permitted(Now(fs, q, live0), Ask(op))
    modifies fs, fs.csNbfree, fs.csNffree, fs.Objects()
    ensures Session(fs, live) && q.Valid() && Stock(fs, live) == old(Stock(fs, live0))
    ensures ActStep(fs.geo, old(Now(fs, q, live0)), Ask(op), addr, Now(fs, q, live))
  {
    hide Session, Stock, FileSystem.Frees, FileSystem.Owns, Step, Waiting, Blks, Mine, Trim.TrimQueue.Valid;
    Separate(fs, q);
    addr, live := Do(fs, live0, op);
  }

  /** The queue's side of ffs_blkfree and of a completion; the filesystem is not concerned. */
  method Note(fs: FileSystem, q: Trim.TrimQueue, live: seq<Extent>, b: Trim.Blk, key: nat, candelete: bool)
    requires Session(fs, live) && q.Valid() && Trim.Allowed(q.Now(), Trim.FreeCall(b, key, candelete))
    modifies q
    ensures Session(fs, live) && Stock(fs, live) == old(Stock(fs, live)) && StateOf(fs, live) == old(StateOf(fs, live))
    ensures q.Valid() && q.Now() == Trim.Next(old(q.Now()), Trim.FreeCall(b, key, candelete))
  {
    hide Session, Stock, FileSystem.Frees, FileSystem.Owns, Trim.TrimQueue.Valid, Trim.Next, Trim.Keys;
    Separate(fs, q);
    q.BlkFree(b, key, candelete);
  }

  method Complete(fs: FileSystem, q: Trim.TrimQueue, live: seq<Extent>, i: nat)
    requires Session(fs, live) && q.Valid() && i < |q.tasks|
    modifies q
    ensures Session(fs, live) && Stock(fs, live) == old(Stock(fs, live)) && StateOf(fs, live) == old(StateOf(fs, live))
    ensures q.Valid() && q.Now() == Trim.Next(old(q.Now()), Trim.TaskCall(i))
  {
    hide Session, Stock, FileSystem.Frees, FileSystem.Owns, Trim.TrimQueue.Valid, Trim.Next;
    Separate(fs, q);
    q.RunTask(i);
  }

  /** ffs_blkfree: the fragments of extent k after the first keep, which go back at once when no TRIM is wanted. */
  method DoRelease(fs: FileSystem, q: Trim.TrimQueue, live0: seq<Extent>, k: nat, keep: nat, key: nat, candelete: bool)
    returns (live: seq<Extent>)
    requires Ready(fs, q, live0) && Permitted(Now(fs, q, live0), Release(k, keep, key, candelete))
    modifies fs, fs.csNbfree, fs.csNffree, fs.Objects(), q
    ensures Session(fs, live) && q.Valid() && Stock(fs, live) == old(Stock(fs, live0))
    ensures ActStep(fs.geo, old(Now(fs, q, live0)), Release(k, keep, key, candelete), 0, Now(fs, q, live))
  {
    hide Session, Stock, StateOf, FreeStep, Waiting, Blks, Trim.TrimQueue.Valid, Trim.TrimQueue.Now, Trim.Next, Cut, Trim.Allowed;
    ghost var x := Now(fs, q, live0);
    Lives(fs, live0);
    Note(fs, q, live0, BlkOf(Tail(live0[k], keep)), key, candelete);
    if key == Trim.NOTRIM_KEY || !candelete {
      live := Return(fs, q, live0, k, keep);
    } else {
      live := Cut(live0, k, keep);
      CutSession(fs, live0, k, keep);
    }
  }

  lemma Lives(fs: FileSystem, live: seq<Extent>)
    ensures StateOf(fs, live).live == live
  {}

  /** The filesystem's side; the queue is not concerned. */
  method Return(fs: FileSystem, q: Trim.TrimQueue, live0: seq<Extent>, k: nat, keep: nat) returns (live: seq<Extent>)
    requires Session(fs, live0) && q.Valid() && k < |live0| && keep < live0[k].n
    modifies fs, fs.csNbfree, fs.csNffree, fs.Objects()
    ensures Session(fs, live) && Stock(fs, live) == old(Stock(fs, live0))
    ensures FreeStep(fs.geo, old(StateOf(fs, live0)), StateOf(fs, live), k, keep)
    ensures q.Valid() && q.Now() == old(q.Now())
  {
    hide Session, Stock, StateOf, FreeStep, Trim.TrimQueue.Valid;
    Separate(fs, q);
    live := DoFree(fs, live0, k, keep);
  }

  method ReturnAll(fs: FileSystem, q: Trim.TrimQueue, live0: seq<Extent>, blks: seq<Trim.Blk>) returns (live: seq<Extent>)
    requires Session(fs, live0) && q.Valid() && multiset(blks) <= multiset(Blks(live0))
    modifies fs, fs.csNbfree, fs.csNffree, fs.Objects()
    ensures Session(fs, live) && Stock(fs, live) == old(Stock(fs, live0))
    ensures Given(fs.geo, old(StateOf(fs, live0)), blks, StateOf(fs, live))
    ensures q.Valid() && q.Now() == old(q.Now())
  {
    hide Session, Stock, StateOf, Given, Trim.TrimQueue.Valid, Blks;
    Separate(fs, q);
    live := GiveBack(fs, live0, blks);
  }

  lemma CutSession(fs: FileSystem, live: seq<Extent>, k: nat, keep: nat)
    requires Session(fs, live) && k < |live| && keep < live[k].n
    ensures Session(fs, Cut(live, k, keep)) && Stock(fs, Cut(live, k, keep)) == Stock(fs, live)
    ensures StateOf(fs, Cut(live, k, keep)) == StateOf(fs, live).(live := Cut(live, k, keep))
  {
    hide FileSystem.Valid, Held, FileSystem.Owns, FileSystem.Frees, Size, Cut;
    ValidShape(fs);
    CutHeld(fs.geo, fs.Owns(), live, k, keep);
  }

  /** ffs_blkfree_trim_task: the blocks of the request go back to their groups. */
  method TaskIf(fs: FileSystem, q: Trim.TrimQueue, live0: seq<Extent>, i: nat) returns (live: seq<Extent>)
    requires Ready(fs, q, live0)
    modifies fs, fs.csNbfree, fs.csNffree, fs.Objects(), q
    ensures Session(fs, live) && q.Valid() && Stock(fs, live) == old(Stock(fs, live0))
    ensures ActStep(fs.geo, old(Now(fs, q, live0)), Task(i), 0, Now(fs, q, live))
  {
    hide Session, Stock, StateOf, Given, Waiting, Blks, Trim.TrimQueue.Valid, Trim.Next;
    live := live0;
    if i >= |q.tasks| {
      return;
    }
    var blks := q.tasks[i].blks;
    TaskHeld(q, live0, i);
    Complete(fs, q, live0, i);
    live := ReturnAll(fs, q, live0, blks);
  }

  lemma TaskHeld(q: Trim.TrimQueue, live: seq<Extent>, i: nat)
    requires q.Valid() && Waiting(q.Now()) <= multiset(Blks(live)) && i < |q.tasks|
    ensures multiset(q.tasks[i].blks) <= multiset(Blks(live))
  {
    hide Waiting, Blks, Trim.Held, Trim.Inv, Trim.TrimQueue.Counters;
    WaitingIs(q.Now());
    Trim.HeldWithout(q.tasks, i);
  }

  /** The test of Permitted, made on the queue itself. */
  method Untouched(q: Trim.TrimQueue, live: seq<Extent>, k: nat) returns (ok: bool)
    requires q.Valid()
    ensures ok <==> k < |live| && BlkOf(live[k]) !in Waiting(q.Now())
  {
    hide Waiting, Queued, Trim.Inv, Trim.TrimQueue.Counters;
    if k >= |live| {
      return false;
    }
    QueuedIs(q.Now(), BlkOf(live[k]));
    ok := !Queued(q.hash, BlkOf(live[k])) && !Queued(q.tasks, BlkOf(live[k]));
  }

  method AskFor(fs: FileSystem, q: Trim.TrimQueue, live0: seq<Extent>, op: Op) returns (addr: nat, live: seq<Extent>)
    requires Ready(fs, q, live0)
    modifies fs, fs.csNbfree, fs.csNffree, fs.Objects()
    ensures Session(fs, live) && q.Valid() && Stock(fs, live) == old(Stock(fs, live0))
    ensures ActStep(fs.geo, old(Now(fs, q, live0)), Ask(op), addr, Now(fs, q, live))
  {
    hide Session, Stock, FileSystem.Frees, FileSystem.Owns, Step, Waiting, Blks, Trim.TrimQueue.Valid;
    var ok := !op.Free?;
    if op.Extend? {
      ok := Untouched(q, live0, op.k);
    }
    addr, live := 0, live0;
    if ok {
      addr, live := DoAsk(fs, q, live0, op);
    }
  }

  method ReleaseIf(fs: FileSystem, q: Trim.TrimQueue, live0: seq<Extent>, k: nat, keep: nat, key: nat, candelete: bool)
    returns (live: seq<Extent>)
    requires Ready(fs, q, live0)
    modifies fs, fs.csNbfree, fs.csNffree, fs.Objects(), q
    ensures Session(fs, live) && q.Valid() && Stock(fs, live) == old(Stock(fs, live0))
    ensures ActStep(fs.geo, old(Now(fs, q, live0)), Release(k, keep, key, candelete), 0, Now(fs, q, live))
  {
    hide Session, Stock, FileSystem.Frees, FileSystem.Owns, Waiting, Blks, Trim.TrimQueue.Valid, Trim.Next, FreeStep, Cut,
      Trim.Keys;
    live := live0;
    var ok := Untouched(q, live0, k);
    if ok && keep < live0[k].n
      && (key == Trim.NOTRIM_KEY || key == Trim.SINGLETON_KEY || !candelete || key in Trim.Keys(q.hash)) {
      live := DoRelease(fs, q, live0, k, keep, key, candelete);
    }
  }

  method BeginOrEnd(fs: FileSystem, q: Trim.TrimQueue, live: seq<Extent>, act: Act)
    requires Ready(fs, q, live) && (act.Begin? || act.End?)
    modifies q
    ensures Session(fs, live) && q.Valid() && Stock(fs, live) == old(Stock(fs, live))
    ensures ActStep(fs.geo, old(Now(fs, q, live)), act, 0, Now(fs, q, live))
  {
    hide Session, Stock, FileSystem.Frees, FileSystem.Owns, Waiting, Blks, Trim.TrimQueue.Valid, Trim.Next, Trim.Keys;
    Separate(fs, q);
    match act {
      case Begin(candelete, dotrimcons) =>
        var _ := q.Start(candelete, dotrimcons);
      case End(key, candelete, dotrimcons) =>
        if !candelete || !dotrimcons || key == Trim.SINGLETON_KEY || key in Trim.Keys(q.hash) {
          q.Finish(key, candelete, dotrimcons);
        }
    }
  }

  /** One act, if it is permitted. */
  method Perform(fs: FileSystem, q: Trim.TrimQueue, live0: seq<Extent>, act: Act) returns (addr: nat, live: seq<Extent>)
    requires Ready(fs, q, live0)
    modifies fs, fs.csNbfree, fs.csNffree, fs.Objects(), q
    ensures Ready(fs, q, live) && Stock(fs, live) == old(Stock(fs, live0))
    ensures ActStep(fs.geo, old(Now(fs, q, live0)), act, addr, Now(fs, q, live))
  {
    hide Session, Stock, Now, Ready, Trim.TrimQueue.Valid, ActStep, Joint;
    ReadyJoint(fs, q, live0);
    ghost var x := Now(fs, q, live0);
    addr, live := 0, live0;
    match act {
      case Ask(op) =>
        addr, live := AskFor(fs, q, live0, op);
      case Begin(_, _) =>
        BeginOrEnd(fs, q, live, act);
      case Release(k, keep, key, candelete) =>
        live := ReleaseIf(fs, q, live0, k, keep, key, candelete);
      case End(_, _, _) =>
        BeginOrEnd(fs, q, live, act);
      case Task(i) =>
        live := TaskIf(fs, q, live0, i);
    }
    Again(fs, q, live, x, act, addr);
  }

  lemma Again(fs: FileSystem, q: Trim.TrimQueue, live: seq<Extent>, x: Both, act: Act, addr: nat)
    requires Joint(fs.geo, x) && Session(fs, live) && q.Valid() && ActStep(fs.geo, x, act, addr, Now(fs, q, live))
    ensures Ready(fs, q, live)
  {
    hide Session, ActStep, Proper, Waiting, Blks, Trim.Inv;
    SessionHeld(fs, live);
    ActKeeps(fs.geo, x, act, addr, Now(fs, q, live));
  }

  /**
    * Any sequence of acts by any number of threads, one hold of a lock each: every act does what ActStep says, blocks
    * that are waiting stay in use all along, and nothing is lost.
    */
  method Recycle(fs: FileSystem, q: Trim.TrimQueue, live0: seq<Extent>, acts: seq<Act>)
    returns (live: seq<Extent>, addrs: seq<nat>, ghost trace: seq<Both>)
    requires Ready(fs, q, live0)
    modifies fs, fs.csNbfree, fs.csNffree, fs.Objects(), q
    ensures Ready(fs, q, live) && Stock(fs, live) == old(Stock(fs, live0))
    ensures JointRun(fs.geo, trace, acts, addrs)
    ensures trace[0] == old(Now(fs, q, live0)) && trace[|acts|] == Now(fs, q, live)
  {
    hide Stock, Ready, Now, Joint, ActStep;
    live, addrs, trace := live0, [], [Now(fs, q, live0)];
    ReadyJoint(fs, q, live0);
    for j := 0 to |acts|
      invariant Ready(fs, q, live) && Stock(fs, live) == old(Stock(fs, live0))
      invariant JointRun(fs.geo, trace, acts[..j], addrs)
      invariant trace[0] == old(Now(fs, q, live0)) && trace[j] == Now(fs, q, live)
    {
      var addr;
      addr, live := Perform(fs, q, live, acts[j]);
      ReadyJoint(fs, q, live);
      addrs := addrs + [addr];
      trace := trace + [Now(fs, q, live)];
    }
    assert acts[..|acts|] == acts;
  }
}
