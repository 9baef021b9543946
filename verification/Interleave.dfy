/** ffs_hashalloc among other threads. The search holds a group's lock during one try only; between two tries anybody may
    allocate, extend or free. A step of a run is one such hold, so every interleaving is a sequence of steps. */
module Interleave {
  import opened Arith
  import opened Bitmap
  import opened Runs
  import opened Recount
  import opened Geometry
  import opened Allocator
  import opened Filesystem
  import opened Workload

  /** A run so far. */
  datatype History = History(trace: seq<State>, ops: seq<Op>, addrs: seq<nat>)

  ghost predicate Told(geo: Geo, h: History) {
    Run(geo, h.trace, h.ops, h.addrs)
  }

  /** The run h goes on as k. */
  ghost predicate Continued(h: History, k: History) {
    h.trace <= k.trace && h.ops <= k.ops && h.addrs <= k.addrs
  }

  function Last(h: History): State
    requires |h.trace| > 0
  {
    h.trace[|h.trace| - 1]
  }

  /** Step j tried group cg for the extent, and was refused. */
  ghost predicate Refused(geo: Geo, h: History, j: nat, cg: nat, size: nat, rsize: nat) {
    && j < |h.ops| == |h.addrs| && h.addrs[j] == 0
    && h.ops[j].Try? && Sensible(geo, [], h.ops[j])
    && h.ops[j].cg == cg && h.ops[j].size == size && h.ops[j].rsize == rsize
  }

  /** Step j gives fragments of group c back. */
  ghost predicate FreesIn(geo: Geo, h: History, j: nat, c: nat) {
    && j < |h.ops| < |h.trace| && h.ops[j].Free? && geo.fpg > 0
    && Sensible(geo, h.trace[j].live, h.ops[j]) && geo.Dtog(h.trace[j].live[h.ops[j].k].addr) == c
  }

  // ----- a group that cannot give an extent cannot until something is freed in it -----

  /** The longest row of free fragments around one that is free. */
  lemma {:induction false} RunAround(s: seq<bool>, lo: nat, hi: nat) returns (p: nat, k: nat)
    requires lo < hi <= |s| && forall i :: lo <= i < hi ==> s[i]
    ensures IsRun(s, p, k) && p <= lo && hi <= p + k
    decreases lo + (|s| - hi)
  {
    if lo > 0 && s[lo - 1] {
      p, k := RunAround(s, lo - 1, hi);
    } else if hi < |s| && s[hi] {
      p, k := RunAround(s, lo, hi + 1);
    } else {
      p, k := lo, hi - lo;
    }
  }

  /** Every fragment free in b is free in a. */
  ghost predicate Within(b: seq<bool>, a: seq<bool>) {
    |a| == |b| && forall i :: 0 <= i < |b| && b[i] ==> a[i]
  }

  lemma NoneInLess(a: seq<bool>, b: seq<bool>, frag: nat, size: nat)
    requires Within(b, a) && !CanTake(a, frag, size)
    ensures !CanTake(b, frag, size)
  {
    hide IsRun;
    if k: nat, h: nat, p: nat :| size <= k <= frag && RunIn(b, frag, h, p, k) {
      var x, y := Block(a, frag, h), Block(b, frag, h);
      RunBits(y, p, k);
      forall i | p <= i < p + k
        ensures x[i]
      {
        assert b[h * frag + i] == y[i];
      }
      var q, m := RunAround(x, p, p + k);
      RunBits(x, q, m);
      assert RunIn(a, frag, h, q, m);
    }
  }

  lemma RunBits(s: seq<bool>, p: nat, k: nat)
    requires IsRun(s, p, k)
    ensures k > 0 && p + k <= |s| && forall i :: p <= i < p + k ==> s[i]
  {}

  lemma TakenLess(geo: Geo, s: State, t: State, cg: nat, rel: nat, n: nat, c: nat)
    requires Taken(geo, s, t, cg, rel, n) && c < geo.ncg
    ensures Within(t.frees[c], s.frees[c])
  {
    hide Range;
  }

  lemma StepLess(geo: Geo, h: History, j: nat, c: nat)
    requires Told(geo, h) && j < |h.ops| && c < geo.ncg && !FreesIn(geo, h, j, c)
    ensures |h.trace[j].frees| == |h.trace[j + 1].frees| == geo.ncg
    ensures Within(h.trace[j + 1].frees[c], h.trace[j].frees[c])
  {
    hide AllocFrom, FirstIn, Order, CansOf, Picked, Held, Taken, Range, Fill, CanTake, BestTake, HasRow, FirstRow, Geo.NDblk,
      Geo.Reserved, Geo.Dtog, Geo.Dtogd, AllSet;
    var s, t, op, addr := h.trace[j], h.trace[j + 1], h.ops[j], h.addrs[j];
    assert Step(geo, s, op, addr, t);
    assert Proper(geo, s) && Proper(geo, t);
    if t != s && Sensible(geo, s.live, op) {
      match op
      case Try(cg, pref, size, rsize) =>
        AllocTaken(geo, s, t, size, rsize, addr, cg, pref);
        TakenLess(geo, s, t, cg, addr - geo.Base(cg), rsize, c);
      case Alloc(icg, pref, size, rsize) =>
        var cg := AllocGroup(geo, s, t, icg, pref, size, rsize, addr);
        AllocTaken(geo, s, t, size, rsize, addr, cg, if cg == icg then pref else 0);
        TakenLess(geo, s, t, cg, addr - geo.Base(cg), rsize, c);
      case Cluster(cg, _, len) =>
        TakenLess(geo, s, t, cg, addr - geo.Base(cg), len * geo.frag, c);
      case Extend(k, nsize) =>
        var e := s.live[k];
        TakenLess(geo, s, t, geo.Dtog(e.addr), geo.Dtogd(e.addr) + e.n, nsize - e.n, c);
      case Free(k, keep) =>
        assert geo.Dtog(s.live[k].addr) != c;
    }
  }

  lemma {:induction false} StaysLess(geo: Geo, h: History, j: nat, m: nat, c: nat)
    requires Told(geo, h) && j <= m <= |h.ops| && c < geo.ncg
    requires forall i :: j <= i < m ==> !FreesIn(geo, h, i, c)
    ensures |h.trace[j].frees| == |h.trace[m].frees| == geo.ncg && Within(h.trace[m].frees[c], h.trace[j].frees[c])
  {
    hide Held, Step, FreesIn;
    assert Proper(geo, h.trace[m]) && Proper(geo, h.trace[j]);
    if j < m {
      StaysLess(geo, h, j, m - 1, c);
      StepLess(geo, h, m - 1, c);
    }
  }

  // ----- what the 0 of a search means -----

  /** A refusal says that the group could not give the extent at that moment. */
  lemma RefusedThen(geo: Geo, h: History, j: nat, c: nat, size: nat, rsize: nat)
    requires Told(geo, h) && Refused(geo, h, j, c, size, rsize)
    ensures c < |h.trace[j].frees| && !CanTake(h.trace[j].frees[c], geo.frag, size)
  {
    hide Held, CanTake, AllocFrom;
    assert Step(geo, h.trace[j], h.ops[j], h.addrs[j], h.trace[j + 1]);
  }

  /** If the group can give it at the end, then fragments were freed in it after it was tried. */
  lemma OnlyByFree(geo: Geo, h: History, j: nat, c: nat, size: nat, rsize: nat) returns (i: nat)
    requires Told(geo, h) && Refused(geo, h, j, c, size, rsize)
    requires c < |Last(h).frees| && CanTake(Last(h).frees[c], geo.frag, size)
    ensures j < i < |h.ops| && FreesIn(geo, h, i, c)
  {
    hide Run, CanTake, Within, FreesIn, Sensible;
    RunSizes(geo, h);
    RefusedThen(geo, h, j, c, size, rsize);
    if forall i :: j <= i < |h.ops| ==> !FreesIn(geo, h, i, c) {
      StaysLess(geo, h, j, |h.ops|, c);
      NoneInLess(h.trace[j].frees[c], Last(h).frees[c], geo.frag, size);
      assert false;
    }
    i :| j <= i < |h.ops| && FreesIn(geo, h, i, c);
    TryFreesNot(geo, h, j, c);
  }

  lemma RunSizes(geo: Geo, h: History)
    requires Told(geo, h)
    ensures |h.trace| == |h.ops| + 1 && |h.addrs| == |h.ops|
    ensures forall j :: 0 <= j <= |h.ops| ==> |h.trace[j].frees| == geo.ncg
  {
    hide Held, Step;
    forall j | 0 <= j <= |h.ops|
      ensures |h.trace[j].frees| == geo.ncg
    {
      assert Proper(geo, h.trace[j]);
    }
  }

  lemma TryFreesNot(geo: Geo, h: History, j: nat, c: nat)
    requires j < |h.ops| && h.ops[j].Try?
    ensures !FreesIn(geo, h, j, c)
  {}

  /** All groups were tried and refused, at[c] being the step for group c. */
  ghost predicate AllRefused(geo: Geo, h: History, at: map<nat, nat>, size: nat, rsize: nat) {
    forall c: nat :: c < geo.ncg ==> c in at && Refused(geo, h, at[c], c, size, rsize)
  }

  /** So a search that nobody frees anything during tells the truth: when it returns 0, no group can give the extent. */
  lemma ZeroNow(geo: Geo, h: History, at: map<nat, nat>, size: nat, rsize: nat)
    requires Told(geo, h) && AllRefused(geo, h, at, size, rsize)
    requires forall i, c :: 0 <= i < |h.ops| && 0 <= c < geo.ncg ==> !FreesIn(geo, h, i, c)
    ensures |h.trace| > 0 && |Last(h).frees| == geo.ncg
    ensures forall c :: 0 <= c < geo.ncg ==> !CanTake(Last(h).frees[c], geo.frag, size)
  {
    hide Run, CanTake, FreesIn, Refused;
    RunSizes(geo, h);
    forall c | 0 <= c < geo.ncg
      ensures !CanTake(Last(h).frees[c], geo.frag, size)
    {
      if CanTake(Last(h).frees[c], geo.frag, size) {
        var i := OnlyByFree(geo, h, at[c], c, size, rsize);
        assert false;
      }
    }
  }

  // ----- the code -----

  lemma RunJoin(geo: Geo, h: History, k: History)
    requires Told(geo, h) && Told(geo, k) && Last(h) == k.trace[0]
    ensures Told(geo, History(h.trace + k.trace[1..], h.ops + k.ops, h.addrs + k.addrs))
  {
    hide Step, Proper;
    var r := History(h.trace + k.trace[1..], h.ops + k.ops, h.addrs + k.addrs);
    forall j | 0 <= j < |r.ops|
      ensures Step(geo, r.trace[j], r.ops[j], r.addrs[j], r.trace[j + 1])
    {
      if j < |h.ops| {
        assert Step(geo, h.trace[j], h.ops[j], h.addrs[j], h.trace[j + 1]);
      } else {
        var i := j - |h.ops|;
        assert Step(geo, k.trace[i], k.ops[i], k.addrs[i], k.trace[i + 1]);
      }
    }
  }

  /** Earlier refusals remain in the run as it goes on. */
  lemma RefusedStays(geo: Geo, h: History, k: History, j: nat, c: nat, size: nat, rsize: nat)
    requires Continued(h, k) && Refused(geo, h, j, c, size, rsize) && |k.ops| == |k.addrs|
    ensures Refused(geo, k, j, c, size, rsize)
  {
    assert k.ops[j] == h.ops[j] && k.addrs[j] == h.addrs[j];
  }

  /** One try of the search and, after a refusal, what the other threads do before the next. */
  method Turn(fs: FileSystem, live0: seq<Extent>, cg: nat, pref: nat, size: nat, rsize: nat, others: seq<Op>, ghost h: History)
    returns (addr: nat, live: seq<Extent>, ghost k: History)
    requires Session(fs, live0) && cg < fs.geo.ncg && Fitting(fs.geo, pref, size, rsize)
    requires Told(fs.geo, h) && Last(h) == StateOf(fs, live0)
    modifies fs, fs.csNbfree, fs.csNffree, fs.Objects()
    ensures Session(fs, live) && Stock(fs, live) == old(Stock(fs, live0))
    ensures Told(fs.geo, k) && Last(k) == StateOf(fs, live) && Continued(h, k)
    ensures addr == 0 ==> Refused(fs.geo, k, |h.ops|, cg, size, rsize) && k.ops == h.ops + [Try(cg, pref, size, rsize)] + others
    ensures addr != 0 ==> k.ops == h.ops + [Try(cg, pref, size, rsize)] && k.addrs == h.addrs + [addr]
  {
    hide Session, Stock, StateOf, Step, Proper, Fitting;
    var op := Try(cg, pref, size, rsize);
    SessionHeld(fs, live0);
    ghost var s := StateOf(fs, live0);
    addr, live := DoTry(fs, live0, cg, pref, size, rsize);
    SessionHeld(fs, live);
    ghost var one := History([s, StateOf(fs, live)], [op], [addr]);
    assert Step(fs.geo, s, op, addr, StateOf(fs, live)) by { TryIsStep(fs.geo, s, op, addr, StateOf(fs, live)); }
    RunJoin(fs.geo, h, one);
    k := History(h.trace + one.trace[1..], h.ops + [op], h.addrs + [addr]);
    if addr == 0 {
      ghost var m := k;
      var adrs;
      ghost var trace;
      live, adrs, trace := Serve(fs, live, others);
      ghost var rest := History(trace, others, adrs);
      RunJoin(fs.geo, m, rest);
      k := History(m.trace + trace[1..], m.ops + others, m.addrs + adrs);
      assert m.ops <= k.ops && k.ops[|h.ops|] == op && k.addrs[|h.ops|] == 0;
    }
  }

  lemma TryIsStep(geo: Geo, s: State, op: Op, addr: nat, t: State)
    requires op.Try? && Sensible(geo, s.live, op) && TryStep(geo, s, t, op.cg, op.pref, op.size, op.rsize, addr)
    ensures Step(geo, s, op, addr, t)
  {
    hide TryStep;
  }

  /** No other thread frees anything. */
  ghost predicate Quiet(others: nat -> seq<Op>) {
    forall n: nat :: NoFree(others(n))
  }

  predicate NoFree(ops: seq<Op>) {
    forall i :: 0 <= i < |ops| ==> !ops[i].Free?
  }

  /** What a search is for. */
  datatype Wish = Wish(pref: nat, size: nat, rsize: nat)

  /** Its try number n, in group c: only the first looks at the preferred address. */
  function TryAt(w: Wish, n: nat, c: nat): Op {
    Try(c, if n == 0 then w.pref else 0, w.size, w.rsize)
  }

  /** The steps of a search that is refused in the given groups one after the other, when the other threads do others(n)
      after its try n. */
  function Plan(groups: seq<nat>, w: Wish, others: nat -> seq<Op>): seq<Op> {
    if groups == [] then []
    else
      var n := |groups| - 1;
      Plan(groups[..n], w, others) + [TryAt(w, n, groups[n])] + others(n)
  }

  lemma PlanMore(groups: seq<nat>, c: nat, w: Wish, others: nat -> seq<Op>)
    ensures Plan(groups + [c], w, others) == Plan(groups, w, others) + [TryAt(w, |groups|, c)] + others(|groups|)
  {
    assert (groups + [c])[..|groups|] == groups;
  }

  /** The groups tried so far were refused, at[c] being the step for group c, and the run frees nothing if the other
      threads do not. */
  ghost predicate Searching(geo: Geo, h: History, at: map<nat, nat>, tried: seq<nat>, w: Wish, others: nat -> seq<Op>) {
    && Told(geo, h) && h.ops == Plan(tried, w, others)
    && (forall c: nat :: c in tried ==> c in at) && (forall c: nat :: c in at ==> Refused(geo, h, at[c], c, w.size, w.rsize))
    && (Quiet(others) ==> NoFree(h.ops))
  }

  /** After these refusals the try in group c gave the extent. */
  ghost predicate Granted(h: History, addr: nat, tried: seq<nat>, c: nat, w: Wish, others: nat -> seq<Op>) {
    && h.ops == Plan(tried, w, others) + [TryAt(w, |tried|, c)]
    && |h.addrs| == |h.ops| && h.addrs[|h.addrs| - 1] == addr
  }

  lemma SearchGoesOn(geo: Geo, h: History, k: History, at: map<nat, nat>, tried: seq<nat>, cg: nat, w: Wish, others: nat -> seq<Op>)
    requires Searching(geo, h, at, tried, w, others) && Told(geo, k) && Continued(h, k)
    requires Refused(geo, k, |h.ops|, cg, w.size, w.rsize) && k.ops == h.ops + [TryAt(w, |tried|, cg)] + others(|tried|)
    ensures Searching(geo, k, at[cg := |h.ops|], tried + [cg], w, others)
  {
    hide Refused, Run, Continued, Plan;
    RunSizes(geo, k);
    PlanMore(tried, cg, w, others);
    forall c: nat | c in at
      ensures Refused(geo, k, at[c], c, w.size, w.rsize)
    {
      RefusedStays(geo, h, k, at[c], c, w.size, w.rsize);
    }
    if Quiet(others) {
      assert NoFree(others(|tried|));
    }
  }

  /** One turn, and the record of it. */
  method Probe(fs: FileSystem, live0: seq<Extent>, cg: nat, w: Wish, others: nat -> seq<Op>, n: nat,
               ghost h: History, ghost at: map<nat, nat>, ghost tried: seq<nat>)
    returns (addr: nat, live: seq<Extent>, ghost k: History, ghost at': map<nat, nat>)
    requires Session(fs, live0) && cg < fs.geo.ncg && Fitting(fs.geo, w.pref, w.size, w.rsize) && n == |tried|
    requires Searching(fs.geo, h, at, tried, w, others) && |h.trace| > 0 && Last(h) == StateOf(fs, live0)
    modifies fs, fs.csNbfree, fs.csNffree, fs.Objects()
    ensures Session(fs, live) && Stock(fs, live) == old(Stock(fs, live0))
    ensures Told(fs.geo, k) && |k.trace| > 0 && k.trace[0] == h.trace[0] && Last(k) == StateOf(fs, live)
    ensures addr == 0 ==> Searching(fs.geo, k, at', tried + [cg], w, others)
    ensures addr != 0 ==> Granted(k, addr, tried, cg, w, others)
  {
    hide Session, Stock, StateOf, Run, Refused, Quiet, Fitting, Plan;
    FittingAnywhere(fs.geo, w.pref, w.size, w.rsize);
    addr, live, k := Turn(fs, live0, cg, if n == 0 then w.pref else 0, w.size, w.rsize, others(n), h);
    at' := at;
    RunSizes(fs.geo, k);
    if addr == 0 {
      SearchGoesOn(fs.geo, h, k, at, tried, cg, w, others);
      at' := at[cg := |h.ops|];
    }
  }

  /** The groups of the order up to this one. */
  ghost predicate Follows(order: seq<nat>, tried: seq<nat>, c: nat) {
    tried + [c] <= order
  }

  /** The second part of the search, from group icg, which was refused, on. */
  method QuadraticRehash(fs: FileSystem, live0: seq<Extent>, icg: nat, w: Wish, others: nat -> seq<Op>, ghost h0: History,
                         ghost at0: map<nat, nat>)
    returns (result: nat, live: seq<Extent>, n: nat, ghost h: History, ghost at: map<nat, nat>, ghost tried: seq<nat>, ghost last: nat)
    requires Session(fs, live0) && icg < fs.geo.ncg && Fitting(fs.geo, w.pref, w.size, w.rsize) && fs.geo.Searchable()
    requires Searching(fs.geo, h0, at0, [icg], w, others) && |h0.trace| > 0 && Last(h0) == StateOf(fs, live0)
    modifies fs, fs.csNbfree, fs.csNffree, fs.Objects()
    ensures Session(fs, live) && Stock(fs, live) == old(Stock(fs, live0))
    ensures Told(fs.geo, h) && |h.trace| > 0 && h.trace[0] == h0.trace[0] && Last(h) == StateOf(fs, live)
    ensures result == 0 ==> Searching(fs.geo, h, at, tried, w, others) && n == |tried|
    ensures result == 0 ==> Order(icg, fs.geo.ncg) == tried + Rest(icg, 2, fs.geo.ncg)
    ensures result != 0 ==> Granted(h, result, tried, last, w, others) && Follows(Order(icg, fs.geo.ncg), tried, last)
  {
    hide Session, Stock, StateOf, Told, Slot, Quiet, Fitting, Searching, Granted, Twice, Pow2, Rehash, Rest;
    var ncg := fs.geo.ncg;
    result, live, h, at, tried, last := 0, live0, h0, at0, [icg], icg;
    var c: nat, i: nat := icg, 1;
    n := 1;
    ghost var k: nat, order := 0, Order(icg, ncg);
    Pow2Zero();
    SlotIsNext(icg, 0, ncg);
    ToldOf(fs.geo, h, at, tried, w, others);
    while i < ncg
      invariant Session(fs, live) && Stock(fs, live) == old(Stock(fs, live0)) && result == 0
      invariant Searching(fs.geo, h, at, tried, w, others) && n == |tried|
      invariant Told(fs.geo, h) && |h.trace| > 0 && h.trace[0] == h0.trace[0] && Last(h) == StateOf(fs, live)
      invariant i == Pow2(k) && i >= 1 && c == Slot(icg, i - 1, ncg)
      invariant order == tried + Rehash(icg, k, ncg) + Rest(icg, 2, ncg)
      decreases ncg - i
    {
      SlotAdd(icg, i - 1, i, ncg);
      RehashStep(icg, k, ncg);
      c := c + i;
      if c >= ncg {
        c := c - ncg;
      }
      last := c;
      result, live, h, at := Probe(fs, live, c, w, others, n, h, at, tried);
      if result != 0 {
        return;
      }
      tried := tried + [c];
      n := n + 1;
      NoWrap(i);
      i := Twice(i);
      k := k + 1;
    }
    RehashOver(icg, k, ncg);
  }

  /** The last part of the search: every group that may not have been tried yet, in turn. */
  method BruteForce(fs: FileSystem, live0: seq<Extent>, icg: nat, w: Wish, others: nat -> seq<Op>, n0: nat, ghost h0: History,
                    ghost at0: map<nat, nat>, ghost tried0: seq<nat>)
    returns (result: nat, live: seq<Extent>, ghost h: History, ghost at: map<nat, nat>, ghost tried: seq<nat>, ghost last: nat)
    requires Session(fs, live0) && icg < fs.geo.ncg && Fitting(fs.geo, w.pref, w.size, w.rsize) && n0 == |tried0|
    requires Searching(fs.geo, h0, at0, tried0, w, others) && |h0.trace| > 0 && Last(h0) == StateOf(fs, live0)
    requires Order(icg, fs.geo.ncg) == tried0 + Rest(icg, 2, fs.geo.ncg)
    modifies fs, fs.csNbfree, fs.csNffree, fs.Objects()
    ensures Session(fs, live) && Stock(fs, live) == old(Stock(fs, live0))
    ensures Told(fs.geo, h) && |h.trace| > 0 && h.trace[0] == h0.trace[0] && Last(h) == StateOf(fs, live)
    ensures result == 0 ==> Searching(fs.geo, h, at, Order(icg, fs.geo.ncg), w, others)
    ensures result != 0 ==> Granted(h, result, tried, last, w, others) && Follows(Order(icg, fs.geo.ncg), tried, last)
  {
    hide Session, Stock, StateOf, Told, Slot, Quiet, Fitting, Searching, Granted, Order, Rest;
    var ncg := fs.geo.ncg;
    var c, i, n := Slot(icg, 2, ncg), 2, n0;
    result, live, h, at, tried, last := 0, live0, h0, at0, tried0, icg;
    ToldOf(fs.geo, h, at, tried, w, others);
    while i < ncg
      invariant Session(fs, live) && Stock(fs, live) == old(Stock(fs, live0)) && result == 0
      invariant Searching(fs.geo, h, at, tried, w, others) && n == |tried|
      invariant Told(fs.geo, h) && |h.trace| > 0 && h.trace[0] == h0.trace[0] && Last(h) == StateOf(fs, live)
      invariant 2 <= i && c == Slot(icg, i, ncg) && Order(icg, ncg) == tried + Rest(icg, i, ncg)
    {
      RestStep(icg, i, ncg);
      last := c;
      result, live, h, at := Probe(fs, live, c, w, others, n, h, at, tried);
      if result != 0 {
        return;
      }
      tried := tried + [c];
      n := n + 1;
      SlotStep(icg, i, ncg);
      c := c + 1;
      if c == ncg {
        c := 0;
      }
      i := i + 1;
    }
    assert Order(icg, ncg) == tried by { RestOver(icg, i, ncg); }
  }

  /**
    * ffs_hashalloc with others at work between its tries: after try n the other threads do others(n). It tries the groups in
    * its order, the first for the preferred address. It returns 0 when every group was refused at the moment it was tried; if
    * nothing was freed meanwhile, no group can give the extent now. Otherwise the last step of the run is the first try
    * that succeeds.
    */
  method Search(fs: FileSystem, live0: seq<Extent>, icg: nat, w: Wish, others: nat -> seq<Op>)
    returns (result: nat, live: seq<Extent>, ghost h: History, ghost at: map<nat, nat>, ghost tried: seq<nat>, ghost last: nat)
    requires Session(fs, live0) && icg < fs.geo.ncg && Fitting(fs.geo, w.pref, w.size, w.rsize) && fs.geo.Searchable()
    modifies fs, fs.csNbfree, fs.csNffree, fs.Objects()
    ensures Session(fs, live) && Stock(fs, live) == old(Stock(fs, live0))
    ensures Told(fs.geo, h) && h.trace[0] == old(StateOf(fs, live0)) && Last(h) == StateOf(fs, live)
    ensures result == 0 ==> h.ops == Plan(Order(icg, fs.geo.ncg), w, others) && AllRefused(fs.geo, h, at, w.size, w.rsize)
    ensures result == 0 && Quiet(others) ==> forall c :: 0 <= c < |Last(h).frees| ==> !CanTake(Last(h).frees[c], fs.geo.frag, w.size)
    ensures result != 0 ==> Granted(h, result, tried, last, w, others) && Follows(Order(icg, fs.geo.ncg), tried, last)
  {
    hide Session, Stock, StateOf, Told, Quiet, CanTake, Fitting, Searching, Granted, Rehash, Rest, AllRefused;
    SessionHeld(fs, live0);
    ghost var s := StateOf(fs, live0);
    h, at, tried, last := History([s], [], []), map[], [], icg;
    JustBegun(fs.geo, s, w, others);
    result, live, h, at := Probe(fs, live0, icg, w, others, 0, h, at, []);
    if result != 0 {
      return;
    }
    assert [] + [icg] == [icg];
    var n;
    result, live, n, h, at, tried, last := QuadraticRehash(fs, live, icg, w, others, h, at);
    if result != 0 {
      return;
    }
    result, live, h, at, tried, last := BruteForce(fs, live, icg, w, others, n, h, at, tried);
    if result == 0 {
      SearchedAll(fs.geo, h, at, icg, w, others);
    }
  }

  lemma RestOver(icg: nat, i: nat, ncg: nat)
    requires 0 < ncg <= i
    ensures Rest(icg, i, ncg) == []
  {}

  lemma ToldOf(geo: Geo, h: History, at: map<nat, nat>, tried: seq<nat>, w: Wish, others: nat -> seq<Op>)
    requires Searching(geo, h, at, tried, w, others)
    ensures Told(geo, h)
  {}

  lemma FittingAnywhere(geo: Geo, pref: nat, size: nat, rsize: nat)
    requires Fitting(geo, pref, size, rsize)
    ensures Fitting(geo, 0, size, rsize)
  {}

  lemma JustBegun(geo: Geo, s: State, w: Wish, others: nat -> seq<Op>)
    requires Proper(geo, s)
    ensures Searching(geo, History([s], [], []), map[], [], w, others)
  {}

  lemma SearchedAll(geo: Geo, h: History, at: map<nat, nat>, icg: nat, w: Wish, others: nat -> seq<Op>)
    requires icg < geo.ncg && Searching(geo, h, at, Order(icg, geo.ncg), w, others)
    ensures h.ops == Plan(Order(icg, geo.ncg), w, others) && AllRefused(geo, h, at, w.size, w.rsize) && |h.trace| > 0
    ensures Quiet(others) ==> forall c :: 0 <= c < |Last(h).frees| ==> !CanTake(Last(h).frees[c], geo.frag, w.size)
  {
    hide Run, Refused, CanTake, Quiet, Order, Plan;
    forall c: nat | c < geo.ncg
      ensures c in at
    {
      OrderCovers(icg, geo.ncg, c);
    }
    RunSizes(geo, h);
    if Quiet(others) {
      ZeroNow(geo, h, at, w.size, w.rsize);
    }
  }

  // ----- why the condition is needed -----

  /** Two groups, each with one fragment of metadata and one of data, both data fragments held. */
  const Twin: Geo := Geo(1, 2, 2, 4, 0, 0, 1, 0, 0)

  function TwinMap(free: bool): seq<bool> {
    [false, free, false, false, false, false, false, false]
  }

  function TwinState(free: bool): State {
    State([TwinMap(free), TwinMap(false)], [if free then {} else {1}, {1}], [Rotors(0, 0), Rotors(0, 0)],
          (if free then [] else [Extent(1, 1)]) + [Extent(3, 1)])
  }

  /** Group 0 is tried and refused; the extent in it is freed; group 1 is tried and refused. */
  function TwinRun(): History {
    History([TwinState(false), TwinState(false), TwinState(true), TwinState(true)],
            [Try(0, 0, 1, 1), Free(0, 0), Try(1, 0, 1, 1)], [0, 0, 0])
  }

  lemma RunNeedsFree(free: seq<bool>, frag: nat, h: nat, p: nat, k: nat) returns (i: nat)
    requires RunIn(free, frag, h, p, k)
    ensures i < |free| && free[i]
  {
    hide IsRun;
    RunBits(Block(free, frag, h), p, k);
    i := h * frag + p;
    assert Block(free, frag, h)[p];
  }

  lemma NoneAtAll(free: seq<bool>, frag: nat, size: nat)
    requires forall i :: 0 <= i < |free| ==> !free[i]
    ensures !CanTake(free, frag, size)
  {
    hide RunIn;
    if k: nat, h: nat, p: nat :| size <= k <= frag && RunIn(free, frag, h, p, k) {
      var i := RunNeedsFree(free, frag, h, p, k);
      assert false;
    }
  }

  lemma TwinNone()
    ensures !CanTake(TwinMap(false), 1, 1) && CanTake(TwinMap(true), 1, 1)
  {
    NoneAtAll(TwinMap(false), 1, 1);
    assert RunIn(TwinMap(true), 1, 1, 0, 1);
  }

  lemma TwinProper(free: bool)
    ensures Proper(Twin, TwinState(free))
  {
    var s := TwinState(free);
    forall d: nat
      ensures OwnedAt(Twin, s.owns, d) <==> exists i :: 0 <= i < |s.live| && Covers(s.live[i], d)
    {
      if d == 1 && !free {
        assert Covers(s.live[0], 1);
      }
      if d == 3 {
        assert Covers(s.live[|s.live| - 1], 3);
      }
    }
  }

  lemma TwinPlan()
    ensures Order(0, 2) == [0, 1]
    ensures [Try(0, 0, 1, 1), Free(0, 0), Try(1, 0, 1, 1)] == Plan([0, 1], Wish(0, 1, 1), n => if n == 0 then [Free(0, 0)] else [])
  {
    assert Pow2(0) == 1 && Pow2(1) == 2;
    RehashStep(0, 0, 2);
    RehashOver(0, 1, 2);
    assert Slot(0, 1, 2) == 1;
    var others := n => if n == 0 then [Free(0, 0)] else [];
    assert [0, 1][..1] == [0] && [0][..0] == [];
    assert Plan([0], Wish(0, 1, 1), others) == [Try(0, 0, 1, 1), Free(0, 0)];
  }

  /** The search ends with 0 although group 0 can give the extent: every group was refused when it was tried, and
      that is all a 0 says. */
  lemma ZeroTooLate()
    ensures Told(Twin, TwinRun()) && AllRefused(Twin, TwinRun(), map[0 := 0, 1 := 2], 1, 1)
    ensures CanTake(Last(TwinRun()).frees[0], Twin.frag, 1)
    ensures TwinRun().ops == Plan(Order(0, Twin.ncg), Wish(0, 1, 1), n => if n == 0 then [Free(0, 0)] else [])
  {
    TwinPlan();
    TwinNone();
    TwinProper(false);
    TwinProper(true);
    hide CanTake, Held;
    var h := TwinRun();
    assert Step(Twin, h.trace[0], h.ops[0], h.addrs[0], h.trace[1]);
    assert Step(Twin, h.trace[2], h.ops[2], h.addrs[2], h.trace[3]);
    assert Step(Twin, h.trace[1], h.ops[1], h.addrs[1], h.trace[2]) by {
      assert Twin.Dtog(1) == 0 && Twin.Dtogd(1) == 1;
      assert Fill(TwinMap(false), 1, 1, true) == TwinMap(true);
      assert Range(1, 1) == {1};
    }
  }
}
