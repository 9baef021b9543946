/** The TRIM consolidator of ffs_alloc.c: freed blocks are gathered into contiguous requests, the
    device is told to unmap each request, and only a later task puts the blocks back into the
    free map. The snapshot hook is taken to decline every block. The calls are specified by Next, a
    function on the values of the queue; the class works them out in place. */
module Trim {
  import opened Arith

  const NOTRIM_KEY := 1
  const SINGLETON_KEY := 2
  const FIRST_VALID_KEY := 3

  /** One ffs_blkfree call. */
  datatype Blk = Blk(bno: nat, frags: nat)

  /** struct ffs_blkfree_trim_params: the range [bno, bno + frags) and the blocks it is made of. */
  datatype Request = Request(key: nat, bno: nat, frags: nat, blks: seq<Blk>)

  /** The blocks tile the range from lo to hi, in order and without gaps. */
  predicate Tiles(blks: seq<Blk>, lo: nat, hi: nat) {
    if blks == [] then lo == hi
    else blks[0].bno == lo && blks[0].frags > 0 && Tiles(blks[1..], lo + blks[0].frags, hi)
  }

  predicate WellFormed(r: Request) {
    Tiles(r.blks, r.bno, r.bno + r.frags)
  }

  lemma {:induction false} TilesTail(blks: seq<Blk>, lo: nat, hi: nat, b: Blk)
    requires Tiles(blks, lo, hi) && b.bno == hi && b.frags > 0
    ensures Tiles(blks + [b], lo, hi + b.frags)
  {
    if blks == [] {
      assert (blks + [b])[1..] == [];
    } else {
      assert (blks + [b])[1..] == blks[1..] + [b];
      TilesTail(blks[1..], lo + blks[0].frags, hi, b);
    }
  }

  lemma TilesHead(blks: seq<Blk>, lo: nat, hi: nat, b: Blk)
    requires Tiles(blks, lo, hi) && b.bno + b.frags == lo && b.frags > 0
    ensures Tiles([b] + blks, b.bno, hi)
  {
    assert ([b] + blks)[1..] == blks;
  }

  lemma {:induction false} TilesOrder(blks: seq<Blk>, lo: nat, hi: nat)
    requires Tiles(blks, lo, hi)
    ensures lo <= hi && (lo == hi <==> blks == [])
  {
    if blks != [] {
      TilesOrder(blks[1..], lo + blks[0].frags, hi);
    }
  }

  /** Each block of a tiling lies inside the range. */
  lemma {:induction false} TilesInside(blks: seq<Blk>, lo: nat, hi: nat, k: nat)
    requires Tiles(blks, lo, hi) && k < |blks|
    ensures lo <= blks[k].bno && blks[k].bno + blks[k].frags <= hi
  {
    TilesOrder(blks[1..], lo + blks[0].frags, hi);
    if k > 0 {
      TilesInside(blks[1..], lo + blks[0].frags, hi, k - 1);
    }
  }

  /** All blocks held by a list of requests. */
  function Held(rs: seq<Request>): multiset<Blk> {
    if rs == [] then multiset{} else multiset(rs[0].blks) + Held(rs[1..])
  }

  function Frags(rs: seq<Request>): nat {
    if rs == [] then 0 else rs[0].frags + Frags(rs[1..])
  }

  function Without(rs: seq<Request>, i: nat): seq<Request>
    requires i < |rs|
  {
    rs[..i] + rs[i + 1..]
  }

  lemma {:induction false} HeldWithout(rs: seq<Request>, i: nat)
    requires i < |rs|
    ensures Held(rs) == Held(Without(rs, i)) + multiset(rs[i].blks)
    ensures Frags(rs) == Frags(Without(rs, i)) + rs[i].frags
  {
    if i == 0 {
      assert Without(rs, 0) == rs[1..];
    } else {
      assert Without(rs, i)[1..] == Without(rs[1..], i - 1);
      HeldWithout(rs[1..], i - 1);
    }
  }

  lemma HeldUpdate(rs: seq<Request>, i: nat, r: Request)
    requires i < |rs|
    ensures Held(rs[i := r]) == Held(Without(rs, i)) + multiset(r.blks)
  {
    assert Without(rs[i := r], i) == Without(rs, i);
    HeldWithout(rs[i := r], i);
  }

  lemma HeldCons(r: Request, rs: seq<Request>)
    ensures Held([r] + rs) == multiset(r.blks) + Held(rs) && Frags([r] + rs) == r.frags + Frags(rs)
  {
    assert ([r] + rs)[1..] == rs;
  }

  predicate UniqueKeys(rs: seq<Request>) {
    forall i, j :: 0 <= i < j < |rs| ==> rs[i].key != rs[j].key
  }

  /** The block continues the request's range, at either end, or is its first. */
  predicate Continues(r: Request, b: Blk) {
    r.frags == 0 || b.bno + b.frags == r.bno || b.bno == r.bno + r.frags
  }

  /** The range of a request with the block added. */
  function Joined(r: Request, b: Blk): Request {
    if r.frags == 0 then Request(r.key, b.bno, b.frags, [b])
    else if b.bno + b.frags == r.bno then Request(r.key, b.bno, r.frags + b.frags, [b] + r.blks)
    else Request(r.key, r.bno, r.frags + b.frags, r.blks + [b])
  }

  /** The calls of the interface, and the completion of the i-th queued request. */
  datatype Call =
    | StartCall(candelete: bool, dotrimcons: bool)
    | FreeCall(b: Blk, key: nat, candelete: bool)
    | FinishCall(key: nat, candelete: bool, dotrimcons: bool)
    | TaskCall(i: nat)

  /** Everything the consolidator has done and still has to do. */
  datatype View = View(
    hash: seq<Request>,        // requests being collected, one per key handed out
    tasks: seq<Request>,       // requests unmapped, waiting for their completion task
    masterkey: nat,
    issued: seq<Request>,      // every unmap sent to the device, latest first
    completed: seq<Request>,   // every request whose completion task has run, latest first
    submitted: multiset<Blk>,  // every block passed to ffs_blkfree
    untrimmed: multiset<Blk>,  // those freed at once because no TRIM was wanted
    freed: multiset<Blk>)      // every block put back into the free map

  /** The position of a key in a list of requests. */
  function IndexOf(rs: seq<Request>, key: nat): (i: nat)
    requires key in Keys(rs)
    ensures i < |rs| && rs[i].key == key && forall j :: 0 <= j < i ==> rs[j].key != key
  {
    if rs[0].key == key then 0 else 1 + IndexOf(rs[1..], key)
  }

  /** The key handed out next. */
  function NewKey(masterkey: nat): nat {
    if masterkey < FIRST_VALID_KEY then FIRST_VALID_KEY else masterkey
  }

  function Sent(v: View, r: Request): View {
    v.(tasks := [r] + v.tasks, issued := [r] + v.issued)
  }

  /** A call that a caller may make: blocks are not empty, and a key was handed out and not yet finished. */
  predicate Allowed(v: View, c: Call) {
    match c
    case StartCall(_, _) => true
    case FreeCall(b, key, candelete) =>
      b.frags > 0 && (key == NOTRIM_KEY || key == SINGLETON_KEY || !candelete || key in Keys(v.hash))
    case FinishCall(key, candelete, dotrimcons) =>
      !candelete || !dotrimcons || key == SINGLETON_KEY || key in Keys(v.hash)
    case TaskCall(i) => i < |v.tasks|
  }

  /** A block collected under a key: the range grows, or it goes to the device and the block begins a new one. */
  function Gathered(v: View, b: Blk, key: nat): View
    requires key in Keys(v.hash)
  {
    var i := IndexOf(v.hash, key);
    if Continues(v.hash[i], b) then v.(hash := v.hash[i := Joined(v.hash[i], b)])
    else Sent(v.(hash := [Request(key, b.bno, b.frags, [b])] + Without(v.hash, i)), v.hash[i])
  }

  /** What each call does. */
  function Next(v: View, c: Call): View
    requires Allowed(v, c)
  {
    match c
    case StartCall(candelete, dotrimcons) =>
      if !candelete || !dotrimcons then v
      else
        var key := NewKey(v.masterkey);
        v.(hash := [Request(key, 0, 0, [])] + v.hash, masterkey := key + 1)
    case FreeCall(b, key, candelete) =>
      var w := v.(submitted := v.submitted + multiset{b});
      if key == NOTRIM_KEY || !candelete then w.(freed := w.freed + multiset{b}, untrimmed := w.untrimmed + multiset{b})
      else if key == SINGLETON_KEY then Sent(w, Request(key, b.bno, b.frags, [b]))
      else Gathered(w, b, key)
    case FinishCall(key, candelete, dotrimcons) =>
      if !candelete || !dotrimcons || key == SINGLETON_KEY then v
      else
        var i := IndexOf(v.hash, key);
        var w := v.(hash := Without(v.hash, i));
        if v.hash[i].frags == 0 then w else Sent(w, v.hash[i])
    case TaskCall(i) =>
      var r := v.tasks[i];
      v.(tasks := Without(v.tasks, i), completed := [r] + v.completed, freed := v.freed + multiset(r.blks))
  }

  /** What a sequence of calls does; calls that no caller may make are skipped. */
  function After(v: View, calls: seq<Call>): View {
    if calls == [] then v
    else
      var w, c := After(v, calls[..|calls| - 1]), calls[|calls| - 1];
      if Allowed(w, c) then Next(w, c) else w
  }

  /** What a call returns: the key of a start, nothing of the others. */
  function Returned(v: View, c: Call): nat {
    if c.StartCall? && c.candelete && c.dotrimcons then NewKey(v.masterkey) else SINGLETON_KEY
  }

  predicate AllTile(rs: seq<Request>) {
    forall i :: 0 <= i < |rs| ==> WellFormed(rs[i])
  }

  /** The requests being collected, each under a key of its own that was handed out. */
  ghost predicate Collecting(hash: seq<Request>, masterkey: nat) {
    && AllTile(hash) && UniqueKeys(hash)
    && forall i :: 0 <= i < |hash| ==> FIRST_VALID_KEY <= hash[i].key < masterkey
  }

  /** Every block ever submitted is in exactly one place: a request being collected, a request waiting for
      its task, the free map, or the hands of the running call. Every unmap is that of one request, which waits
      or is completed, and no request is completed without its own; what is free again was wanted without
      TRIM or belongs to a completed request. */
  ghost predicate Inv(v: View, extra: multiset<Blk>) {
    && Collecting(v.hash, v.masterkey) && AllTile(v.tasks) && AllTile(v.completed)
    && multiset(v.issued) == multiset(v.tasks) + multiset(v.completed)
    && v.freed == v.untrimmed + Held(v.completed)
    && v.submitted == Held(v.hash) + Held(v.tasks) + v.freed + extra
  }

  lemma SentKeeps(v: View, r: Request)
    requires Inv(v, multiset(r.blks)) && WellFormed(r)
    ensures Inv(Sent(v, r), multiset{})
  {
    hide Held, WellFormed;
    HeldCons(r, v.tasks);
    var w := Sent(v, r);
    assert multiset(w.issued) == multiset{r} + multiset(v.issued);
    assert multiset(w.tasks) == multiset{r} + multiset(v.tasks);
  }

  lemma StartKeeps(v: View, candelete: bool, dotrimcons: bool)
    requires Inv(v, multiset{})
    ensures Inv(Next(v, StartCall(candelete, dotrimcons)), multiset{})
  {
    hide Held, AllTile, Keys;
    var key := NewKey(v.masterkey);
    var r := Request(key, 0, 0, []);
    HeldCons(r, v.hash);
    FreshKey(v);
    CollectingMore(v.hash, v.masterkey, key + 1);
    CollectingCons(v.hash, key + 1, r);
  }

  lemma CollectingMore(hash: seq<Request>, masterkey: nat, more: nat)
    requires Collecting(hash, masterkey) && masterkey <= more
    ensures Collecting(hash, more)
  {}

  /** A block joins the range collected under its key. */
  lemma JoinKeeps(v: View, b: Blk, i: nat)
    requires Inv(v, multiset{b}) && i < |v.hash| && b.frags > 0 && Continues(v.hash[i], b)
    ensures Inv(v.(hash := v.hash[i := Joined(v.hash[i], b)]), multiset{})
  {
    hide Held, Joined, Collecting, AllTile;
    var r := v.hash[i];
    CollectingJoin(v.hash, v.masterkey, i, b);
    HeldWithout(v.hash, i);
    HeldUpdate(v.hash, i, Joined(r, b));
  }

  lemma CollectingJoin(hash: seq<Request>, masterkey: nat, i: nat, b: Blk)
    requires Collecting(hash, masterkey) && i < |hash| && b.frags > 0 && Continues(hash[i], b)
    ensures Collecting(hash[i := Joined(hash[i], b)], masterkey)
    ensures multiset(Joined(hash[i], b).blks) == multiset(hash[i].blks) + multiset{b}
  {
    hide WellFormed;
    JoinedTiles(hash[i], b);
  }

  lemma CollectingWithout(hash: seq<Request>, masterkey: nat, i: nat)
    requires Collecting(hash, masterkey) && i < |hash|
    ensures Collecting(Without(hash, i), masterkey) && hash[i].key !in Keys(Without(hash, i))
  {
    hide WellFormed;
    var ws := Without(hash, i);
    assert forall j :: 0 <= j < |ws| ==> ws[j] == hash[if j < i then j else j + 1];
  }

  lemma CollectingCons(hash: seq<Request>, masterkey: nat, r: Request)
    requires Collecting(hash, masterkey) && WellFormed(r) && r.key !in Keys(hash) && FIRST_VALID_KEY <= r.key < masterkey
    ensures Collecting([r] + hash, masterkey)
  {
    hide WellFormed;
    assert forall j :: 0 <= j < |hash| ==> hash[j].key != r.key;
  }

  lemma TileWithout(rs: seq<Request>, i: nat)
    requires AllTile(rs) && i < |rs|
    ensures AllTile(Without(rs, i)) && WellFormed(rs[i])
  {
    hide WellFormed;
    var ws := Without(rs, i);
    assert forall j :: 0 <= j < |ws| ==> ws[j] == rs[if j < i then j else j + 1];
  }

  lemma JoinedTiles(r: Request, b: Blk)
    requires WellFormed(r) && b.frags > 0 && Continues(r, b)
    ensures WellFormed(Joined(r, b)) && multiset(Joined(r, b).blks) == multiset(r.blks) + multiset{b}
  {
    hide Tiles;
    if r.frags == 0 {
      TilesOrder(r.blks, r.bno, r.bno);
      OneTile(b);
    } else if b.bno + b.frags == r.bno {
      TilesHead(r.blks, r.bno, r.bno + r.frags, b);
    } else {
      TilesTail(r.blks, r.bno, r.bno + r.frags, b);
    }
  }

  /** The range so far goes to the device, and a new one begins under its key. */
  lemma ReplaceKeeps(v: View, b: Blk, i: nat)
    requires Inv(v, multiset{b}) && i < |v.hash| && b.frags > 0
    ensures Inv(v.(hash := [Request(v.hash[i].key, b.bno, b.frags, [b])] + Without(v.hash, i)), multiset(v.hash[i].blks))
  {
    hide Held, Tiles, Collecting, AllTile, Without, Keys;
    var r := Request(v.hash[i].key, b.bno, b.frags, [b]);
    OneTile(b);
    KeyRange(v.hash, v.masterkey, i);
    CollectingWithout(v.hash, v.masterkey, i);
    CollectingCons(Without(v.hash, i), v.masterkey, r);
    HeldWithout(v.hash, i);
    HeldCons(r, Without(v.hash, i));
  }

  lemma UnhashKeeps(v: View, i: nat)
    requires Inv(v, multiset{}) && i < |v.hash|
    ensures Inv(v.(hash := Without(v.hash, i)), multiset(v.hash[i].blks))
  {
    hide Held, Collecting, AllTile, Without, Keys;
    CollectingWithout(v.hash, v.masterkey, i);
    HeldWithout(v.hash, i);
  }

  lemma KeyRange(hash: seq<Request>, masterkey: nat, i: nat)
    requires Collecting(hash, masterkey) && i < |hash|
    ensures FIRST_VALID_KEY <= hash[i].key < masterkey
  {}

  lemma FreeKeeps(v: View, b: Blk, key: nat, candelete: bool)
    requires Inv(v, multiset{}) && Allowed(v, FreeCall(b, key, candelete))
    ensures Inv(Next(v, FreeCall(b, key, candelete)), multiset{})
  {
    hide Held, Tiles, Keys, Joined, Continues, Without;
    var w := v.(submitted := v.submitted + multiset{b});
    assert Inv(w, multiset{b});
    hide Inv;
    if key == NOTRIM_KEY || !candelete {
      NowKeeps(w, b);
    } else if key == SINGLETON_KEY {
      OneTile(b);
      SentKeeps(w, Request(key, b.bno, b.frags, [b]));
    } else {
      var i := IndexOf(v.hash, key);
      if Continues(v.hash[i], b) {
        JoinKeeps(w, b, i);
      } else {
        ReplaceKeeps(w, b, i);
        HashTiles(v, i);
        SentKeeps(w.(hash := [Request(key, b.bno, b.frags, [b])] + Without(v.hash, i)), v.hash[i]);
      }
    }
  }

  lemma NowKeeps(v: View, b: Blk)
    requires Inv(v, multiset{b})
    ensures Inv(v.(freed := v.freed + multiset{b}, untrimmed := v.untrimmed + multiset{b}), multiset{})
  {
    hide Held, WellFormed;
  }

  lemma HashTiles(v: View, i: nat)
    requires Inv(v, multiset{}) && i < |v.hash|
    ensures WellFormed(v.hash[i])
  {}

  lemma FinishKeeps(v: View, key: nat, candelete: bool, dotrimcons: bool)
    requires Inv(v, multiset{}) && Allowed(v, FinishCall(key, candelete, dotrimcons))
    ensures Inv(Next(v, FinishCall(key, candelete, dotrimcons)), multiset{})
  {
    hide Inv, Held, Tiles, Keys, Without;
    if candelete && dotrimcons && key != SINGLETON_KEY {
      var i := IndexOf(v.hash, key);
      var r := v.hash[i];
      UnhashKeeps(v, i);
      HashTiles(v, i);
      if r.frags == 0 {
        TilesOrder(r.blks, r.bno, r.bno);
        assert multiset(r.blks) == multiset{};
      } else {
        SentKeeps(v.(hash := Without(v.hash, i)), r);
      }
    }
  }

  lemma WithoutMultiset(rs: seq<Request>, i: nat)
    requires i < |rs|
    ensures multiset(rs) == multiset(Without(rs, i)) + multiset{rs[i]}
  {
    assert rs == rs[..i] + [rs[i]] + rs[i + 1..];
  }

  lemma TaskKeeps(v: View, i: nat)
    requires Inv(v, multiset{}) && i < |v.tasks|
    ensures Inv(Next(v, TaskCall(i)), multiset{})
  {
    hide Held, WellFormed, Collecting, Without;
    var r := v.tasks[i];
    TileWithout(v.tasks, i);
    HeldWithout(v.tasks, i);
    HeldCons(r, v.completed);
    WithoutMultiset(v.tasks, i);
    assert multiset([r] + v.completed) == multiset{r} + multiset(v.completed);
  }

  /** Every call keeps the invariant. */
  lemma NextKeeps(v: View, c: Call)
    requires Inv(v, multiset{}) && Allowed(v, c)
    ensures Inv(Next(v, c), multiset{})
  {
    hide Inv, Next, Allowed;
    match c
    case StartCall(candelete, dotrimcons) => StartKeeps(v, candelete, dotrimcons);
    case FreeCall(b, key, candelete) => FreeKeeps(v, b, key, candelete);
    case FinishCall(key, candelete, dotrimcons) => FinishKeeps(v, key, candelete, dotrimcons);
    case TaskCall(i) =>
      assert i < |v.tasks| by { TaskAllowed(v, i); }
      TaskKeeps(v, i);
  }

  lemma TaskAllowed(v: View, i: nat)
    requires Allowed(v, TaskCall(i))
    ensures i < |v.tasks|
  {}

  /** Over every sequence of calls, with completions in any order in between, the invariant holds. */
  lemma {:induction false} RunKeeps(v: View, calls: seq<Call>)
    requires Inv(v, multiset{})
    ensures Inv(After(v, calls), multiset{})
  {
    hide Inv, Next, Allowed;
    if calls != [] {
      var w, c := After(v, calls[..|calls| - 1]), calls[|calls| - 1];
      RunKeeps(v, calls[..|calls| - 1]);
      if Allowed(w, c) {
        NextKeeps(w, c);
      }
    }
  }

  /** A completion frees the blocks of one request whose own unmap was sent before, and has not served for another
      completion; each block lies in that request's range. */
  lemma FreedAfterItsUnmap(v: View, i: nat, b: Blk)
    requires Inv(v, multiset{}) && i < |v.tasks| && b in v.tasks[i].blks
    ensures multiset(v.issued)[v.tasks[i]] > multiset(v.completed)[v.tasks[i]]
    ensures v.tasks[i].bno <= b.bno && b.bno + b.frags <= v.tasks[i].bno + v.tasks[i].frags
  {
    var r := v.tasks[i];
    assert r in multiset(v.tasks);
    assert WellFormed(r);
    var k :| 0 <= k < |r.blks| && r.blks[k] == b;
    TilesInside(r.blks, r.bno, r.bno + r.frags, k);
  }

  /** Once every key is finished and every completion has run, each unmap has served one completion, and exactly the
      blocks passed in are free again, each as often as it was passed in. */
  lemma AllFreed(v: View)
    requires Inv(v, multiset{}) && v.hash == [] && v.tasks == []
    ensures v.freed == v.submitted && multiset(v.issued) == multiset(v.completed)
    ensures v.submitted == v.untrimmed + Held(v.issued)
  {
    SameHeld(v.issued, v.completed);
  }

  lemma SameRest(all: multiset<Request>, x: multiset<Request>, y: multiset<Request>, r: Request)
    requires all == x + multiset{r} == y + multiset{r}
    ensures x == y
  {
    assert x == all - multiset{r} == y;
  }

  lemma {:induction false} SameHeld(rs: seq<Request>, ts: seq<Request>)
    requires multiset(rs) == multiset(ts)
    ensures Held(rs) == Held(ts)
    decreases |rs|
  {
    hide Held, Without;
    if rs == [] {
      assert |multiset(ts)| == 0;
    } else {
      var r := rs[0];
      assert r in multiset(ts);
      var i :| 0 <= i < |ts| && ts[i] == r;
      WithoutMultiset(ts, i);
      WithoutMultiset(rs, 0);
      SameRest(multiset(rs), multiset(Without(rs, 0)), multiset(Without(ts, i)), r);
      SameHeld(Without(rs, 0), Without(ts, i));
      HeldWithout(ts, i);
      HeldWithout(rs, 0);
    }
  }

  // ----- the extent that is sent -----

  /** Bytes in a device block, and device blocks in a fragment (1 << fs_fsbtodb). */
  datatype Units = Units(devb: nat, dbs: nat)

  datatype DkExtent = DkExtent(offset: nat, length: nat)

  /** What the code puts into the extent: an address in device blocks, and a length in bytes. */
  function ExtentOf(u: Units, r: Request): DkExtent {
    DkExtent(r.bno * u.dbs, r.frags * (u.dbs * u.devb))
  }

  /** The bytes [lo, hi) contain the range of the request. */
  predicate Contains(u: Units, r: Request, lo: nat, hi: nat) {
    lo <= r.bno * (u.dbs * u.devb) && (r.bno + r.frags) * (u.dbs * u.devb) <= hi
  }

  /** A device that takes the offset in device blocks and the length in bytes unmaps exactly the range. */
  lemma ExtentAsMeant(u: Units, r: Request)
    ensures var e := ExtentOf(u, r);
      e.offset * u.devb == r.bno * (u.dbs * u.devb)
      && e.offset * u.devb + e.length == (r.bno + r.frags) * (u.dbs * u.devb)
  {
    Regroup(r.bno, u.dbs, u.devb);
    Distribute(r.bno, r.frags, u.dbs * u.devb);
  }

  /** One that takes both numbers in bytes unmaps the range exactly when it begins at address 0 or device blocks are
      single bytes; otherwise it unmaps other bytes. */
  lemma ExtentInBytes(u: Units, r: Request)
    requires u.devb > 0 && u.dbs > 0
    ensures var e := ExtentOf(u, r);
      Contains(u, r, e.offset, e.offset + e.length) <==> r.bno == 0 || u.devb == 1
  {
    ExtentAsMeant(u, r);
    if r.bno > 0 {
      MulPositive(r.bno, u.dbs);
      Scaled(r.bno * u.dbs, u.devb);
    }
  }

  lemma MulPositive(a: nat, b: nat)
    requires a > 0 && b > 0
    ensures a * b >= 1
  {}

  lemma Scaled(n: nat, k: nat)
    requires n > 0 && k > 0
    ensures n * k >= n && (n * k == n <==> k == 1)
  {
    if k > 1 {
      MulMono(2, k, n);
    }
  }

  /** One that takes both in device blocks covers the range, and unmaps more than it unless device blocks are single bytes. */
  lemma ExtentInBlocks(u: Units, r: Request)
    requires u.devb > 0 && u.dbs > 0 && r.frags > 0
    ensures var e := ExtentOf(u, r);
      && Contains(u, r, e.offset * u.devb, (e.offset + e.length) * u.devb)
      && ((e.offset + e.length) * u.devb == (r.bno + r.frags) * (u.dbs * u.devb) <==> u.devb == 1)
  {
    var e := ExtentOf(u, r);
    ExtentAsMeant(u, r);
    Distribute(e.offset, e.length, u.devb);
    MulPositive(u.dbs, u.devb);
    MulPositive(r.frags, u.dbs * u.devb);
    Scaled(e.length, u.devb);
  }

  /** With 512-byte device blocks and 4096-byte fragments, fragment 100 begins at byte 409600; the numbers sent
      for it, read in bytes, name bytes 800 to 4896. */
  lemma ExtentElsewhere()
    ensures var r := Request(SINGLETON_KEY, 100, 1, [Blk(100, 1)]);
      ExtentOf(Units(512, 8), r) == DkExtent(800, 4096) && !Contains(Units(512, 8), r, 800, 4896)
  {}

  class TrimQueue {
    const units: Units
    var hash: seq<Request>
    var tasks: seq<Request>
    var masterkey: nat
    var inflight: int           // um_trim_inflight
    var inflightBlks: int       // um_trim_inflight_blks
    var unmaps: seq<DkExtent>   // what the device was told, latest first
    ghost var issued: seq<Request>
    ghost var completed: seq<Request>
    ghost var submitted: multiset<Blk>
    ghost var untrimmed: multiset<Blk>
    ghost var freed: multiset<Blk>

    ghost function Now(): View
      reads this
    {
      View(hash, tasks, masterkey, issued, completed, submitted, untrimmed, freed)
    }

    /** The counters count the outstanding requests, and the device was told of each request once. */
    ghost predicate Counters()
      reads this
    {
      && inflight == |tasks| && inflightBlks == Frags(tasks)
      && |unmaps| == |issued| && forall k :: 0 <= k < |unmaps| ==> unmaps[k] == ExtentOf(units, issued[k])
    }

    ghost predicate Valid()
      reads this
    {
      Inv(Now(), multiset{}) && Counters()
    }

    constructor (units: Units)
      ensures Valid() && this.units == units
      ensures Now() == View([], [], 0, [], [], multiset{}, multiset{}, multiset{})
    {
      this.units := units;
      hash, tasks, masterkey, inflight, inflightBlks, unmaps := [], [], 0, 0, 0, [];
      issued, completed, submitted, untrimmed, freed := [], [], multiset{}, multiset{}, multiset{};
    }

    /** ffs_blkrelease_start: a fresh key, or the singleton key when blocks are not to be collected. */
    method Start(candelete: bool, dotrimcons: bool) returns (key: nat)
      requires Valid()
      modifies this
      ensures Valid() && Now() == Next(old(Now()), StartCall(candelete, dotrimcons))
      ensures key == Returned(old(Now()), StartCall(candelete, dotrimcons))
      ensures candelete && dotrimcons ==> key >= FIRST_VALID_KEY && key !in Keys(old(hash)) && key in Keys(hash)
    {
      hide Inv;
      ghost var v := Now();
      StartKeeps(v, candelete, dotrimcons);
      FreshKey(v);
      if !candelete || !dotrimcons {
        return SINGLETON_KEY;
      }
      key := masterkey;
      masterkey := masterkey + 1;
      while key < FIRST_VALID_KEY
        modifies this`masterkey
        invariant masterkey == key + 1 && NewKey(key) == NewKey(old(masterkey))
        decreases FIRST_VALID_KEY - key
      {
        key := masterkey;
        masterkey := masterkey + 1;
      }
      hash := [Request(key, 0, 0, [])] + hash;
      assert hash[0].key == key;
    }

    /** ffs_blkfree_sendtrim: count the request, tell the device to unmap it, queue its task. */
    method SendTrim(r: Request)
      requires Counters()
      modifies this
      ensures Counters() && Now() == Sent(old(Now()), r)
      ensures unmaps == [ExtentOf(units, r)] + old(unmaps)
    {
      hide Frags, ExtentOf;
      HeldCons(r, tasks);
      inflight := inflight + 1;
      inflightBlks := inflightBlks + r.frags;
      unmaps := [ExtentOf(units, r)] + unmaps;
      issued := [r] + issued;
      tasks := [r] + tasks;
      assert forall k :: 1 <= k < |unmaps| ==> unmaps[k] == old(unmaps)[k - 1] && issued[k] == old(issued)[k - 1];
    }

    /** trim_lookup: the request collected under a key. */
    method Lookup(key: nat) returns (i: nat)
      requires key in Keys(hash)
      ensures i == IndexOf(hash, key)
    {
      KeyIndex(hash, key);
      i := 0;
      while hash[i].key != key
        invariant i < |hash| && forall j :: 0 <= j < i ==> hash[j].key != key
        decreases |hash| - i
      {
        i := i + 1;
      }
    }

    /** ffs_blkfree past the snapshot hook. A block that continues the range collected under its key,
        at either end, joins it; any other block makes the range so far go to the device and starts
        a new one. */
    method BlkFree(b: Blk, key: nat, candelete: bool)
      requires Valid() && b.frags > 0
      requires key == NOTRIM_KEY || key == SINGLETON_KEY || !candelete || key in Keys(hash)
      modifies this
      ensures Valid() && Now() == Next(old(Now()), FreeCall(b, key, candelete))
    {
      hide Inv, Keys, Frags, ExtentOf, Gathered;
      FreeKeeps(Now(), b, key, candelete);
      submitted := submitted + multiset{b};
      if key == NOTRIM_KEY || !candelete {
        freed := freed + multiset{b};
        untrimmed := untrimmed + multiset{b};
        return;
      }
      if key == SINGLETON_KEY {
        SendTrim(Request(key, b.bno, b.frags, [b]));
        return;
      }
      Collect(b, key);
    }

    /** The part of ffs_blkfree that looks for a continuation of the range. */
    method Collect(b: Blk, key: nat)
      requires Counters() && key in Keys(hash)
      modifies this
      ensures Counters() && Now() == Gathered(old(Now()), b, key)
    {
      hide Keys, Frags, ExtentOf;
      var i := Lookup(key);
      var tp := hash[i];
      if tp.frags == 0 {
        hash := hash[i := Request(key, b.bno, b.frags, [b])];
      } else if b.bno + b.frags == tp.bno {
        hash := hash[i := Request(key, b.bno, tp.frags + b.frags, [b] + tp.blks)];
      } else if b.bno == tp.bno + tp.frags {
        hash := hash[i := Request(key, tp.bno, tp.frags + b.frags, tp.blks + [b])];
      } else {
        hash := [Request(key, b.bno, b.frags, [b])] + Without(hash, i);
        SendTrim(tp);
      }
    }

    /** ffs_blkrelease_finish: the range collected under the key, if any, goes to the device. */
    method Finish(key: nat, candelete: bool, dotrimcons: bool)
      requires Valid()
      requires !candelete || !dotrimcons || key == SINGLETON_KEY || key in Keys(hash)
      modifies this
      ensures Valid() && Now() == Next(old(Now()), FinishCall(key, candelete, dotrimcons))
      ensures candelete && dotrimcons && key != SINGLETON_KEY ==> key !in Keys(hash)
    {
      hide Inv, Keys, Frags, ExtentOf, Without;
      FinishKeeps(Now(), key, candelete, dotrimcons);
      if !candelete || !dotrimcons || key == SINGLETON_KEY {
        return;
      }
      var i := Lookup(key);
      var tp := hash[i];
      KeyGone(Now(), i);
      hash := Without(hash, i);
      if tp.frags != 0 {
        SendTrim(tp);
      }
    }

    /** ffs_blkfree_trim_task for any queued request: its blocks go back to the free map, and the in-flight
        counters come down. */
    method RunTask(i: nat)
      requires Valid() && i < |tasks|
      modifies this
      ensures Valid() && Now() == Next(old(Now()), TaskCall(i))
      ensures inflight == old(inflight) - 1 && inflightBlks == old(inflightBlks) - old(tasks)[i].frags
    {
      hide Inv, Frags, ExtentOf;
      var tp := tasks[i];
      HeldWithout(tasks, i);
      TaskKeeps(Now(), i);
      FreeList(tp.blks);
      tasks := Without(tasks, i);
      completed := [tp] + completed;
      inflight := inflight - 1;
      inflightBlks := inflightBlks - tp.frags;
    }

    /** The loop over the request's block list. */
    method FreeList(blks: seq<Blk>)
      modifies this`freed
      ensures freed == old(freed) + multiset(blks)
    {
      var k := 0;
      while k < |blks|
        invariant 0 <= k <= |blks| && freed == old(freed) + multiset(blks[..k])
      {
        assert blks[..k + 1] == blks[..k] + [blks[k]];
        freed := freed + multiset{blks[k]};
        k := k + 1;
      }
      assert blks[..k] == blks;
    }

    /** At that point the in-flight counters are back at zero. */
    lemma Drained()
      requires Valid() && hash == [] && tasks == []
      ensures freed == submitted && multiset(issued) == multiset(completed) && inflight == 0 && inflightBlks == 0
    {
      AllFreed(Now());
    }

    /** One call, if a caller may make it. */
    method Make(c: Call) returns (key: nat)
      requires Valid()
      modifies this
      ensures Valid() && key == Returned(old(Now()), c)
      ensures Now() == if Allowed(old(Now()), c) then Next(old(Now()), c) else old(Now())
    {
      hide Inv, Next, Counters, Keys;
      key := SINGLETON_KEY;
      match c {
        case StartCall(candelete, dotrimcons) =>
          key := Start(candelete, dotrimcons);
        case FreeCall(b, k, candelete) =>
          if b.frags > 0 && (k == NOTRIM_KEY || k == SINGLETON_KEY || !candelete || k in Keys(hash)) {
            BlkFree(b, k, candelete);
          }
        case FinishCall(k, candelete, dotrimcons) =>
          if !candelete || !dotrimcons || k == SINGLETON_KEY || k in Keys(hash) {
            Finish(k, candelete, dotrimcons);
          }
        case TaskCall(i) =>
          if i < |tasks| {
            RunTask(i);
          }
      }
    }

    /** Any sequence of calls by any number of callers, with completions in any order in between, does what After
        says, call by call, and returns the keys it says. */
    method Drive(calls: seq<Call>) returns (keys: seq<nat>)
      requires Valid()
      modifies this
      ensures Valid() && Now() == After(old(Now()), calls)
      ensures |keys| == |calls|
      ensures forall j :: 0 <= j < |calls| ==> keys[j] == Returned(After(old(Now()), calls[..j]), calls[j])
    {
      hide Inv, Next, Returned, Counters, Allowed, Valid;
      ghost var v := Now();
      keys := [];
      for j := 0 to |calls|
        invariant Valid() && Now() == After(v, calls[..j]) && |keys| == j
        invariant forall k :: 0 <= k < j ==> keys[k] == Returned(After(v, calls[..k]), calls[k])
      {
        assert calls[..j + 1][..j] == calls[..j];
        var key := Make(calls[j]);
        keys := keys + [key];
      }
      assert calls[..|calls|] == calls;
    }
  }

  lemma FreshKey(v: View)
    requires Inv(v, multiset{})
    ensures NewKey(v.masterkey) !in Keys(v.hash)
  {}

  lemma KeyGone(v: View, i: nat)
    requires Inv(v, multiset{}) && i < |v.hash|
    ensures v.hash[i].key !in Keys(Without(v.hash, i))
  {
    CollectingWithout(v.hash, v.masterkey, i);
  }

  /** The keys being collected. */
  function Keys(rs: seq<Request>): set<nat> {
    set r | r in rs :: r.key
  }

  lemma KeyIndex(rs: seq<Request>, key: nat)
    requires key in Keys(rs)
    ensures exists j :: 0 <= j < |rs| && rs[j].key == key
  {
    var r :| r in rs && r.key == key;
  }

  lemma OneTile(b: Blk)
    requires b.frags > 0
    ensures Tiles([b], b.bno, b.bno + b.frags)
  {
    assert [b][1..] == [];
  }
}
