/** The indirect-block path of ffs_balloc_ufs2, and the undoing of one that fails half way. */
module Balloc {
  import opened Arith
  import opened Lbns
  import opened IndirTree
  import Workload
  import BlockPool

  /** What the allocation of a block touches: the file's pointers and block count, and the free blocks. */
  datatype Snap = Snap(t: Tree, blocks: int, pool: set<nat>, taken: seq<nat>, freed: seq<nat>)

  /** allociblk, lbns_remfree, whether allocib is set, and unwindidx. */
  datatype Undo = Undo(blks: seq<nat>, lbns: seq<int>, allocib: bool, unwindidx: int)

  datatype Outcome = Done | Failed | Panicked

  /** What a call may ask of the allocator or the device, and may be refused: a block for a slot of the path, the writing
      of a new indirect block, the reading of one, the check of the pointer in a slot, the reading of the data block, and
      the reading of an indirect block to undo what was done to it. */
  datatype Asked =
    | AllocFor(at: Step)
    | WriteNew(lbn: int)
    | ReadInd(lbn: int)
    | CheckPtr(at: Step)
    | ReadData(lbn: int)
    | ReadAgain(lbn: int)

  /** The requests for the indirect block in slot i - 1 of path p, when the slots from f on are missing. */
  function NewBlock(p: seq<Step>, f: nat, i: nat): seq<Asked>
    requires 1 <= i < |p|
  {
    if i >= f then [AllocFor(p[i - 1]), WriteNew(p[i].lbn)] else []
  }

  /** The requests made until the indirect block in slot i - 1 is there. */
  function Through(p: seq<Step>, f: nat, i: nat): seq<Asked>
    requires 1 <= i < |p|
  {
    (if i == 1 then [] else Through(p, f, i - 1) + Fetch(p, i - 1)) + NewBlock(p, f, i)
  }

  /** An indirect block is read, and the pointer in its slot checked. */
  function Fetch(p: seq<Step>, i: nat): seq<Asked>
    requires i < |p|
  {
    [ReadInd(p[i].lbn), CheckPtr(p[i])]
  }

  function Walked(p: seq<Step>, f: nat): seq<Asked>
    requires |p| >= 2
  {
    Through(p, f, |p| - 1) + Fetch(p, |p| - 1)
  }

  /** All requests of a call that succeeds, in order. */
  function Requests(p: seq<Step>, f: nat, lbn: int, metaonly: bool, clrbuf: bool): seq<Asked>
    requires |p| >= 2
  {
    Walked(p, f) +
      if metaonly then [] else if f <= |p| then [AllocFor(p[|p| - 1])] else if clrbuf then [ReadData(lbn)] else []
  }

  lemma {:induction false} ThroughWalked(p: seq<Step>, f: nat, i: nat)
    requires 1 <= i < |p|
    ensures Through(p, f, i) + Fetch(p, i) <= Walked(p, f)
    decreases |p| - i
  {
    if i < |p| - 1 {
      ThroughWalked(p, f, i + 1);
      assert Through(p, f, i + 1) == Through(p, f, i) + Fetch(p, i) + NewBlock(p, f, i + 1);
      assert Through(p, f, i) + Fetch(p, i) <= Through(p, f, i + 1) + Fetch(p, i + 1);
    }
  }

  lemma {:induction false} ThroughGrows(p: seq<Step>, f: nat, i: nat, j: nat)
    requires 1 <= i <= j < |p|
    ensures Through(p, f, i) <= Through(p, f, j) && (i < j ==> Through(p, f, i) + Fetch(p, i) <= Through(p, f, j))
    decreases j
  {
    hide Fetch, NewBlock;
    if i < j {
      ThroughGrows(p, f, i, j - 1);
    }
  }

  lemma WalkedIs(p: seq<Step>, f: nat)
    requires |p| >= 2
    ensures Walked(p, f) == Through(p, f, |p| - 1) + Fetch(p, |p| - 1)
  {}

  lemma ThroughNext(p: seq<Step>, f: nat, i: nat)
    requires 2 <= i < |p|
    ensures Through(p, f, i) == Through(p, f, i - 1) + Fetch(p, i - 1) + NewBlock(p, f, i)
    ensures i < f ==> Through(p, f, i) == Through(p, f, i - 1) + Fetch(p, i - 1)
  {}

  lemma NewInWalked(p: seq<Step>, f: nat, i: nat, q: Asked)
    requires 1 <= i < |p| && q in NewBlock(p, f, i)
    ensures q in Through(p, f, i) && q in Walked(p, f)
  {
    ThroughWalked(p, f, i);
    assert q in Through(p, f, i) + Fetch(p, i);
  }

  lemma FetchInWalked(p: seq<Step>, f: nat, i: nat, q: Asked)
    requires 1 <= i < |p| && q in Fetch(p, i)
    ensures q in Walked(p, f)
  {
    ThroughWalked(p, f, i);
    assert q in Through(p, f, i) + Fetch(p, i);
  }

  function SetOf(s: seq<nat>): set<nat> {
    set b | b in s
  }

  /** f is the first empty slot on the way to o, or one more than there are. */
  ghost predicate FirstEmpty(n: nat, t: Tree, o: seq<nat>, f: nat)
    requires Shaped(n, t) && Place(n, o)
  {
    && 1 <= f <= |o| + 1
    && (forall j :: 1 <= j < f ==> Lookup(n, t, o[..j]) != 0)
    && (f <= |o| ==> Lookup(n, t, o[..f]) == 0)
  }

  lemma FirstHole(n: nat, t: Tree, o: seq<nat>, k: nat) returns (f: nat)
    requires Shaped(n, t) && Place(n, o) && 1 <= k <= |o| + 1
    requires forall j :: 1 <= j < k ==> Lookup(n, t, o[..j]) != 0
    ensures FirstEmpty(n, t, o, f)
    decreases |o| + 1 - k
  {
    if k == |o| + 1 || Lookup(n, t, o[..k]) == 0 {
      f := k;
    } else {
      f := FirstHole(n, t, o, k + 1);
    }
  }

  lemma EmptyBound(n: nat, t: Tree, o: seq<nat>, f: nat)
    requires Shaped(n, t) && Place(n, o) && FirstEmpty(n, t, o, f)
    ensures 1 <= f <= |o| + 1
  {}

  lemma PlacePrefix(n: nat, o: seq<nat>, i: nat)
    requires Place(n, o) && 1 <= i <= |o|
    ensures Place(n, o[..i]) && o[..i] <= o && (i < |o| ==> Levels(o[..i]) >= 1)
  {}

  /** c is s after the blocks blks were taken, in this order, and none was given back. */
  ghost predicate Books(unit: nat, s: Snap, c: Snap, blks: seq<nat>) {
    && c.pool == s.pool - SetOf(blks) && SetOf(blks) <= s.pool
    && (forall i, j :: 0 <= i < j < |blks| ==> blks[i] != blks[j])
    && c.blocks == s.blocks + unit * |blks| && c.taken == s.taken + blks && c.freed == s.freed
  }

  /** The recorded blocks are those for the slots from the first hole f on, and the first k of them are linked. */
  ghost predicate Recorded(n: nat, s: Snap, c: Snap, o: seq<nat>, f: nat, u: Undo, k: nat) {
    && n >= 3 && Place(n, o) && Levels(o) == 0 && Shaped(n, s.t) && FirstEmpty(n, s.t, o, f)
    && |u.lbns| == |u.blks| && k <= |u.blks| <= k + 1 && f + |u.blks| <= |o| + 1
    && (forall j :: 0 <= j < |u.blks| && f + j < |o| ==> u.lbns[j] == Name(n, o[..f + j]))
    && Grown(n, s.t, c.t, o, f, u.blks[..k])
    && u.allocib == (k > 0 && f == 1)
    && u.unwindidx == if k > 0 && f > 1 then f - 1 else -1
  }

  /** Everything recorded is linked, and the indirect blocks on the way to o[..i] are all there. */
  ghost predicate Reached(n: nat, s: Snap, c: Snap, o: seq<nat>, f: nat, u: Undo, i: nat) {
    && Recorded(n, s, c, o, f, u, |u.blks|) && 1 <= i <= |o|
    && if u.blks == [] then i < f else f + |u.blks| == i + 1
  }

  lemma AtFirst(n: nat, unit: nat, s: Snap, o: seq<nat>, f: nat)
    requires n >= 3 && Place(n, o) && Levels(o) == 0 && Shaped(n, s.t) && FirstEmpty(n, s.t, o, f)
    ensures Books(unit, s, s, []) && Recorded(n, s, s, o, f, Undo([], [], false, -1), 0)
  {
    assert s.taken + [] == s.taken;
  }

  lemma GrownLast(n: nat, t0: Tree, t: Tree, o: seq<nat>, f: nat, A: seq<nat>, i: nat)
    requires Grown(n, t0, t, o, f, A) && Place(n, o) && FirstEmpty(n, t0, o, f) && 1 <= i <= |o|
    requires 0 !in A && if A == [] then i < f else f + |A| == i + 1
    ensures Place(n, o[..i]) && Lookup(n, t, o[..i]) != 0
  {
    hide Lookup, Shaped;
    PlacePrefix(n, o, i);
    assert Lookup(n, t, o[..i]) == Expected(n, t0, o, f, A, o[..i]);
  }

  lemma GrownNext(n: nat, t0: Tree, t: Tree, o: seq<nat>, f: nat, A: seq<nat>, i: nat)
    requires Grown(n, t0, t, o, f, A) && Place(n, o) && FirstEmpty(n, t0, o, f) && 1 <= i < |o|
    requires if A == [] then i < f else f + |A| == i + 1
    ensures Place(n, o[..i + 1])
    ensures if Lookup(n, t, o[..i + 1]) != 0 then A == [] && i + 1 < f else f + |A| == i + 1
  {
    hide Lookup, Shaped;
    PlacePrefix(n, o, i + 1);
    assert Lookup(n, t, o[..i + 1]) == Expected(n, t0, o, f, A, o[..i + 1]);
    if A != [] {
      PlacePrefix(n, o, f);
      Prefixes(o[..f], o[..i + 1], o);
      HoleBelow(n, t0, o[..f], o[..i + 1]);
    }
  }

  /** What the next slot of the path holds says where the first hole is. */
  lemma NextPointer(n: nat, unit: nat, s: Snap, c: Snap, o: seq<nat>, f: nat, u: Undo, i: nat)
    requires Reached(n, s, c, o, f, u, i) && 0 !in u.blks && i < |o|
    ensures Shaped(n, c.t) && Place(n, o[..i]) && Lookup(n, c.t, o[..i]) != 0 && Place(n, o[..i + 1])
    ensures Lookup(n, c.t, o[..i + 1]) == Contents(n, c.t, Name(n, o[..i]))[o[i]]
    ensures if Lookup(n, c.t, o[..i + 1]) != 0 then u.blks == [] && Reached(n, s, c, o, f, u, i + 1)
            else f + |u.blks| == i + 1
  {
    hide FirstEmpty, Grown, Place;
    assert u.blks[..|u.blks|] == u.blks;
    GrownLast(n, s.t, c.t, o, f, u.blks, i);
    GrownNext(n, s.t, c.t, o, f, u.blks, i);
    assert o[..i + 1][..i] == o[..i];
    GrownShaped(n, s.t, c.t, o, f, u.blks);
  }

  lemma GrownShaped(n: nat, t0: Tree, t: Tree, o: seq<nat>, f: nat, A: seq<nat>)
    requires Grown(n, t0, t, o, f, A)
    ensures Shaped(n, t0) && Shaped(n, t)
  {}

  /** Taking one more block. */
  lemma TakeStep(unit: nat, s: Snap, c: Snap, blks: seq<nat>, b: nat)
    requires Books(unit, s, c, blks) && b in c.pool
    ensures Books(unit, s, TakenFrom(unit, c, b), blks + [b])
  {
    assert SetOf(blks + [b]) == SetOf(blks) + {b};
    assert c.taken + [b] == s.taken + (blks + [b]);
    assert unit * (|blks| + 1) == unit * |blks| + unit;
  }

  /** Recording an indirect block for the next empty slot, and blanking its buffer, changes nothing that can be reached. */
  lemma RecordStep(n: nat, s: Snap, c: Snap, d: Snap, o: seq<nat>, f: nat, u: Undo, b: nat)
    requires Recorded(n, s, c, o, f, u, |u.blks|) && f + |u.blks| < |o|
    requires Place(n, o[..f + |u.blks|]) && Shaped(n, c.t) && Lookup(n, c.t, o[..f + |u.blks|]) == 0
    requires Altered(n, c.t, d.t, o[..f + |u.blks|])
    ensures Recorded(n, s, d, o, f, Noted(u, b, Name(n, o[..f + |u.blks|])), |u.blks|)
  {
    hide FirstEmpty, Grown, Place, Lookup, Shaped, Altered;
    EmptyBound(n, s.t, o, f);
    PlacePrefix(n, o, f + |u.blks|);
    var e := o[..f + |u.blks|];
    var blks := u.blks + [b];
    assert blks[..|u.blks|] == u.blks == u.blks[..|u.blks|];
    BlankUnlinked(n, c.t, d.t, e);
    GrownSame(n, s.t, c.t, d.t, o, f, u.blks);
  }

  lemma LinkGrown(n: nat, t0: Tree, t: Tree, u: Tree, o: seq<nat>, f: nat, A: seq<nat>, b: nat, i: nat)
    requires n >= 3 && Place(n, o) && Levels(o) == 0 && 1 <= f && f + |A| == i + 1 && i < |o| && Grown(n, t0, t, o, f, A)
    requires Place(n, o[..i + 1]) && Shaped(n, t) && Linked(n, t, u, o[..i + 1], b)
    requires Lookup(n, t, o[..i + 1]) == 0 && (i + 1 < |o| ==> Blank(n, t, o[..i + 1]))
    requires i > 0 ==> Place(n, o[..i]) && Lookup(n, t, o[..i]) != 0
    ensures Grown(n, t0, u, o, f, A + [b])
  {
    hide Grown, Lookup, Shaped, Linked, Blank, Contents, Name;
    assert o[..i + 1][..i] == o[..i];
    assert Levels(o[..i + 1]) >= 1 <==> i + 1 < |o|;
    GrowStep(n, t0, t, u, o, f, A, b);
  }

  /** Linking the block recorded last. */
  lemma LinkStep(n: nat, s: Snap, c: Snap, d: Snap, o: seq<nat>, f: nat, u: Undo, k: nat, i: nat)
    requires Recorded(n, s, c, o, f, u, k) && |u.blks| == k + 1 && f + k == i + 1 && 0 <= i < |o|
    requires Place(n, o[..i + 1]) && Shaped(n, c.t) && Linked(n, c.t, d.t, o[..i + 1], u.blks[k])
    requires Lookup(n, c.t, o[..i + 1]) == 0 && (i + 1 < |o| ==> Blank(n, c.t, o[..i + 1]))
    requires i > 0 ==> Place(n, o[..i]) && Lookup(n, c.t, o[..i]) != 0
    ensures Reached(n, s, d, o, f, Relinked(u, i), i + 1)
  {
    hide FirstEmpty, Grown, Lookup, Shaped, Linked, Blank, Place, Relinked, Levels, Name;
    EmptyBound(n, s.t, o, f);
    LinkGrown(n, s.t, c.t, d.t, o, f, u.blks[..k], u.blks[k], i);
    RelinkedFlags(u, f, k, i);
    var v := Relinked(u, i);
    assert u.blks[..k] + [u.blks[k]] == v.blks == v.blks[..k + 1];
    assert Recorded(n, s, d, o, f, v, k + 1);
  }

  lemma RelinkedFlags(u: Undo, f: nat, k: nat, i: nat)
    requires 1 <= f && f + k == i + 1
    requires u.allocib == (k > 0 && f == 1) && u.unwindidx == if k > 0 && f > 1 then f - 1 else -1
    ensures Relinked(u, i) == Undo(u.blks, u.lbns, f == 1, if f > 1 then f - 1 else -1)
  {}

  /** What the code remembers of a pointer it stored in slot i of the path. */
  function Relinked(u: Undo, i: nat): (v: Undo)
    ensures v.blks == u.blks && v.lbns == u.lbns
  {
    if i == 0 then u.(allocib := true)
    else if !u.allocib && u.unwindidx < 0 then u.(unwindidx := i)
    else u
  }

  // ----- the buffers of the file's indirect blocks -----

  function Blanked(n: nat, t: Tree, lbn: int): Tree {
    t.(bufs := t.bufs[lbn := Zeros(n)])
  }

  function Stored(n: nat, t: Tree, lbn: int, off: nat, b: nat): Tree
    requires Shaped(n, t) && off < n
  {
    t.(bufs := t.bufs[lbn := Contents(n, t, lbn)[off := b]])
  }

  function Discarded(t: Tree, lbn: int): Tree {
    t.(bufs := t.bufs - {lbn})
  }

  lemma BlankedIs(n: nat, t: Tree, q: seq<nat>)
    requires Shaped(n, t) && Place(n, q) && Levels(q) >= 1
    ensures Altered(n, t, Blanked(n, t, Name(n, q)), q) && Blank(n, Blanked(n, t, Name(n, q)), q)
  {}

  lemma DiscardedIs(n: nat, t: Tree, q: seq<nat>)
    requires Shaped(n, t) && Place(n, q) && Levels(q) >= 1
    ensures Altered(n, t, Discarded(t, Name(n, q)), q)
  {}

  lemma StoredIs(n: nat, t: Tree, o: seq<nat>, b: nat)
    requires Shaped(n, t) && Place(n, o) && |o| > 1
    ensures Linked(n, t, Stored(n, t, Name(n, o[..|o| - 1]), o[|o| - 1], b), o, b)
  {}

  lemma StepAt(n: nat, o: seq<nat>, i: nat)
    requires Place(n, o) && i < |o|
    ensures Steps(n, o)[i].off == o[i] && (i > 0 ==> o[i] < n && Steps(n, o)[i].lbn == Name(n, o[..i]))
  {}

  /** t with b in slot i of the path. */
  function Link(n: nat, t: Tree, path: seq<Step>, i: nat, b: nat): Tree
    requires Shaped(n, t) && i < |path| && path[i].off < (if i == 0 then NIADDR else n)
  {
    if i == 0 then t.(ib := t.ib[path[0].off := b]) else Stored(n, t, path[i].lbn, path[i].off, b)
  }

  lemma LinkIs(n: nat, t: Tree, o: seq<nat>, i: nat, b: nat)
    requires n >= 3 && Shaped(n, t) && Place(n, o) && i < |o|
    ensures Steps(n, o)[i].off < (if i == 0 then NIADDR else n)
    ensures Place(n, o[..i + 1]) && Linked(n, t, Link(n, t, Steps(n, o), i, b), o[..i + 1], b)
  {
    hide Steps, Name, Contents, Stored;
    StepAt(n, o, i);
    if i > 0 {
      StoredIs(n, t, o[..i + 1], b);
      assert o[..i + 1][..i] == o[..i];
    }
  }

  lemma LinkedShaped(n: nat, t: Tree, o: seq<nat>, i: nat, b: nat)
    requires n >= 3 && Shaped(n, t) && Place(n, o) && i < |o|
    ensures Steps(n, o)[i].off < (if i == 0 then NIADDR else n)
    ensures Shaped(n, Link(n, t, Steps(n, o), i, b))
  {
    LinkIs(n, t, o, i, b);
  }

  function TakenFrom(unit: nat, c: Snap, b: nat): Snap {
    c.(pool := c.pool - {b}, blocks := c.blocks + unit, taken := c.taken + [b])
  }

  function Noted(u: Undo, b: nat, lbn: int): Undo {
    u.(blks := u.blks + [b], lbns := u.lbns + [lbn])
  }

  /** With a block taken, recorded and blanked, all is as before but for the books. */
  lemma Prepared(n: nat, unit: nat, s: Snap, c: Snap, o: seq<nat>, f: nat, u: Undo, b: nat, i: nat)
    requires Books(unit, s, c, u.blks) && Recorded(n, s, c, o, f, u, |u.blks|) && b in c.pool && f + |u.blks| == i + 1 < |o|
    requires Shaped(n, c.t) && Place(n, o[..i + 1]) && Lookup(n, c.t, o[..i + 1]) == 0
    requires i > 0 ==> Place(n, o[..i]) && Lookup(n, c.t, o[..i]) != 0
    ensures Place(n, o) && Levels(o[..i + 1]) >= 1 && Steps(n, o)[i + 1].lbn == Name(n, o[..i + 1])
    ensures var lbn := Name(n, o[..i + 1]); var d := TakenFrom(unit, c, b).(t := Blanked(n, c.t, lbn));
      && Books(unit, s, d, u.blks + [b]) && Recorded(n, s, d, o, f, Noted(u, b, lbn), |u.blks|)
      && Shaped(n, d.t) && Blank(n, d.t, o[..i + 1]) && Lookup(n, d.t, o[..i + 1]) == 0
      && (i > 0 ==> Lookup(n, d.t, o[..i]) != 0)
  {
    hide Recorded, Lookup, Place, Blanked, Books, Shaped, Altered, Blank, Name, Noted, FirstEmpty, Grown, Steps;
    PlaceOf(n, s, c, o, f, u, |u.blks|);
    var e := o[..i + 1];
    PlacePrefix(n, o, i + 1);
    StepAt(n, o, i + 1);
    var d := TakenFrom(unit, c, b).(t := Blanked(n, c.t, Name(n, e)));
    TakeStep(unit, s, c, u.blks, b);
    BooksTree(unit, s, TakenFrom(unit, c, b), d, u.blks + [b]);
    BlankedIs(n, c.t, e);
    BlankUnlinked(n, c.t, d.t, e);
    RecordStep(n, s, c, d, o, f, u, b);
  }

  lemma PlaceOf(n: nat, s: Snap, c: Snap, o: seq<nat>, f: nat, u: Undo, k: nat)
    requires Recorded(n, s, c, o, f, u, k)
    ensures n >= 3 && Place(n, o) && Levels(o) == 0 && Shaped(n, s.t) && |u.lbns| == |u.blks|
    ensures FirstEmpty(n, s.t, o, f) && Grown(n, s.t, c.t, o, f, u.blks[..k])
  {}

  /** The books say nothing of the tree. */
  lemma BooksTree(unit: nat, s: Snap, c: Snap, d: Snap, blks: seq<nat>)
    requires Books(unit, s, c, blks) && d == c.(t := d.t)
    ensures Books(unit, s, d, blks)
  {}

  /** The block recorded last is linked. */
  lemma LinkedIn(n: nat, unit: nat, s: Snap, c: Snap, o: seq<nat>, f: nat, u: Undo, k: nat, i: nat)
    requires Books(unit, s, c, u.blks) && Recorded(n, s, c, o, f, u, k)
    requires |u.blks| == k + 1 && f + k == i + 1 && i < |o| && Shaped(n, c.t) && Place(n, o[..i + 1])
    requires Lookup(n, c.t, o[..i + 1]) == 0 && (i + 1 < |o| ==> Levels(o[..i + 1]) >= 1 && Blank(n, c.t, o[..i + 1]))
    requires i > 0 ==> Place(n, o[..i]) && Lookup(n, c.t, o[..i]) != 0
    ensures Place(n, o) && Steps(n, o)[i].off < (if i == 0 then NIADDR else n)
    ensures var d := c.(t := Link(n, c.t, Steps(n, o), i, u.blks[k]));
      && Shaped(n, d.t) && Books(unit, s, d, u.blks) && Reached(n, s, d, o, f, Relinked(u, i), i + 1)
  {
    hide Recorded, Lookup, Place, Link, Books, Reached, Relinked, Blank, Name, Steps, FirstEmpty, Grown, Shaped, Linked;
    PlaceOf(n, s, c, o, f, u, k);
    LinkedShaped(n, c.t, o, i, u.blks[k]);
    LinkIs(n, c.t, o, i, u.blks[k]);
    var d := c.(t := Link(n, c.t, Steps(n, o), i, u.blks[k]));
    LinkStep(n, s, c, d, o, f, u, k, i);
    BooksTree(unit, s, c, d, u.blks);
  }

  lemma NoZero(unit: nat, s: Snap, c: Snap, blks: seq<nat>)
    requires Books(unit, s, c, blks) && 0 !in s.pool
    ensures 0 !in blks && 0 !in c.pool
  {
    assert 0 !in SetOf(blks);
  }

  lemma FirstPointer(n: nat, s: Snap, o: seq<nat>, f: nat)
    requires n >= 3 && Place(n, o) && Levels(o) == 0 && Shaped(n, s.t) && FirstEmpty(n, s.t, o, f)
    ensures Steps(n, o)[0].off == o[0] < NIADDR && Place(n, o[..1]) && Lookup(n, s.t, o[..1]) == s.t.ib[o[0]]
    ensures if s.t.ib[o[0]] != 0 then Reached(n, s, s, o, f, Undo([], [], false, -1), 1) else f == 1
  {
    StepAt(n, o, 0);
    assert Lookup(n, s.t, o[..1]) == s.t.ib[o[0]];
    hide Lookup;
  }

  /** The data block is taken, recorded and linked. */
  lemma DataLinked(n: nat, unit: nat, s: Snap, c: Snap, o: seq<nat>, f: nat, u: Undo, b: nat, lbn: int, i: nat)
    requires Books(unit, s, c, u.blks) && Reached(n, s, c, o, f, u, i) && b in c.pool && i + 1 == |o| == f + |u.blks|
    requires Shaped(n, c.t) && Place(n, o[..i]) && Place(n, o[..i + 1])
    requires Lookup(n, c.t, o[..i]) != 0 && Lookup(n, c.t, o[..i + 1]) == 0
    ensures Place(n, o) && Steps(n, o)[i].off < n
    ensures var d := TakenFrom(unit, c, b).(t := Link(n, c.t, Steps(n, o), i, b)); var v := Relinked(Noted(u, b, lbn), i);
      Shaped(n, d.t) && Books(unit, s, d, v.blks) && Reached(n, s, d, o, f, v, |o|)
  {
    var c1 := TakenFrom(unit, c, b);
    var u1 := Noted(u, b, lbn);
    DataNoted(n, s, c, c1, o, f, u, b, lbn, i);
    hide *;
    TakeStep(unit, s, c, u.blks, b);
    NotedBlks(u, b, lbn);
    TakenTree(unit, c, b);
    LinkedIn(n, unit, s, c1, o, f, u1, |u.blks|, i);
  }

  lemma NotedBlks(u: Undo, b: nat, lbn: int)
    ensures Noted(u, b, lbn).blks == u.blks + [b]
  {}

  lemma TakenTree(unit: nat, c: Snap, b: nat)
    ensures TakenFrom(unit, c, b).t == c.t
  {}

  lemma DataNoted(n: nat, s: Snap, c: Snap, d: Snap, o: seq<nat>, f: nat, u: Undo, b: nat, lbn: int, i: nat)
    requires Reached(n, s, c, o, f, u, i) && d.t == c.t && i + 1 == |o| == f + |u.blks|
    ensures Recorded(n, s, d, o, f, Noted(u, b, lbn), |u.blks|)
  {
    hide FirstEmpty, Grown, Place, Name;
    assert Noted(u, b, lbn).blks[..|u.blks|] == u.blks == u.blks[..|u.blks|];
  }

  /** The path up to last leads to a block, the missing pointers on it are ns, and no other pointer changed. */
  ghost predicate Filled(n: nat, t0: Tree, t: Tree, o: seq<nat>, last: nat, ns: seq<nat>)
    requires Place(n, o) && 1 <= last <= |o| && Place(n, o[..last])
  {
    && |ns| <= last && Grown(n, t0, t, o, last + 1 - |ns|, ns) && Lookup(n, t, o[..last]) != 0
    && (ns != [] ==> Place(n, o[..last + 1 - |ns|]) && Lookup(n, t0, o[..last + 1 - |ns|]) == 0)
  }

  lemma ReachedFills(n: nat, s: Snap, c: Snap, o: seq<nat>, f: nat, u: Undo, last: nat)
    requires Reached(n, s, c, o, f, u, last) && 0 !in u.blks
    ensures Place(n, o) && 1 <= last <= |o| && Place(n, o[..last]) && Filled(n, s.t, c.t, o, last, u.blks)
  {
    hide Lookup, Shaped, Name;
    assert u.blks[..|u.blks|] == u.blks;
    PlacePrefix(n, o, last);
    GrownLast(n, s.t, c.t, o, f, u.blks, last);
    if u.blks == [] {
      forall p | Place(n, p)
        ensures Lookup(n, c.t, p) == Expected(n, s.t, o, last + 1, [], p)
      {
        assert Lookup(n, c.t, p) == Expected(n, s.t, o, f, [], p);
      }
    } else {
      PlacePrefix(n, o, f);
    }
  }

  lemma AgreeHole(n: nat, t0: Tree, t: Tree, c: seq<nat>)
    requires Place(n, c) && Agree(n, t0, t, c) && Lookup(n, t0, c) == 0 && Lookup(n, t, c) == 0
    ensures Same(n, t0, t)
  {
    forall p | Place(n, p)
      ensures Lookup(n, t, p) == Lookup(n, t0, p)
    {
      if c <= p {
        HoleBelow(n, t0, c, p);
        HoleBelow(n, t, c, p);
      }
    }
  }

  /** At a failure, what differs from s is reached through the first hole, and nothing is if no block was linked. */
  lemma FailFacts(n: nat, unit: nat, s: Snap, c: Snap, o: seq<nat>, f: nat, u: Undo, k: nat)
    requires Recorded(n, s, c, o, f, u, k) && Shaped(n, c.t) && f + |u.blks| <= |o|
    ensures 1 <= f <= |o| && Place(n, o[..f]) && Lookup(n, s.t, o[..f]) == 0 && Agree(n, s.t, c.t, o[..f])
    ensures k == 0 ==> Lookup(n, c.t, o[..f]) == 0
  {
    hide Lookup, Shaped, Name;
    PlacePrefix(n, o, f);
    GrownAgrees(n, s.t, c.t, o, f, u.blks[..k]);
    assert Lookup(n, c.t, o[..f]) == Expected(n, s.t, o, f, u.blks[..k], o[..f]);
  }

  lemma NothingDone(n: nat, unit: nat, s: Snap, c: Snap, o: seq<nat>, f: nat, u: Undo, k: nat)
    requires Recorded(n, s, c, o, f, u, k) && Shaped(n, c.t) && u.blks == [] && Books(unit, s, c, [])
    ensures Same(n, s.t, c.t) && c.(t := s.t) == s
  {
    hide Lookup, Shaped, Name;
    forall p | Place(n, p)
      ensures Lookup(n, c.t, p) == Lookup(n, s.t, p)
    {
      assert Lookup(n, c.t, p) == Expected(n, s.t, o, f, [], p);
    }
  }

  lemma DiscardStep(n: nat, t0: Tree, t: Tree, o: seq<nat>, f: nat, g: nat)
    requires n >= 3 && Place(n, o) && 1 <= f <= g < |o| && Place(n, o[..f]) && Agree(n, t0, t, o[..f])
    ensures Place(n, o[..g]) && Levels(o[..g]) >= 1
    ensures var u := Discarded(t, Name(n, o[..g]));
      Shaped(n, t) && Shaped(n, u) && Agree(n, t0, u, o[..f]) && Lookup(n, u, o[..f]) == Lookup(n, t, o[..f])
  {
    hide Lookup, Name;
    PlacePrefix(n, o, f);
    PlacePrefix(n, o, g);
    Prefixes(o[..f], o[..g], o);
    DiscardedIs(n, t, o[..g]);
    AlteredAgrees(n, t0, t, Discarded(t, Name(n, o[..g])), o[..f], o[..g]);
    AlteredFrame(n, t, Discarded(t, Name(n, o[..g])), o[..g], o[..f]);
  }

  class File {
    const n: nat
    const unit: nat
    const grants: (nat, Asked) -> bool  // the answers, by the number of the call and what is asked
    const wants: (nat, Asked) -> nat    // the address preferred for each block
    var call: nat                       // the number of the call
    ghost var asked: seq<Asked>         // what it has asked
    const space: BlockPool.Space
    var ib: seq<nat>
    var bufs: map<int, seq<nat>>
    var blocks: int
    ghost var pool: set<nat>    // the free blocks of the filesystem
    var taken: seq<nat>
    var freed: seq<nat>

    /** Pointers per indirect block, device blocks per block, and the rest of the state. */
    constructor (n: nat, unit: nat, grants: (nat, Asked) -> bool, wants: (nat, Asked) -> nat, space: BlockPool.Space,
                 ib: seq<nat>, bufs: map<int, seq<nat>>, blocks: int, ghost pool: set<nat>)
      requires n >= 3 && Shaped(n, Tree(ib, bufs)) && 0 !in pool && space.Linked(pool)
      ensures Valid() && Now() == Snap(Tree(ib, bufs), blocks, pool, [], []) && this.n == n && this.unit == unit
      ensures this.grants == grants && this.wants == wants && this.space == space && call == 0
    {
      hide BlockPool.Space.Linked, Shaped;
      this.n, this.unit, this.grants, this.wants, this.space, call, asked := n, unit, grants, wants, space, 0, [];
      this.ib, this.bufs, this.blocks, this.pool, this.taken, this.freed := ib, bufs, blocks, pool, [], [];
      new;
      Outside();
    }

    lemma Outside()
      requires space.Linked(pool)
      ensures this !in space.parts
    {}

    ghost function Now(): Snap
      reads this
    {
      Snap(Tree(ib, bufs), blocks, pool, taken, freed)
    }

    lemma PoolWithin()
      requires Valid()
      ensures pool <= All()
    {
      hide Shaped;
    }

    /** All blocks that were free when the space was opened. */
    ghost function All(): set<nat> {
      BlockPool.Pool(space.fs.geo, space.base)
    }

    ghost predicate Valid()
      reads this, space, space.parts
    {
      n >= 3 && Shaped(n, Now().t) && 0 !in pool && this !in space.parts && space.Linked(pool)
    }

    /** In the middle of an allocation that began in s: blocks are recorded, the first k of them linked. */
    ghost predicate Mid(s: Snap, o: seq<nat>, f: nat, u: Undo, k: nat)
      reads this, space, space.parts
    {
      Valid() && 0 !in s.pool && s.pool <= All() && Books(unit, s, Now(), u.blks) && Recorded(n, s, Now(), o, f, u, k)
    }

    /** Of these free blocks b is the one around the address wanted, if that is among them. */
    ghost predicate Nearest(free: set<nat>, want: nat, b: nat) {
      var geo := space.fs.geo;
      geo.frag > 0 && (0 < want < geo.size && DownTo(want, geo.frag) in free ==> b == DownTo(want, geo.frag))
    }

    /** The address wanted for the block number j of those a call takes: for the first what the placement policy says; for
        the others the one after the block before; but for a data block, when metadata has space of its own, again what the
        policy says, unless it is the first block behind an indirect one. */
    function WantFor(path: seq<Step>, f: nat, lbn: int, blks: seq<nat>, j: nat): nat
      requires 1 <= f && f + j <= |path| && j <= |blks|
      reads this`call
    {
      if j == 0 || (f + j == |path| && lbn > NDADDR && space.fs.geo.metaspace != 0) then wants(call, AllocFor(path[f - 1 + j]))
      else blks[j - 1] + space.fs.geo.frag
    }

    /** Each of the blocks taken from those free at first is as close as it could be to where it was wanted. */
    ghost predicate Near(free: set<nat>, path: seq<Step>, f: nat, lbn: int, blks: seq<nat>)
      reads this`call
    {
      && 1 <= f && f + |blks| <= |path| + 1
      && forall j :: 0 <= j < |blks| ==> Nearest(free - SetOf(blks[..j]), WantFor(path, f, lbn, blks, j), blks[j])
    }

    lemma NearMore(free: set<nat>, path: seq<Step>, f: nat, lbn: int, blks: seq<nat>, b: nat)
      requires Near(free, path, f, lbn, blks) && f + |blks| <= |path|
      requires Nearest(free - SetOf(blks), WantFor(path, f, lbn, blks, |blks|), b)
      ensures Near(free, path, f, lbn, blks + [b])
    {
      hide Nearest;
      var more := blks + [b];
      forall j | 0 <= j < |more|
        ensures Nearest(free - SetOf(more[..j]), WantFor(path, f, lbn, more, j), more[j])
      {
        assert more[..j] == blks[..j];
        assert j == |blks| ==> blks[..j] == blks;
      }
    }

    /** The requests made are these, and none was refused. */
    ghost predicate Heard(qs: seq<Asked>)
      reads this
    {
      asked == qs && forall q :: q in qs ==> grants(call, q)
    }

    ghost predicate Refused(qs: seq<Asked>)
      reads this`call
    {
      exists q :: q in qs && !grants(call, q)
    }

    ghost predicate Granted(qs: seq<Asked>)
      reads this`call
    {
      forall q :: q in qs ==> grants(call, q)
    }

    /** A call that breaks off has linked k new blocks. If the first empty slot is one for an indirect block, it is among them
        unless something was refused until then or no block was free. */
    ghost predicate Broke(free: set<nat>, path: seq<Step>, f: nat, k: nat)
      reads this`call
    {
      if k > 0 then 1 <= f < |path| && Granted(Through(path, f, f))
      else 1 <= f < |path| ==> Refused(Through(path, f, f)) || free == {}
    }

    lemma BrokeLooking(free: set<nat>, path: seq<Step>, f: nat, k: nat, i: nat)
      requires 1 <= f && 1 <= i < |path| && (if k == 0 then i < f else f <= i)
      requires Granted(Through(path, f, i)) && Refused(Fetch(path, i))
      ensures Broke(free, path, f, k)
    {
      hide Through, Fetch;
      if k > 0 {
        ThroughGrows(path, f, f, i);
      } else if f < |path| {
        ThroughGrows(path, f, i, f);
        var q :| q in Fetch(path, i) && !grants(call, q);
        assert q in Through(path, f, i) + Fetch(path, i);
      }
    }

    lemma BrokeLinking(free: set<nat>, path: seq<Step>, f: nat, k: nat, i: nat)
      requires 1 <= f && f + k == i < |path| && (i > 1 ==> Granted(Through(path, f, i - 1)))
      requires Refused(NewBlock(path, f, i)) || (k == 0 ==> free == {})
      ensures Broke(free, path, f, k)
    {
      hide Through, NewBlock;
      if k > 0 {
        ThroughGrows(path, f, f, i - 1);
      } else if free != {} {
        var q :| q in NewBlock(path, f, i) && !grants(call, q);
        NewInWalked(path, f, i, q);
      }
    }

    lemma BrokeAtData(free: set<nat>, path: seq<Step>, f: nat, k: nat)
      requires 1 <= f && |path| >= 2 && (if k == 0 then |path| - 1 < f else f <= |path| - 1)
      requires Granted(Walked(path, f))
      ensures Broke(free, path, f, k)
    {
      hide Through, Fetch;
      if k > 0 {
        ThroughGrows(path, f, f, |path| - 1);
      }
    }

    /** The first empty slot is one of an indirect block for another, the new block for it is there to be had, and when the
        slot is to be emptied again its block cannot be read. */
    ghost predicate Stuck(t: Tree, o: seq<nat>)
      requires Shaped(n, t) && Place(n, o)
      reads this`call
    {
      var f, p := FirstMissing(n, t, o), Steps(n, o);
      1 < f < |p| && Granted(Through(p, f, f)) && !grants(call, ReadAgain(p[f - 1].lbn))
    }

    lemma StuckIf(s: Snap, c: Snap, o: seq<nat>, f: nat, u: Undo, k: nat)
      requires Books(unit, s, c, u.blks) && Recorded(n, s, c, o, f, u, k) && Broke(s.pool, Steps(n, o), f, k) && |o| >= 2
      ensures Shaped(n, s.t) && Place(n, o) && |Steps(n, o)| == |o|
      ensures s.pool != {} && Stuck(s.t, o) <==> k > 0 && 1 < f <= |o| && !grants(call, ReadAgain(Steps(n, o)[f - 1].lbn))
    {
      hide Lookup, Grown, Requests, RequestsFor, FirstEmpty, Through, Steps, FirstMissing, Shaped, Name, Place;
      RequestsAre(n, s.t, o, f, 0, false, false);
      BooksNone(unit, s, c, u.blks);
    }

    lemma NewRefused(p: seq<Step>, f: nat, i: nat)
      requires 1 <= i < |p|
      ensures Refused(NewBlock(p, f, i)) ==> Refused(Walked(p, f))
    {
      hide Through, Walked;
      if Refused(NewBlock(p, f, i)) {
        var q :| q in NewBlock(p, f, i) && !grants(call, q);
        NewInWalked(p, f, i, q);
      }
    }

    lemma FetchRefused(p: seq<Step>, f: nat, i: nat)
      requires 1 <= i < |p|
      ensures Refused(Fetch(p, i)) ==> Refused(Walked(p, f))
    {
      hide Through, Walked;
      if Refused(Fetch(p, i)) {
        var q :| q in Fetch(p, i) && !grants(call, q);
        FetchInWalked(p, f, i, q);
      }
    }

    /** There is no free block left for one of the slots up to last. */
    ghost predicate Dry(f: nat, u: Undo, last: nat)
      reads this
    {
      pool == {} && f + |u.blks| <= last
    }

    /** Asks for something that may be refused. */
    method Ask(q: Asked) returns (ok: bool)
      modifies this`asked
      ensures asked == old(asked) + [q] && ok == grants(call, q)
    {
      ok := grants(call, q);
      asked := asked + [q];
    }

    /** ffs_alloc of a whole block: one of the free blocks, unless it is refused or there is none. */
    method Alloc(q: Asked, want: nat) returns (b: nat)
      requires Valid()
      modifies this, space, space.parts
      ensures Valid() && (b != 0 ==> b in old(pool)) && call == old(call)
      ensures asked == old(asked) + [q] && (b == 0 <==> !grants(call, q) || old(pool) == {})
      ensures b != 0 ==> Nearest(old(pool), want, b)
      ensures Now() == if b == 0 then old(Now())
        else old(Now()).(pool := old(pool) - {b}, blocks := old(blocks) + unit, taken := old(taken) + [b])
    {
      hide BlockPool.Space.Linked, Shaped;
      var granted := Ask(q);
      b := 0;
      if granted {
        b := space.Take(want, pool);
        if b != 0 {
          pool := pool - {b};
          blocks := blocks + unit;
          taken := taken + [b];
        }
      }
    }

    method BlkFree(b: nat)
      requires Valid() && b != 0 && b in All() - pool
      modifies this, space, space.parts
      ensures call == old(call) && asked == old(asked)
      ensures Valid() && Now() == old(Now()).(pool := old(pool) + {b}, freed := old(freed) + [b])
    {
      hide BlockPool.Space.Linked, BlockPool.Pool, Shaped;
      space.Give(b, pool);
      pool := pool + {b};
      freed := freed + [b];
    }

    /** getblk and buf_clear of a new indirect block. */
    method GetBlank(lbn: int)
      requires Valid()
      modifies this
      ensures call == old(call) && asked == old(asked)
      ensures Valid() && Now() == old(Now()).(t := Blanked(n, old(Now().t), lbn))
    {
      bufs := bufs[lbn := Zeros(n)];
    }

    /** Stores a pointer in slot i of the path. */
    method Store(path: seq<Step>, i: nat, b: nat)
      requires Valid() && i < |path| && path[i].off < (if i == 0 then NIADDR else n)
      modifies this
      ensures call == old(call) && asked == old(asked)
      ensures Valid() && Now() == old(Now()).(t := Link(n, old(Now().t), path, i, b))
      ensures forall l :: l in bufs && l !in old(bufs) ==> i > 0 && l == path[i].lbn
    {
      if i == 0 {
        ib := ib[path[0].off := b];
      } else {
        bufs := bufs[path[i].lbn := Contents(n, Tree(ib, bufs), path[i].lbn)[path[i].off := b]];
      }
    }

    /** The address after the last block taken, or 0. */
    function After(blks: seq<nat>): nat {
      if blks == [] then 0 else blks[|blks| - 1] + space.fs.geo.frag
    }

    lemma AfterLast(blks: seq<nat>, b: nat)
      ensures After(blks + [b]) == b + space.fs.geo.frag
    {}

    lemma LinkWant(path: seq<Step>, f: nat, lbn: int, blks: seq<nat>, i: nat)
      requires 1 <= f && f + |blks| == i + 1 < |path| && 0 !in blks
      ensures WantFor(path, f, lbn, blks, |blks|) == if After(blks) == 0 then wants(call, AllocFor(path[i])) else After(blks)
    {}

    /** Takes the indirect block missing in slot i of the path, records and blanks it. */
    method NewIndirect(ghost s: Snap, ghost o: seq<nat>, ghost f: nat, path: seq<Step>, i: nat, u0: Undo, pref: nat, ghost lbn: int)
      returns (b: nat, u: Undo)
      requires Near(s.pool, path, f, lbn, u0.blks) && pref == After(u0.blks)
      requires Mid(s, o, f, u0, |u0.blks|) && Place(n, o) && path == Steps(n, o) && 1 <= f && f + |u0.blks| == i + 1 < |o| <= 4
      requires Place(n, o[..i + 1]) && Lookup(n, Now().t, o[..i + 1]) == 0
      requires i > 0 ==> Place(n, o[..i]) && Lookup(n, Now().t, o[..i]) != 0
      modifies this, space, space.parts
      ensures call == old(call) && asked == old(asked) + [AllocFor(path[i])]
      ensures b == 0 <==> !grants(call, AllocFor(path[i])) || old(pool) == {}
      ensures Mid(s, o, f, u, |u0.blks|) && if b == 0 then u == u0 && Now() == old(Now()) else u.blks == u0.blks + [b]
      ensures b != 0 ==> Near(s.pool, path, f, lbn, u.blks) && Levels(o[..i + 1]) >= 1 && Blank(n, Now().t, o[..i + 1])
      ensures b != 0 ==> Lookup(n, Now().t, o[..i + 1]) == 0 && (i > 0 ==> Lookup(n, Now().t, o[..i]) != 0)
    {
      hide BlockPool.Space.Linked, BlockPool.Pool, Books, Recorded, Lookup, Blank, Place, Steps, Name, Blanked, Levels, Shaped,
        Near, Nearest, WantFor, After;
      ghost var c := Now();
      NoZero(unit, s, c, u0.blks);
      b := Alloc(AllocFor(path[i]), if pref == 0 then wants(call, AllocFor(path[i])) else pref);
      if b == 0 {
        return b, u0;
      }
      Prepared(n, unit, s, c, o, f, u0, b, i);
      BooksPool(unit, s, c, u0.blks);
      LinkWant(path, f, lbn, u0.blks, i);
      NearMore(s.pool, path, f, lbn, u0.blks, b);
      var name := path[i + 1].lbn;
      u := Noted(u0, b, name);
      NotedBlks(u0, b, name);
      GetBlank(name);
    }

    /** Allocates the indirect block missing in slot i of the path, and links it. */
    method LinkNew(ghost s: Snap, ghost o: seq<nat>, ghost f: nat, path: seq<Step>, i: nat, u0: Undo, pref: nat, ghost qs: seq<Asked>,
                   ghost lbn: int)
      returns (ok: bool, u: Undo, next: nat)
      requires Heard(qs) && Near(s.pool, path, f, lbn, u0.blks) && pref == After(u0.blks)
      requires Mid(s, o, f, u0, |u0.blks|) && Place(n, o) && path == Steps(n, o) && 1 <= f && f + |u0.blks| == i + 1 < |o| <= 4
      requires Place(n, o[..i + 1]) && Lookup(n, Now().t, o[..i + 1]) == 0
      requires i > 0 ==> Place(n, o[..i]) && Lookup(n, Now().t, o[..i]) != 0
      modifies this, space, space.parts
      ensures ok ==> Mid(s, o, f, u, |u.blks|) && Reached(n, s, Now(), o, f, u, i + 1)
      ensures !ok ==> Mid(s, o, f, u, |u0.blks|) && (u.blks != [] ==> f + |u.blks| <= |o|)
      ensures call == old(call) && (ok ==> Near(s.pool, path, f, lbn, u.blks) && next == After(u.blks))
      ensures if ok then Heard(qs + NewBlock(path, f, i + 1)) else Refused(NewBlock(path, f, i + 1)) || Dry(f, u, |o| - 1)
      ensures !ok ==> Refused(NewBlock(path, f, i + 1)) || old(pool) == {}
    {
      hide BlockPool.Space.Linked, BlockPool.Pool, Books, Recorded, Lookup, Blank, Place, Steps, Name, Blanked, Link,
        Relinked, Reached, Levels, Shaped, Near, Nearest, WantFor, After;
      var b;
      b, u := NewIndirect(s, o, f, path, i, u0, pref, lbn);
      if b == 0 {
        return false, u, pref;
      }
      var written := Ask(WriteNew(path[i + 1].lbn));
      if !written {
        return false, u, pref;
      }
      LinkedIn(n, unit, s, Now(), o, f, u, |u0.blks|, i);
      Store(path, i, b);
      u := Relinked(u, i);
      next := b + space.fs.geo.frag;
      AfterLast(u0.blks, b);
      ok := true;
      assert qs + [AllocFor(path[i])] + [WriteNew(path[i + 1].lbn)] == qs + NewBlock(path, f, i + 1);
      ReachedMid(n, s, Now(), o, f, u, i + 1);
    }

    /** The inode's own slot first. */
    method FirstIndirect(ghost s: Snap, ghost o: seq<nat>, ghost f: nat, path: seq<Step>, ghost lbn: int)
      returns (ok: bool, u: Undo, pref: nat, ghost k: nat)
      requires Heard([])
      requires Valid() && s == Now() && Place(n, o) && Levels(o) == 0 && FirstEmpty(n, s.t, o, f) && path == Steps(n, o) && |o| >= 2
      modifies this, space, space.parts
      ensures ok ==> Mid(s, o, f, u, |u.blks|) && Reached(n, s, Now(), o, f, u, 1)
      ensures !ok ==> Mid(s, o, f, u, k) && (u.blks != [] ==> f + |u.blks| <= |o|)
      ensures call == old(call) && |path| >= 2 && (ok ==> Near(s.pool, path, f, lbn, u.blks) && pref == After(u.blks))
      ensures if ok then Heard(Through(path, f, 1)) else Refused(Through(path, f, 1)) || Dry(f, u, |o| - 1)
      ensures !ok ==> Broke(s.pool, path, f, k)
    {
      hide BlockPool.Space.Linked, BlockPool.Pool, Books, Recorded, Lookup, Reached, FirstEmpty, Steps;
      u, k, pref := Undo([], [], false, -1), 0, 0;
      PoolWithin();
      EmptyBound(n, s.t, o, f);
      AtFirst(n, unit, s, o, f);
      FirstPointer(n, s, o, f);
      var nb := ib[path[0].off];
      assert [] + NewBlock(path, f, 1) == Through(path, f, 1) == NewBlock(path, f, 1);
      if nb == 0 {
        ok, u, pref := LinkNew(s, o, f, path, 0, u, pref, [], lbn);
        if !ok {
          BrokeLinking(s.pool, path, f, 0, 1);
        }
      } else {
        ReachedNone(n, s, s, o, f, u, 1);
        ok := true;
      }
    }

    /** Reads the indirect block of step i, and the pointer in its slot, which is checked. */
    method Look(path: seq<Step>, i: nat, ghost qs: seq<Asked>) returns (ok: bool, nb: nat)
      requires Valid() && Heard(qs) && i < |path| && path[i].off < n
      modifies this`asked
      ensures Valid() && if ok then Heard(qs + Fetch(path, i)) else Refused(Fetch(path, i))
      ensures ok ==> nb == Contents(n, Now().t, path[i].lbn)[path[i].off]
    {
      hide BlockPool.Space.Linked, Shaped, Contents;
      nb := 0;
      ok := Ask(ReadInd(path[i].lbn));
      if ok {
        nb := Contents(n, Tree(ib, bufs), path[i].lbn)[path[i].off];
        ok := Ask(CheckPtr(path[i]));
      }
      assert qs + [ReadInd(path[i].lbn)] + [CheckPtr(path[i])] == qs + Fetch(path, i);
    }

    /** The loop through the indirect blocks; nb is what the last one holds for the data block. */
    method Walk(ghost s: Snap, ghost o: seq<nat>, ghost f: nat, path: seq<Step>, u0: Undo, pref0: nat, ghost lbn: int)
      returns (ok: bool, nb: nat, u: Undo, pref: nat, ghost k: nat)
      requires |path| >= 2 && Heard(Through(path, f, 1)) && Near(s.pool, path, f, lbn, u0.blks) && pref0 == After(u0.blks)
      requires Mid(s, o, f, u0, |u0.blks|) && Reached(n, s, Now(), o, f, u0, 1)
      requires Place(n, o) && Levels(o) == 0 && path == Steps(n, o) && 1 <= f
      modifies this, space, space.parts
      ensures ok ==> Mid(s, o, f, u, |u.blks|) && Reached(n, s, Now(), o, f, u, |o| - 1) && nb == Lookup(n, Now().t, o)
      ensures !ok ==> Mid(s, o, f, u, k) && (u.blks != [] ==> f + |u.blks| <= |o|)
      ensures call == old(call) && (ok ==> Near(s.pool, path, f, lbn, u.blks) && pref == After(u.blks))
      ensures if ok then Heard(Walked(path, f)) else Refused(Walked(path, f)) || Dry(f, u, |o| - 1)
      ensures !ok ==> Broke(s.pool, path, f, k)
    {
      hide BlockPool.Space.Linked, BlockPool.Pool, Books, Recorded, Lookup, Reached, FirstEmpty, Shaped, Steps, Contents, Name,
        Grown, Through, Walked, NewBlock, Fetch;
      u, k, nb, ok, pref := u0, 0, 0, false, pref0;
      var num := |path| - 1;
      var i := 1;
      while true
        invariant 1 <= i <= num && Mid(s, o, f, u, |u.blks|) && Reached(n, s, Now(), o, f, u, i)
        invariant call == old(call) && Heard(Through(path, f, i))
        invariant Near(s.pool, path, f, lbn, u.blks) && pref == After(u.blks)
        decreases num - i
      {
        k := |u.blks|;
        BooksNone(unit, s, Now(), u.blks);
        ReachedBound(n, s, Now(), o, f, u, i);
        NoZero(unit, s, Now(), u.blks);
        NextPointer(n, unit, s, Now(), o, f, u, i);
        StepAt(n, o, i);
        var there;
        there, nb := Look(path, i, Through(path, f, i));
        if !there {
          FetchRefused(path, f, i);
          BrokeLooking(s.pool, path, f, k, i);
          return;
        }
        ghost var qs := Through(path, f, i) + Fetch(path, i);
        if i == num {
          assert o[..i + 1] == o;
          WalkedIs(path, f);
          ok := true;
          return;
        }
        i := i + 1;
        ThroughNext(path, f, i);
        if nb != 0 {
          ReachedNone(n, s, Now(), o, f, u, i);
          continue;
        }
        ok, u, pref := LinkNew(s, o, f, path, i - 1, u, pref, qs, lbn);
        if !ok {
          NewRefused(path, f, i);
          BrokeLinking(s.pool, path, f, k, i);
          return;
        }
        ok := false;
      }
    }

    /** Gives a recorded block back, each once and in the order they were taken. */
    method FreeAll(blks: seq<nat>)
      requires Valid() && 0 !in blks && SetOf(blks) <= All() - pool && forall i, j :: 0 <= i < j < |blks| ==> blks[i] != blks[j]
      modifies this, space, space.parts
      ensures call == old(call) && asked == old(asked)
      ensures Valid() && Now() == old(Now()).(pool := old(pool) + SetOf(blks), freed := old(freed) + blks)
    {
      hide BlockPool.Space.Linked, BlockPool.Pool, Shaped, SetOf;
      var j := 0;
      NoBlocks();
      while j < |blks|
        invariant 0 <= j <= |blks| && Valid()
        invariant call == old(call) && asked == old(asked)
        invariant Now() == old(Now()).(pool := old(pool) + SetOf(blks[..j]), freed := old(freed) + blks[..j])
      {
        NextBlock(blks, j);
        BlkFree(blks[j]);
        j := j + 1;
      }
      assert blks[..j] == blks;
    }

    /** No buffer is left of the m indirect blocks that step f of the path on would lead through. */
    ghost predicate Gone(path: seq<Step>, f: nat, m: nat)
      reads this`bufs
    {
      forall j :: f <= j < f + m && j < |path| ==> path[j].lbn !in bufs
    }

    /** Drops the buffers of the recorded blocks. */
    method DiscardAll(ghost s: Snap, ghost o: seq<nat>, ghost f: nat, lbns: seq<int>)
      requires Valid() && Place(n, o) && 1 <= f && f + |lbns| <= |o| && Place(n, o[..f]) && Agree(n, s.t, Now().t, o[..f])
      requires forall j :: 0 <= j < |lbns| && f + j < |o| ==> lbns[j] == Name(n, o[..f + j])
      modifies this
      ensures Valid() && Now() == old(Now()).(t := Now().t) && call == old(call) && asked == old(asked)
      ensures Agree(n, s.t, Now().t, o[..f]) && Lookup(n, Now().t, o[..f]) == old(Lookup(n, Now().t, o[..f]))
      ensures forall l :: l in lbns ==> l !in bufs
    {
      hide BlockPool.Space.Linked, BlockPool.Pool, Lookup, Agree, Shaped, Name;
      var j := 0;
      while j < |lbns|
        invariant 0 <= j <= |lbns| && forall l :: l in lbns[..j] ==> l !in bufs
        invariant Valid() && Now() == old(Now()).(t := Now().t) && call == old(call) && asked == old(asked)
        invariant Agree(n, s.t, Now().t, o[..f]) && Lookup(n, Now().t, o[..f]) == old(Lookup(n, Now().t, o[..f]))
      {
        DiscardStep(n, s.t, Now().t, o, f, f + j);
        bufs := bufs - {lbns[j]};
        j := j + 1;
      }
    }

    /** Empties the first slot that was filled, if one was; a slot of an indirect block has to be read again. */
    method Unwind(ghost s: Snap, ghost o: seq<nat>, ghost f: nat, path: seq<Step>, u: Undo, ghost k: nat) returns (ok: bool)
      requires Valid() && Place(n, o) && 1 <= f <= |o| && Place(n, o[..f]) && path == Steps(n, o)
      requires Agree(n, s.t, Now().t, o[..f]) && Shaped(n, s.t) && Lookup(n, s.t, o[..f]) == 0
      requires k == 0 ==> Lookup(n, Now().t, o[..f]) == 0
      requires u.allocib == (k > 0 && f == 1) && u.unwindidx == if k > 0 && f > 1 then f - 1 else -1
      modifies this
      ensures !ok <==> u.unwindidx >= 0 && !grants(call, ReadAgain(path[f - 1].lbn))
      ensures !ok ==> Now() == old(Now())
      ensures call == old(call)
      ensures ok ==> Valid() && Now() == old(Now()).(t := Now().t) && Same(n, s.t, Now().t)
      ensures forall l :: l in bufs && l !in old(bufs) ==> f > 1 && l == path[f - 1].lbn
    {
      hide BlockPool.Space.Linked, BlockPool.Pool, Lookup, Agree, Shaped, Name, Same, Linked, Link, Steps, Place;
      ghost var t := Now().t;
      ok := true;
      if u.allocib {
        LinkIs(n, t, o, 0, 0);
        Store(path, 0, 0);
        Unlink(n, s.t, t, Now().t, o[..f]);
      } else if u.unwindidx >= 0 {
        ok := Ask(ReadAgain(path[u.unwindidx].lbn));
        if ok {
          LinkIs(n, t, o, u.unwindidx, 0);
          Store(path, u.unwindidx, 0);
          Unlink(n, s.t, t, Now().t, o[..f]);
        }
      } else {
        AgreeHole(n, s.t, t, o[..f]);
      }
    }

    lemma StayGone(o: seq<nat>, f: nat, path: seq<Step>, lbns: seq<int>)
      requires n >= 3 && Place(n, o) && path == Steps(n, o) && 1 <= f && f + |lbns| <= |o|
      requires forall j :: 0 <= j < |lbns| ==> lbns[j] == Name(n, o[..f + j])
      requires forall l :: l in lbns && l in bufs ==> f > 1 && l == path[f - 1].lbn
      ensures Gone(path, f, |lbns|)
    {
      hide Name, Steps;
      forall i | f <= i < f + |lbns| && i < |path|
        ensures path[i].lbn !in bufs
      {
        StepAt(n, o, i);
        assert path[i].lbn == lbns[i - f];
        if f > 1 && path[i].lbn == path[f - 1].lbn {
          StepAt(n, o, f - 1);
          PlacePrefix(n, o, i);
          PlacePrefix(n, o, f - 1);
          Lbns.NamesDiffer(n, o[..i], o[..f - 1]);
        }
      }
    }

    /** The code from the label fail on: gives back what was taken, and the file is as it was. */
    method Fail(ghost s: Snap, ghost o: seq<nat>, ghost f: nat, path: seq<Step>, u: Undo, ghost k: nat) returns (out: Outcome)
      requires Mid(s, o, f, u, k) && (u.blks != [] ==> f + |u.blks| <= |o|) && Place(n, o) && path == Steps(n, o)
      modifies this, space, space.parts
      ensures out != Done && (out == Panicked ==> freed == s.freed)
      ensures out == Panicked <==> k > 0 && 1 < f <= |path| && !grants(call, ReadAgain(path[f - 1].lbn))
      ensures call == old(call)
      ensures out == Failed ==> Valid() && Same(n, s.t, Now().t)
      ensures out == Failed ==> Now() == s.(t := Now().t, taken := s.taken + u.blks, freed := s.freed + u.blks)
      ensures out == Failed ==> Gone(path, f, |u.blks|)
    {
      hide BlockPool.Space.Linked, BlockPool.Pool, Lookup, Agree, Shaped, Name, Same, Link, Steps, Books,
        Recorded, Place, FirstEmpty, Grown;
      RecordedFacts(n, s, Now(), o, f, u, k);
      ghost var c := Now();
      if u.blks == [] && !u.allocib && u.unwindidx == -1 {
        NothingDone(n, unit, s, c, o, f, u, k);
        assert s.taken + u.blks == s.taken && s.freed + u.blks == s.freed;
        return Failed;
      }
      FailFacts(n, unit, s, c, o, f, u, k);
      NoZero(unit, s, c, u.blks);
      BooksClose(unit, s, c, u.blks);
      BooksGive(unit, s, c, u.blks);
      DiscardAll(s, o, f, u.lbns);
      var deallocated := unit * |u.lbns|;
      var ok := Unwind(s, o, f, path, u, k);
      if !ok {
        return Panicked;
      }
      StayGone(o, f, path, u.lbns);
      if deallocated != 0 {
        blocks := blocks - deallocated;
      }
      FreeAll(u.blks);
      return Failed;
    }

    /** The data block, once its indirect blocks are there. */
    method DataBlock(ghost s: Snap, ghost o: seq<nat>, ghost f: nat, path: seq<Step>, lbn: int, nb: nat, u0: Undo,
                     pref: nat, clrbuf: bool) returns (ok: bool, u: Undo, ghost k: nat)
      requires |path| >= 2 && Heard(Walked(path, f)) && Near(s.pool, path, f, lbn, u0.blks) && pref == After(u0.blks)
      requires Mid(s, o, f, u0, |u0.blks|) && Place(n, o) && Levels(o) == 0 && path == Steps(n, o)
      requires Reached(n, s, Now(), o, f, u0, |o| - 1) && nb == Lookup(n, Now().t, o)
      modifies this, space, space.parts
      ensures ok ==> Mid(s, o, f, u, |u.blks|) && Reached(n, s, Now(), o, f, u, |o|)
      ensures !ok ==> Mid(s, o, f, u, k) && (u.blks != [] ==> f + |u.blks| <= |o|)
      ensures call == old(call) && (ok ==> Near(s.pool, path, f, lbn, u.blks))
      ensures var qs := Requests(path, f, lbn, false, clrbuf); if ok then Heard(qs) else Refused(qs) || Dry(f, u, |o|)
      ensures !ok ==> Broke(s.pool, path, f, k)
    {
      hide BlockPool.Space.Linked, BlockPool.Pool, Lookup, Shaped, Name, Link, Steps, Books, Recorded,
        Reached, FirstEmpty, Grown, Relinked, Noted, TakenFrom, Near, Nearest, Broke, Place, Levels, Walked;
      ghost var c := Now();
      var i := |path| - 1;
      u, k, ok := u0, |u0.blks|, true;
      NoZero(unit, s, c, u.blks);
      NextPointer(n, unit, s, c, o, f, u, i);
      ReachedBound(n, s, c, o, f, u, i);
      BrokeAtData(s.pool, path, f, k);
      assert o[..i + 1] == o;
      if nb != 0 {
        ReachedNone(n, s, c, o, f, u, |o|);
      }
      if nb == 0 {
        var want := if pref == 0 || (lbn > NDADDR && space.fs.geo.metaspace != 0) then wants(call, AllocFor(path[i])) else pref;
        var b := Alloc(AllocFor(path[i]), want);
        if b == 0 {
          ok := false;
          return;
        }
        BooksPool(unit, s, c, u.blks);
        NearMore(s.pool, path, f, lbn, u.blks, b);
        NotedBlks(u, b, lbn);
        DataLinked(n, unit, s, c, o, f, u, b, lbn, i);
        u := Relinked(Noted(u, b, lbn), i);
        Store(path, i, b);
        TakenIs(unit, c, b);
        ReachedMid(n, s, Now(), o, f, u, |o|);
      } else if clrbuf {
        ok := Ask(ReadData(lbn));
      }
    }

    /**
      * ffs_balloc_ufs2 for a block behind an indirect block: it does all of the work or none, and it does it
      * exactly when the block number is in range, nothing is refused and there are enough free blocks.
      */
    method Balloc(lbn: int, metaonly: bool, clrbuf: bool) returns (out: Outcome, ghost o: seq<nat>, ghost ns: seq<nat>)
      requires Valid() && lbn >= NDADDR
      modifies this, space, space.parts
      ensures call == old(call) + 1 && (lbn >= Base(n, NIADDR) ==> out == Failed && asked == [])
      ensures lbn < Base(n, NIADDR) ==>
        && Place(n, o) && Levels(o) == 0 && Start(n, o) == lbn
        && (out == Done <==>
              && (forall q :: q in RequestsFor(n, old(Now().t), o, lbn, metaonly, clrbuf) ==> grants(call, q))
              && Missing(n, old(Now().t), o, Last(o, metaonly)) <= old(space.fs.nbfree))
      ensures out == Done ==> asked == RequestsFor(n, old(Now().t), o, lbn, metaonly, clrbuf)
      ensures out == Done ==> Near(old(pool), Steps(n, o), FirstMissing(n, old(Now().t), o), lbn, ns)
      ensures out == Done ==> Place(n, o[..Last(o, metaonly)]) && Filled(n, old(Now().t), Now().t, o, Last(o, metaonly), ns)
      ensures out == Done ==> Valid() && Books(unit, old(Now()), Now(), ns)
      ensures out == Panicked ==> Place(n, o) && old(ib)[o[0]] != 0 && freed == old(freed)
      ensures lbn < Base(n, NIADDR) ==> (out == Panicked <==> out != Done && old(space.fs.nbfree) > 0 && Stuck(old(Now().t), o))
      ensures out == Failed ==> Valid() && Same(n, old(Now().t), Now().t)
      ensures out == Failed ==> Now() == old(Now()).(t := Now().t, taken := old(taken) + ns, freed := old(freed) + ns)
      ensures out == Failed && lbn < Base(n, NIADDR) ==> Gone(Steps(n, o), FirstMissing(n, old(Now().t), o), |ns|)
      ensures out == Failed ==> space.fs.Frees() == old(space.fs.Frees()) && space.fs.Owns() == old(space.fs.Owns())
      ensures out == Failed ==> BlockPool.Recapped(space.fs, old(space.fs.Frees()))
      ensures out == Done ==>
        BlockPool.Lent(space.fs.geo, old(Workload.StateOf(space.fs, space.live)), Workload.StateOf(space.fs, space.live), SetOf(ns))
    {
      hide BlockPool.Space.Linked, BlockPool.Pool, BlockPool.Recapped, BlockPool.Lent, Lookup, Shaped, Name, Link, Steps,
        Books, Recorded, Reached, FirstEmpty, Grown, Relinked, Noted, TakenFrom, Filled, Start, Base, Place, Same, Missing,
        Requests, RequestsFor, FirstMissing, File.Near, File.Stuck, File.Broke, File.Gone;
      ghost var s, w := Now(), Workload.StateOf(space.fs, space.live);
      space.Account(pool);
      ns := [];
      call := call + 1;
      asked := [];
      var err, path, o' := GetLbns(n, lbn);
      assert Now() == s;
      o := o';
      if err != 0 {
        SameSelf(n, s.t);
        assert s.taken + [] == s.taken && s.freed + [] == s.freed;
        space.Account(pool);
        BlockPool.Changed(space.fs.geo, space.base, w, Workload.StateOf(space.fs, space.live), s.pool, pool);
        return Failed, o, ns;
      }
      DataPlace(n, o);
      ghost var f := FirstHole(n, s.t, o, 1);
      FirstPointer(n, s, o, f);
      EmptyBound(n, s.t, o, f);
      RequestsAre(n, s.t, o, f, lbn, metaonly, clrbuf);
      var ok, u, k := Attempt(s, o, f, path, lbn, metaonly, clrbuf);
      if ok {
        DoneFits(n, unit, s, Now(), o, f, u, Last(o, metaonly));
        BooksGone(unit, s, Now(), u.blks);
        space.Account(pool);
        BlockPool.Changed(space.fs.geo, space.base, w, Workload.StateOf(space.fs, space.live), s.pool, pool);
        return Done, o, u.blks;
      }
      DryTooFew(n, unit, s, Now(), o, f, u, Last(o, metaonly));
      StuckIf(s, Now(), o, f, u, k);
      out := Fail(s, o, f, path, u, k);
      ns := u.blks;
      if out == Failed {
        space.Account(pool);
        BlockPool.Changed(space.fs.geo, space.base, w, Workload.StateOf(space.fs, space.live), s.pool, pool);
      }
    }

    /** The steps up to the label fail. */
    method Attempt(ghost s: Snap, ghost o: seq<nat>, ghost f: nat, path: seq<Step>, lbn: int, metaonly: bool, clrbuf: bool)
      returns (ok: bool, u: Undo, ghost k: nat)
      requires Valid() && s == Now() && Heard([]) && Place(n, o) && Levels(o) == 0 && 2 <= |o| && path == Steps(n, o)
      requires FirstEmpty(n, s.t, o, f) && 1 <= f
      modifies this, space, space.parts
      ensures ok ==> Mid(s, o, f, u, |u.blks|) && Reached(n, s, Now(), o, f, u, Last(o, metaonly))
      ensures !ok ==> Mid(s, o, f, u, k) && (u.blks != [] ==> f + |u.blks| <= |o|)
      ensures call == old(call) && (ok ==> Near(s.pool, path, f, lbn, u.blks))
      ensures var qs := Requests(path, f, lbn, metaonly, clrbuf); if ok then Heard(qs) else Refused(qs) || Dry(f, u, Last(o, metaonly))
      ensures !ok ==> Broke(s.pool, path, f, k)
    {
      hide BlockPool.Space.Linked, BlockPool.Pool, Lookup, Shaped, Name, Steps, Books, Recorded, Reached, FirstEmpty, Grown,
        Place;
      var pref;
      ok, u, pref, k := FirstIndirect(s, o, f, path, lbn);
      if !ok {
        NewRefused(path, f, 1);
        AllAsked(path, f, lbn, metaonly, clrbuf);
        return;
      }
      var nb;
      ok, nb, u, pref, k := Walk(s, o, f, path, u, pref, lbn);
      AllAsked(path, f, lbn, metaonly, clrbuf);
      if ok && !metaonly {
        ok, u, k := DataBlock(s, o, f, path, lbn, nb, u, pref, clrbuf);
      }
    }
  }

  /** The requests of a call that succeeds, from the pointers as they were. */
  function RequestsFor(n: nat, t: Tree, o: seq<nat>, lbn: int, metaonly: bool, clrbuf: bool): seq<Asked>
    requires Shaped(n, t) && Place(n, o)
  {
    if |o| < 2 then [] else Requests(Steps(n, o), FirstMissing(n, t, o), lbn, metaonly, clrbuf)
  }

  /** The first slot on the way to o that is empty, or one more than there are. */
  function FirstMissing(n: nat, t: Tree, o: seq<nat>): nat
    requires Shaped(n, t) && Place(n, o)
  {
    var missing := Missing(n, t, o, |o|);
    if missing > |o| then 0 else |o| + 1 - missing
  }

  lemma RequestsAre(n: nat, t: Tree, o: seq<nat>, f: nat, lbn: int, metaonly: bool, clrbuf: bool)
    requires Shaped(n, t) && Place(n, o) && |o| >= 2 && FirstEmpty(n, t, o, f)
    ensures RequestsFor(n, t, o, lbn, metaonly, clrbuf) == Requests(Steps(n, o), f, lbn, metaonly, clrbuf)
    ensures FirstMissing(n, t, o) == f
  {
    hide Missing, Requests;
    MissingIs(n, t, o, f, |o|);
    EmptyBound(n, t, o, f);
  }

  lemma AllAsked(p: seq<Step>, f: nat, lbn: int, metaonly: bool, clrbuf: bool)
    requires |p| >= 2
    ensures forall q :: q in Walked(p, f) ==> q in Requests(p, f, lbn, metaonly, clrbuf)
    ensures metaonly ==> Requests(p, f, lbn, metaonly, clrbuf) == Walked(p, f)
  {}

  /** The last slot that a call has to fill: the data block's, or with BA_METAONLY the one before. */
  function Last(o: seq<nat>, metaonly: bool): nat
    requires |o| >= 1
  {
    if metaonly then |o| - 1 else |o|
  }

  /** How many slots on the way to o[..last] are empty. */
  function Missing(n: nat, t: Tree, o: seq<nat>, last: nat): nat
    requires Shaped(n, t) && Place(n, o) && last <= |o|
  {
    if last == 0 then 0 else Missing(n, t, o, last - 1) + if Lookup(n, t, o[..last]) == 0 then 1 else 0
  }

  /** They are the slots from the first empty one on. */
  lemma {:induction false} MissingIs(n: nat, t: Tree, o: seq<nat>, f: nat, last: nat)
    requires Shaped(n, t) && Place(n, o) && last <= |o| && FirstEmpty(n, t, o, f)
    ensures Missing(n, t, o, last) == if f <= last then last + 1 - f else 0
  {
    if last > 0 {
      MissingIs(n, t, o, f, last - 1);
      if f <= last {
        PlacePrefix(n, o, f);
        PlacePrefix(n, o, last);
        Prefixes(o[..f], o[..last], o);
        HoleBelow(n, t, o[..f], o[..last]);
      }
    }
  }

  lemma {:induction false} Distinct(blks: seq<nat>)
    requires forall i, j :: 0 <= i < j < |blks| ==> blks[i] != blks[j]
    ensures |SetOf(blks)| == |blks|
  {
    if blks != [] {
      var m := |blks| - 1;
      Distinct(blks[..m]);
      assert SetOf(blks) == SetOf(blks[..m]) + {blks[m]};
    }
  }

  lemma SubsetSize(a: set<nat>, b: set<nat>)
    requires a <= b
    ensures |a| <= |b|
  {
    assert b == a + (b - a);
  }

  /** A call that reached its last slot has filled the missing ones, so there were enough free blocks. */
  lemma DoneFits(n: nat, unit: nat, s: Snap, c: Snap, o: seq<nat>, f: nat, u: Undo, last: nat)
    requires Books(unit, s, c, u.blks) && Reached(n, s, c, o, f, u, last) && 0 !in s.pool
    ensures Place(n, o) && Shaped(n, s.t) && 1 <= last <= |o| && Missing(n, s.t, o, last) <= |s.pool|
    ensures Place(n, o[..last]) && Filled(n, s.t, c.t, o, last, u.blks)
  {
    hide Lookup, Shaped, Grown, Missing, FirstEmpty, Filled, Place, Levels, Name;
    NoZero(unit, s, c, u.blks);
    ReachedFills(n, s, c, o, f, u, last);
    MissingIs(n, s.t, o, f, last);
    Distinct(u.blks);
    SubsetSize(SetOf(u.blks), s.pool);
  }

  /** One that ran out of free blocks had too few to begin with. */
  lemma DryTooFew(n: nat, unit: nat, s: Snap, c: Snap, o: seq<nat>, f: nat, u: Undo, last: nat)
    requires Books(unit, s, c, u.blks) && Shaped(n, s.t) && Place(n, o) && FirstEmpty(n, s.t, o, f) && last <= |o|
    ensures c.pool == {} && f + |u.blks| <= last ==> Missing(n, s.t, o, last) > |s.pool|
  {
    hide Lookup, Shaped, Missing, FirstEmpty, Place;
    MissingIs(n, s.t, o, f, last);
    Distinct(u.blks);
    if c.pool == {} {
      forall b | b in s.pool
        ensures b in SetOf(u.blks)
      {
        assert b !in c.pool;
      }
      assert s.pool == SetOf(u.blks);
    }
  }

  lemma DataPlace(n: nat, o: seq<nat>)
    requires Place(n, o) && Levels(o) == 0
    ensures 2 <= |o| <= NIADDR + 1
  {}

  lemma SameSelf(n: nat, t: Tree)
    requires Shaped(n, t)
    ensures Same(n, t, t)
  {}

  lemma TakenIs(unit: nat, c: Snap, b: nat)
    ensures TakenFrom(unit, c, b) == c.(pool := c.pool - {b}, blocks := c.blocks + unit, taken := c.taken + [b])
  {}

  lemma RecordedFacts(n: nat, s: Snap, c: Snap, o: seq<nat>, f: nat, u: Undo, k: nat)
    requires Recorded(n, s, c, o, f, u, k)
    ensures Shaped(n, s.t) && |u.lbns| == |u.blks| && k <= |u.blks|
    ensures forall j :: 0 <= j < |u.blks| && f + j < |o| ==> u.lbns[j] == Name(n, o[..f + j])
    ensures u.allocib == (k > 0 && f == 1) && u.unwindidx == if k > 0 && f > 1 then f - 1 else -1
  {}

  /** Giving every block back closes the books. */
  lemma BooksPool(unit: nat, s: Snap, c: Snap, blks: seq<nat>)
    requires Books(unit, s, c, blks)
    ensures c.pool == s.pool - SetOf(blks)
  {}

  lemma BooksNone(unit: nat, s: Snap, c: Snap, blks: seq<nat>)
    requires Books(unit, s, c, blks)
    ensures if blks == [] then c.pool == s.pool else s.pool != {}
  {
    if blks != [] {
      assert blks[0] in SetOf(blks);
    }
  }

  lemma BooksGone(unit: nat, s: Snap, c: Snap, blks: seq<nat>)
    requires Books(unit, s, c, blks)
    ensures c.pool <= s.pool && s.pool - c.pool == SetOf(blks)
  {}

  lemma NoBlocks()
    ensures SetOf([]) == {}
  {}

  lemma NextBlock(blks: seq<nat>, j: nat)
    requires j < |blks| && forall i, k :: 0 <= i < k < |blks| ==> blks[i] != blks[k]
    ensures blks[j] in SetOf(blks) && blks[j] !in SetOf(blks[..j]) && SetOf(blks[..j + 1]) == SetOf(blks[..j]) + {blks[j]}
    ensures blks[..j + 1] == blks[..j] + [blks[j]]
  {}

  /** The blocks taken are different, and were free. */
  lemma BooksGive(unit: nat, s: Snap, c: Snap, blks: seq<nat>)
    requires Books(unit, s, c, blks)
    ensures SetOf(blks) <= s.pool - c.pool && forall i, j :: 0 <= i < j < |blks| ==> blks[i] != blks[j]
  {}

  lemma BooksClose(unit: nat, s: Snap, c: Snap, blks: seq<nat>)
    requires Books(unit, s, c, blks)
    ensures c.pool + SetOf(blks) == s.pool && c.blocks - unit * |blks| == s.blocks
    ensures c.taken == s.taken + blks && c.freed == s.freed
  {}

  lemma ReachedNone(n: nat, s: Snap, c: Snap, o: seq<nat>, f: nat, u: Undo, i: nat)
    requires Reached(n, s, c, o, f, u, i) && u.blks == []
    ensures i < f
  {}

  lemma ReachedBound(n: nat, s: Snap, c: Snap, o: seq<nat>, f: nat, u: Undo, i: nat)
    requires Reached(n, s, c, o, f, u, i) && i < |o|
    ensures u.blks != [] ==> f + |u.blks| <= |o|
    ensures 1 <= f && if u.blks == [] then i < f else f <= i
  {}

  lemma ReachedMid(n: nat, s: Snap, c: Snap, o: seq<nat>, f: nat, u: Undo, i: nat)
    requires Reached(n, s, c, o, f, u, i)
    ensures Recorded(n, s, c, o, f, u, |u.blks|)
  {}
}
