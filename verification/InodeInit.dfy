/** Lazy initialisation of UFS2 inode blocks as a protocol between threads. A thread decides under
    the cylinder-group lock, zeroes the next inode block under that block's buffer lock alone, and
    takes the group lock again to publish the block in cg_initediblk. Each step below is one hold
    of a lock. */
module InodeInit {
  import opened Arith

  datatype Conf = Conf(inopb: nat, niblk: nat) {
    predicate Wf() { inopb > 0 && niblk % inopb == 0 && inopb <= niblk }

    /** The first inode of the block that holds inode i. */
    function BlockOf(i: nat): nat
      requires inopb > 0
    {
      i - i % inopb
    }
  }

  datatype Pc =
    | Idle               // about to take the cg lock at the label restart
    | Waiting(b: nat)    // sleeping on the buffer of block b
    | Zeroing(b: nat)    // owns the buffer of block b, cg lock released
    | Publishing(b: nat) // block b written and released, about to take the cg lock again

  datatype State = State(
    used: set<nat>,       // inodes handed out
    inited: nat,          // cg_initediblk
    lock: map<nat, nat>,  // owner of each busy inode-block buffer
    ready: set<nat>,      // inode blocks that have been zeroed and given generation numbers
    data: map<nat, int>,  // what owners have written into their inodes
    pcs: seq<Pc>)         // one per thread

  datatype Step =
    | Alloc(t: nat, i: nat)   // inode i is far enough below cg_initediblk: take it
    | Start(t: nat, i: nat)   // it is not: claim the buffer of the next block
    | Busy(t: nat, i: nat)    // the same, but another thread owns the buffer
    | Wake(t: nat)            // that thread has let go: start over
    | Zero(t: nat)            // clear the block, write it, release the buffer
    | Publish(t: nat)         // advance cg_initediblk unless somebody else has
    | Write(i: nat, v: int)   // an owner updates its inode under the buffer lock
    | Free(i: nat)            // ffs_freefile

  /** The test after the label gotit. */
  predicate NeedsInit(c: Conf, s: State, i: nat) {
    i + c.inopb > s.inited && s.inited < c.niblk
  }

  predicate Choice(c: Conf, s: State, t: nat, i: nat) {
    t < |s.pcs| && s.pcs[t].Idle? && i < c.niblk && i !in s.used
  }

  predicate Enabled(c: Conf, s: State, st: Step)
    requires c.Wf()
  {
    match st
    case Alloc(t, i) => Choice(c, s, t, i) && !NeedsInit(c, s, i)
    case Start(t, i) => Choice(c, s, t, i) && NeedsInit(c, s, i) && s.inited !in s.lock
    case Busy(t, i) => Choice(c, s, t, i) && NeedsInit(c, s, i) && s.inited in s.lock
    case Wake(t) => t < |s.pcs| && s.pcs[t].Waiting? && s.pcs[t].b !in s.lock
    case Zero(t) => t < |s.pcs| && s.pcs[t].Zeroing?
    case Publish(t) => t < |s.pcs| && s.pcs[t].Publishing?
    case Write(i, _) => i in s.used && c.BlockOf(i) !in s.lock
    case Free(i) => i in s.used
  }

  function Apply(c: Conf, s: State, st: Step): State
    requires c.Wf() && Enabled(c, s, st)
  {
    match st
    case Alloc(_, i) => s.(used := s.used + {i})
    case Start(t, _) => s.(lock := s.lock[s.inited := t], pcs := s.pcs[t := Zeroing(s.inited)])
    case Busy(t, _) => s.(pcs := s.pcs[t := Waiting(s.inited)])
    case Wake(t) => s.(pcs := s.pcs[t := Idle])
    case Zero(t) =>
      var b := s.pcs[t].b;
      s.(lock := s.lock - {b},
         ready := s.ready + {b},
         data := map i | i in s.data && c.BlockOf(i) != b :: s.data[i],
         pcs := s.pcs[t := Publishing(b)])
    case Publish(t) =>
      s.(inited := if s.inited == s.pcs[t].b then s.inited + c.inopb else s.inited,
         pcs := s.pcs[t := Idle])
    case Write(i, v) => s.(data := s.data[i := v])
    case Free(i) => s.(used := s.used - {i})
  }

  /** A thread's program counter is consistent with the locks and the published prefix. */
  ghost predicate ThreadOk(c: Conf, s: State, t: nat)
    requires c.Wf() && t < |s.pcs|
  {
    match s.pcs[t]
    case Zeroing(b) => b % c.inopb == 0 && b <= s.inited && b < c.niblk && b in s.lock && s.lock[b] == t
    case Publishing(b) => b % c.inopb == 0 && b <= s.inited && b < c.niblk && b in s.ready
    case _ => true
  }

  ghost predicate Inv(c: Conf, s: State) {
    && c.Wf()
    && s.inited % c.inopb == 0 && c.inopb <= s.inited <= c.niblk
    && (forall i :: i in s.used ==> i < s.inited)
    && (forall b: nat :: b < s.inited && b % c.inopb == 0 ==> b in s.ready)
    && (forall t: nat :: t < |s.pcs| ==> ThreadOk(c, s, t))
    && (forall b :: b in s.lock ==> s.lock[b] < |s.pcs| && s.pcs[s.lock[b]] == Zeroing(b))
    && (forall i :: i in s.data ==> i < s.inited && c.BlockOf(i) !in s.lock)
  }

  /** The state newfs leaves: the first one or two blocks initialised, no thread active. */
  function Init(c: Conf, used: set<nat>, threads: nat): State
    requires c.Wf()
  {
    var inited := if 2 * c.inopb <= c.niblk then 2 * c.inopb else c.niblk;
    State(used, inited, map[], set b: nat | b < inited && b % c.inopb == 0, map[], seq(threads, _ => Idle))
  }

  lemma InitInv(c: Conf, used: set<nat>, threads: nat)
    requires c.Wf() && forall i :: i in used ==> i < Init(c, used, threads).inited
    ensures Inv(c, Init(c, used, threads))
  {
    if 2 * c.inopb <= c.niblk {
      DivModBase(2, c.inopb, 0);
    }
  }

  lemma BlockAligned(c: Conf, i: nat, inited: nat)
    requires c.Wf() && inited % c.inopb == 0 && i < inited
    ensures c.BlockOf(i) <= i < inited && c.BlockOf(i) != inited
  {}

  /** Zeroing never meets anything an owner has written: no data is in the block. */
  lemma ZeroLosesNothing(c: Conf, s: State, t: nat)
    requires Inv(c, s) && Enabled(c, s, Zero(t))
    ensures Apply(c, s, Zero(t)).data == s.data
  {
    var b := s.pcs[t].b;
    assert ThreadOk(c, s, t);
  }

  lemma StartInv(c: Conf, s: State, t: nat, i: nat)
    requires Inv(c, s) && Enabled(c, s, Start(t, i))
    ensures Inv(c, Apply(c, s, Start(t, i)))
  {
    var s' := Apply(c, s, Start(t, i));
    forall u: nat | u < |s'.pcs|
      ensures ThreadOk(c, s', u)
    {
      assert u != t ==> ThreadOk(c, s, u);
    }
    forall j | j in s'.data
      ensures c.BlockOf(j) !in s'.lock
    {
      BlockAligned(c, j, s.inited);
    }
  }

  lemma ZeroInv(c: Conf, s: State, t: nat)
    requires Inv(c, s) && Enabled(c, s, Zero(t))
    ensures Inv(c, Apply(c, s, Zero(t)))
  {
    var s' := Apply(c, s, Zero(t));
    assert ThreadOk(c, s, t);
    forall u: nat | u < |s'.pcs|
      ensures ThreadOk(c, s', u)
    {
      assert u != t ==> ThreadOk(c, s, u);
    }
  }

  lemma PublishInv(c: Conf, s: State, t: nat)
    requires Inv(c, s) && Enabled(c, s, Publish(t))
    ensures Inv(c, Apply(c, s, Publish(t)))
  {
    var s' := Apply(c, s, Publish(t));
    assert ThreadOk(c, s, t);
    if s.inited == s.pcs[t].b {
      NextMultiple(s.inited, c.inopb, c.niblk);
      forall b: nat | b < s'.inited && b % c.inopb == 0
        ensures b in s'.ready
      {
        if b > s.inited {
          NextMultiple(s.inited, c.inopb, b);
          assert false;
        }
      }
    }
    forall u: nat | u < |s'.pcs|
      ensures ThreadOk(c, s', u)
    {
      assert u != t ==> ThreadOk(c, s, u);
    }
  }

  lemma OtherInv(c: Conf, s: State, st: Step)
    requires Inv(c, s) && Enabled(c, s, st) && !st.Start? && !st.Zero? && !st.Publish?
    ensures Inv(c, Apply(c, s, st))
  {
    var s' := Apply(c, s, st);
    forall u: nat | u < |s'.pcs|
      ensures ThreadOk(c, s', u)
    {
      assert ThreadOk(c, s, u);
    }
  }

  /** Every step of every thread keeps the invariant. */
  lemma StepInv(c: Conf, s: State, st: Step)
    requires Inv(c, s) && Enabled(c, s, st)
    ensures Inv(c, Apply(c, s, st))
  {
    match st
    case Start(t, i) => StartInv(c, s, t, i);
    case Zero(t) => ZeroInv(c, s, t);
    case Publish(t) => PublishInv(c, s, t);
    case _ => OtherInv(c, s, st);
  }

  /** A run: each step is enabled when it is taken. */
  ghost predicate RunOk(c: Conf, s: State, steps: seq<Step>)
    requires c.Wf()
    decreases |steps|
  {
    steps == [] || (Enabled(c, s, steps[0]) && RunOk(c, Apply(c, s, steps[0]), steps[1..]))
  }

  ghost function Run(c: Conf, s: State, steps: seq<Step>): State
    requires c.Wf() && RunOk(c, s, steps)
    decreases |steps|
  {
    if steps == [] then s else Run(c, Apply(c, s, steps[0]), steps[1..])
  }

  /** Over every interleaving: used inodes lie below cg_initediblk, every block below it is
      initialised, and what an owner wrote last into its inode is still there. */
  lemma {:induction false} RunSafe(c: Conf, s: State, steps: seq<Step>)
    requires Inv(c, s) && RunOk(c, s, steps)
    ensures Inv(c, Run(c, s, steps))
    ensures forall i :: i in s.data && (forall k :: 0 <= k < |steps| ==> !(steps[k].Write? && steps[k].i == i)) ==>
      i in Run(c, s, steps).data && Run(c, s, steps).data[i] == s.data[i]
    decreases |steps|
  {
    assert c.Wf();
    hide Inv;
    if steps != [] {
      var st := steps[0];
      var s1 := Apply(c, s, st);
      StepInv(c, s, st);
      RunSafe(c, s1, steps[1..]);
      if st.Zero? {
        ZeroLosesNothing(c, s, st.t);
      }
      forall i | i in s.data && (forall k :: 0 <= k < |steps| ==> !(steps[k].Write? && steps[k].i == i))
        ensures i in Run(c, s, steps).data && Run(c, s, steps).data[i] == s.data[i]
      {
        assert !(steps[0].Write? && steps[0].i == i);
        assert i in s1.data && s1.data[i] == s.data[i];
        assert forall k :: 0 <= k < |steps[1..]| ==> steps[1..][k] == steps[k + 1];
      }
    }
  }

  /** Two threads never zero the same block at the same time. */
  lemma OneZeroer(c: Conf, s: State, t: nat, u: nat)
    requires Inv(c, s) && t < |s.pcs| && u < |s.pcs|
    requires s.pcs[t].Zeroing? && s.pcs[u].Zeroing? && s.pcs[t].b == s.pcs[u].b
    ensures t == u
  {
    assert ThreadOk(c, s, t) && ThreadOk(c, s, u);
  }

  /** A block about to be zeroed has no inode handed out as long as cg_initediblk has not moved past
      it; once it has, the block's first inode may be handed out if it is free. */
  lemma WindowOpen(c: Conf, s: State, t: nat, idle: nat)
    requires Inv(c, s) && Enabled(c, s, Zero(t)) && idle < |s.pcs| && s.pcs[idle].Idle? && s.pcs[t].b !in s.used
    ensures Enabled(c, s, Alloc(idle, s.pcs[t].b)) <==> s.inited > s.pcs[t].b
    ensures s.inited == s.pcs[t].b ==> forall i :: i in s.used ==> c.BlockOf(i) != s.pcs[t].b
  {
    var b := s.pcs[t].b;
    assert ThreadOk(c, s, t);
    if s.inited > b {
      NextMultiple(b, c.inopb, s.inited);
    }
    forall i | i in s.used
      ensures c.BlockOf(i) != s.inited
    {
      BlockAligned(c, i, s.inited);
    }
  }

  /** A thread may hand out inode i exactly when the mark is at least a block's worth of inodes beyond it, or at the end. */
  lemma AllocSlack(c: Conf, s: State, t: nat, i: nat)
    requires Inv(c, s)
    ensures Enabled(c, s, Alloc(t, i)) <==> Choice(c, s, t, i) && (i + c.inopb <= s.inited || s.inited == c.niblk)
    ensures Enabled(c, s, Start(t, i)) || Enabled(c, s, Busy(t, i)) <==> Choice(c, s, t, i) && s.inited < i + c.inopb && s.inited < c.niblk
  {}

  /** Every inode in use has that distance from the mark. */
  ghost predicate Slack(c: Conf, s: State) {
    forall i :: i in s.used ==> i + c.inopb <= s.inited || s.inited == c.niblk
  }

  lemma {:induction false} RunSlack(c: Conf, s: State, steps: seq<Step>)
    requires Inv(c, s) && RunOk(c, s, steps) && Slack(c, s)
    ensures Slack(c, Run(c, s, steps))
    decreases |steps|
  {
    if steps != [] {
      var st, s1 := steps[0], Apply(c, s, steps[0]);
      StepInv(c, s, st);
      if st.Alloc? {
        AllocSlack(c, s, st.t, st.i);
      }
      RunSlack(c, s1, steps[1..]);
    }
  }

  /** A step that zeroes a block in which some inode has already been handed out. */
  ghost predicate LateZero(c: Conf, s: State, t: nat)
    requires c.Wf()
  {
    Enabled(c, s, Zero(t)) && exists i :: i in s.used && c.BlockOf(i) == s.pcs[t].b
  }

  ghost predicate NeverLate(c: Conf, s: State)
    requires c.Wf()
  {
    forall steps: seq<Step>, t: nat :: RunOk(c, s, steps) ==> !LateZero(c, Run(c, s, steps), t)
  }

  /** A thread on its own: the block it is zeroing is still unpublished. */
  ghost predicate Alone(c: Conf, s: State) {
    Inv(c, s) && |s.pcs| <= 1 && forall t: nat :: t < |s.pcs| && s.pcs[t].Zeroing? ==> s.pcs[t].b == s.inited
  }

  lemma {:induction false} AloneRun(c: Conf, s: State, steps: seq<Step>)
    requires Alone(c, s) && RunOk(c, s, steps)
    ensures Alone(c, Run(c, s, steps))
    decreases |steps|
  {
    if steps != [] {
      StepInv(c, s, steps[0]);
      AloneRun(c, Apply(c, s, steps[0]), steps[1..]);
    }
  }

  lemma AloneNotLate(c: Conf, s: State, t: nat)
    requires Alone(c, s)
    ensures !LateZero(c, s, t)
  {
    forall i | i in s.used
      ensures c.BlockOf(i) != s.inited
    {
      BlockAligned(c, i, s.inited);
    }
  }

  lemma RunOne(c: Conf, s: State, st: Step, rest: seq<Step>)
    requires c.Wf() && Enabled(c, s, st) && RunOk(c, Apply(c, s, st), rest)
    ensures RunOk(c, s, [st] + rest) && Run(c, s, [st] + rest) == Run(c, Apply(c, s, st), rest)
  {
    assert ([st] + rest)[1..] == rest;
  }

  /** With two threads: thread 1 claims a block between thread 0's write of it and thread 0's
      publication; its first inode is handed out before thread 1 clears the block. (Nothing is
      lost: the new owner cannot have written yet.) */
  lemma LateRun(c: Conf, used: set<nat>, threads: nat) returns (steps: seq<Step>)
    requires c.Wf() && 2 * c.inopb < c.niblk && threads >= 2 && forall i :: i in used ==> i < 2 * c.inopb
    ensures RunOk(c, Init(c, used, threads), steps) && LateZero(c, Run(c, Init(c, used, threads), steps), 1)
  {
    var s, x := Init(c, used, threads), 2 * c.inopb;
    DivModBase(2, c.inopb, 0);
    var s1 := Apply(c, s, Start(0, x));
    var s2 := Apply(c, s1, Zero(0));
    assert s2.lock == map[] && s2.pcs[1] == Idle;
    var s3 := Apply(c, s2, Start(1, x));
    var s4 := Apply(c, s3, Publish(0));
    var s5 := Apply(c, s4, Alloc(0, x));
    assert c.BlockOf(x) == x && x in s5.used && s5.pcs[1] == Zeroing(x);
    RunOne(c, s4, Alloc(0, x), []);
    RunOne(c, s3, Publish(0), [Alloc(0, x)]);
    RunOne(c, s2, Start(1, x), [Publish(0)] + [Alloc(0, x)]);
    RunOne(c, s1, Zero(0), [Start(1, x)] + ([Publish(0)] + [Alloc(0, x)]));
    RunOne(c, s, Start(0, x), [Zero(0)] + ([Start(1, x)] + ([Publish(0)] + [Alloc(0, x)])));
    steps := [Start(0, x)] + ([Zero(0)] + ([Start(1, x)] + ([Publish(0)] + [Alloc(0, x)])));
  }

  /** Nothing is left to initialise, and no thread is at it. */
  ghost predicate Full(c: Conf, s: State) {
    c.Wf() && s.inited >= c.niblk && forall t: nat :: t < |s.pcs| ==> s.pcs[t].Idle?
  }

  lemma {:induction false} FullRun(c: Conf, s: State, steps: seq<Step>)
    requires Full(c, s) && RunOk(c, s, steps)
    ensures Full(c, Run(c, s, steps))
    decreases |steps|
  {
    if steps != [] {
      FullRun(c, Apply(c, s, steps[0]), steps[1..]);
    }
  }

  /** No block is ever zeroed after one of its inodes was handed out exactly if at most one thread allocates inodes in
      the group, or newfs has initialised all its inode blocks. */
  lemma NeverLateIffAlone(c: Conf, used: set<nat>, threads: nat)
    requires c.Wf() && forall i :: i in used ==> i < Init(c, used, threads).inited
    ensures NeverLate(c, Init(c, used, threads)) <==> threads <= 1 || c.niblk <= 2 * c.inopb
  {
    var s := Init(c, used, threads);
    InitInv(c, used, threads);
    if threads <= 1 {
      forall steps: seq<Step>, t: nat | RunOk(c, s, steps)
        ensures !LateZero(c, Run(c, s, steps), t)
      {
        AloneRun(c, s, steps);
        AloneNotLate(c, Run(c, s, steps), t);
      }
    } else if c.niblk <= 2 * c.inopb {
      forall steps: seq<Step>, t: nat | RunOk(c, s, steps)
        ensures !LateZero(c, Run(c, s, steps), t)
      {
        FullRun(c, s, steps);
      }
    } else {
      var steps := LateRun(c, used, threads);
    }
  }

  /** The smallest case spelled out: blocks of 8 inodes, 32 inodes, two threads. */
  lemma ZeroAfterHandOut()
    ensures !NeverLate(Conf(8, 32), Init(Conf(8, 32), {}, 2))
  {
    NeverLateIffAlone(Conf(8, 32), {}, 2);
  }
}
