/** The names of a file's indirect blocks, and the path to a logical block: ufs_getlbns. */
module Lbns {
  import opened Arith

  const NDADDR: nat := 12
  const NIADDR: nat := 3

  /** One step of a path: a slot of the inode (the first step) or of the indirect block named lbn. */
  datatype Step = Step(lbn: int, off: nat)

  function Pow(n: nat, k: nat): (r: nat)
    ensures n >= 1 ==> r >= 1
  {
    if k == 0 then 1
    else
      var r := Pow(n, k - 1);
      Positive(n, r);
      n * r
  }

  lemma Positive(x: nat, y: nat)
    ensures x >= 1 && y >= 1 ==> x * y >= 1
  {}

  /** The first logical block below the inode's indirect slot d. */
  function Base(n: nat, d: nat): nat {
    if d == 0 then NDADDR else Base(n, d - 1) + Pow(n, d)
  }

  /**
    * A place in the tree of indirect blocks, by the offsets that lead to it: first the slot of the inode,
    * then one slot in each indirect block passed; of full length it is a data block's.
    */
  predicate Place(n: nat, o: seq<nat>) {
    && 1 <= |o| && o[0] < NIADDR && |o| <= o[0] + 2
    && forall j :: 1 <= j < |o| ==> o[j] < n
  }

  /** The number of levels below the place: zero for a data block. */
  function Levels(o: seq<nat>): nat
    requires 1 <= |o| <= o[0] + 2
  {
    o[0] + 2 - |o|
  }

  /** The first logical block below a place. */
  function Start(n: nat, o: seq<nat>): nat
    requires 1 <= |o| <= o[0] + 2
  {
    if |o| == 1 then Base(n, o[0])
    else Start(n, o[..|o| - 1]) + o[|o| - 1] * Pow(n, Levels(o))
  }

  /** The logical block x lies below the place o. */
  predicate Holds(n: nat, o: seq<nat>, x: nat)
    requires 1 <= |o| <= o[0] + 2
  {
    Start(n, o) <= x < Start(n, o) + Pow(n, Levels(o))
  }

  /** The name of the indirect block at a place: minus its first block, less its height. */
  function Name(n: nat, o: seq<nat>): int
    requires 1 <= |o| <= o[0] + 1
  {
    1 - (Start(n, o) + Levels(o))
  }

  /** The steps that lead to a place. */
  function Steps(n: nat, o: seq<nat>): (p: seq<Step>)
    requires Place(n, o)
    ensures |p| == |o|
  {
    seq(|o|, j requires 0 <= j < |o| => Step(Name(n, o[..if j == 0 then 1 else j]), o[j]))
  }

  // ----- places are disjoint -----

  lemma ChildInside(n: nat, o: seq<nat>, x: nat)
    requires Place(n, o) && |o| >= 2 && Holds(n, o, x)
    ensures Holds(n, o[..|o| - 1], x)
  {
    var b := Pow(n, Levels(o));
    var k := o[|o| - 1];
    assert Pow(n, Levels(o) + 1) == n * b;
    SlotFits(k, n, b);
  }

  lemma SlotFits(k: nat, n: nat, b: nat)
    requires k < n
    ensures k * b + b <= n * b
  {
    MulMono(k + 1, n, b);
  }

  lemma {:induction false} BaseGap(n: nat, d: nat, e: nat)
    requires d < e
    ensures Base(n, d) + Pow(n, d + 1) <= Base(n, e)
  {
    if d + 1 < e {
      BaseGap(n, d, e - 1);
    }
  }

  lemma SameSlot(s: nat, b: nat, i: nat, j: nat, x: nat)
    requires s + i * b <= x < s + i * b + b && s + j * b <= x < s + j * b + b
    ensures i == j
  {
    if i < j {
      MulMono(i + 1, j, b);
    } else if j < i {
      MulMono(j + 1, i, b);
    }
  }

  lemma SameRoot(n: nat, d: nat, e: nat, x: nat)
    requires Base(n, d) <= x < Base(n, d) + Pow(n, d + 1) && Base(n, e) <= x < Base(n, e) + Pow(n, e + 1)
    ensures d == e
  {
    if d < e {
      BaseGap(n, d, e);
    } else if e < d {
      BaseGap(n, e, d);
    }
  }

  /** At most one place of each length is above a logical block. */
  lemma {:induction false} HoldsUnique(n: nat, o: seq<nat>, p: seq<nat>, x: nat)
    requires Place(n, o) && Place(n, p) && |o| == |p| && Holds(n, o, x) && Holds(n, p, x)
    ensures o == p
  {
    if |o| == 1 {
      SameRoot(n, o[0], p[0], x);
    } else {
      ChildInside(n, o, x);
      ChildInside(n, p, x);
      var m := |o| - 1;
      HoldsUnique(n, o[..m], p[..m], x);
      assert o[0] == o[..m][0] && p[0] == p[..m][0];
      SameSlot(Start(n, o[..m]), Pow(n, Levels(o)), o[m], p[m], x);
      assert o == o[..m] + [o[m]] && p == p[..m] + [p[m]];
    }
  }

  lemma {:induction false} PrefixHolds(n: nat, o: seq<nat>, k: nat, x: nat)
    requires Place(n, o) && 1 <= k <= |o| && Holds(n, o, x)
    ensures Holds(n, o[..k], x)
    decreases |o| - k
  {
    if k == |o| {
      assert o[..k] == o;
    } else {
      PrefixHolds(n, o, k + 1, x);
      ChildInside(n, o[..k + 1], x);
      assert o[..k + 1][..k] == o[..k];
    }
  }

  lemma {:induction false} PowGrows(n: nat, k: nat)
    requires n >= 3
    ensures Pow(n, k) > k && (k >= 1 ==> Pow(n, k) >= 3)
  {
    if k > 0 {
      PowGrows(n, k - 1);
      var r := Pow(n, k - 1);
      MulMono(3, n, r);
    }
  }

  /** Below an indirect block, first blocks differ by multiples of the number of slots. */
  lemma {:induction false} StartMultiple(n: nat, o: seq<nat>, k: nat) returns (q: nat)
    requires n >= 3 && Place(n, o) && 1 <= k <= |o| && Levels(o) >= 1
    ensures Start(n, o) == Start(n, o[..k]) + q * n
    decreases |o| - k
  {
    if k == |o| {
      assert o[..k] == o;
      q := 0;
    } else {
      var r := StartMultiple(n, o, k + 1);
      var c := o[..k + 1];
      assert c[..k] == o[..k];
      var b := Pow(n, Levels(c) - 1);
      Collect(r, c[k], n, b);
      q := r + c[k] * b;
    }
  }

  lemma Collect(r: nat, c: nat, n: nat, b: nat)
    ensures (r + c * b) * n == r * n + c * (n * b)
  {}

  /** The name of an indirect block is a block below it or just past its first ones. */
  lemma NameInside(n: nat, o: seq<nat>)
    requires n >= 3 && Place(n, o) && Levels(o) >= 1
    ensures Name(n, o) < 0 && Holds(n, o, -Name(n, o))
  {
    PowGrows(n, Levels(o));
    StartPositive(n, o);
  }

  lemma {:induction false} StartPositive(n: nat, o: seq<nat>)
    requires 1 <= |o| <= o[0] + 2
    ensures Start(n, o) >= NDADDR
  {
    if |o| > 1 {
      StartPositive(n, o[..|o| - 1]);
    } else {
      BasePositive(n, o[0]);
    }
  }

  lemma {:induction false} BasePositive(n: nat, d: nat)
    ensures Base(n, d) >= NDADDR
  {
    if d > 0 {
      BasePositive(n, d - 1);
    }
  }

  /** Different indirect blocks of a file have different names. */
  lemma NamesDiffer(n: nat, o: seq<nat>, p: seq<nat>)
    requires n >= 3 && Place(n, o) && Place(n, p) && Levels(o) >= 1 && Levels(p) >= 1
    requires Name(n, o) == Name(n, p)
    ensures o == p
  {
    if |o| <= |p| {
      NamesDifferOrdered(n, o, p);
    } else {
      NamesDifferOrdered(n, p, o);
    }
  }

  lemma NamesDifferOrdered(n: nat, o: seq<nat>, p: seq<nat>)
    requires n >= 3 && Place(n, o) && Place(n, p) && Levels(o) >= 1 && Levels(p) >= 1
    requires Name(n, o) == Name(n, p) && |o| <= |p|
    ensures o == p
  {
    var x := -Name(n, o);
    NameInside(n, o);
    NameInside(n, p);
    PrefixHolds(n, p, |o|, x);
    HoldsUnique(n, o, p[..|o|], x);
    var q := StartMultiple(n, p, |o|);
    if q > 0 {
      MulMono(1, q, n);
      assert false;
    }
    assert |o| == |p|;
  }

  // ----- ufs_getlbns -----

  lemma NestedDiv(x: nat, b: nat, n: nat, q: nat, s: nat, u: nat)
    requires q * b <= x < q * b + b && q == s * n + u && u < n
    ensures n * b >= 1 && x / (n * b) == s && q * b == s * (n * b) + u * b
  {
    Positive(n, b);
    Distribute(s * n, u, b);
    Regroup(s, n, b);
    SlotFits(u, n, b);
    DivUnique(x, n * b, s, x - s * (n * b));
  }

  lemma DivDiv(x: nat, b: nat, n: nat)
    requires b >= 1 && n >= 1
    ensures n * b >= 1
    ensures (x / b) * b == (x / (n * b)) * (n * b) + ((x / b) % n) * b
  {
    var q := x / b;
    DivisionLaw(x, b);
    DivisionLaw(q, n);
    NestedDiv(x, b, n, q, q / n, q % n);
  }

  lemma DivUnique(x: nat, d: nat, q: nat, r: nat)
    requires x == q * d + r && r < d
    ensures x / d == q
  {
    DivModBase(q, d, r);
  }

  /** The place o is where the division of x by the spans leads. */
  ghost predicate Leads(n: nat, o: seq<nat>, x: nat)
    requires n >= 1 && Place(n, o)
  {
    var b := Pow(n, Levels(o));
    x >= Base(n, o[0]) && Start(n, o) == Base(n, o[0]) + ((x - Base(n, o[0])) / b) * b
  }

  lemma LeadsHolds(n: nat, o: seq<nat>, x: nat)
    requires n >= 1 && Place(n, o) && Leads(n, o, x)
    ensures Holds(n, o, x) && (Levels(o) == 0 ==> Start(n, o) == x)
  {
    var b := Pow(n, Levels(o));
    var y := x - Base(n, o[0]);
    DivisionLaw(y, b);
  }

  /** The slot, in a block whose slots each span b blocks, for the block bn of its tree. */
  function SlotOf(n: nat, bn: nat, b: nat): nat
    requires n >= 1 && b >= 1
  {
    (bn / b) % n
  }

  /** One level down. */
  lemma LeadsDown(n: nat, o: seq<nat>, x: nat)
    requires n >= 1 && Place(n, o) && Levels(o) >= 1 && Leads(n, o, x)
    ensures var b := Pow(n, Levels(o) - 1); var off := SlotOf(n, x - Base(n, o[0]), b); var c := o + [off];
      && Pow(n, Levels(o)) / n == b
      && Place(n, c) && Leads(n, c, x) && Start(n, c) == Start(n, o) + off * b
      && Steps(n, c) == Steps(n, o) + [Step(Name(n, o), off)]
  {
    var b := Pow(n, Levels(o) - 1);
    var y := x - Base(n, o[0]);
    var off := (y / b) % n;
    var c := o + [off];
    DivDiv(y, b, n);
    DivUnique(n * b, n, b, 0);
    StepsGrow(n, o, off);
    assert c[..|o|] == o;
  }

  lemma StepsGrow(n: nat, o: seq<nat>, off: nat)
    requires Place(n, o) && Levels(o) >= 1 && off < n
    ensures Place(n, o + [off]) && Steps(n, o + [off]) == Steps(n, o) + [Step(Name(n, o), off)]
  {
    var c := o + [off];
    forall j | 0 <= j < |c|
      ensures Steps(n, c)[j] == (Steps(n, o) + [Step(Name(n, o), off)])[j]
    {
      var k := if j == 0 then 1 else j;
      assert c[..k] == o[..k];
      assert j == |o| ==> o[..k] == o;
    }
  }

  /** The slot of the inode above x. */
  lemma LeadsRoot(n: nat, d: nat, x: nat)
    requires n >= 1 && d < NIADDR && Base(n, d) <= x < Base(n, d) + Pow(n, d + 1)
    ensures Place(n, [d]) && Leads(n, [d], x) && Steps(n, [d]) == [Step(Name(n, [d]), d)]
    ensures Name(n, [d]) == 0 - (Base(n, d) + d)
  {
    DivUnique(x - Base(n, d), Pow(n, d + 1), 0, x - Base(n, d));
    assert [d][..1] == [d];
  }

  const EFBIG: int := 27

  /** A name leads to the indirect block that bears it. */
  lemma NameLeads(n: nat, o: seq<nat>, p: seq<nat>)
    requires n >= 3 && Place(n, o) && Place(n, p) && Levels(p) >= 1 && Leads(n, o, -Name(n, p))
    requires |o| <= |p|
    ensures o == p[..|o|] && (Levels(o) >= 1 && Name(n, o) == Name(n, p) ==> o == p)
  {
    var x := -Name(n, p);
    NameInside(n, p);
    LeadsHolds(n, o, x);
    PrefixHolds(n, p, |o|, x);
    HoldsUnique(n, o, p[..|o|], x);
    if Levels(o) >= 1 && Name(n, o) == Name(n, p) {
      NamesDiffer(n, o, p);
    }
  }

  /** How many levels of indirection the block x needs, or none that the inode has. */
  method TreeOf(n: nat, x: nat) returns (i: nat, blockcnt: nat, bn: nat)
    requires n >= 3 && x >= NDADDR
    ensures i <= NIADDR && (i == 0 <==> x >= Base(n, NIADDR))
    ensures i > 0 ==> var d := NIADDR - i;
      && Base(n, d) <= x < Base(n, d) + Pow(n, d + 1) && blockcnt == Pow(n, d + 1) && bn == x - Base(n, d)
  {
    blockcnt, i, bn := 1, NIADDR, x - NDADDR;
    while i > 0
      invariant i <= NIADDR && blockcnt == Pow(n, NIADDR - i) && Base(n, NIADDR - i) <= x && bn == x - Base(n, NIADDR - i)
    {
      blockcnt := n * blockcnt;
      if bn < blockcnt {
        if i > 1 {
          BaseGap(n, NIADDR - i, NIADDR);
        }
        return;
      }
      bn := bn - blockcnt;
      i := i - 1;
    }
  }

  /** The descent is at the place o, with its span, its name and the path to it. */
  ghost predicate At(n: nat, realbn: int, x: nat, o: seq<nat>, blockcnt: nat, metalbn: int, path: seq<Step>)
    requires n >= 3
  {
    && Place(n, o) && Leads(n, o, x) && blockcnt == Pow(n, Levels(o)) && path == Steps(n, o)
    && metalbn == 1 - (Start(n, o) + Levels(o))
    && forall k :: 1 <= k < |o| ==> Name(n, o[..k]) != realbn
  }

  lemma AtFacts(n: nat, realbn: int, x: nat, o: seq<nat>, blockcnt: nat, metalbn: int, path: seq<Step>)
    requires n >= 3 && At(n, realbn, x, o, blockcnt, metalbn, path)
    ensures Place(n, o) && Leads(n, o, x) && blockcnt == Pow(n, Levels(o)) >= 1 && path == Steps(n, o)
    ensures Levels(o) >= 1 ==> metalbn == Name(n, o) && blockcnt / n >= 1
    ensures forall k :: 1 <= k < |o| ==> Name(n, o[..k]) != realbn
  {
    if Levels(o) >= 1 {
      LeadsDown(n, o, x);
    }
  }

  lemma AtDown(n: nat, realbn: int, x: nat, o: seq<nat>, blockcnt: nat, metalbn: int, path: seq<Step>)
    requires n >= 3 && At(n, realbn, x, o, blockcnt, metalbn, path) && Levels(o) >= 1 && metalbn != realbn
    ensures blockcnt / n >= 1
    ensures var b := blockcnt / n; var off := SlotOf(n, x - Base(n, o[0]), b);
      At(n, realbn, x, o + [off], b, metalbn - (off * b - 1), path + [Step(metalbn, off)])
  {
    hide SlotOf, Leads, Steps, Base, Pow;
    LeadsDown(n, o, x);
    var off := SlotOf(n, x - Base(n, o[0]), blockcnt / n);
    var c := o + [off];
    forall k | 1 <= k < |c|
      ensures Name(n, c[..k]) != realbn
    {
      assert c[..k] == if k < |o| then o[..k] else o;
    }
  }

  lemma AtRoot(n: nat, realbn: int, x: nat, d: nat)
    requires n >= 3 && d < NIADDR && Base(n, d) <= x < Base(n, d) + Pow(n, d + 1)
    ensures var name := 0 - (Base(n, d) + d); At(n, realbn, x, [d], Pow(n, d + 1), name, [Step(name, d)])
  {
    LeadsRoot(n, d, x);
  }

  /** The loop down the tree, which stops early at the indirect block named realbn. */
  method Descend(n: nat, realbn: int, ghost x: nat, d: nat, blockcnt0: nat, bn: nat)
    returns (path: seq<Step>, ghost o: seq<nat>)
    requires n >= 3 && d < NIADDR && Base(n, d) <= x < Base(n, d) + Pow(n, d + 1)
    requires blockcnt0 == Pow(n, d + 1) && bn == x - Base(n, d) && x == if realbn < 0 then 0 - realbn else realbn
    ensures Place(n, o) && Leads(n, o, x) && path == Steps(n, o)
    ensures Levels(o) == 0 || Name(n, o) == realbn
    ensures forall k :: 1 <= k < |o| ==> Name(n, o[..k]) != realbn
  {
    hide At, SlotOf, Leads, Pow, Steps, Start, Base, Name;
    AtRoot(n, realbn, x, d);
    o := [d];
    var blockcnt: nat := blockcnt0;
    var metalbn := 0 - (realbn - bn + d);
    if realbn < 0 {
      metalbn := 0 - (0 - realbn - bn + d);
    }
    path := [Step(metalbn, d)];
    var i := NIADDR - d;
    while i <= NIADDR
      invariant |o| >= 1 && o[0] == d && |o| == i + d - NIADDR + 1 <= d + 2 && At(n, realbn, x, o, blockcnt, metalbn, path)
    {
      AtFacts(n, realbn, x, o, blockcnt, metalbn, path);
      if metalbn == realbn {
        return;
      }
      AtDown(n, realbn, x, o, blockcnt, metalbn, path);
      blockcnt := blockcnt / n;
      var off := SlotOf(n, bn, blockcnt);
      path := path + [Step(metalbn, off)];
      metalbn := metalbn - (off * blockcnt - 1);
      o := o + [off];
      i := i + 1;
    }
    AtFacts(n, realbn, x, o, blockcnt, metalbn, path);
  }

  /**
    * ufs_getlbns, on a file system with n pointers in an indirect block: the path to a logical block,
    * or to the indirect block of a negative name.
    */
  method GetLbns(n: nat, realbn: int) returns (err: int, path: seq<Step>, ghost o: seq<nat>)
    requires n >= 3
    ensures err == if 0 - Base(n, NIADDR) < realbn < Base(n, NIADDR) then 0 else EFBIG
    ensures 0 - NDADDR < realbn < NDADDR || err != 0 ==> path == []
    ensures NDADDR <= realbn && err == 0 ==>
      Place(n, o) && Levels(o) == 0 && Start(n, o) == realbn && path == Steps(n, o)
    ensures forall p :: Place(n, p) && Levels(p) >= 1 && Name(n, p) == realbn ==> err == 0 && path == Steps(n, p)
  {
    err, path, o := 0, [], [];
    ghost var bound := Base(n, NIADDR);
    NamesHeld(n, realbn, bound);
    BasePositive(n, NIADDR);
    hide Holds, Leads, Pow, Base, Start, Steps, Levels, Name, Place;
    var x: nat := if realbn < 0 then 0 - realbn else realbn;
    if x < NDADDR {
      return;
    }
    var i, blockcnt, bn := TreeOf(n, x);
    if i == 0 {
      return EFBIG, [], o;
    }
    path, o := Descend(n, realbn, x, NIADDR - i, blockcnt, bn);
    LeadsHolds(n, o, x);
    PathToName(n, realbn, x, o);
  }

  /** The path found for a block ends at it, and the path found for a name at the indirect block that bears it. */
  lemma PathToName(n: nat, realbn: int, x: nat, o: seq<nat>)
    requires n >= 3 && Place(n, o) && Leads(n, o, x) && x == if realbn < 0 then 0 - realbn else realbn
    requires Levels(o) == 0 || Name(n, o) == realbn
    requires forall k :: 1 <= k < |o| ==> Name(n, o[..k]) != realbn
    ensures realbn >= 0 ==> Levels(o) == 0
    ensures forall p :: Place(n, p) && Levels(p) >= 1 && Name(n, p) == realbn ==> o == p
  {
    if realbn >= 0 && Levels(o) >= 1 {
      NameInside(n, o);
    }
    forall p | Place(n, p) && Levels(p) >= 1 && Name(n, p) == realbn
      ensures o == p
    {
      NameInside(n, p);
      if |o| <= |p| {
        NameLeads(n, o, p);
        assert o[0] == p[0];
      } else {
        LeadsHolds(n, o, x);
        PrefixHolds(n, o, |p|, x);
        HoldsUnique(n, o[..|p|], p, x);
      }
    }
  }

  /** Names are negative, and lie below the bound of the logical blocks. */
  lemma NamesHeld(n: nat, x: int, bound: nat)
    requires n >= 3 && bound == Base(n, NIADDR)
    ensures forall p :: Place(n, p) && Levels(p) >= 1 && Name(n, p) == x ==> 0 - bound < x <= 0 - NDADDR
  {
    forall p | Place(n, p) && Levels(p) >= 1 && Name(n, p) == x
      ensures 0 - bound < x <= 0 - NDADDR
    {
      NameInside(n, p);
      StartPositive(n, p);
      PrefixHolds(n, p, 1, -x);
      BaseGap(n, p[0], NIADDR);
    }
  }
}
