/** The inodes of the whole filesystem: the groups, and the copies of their counts in fs_cs and fs_cstotal. */
module InodeFs {
  import opened Arith
  import opened Inodes
  import opened Filesystem

  /** ino_to_cg, and the place of an inode in its group. */
  function GroupOf(ipg: nat, ino: nat): nat
    requires ipg > 0
  {
    ino / ipg
  }

  function PlaceOf(ipg: nat, ino: nat): (i: nat)
    requires ipg > 0
    ensures i < ipg
  {
    ino % ipg
  }

  lemma NumberParts(ipg: nat, cg: nat, i: nat)
    requires i < ipg
    ensures GroupOf(ipg, cg * ipg + i) == cg && PlaceOf(ipg, cg * ipg + i) == i
  {
    DivModBase(cg, ipg, i);
  }

  lemma PlaceIs(ipg: nat, ino: nat)
    requires ipg > 0
    ensures PlaceOf(ipg, ino) == ino % ipg
  {}

  lemma NumberWhole(ipg: nat, ino: nat)
    requires ipg > 0
    ensures ino == GroupOf(ipg, ino) * ipg + PlaceOf(ipg, ino)
  {
    DivisionLaw(ino, ipg);
  }

  ghost predicate Apart(ipg: nat, groups: seq<InodeGroup>, csNifree: array<int>, csNdir: array<int>) {
    && ipg > 0 && |groups| > 0 && csNifree.Length == csNdir.Length == |groups| && csNifree != csNdir
    && (forall c :: 0 <= c < |groups| ==> groups[c].ipg == ipg && groups[c].Shape())
    && (forall c, d :: 0 <= c < d < |groups| ==> groups[c] != groups[d] && groups[c].buf != groups[d].buf)
    && (forall c :: 0 <= c < |groups| ==> groups[c].buf as object != csNifree && groups[c].buf as object != csNdir)
  }

  class InodeSystem {
    const ipg: nat
    const groups: seq<InodeGroup>
    const csNifree: array<int>  // fs_cs(cg).cs_nifree
    const csNdir: array<int>    // fs_cs(cg).cs_ndir
    var nifree: int             // fs_cstotal.cs_nifree
    var ndir: int               // fs_cstotal.cs_ndir

    constructor (ipg: nat, groups: seq<InodeGroup>, csNifree: array<int>, csNdir: array<int>, nifree: int, ndir: int)
      requires Apart(ipg, groups, csNifree, csNdir)
      ensures this.ipg == ipg && this.groups == groups && this.csNifree == csNifree && this.csNdir == csNdir
      ensures this.nifree == nifree && this.ndir == ndir && Shape()
    {
      this.ipg, this.groups, this.csNifree, this.csNdir := ipg, groups, csNifree, csNdir;
      this.nifree, this.ndir := nifree, ndir;
    }

    ghost function Objects(): set<object> {
      (set c | 0 <= c < |groups| :: groups[c] as object) + (set c | 0 <= c < |groups| :: groups[c].buf as object)
    }

    ghost predicate Shape() {
      Apart(ipg, groups, csNifree, csNdir)
    }

    /** The used inodes of group c. */
    ghost function Map(c: nat): (s: seq<bool>)
      requires Shape() && c < |groups|
      reads groups[c].buf
      ensures |s| == ipg
    {
      groups[c].Used()
    }

    /** Group c is in order, its counts are the ones its summary repeats, and the inodes below the root are in use. */
    ghost predicate GroupOk(c: nat)
      requires Shape() && c < |groups|
      reads groups[c], groups[c].buf, csNifree, csNdir
    {
      && groups[c].Valid() && csNifree[c] == groups[c].nifree && csNdir[c] == groups[c].ndir
      && (c == 0 ==> forall i :: 0 <= i < ROOTINO && i < ipg ==> Map(c)[i])
    }

    ghost predicate Valid()
      reads this, csNifree, csNdir, Objects()
    {
      InObjects();
      && Shape() && (forall c: nat :: c < |groups| ==> GroupOk(c))
      && nifree == Sum(csNifree[..]) && ndir == Sum(csNdir[..])
    }

    lemma InObjects()
      ensures forall c :: 0 <= c < |groups| ==> groups[c] in Objects() && groups[c].buf in Objects()
    {}

    /** Inode ino of the whole filesystem is in use. */
    ghost predicate InUse(ino: nat)
      requires Shape()
      reads Objects()
    {
      InObjects();
      GroupOf(ipg, ino) < |groups| && Map(GroupOf(ipg, ino))[PlaceOf(ipg, ino)]
    }

    /** The matching updates of the two copies. */
    method Charge(cg: nat, dni: int, dnd: int)
      requires Shape() && cg < |groups| && nifree == Sum(csNifree[..]) && ndir == Sum(csNdir[..])
      modifies this, csNifree, csNdir
      ensures csNifree[..] == old(csNifree[..])[cg := old(csNifree[cg]) + dni] && nifree == Sum(csNifree[..])
      ensures csNdir[..] == old(csNdir[..])[cg := old(csNdir[cg]) + dnd] && ndir == Sum(csNdir[..])
      ensures nifree == old(nifree) + dni && ndir == old(ndir) + dnd
    {
      SumUpdate(csNifree[..], cg, csNifree[cg] + dni);
      SumUpdate(csNdir[..], cg, csNdir[cg] + dnd);
      nifree := nifree + dni;
      ndir := ndir + dnd;
      csNifree[cg] := csNifree[cg] + dni;
      csNdir[cg] := csNdir[cg] + dnd;
      assert csNifree[..] == old(csNifree[..])[cg := old(csNifree[cg]) + dni];
      assert csNdir[..] == old(csNdir[..])[cg := old(csNdir[cg]) + dnd];
    }

    /** ffs_nodealloccg on group cg, with the test of the summary first: returns 0 exactly when the group has no free
        inode, and otherwise the preferred inode if it was free, or the first free one from the byte of the rotor on; all
        three levels of counts follow. */
    method NodeAlloc(cg: nat, ipref: nat, dir: bool) returns (ino: nat)
      requires Valid() && cg < |groups|
      modifies this, csNifree, csNdir, groups[cg], groups[cg].buf
      ensures Valid()
      ensures ino == 0 <==> old(groups[cg].nifree) == 0
      ensures ino == 0 ==> nifree == old(nifree) && ndir == old(ndir) && Map(cg) == old(Map(cg))
      ensures ino != 0 ==> GroupOf(ipg, ino) == cg && ino >= ROOTINO && !old(Map(cg))[PlaceOf(ipg, ino)]
      ensures ino != 0 ==> Map(cg) == old(Map(cg))[PlaceOf(ipg, ino) := true]
      ensures ino != 0 ==>
        if ipref != 0 && !old(Map(cg))[PlaceOf(ipg, ipref)] then PlaceOf(ipg, ino) == PlaceOf(ipg, ipref)
        else FirstClearFrom(old(Map(cg)), DownTo(old(groups[cg].irotor), 8), PlaceOf(ipg, ino))
      ensures forall c: nat :: c < |groups| && c != cg ==> Map(c) == old(Map(c))
      ensures ino != 0 ==> nifree == old(nifree) - 1 && ndir == old(ndir) + if dir then 1 else 0
    {
      hide InodeGroup.Valid, InodeGroup.Shape, InodeGroup.Used, Sum, GroupOf, PlaceOf, FirstClearFrom;
      assert GroupOk(cg);
      groups[cg].Large();
      ghost var used := Map(cg);
      assert cg == 0 ==> forall j :: 0 <= j < ROOTINO ==> used[j];
      if csNifree[cg] == 0 {
        return 0;
      }
      var ok, i := groups[cg].NodeAlloc(ipref, dir);
      assert !used[i] && Map(cg) == used[i := true];
      NumberParts(ipg, cg, i);
      PlaceIs(ipg, ipref);
      Charge(cg, -1, if dir then 1 else 0);
      ino := cg * ipg + i;
      if cg > 0 {
        MulMono(1, cg, ipg);
      }
      OthersKept(cg);
    }

    /** ffs_freefile: the inode of a whole-filesystem number goes back to its group. */
    method FreeFile(ino: nat, dir: bool)
      requires Valid() && ino >= ROOTINO && InUse(ino)
      modifies this, csNifree, csNdir, Objects()
      ensures Valid() && nifree == old(nifree) + 1 && ndir == old(ndir) - if dir then 1 else 0
      ensures GroupOf(ipg, ino) < |groups|
      ensures Map(GroupOf(ipg, ino)) == old(Map(GroupOf(ipg, ino)))[PlaceOf(ipg, ino) := false]
      ensures forall c: nat :: c < |groups| && c != GroupOf(ipg, ino) ==> Map(c) == old(Map(c))
    {
      hide Valid, GroupOk, Sum, GroupOf, PlaceOf, Map, Shape;
      InObjects();
      ShapeOf();
      NumberWhole(ipg, ino);
      FreeAt(GroupOf(ipg, ino), PlaceOf(ipg, ino), dir);
    }

    lemma ShapeOf()
      requires Valid()
      ensures Shape() && ipg > 0
    {}

    method FreeAt(cg: nat, i: nat, dir: bool)
      requires Valid() && cg < |groups| && i < ipg && (cg == 0 ==> i >= ROOTINO) && Map(cg)[i]
      modifies this, csNifree, csNdir, groups[cg], groups[cg].buf
      ensures Valid() && nifree == old(nifree) + 1 && ndir == old(ndir) - if dir then 1 else 0
      ensures Map(cg) == old(Map(cg))[i := false]
      ensures forall c: nat :: c < |groups| && c != cg ==> Map(c) == old(Map(c))
    {
      hide InodeGroup.Valid, InodeGroup.Shape, InodeGroup.Used, Sum;
      assert GroupOk(cg);
      groups[cg].FreeFile(i, dir);
      Charge(cg, 1, if dir then -1 else 0);
      OthersKept(cg);
    }

    /** The tests of ffs_fhtovp: of the inodes in use it rejects the ones below the root and no other. */
    lemma HandleAccepted(ino: nat)
      requires Valid() && InUse(ino)
      ensures GroupOf(ipg, ino) < |groups|
      ensures Accepts(ino, |groups|, ipg, groups[GroupOf(ipg, ino)].ufs2, groups[GroupOf(ipg, ino)].initediblk) <==> ino >= ROOTINO
    {
      hide GroupOf, PlaceOf, Sum;
      var c, i := GroupOf(ipg, ino), PlaceOf(ipg, ino);
      assert GroupOk(c);
      groups[c].UsedBelow(i);
      NumberWhole(ipg, ino);
      MulApart(ipg, c, |groups|);
    }

    twostate lemma OthersKept(cg: nat)
      requires old(Valid()) && cg < |groups|
      requires forall c :: 0 <= c < |groups| && c != cg ==> unchanged(groups[c]) && unchanged(groups[c].buf)
      requires forall c :: 0 <= c < |groups| && c != cg ==> csNifree[c] == old(csNifree[c]) && csNdir[c] == old(csNdir[c])
      ensures forall c: nat :: c < |groups| && c != cg ==> GroupOk(c)
      ensures forall c: nat :: c < |groups| && c != cg ==> Map(c) == old(Map(c))
    {
      forall c: nat | c < |groups| && c != cg
        ensures GroupOk(c)
      {
        assert old(GroupOk(c));
      }
    }
  }

  /** What ffs_fhtovp lets through before it looks at the inode itself. */
  predicate Accepts(ino: nat, ncg: nat, ipg: nat, ufs2: bool, initediblk: nat)
    requires ipg > 0
  {
    ROOTINO <= ino < ncg * ipg && (ufs2 ==> ino < GroupOf(ipg, ino) * ipg + initediblk)
  }
}
