/** The filesystem: its cylinder groups, the in-core copy of each group's summary (fs_cs) and
    the grand totals (fs_cstotal), kept equal by every operation. */
module Filesystem {
  import opened Arith
  import opened Bitmap
  import opened Runs
  import opened Geometry
  import opened CgCounts
  import opened FragSearch
  import opened Allocator
  import opened Recount
  import opened Clusters

  function Sum(s: seq<int>): int {
    if s == [] then 0 else Sum(s[..|s| - 1]) + s[|s| - 1]
  }

  lemma {:induction false} SumUpdate(s: seq<int>, i: nat, v: int)
    requires i < |s|
    ensures Sum(s[i := v]) == Sum(s) - s[i] + v
  {
    var t := s[i := v];
    if i == |s| - 1 {
      assert t[..|s| - 1] == s[..|s| - 1];
    } else {
      assert t[..|s| - 1] == s[..|s| - 1][i := v];
      SumUpdate(s[..|s| - 1], i, v);
    }
  }

  /** The free fragments of each map. */
  function Counts(frees: seq<seq<bool>>): (r: seq<int>)
    ensures |r| == |frees| && forall c :: 0 <= c < |r| ==> r[c] == FreeCount(frees[c])
  {
    seq(|frees|, c requires 0 <= c < |frees| => FreeCount(frees[c]))
  }

  /** The free fragments of all maps together. */
  function Space(frees: seq<seq<bool>>): int {
    Sum(Counts(frees))
  }

  lemma SpaceUpdate(frees: seq<seq<bool>>, cg: nat, free: seq<bool>)
    requires cg < |frees|
    ensures Space(frees[cg := free]) == Space(frees) - FreeCount(frees[cg]) + FreeCount(free)
  {
    hide FreeCount;
    SumUpdate(Counts(frees), cg, FreeCount(free));
    assert Counts(frees[cg := free]) == Counts(frees)[cg := FreeCount(free)];
  }

  lemma {:induction false} SumSplit(nb: seq<int>, nf: seq<int>, cs: seq<int>, frag: nat)
    requires |nb| == |nf| == |cs| && forall c :: 0 <= c < |cs| ==> nb[c] * frag + nf[c] == cs[c]
    ensures Sum(nb) * frag + Sum(nf) == Sum(cs)
  {
    if |cs| > 0 {
      var m := |cs| - 1;
      SumSplit(nb[..m], nf[..m], cs[..m], frag);
      Distribute(Sum(nb[..m]), nb[m], frag);
    }
  }

  ghost function Repr(g: CylGroup): set<object> {
    {g, g.blksfree, g.frsum, g.clustersfree, g.clustersum}
  }

  twostate lemma GroupKept(g: CylGroup)
    requires old(g.Valid())
    requires unchanged(g) && unchanged(g.blksfree) && unchanged(g.frsum) && unchanged(g.clustersfree) && unchanged(g.clustersum)
    ensures g.Valid() && g.nbfree == old(g.nbfree) && g.nffree == old(g.nffree)
  {}

  /** The pieces of a filesystem are of the right sizes and share nothing. */
  ghost predicate Parts(geo: Geo, groups: seq<CylGroup>, csNbfree: array<int>, csNffree: array<int>) {
    && geo.Wf() && |groups| == geo.ncg
    && csNbfree.Length == geo.ncg && csNffree.Length == geo.ncg && csNbfree != csNffree
    && (forall c :: 0 <= c < |groups| ==> groups[c].geo == geo && groups[c].cgx == c)
    && (forall c, d :: 0 <= c < d < |groups| ==> Repr(groups[c]) !! Repr(groups[d]))
    && (forall c :: 0 <= c < |groups| ==> csNbfree !in Repr(groups[c]) && csNffree !in Repr(groups[c]))
  }

  class FileSystem {
    const geo: Geo
    const groups: seq<CylGroup>
    const csNbfree: array<int>  // fs_cs(cg).cs_nbfree
    const csNffree: array<int>  // fs_cs(cg).cs_nffree
    var nbfree: int             // fs_cstotal.cs_nbfree
    var nffree: int             // fs_cstotal.cs_nffree

    constructor (geo: Geo, groups: seq<CylGroup>, csNbfree: array<int>, csNffree: array<int>, nbfree: int, nffree: int)
      requires Parts(geo, groups, csNbfree, csNffree)
      ensures this.geo == geo && this.groups == groups && this.csNbfree == csNbfree && this.csNffree == csNffree
      ensures this.nbfree == nbfree && this.nffree == nffree && Shape()
    {
      this.geo, this.groups, this.csNbfree, this.csNffree := geo, groups, csNbfree, csNffree;
      this.nbfree, this.nffree := nbfree, nffree;
    }

    ghost predicate Shape() {
      && Parts(geo, groups, csNbfree, csNffree)
      && forall c :: 0 <= c < |groups| ==> this !in Repr(groups[c])
    }

    ghost function Objects(): set<object> {
      set c, o | 0 <= c < |groups| && o in Repr(groups[c]) :: o
    }

    /** Summary c is the one its group keeps. */
    ghost predicate Mirrored(c: nat)
      requires Shape() && c < |groups|
      reads groups[c], csNbfree, csNffree
    {
      csNbfree[c] == groups[c].nbfree && csNffree[c] == groups[c].nffree
    }

    ghost predicate Valid()
      reads this, csNbfree, csNffree, Objects()
    {
      && Shape()
      && (forall c: nat :: c < |groups| ==> groups[c].Valid())
      && (forall c: nat :: c < |groups| ==> Mirrored(c))
      && nbfree == Sum(csNbfree[..])
      && nffree == Sum(csNffree[..])
    }

    /** The updates of fs_cs(cg) and fs_cstotal that go with a change of the group's own counts. */
    method Charge(cg: nat, dnb: int, dnf: int)
      requires Shape() && cg < |groups|
      requires nbfree == Sum(csNbfree[..]) && nffree == Sum(csNffree[..])
      modifies this, csNbfree, csNffree
      ensures csNbfree[..] == old(csNbfree[..])[cg := old(csNbfree[cg]) + dnb]
      ensures csNffree[..] == old(csNffree[..])[cg := old(csNffree[cg]) + dnf]
      ensures nbfree == Sum(csNbfree[..]) && nffree == Sum(csNffree[..])
      ensures nbfree == old(nbfree) + dnb && nffree == old(nffree) + dnf
    {
      hide Repr;
      SumUpdate(csNbfree[..], cg, csNbfree[cg] + dnb);
      SumUpdate(csNffree[..], cg, csNffree[cg] + dnf);
      nbfree := nbfree + dnb;
      nffree := nffree + dnf;
      csNbfree[cg] := csNbfree[cg] + dnb;
      csNffree[cg] := csNffree[cg] + dnf;
      assert csNbfree[..] == old(csNbfree[..])[cg := old(csNbfree[cg]) + dnb];
      assert csNffree[..] == old(csNffree[..])[cg := old(csNffree[cg]) + dnf];
    }

    /** Everything but group cg agrees with the summaries. */
    ghost predicate ValidExcept(cg: nat)
      reads this, csNbfree, csNffree, Objects()
    {
      && Shape() && cg < |groups|
      && (forall c: nat :: c < |groups| && c != cg ==> groups[c].Valid())
      && (forall c: nat :: c < |groups| && c != cg ==> Mirrored(c))
      && nbfree == Sum(csNbfree[..])
      && nffree == Sum(csNffree[..])
    }

    /** An operation confined to one group disturbs no other. */
    twostate lemma OthersKept(cg: nat)
      requires old(Valid()) && cg < |groups|
      requires unchanged(this, csNbfree, csNffree)
      requires forall c, o: object {:trigger o in Repr(groups[c])} ::
        0 <= c < |groups| && c != cg && o in Repr(groups[c]) ==> unchanged(o)
      ensures ValidExcept(cg)
    {
      hide CylGroup.Valid;
      assert csNbfree[..] == old(csNbfree[..]) && csNffree[..] == old(csNffree[..]);
      forall c: nat | c < |groups| && c != cg
        ensures groups[c].Valid() && Mirrored(c)
      {
        var g := groups[c];
        assert g in Repr(g) && g.blksfree in Repr(g) && g.frsum in Repr(g) && g.clustersfree in Repr(g) && g.clustersum in Repr(g);
        GroupKept(g);
        assert old(Mirrored(c));
      }
    }

    /** Completes an operation on group cg that changed its counts by dnb and dnf. */
    method Settle(cg: nat, dnb: int, dnf: int)
      requires ValidExcept(cg) && groups[cg].Valid()
      requires groups[cg].nbfree == csNbfree[cg] + dnb && groups[cg].nffree == csNffree[cg] + dnf
      modifies this, csNbfree, csNffree
      ensures Valid() && nbfree == old(nbfree) + dnb && nffree == old(nffree) + dnf
    {
      hide CylGroup.Valid, Sum;
      Charge(cg, dnb, dnf);
      forall c: nat | c < |groups|
        ensures groups[c].Valid() && Mirrored(c)
      {
        var g := groups[c];
        assert g in Repr(g) && g.blksfree in Repr(g) && g.frsum in Repr(g) && g.clustersfree in Repr(g) && g.clustersum in Repr(g);
        GroupKept(g);
        assert c != cg ==> old(Mirrored(c));
      }
    }

    /** The n fragments at address blkno were free, lie inside one block of group cg, belong to
        nobody and hold no metadata; they are now owned. */
    ghost predicate TookIn(cg: nat, blkno: nat, n: nat, free: seq<bool>, own: set<nat>)
      requires Shape() && cg < |groups|
      reads groups[cg], groups[cg].blksfree
    {
      && geo.Base(cg) <= blkno && blkno - geo.Base(cg) + n <= geo.NDblk(cg)
      && (blkno - geo.Base(cg)) % geo.frag + n <= geo.frag
      && groups[cg].Took(blkno - geo.Base(cg), n, free, own)
      && forall i: nat :: i in Range(blkno - geo.Base(cg), n) ==> !geo.Reserved(cg, i)
    }

    /** ffs_alloccg on group cg, with the test made before the group is read and the
        summaries updated afterwards. The result is a fragment address, or 0. */
    method AllocCg(cg: nat, bpref: nat, size: nat, rsize: nat) returns (blkno: nat)
      requires Valid() && cg < geo.ncg && bpref < geo.size
      requires 1 <= rsize <= size <= geo.frag && (size == rsize || size == geo.frag)
      modifies this, csNbfree, csNffree, Repr(groups[cg])
      ensures Valid()
      ensures blkno == 0 <==> !old(CanAlloc(groups[cg].blksfree[..], geo.frag, size))
      ensures blkno == 0 ==> unchanged(this, csNbfree, csNffree) && unchanged(Repr(groups[cg]))
      ensures blkno != 0 ==> TookIn(cg, blkno, rsize, old(groups[cg].Free()), old(groups[cg].owned))
      ensures blkno != 0 ==> old(BestFit(groups[cg].blksfree[..], geo.frag, size, blkno - geo.Base(cg)))
      ensures blkno != 0 ==> BestTake(old(groups[cg].Free()), geo.frag, size, blkno - geo.Base(cg))
      ensures blkno != 0 ==>
        Picked(geo, cg, old(groups[cg].Free()), old(groups[cg].Rot()), bpref, size, blkno - geo.Base(cg), groups[cg].Rot())
    {
      hide CylGroup.Valid, CanAlloc, BestFit, CylGroup.Took, BestTake, Bits, Picked;
      var g := groups[cg];
      assert g.Valid() && Mirrored(cg);
      if csNbfree[cg] == 0 && size == geo.frag {
        g.NoBlocks();
        return 0;
      }
      var ok, bno, dnb, dnf := g.AllocCg(bpref, size, rsize);
      if !ok {
        return 0;
      }
      OthersKept(cg);
      Settle(cg, dnb, dnf);
      blkno := geo.Base(cg) + bno;
      TookInside(cg, bno, rsize, old(groups[cg].Free()), old(groups[cg].owned));
      BestMeans(old(groups[cg].blksfree[..]), geo.frag, size, bno);
    }

    lemma TookInside(cg: nat, bno: nat, n: nat, free: seq<bool>, own: set<nat>)
      requires Shape() && cg < |groups| && groups[cg].Valid() && n > 0
      requires groups[cg].Took(bno, n, free, own) && bno % geo.frag + n <= geo.frag
      ensures geo.Base(cg) + bno != 0 && TookIn(cg, geo.Base(cg) + bno, n, free, own)
    {
      hide CylGroup.Valid, Range, Fill, Geo.NDblk, Geo.Reserved, Repr;
      var g := groups[cg];
      forall i: nat | i in Range(bno, n)
        ensures i < geo.NDblk(cg) && !geo.Reserved(cg, i) && geo.Base(cg) + i != 0
      {
        g.OwnedInside(i);
      }
      assert bno in Range(bno, n) && bno + n - 1 in Range(bno, n);
    }

    /** The maps and owners of all groups at some point in time. */
    ghost predicate Snapshot(frees: seq<seq<bool>>, owns: seq<set<nat>>)
      reads this, Objects()
    {
      ReprInObjects();
      && |frees| == |owns| == |groups|
      && forall c :: 0 <= c < |groups| ==> groups[c].Free() == frees[c] && groups[c].owned == owns[c]
    }

    ghost function Frees(): (s: seq<seq<bool>>)
      reads this, Objects()
      ensures |s| == |groups|
    {
      hide Bits, Repr, Objects;
      ReprInObjects();
      seq(|groups|, c requires 0 <= c < |groups| && groups[c].blksfree in Objects() reads Objects() => groups[c].Free())
    }

    ghost function Owns(): (s: seq<set<nat>>)
      reads this, Objects()
      ensures |s| == |groups|
    {
      hide Repr, Objects;
      ReprInObjects();
      seq(|groups|, c requires 0 <= c < |groups| && groups[c] in Objects() reads Objects() => groups[c].owned)
    }

    /** The rotors of all groups. */
    ghost function Rots(): (s: seq<Rotors>)
      reads this, Objects()
      ensures |s| == |groups|
    {
      hide Repr, Objects;
      ReprInObjects();
      seq(|groups|, c requires 0 <= c < |groups| && groups[c] in Objects() reads Objects() => groups[c].Rot())
    }

    /** The rotors of all groups but cg. */
    ghost predicate OthersTurn(cg: nat, rots: seq<Rotors>)
      reads this, Objects()
    {
      hide Repr, Objects;
      ReprInObjects();
      |rots| == |groups| && forall c :: 0 <= c < |groups| && c != cg ==> groups[c].Rot() == rots[c]
    }

    lemma TurnsAre(cg: nat, rots: seq<Rotors>)
      requires cg < |groups| && OthersTurn(cg, rots)
      ensures Rots() == rots[cg := groups[cg].Rot()]
    {
      hide Repr;
    }

    lemma RotAt(cg: nat)
      requires cg < |groups|
      ensures Rots()[cg] == groups[cg].Rot()
    {
      hide Repr;
    }

    /** fs_cstotal says how many fragments are free in all the maps together. */
    lemma TotalSpace()
      requires Valid()
      ensures nbfree * geo.frag + nffree == Space(Frees())
    {
      hide CylGroup.Valid, Sum, FreeCount, Repr;
      forall c: nat | c < |groups|
        ensures csNbfree[..][c] * geo.frag + csNffree[..][c] == Counts(Frees())[c]
      {
        assert Mirrored(c);
        groups[c].FreeSpace();
      }
      SumSplit(csNbfree[..], csNffree[..], Counts(Frees()), geo.frag);
    }

    /** The maps and owners of all groups but cg. */
    ghost predicate OthersAt(cg: nat, frees: seq<seq<bool>>, owns: seq<set<nat>>)
      reads this, Objects()
    {
      ReprInObjects();
      && |frees| == |owns| == |groups|
      && forall c :: 0 <= c < |groups| && c != cg ==> groups[c].Free() == frees[c] && groups[c].owned == owns[c]
    }

    twostate lemma OthersSame(cg: nat)
      requires Shape() && cg < |groups|
      requires forall c, o: object {:trigger o in Repr(groups[c])} ::
        0 <= c < |groups| && c != cg && o in Repr(groups[c]) ==> unchanged(o)
      ensures OthersAt(cg, old(Frees()), old(Owns())) && OthersTurn(cg, old(Rots()))
    {
      forall c | 0 <= c < |groups| && c != cg
        ensures groups[c].Free() == old(groups[c].Free()) && groups[c].owned == old(groups[c].owned)
        ensures groups[c].Rot() == old(groups[c].Rot())
      {
        var g := groups[c];
        assert g in Repr(g) && g.blksfree in Repr(g);
      }
    }

    lemma ValuesAt(cg: nat)
      requires cg < |groups|
      ensures Frees()[cg] == groups[cg].Free() && Owns()[cg] == groups[cg].owned
    {
      hide Repr, Bits;
    }

    lemma SameValues(cg: nat, frees: seq<seq<bool>>, owns: seq<set<nat>>)
      requires cg < |groups| && OthersAt(cg, frees, owns)
      requires groups[cg].Free() == frees[cg] && groups[cg].owned == owns[cg]
      ensures Frees() == frees && Owns() == owns
    {
      hide Repr, Bits;
    }

    ghost predicate GroupCan(c: nat, size: nat)
      requires c < |groups|
      reads groups[c].blksfree
    {
      CanAlloc(groups[c].blksfree[..], geo.frag, size)
    }

    /** One call of the allocator by ffs_hashalloc. */
    method TryGroup(cg: nat, bpref: nat, size: nat, rsize: nat,
                    ghost can: seq<bool>, ghost frees: seq<seq<bool>>, ghost owns: seq<set<nat>>, ghost rots: seq<Rotors>)
      returns (blkno: nat)
      requires Valid() && cg < geo.ncg && bpref < geo.size
      requires 1 <= rsize <= size <= geo.frag && (size == rsize || size == geo.frag)
      requires Snapshot(frees, owns) && Table(can, size) && Rots() == rots
      modifies this, csNbfree, csNffree, Repr(groups[cg])
      ensures Valid()
      ensures blkno == 0 <==> !can[cg]
      ensures blkno == 0 ==> Snapshot(frees, owns) && Table(can, size) && Rots() == rots
      ensures blkno == 0 ==> nbfree == old(nbfree) && nffree == old(nffree)
      ensures blkno != 0 ==> TookIn(cg, blkno, rsize, frees[cg], owns[cg]) && OthersAt(cg, frees, owns)
      ensures blkno != 0 ==> BestTake(frees[cg], geo.frag, size, blkno - geo.Base(cg)) && OthersTurn(cg, rots)
      ensures blkno != 0 ==> Picked(geo, cg, frees[cg], rots[cg], bpref, size, blkno - geo.Base(cg), groups[cg].Rot())
    {
      hide CylGroup.Valid, CanAlloc, TookIn, BestFit, Bits, BestTake, Picked;
      assert GroupCan(cg, size) == can[cg];
      RotAt(cg);
      blkno := AllocCg(cg, bpref, size, rsize);
      OthersSame(cg);
      TurnsAre(cg, rots);
      if blkno == 0 {
        forall c | 0 <= c < |groups|
          ensures groups[c].blksfree[..] == old(groups[c].blksfree[..]) && groups[c].owned == old(groups[c].owned)
        {
          var g := groups[c];
          assert g in Repr(g) && g.blksfree in Repr(g);
          assert c < cg ==> Repr(g) !! Repr(groups[cg]);
          assert c > cg ==> Repr(groups[cg]) !! Repr(g);
        }
        forall c: nat | c < |groups|
          ensures GroupCan(c, size) == can[c]
        {
          assert old(GroupCan(c, size)) == can[c];
        }
      }
    }

    /** The same with the frame that the search over all groups needs. */
    method Attempt(cg: nat, bpref: nat, size: nat, rsize: nat,
                    ghost can: seq<bool>, ghost frees: seq<seq<bool>>, ghost owns: seq<set<nat>>, ghost rots: seq<Rotors>)
      returns (blkno: nat)
      requires Valid() && cg < geo.ncg && bpref < geo.size
      requires 1 <= rsize <= size <= geo.frag && (size == rsize || size == geo.frag)
      requires Snapshot(frees, owns) && Table(can, size) && Rots() == rots
      modifies this, csNbfree, csNffree, Objects()
      ensures Valid()
      ensures blkno == 0 <==> !can[cg]
      ensures blkno == 0 ==> Snapshot(frees, owns) && Table(can, size) && Rots() == rots
      ensures blkno == 0 ==> nbfree == old(nbfree) && nffree == old(nffree)
      ensures blkno != 0 ==> TookIn(cg, blkno, rsize, frees[cg], owns[cg]) && OthersAt(cg, frees, owns)
      ensures blkno != 0 ==> BestTake(frees[cg], geo.frag, size, blkno - geo.Base(cg)) && OthersTurn(cg, rots)
      ensures blkno != 0 ==> Picked(geo, cg, frees[cg], rots[cg], bpref, size, blkno - geo.Base(cg), groups[cg].Rot())
    {
      hide Valid, Snapshot, Table, TookIn, Repr, OthersAt, BestTake, Picked, OthersTurn, Rots;
      assert Repr(groups[cg]) <= Objects() by { TableSize(can, size); ReprInObjects(); }
      blkno := TryGroup(cg, bpref, size, rsize, can, frees, owns, rots);
    }

    /** Which groups can satisfy a request. */
    ghost function Cans(size: nat): (s: seq<bool>)
      reads this, Objects()
      ensures |s| == |groups|
    {
      hide CanAlloc, Repr, Objects;
      ReprInObjects();
      seq(|groups|, c requires 0 <= c < |groups| && groups[c].blksfree in Objects() reads Objects() => GroupCan(c, size))
    }

    lemma CansAt(c: nat, size: nat)
      requires c < |groups|
      ensures Cans(size)[c] == CanAlloc(groups[c].blksfree[..], geo.frag, size)
    {
      hide CanAlloc, Repr;
      Tables(size);
      assert GroupCan(c, size) == Cans(size)[c];
    }

    lemma Tables(size: nat)
      ensures Table(Cans(size), size) && Snapshot(Frees(), Owns())
    {
      hide CanAlloc, Repr, Bits;
    }

    ghost predicate Table(can: seq<bool>, size: nat)
      reads this, Objects()
    {
      ReprInObjects();
      |can| == |groups| && forall c: nat :: c < |groups| ==> GroupCan(c, size) == can[c]
    }

    /** ffs_hashalloc: the preferred group, then a quadratic rehash, then every group in turn. It returns 0 only after all
        groups have been tried, so only when none can satisfy the request. Otherwise the extent comes from the first group
        of the search order that can; it was free, is owned by nobody and is now the caller's. */
    method HashAlloc(icg: nat, pref: nat, size: nat, rsize: nat) returns (result: nat, ghost cg: nat)
      requires Valid() && icg < geo.ncg && pref < geo.size && geo.Searchable()
      requires 1 <= rsize <= size <= geo.frag && (size == rsize || size == geo.frag)
      modifies this, csNbfree, csNffree, Objects()
      ensures Valid()
      ensures result == 0 <==> forall c :: 0 <= c < |groups| ==> !old(Cans(size))[c]
      ensures result == 0 ==> Snapshot(old(Frees()), old(Owns())) && nbfree == old(nbfree) && nffree == old(nffree)
      ensures result == 0 ==> Rots() == old(Rots())
      ensures result != 0 ==> cg < |groups| && FirstIn(Order(icg, geo.ncg), old(Cans(size)), cg)
      ensures result != 0 ==> TookIn(cg, result, rsize, old(Frees())[cg], old(Owns())[cg]) && OthersAt(cg, old(Frees()), old(Owns()))
      ensures result != 0 ==> BestTake(old(Frees())[cg], geo.frag, size, result - geo.Base(cg)) && OthersTurn(cg, old(Rots()))
      ensures result != 0 ==> Picked(geo, cg, old(Frees())[cg], old(Rots())[cg], if cg == icg then pref else 0, size,
                                     result - geo.Base(cg), groups[cg].Rot())
    {
      hide Valid, Snapshot, Table, TookIn, Repr, Slot, Shape, OthersAt, Cans, Frees, Owns, Rots, OthersTurn, Picked, BestTake,
        Pow2, Rehash, Rest, FirstIn;
      ghost var can, frees, owns, rots := Cans(size), Frees(), Owns(), Rots();
      Tables(size);
      assert |can| == |groups| == geo.ncg && geo.ncg > 0 && Shape() by { TableSize(can, size); }
      ghost var order := Order(icg, geo.ncg);
      cg := icg;
      result := Attempt(icg, pref, size, rsize, can, frees, owns, rots);
      if result != 0 {
        FoundFirst(order, [], icg, can);
        return;
      }
      ghost var visited;
      result, cg, visited := QuadraticRehash(icg, size, rsize, can, frees, owns, rots);
      if result != 0 {
        FirstCan(order, can, cg);
        return;
      }
      result, cg := BruteForce(icg, size, rsize, can, frees, owns, rots, visited);
      if result == 0 {
        forall d | 0 <= d < |can|
          ensures !can[d]
        {
          OrderCovers(icg, geo.ncg, d);
        }
      } else {
        FirstCan(order, can, cg);
      }
    }

    /** The second part of the search. */
    method QuadraticRehash(icg: nat, size: nat, rsize: nat, ghost can: seq<bool>, ghost frees: seq<seq<bool>>,
                           ghost owns: seq<set<nat>>, ghost rots: seq<Rotors>)
      returns (result: nat, ghost cg: nat, ghost visited: seq<nat>)
      requires Valid() && icg < geo.ncg && geo.size > 0 && geo.Searchable()
      requires 1 <= rsize <= size <= geo.frag && (size == rsize || size == geo.frag)
      requires Snapshot(frees, owns) && Table(can, size) && Rots() == rots && Shape() && |can| == geo.ncg && !can[icg]
      modifies this, csNbfree, csNffree, Objects()
      ensures Valid()
      ensures result == 0 ==> Snapshot(frees, owns) && Table(can, size) && Rots() == rots
      ensures result == 0 ==> nbfree == old(nbfree) && nffree == old(nffree)
      ensures result == 0 ==> Order(icg, geo.ncg) == visited + Rest(icg, 2, geo.ncg) && NoneOf(visited, can) && icg in visited
      ensures result != 0 ==> cg < |groups| && cg != icg && FirstIn(Order(icg, geo.ncg), can, cg) && OthersTurn(cg, rots)
      ensures result != 0 ==> TookIn(cg, result, rsize, frees[cg], owns[cg]) && OthersAt(cg, frees, owns)
      ensures result != 0 ==> BestTake(frees[cg], geo.frag, size, result - geo.Base(cg))
      ensures result != 0 ==> Picked(geo, cg, frees[cg], rots[cg], 0, size, result - geo.Base(cg), groups[cg].Rot())
    {
      hide Valid, Snapshot, Table, TookIn, Repr, Slot, OthersAt, Rots, OthersTurn, Picked, BestTake, FirstIn, Shape, Twice,
        Pow2, Rehash, Rest;
      assert |can| == |groups| == geo.ncg by { TableSize(can, size); }
      ghost var order := Order(icg, geo.ncg);
      visited, cg, result := [icg], icg, 0;
      var c: nat, i: nat := icg, 1;
      ghost var k: nat := 0;
      Pow2Zero();
      SlotIsNext(icg, 0, geo.ncg);
      while i < geo.ncg
        invariant Valid() && Snapshot(frees, owns) && Table(can, size) && Rots() == rots && result == 0
        invariant nbfree == old(nbfree) && nffree == old(nffree)
        invariant i == Pow2(k) && i >= 1 && c == Slot(icg, i - 1, geo.ncg)
        invariant order == visited + Rehash(icg, k, geo.ncg) + Rest(icg, 2, geo.ncg) && NoneOf(visited, can) && icg in visited
        decreases geo.ncg - i
      {
        SlotAdd(icg, i - 1, i, geo.ncg);
        RehashStep(icg, k, geo.ncg);
        c := c + i;
        if c >= geo.ncg {
          c := c - geo.ncg;
        }
        cg := c;
        result := Attempt(c, 0, size, rsize, can, frees, owns, rots);
        if result != 0 {
          FoundFirst(order, visited, c, can);
          return;
        }
        visited := visited + [c];
        NoWrap(i);
        i := Twice(i);
        k := k + 1;
      }
      RehashOver(icg, k, geo.ncg);
    }

    /** The last part of the search. */
    method BruteForce(icg: nat, size: nat, rsize: nat, ghost can: seq<bool>, ghost frees: seq<seq<bool>>, ghost owns: seq<set<nat>>,
                      ghost rots: seq<Rotors>, ghost before: seq<nat>) returns (result: nat, ghost cg: nat)
      requires Valid() && icg < geo.ncg && geo.size > 0
      requires 1 <= rsize <= size <= geo.frag && (size == rsize || size == geo.frag)
      requires Snapshot(frees, owns) && Table(can, size) && Rots() == rots && Shape()
      requires Order(icg, geo.ncg) == before + Rest(icg, 2, geo.ncg) && NoneOf(before, can) && icg in before
      modifies this, csNbfree, csNffree, Objects()
      ensures Valid()
      ensures result == 0 ==> Snapshot(frees, owns) && Rots() == rots && nbfree == old(nbfree) && nffree == old(nffree)
      ensures result == 0 ==> NoneOf(Order(icg, geo.ncg), can)
      ensures result != 0 ==> cg < |groups| && cg != icg && FirstIn(Order(icg, geo.ncg), can, cg) && OthersTurn(cg, rots)
      ensures result != 0 ==> TookIn(cg, result, rsize, frees[cg], owns[cg]) && OthersAt(cg, frees, owns)
      ensures result != 0 ==> BestTake(frees[cg], geo.frag, size, result - geo.Base(cg))
      ensures result != 0 ==> Picked(geo, cg, frees[cg], rots[cg], 0, size, result - geo.Base(cg), groups[cg].Rot())
    {
      hide Valid, Snapshot, Table, TookIn, Repr, Slot, OthersAt, Rots, OthersTurn, Picked, BestTake, FirstIn, Order, Shape;
      assert |can| == |groups| == geo.ncg by { TableSize(can, size); }
      ghost var visited := before;
      var c, i := Slot(icg, 2, geo.ncg), 2;
      cg, result := icg, 0;
      while i < geo.ncg
        invariant Valid() && Snapshot(frees, owns) && Table(can, size) && Rots() == rots && result == 0
        invariant nbfree == old(nbfree) && nffree == old(nffree)
        invariant 2 <= i && c == Slot(icg, i, geo.ncg)
        invariant Order(icg, geo.ncg) == visited + Rest(icg, i, geo.ncg) && NoneOf(visited, can) && icg in visited
      {
        cg := c;
        RestStep(icg, i, geo.ncg);
        result := Attempt(c, 0, size, rsize, can, frees, owns, rots);
        if result != 0 {
          FoundFirst(Order(icg, geo.ncg), visited, c, can);
          return;
        }
        visited := visited + [c];
        SlotStep(icg, i, geo.ncg);
        c := c + 1;
        if c == geo.ncg {
          c := 0;
        }
        i := i + 1;
      }
    }

    /** The group and offset of an address. */
    lemma Locate(d: nat)
      requires Shape() && d < geo.size
      ensures geo.Dtog(d) < |groups| && geo.Dtogd(d) < geo.fpg
      ensures geo.Base(geo.Dtog(d)) + geo.Dtogd(d) == d
      ensures d % geo.frag == geo.Dtogd(d) % geo.frag
    {
      hide Repr;
      DivisionLaw(d, geo.fpg);
      assert geo.Dtog(d) < geo.ncg by {
        if geo.Dtog(d) >= geo.ncg {
          MulMono(geo.ncg, geo.Dtog(d), geo.fpg);
          assert false;
        }
      }
      AddressInGroup(geo, geo.Dtog(d), geo.Dtogd(d));
    }

    /** ffs_fragextend: grows the fragment [bprev, bprev + osize) in place. The test of cs_nffree
        made before the group is read never turns away an extension that would fit. */
    method FragExtend(cg: nat, bprev: nat, osize: nat, nsize: nat) returns (result: nat)
      requires Valid() && 0 < bprev < geo.size && cg < |groups| && cg == geo.Dtog(bprev)
      requires 0 < osize < nsize <= geo.frag && bprev % geo.frag + osize <= geo.frag
      requires Range(geo.Dtogd(bprev), osize) <= groups[cg].owned
      modifies this, csNbfree, csNffree, Repr(groups[cg])
      ensures Valid()
      ensures result == 0 || result == bprev
      ensures result != 0 <==> Extensible(bprev, osize, nsize, old(groups[cg].Free()))
      ensures result == 0 ==> unchanged(this, csNbfree, csNffree)
      ensures var g := groups[cg];
        result == 0 ==> unchanged(g, g.blksfree, g.frsum, g.clustersfree, g.clustersum)
      ensures result != 0 ==>
        groups[cg].Took(geo.Dtogd(bprev) + osize, nsize - osize, old(groups[cg].Free()), old(groups[cg].owned))
      ensures result == 0 ==> Frees() == old(Frees()) && Owns() == old(Owns())
      ensures OthersAt(cg, old(Frees()), old(Owns())) && Rots() == old(Rots())
    {
      hide CylGroup.Valid, CylGroup.Took, Range, AllSet, Fill, Bits, OthersAt, OthersTurn, Frees, Owns, Rots, Geo.NDblk, Geo.Dtog,
        Geo.Dtogd, Geo.Base;
      Locate(bprev);
      var bno := geo.Dtogd(bprev);
      ValuesAt(cg);
      RotAt(cg);
      var ok := ExtendIn(cg, bno, osize, nsize);
      OthersSame(cg);
      TurnsAre(cg, old(Rots()));
      if !ok {
        SameValues(cg, old(Frees()), old(Owns()));
      }
      result := if ok then bprev else 0;
    }

    /** The part of ffs_fragextend that works in the group and on the summaries. */
    method ExtendIn(cg: nat, bno: nat, osize: nat, nsize: nat) returns (ok: bool)
      requires Valid() && cg < |groups| && 0 < osize < nsize <= geo.frag && bno % geo.frag + osize <= geo.frag
      requires Range(bno, osize) <= groups[cg].owned
      modifies this, csNbfree, csNffree, Repr(groups[cg])
      ensures Valid()
      ensures ok <==> bno % geo.frag + nsize <= geo.frag && AllSet(old(groups[cg].Free()), bno + osize, nsize - osize)
      ensures !ok ==> unchanged(this, csNbfree, csNffree)
      ensures var g := groups[cg]; !ok ==> unchanged(g, g.blksfree, g.frsum, g.clustersfree, g.clustersum)
      ensures ok ==> groups[cg].Took(bno + osize, nsize - osize, old(groups[cg].Free()), old(groups[cg].owned))
      ensures groups[cg].Rot() == old(groups[cg].Rot())
    {
      hide CylGroup.Valid, CylGroup.Took, Range, AllSet, Fill, Bits, Geo.NDblk;
      var g := groups[cg];
      assert g.Valid() && Mirrored(cg);
      if csNffree[cg] < nsize - osize {
        g.TooFewFrags(bno, osize, nsize);
        return false;
      }
      ok := g.FragExtend(bno, osize, nsize);
      if ok {
        OthersKept(cg);
        Settle(cg, 0, osize - nsize);
      }
    }

    /** The fragments after [bprev, bprev + osize) up to nsize are free and in the same block. */
    ghost predicate Extensible(bprev: nat, osize: nat, nsize: nat, free: seq<bool>)
      requires geo.Wf() && osize < nsize
    {
      bprev % geo.frag + nsize <= geo.frag && AllSet(free, geo.Dtogd(bprev) + osize, nsize - osize)
    }

    /** ffs_blkfree_cg: returns the n fragments at bno, part of one block, to the free map. */
    method BlkFree(bno: nat, n: nat)
      requires Valid() && bno < geo.size && 1 <= n && bno % geo.frag + n <= geo.frag
      requires geo.Dtog(bno) < |groups| && Range(geo.Dtogd(bno), n) <= groups[geo.Dtog(bno)].owned
      modifies this, csNbfree, csNffree, Repr(groups[geo.Dtog(bno)])
      ensures Valid()
      ensures var g, lo := groups[geo.Dtog(bno)], geo.Dtogd(bno);
        && lo + n <= |old(g.Free())| && g.Free() == Fill(old(g.Free()), lo, n, true)
        && g.owned == old(g.owned) - Range(lo, n)
      ensures OthersAt(geo.Dtog(bno), old(Frees()), old(Owns())) && Rots() == old(Rots())
    {
      hide CylGroup.Valid, Range, Fill, Bits, OthersAt, OthersTurn, Rots;
      Locate(bno);
      RotAt(geo.Dtog(bno));
      var cg, cgbno := geo.Dtog(bno), geo.Dtogd(bno);
      var g := groups[cg];
      assert g.Valid() && Mirrored(cg);
      var dnb, dnf := g.BlkFree(cgbno, n);
      OthersKept(cg);
      Settle(cg, dnb, dnf);
      OthersSame(cg);
      TurnsAre(cg, old(Rots()));
    }

    /** ffs_clusteralloc on group cg: the first row of len whole blocks at or after the preferred position. */
    method ClusterAlloc(cg: nat, bpref: nat, len: nat) returns (result: nat)
      requires Valid() && cg < geo.ncg && bpref < geo.size && geo.cap > 0 && len >= 1
      modifies this, csNbfree, csNffree, Repr(groups[cg])
      ensures result == 0 <==> !old(HasCluster(groups[cg].Clusters(), geo.cap, len, ClusterFrom(geo, cg, bpref)))
      ensures result == 0 <==> !HasRow(old(groups[cg].Free()), geo.frag, geo.cap, len, ClusterFrom(geo, cg, bpref))
      ensures result == 0 ==> Frees() == old(Frees()) && Owns() == old(Owns())
      ensures result != 0 ==> geo.Base(cg) <= result && (result - geo.Base(cg)) % geo.frag == 0
      ensures result != 0 ==> result - geo.Base(cg) + len * geo.frag <= geo.NDblk(cg)
      ensures result != 0 ==> groups[cg].Took(result - geo.Base(cg), len * geo.frag, old(groups[cg].Free()), old(groups[cg].owned))
      ensures result != 0 ==> FirstRow(old(groups[cg].Free()), geo.frag, len, ClusterFrom(geo, cg, bpref), result - geo.Base(cg))
      ensures OthersAt(cg, old(Frees()), old(Owns())) && Rots() == old(Rots())
      ensures Valid()
    {
      hide CylGroup.Valid, HasCluster, HasRow, RowAt, RunLen, Bits, CylGroup.Took, ClusterFrom, Geo.NDblk, OthersAt, Frees,
        Owns, Rots, OthersTurn;
      RotAt(cg);
      var g := groups[cg];
      assert g.Valid() && Mirrored(cg);
      g.RowsMean(len, ClusterFrom(geo, cg, bpref));
      ValuesAt(cg);
      ghost var free := g.Free();
      var ok, bno := g.ClusterAlloc(bpref, len);
      OthersKept(cg);
      OthersSame(cg);
      if !ok {
        Settle(cg, 0, 0);
        OthersSame(cg);
        TurnsAre(cg, old(Rots()));
        SameValues(cg, old(Frees()), old(Owns()));
        return 0;
      }
      var taken: int := len;
      Settle(cg, -taken, 0);
      OthersSame(cg);
      TurnsAre(cg, old(Rots()));
      g.TookNotZero(bno, len * geo.frag, old(g.Free()), old(g.owned));
      TookWithin(cg, bno, len * geo.frag, old(g.Free()), old(g.owned));
      result := geo.Base(cg) + bno;
    }

    lemma TookWithin(cg: nat, bno: nat, n: nat, free: seq<bool>, own: set<nat>)
      requires Shape() && cg < |groups| && groups[cg].Valid() && n > 0 && groups[cg].Took(bno, n, free, own)
      ensures bno + n <= geo.NDblk(cg)
    {
      hide CylGroup.Valid, Range, Fill, Geo.NDblk, Geo.Reserved, Repr, Bits;
      assert bno + n - 1 in Range(bno, n);
      groups[cg].OwnedInside(bno + n - 1);
    }

    lemma TableSize(can: seq<bool>, size: nat)
      requires Valid() && Table(can, size)
      ensures |can| == |groups| == geo.ncg && geo.ncg > 0 && Shape()
    {}

    lemma ReprInObjects()
      ensures forall c :: 0 <= c < |groups| ==> groups[c] in Objects() && groups[c].blksfree in Objects()
      ensures forall c :: 0 <= c < |groups| ==> Repr(groups[c]) <= Objects()
    {
      forall c | 0 <= c < |groups|
        ensures Repr(groups[c]) <= Objects()
      {
        forall o: object | o in Repr(groups[c])
          ensures o in Objects()
        {}
      }
      forall c | 0 <= c < |groups|
        ensures groups[c] in Objects() && groups[c].blksfree in Objects()
      {
        assert groups[c] in Repr(groups[c]) && groups[c].blksfree in Repr(groups[c]);
      }
    }
  }

  /** No row of len whole blocks begins in [start, bno / frag). */
  ghost predicate FirstRow(free: seq<bool>, frag: nat, len: nat, start: nat, bno: nat) {
    frag > 0 && start <= bno / frag && forall p: nat :: start <= p < bno / frag ==> !RowAt(free, frag, p, len)
  }

  /** The j-th group after icg, wrapping around. */
  function Slot(icg: nat, j: nat, ncg: nat): (s: nat)
    requires ncg > 0
    ensures s < ncg
  {
    (icg + j) % ncg
  }

  /** The groups of the rehash from its turn k on: the steps are 1, 2, 4 and so on, as long as they are below ncg, so turn k
      comes to the group 2^(k + 1) - 1 after icg. */
  function Rehash(icg: nat, k: nat, ncg: nat): seq<nat>
    requires ncg > 0
    decreases ncg - Pow2(k)
  {
    if Pow2(k) >= ncg then [] else [Slot(icg, Pow2(k + 1) - 1, ncg)] + Rehash(icg, k + 1, ncg)
  }

  /** The groups from i after icg on, up to the last before it. */
  function Rest(icg: nat, i: nat, ncg: nat): (r: seq<nat>)
    requires ncg > 0
    ensures |r| == if i < ncg then ncg - i else 0
    ensures forall j :: 0 <= j < |r| ==> r[j] == Slot(icg, i + j, ncg)
    decreases ncg - i
  {
    if i >= ncg then [] else [Slot(icg, i, ncg)] + Rest(icg, i + 1, ncg)
  }

  /** The order in which ffs_hashalloc tries the groups. */
  function Order(icg: nat, ncg: nat): seq<nat>
    requires ncg > 0
  {
    [icg] + Rehash(icg, 0, ncg) + Rest(icg, 2, ncg)
  }

  /** The first group of the order that can. */
  ghost predicate FirstIn(order: seq<nat>, can: seq<bool>, cg: nat) {
    exists j :: 0 <= j < |order| && order[j] == cg && cg < |can| && can[cg] && NoneOf(order[..j], can)
  }

  predicate NoneOf(groups: seq<nat>, can: seq<bool>) {
    forall i :: 0 <= i < |groups| ==> groups[i] < |can| && !can[groups[i]]
  }

  lemma FirstCan(order: seq<nat>, can: seq<bool>, cg: nat)
    requires FirstIn(order, can, cg)
    ensures cg < |can| && can[cg]
  {}

  lemma FoundFirst(order: seq<nat>, visited: seq<nat>, c: nat, can: seq<bool>)
    requires visited + [c] <= order && NoneOf(visited, can) && c < |can| && can[c]
    ensures FirstIn(order, can, c)
  {
    var j := |visited|;
    assert order[..j] == visited && order[j] == (visited + [c])[j] == c;
  }

  lemma RehashStep(icg: nat, k: nat, ncg: nat)
    requires 0 < ncg && Pow2(k) < ncg
    ensures Rehash(icg, k, ncg) == [Slot(icg, Pow2(k + 1) - 1, ncg)] + Rehash(icg, k + 1, ncg) && Pow2(k + 1) == 2 * Pow2(k)
  {}

  lemma RestStep(icg: nat, i: nat, ncg: nat)
    requires i < ncg
    ensures Rest(icg, i, ncg) == [Slot(icg, i, ncg)] + Rest(icg, i + 1, ncg)
  {
    hide Slot;
  }

  lemma RehashOver(icg: nat, k: nat, ncg: nat)
    requires 0 < ncg <= Pow2(k)
    ensures Rehash(icg, k, ncg) == []
  {}

  lemma SlotAdd(icg: nat, j: nat, i: nat, ncg: nat)
    requires i < ncg
    ensures Slot(icg, j + i, ncg) == if Slot(icg, j, ncg) + i >= ncg then Slot(icg, j, ncg) + i - ncg else Slot(icg, j, ncg) + i
  {
    var x := icg + j;
    DivisionLaw(x, ncg);
    DivModBase(x / ncg, ncg, 0);
    AddMod((x / ncg) * ncg, x % ncg + i, ncg);
    WrapMod(x % ncg + i, ncg);
  }

  /** Every group is in the order. */
  lemma OrderCovers(icg: nat, ncg: nat, d: nat)
    requires icg < ncg && d < ncg
    ensures d in Order(icg, ncg)
  {
    hide Slot, Pow2, Rehash;
    var j := SlotOf(icg, d, ncg);
    if j == 0 {
      SlotIsNext(icg, 0, ncg);
      assert Order(icg, ncg)[0] == d;
    } else if j == 1 {
      Pow2Zero();
      RehashStep(icg, 0, ncg);
      assert Order(icg, ncg)[1] == Slot(icg, 1, ncg);
    } else {
      assert Rest(icg, 2, ncg)[j - 2] == d;
    }
  }

  /** The step of the quadratic rehash after k turns, a u_int. */
  function Doubled(k: nat): nat {
    if k == 0 then 1 else Twice(Doubled(k - 1))
  }

  function Twice(i: nat): nat {
    i * 2 % UINT_SPAN
  }

  function Pow2(k: nat): (r: nat)
    ensures r >= 1
  {
    if k == 0 then 1 else 2 * Pow2(k - 1)
  }

  lemma {:induction false} Pow2Grows(k: nat, m: nat)
    requires k <= m
    ensures 1 <= Pow2(k) <= Pow2(m)
    decreases m
  {
    if k < m {
      Pow2Grows(k, m - 1);
    } else if k > 0 {
      Pow2Grows(k - 1, m - 1);
    }
  }

  lemma {:induction false} DoubledIs(k: nat)
    ensures Doubled(k) == if k < 32 then Pow2(k) else 0
  {
    hide Pow2, Twice;
    if k == 0 {
      Pow2Zero();
    } else {
      DoubledIs(k - 1);
      Pow2Next(k);
      Pow2Top();
      Wraps();
      if k < 32 {
        Pow2Grows(k, 31);
        NoWrap(Pow2(k - 1));
      }
    }
  }

  lemma Pow2Zero()
    ensures Pow2(0) == 1
  {}

  lemma Wraps()
    ensures Twice(0x8000_0000) == 0 && Twice(0) == 0
  {}

  lemma Pow2Next(k: nat)
    requires k > 0
    ensures Pow2(k) == 2 * Pow2(k - 1)
  {}

  lemma Pow2Top()
    ensures Pow2(31) == 0x8000_0000
  {
    assert Pow2(8) == 0x100;
    assert Pow2(16) == 0x1_0000;
    assert Pow2(24) == 0x100_0000;
  }

  lemma NoWrap(x: nat)
    requires x < 0x8000_0000
    ensures Twice(x) == 2 * x
  {}

  /** The rehash loop ends if and only if there are at most 2^31 groups: with more, its step wraps around to 0 first. */
  lemma RehashEnds(geo: Geo)
    ensures (exists k: nat :: Doubled(k) >= geo.ncg) <==> geo.Searchable()
  {
    hide Doubled, Pow2;
    Pow2Top();
    DoubledIs(31);
    forall k: nat
      ensures Doubled(k) <= 0x8000_0000
    {
      DoubledIs(k);
      if k < 32 {
        Pow2Grows(k, 31);
      }
    }
    assert geo.Searchable() ==> Doubled(31) >= geo.ncg;
  }

  lemma SlotIsNext(icg: nat, j: nat, ncg: nat)
    requires icg < ncg && j <= ncg
    ensures Slot(icg, j, ncg) == if icg + j >= ncg then icg + j - ncg else icg + j
  {
    WrapMod(icg + j, ncg);
  }

  lemma WrapMod(x: nat, m: nat)
    requires x < 2 * m
    ensures x % m == if x >= m then x - m else x
  {
    if x >= m {
      DivModBase(1, m, x - m);
    } else {
      SmallMod(x, m);
    }
  }

  lemma SlotStep(icg: nat, j: nat, ncg: nat)
    requires icg < ncg && j < ncg
    ensures Slot(icg, j + 1, ncg) == if Slot(icg, j, ncg) + 1 == ncg then 0 else Slot(icg, j, ncg) + 1
  {
    SlotIsNext(icg, j, ncg);
    SlotIsNext(icg, j + 1, ncg);
  }

  /** Every group is reached by some step. */
  lemma SlotOf(icg: nat, d: nat, ncg: nat) returns (j: nat)
    requires icg < ncg && d < ncg
    ensures j < ncg && Slot(icg, j, ncg) == d
  {
    j := if d >= icg then d - icg else d + ncg - icg;
    SlotIsNext(icg, j, ncg);
  }
}
