/** Whole runs of the allocator: any sequence of requests by its callers, and the extents they hold. */
module Workload {
  import opened Arith
  import opened Bitmap
  import opened Runs
  import opened Geometry
  import opened Allocator
  import opened Filesystem

  /** A piece of one block that a caller holds, by its address in the filesystem. */
  datatype Extent = Extent(addr: nat, n: nat)

  /** What is done during one hold of a group's buffer lock: an extent is tried for in one group, a row of whole blocks is
      taken, extent k grows in place, or all but its first keep fragments go back. Alloc is a whole search of
      ffs_hashalloc that nobody comes between. */
  datatype Op =
    | Try(cg: nat, pref: nat, size: nat, rsize: nat)
    | Alloc(icg: nat, pref: nat, size: nat, rsize: nat)
    | Cluster(cg: nat, bpref: nat, len: nat)
    | Extend(k: nat, nsize: nat)
    | Free(k: nat, keep: nat)

  predicate Covers(e: Extent, d: nat) {
    e.addr <= d < e.addr + e.n
  }

  /** The fragment at address d is in use by some caller, as its group sees it. */
  predicate OwnedAt(geo: Geo, owns: seq<set<nat>>, d: nat) {
    geo.fpg > 0 && geo.Dtog(d) < |owns| && geo.Dtogd(d) in owns[geo.Dtog(d)]
  }

  /** An extent lies inside one block of one group, and its address is not 0. */
  predicate Placed(geo: Geo, e: Extent)
    requires geo.Wf()
  {
    && 0 < e.addr < geo.size && 1 <= e.n && e.addr % geo.frag + e.n <= geo.frag
    && geo.Dtog(e.addr) < geo.ncg && geo.Dtogd(e.addr) + e.n <= geo.NDblk(geo.Dtog(e.addr))
  }

  predicate Apart(e: Extent, f: Extent) {
    e.addr + e.n <= f.addr || f.addr + f.n <= e.addr
  }

  /** The callers hold exactly what the groups count as owned, and no fragment is held twice. */
  ghost predicate Held(geo: Geo, owns: seq<set<nat>>, live: seq<Extent>)
    requires geo.Wf()
  {
    && (forall i :: 0 <= i < |live| ==> Placed(geo, live[i]))
    && (forall i, j :: 0 <= i < j < |live| ==> Apart(live[i], live[j]))
    && (forall d: nat :: OwnedAt(geo, owns, d) <==> exists i :: 0 <= i < |live| && Covers(live[i], d))
  }

  /** owns' is owns with the n fragments at addr added, which nobody owned. */
  ghost predicate Added(geo: Geo, owns: seq<set<nat>>, owns': seq<set<nat>>, addr: nat, n: nat)
    requires geo.Wf()
  {
    && (forall d: nat :: OwnedAt(geo, owns', d) <==> OwnedAt(geo, owns, d) || addr <= d < addr + n)
    && (forall d: nat :: addr <= d < addr + n ==> !OwnedAt(geo, owns, d))
  }

  ghost predicate Removed(geo: Geo, owns: seq<set<nat>>, owns': seq<set<nat>>, addr: nat, n: nat)
    requires geo.Wf()
  {
    forall d: nat :: OwnedAt(geo, owns', d) <==> OwnedAt(geo, owns, d) && !(addr <= d < addr + n)
  }

  /** An address lies in a range of group cg exactly when its group and offset do. */
  lemma InRange(geo: Geo, cg: nat, rel: nat, n: nat, d: nat)
    requires geo.Wf() && cg < geo.ncg && rel + n <= geo.fpg
    ensures geo.Base(cg) + rel <= d < geo.Base(cg) + rel + n <==> geo.Dtog(d) == cg && geo.Dtogd(d) in Range(rel, n)
  {
    DivisionLaw(d, geo.fpg);
    if geo.Base(cg) + rel <= d < geo.Base(cg) + rel + n {
      DivModBase(cg, geo.fpg, d - geo.Base(cg));
    }
  }

  lemma TakenAdded(geo: Geo, owns: seq<set<nat>>, owns': seq<set<nat>>, cg: nat, rel: nat, n: nat)
    requires geo.Wf() && |owns| == geo.ncg && cg < geo.ncg && rel + n <= geo.fpg
    requires owns' == owns[cg := owns[cg] + Range(rel, n)] && owns[cg] !! Range(rel, n)
    ensures Added(geo, owns, owns', geo.Base(cg) + rel, n)
  {
    hide Geo.Dtog, Geo.Dtogd, Geo.Base, Range;
    forall d: nat
      ensures OwnedAt(geo, owns', d) <==> OwnedAt(geo, owns, d) || geo.Base(cg) + rel <= d < geo.Base(cg) + rel + n
      ensures geo.Base(cg) + rel <= d < geo.Base(cg) + rel + n ==> !OwnedAt(geo, owns, d)
    {
      InRange(geo, cg, rel, n, d);
    }
  }

  lemma GivenRemoved(geo: Geo, owns: seq<set<nat>>, owns': seq<set<nat>>, cg: nat, rel: nat, n: nat)
    requires geo.Wf() && |owns| == geo.ncg && cg < geo.ncg && rel + n <= geo.fpg
    requires owns' == owns[cg := owns[cg] - Range(rel, n)]
    ensures Removed(geo, owns, owns', geo.Base(cg) + rel, n)
  {
    hide Geo.Dtog, Geo.Dtogd, Geo.Base, Range;
    forall d: nat
      ensures OwnedAt(geo, owns', d) <==> OwnedAt(geo, owns, d) && !(geo.Base(cg) + rel <= d < geo.Base(cg) + rel + n)
    {
      InRange(geo, cg, rel, n, d);
    }
  }

  /** A new extent is apart from all that are held. */
  lemma HeldAdd(geo: Geo, owns: seq<set<nat>>, owns': seq<set<nat>>, live: seq<Extent>, e: Extent)
    requires geo.Wf() && Held(geo, owns, live) && Added(geo, owns, owns', e.addr, e.n) && Placed(geo, e)
    ensures Held(geo, owns', live + [e])
  {
    hide OwnedAt, Geo.Wf;
    var more := live + [e];
    forall i | 0 <= i < |live|
      ensures Apart(live[i], e)
    {
      NotCovered(geo, owns, owns', live, e, i);
    }
    forall d: nat
      ensures OwnedAt(geo, owns', d) <==> exists i :: 0 <= i < |more| && Covers(more[i], d)
    {
      if OwnedAt(geo, owns, d) {
        var i :| 0 <= i < |live| && Covers(live[i], d);
        assert Covers(more[i], d);
      }
      assert Covers(more[|live|], d) == (e.addr <= d < e.addr + e.n);
      if i :| 0 <= i < |more| && Covers(more[i], d) {
        assert i < |live| ==> Covers(live[i], d);
      }
    }
  }

  lemma NotCovered(geo: Geo, owns: seq<set<nat>>, owns': seq<set<nat>>, live: seq<Extent>, e: Extent, i: nat)
    requires geo.Wf() && Held(geo, owns, live) && Added(geo, owns, owns', e.addr, e.n) && i < |live| && e.n > 0
    ensures Apart(live[i], e)
  {
    hide OwnedAt, Geo.Wf;
    var f := live[i];
    var d := if f.addr < e.addr then e.addr else f.addr;
    if Covers(f, d) {
      assert OwnedAt(geo, owns, d);
    }
  }

  /** Extent k with n fragments instead of its own number. */
  function Resized(live: seq<Extent>, k: nat, n: nat): (r: seq<Extent>)
    requires k < |live|
    ensures |r| == |live| && r[k] == Extent(live[k].addr, n)
    ensures forall i :: 0 <= i < |live| && i != k ==> r[i] == live[i]
  {
    live[k := Extent(live[k].addr, n)]
  }

  function Dropped(live: seq<Extent>, k: nat): (r: seq<Extent>)
    requires k < |live|
    ensures |r| == |live| - 1
    ensures forall i :: 0 <= i < |r| ==> r[i] == if i < k then live[i] else live[i + 1]
  {
    live[..k] + live[k + 1..]
  }

  /** Another extent than k covers no address that extent k covers. */
  lemma OnlyOne(geo: Geo, owns: seq<set<nat>>, live: seq<Extent>, k: nat, i: nat, d: nat)
    requires geo.Wf() && Held(geo, owns, live) && k < |live| && i < |live| && i != k && Covers(live[k], d)
    ensures !Covers(live[i], d)
  {
    hide OwnedAt, Placed, Geo.Wf;
    assert Apart(live[if i < k then i else k], live[if i < k then k else i]);
  }

  /** An extent grows by fragments that nobody owned. */
  lemma HeldGrow(geo: Geo, owns: seq<set<nat>>, owns': seq<set<nat>>, live: seq<Extent>, k: nat, n: nat)
    requires geo.Wf() && Held(geo, owns, live) && k < |live| && live[k].n < n && Placed(geo, Extent(live[k].addr, n))
    requires Added(geo, owns, owns', live[k].addr + live[k].n, n - live[k].n)
    ensures Held(geo, owns', Resized(live, k, n))
  {
    hide OwnedAt, Geo.Wf, Resized;
    var was, r := live[k], Resized(live, k, n);
    forall i | 0 <= i < |live| && i != k
      ensures Apart(live[i], r[k]) && Apart(r[k], live[i])
    {
      NotCovered(geo, owns, owns', live, Extent(was.addr + was.n, n - was.n), i);
      assert Placed(geo, live[i]) && Apart(live[if i < k then i else k], live[if i < k then k else i]);
    }
    forall d: nat
      ensures OwnedAt(geo, owns', d) <==> exists i :: 0 <= i < |r| && Covers(r[i], d)
    {
      assert Covers(r[k], d) == (Covers(was, d) || was.addr + was.n <= d < was.addr + n);
      if OwnedAt(geo, owns, d) {
        var i :| 0 <= i < |live| && Covers(live[i], d);
        assert Covers(r[i], d);
      }
      if i :| 0 <= i < |r| && Covers(r[i], d) {
        assert i != k ==> Covers(live[i], d);
      }
    }
  }

  /** An extent loses its fragments after the first n. */
  lemma HeldShrink(geo: Geo, owns: seq<set<nat>>, owns': seq<set<nat>>, live: seq<Extent>, k: nat, n: nat)
    requires geo.Wf() && Held(geo, owns, live) && k < |live| && 0 < n < live[k].n && Placed(geo, Extent(live[k].addr, n))
    requires Removed(geo, owns, owns', live[k].addr + n, live[k].n - n)
    ensures Held(geo, owns', Resized(live, k, n))
  {
    hide OwnedAt, Geo.Wf, Resized, Placed;
    var r := Resized(live, k, n);
    forall i | 0 <= i < |live| && i != k
      ensures Apart(live[i], r[k]) && Apart(r[k], live[i])
    {
      assert Apart(live[if i < k then i else k], live[if i < k then k else i]);
    }
    forall d: nat
      ensures OwnedAt(geo, owns', d) <==> exists i :: 0 <= i < |r| && Covers(r[i], d)
    {
      if OwnedAt(geo, owns', d) {
        var i :| 0 <= i < |live| && Covers(live[i], d);
        assert Covers(r[i], d);
      }
      if i :| 0 <= i < |r| && Covers(r[i], d) {
        assert Covers(live[i], d);
        if i != k && Covers(live[k], d) {
          OnlyOne(geo, owns, live, k, i, d);
        }
      }
    }
  }

  /** An extent is given back as a whole. */
  lemma HeldDrop(geo: Geo, owns: seq<set<nat>>, owns': seq<set<nat>>, live: seq<Extent>, k: nat)
    requires geo.Wf() && Held(geo, owns, live) && k < |live|
    requires Removed(geo, owns, owns', live[k].addr, live[k].n)
    ensures Held(geo, owns', Dropped(live, k))
  {
    hide OwnedAt, Geo.Wf, Placed;
    var r := Dropped(live, k);
    forall d: nat
      ensures OwnedAt(geo, owns', d) <==> exists i :: 0 <= i < |r| && Covers(r[i], d)
    {
      if OwnedAt(geo, owns', d) {
        var i :| 0 <= i < |live| && Covers(live[i], d);
        assert i != k;
        var j := if i < k then i else i - 1;
        assert r[j] == live[i];
      }
      if i :| 0 <= i < |r| && Covers(r[i], d) {
        var j := if i < k then i else i + 1;
        assert r[i] == live[j];
        if Covers(live[k], d) {
          OnlyOne(geo, owns, live, k, j, d);
        }
      }
    }
  }

  /** The fragments held in all. */
  function Size(live: seq<Extent>): nat {
    if live == [] then 0 else Size(live[..|live| - 1]) + live[|live| - 1].n
  }

  lemma SizeAdd(live: seq<Extent>, e: Extent)
    ensures Size(live + [e]) == Size(live) + e.n
  {
    assert (live + [e])[..|live|] == live;
  }

  lemma {:induction false} SizeResized(live: seq<Extent>, k: nat, n: nat)
    requires k < |live|
    ensures Size(Resized(live, k, n)) == Size(live) - live[k].n + n
  {
    var m := |live| - 1;
    if k == m {
      assert Resized(live, k, n)[..m] == live[..m];
    } else {
      assert Resized(live, k, n)[..m] == Resized(live[..m], k, n);
      SizeResized(live[..m], k, n);
    }
  }

  lemma {:induction false} SizeDropped(live: seq<Extent>, k: nat)
    requires k < |live|
    ensures Size(Dropped(live, k)) == Size(live) - live[k].n
  {
    var m := |live| - 1;
    if k == m {
      assert Dropped(live, k) == live[..m];
    } else {
      assert Dropped(live, k) == Dropped(live[..m], k) + [live[m]];
      SizeAdd(Dropped(live[..m], k), live[m]);
      SizeDropped(live[..m], k);
    }
  }

  /** The whole blocks of a row, one extent each. */
  function Row(addr: nat, frag: nat, len: nat): (r: seq<Extent>)
    ensures |r| == len
  {
    if len == 0 then [] else Row(addr, frag, len - 1) + [Extent(addr + (len - 1) * frag, frag)]
  }

  lemma {:induction false} SizeRow(live: seq<Extent>, addr: nat, frag: nat, len: nat)
    ensures Size(live + Row(addr, frag, len)) == Size(live) + len * frag
  {
    if len == 0 {
      assert live + [] == live;
    } else {
      var e := Extent(addr + (len - 1) * frag, frag);
      SizeRow(live, addr, frag, len - 1);
      SizeAdd(live + Row(addr, frag, len - 1), e);
      assert live + Row(addr, frag, len) == live + Row(addr, frag, len - 1) + [e];
      MulStep(len - 1, frag);
    }
  }

  lemma RangeJoin(lo: nat, a: nat, b: nat)
    ensures Range(lo, a) + Range(lo + a, b) == Range(lo, a + b) && Range(lo, a) !! Range(lo + a, b)
  {
    hide Range;
  }

  /** The blocks of a row taken at once are held one by one. */
  lemma {:induction false} HeldRow(geo: Geo, owns: seq<set<nat>>, live: seq<Extent>, cg: nat, rel: nat, len: nat)
    requires geo.Wf() && |owns| == geo.ncg && cg < geo.ncg && rel % geo.frag == 0 && geo.Base(cg) + rel != 0
    requires rel + len * geo.frag <= geo.NDblk(cg) && Held(geo, owns, live) && owns[cg] !! Range(rel, len * geo.frag)
    ensures Held(geo, owns[cg := owns[cg] + Range(rel, len * geo.frag)], live + Row(geo.Base(cg) + rel, geo.frag, len))
  {
    hide Held, Range, Geo.NDblk, Geo.Base, Placed, Added, Row;
    var frag, addr := geo.frag, geo.Base(cg) + rel;
    if len == 0 {
      RowNone(addr, frag);
      RowNone(rel, frag);
      assert len * frag == 0 && owns[cg] + Range(rel, len * frag) == owns[cg];
      assert owns[cg := owns[cg] + Range(rel, len * frag)] == owns;
      assert live + [] == live;
    } else {
      var done := (len - 1) * frag;
      MulStep(len - 1, frag);
      RangeJoin(rel, done, frag);
      HeldRow(geo, owns, live, cg, rel, len - 1);
      var mid := owns[cg := owns[cg] + Range(rel, done)];
      var all := owns[cg := owns[cg] + Range(rel, len * frag)];
      assert len * frag == done + frag;
      assert mid[cg] + Range(rel + done, frag) == owns[cg] + Range(rel, len * frag);
      assert all == mid[cg := mid[cg] + Range(rel + done, frag)];
      RowPlaced(geo, cg, rel, len - 1);
      TakenAdded(geo, mid, all, cg, rel + done, frag);
      var e := Extent(addr + done, frag);
      HeldAdd(geo, mid, all, live + Row(addr, frag, len - 1), e);
      RowMore(live, addr, frag, len);
    }
  }

  lemma RowNone(addr: nat, frag: nat)
    ensures Row(addr, frag, 0) == [] && Range(addr, 0) == {}
  {}

  lemma RowMore(live: seq<Extent>, addr: nat, frag: nat, len: nat)
    requires len > 0
    ensures live + Row(addr, frag, len) == live + Row(addr, frag, len - 1) + [Extent(addr + (len - 1) * frag, frag)]
  {}

  lemma RowPlaced(geo: Geo, cg: nat, rel: nat, i: nat)
    requires geo.Wf() && cg < geo.ncg && rel % geo.frag == 0 && geo.Base(cg) + rel != 0
    requires rel + i * geo.frag + geo.frag <= geo.NDblk(cg)
    ensures Placed(geo, Extent(geo.Base(cg) + rel + i * geo.frag, geo.frag)) && geo.NDblk(cg) <= geo.fpg
  {
    hide Geo.NDblk, Placed;
    DivModBase(i, geo.frag, 0);
    AddMod(rel, i * geo.frag, geo.frag);
    PlacedAt(geo, cg, rel + i * geo.frag, geo.frag);
  }

  // ----- what each request does, on the maps, the owners and the extents held -----

  datatype State = State(frees: seq<seq<bool>>, owns: seq<set<nat>>, rots: seq<Rotors>, live: seq<Extent>)

  ghost predicate Sized(geo: Geo, s: State) {
    geo.Wf() && |s.frees| == |s.owns| == |s.rots| == geo.ncg
  }

  /** n fragments of group cg were free and nobody's; they are the one difference. */
  ghost predicate Taken(geo: Geo, s: State, t: State, cg: nat, rel: nat, n: nat) {
    && Sized(geo, s) && cg < geo.ncg && AllSet(s.frees[cg], rel, n) && s.owns[cg] !! Range(rel, n)
    && t.frees == s.frees[cg := Fill(s.frees[cg], rel, n, false)]
    && t.owns == s.owns[cg := s.owns[cg] + Range(rel, n)] && |t.rots| == geo.ncg
  }

  /** The extent is the one that group cg gives for the preference, from the smallest run there that is large enough; it
      lies in one block and holds no metadata. Its rotors are the only ones that move. */
  ghost predicate AllocFrom(geo: Geo, s: State, t: State, size: nat, rsize: nat, addr: nat, cg: nat, pref: nat) {
    && geo.Wf() && cg < geo.ncg && geo.Base(cg) <= addr
    && var rel := addr - geo.Base(cg);
      && Taken(geo, s, t, cg, rel, rsize) && BestTake(s.frees[cg], geo.frag, size, rel)
      && rel % geo.frag + rsize <= geo.frag && rel + rsize <= geo.NDblk(cg)
      && (forall i: nat :: i in Range(rel, rsize) ==> !geo.Reserved(cg, i))
      && |t.rots| == geo.ncg && t.rots == s.rots[cg := t.rots[cg]]
      && Picked(geo, cg, s.frees[cg], s.rots[cg], pref, size, rel, t.rots[cg])
      && t.live == s.live + [Extent(addr, rsize)]
  }

  /** Which groups can give an extent. */
  ghost function CansOf(geo: Geo, s: State, size: nat): (can: seq<bool>)
    ensures |can| == |s.frees| && forall c :: 0 <= c < |can| ==> can[c] == CanTake(s.frees[c], geo.frag, size)
  {
    seq(|s.frees|, c requires 0 <= c < |s.frees| => CanTake(s.frees[c], geo.frag, size))
  }

  /** Refused exactly when no group can give it, and otherwise from the first that can in the order of the search, the
      preferred address counting for the preferred group alone. */
  ghost predicate AllocStep(geo: Geo, s: State, t: State, icg: nat, pref: nat, size: nat, rsize: nat, addr: nat) {
    && Sized(geo, s)
    && (addr == 0 <==> forall c :: 0 <= c < geo.ncg ==> !CanTake(s.frees[c], geo.frag, size))
    && if addr == 0 then t == s
       else exists cg: nat ::
         && FirstIn(Order(icg, geo.ncg), CansOf(geo, s, size), cg)
         && AllocFrom(geo, s, t, size, rsize, addr, cg, if cg == icg then pref else 0)
  }

  /** Whatever else is said of it, an extent that is given is taken. */
  lemma AllocTaken(geo: Geo, s: State, t: State, size: nat, rsize: nat, addr: nat, cg: nat, pref: nat)
    requires AllocFrom(geo, s, t, size, rsize, addr, cg, pref)
    ensures geo.Wf() && cg < geo.ncg && geo.Base(cg) <= addr && Taken(geo, s, t, cg, addr - geo.Base(cg), rsize)
    ensures t.live == s.live + [Extent(addr, rsize)]
  {
    hide Taken, Picked, BestTake, Range;
  }

  /** The group a search took the extent from. */
  lemma AllocGroup(geo: Geo, s: State, t: State, icg: nat, pref: nat, size: nat, rsize: nat, addr: nat) returns (cg: nat)
    requires AllocStep(geo, s, t, icg, pref, size, rsize, addr) && addr != 0
    ensures FirstIn(Order(icg, geo.ncg), CansOf(geo, s, size), cg)
    ensures AllocFrom(geo, s, t, size, rsize, addr, cg, if cg == icg then pref else 0)
  {
    hide AllocFrom, FirstIn, Order, CansOf;
    cg :| FirstIn(Order(icg, geo.ncg), CansOf(geo, s, size), cg)
      && AllocFrom(geo, s, t, size, rsize, addr, cg, if cg == icg then pref else 0);
  }

  /** One try in a named group: refused exactly when this group cannot give it. */
  ghost predicate TryStep(geo: Geo, s: State, t: State, cg: nat, pref: nat, size: nat, rsize: nat, addr: nat) {
    && Sized(geo, s) && cg < geo.ncg
    && (addr == 0 <==> !CanTake(s.frees[cg], geo.frag, size))
    && if addr == 0 then t == s else AllocFrom(geo, s, t, size, rsize, addr, cg, pref)
  }

  /** The first row of the group from the preferred position on, or none if there is none. */
  ghost predicate ClusterStep(geo: Geo, s: State, t: State, cg: nat, bpref: nat, len: nat, addr: nat) {
    && Sized(geo, s) && cg < geo.ncg
    && (addr == 0 <==> !HasRow(s.frees[cg], geo.frag, geo.cap, len, ClusterFrom(geo, cg, bpref)))
    && if addr == 0 then t == s
      else
        && geo.Base(cg) <= addr && (addr - geo.Base(cg)) % geo.frag == 0
        && Taken(geo, s, t, cg, addr - geo.Base(cg), len * geo.frag)
        && FirstRow(s.frees[cg], geo.frag, len, ClusterFrom(geo, cg, bpref), addr - geo.Base(cg))
        && t.rots == s.rots && t.live == s.live + Row(addr, geo.frag, len)
  }

  /** Granted exactly when the fragments wanted are free and in the block of the extent. */
  ghost predicate ExtendStep(geo: Geo, s: State, t: State, k: nat, nsize: nat, addr: nat) {
    && Sized(geo, s) && k < |s.live| && s.live[k].n < nsize && geo.Dtog(s.live[k].addr) < geo.ncg
    && var e := s.live[k];
       var cg, rel := geo.Dtog(e.addr), geo.Dtogd(e.addr) + e.n;
       && addr == (if e.addr % geo.frag + nsize <= geo.frag && AllSet(s.frees[cg], rel, nsize - e.n) then e.addr else 0)
       && (addr == 0 ==> t == s)
       && (addr != 0 ==> Taken(geo, s, t, cg, rel, nsize - e.n) && t.rots == s.rots && t.live == Resized(s.live, k, nsize))
  }

  /** The fragments of the extent after the first keep are free again and nobody's. */
  ghost predicate FreeStep(geo: Geo, s: State, t: State, k: nat, keep: nat) {
    && Sized(geo, s) && k < |s.live| && keep < s.live[k].n && geo.Dtog(s.live[k].addr) < geo.ncg
    && var e := s.live[k];
       var cg, rel, n := geo.Dtog(e.addr), geo.Dtogd(e.addr) + keep, e.n - keep;
       && rel + n <= |s.frees[cg]| && t.frees == s.frees[cg := Fill(s.frees[cg], rel, n, true)]
       && t.owns == s.owns[cg := s.owns[cg] - Range(rel, n)] && t.rots == s.rots && t.live == Kept(s.live, k, keep)
  }

  predicate Fitting(geo: Geo, pref: nat, size: nat, rsize: nat) {
    pref < geo.size && 1 <= rsize <= size <= geo.frag && (size == rsize || size == geo.frag)
  }

  /** A request that makes sense: it names an extent that is held, a group and an address that exist, and sizes that fit. */
  predicate Sensible(geo: Geo, live: seq<Extent>, op: Op) {
    match op
    case Try(cg, pref, size, rsize) => cg < geo.ncg && Fitting(geo, pref, size, rsize)
    case Alloc(icg, pref, size, rsize) => icg < geo.ncg && Fitting(geo, pref, size, rsize) && geo.Searchable()
    case Cluster(cg, bpref, len) => cg < geo.ncg && bpref < geo.size && geo.cap > 0 && len >= 1
    case Extend(k, nsize) => k < |live| && live[k].n < nsize <= geo.frag
    case Free(k, keep) => k < |live| && keep < live[k].n
  }

  /** What one request does, and what it returns. */
  ghost predicate Step(geo: Geo, s: State, op: Op, addr: nat, t: State) {
    if !Sensible(geo, s.live, op) then addr == 0 && t == s
    else
      match op
      case Try(cg, pref, size, rsize) => TryStep(geo, s, t, cg, pref, size, rsize, addr)
      case Alloc(icg, pref, size, rsize) => AllocStep(geo, s, t, icg, pref, size, rsize, addr)
      case Cluster(cg, bpref, len) => ClusterStep(geo, s, t, cg, bpref, len, addr)
      case Extend(k, nsize) => ExtendStep(geo, s, t, k, nsize, addr)
      case Free(k, keep) => FreeStep(geo, s, t, k, keep) && addr == 0
  }

  ghost function StateOf(fs: FileSystem, live: seq<Extent>): State
    reads fs, fs.Objects()
  {
    State(fs.Frees(), fs.Owns(), fs.Rots(), live)
  }

  /** A filesystem in order, whose owned fragments are the ones its callers hold. */
  ghost predicate Session(fs: FileSystem, live: seq<Extent>)
    reads fs, fs.csNbfree, fs.csNffree, fs.Objects()
  {
    fs.Valid() && Held(fs.geo, fs.Owns(), live)
  }

  /** Everything that is free or held. */
  ghost function Stock(fs: FileSystem, live: seq<Extent>): int
    reads fs, fs.csNbfree, fs.csNffree, fs.Objects()
  {
    fs.nbfree * fs.geo.frag + fs.nffree + Size(live)
  }

  /** What the groups' maps and owners are after a range of group cg was taken. */
  lemma TookValues(fs: FileSystem, cg: nat, rel: nat, n: nat, frees: seq<seq<bool>>, owns: seq<set<nat>>)
    requires cg < |fs.groups| && |frees| == |owns| == |fs.groups| && fs.OthersAt(cg, frees, owns)
    requires fs.groups[cg].Took(rel, n, frees[cg], owns[cg])
    ensures fs.Owns() == owns[cg := owns[cg] + Range(rel, n)] && owns[cg] !! Range(rel, n)
    ensures rel + n <= |frees[cg]| && fs.Frees() == frees[cg := Fill(frees[cg], rel, n, false)]
    ensures Space(fs.Frees()) == Space(frees) - n
  {
    hide Repr, Range, Fill, Bits, FreeCount, Space;
    FreeCountFill(frees[cg], rel, n);
    SpaceUpdate(frees, cg, Fill(frees[cg], rel, n, false));
  }

  lemma GaveValues(fs: FileSystem, cg: nat, rel: nat, n: nat, frees: seq<seq<bool>>, owns: seq<set<nat>>)
    requires cg < |fs.groups| && |frees| == |owns| == |fs.groups| && fs.OthersAt(cg, frees, owns)
    requires rel + n <= |frees[cg]| && fs.groups[cg].Free() == Fill(frees[cg], rel, n, true)
    requires fs.groups[cg].owned == owns[cg] - Range(rel, n)
    requires forall i :: rel <= i < rel + n ==> !frees[cg][i]
    ensures fs.Owns() == owns[cg := owns[cg] - Range(rel, n)] && fs.Frees() == frees[cg := Fill(frees[cg], rel, n, true)]
    ensures Space(fs.Frees()) == Space(frees) + n
  {
    hide Repr, Range, Bits, FreeCount, Space;
    var after := Fill(frees[cg], rel, n, true);
    assert Fill(after, rel, n, false) == frees[cg];
    FreeCountFill(after, rel, n);
    SpaceUpdate(frees, cg, after);
    assert fs.Frees() == frees[cg := after];
  }

  /** Where an extent of group cg lies. */
  lemma PlacedAt(geo: Geo, cg: nat, rel: nat, n: nat)
    requires geo.Wf() && cg < geo.ncg && n >= 1 && rel + n <= geo.NDblk(cg) && rel % geo.frag + n <= geo.frag
    requires geo.Base(cg) + rel != 0
    ensures Placed(geo, Extent(geo.Base(cg) + rel, n))
    ensures geo.Dtog(geo.Base(cg) + rel) == cg && geo.Dtogd(geo.Base(cg) + rel) == rel
  {
    AddressInGroup(geo, cg, rel);
  }

  lemma AllocHeld(fs: FileSystem, live: seq<Extent>, frees: seq<seq<bool>>, owns: seq<set<nat>>, cg: nat, addr: nat, n: nat)
    requires fs.Shape() && cg < |fs.groups| && |frees| == |owns| == |fs.groups| && n >= 1 && addr != 0
    requires Held(fs.geo, owns, live) && fs.TookIn(cg, addr, n, frees[cg], owns[cg]) && fs.OthersAt(cg, frees, owns)
    ensures Held(fs.geo, fs.Owns(), live + [Extent(addr, n)]) && Space(fs.Frees()) == Space(frees) - n
  {
    hide Held, Range, Fill, Space, FileSystem.Frees, FileSystem.Owns, FileSystem.Rots, FileSystem.OthersAt, Geo.NDblk, Repr,
      Geo.Reserved, Placed, Added;
    var rel := addr - fs.geo.Base(cg);
    TookValues(fs, cg, rel, n, frees, owns);
    PlacedAt(fs.geo, cg, rel, n);
    TakenAdded(fs.geo, owns, fs.Owns(), cg, rel, n);
    HeldAdd(fs.geo, owns, fs.Owns(), live, Extent(addr, n));
  }

  /** What a successful search over the groups did, on values. */
  lemma AllocFromGroup(fs: FileSystem, s: State, size: nat, rsize: nat, cg: nat, addr: nat, pref: nat)
    requires fs.Shape() && cg < |fs.groups| && |s.frees| == |s.owns| == |fs.groups| && rsize >= 1 && addr != 0
    requires fs.TookIn(cg, addr, rsize, s.frees[cg], s.owns[cg]) && fs.OthersAt(cg, s.frees, s.owns)
    requires BestTake(s.frees[cg], fs.geo.frag, size, addr - fs.geo.Base(cg)) && |s.rots| == |fs.groups|
    requires fs.OthersTurn(cg, s.rots)
    requires Picked(fs.geo, cg, s.frees[cg], s.rots[cg], pref, size, addr - fs.geo.Base(cg), fs.groups[cg].Rot())
    ensures AllocFrom(fs.geo, s, StateOf(fs, s.live + [Extent(addr, rsize)]), size, rsize, addr, cg, pref)
  {
    hide Range, Fill, BestTake, Picked, FileSystem.Rots, FileSystem.OthersTurn, FileSystem.Frees, FileSystem.Owns,
      FileSystem.OthersAt, Geo.NDblk, Repr, Geo.Reserved, Space;
    TookValues(fs, cg, addr - fs.geo.Base(cg), rsize, s.frees, s.owns);
    fs.TurnsAre(cg, s.rots);
  }

  lemma CansMean(fs: FileSystem, size: nat)
    requires fs.Shape()
    ensures forall c :: 0 <= c < |fs.groups| ==> fs.Cans(size)[c] == CanTake(fs.Frees()[c], fs.geo.frag, size)
  {
    hide CanTake, CanAlloc, Bits, Repr;
    forall c | 0 <= c < |fs.groups|
      ensures fs.Cans(size)[c] == CanTake(fs.Frees()[c], fs.geo.frag, size)
    {
      fs.ValuesAt(c);
      fs.CansAt(c, size);
      CanMeans(fs.groups[c].blksfree[..], fs.geo.frag, size);
    }
  }

  lemma SnapshotIs(fs: FileSystem, frees: seq<seq<bool>>, owns: seq<set<nat>>)
    requires fs.Snapshot(frees, owns)
    ensures fs.Frees() == frees && fs.Owns() == owns
  {
    hide Repr, Bits;
  }

  /** ffs_alloccg: a caller tries one group for an extent. */
  method DoTry(fs: FileSystem, live: seq<Extent>, cg: nat, pref: nat, size: nat, rsize: nat)
    returns (addr: nat, live': seq<Extent>)
    requires Session(fs, live) && cg < fs.geo.ncg && Fitting(fs.geo, pref, size, rsize)
    modifies fs, fs.csNbfree, fs.csNffree, fs.Objects()
    ensures Session(fs, live') && Stock(fs, live') == old(Stock(fs, live))
    ensures TryStep(fs.geo, old(StateOf(fs, live)), StateOf(fs, live'), cg, pref, size, rsize, addr)
    ensures live' == if addr == 0 then live else live + [Extent(addr, rsize)]
  {
    hide Held, FileSystem.Valid, Size, FileSystem.Cans, FileSystem.Frees, FileSystem.Owns, FileSystem.Rots, Range, Fill, Space,
      FileSystem.TookIn, FileSystem.OthersAt, FileSystem.Snapshot, FileSystem.Table, CanTake, BestTake, AllocFrom,
      FileSystem.Shape, FileSystem.OthersTurn, Picked;
    ghost var s := StateOf(fs, live);
    ValidShape(fs);
    CansMean(fs, size);
    fs.Tables(size);
    fs.TotalSpace();
    addr := fs.Attempt(cg, pref, size, rsize, fs.Cans(size), s.frees, s.owns, s.rots);
    fs.TotalSpace();
    ValidShape(fs);
    if addr == 0 {
      SnapshotIs(fs, s.frees, s.owns);
      live' := live;
    } else {
      AllocHeld(fs, live, s.frees, s.owns, cg, addr, rsize);
      AllocFromGroup(fs, s, size, rsize, cg, addr, pref);
      SizeAdd(live, Extent(addr, rsize));
      live' := live + [Extent(addr, rsize)];
    }
  }

  /** A caller asks for an extent. */
  method DoAlloc(fs: FileSystem, live: seq<Extent>, icg: nat, pref: nat, size: nat, rsize: nat)
    returns (addr: nat, live': seq<Extent>)
    requires Session(fs, live) && icg < fs.geo.ncg && Fitting(fs.geo, pref, size, rsize) && fs.geo.Searchable()
    modifies fs, fs.csNbfree, fs.csNffree, fs.Objects()
    ensures Session(fs, live') && Stock(fs, live') == old(Stock(fs, live))
    ensures AllocStep(fs.geo, old(StateOf(fs, live)), StateOf(fs, live'), icg, pref, size, rsize, addr)
    ensures live' == if addr == 0 then live else live + [Extent(addr, rsize)]
  {
    hide Held, FileSystem.Valid, Size, FileSystem.Cans, FileSystem.Frees, FileSystem.Owns, FileSystem.Rots, Range, Fill, Space,
      FileSystem.TookIn, FileSystem.OthersAt, FileSystem.Snapshot, CanTake, BestTake, AllocFrom, FileSystem.Shape,
      FileSystem.OthersTurn, Picked, FirstIn, Order;
    ghost var s := StateOf(fs, live);
    ValidShape(fs);
    CansMean(fs, size);
    assert fs.Cans(size) == CansOf(fs.geo, s, size);
    fs.TotalSpace();
    ghost var cg;
    addr, cg := fs.HashAlloc(icg, pref, size, rsize);
    fs.TotalSpace();
    ValidShape(fs);
    if addr == 0 {
      SnapshotIs(fs, s.frees, s.owns);
      live' := live;
    } else {
      AllocHeld(fs, live, s.frees, s.owns, cg, addr, rsize);
      AllocFromGroup(fs, s, size, rsize, cg, addr, if cg == icg then pref else 0);
      SizeAdd(live, Extent(addr, rsize));
      live' := live + [Extent(addr, rsize)];
    }
  }

  /** What taking a row did, on values. */
  lemma ClusterDone(fs: FileSystem, s: State, cg: nat, addr: nat, len: nat)
    requires fs.Shape() && cg < |fs.groups| && |s.frees| == |s.owns| == |s.rots| == |fs.groups| && len >= 1 && addr != 0
    requires Held(fs.geo, s.owns, s.live) && fs.OthersAt(cg, s.frees, s.owns)
    requires fs.geo.Base(cg) <= addr && (addr - fs.geo.Base(cg)) % fs.geo.frag == 0
    requires addr - fs.geo.Base(cg) + len * fs.geo.frag <= fs.geo.NDblk(cg)
    requires fs.groups[cg].Took(addr - fs.geo.Base(cg), len * fs.geo.frag, s.frees[cg], s.owns[cg])
    ensures Held(fs.geo, fs.Owns(), s.live + Row(addr, fs.geo.frag, len))
    ensures Space(fs.Frees()) == Space(s.frees) - len * fs.geo.frag
    ensures Taken(fs.geo, s, StateOf(fs, s.live + Row(addr, fs.geo.frag, len)), cg, addr - fs.geo.Base(cg), len * fs.geo.frag)
  {
    hide Held, Range, Fill, FileSystem.Frees, FileSystem.Owns, FileSystem.Rots, FileSystem.OthersAt, Geo.NDblk, Repr, Space,
      Row, Geo.Base;
    var rel := addr - fs.geo.Base(cg);
    TookValues(fs, cg, rel, len * fs.geo.frag, s.frees, s.owns);
    HeldRow(fs.geo, s.owns, s.live, cg, rel, len);
  }

  /** A caller asks for a row of whole blocks. */
  method DoCluster(fs: FileSystem, live: seq<Extent>, cg: nat, bpref: nat, len: nat) returns (addr: nat, live': seq<Extent>)
    requires Session(fs, live) && cg < fs.geo.ncg && bpref < fs.geo.size && fs.geo.cap > 0 && len >= 1
    modifies fs, fs.csNbfree, fs.csNffree, fs.Objects()
    ensures Session(fs, live') && Stock(fs, live') == old(Stock(fs, live))
    ensures ClusterStep(fs.geo, old(StateOf(fs, live)), StateOf(fs, live'), cg, bpref, len, addr)
  {
    hide Held, FileSystem.Valid, Size, FileSystem.Frees, FileSystem.Owns, FileSystem.Rots, Range, Fill, Space, CylGroup.Took,
      FileSystem.OthersAt, FileSystem.Shape, HasRow, FirstRow, HasCluster, ClusterFrom, Row, Repr, FileSystem.Objects, Taken,
      CylGroup.Valid, Bits, Geo.NDblk, Parts;
    ghost var s := StateOf(fs, live);
    ValidShape(fs);
    GroupValid(fs, cg);
    fs.TotalSpace();
    fs.ReprInObjects();
    addr := fs.ClusterAlloc(cg, bpref, len);
    fs.TotalSpace();
    ValidShape(fs);
    if addr == 0 {
      live' := live;
    } else {
      ClusterDone(fs, s, cg, addr, len);
      SizeRow(live, addr, fs.geo.frag, len);
      live' := live + Row(addr, fs.geo.frag, len);
    }
  }

  lemma ValidShape(fs: FileSystem)
    requires fs.Valid()
    ensures fs.Shape() && fs.geo.Wf() && |fs.groups| == fs.geo.ncg
  {}

  /** An extent that is held is owned in its group, and so is every part of it. */
  lemma HeldOwned(geo: Geo, owns: seq<set<nat>>, live: seq<Extent>, k: nat, from: nat)
    requires geo.Wf() && |owns| == geo.ncg && Held(geo, owns, live) && k < |live| && from < live[k].n
    ensures Placed(geo, live[k])
    ensures var a := live[k].addr + from; var cg := geo.Dtog(live[k].addr);
      && geo.Dtog(a) == cg < geo.ncg && geo.Dtogd(a) == geo.Dtogd(live[k].addr) + from
      && Range(geo.Dtogd(a), live[k].n - from) <= owns[cg]
      && a < geo.size && a % geo.frag == live[k].addr % geo.frag + from
  {
    hide Range, Geo.NDblk;
    var e := live[k];
    var cg, rel := geo.Dtog(e.addr), geo.Dtogd(e.addr);
    assert Placed(geo, e);
    DivisionLaw(e.addr, geo.fpg);
    DivModBase(cg, geo.fpg, rel + from);
    DivisionLaw(e.addr, geo.frag);
    DivModBase(e.addr / geo.frag, geo.frag, e.addr % geo.frag + from);
    forall i | i in Range(rel + from, e.n - from)
      ensures i in owns[cg]
    {
      var d := geo.Base(cg) + i;
      assert Covers(live[k], d);
      assert OwnedAt(geo, owns, d);
      DivModBase(cg, geo.fpg, i);
    }
  }

  lemma GroupValid(fs: FileSystem, c: nat)
    requires fs.Valid() && c < |fs.groups|
    ensures fs.groups[c].Valid() && fs.groups[c].geo == fs.geo && fs.groups[c].cgx == c
    ensures fs.Owns()[c] == fs.groups[c].owned && fs.Frees()[c] == fs.groups[c].Free()
  {
    hide CylGroup.Valid, Repr, Bits;
  }

  lemma ExtendHeld(fs: FileSystem, live: seq<Extent>, frees: seq<seq<bool>>, owns: seq<set<nat>>, rots: seq<Rotors>, k: nat, n: nat)
    requires fs.Valid() && |frees| == |owns| == |rots| == |fs.groups| && k < |live|
    requires Held(fs.geo, owns, live) && live[k].n < n && live[k].addr % fs.geo.frag + n <= fs.geo.frag
    requires fs.geo.Dtog(live[k].addr) < |fs.groups|
    requires var cg, rel := fs.geo.Dtog(live[k].addr), fs.geo.Dtogd(live[k].addr) + live[k].n;
      fs.groups[cg].Took(rel, n - live[k].n, frees[cg], owns[cg]) && fs.OthersAt(cg, frees, owns)
    ensures Held(fs.geo, fs.Owns(), Resized(live, k, n)) && Space(fs.Frees()) == Space(frees) - (n - live[k].n)
    ensures Taken(fs.geo, State(frees, owns, rots, live), StateOf(fs, Resized(live, k, n)), fs.geo.Dtog(live[k].addr),
                  fs.geo.Dtogd(live[k].addr) + live[k].n, n - live[k].n)
  {
    hide Range, Fill, Space, FileSystem.Valid, FileSystem.Frees, FileSystem.Owns, FileSystem.Rots, FileSystem.OthersAt, Geo.NDblk,
      Repr, Geo.Reserved, Added, CylGroup.Valid, Held, OwnedAt, Resized;
    ValidShape(fs);
    var geo, e := fs.geo, live[k];
    var cg := geo.Dtog(e.addr);
    var rel := geo.Dtogd(e.addr) + e.n;
    HeldPlaced(geo, owns, live, k);
    GroupValid(fs, cg);
    DivisionLaw(e.addr, geo.fpg);
    TookValues(fs, cg, rel, n - e.n, frees, owns);
    assert rel + (n - e.n) - 1 in Range(rel, n - e.n);
    fs.groups[cg].OwnedInside(rel + (n - e.n) - 1);
    TakenAdded(geo, owns, fs.Owns(), cg, rel, n - e.n);
    assert geo.Base(cg) + rel == e.addr + e.n;
    HeldGrow(geo, owns, fs.Owns(), live, k, n);
  }

  lemma HeldPlaced(geo: Geo, owns: seq<set<nat>>, live: seq<Extent>, k: nat)
    requires geo.Wf() && Held(geo, owns, live) && k < |live|
    ensures Placed(geo, live[k])
  {}

  /** A caller asks for more fragments after an extent it holds. */
  method DoExtend(fs: FileSystem, live: seq<Extent>, k: nat, nsize: nat) returns (ok: bool, live': seq<Extent>)
    requires Session(fs, live) && k < |live| && live[k].n < nsize <= fs.geo.frag
    modifies fs, fs.csNbfree, fs.csNffree, fs.Objects()
    ensures Session(fs, live') && Stock(fs, live') == old(Stock(fs, live))
    ensures live' == if ok then Resized(live, k, nsize) else live
    ensures ExtendStep(fs.geo, old(StateOf(fs, live)), StateOf(fs, live'), k, nsize, if ok then live[k].addr else 0)
  {
    hide Held, FileSystem.Valid, Size, FileSystem.Frees, FileSystem.Owns, FileSystem.Rots, Range, Fill, Space,
      FileSystem.OthersAt, CylGroup.Took, Placed, Resized, AllSet, Bits, Repr, CylGroup.Valid, Geo.Dtog, Geo.Dtogd,
      FileSystem.Objects, Parts, FileSystem.Shape;
    ghost var frees, owns, rots := fs.Frees(), fs.Owns(), fs.Rots();
    ValidShape(fs);
    fs.TotalSpace();
    var e := live[k];
    HeldPlaced(fs.geo, owns, live, k);
    PlacedFacts(fs.geo, e);
    HeldOwned(fs.geo, owns, live, k, 0);
    var cg := fs.geo.Dtog(e.addr);
    GroupValid(fs, cg);
    fs.ReprInObjects();
    var result := fs.FragExtend(cg, e.addr, e.n, nsize);
    fs.TotalSpace();
    ok := result != 0;
    if ok {
      ExtendHeld(fs, live, frees, owns, rots, k, nsize);
      SizeResized(live, k, nsize);
      live' := Resized(live, k, nsize);
    } else {
      live' := live;
    }
  }

  lemma PlacedFacts(geo: Geo, e: Extent)
    requires geo.Wf() && Placed(geo, e)
    ensures 0 < e.addr < geo.size && e.n > 0 && e.addr % geo.frag + e.n <= geo.frag
  {}

  /** Extent k reduced to its first keep fragments, or given up. */
  function Kept(live: seq<Extent>, k: nat, keep: nat): seq<Extent>
    requires k < |live|
  {
    if keep == 0 then Dropped(live, k) else Resized(live, k, keep)
  }

  lemma FreeHeld(geo: Geo, owns: seq<set<nat>>, owns': seq<set<nat>>, live: seq<Extent>, k: nat, keep: nat)
    requires geo.Wf() && |owns| == geo.ncg && k < |live| && Held(geo, owns, live) && keep < live[k].n
    requires geo.Dtog(live[k].addr) < geo.ncg
    requires var cg, rel := geo.Dtog(live[k].addr), geo.Dtogd(live[k].addr) + keep;
      owns' == owns[cg := owns[cg] - Range(rel, live[k].n - keep)]
    ensures Held(geo, owns', Kept(live, k, keep)) && Size(Kept(live, k, keep)) == Size(live) - (live[k].n - keep)
  {
    hide Range, Geo.NDblk, Held, OwnedAt, Resized, Dropped, Removed, Size;
    var e := live[k];
    HeldPlaced(geo, owns, live, k);
    DivisionLaw(e.addr, geo.fpg);
    GivenRemoved(geo, owns, owns', geo.Dtog(e.addr), geo.Dtogd(e.addr) + keep, e.n - keep);
    if keep == 0 {
      HeldDrop(geo, owns, owns', live, k);
      SizeDropped(live, k);
    } else {
      HeldShrink(geo, owns, owns', live, k, keep);
      SizeResized(live, k, keep);
    }
  }

  /** A caller gives back an extent, or its fragments after the first keep. */
  method DoFree(fs: FileSystem, live: seq<Extent>, k: nat, keep: nat) returns (live': seq<Extent>)
    requires Session(fs, live) && k < |live| && keep < live[k].n
    modifies fs, fs.csNbfree, fs.csNffree, fs.Objects()
    ensures Session(fs, live') && Stock(fs, live') == old(Stock(fs, live))
    ensures live' == Kept(live, k, keep)
    ensures FreeStep(fs.geo, old(StateOf(fs, live)), StateOf(fs, live'), k, keep)
  {
    hide Held, FileSystem.Valid, Size, FileSystem.Frees, FileSystem.Owns, FileSystem.Rots, Range, Fill, Space,
      FileSystem.OthersAt, Placed, Kept, Bits, Repr, CylGroup.Valid, Geo.Dtog, Geo.Dtogd, FileSystem.Objects, Parts,
      FileSystem.Shape;
    ghost var frees, owns := fs.Frees(), fs.Owns();
    ValidShape(fs);
    fs.TotalSpace();
    var e := live[k];
    HeldPlaced(fs.geo, owns, live, k);
    PlacedFacts(fs.geo, e);
    HeldOwned(fs.geo, owns, live, k, keep);
    ghost var cg, rel := fs.geo.Dtog(e.addr), fs.geo.Dtogd(e.addr) + keep;
    GroupValid(fs, cg);
    fs.groups[cg].OwnedNotFree(rel, e.n - keep);
    fs.ReprInObjects();
    fs.BlkFree(e.addr + keep, e.n - keep);
    fs.TotalSpace();
    GaveValues(fs, cg, rel, e.n - keep, frees, owns);
    FreeHeld(fs.geo, owns, fs.Owns(), live, k, keep);
    live' := Kept(live, k, keep);
  }

  /** A caller gives back an extent. */
  method FreeWhole(fs: FileSystem, live0: seq<Extent>, k: nat) returns (live: seq<Extent>)
    requires Session(fs, live0) && k < |live0|
    modifies fs, fs.csNbfree, fs.csNffree, fs.Objects()
    ensures Session(fs, live) && Stock(fs, live) == old(Stock(fs, live0)) && live == Dropped(live0, k)
    ensures FreeStep(fs.geo, old(StateOf(fs, live0)), StateOf(fs, live), k, 0)
  {
    hide Stock, StateOf, FreeStep, Dropped, FileSystem.Valid, FileSystem.Owns;
    ValidShape(fs);
    HeldPlaced(fs.geo, fs.Owns(), live0, k);
    live := DoFree(fs, live0, k, 0);
  }

  /** One request, if it makes sense. */
  method Do(fs: FileSystem, live: seq<Extent>, op: Op) returns (addr: nat, live': seq<Extent>)
    requires Session(fs, live)
    modifies fs, fs.csNbfree, fs.csNffree, fs.Objects()
    ensures Session(fs, live') && Stock(fs, live') == old(Stock(fs, live))
    ensures Step(fs.geo, old(StateOf(fs, live)), op, addr, StateOf(fs, live'))
  {
    hide Session, Stock, Fitting, TryStep, AllocStep, ClusterStep, ExtendStep, FreeStep, FileSystem.Frees, FileSystem.Owns,
      FileSystem.Rots, Kept, Resized;
    addr, live' := 0, live;
    match op {
      case Try(cg, pref, size, rsize) =>
        if cg < fs.geo.ncg && Fitting(fs.geo, pref, size, rsize) {
          addr, live' := DoTry(fs, live, cg, pref, size, rsize);
        }
      case Alloc(icg, pref, size, rsize) =>
        if icg < fs.geo.ncg && Fitting(fs.geo, pref, size, rsize) && fs.geo.Searchable() {
          addr, live' := DoAlloc(fs, live, icg, pref, size, rsize);
        }
      case Cluster(cg, bpref, len) =>
        if cg < fs.geo.ncg && bpref < fs.geo.size && fs.geo.cap > 0 && len >= 1 {
          addr, live' := DoCluster(fs, live, cg, bpref, len);
        }
      case Extend(k, nsize) =>
        if k < |live| && live[k].n < nsize <= fs.geo.frag {
          var ok;
          ok, live' := DoExtend(fs, live, k, nsize);
          addr := if ok then live[k].addr else 0;
        }
      case Free(k, keep) =>
        if k < |live| && keep < live[k].n {
          live' := DoFree(fs, live, k, keep);
        }
    }
  }

  /** A state in which the extents held are those the groups count as owned, apart from each other, and not free. */
  ghost predicate Proper(geo: Geo, s: State) {
    && Sized(geo, s) && Held(geo, s.owns, s.live)
    && forall d: nat :: OwnedAt(geo, s.owns, d) ==> !FreeAt(geo, s, d)
  }

  /** The map of its group says that the fragment at address d is free. */
  predicate FreeAt(geo: Geo, s: State, d: nat) {
    && geo.fpg > 0 && geo.Dtog(d) < |s.frees| && geo.Dtogd(d) < |s.frees[geo.Dtog(d)]|
    && s.frees[geo.Dtog(d)][geo.Dtogd(d)]
  }

  /** A history: the states of a run, what was asked for in between, and what was returned. */
  ghost predicate Run(geo: Geo, trace: seq<State>, ops: seq<Op>, addrs: seq<nat>) {
    && |trace| == |ops| + 1 && |addrs| == |ops|
    && (forall j :: 0 <= j <= |ops| ==> Proper(geo, trace[j]))
    && forall j :: 0 <= j < |ops| ==> Step(geo, trace[j], ops[j], addrs[j], trace[j + 1])
  }

  /**
    * Any sequence of requests: whatever the callers ask for, in whatever order, each request does exactly what Step
    * says to the maps, the owners and the extents held. All along the extents held are those the groups count as owned,
    * apart from each other; the summaries stay exact, and no fragment is lost or made. Requests that name no
    * extent, or sizes that make no sense, are skipped.
    */
  method Serve(fs: FileSystem, live0: seq<Extent>, ops: seq<Op>)
    returns (live: seq<Extent>, addrs: seq<nat>, ghost trace: seq<State>)
    requires Session(fs, live0)
    modifies fs, fs.csNbfree, fs.csNffree, fs.Objects()
    ensures Session(fs, live) && Stock(fs, live) == old(Stock(fs, live0))
    ensures Run(fs.geo, trace, ops, addrs)
    ensures trace[0] == old(StateOf(fs, live0)) && trace[|ops|] == StateOf(fs, live)
  {
    hide Stock, Step, StateOf, Session, Proper;
    live, addrs, trace := live0, [], [StateOf(fs, live0)];
    SessionHeld(fs, live0);
    for j := 0 to |ops|
      invariant Session(fs, live) && Stock(fs, live) == old(Stock(fs, live0))
      invariant |addrs| == j && |trace| == j + 1 && trace[0] == old(StateOf(fs, live0)) && trace[j] == StateOf(fs, live)
      invariant Run(fs.geo, trace, ops[..j], addrs)
    {
      var addr;
      addr, live := Do(fs, live, ops[j]);
      SessionHeld(fs, live);
      addrs := addrs + [addr];
      trace := trace + [StateOf(fs, live)];
    }
    assert ops[..|ops|] == ops;
  }

  lemma SessionHeld(fs: FileSystem, live: seq<Extent>)
    requires Session(fs, live)
    ensures Proper(fs.geo, StateOf(fs, live))
  {
    hide FileSystem.Valid, CylGroup.Valid, Held, FileSystem.Owns, FileSystem.Frees, Repr, Geo.Dtog, Geo.Dtogd;
    ValidShape(fs);
    var geo, s := fs.geo, StateOf(fs, live);
    forall d: nat | OwnedAt(geo, s.owns, d)
      ensures !FreeAt(geo, s, d)
    {
      var c, i := geo.Dtog(d), geo.Dtogd(d);
      GroupValid(fs, c);
      fs.ValuesAt(c);
      OwnedTaken(fs.groups[c], i);
    }
  }

  lemma OwnedTaken(g: CylGroup, i: nat)
    requires g.Valid() && i in g.owned
    ensures i < |g.Free()| && !g.Free()[i]
  {
    hide CylGroup.Valid, Bits;
    assert Range(i, 1) <= g.owned by { assert forall x: nat :: x in Range(i, 1) ==> x == i; }
    g.OwnedNotFree(i, 1);
  }

  /** What a session means for two of the extents held, and for one and the metadata or the free map. */
  lemma SessionSafe(fs: FileSystem, live: seq<Extent>, i: nat, d: nat)
    requires Session(fs, live) && i < |live| && Covers(live[i], d)
    ensures forall j :: 0 <= j < |live| && j != i ==> !Covers(live[j], d)
    ensures 0 < d && fs.geo.Wf() && fs.geo.Dtog(d) < |fs.groups| && fs.geo.Dtogd(d) < |fs.groups[fs.geo.Dtog(d)].Free()|
    ensures !fs.geo.Reserved(fs.geo.Dtog(d), fs.geo.Dtogd(d))
    ensures !fs.groups[fs.geo.Dtog(d)].Free()[fs.geo.Dtogd(d)]
  {
    hide FileSystem.Valid, CylGroup.Valid, Repr, Range, Bits, Geo.Reserved, Geo.NDblk, FileSystem.Owns, FileSystem.Frees;
    ValidShape(fs);
    var geo, owns := fs.geo, fs.Owns();
    assert OwnedAt(geo, owns, d);
    var cg, rel := geo.Dtog(d), geo.Dtogd(d);
    GroupValid(fs, cg);
    fs.groups[cg].OwnedInside(rel);
    OwnedTaken(fs.groups[cg], rel);
    HeldPlaced(geo, owns, live, i);
    forall j | 0 <= j < |live| && j != i
      ensures !Covers(live[j], d)
    {
      OnlyOne(geo, owns, live, i, j, d);
    }
  }

  /** A filesystem fresh from newfs, with nothing held, is where a run starts. */
  lemma FreshSession(fs: FileSystem)
    requires fs.Valid() && forall c :: 0 <= c < |fs.groups| ==> fs.groups[c].owned == {}
    ensures Session(fs, [])
  {
    hide FileSystem.Valid, Repr;
    ValidShape(fs);
    forall c | 0 <= c < |fs.groups|
      ensures fs.Owns()[c] == {}
    {
      GroupValid(fs, c);
    }
  }
}
