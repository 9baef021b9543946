/** What a preferred address does: which group, which block of it and which run of fragments a request is met from. */
module Preference {
  import opened Arith
  import opened Bitmap
  import opened Runs
  import opened CgCounts
  import opened Geometry
  import opened FragSearch
  import opened Allocator
  import opened Filesystem
  import opened Workload

  // ----- the order of the groups -----

  /** Turn k of the rehash comes to group icg + 2^(k + 1) - 1, counted around. */
  lemma {:induction false} RehashAt(icg: nat, from: nat, ncg: nat, k: nat)
    requires ncg > 0 && k < |Rehash(icg, from, ncg)|
    ensures Rehash(icg, from, ncg)[k] == (icg + Pow2(from + k + 1) - 1) % ncg
    decreases k
  {
    hide Pow2, Rehash;
    if Pow2(from) < ncg {
      RehashStep(icg, from, ncg);
      if k > 0 {
        RehashAt(icg, from + 1, ncg, k - 1);
      }
    } else {
      RehashOver(icg, from, ncg);
    }
  }

  /** It has as many turns as there are powers of two below ncg. */
  lemma {:induction false} RehashLength(icg: nat, from: nat, ncg: nat)
    requires ncg > 0
    ensures var n := from + |Rehash(icg, from, ncg)|; Pow2(n) >= ncg && (n > from ==> Pow2(n - 1) < ncg)
    decreases ncg - Pow2(from)
  {
    if Pow2(from) < ncg {
      RehashStep(icg, from, ncg);
      RehashLength(icg, from + 1, ncg);
    }
  }

  /** A search that finds something is a try in the first group of the order that can give it, the preferred one if it can. */
  lemma SearchIsTry(geo: Geo, s: State, t: State, icg: nat, pref: nat, size: nat, rsize: nat, addr: nat) returns (cg: nat)
    requires AllocStep(geo, s, t, icg, pref, size, rsize, addr) && addr != 0 && icg < geo.ncg
    ensures TryStep(geo, s, t, cg, if cg == icg then pref else 0, size, rsize, addr)
    ensures CanTake(s.frees[icg], geo.frag, size) ==> cg == icg
    ensures FirstIn(Order(icg, geo.ncg), CansOf(geo, s, size), cg)
  {
    hide AllocFrom, Order, CanTake;
    cg := AllocGroup(geo, s, t, icg, pref, size, rsize, addr);
    AllocTaken(geo, s, t, size, rsize, addr, cg, if cg == icg then pref else 0);
    var order, can := Order(icg, geo.ncg), CansOf(geo, s, size);
    var j :| 0 <= j < |order| && order[j] == cg && cg < |can| && can[cg] && NoneOf(order[..j], can);
    OrderFirst(icg, geo.ncg);
    if j > 0 {
      assert order[..j][0] == icg;
    }
  }

  lemma OrderFirst(icg: nat, ncg: nat)
    requires ncg > 0
    ensures |Order(icg, ncg)| > 0 && Order(icg, ncg)[0] == icg
  {
    hide Rehash, Rest;
  }

  // ----- the block -----

  /** A request is met from a whole block: it is for one, or no shorter run that is long enough is free. */
  ghost predicate NeedsBlock(free: seq<bool>, frag: nat, size: nat) {
    NoneBetween(free, frag, size, frag)
  }

  lemma PickedBlock(geo: Geo, c: nat, free: seq<bool>, r: Rotors, bpref: nat, size: nat, bno: nat, r': Rotors)
    requires Picked(geo, c, free, r, bpref, size, bno, r') && NeedsBlock(free, geo.frag, size)
    ensures BlockPick(geo, c, free, r, bpref, bno, r')
  {
    hide BlockPick, RunIn, NoneBetween, FragPick, FirstRun;
    var a: nat :| size <= a <= geo.frag && NoneBetween(free, geo.frag, size, a)
      && if a == geo.frag then BlockPick(geo, c, free, r, bpref, bno, r') else FragPick(geo, free, r, bpref, a, bno, r');
    if a < geo.frag {
      PickReaches(geo, free, r, bpref, size, a, bno, r');
    }
  }

  lemma PickReaches(geo: Geo, free: seq<bool>, r: Rotors, bpref: nat, size: nat, a: nat, bno: nat, r': Rotors)
    requires NoneBetween(free, geo.frag, size, geo.frag) && size <= a && FragPick(geo, free, r, bpref, a, bno, r')
    ensures a >= geo.frag
  {
    hide RunIn;
    assert StartsAt(free, geo.frag, a, bno);
  }

  lemma TryBlock(geo: Geo, s: State, t: State, cg: nat, pref: nat, size: nat, rsize: nat, addr: nat)
    requires TryStep(geo, s, t, cg, pref, size, rsize, addr) && addr != 0 && NeedsBlock(s.frees[cg], geo.frag, size)
    ensures geo.Base(cg) <= addr && |t.rots| == geo.ncg
    ensures BlockPick(geo, cg, s.frees[cg], s.rots[cg], pref, addr - geo.Base(cg), t.rots[cg])
  {
    hide Picked, BlockPick, NeedsBlock, CanTake, BestTake;
    PickedBlock(geo, cg, s.frees[cg], s.rots[cg], pref, size, addr - geo.Base(cg), t.rots[cg]);
  }

  /** The preferred block is the one taken, if it lies in the group and is wholly free. */
  lemma TakesPreferred(geo: Geo, s: State, t: State, cg: nat, pref: nat, size: nat, rsize: nat, addr: nat)
    requires TryStep(geo, s, t, cg, pref, size, rsize, addr) && addr != 0 && NeedsBlock(s.frees[cg], geo.frag, size)
    requires 0 < pref < geo.size && geo.Dtog(pref) == cg && WholeBlock(s.frees[cg], geo.frag, geo.Dtogd(pref) / geo.frag)
    ensures addr == DownTo(pref, geo.frag) && t.rots == s.rots
  {
    hide Picked, BestTake, CanTake, WholeBlock, NeedsBlock, Geo.NDblk;
    TryBlock(geo, s, t, cg, pref, size, rsize, addr);
    var at := pref % geo.fpg;
    SameBlockNo(at, geo.frag);
    DivisionLaw(pref, geo.fpg);
    AddressInGroup(geo, cg, at);
  }

  /** Without a preference it is the block after the block rotor, if that is wholly free. */
  lemma TakesNext(geo: Geo, s: State, t: State, cg: nat, size: nat, rsize: nat, addr: nat)
    requires TryStep(geo, s, t, cg, 0, size, rsize, addr) && addr != 0 && NeedsBlock(s.frees[cg], geo.frag, size)
    requires var next := s.rots[cg].block + geo.frag;
      next < geo.fpg && next % geo.frag == 0 && WholeBlock(s.frees[cg], geo.frag, next / geo.frag)
    ensures addr == geo.Base(cg) + s.rots[cg].block + geo.frag && t.rots == s.rots
  {
    hide Picked, BestTake, CanTake, WholeBlock, NeedsBlock, Geo.NDblk;
    TryBlock(geo, s, t, cg, 0, size, rsize, addr);
    SmallMod(s.rots[cg].block + geo.frag, geo.fpg);
  }

  /** A preference in another group asks for the first block of the zone that it lies in there: the blocks for metadata, up to
      metaspace after the first data fragment, or the rest. */
  lemma TakesZone(geo: Geo, s: State, t: State, cg: nat, pref: nat, size: nat, rsize: nat, addr: nat)
    requires TryStep(geo, s, t, cg, pref, size, rsize, addr) && addr != 0 && NeedsBlock(s.frees[cg], geo.frag, size)
    requires 0 < pref < geo.size && geo.Dtog(pref) != cg && geo.dblkno + geo.metaspace < geo.fpg
    requires var zone := if pref < geo.Data(geo.Dtog(pref)) then geo.dblkno else geo.dblkno + geo.metaspace;
      zone % geo.frag == 0 && WholeBlock(s.frees[cg], geo.frag, zone / geo.frag)
    ensures addr == (if pref < geo.Data(geo.Dtog(pref)) then geo.Meta(cg) else geo.Data(cg)) && t.rots == s.rots
  {
    hide Picked, BestTake, CanTake, WholeBlock, NeedsBlock, Geo.NDblk;
    TryBlock(geo, s, t, cg, pref, size, rsize, addr);
    ZoneTest(geo, pref);
    SmallMod(geo.dblkno, geo.fpg);
    SmallMod(geo.dblkno + geo.metaspace, geo.fpg);
  }

  // ----- the fragments -----

  /** Fragments come from the first run of the shortest sufficient length, from the byte of the preferred fragment on or,
      without a preference, from where the last ones were found. */
  lemma TakesFragments(geo: Geo, s: State, t: State, cg: nat, pref: nat, size: nat, rsize: nat, addr: nat, a: nat)
    requires TryStep(geo, s, t, cg, pref, size, rsize, addr) && addr != 0 && size <= a < geo.frag
    requires NoneBetween(s.frees[cg], geo.frag, size, a) && exists h: nat, p: nat :: RunIn(s.frees[cg], geo.frag, h, p, a)
    ensures geo.Base(cg) <= addr
    ensures var at := if pref != 0 then geo.Dtogd(pref) else s.rots[cg].frag;
      FirstRun(s.frees[cg], geo.frag, a, DownTo(at, 8), addr - geo.Base(cg))
  {
    hide Geo.NDblk, FirstRun, CanTake, RunIn, BlockPick;
    var free, bno := s.frees[cg], addr - geo.Base(cg);
    var k: nat :| size <= k <= geo.frag && NoneBetween(free, geo.frag, size, k)
      && if k == geo.frag then BlockPick(geo, cg, free, s.rots[cg], pref, bno, t.rots[cg])
         else FragPick(geo, free, s.rots[cg], pref, k, bno, t.rots[cg]);
    var h: nat, p: nat :| RunIn(free, geo.frag, h, p, a);
    if k < a {
      FirstRunStarts(free, geo.frag, k, bno, if pref != 0 then geo.Dtogd(pref) else s.rots[cg].frag);
    }
    assert k == a;
  }

  lemma FirstRunStarts(free: seq<bool>, frag: nat, k: nat, bno: nat, at: nat)
    requires FirstRun(free, frag, k, DownTo(at, 8), bno)
    ensures frag > 0 && RunIn(free, frag, bno / frag, bno % frag, k)
  {}
}
