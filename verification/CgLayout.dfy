/** How initcg packs the maps behind struct cg, in bytes. */
module CgLayout {

  const CG_SPACE := 168   // offset of cg_space in struct cg
  const SIZEOF_CG := 176  // sizeof(struct cg), padded to eight bytes

  function HowMany(x: nat, y: nat): nat
    requires y > 0
  {
    (x + (y - 1)) / y
  }

  function RoundUp4(x: nat): nat { HowMany(x, 4) * 4 }

  /** Superblock fields the layout depends on; cpg is fs_old_cpg, 0 for UFS2. */
  datatype Sizes = Sizes(cpg: nat, ipg: nat, fpg: nat, frag: nat, cap: nat)

  /** fragstoblks(fs, fs_fpg) */
  function Blocks(z: Sizes): nat
    requires z.frag > 0
  {
    z.fpg / z.frag
  }

  /** The offsets initcg stores in the group. */
  datatype Offsets = Offsets(iused: nat, free: nat, clustersum: int, cluster: nat, nextfree: nat)

  function Offset(z: Sizes): Offsets
    requires z.frag > 0
  {
    var iused := CG_SPACE + z.cpg * 4 + z.cpg * 2;
    var free := iused + HowMany(z.ipg, 8);
    var next := free + HowMany(z.fpg, 8);
    if z.cap == 0 then Offsets(iused, free, 0, 0, next)
    else
      var sum := RoundUp4(next) - 4;
      var cluster := sum + (z.cap + 1) * 4;
      Offsets(iused, free, sum, cluster, cluster + HowMany(Blocks(z), 8))
  }

  /** CGSIZE */
  function CgSize(z: Sizes): nat
    requires z.frag > 0
  {
    SIZEOF_CG + 4 + z.cpg * 4 + z.cpg * 2 + HowMany(z.ipg, 8) + HowMany(z.fpg, 8)
    + if z.cap == 0 then 0 else z.cap * 4 + HowMany(Blocks(z), 8)
  }

  /** "cylinder group too big" is unreachable: everything fits in CGSIZE, hence in fs_cgsize, which
      is that rounded up to whole fragments. */
  lemma Fits(z: Sizes, cgsize: nat)
    requires z.frag > 0 && cgsize >= CgSize(z)
    ensures Offset(z).nextfree <= cgsize
  {
    hide Blocks;
    var next := CG_SPACE + z.cpg * 4 + z.cpg * 2 + HowMany(z.ipg, 8) + HowMany(z.fpg, 8);
    assert RoundUp4(next) <= next + 3;
    assert (z.cap + 1) * 4 == z.cap * 4 + 4;
  }

  /** The byte range of slot k of the cluster summary. */
  function Slot(z: Sizes, k: nat): (int, int)
    requires z.frag > 0
  {
    (Offset(z).clustersum + 4 * k, Offset(z).clustersum + 4 * k + 4)
  }

  /** The inode map, the block map, the slots 1 to C of the cluster summary and the cluster map follow
      one another without overlap. */
  lemma PartsDisjoint(z: Sizes, k: nat)
    requires z.frag > 0 && z.cap > 0 && 1 <= k <= z.cap
    ensures var o := Offset(z);
      && CG_SPACE <= o.iused && o.iused + HowMany(z.ipg, 8) == o.free
      && o.free + HowMany(z.fpg, 8) <= Slot(z, k).0
      && (k < z.cap ==> Slot(z, k).1 == Slot(z, k + 1).0)
      && Slot(z, k).1 <= o.cluster
      && o.cluster + HowMany(Blocks(z), 8) == o.nextfree
  {
    hide Blocks;
    var o := Offset(z);
    var next := o.free + HowMany(z.fpg, 8);
    assert RoundUp4(next) >= next;
    assert o.cluster == o.clustersum + (z.cap + 1) * 4;
    assert (z.cap + 1) * 4 >= 4 * k + 4;
  }

  /** Slot 0 shares its bytes with the end of the block map, so code that wrote it would corrupt the
      map; none does. */
  lemma SlotZeroAliases(z: Sizes)
    requires z.frag > 0 && z.cap > 0 && z.fpg > 0
    ensures var o := Offset(z); var last := o.free + HowMany(z.fpg, 8) - 1;
      o.free <= last && Slot(z, 0).0 <= last < Slot(z, 0).1
  {
    var next := Offset(z).free + HowMany(z.fpg, 8);
    assert next <= RoundUp4(next) <= next + 3;
  }
}
