/** Superblock geometry and the address macros of fs.h (UFS2 layout: cgstart is cgbase).
    Sizes are in fragments, that is, after numfrags. */
module Geometry {
  import opened Arith
  import opened Bitmap

  datatype Geo = Geo(
    frag: nat,      // fs_frag: fragments in a block
    fpg: nat,       // fs_fpg: fragments in a cylinder group
    ncg: nat,       // fs_ncg: number of cylinder groups
    size: nat,      // fs_size: fragments in the filesystem
    cap: nat,       // fs_contigsumsize: longest cluster counted, 0 if none are
    sblkno: nat,    // fs_sblkno: superblock copy, relative to the group
    dblkno: nat,    // fs_dblkno: first data fragment, relative to the group
    csfrags: nat,   // fragments of summary information at the start of group 0's data
    metaspace: nat  // fs_metaspace: fragments preferred for metadata
  ) {
    predicate Wf() {
      && ValidFrag(frag)
      && frag <= fpg
      && 0 < ncg
      && (ncg - 1) * fpg < size <= ncg * fpg
      && (fpg % frag == 0 || ncg == 1)
      && 0 < dblkno
    }

    /** So many groups that the search of ffs_hashalloc ends: its step, a u_int, is doubled until it reaches ncg. */
    predicate Searchable() {
      ncg <= 0x8000_0000
    }

    /** cgbase */
    function Base(c: nat): nat { c * fpg }

    /** cg_ndblk: the last group may be short. */
    function NDblk(c: nat): (n: nat)
      requires Wf() && c < ncg
      ensures n <= fpg && c * fpg + n <= size
    {
      GroupStart(c);
      if (c + 1) * fpg <= size then fpg else size - c * fpg
    }

    lemma GroupStart(c: nat)
      requires Wf() && c < ncg
      ensures c * fpg < size && (c + 1) * fpg == c * fpg + fpg
    {
      MulMono(c, ncg - 1, fpg);
      MulStep(c, fpg);
    }

    /** cg_nclusterblks */
    function NCluster(c: nat): nat
      requires Wf() && c < ncg
    {
      NDblk(c) / frag
    }

    function Dtog(d: nat): nat requires fpg > 0 { d / fpg }

    function Dtogd(d: nat): nat requires fpg > 0 { d % fpg }

    /** cgdmin and cgmeta */
    function Meta(c: nat): nat { Base(c) + dblkno }

    /** cgdata */
    function Data(c: nat): nat { Meta(c) + metaspace }

    /** Where the data zone begins in each group. */
    function DataOffset(): nat
      requires fpg > 0
    {
      (dblkno + metaspace) % fpg
    }

    /** blknum: round down to a block boundary. */
    function Blknum(d: nat): nat
      requires frag > 0
    {
      d - d % frag
    }

    /** fragstoblks */
    function Fragstoblks(d: nat): nat
      requires frag > 0
    {
      d / frag
    }

    function MapBytes(): nat { (fpg + 7) / 8 }

    function ClusterBytes(): nat requires frag > 0 { (fpg / frag + 7) / 8 }

    /** Fragments of group c that hold the superblock copy, the group itself, the inodes and,
        in group 0, the boot area and the summary information. */
    predicate Reserved(c: nat, i: nat) {
      if c == 0 then i < dblkno + csfrags else sblkno <= i < dblkno
    }

    lemma ClustersFit(c: nat)
      requires Wf() && c < ncg
      ensures NCluster(c) <= 8 * ClusterBytes()
    {
      DivMono(NDblk(c), fpg, frag);
    }

    lemma MapCovers()
      ensures fpg <= 8 * MapBytes()
    {}

    lemma MapHoldsBlocks(i: nat)
      requires Wf() && i < fpg && i % frag == 0
      ensures i + frag <= 8 * MapBytes() && (i / frag) * frag == i
    {
      MapCovers();
      ProductMod(MapBytes(), 8, frag);
      NextMultiple(i, frag, 8 * MapBytes());
      DivisionLaw(i, frag);
    }

    /** A preferred address, rounded to a block, stays on a block boundary of the group. */
    lemma PreferredBlock(d: nat)
      requires Wf()
      requires fpg % frag == 0 || d < fpg
      ensures Dtogd(Blknum(d)) % frag == 0 && Dtogd(Blknum(d)) < fpg
    {
      var x := Blknum(d);
      BlknumAligned(d, frag);
      if fpg % frag == 0 {
        ModOfMultiple(x, fpg, frag);
      } else {
        SmallMod(x, fpg);
      }
    }
  }

  lemma DivMono(a: nat, b: nat, f: nat)
    requires ValidFrag(f) && a <= b
    ensures a / f <= b / f
  {
    if f == 8 {} else if f == 4 {} else if f == 2 {} else {}
  }

  lemma BlknumAligned(d: nat, f: nat)
    requires ValidFrag(f)
    ensures (d - d % f) % f == 0 && d - d % f <= d < d - d % f + f
  {
    if f == 8 {} else if f == 4 {} else if f == 2 {} else {}
  }

  lemma ModOfMultiple(x: nat, m: nat, f: nat)
    requires ValidFrag(f) && m > 0 && x % f == 0 && m % f == 0
    ensures (x % m) % f == 0
  {
    ProductMod(x / m, m, f);
    DivisionLaw(x, m);
    RestMultiple((x / m) * m, x % m, f);
  }

  lemma RestMultiple(t: nat, r: nat, f: nat)
    requires ValidFrag(f) && t % f == 0 && (t + r) % f == 0
    ensures r % f == 0
  {
    AddMod(t, r, f);
  }
}
