/** The inode half of a cylinder group: the used-inode map inside the group's buffer, its count
    of free inodes, and the lazily initialised prefix of its inode blocks. One thread at a time;
    module InodeInit treats the interleaved protocol. */
module Inodes {
  import opened Arith
  import opened Bitmap
  import opened Runs
  import opened WordScan

  /** ffs(~b) - 1: the lowest clear bit of a byte. */
  function FirstClear(b: bv8): nat
  {
    if !BitOf(b, 0) then 0 else if !BitOf(b, 1) then 1 else if !BitOf(b, 2) then 2 else if !BitOf(b, 3) then 3
    else if !BitOf(b, 4) then 4 else if !BitOf(b, 5) then 5 else if !BitOf(b, 6) then 6 else 7
  }

  lemma FullByte(b: bv8)
    ensures b == 0xff <==> forall j :: 0 <= j < 8 ==> BitOf(b, j)
    ensures b != 0xff ==> FirstClear(b) < 8 && !BitOf(b, FirstClear(b)) && forall j :: 0 <= j < FirstClear(b) ==> BitOf(b, j)
  {
    EachBit(b);
    hide BitOf;
    assert b == 0xff || !BitOf(b, 0) || !BitOf(b, 1) || !BitOf(b, 2) || !BitOf(b, 3)
        || !BitOf(b, 4) || !BitOf(b, 5) || !BitOf(b, 6) || !BitOf(b, 7);
  }

  const ROOTINO: nat := 2

  /** What initcg leaves in cs_nifree. */
  function InitInodes(ipg: nat, cylno: nat): int {
    ipg - if cylno == 0 then ROOTINO else 0
  }

  lemma ZeroMap(m: seq<bv8>)
    requires forall i :: 0 <= i < |m| ==> m[i] == 0
    ensures (forall i :: 0 <= i < 8 * |m| ==> !Bits(m)[i]) && FreeCount(Bits(m)) == 0
  {
    forall i | 0 <= i < 8 * |m|
      ensures !Bits(m)[i]
    {
      assert m[i / 8] == 0;
    }
    hide Bits, FreeCount;
    FreeCountFull(Bits(m));
  }

  /** cg_initediblk: two inode blocks, or all there are; UFS1 does not use it. */
  function InitedAtFirst(ipg: nat, inopb: nat, ufs2: bool): nat {
    if !ufs2 then 0 else if ipg < 2 * inopb then ipg else 2 * inopb
  }

  /** They are whole blocks, and hold the inodes below the root. */
  lemma WholeInodeBlocks(ipg: nat, inopb: nat, ufs2: bool)
    requires inopb > 0 && inopb % 8 == 0 && ipg > 0 && ipg % inopb == 0
    ensures ipg >= inopb >= 8
    ensures var n := InitedAtFirst(ipg, inopb, ufs2); ufs2 ==> n % inopb == 0 && inopb <= n <= ipg
  {
    DivModBase(2, inopb, 0);
    if ipg < inopb {
      SmallMod(ipg, inopb);
      assert false;
    }
  }

  /** Bit i is the first clear one from lo on or, if there is none, from the beginning. */
  predicate FirstClearFrom(used: seq<bool>, lo: nat, i: nat) {
    && i < |used| && !used[i]
    && (forall j :: lo <= j < |used| && (i < lo || j < i) ==> used[j])
    && (i < lo ==> forall j :: 0 <= j < i ==> used[j])
  }

  predicate AllFull(m: seq<bv8>, lo: nat, hi: nat) {
    hi <= |m| && forall j :: lo <= j < hi ==> m[j] == 0xff
  }

  /** The lowest clear bit of the first byte that is not full, from byte start on and then from the beginning. */
  lemma FirstOfByte(m: seq<bv8>, start: nat, byte: nat)
    requires byte < |m| && m[byte] != 0xff && start <= |m|
    requires if byte >= start then AllFull(m, start, byte) else AllFull(m, start, |m|) && AllFull(m, 0, byte)
    ensures FirstClear(m[byte]) < 8 && FirstClearFrom(Bits(m), 8 * start, 8 * byte + FirstClear(m[byte]))
  {
    hide Bits, BitOf, Mask, FirstClear;
    FullByte(m[byte]);
    FullByte(0xff);
    var i := 8 * byte + FirstClear(m[byte]);
    assert i / 8 == byte && i % 8 == FirstClear(m[byte]);
    forall j | 0 <= j < |Bits(m)| && ((8 * start <= j && (i < 8 * start || j < i)) || (i < 8 * start && j < i))
      ensures Bits(m)[j]
    {
      if j / 8 != byte {
        assert m[j / 8] == 0xff;
      }
    }
  }

  lemma FullJoined(m: seq<bv8>, hi: nat, lo: nat)
    requires lo <= hi && AllFull(m, 0, hi) && AllFull(m, lo, |m|)
    ensures AllFull(m, 0, |m|)
  {}

  /** If every byte is full there is no clear bit. */
  lemma FullHasNone(m: seq<bv8>, i: nat)
    requires AllFull(m, 0, |m|) && i < 8 * |m|
    ensures Bits(m)[i]
  {
    hide Bits, BitOf, Mask;
    FullByte(0xff);
    assert m[i / 8] == 0xff;
  }

  class InodeGroup {
    const ipg: nat            // fs_ipg, also cg_niblk
    const inopb: nat          // INOPB: inodes in a block
    const ufs2: bool          // lazy initialisation is a UFS2 feature
    const buf: array<bv8>     // the cylinder group's buffer
    const iusedoff: nat       // where the used-inode map starts in it
    var nifree: int           // cg_cs.cs_nifree
    var ndir: int             // cg_cs.cs_ndir
    var irotor: nat
    var initediblk: nat       // inodes below this are initialised
    var gens: seq<nat>        // di_gen of each inode on the disk, 0 where its block was never written

    ghost function Used(): (s: seq<bool>)
      requires iusedoff + ipg / 8 <= buf.Length
      reads buf
      ensures |s| == 8 * (ipg / 8)
    {
      Bits(buf[iusedoff .. iusedoff + ipg / 8])
    }

    ghost predicate Shape() {
      && inopb > 0 && inopb % 8 == 0 && ipg > 0 && ipg % inopb == 0 && ipg % 8 == 0
      && buf.Length % 8 == 0 && iusedoff + ipg / 8 <= buf.Length
    }

    /** nifree counts the clear bits, every used inode lies below the mark, and every inode below it has been given a
        generation number. */
    ghost predicate Valid()
      reads this, buf
    {
      && Shape()
      && irotor < ipg && |gens| == ipg
      && nifree == ipg - FreeCount(Used())
      && (ufs2 ==>
            && initediblk % inopb == 0 && inopb <= initediblk <= ipg
            && (forall i :: 0 <= i < ipg && Used()[i] ==> i < initediblk)
            && forall i :: 0 <= i < initediblk ==> gens[i] != 0)
    }

    /** The inode half of initcg: in group 0 the inodes below the root are in use from the start. */
    constructor (ipg: nat, inopb: nat, ufs2: bool, size: nat, iusedoff: nat, cylno: nat)
      requires inopb > 0 && inopb % 8 == 0 && ipg > 0 && ipg % inopb == 0 && ipg % 8 == 0
      requires size % 8 == 0 && iusedoff + ipg / 8 <= size
      ensures Valid() && fresh(buf) && this.ipg == ipg && this.inopb == inopb && this.ufs2 == ufs2
      ensures forall i :: 0 <= i < ipg ==> (Used()[i] <==> cylno == 0 && i < ROOTINO)
      ensures nifree == InitInodes(ipg, cylno) && irotor == 0 && ndir == 0
      ensures ufs2 ==> initediblk <= 2 * inopb && initediblk <= ipg && (initediblk == 2 * inopb || initediblk == ipg)
      ensures !ufs2 ==> initediblk == 0
      ensures forall i :: 0 <= i < ipg ==> (gens[i] != 0 <==> !ufs2 || i < initediblk)
    {
      hide Bits, BitOf, Mask, IsSet, FreeCount;
      WholeInodeBlocks(ipg, inopb, ufs2);
      this.ipg, this.inopb, this.ufs2, this.iusedoff := ipg, inopb, ufs2, iusedoff;
      buf := new bv8[size](i => 0);
      nifree, ndir, irotor := ipg, 0, 0;
      var inited := InitedAtFirst(ipg, inopb, ufs2);
      initediblk := inited;
      var gen: nat :| gen > 0;
      gens := seq(ipg, i => if !ufs2 || i < inited then gen else 0);
      new;
      ZeroMap(buf[iusedoff .. iusedoff + ipg / 8]);
      if cylno == 0 {
        ReserveRoots();
      }
    }

    /** The inodes below the root are taken out of a blank map. */
    method ReserveRoots()
      requires Shape() && ipg >= 8 && nifree == ipg && FreeCount(Used()) == 0
      requires forall j :: 0 <= j < ipg ==> !Used()[j]
      modifies this`nifree, buf
      ensures nifree == ipg - ROOTINO && FreeCount(Used()) == ROOTINO
      ensures forall j :: 0 <= j < ipg ==> (Used()[j] <==> j < ROOTINO)
    {
      hide Bits, BitOf, Mask, IsSet, FreeCount;
      var i := 0;
      while i < ROOTINO
        invariant 0 <= i <= ROOTINO && nifree == ipg - i && FreeCount(Used()) == i
        invariant forall j :: 0 <= j < ipg ==> (Used()[j] <==> j < i)
      {
        CountUpdate(Used(), i);
        Mark(i, true);
        nifree := nifree - 1;
        i := i + 1;
      }
    }

    lemma Large()
      requires Shape()
      ensures ipg >= 8
    {}

    /** Every inode in use lies in the initialised prefix. */
    lemma UsedBelow(ino: nat)
      requires Valid() && ino < ipg && Used()[ino]
      ensures ufs2 ==> ino < initediblk
    {}

    /** The wrapped scan of ffs_nodealloccg: from the rotor's byte, then from the start of the
        map. With a free inode in the map the second scan cannot fail. */
    method FindClear() returns (ino: nat)
      requires Shape() && irotor < ipg
      requires exists i :: 0 <= i < ipg && !Used()[i]
      ensures ino < ipg && FirstClearFrom(Used(), DownTo(irotor, 8), ino)
    {
      hide Bits, BitOf, Mask, FirstClear, FirstClearFrom, AllFull;
      var byte := FindByte();
      ghost var m := buf[iusedoff .. iusedoff + ipg / 8];
      assert m[byte] == buf[iusedoff + byte];
      ino := byte * 8 + FirstClear(buf[iusedoff + byte]);
      FirstOfByte(m, irotor / 8, byte);
      DivisionLaw(irotor, 8);
    }

    /** The two calls of memcchr: the first byte of the map, from the rotor's on, that is not full. */
    method FindByte() returns (byte: nat)
      requires Shape() && irotor < ipg
      requires exists i :: 0 <= i < ipg && !Used()[i]
      ensures var m := buf[iusedoff .. iusedoff + ipg / 8];
        && byte < |m| && m[byte] != 0xff
        && if byte >= irotor / 8 then AllFull(m, irotor / 8, byte) else AllFull(m, irotor / 8, |m|) && AllFull(m, 0, byte)
    {
      hide Bits, BitOf, Mask, AllFull;
      ghost var m := buf[iusedoff .. iusedoff + ipg / 8];
      var start := irotor / 8;
      var len := (ipg - irotor + 7) / 8;
      assert start + len == ipg / 8;
      var found, loc := Memcchr(buf, iusedoff + start, 0xff, len);
      if !found {
        FullPart(start, |m|);
        len := start + 1;
        start := 0;
        found, loc := Memcchr(buf, iusedoff, 0xff, len);
        if !found {
          FullPart(0, len);
          FullJoined(m, len, irotor / 8);
          ghost var i :| 0 <= i < ipg && !Used()[i];
          FullHasNone(m, i);
          assert false;  // panic: map corrupted
        }
      }
      byte := loc - iusedoff;
      FullPart(start, byte);
      assert m[byte] == buf[loc];
    }

    lemma FullPart(lo: nat, hi: nat)
      requires Shape() && hi <= ipg / 8 && forall j :: iusedoff + lo <= j < iusedoff + hi ==> buf[j] == 0xff
      ensures AllFull(buf[iusedoff .. iusedoff + ipg / 8], lo, hi)
    {
      hide Bits;
    }

    /** setbit or clrbit in the used map. */
    method Mark(i: nat, v: bool)
      requires Shape() && i < ipg
      modifies buf
      ensures Used() == old(Used())[i := v]
    {
      hide Bits, BitOf, Mask, IsSet;
      hide Marked;
      ghost var n := ipg / 8;
      ghost var m := buf[iusedoff .. iusedoff + n];
      BitUpdates(m, i, v);
      var j := iusedoff + i / 8;
      assert m[i / 8] == buf[j];
      buf[j] := Marked(buf[j], i % 8, v);
      assert buf[iusedoff .. iusedoff + n] == PutBit(m, i, v);
    }

    /** ffs_nodealloccg on one thread: the preferred inode if it is free, else the next one found.
        The loop initialises inode blocks until the choice lies far enough below the initialised
        prefix, which takes at most niblk / INOPB turns. */
    method NodeAlloc(ipref: nat, dir: bool) returns (ok: bool, ino: nat)
      requires Valid()
      modifies this, buf
      ensures Valid()
      ensures ok <==> old(nifree) != 0
      ensures !ok ==> unchanged(this, buf)
      ensures ok ==> ino < ipg && !old(Used())[ino] && Used() == old(Used())[ino := true]
      ensures ok ==> nifree == old(nifree) - 1 && initediblk >= old(initediblk) && irotor == ino
      ensures ok ==> ndir == old(ndir) + if dir then 1 else 0
      ensures ok ==>
        if ipref != 0 && !old(Used())[ipref % ipg] then ino == ipref % ipg
        else FirstClearFrom(old(Used()), old(DownTo(irotor, 8)), ino)
      ensures !ufs2 ==> initediblk == old(initediblk) && gens == old(gens)
      ensures ok && ufs2 ==> initediblk >= ino + inopb || initediblk == ipg
      ensures ok && ufs2 && initediblk > old(initediblk) ==> initediblk < ino + 2 * inopb
      ensures |gens| == ipg && forall i :: 0 <= i < ipg && !(old(initediblk) <= i < initediblk) ==> gens[i] == old(gens)[i]
    {
      hide Bits, BitOf, Mask, IsSet, FreeCount, FirstClearFrom;
      ok, ino := false, 0;
      FreeCountFull(Used());
      if nifree == 0 {
        return;
      }
      ino := Choose(ipref);
      ino := Prepare(ino);
      Commit(ino, dir);
      ok := true;
    }

    /** The turns through the label restart: while the choice is too close to the mark, the block at the mark is
        initialised and the choice made again. */
    method Prepare(chosen: nat) returns (ino: nat)
      requires Valid() && chosen < ipg && !Used()[chosen]
      modifies this`initediblk, this`gens
      ensures Valid() && ino == chosen && initediblk >= old(initediblk)
      ensures !ufs2 ==> initediblk == old(initediblk) && gens == old(gens)
      ensures ufs2 ==> initediblk >= ino + inopb || initediblk == ipg
      ensures initediblk > old(initediblk) ==> initediblk < ino + 2 * inopb
      ensures forall i :: 0 <= i < ipg && !(old(initediblk) <= i < initediblk) ==> gens[i] == old(gens)[i]
    {
      hide Bits, BitOf, Mask, IsSet, FreeCount, FirstClearFrom;
      ino := chosen;
      while ufs2 && ino + inopb > initediblk && initediblk < ipg
        modifies this`initediblk, this`gens
        invariant Valid() && ino == chosen && initediblk >= old(initediblk) && (!ufs2 ==> gens == old(gens))
        invariant initediblk > old(initediblk) ==> ufs2 && initediblk < ino + 2 * inopb
        invariant forall i :: 0 <= i < ipg && !(old(initediblk) <= i < initediblk) ==> gens[i] == old(gens)[i]
        decreases ipg - initediblk
      {
        NextMultiple(initediblk, inopb, ipg);
        InitBlock(initediblk);
        initediblk := initediblk + inopb;
        SmallMod(ino, ipg);
        assert !Used()[ino];
        ino := Choose(ino);
      }
    }

    /** bzero of the inode block at b, and the loop that gives each of its inodes a generation number. */
    method InitBlock(b: nat)
      requires |gens| == ipg && b + inopb <= ipg
      modifies this`gens
      ensures |gens| == ipg && forall i :: b <= i < b + inopb ==> gens[i] != 0
      ensures forall i :: 0 <= i < ipg && !(b <= i < b + inopb) ==> gens[i] == old(gens)[i]
    {
      var k := 0;
      while k < inopb
        invariant 0 <= k <= inopb && |gens| == ipg
        invariant forall i :: b <= i < b + k ==> gens[i] != 0
        invariant forall i :: 0 <= i < ipg && !(b <= i < b + k) ==> gens[i] == old(gens)[i]
      {
        var gen: nat :| gen > 0;
        gens := gens[b + k := gen];
        k := k + 1;
      }
    }

    /** The allocation proper, once the inode is known to be initialised. */
    method Commit(ino: nat, dir: bool)
      requires Valid() && ino < ipg && !Used()[ino]
      requires ufs2 ==> ino + inopb <= initediblk || initediblk >= ipg
      modifies this, buf
      ensures Valid()
      ensures Used() == old(Used())[ino := true] && nifree == old(nifree) - 1
      ensures initediblk == old(initediblk) && gens == old(gens) && irotor == ino && ndir == old(ndir) + if dir then 1 else 0
    {
      hide Bits, BitOf, Mask, IsSet, FreeCount;
      irotor := ino;
      CountUpdate(Used(), ino);
      Mark(ino, true);
      nifree := nifree - 1;
      if dir {
        ndir := ndir + 1;
      }
    }

    /** One pass from the label restart to gotit. */
    method Choose(pref: nat) returns (ino: nat)
      requires Shape() && irotor < ipg
      requires exists i :: 0 <= i < ipg && !Used()[i]
      ensures ino < ipg && !Used()[ino]
      ensures if pref != 0 && !Used()[pref % ipg] then ino == pref % ipg else FirstClearFrom(Used(), DownTo(irotor, 8), ino)
    {
      hide Bits, BitOf;
      if pref != 0 {
        ino := pref % ipg;
        if !IsSet(buf[iusedoff .. iusedoff + ipg / 8], ino) {
          return;
        }
      }
      ino := FindClear();
    }

    /** ffs_freefile: the inode goes back to the map. */
    method FreeFile(ino: nat, dir: bool)
      requires Valid() && ino < ipg && Used()[ino]
      modifies this, buf
      ensures Valid()
      ensures Used() == old(Used())[ino := false] && nifree == old(nifree) + 1
      ensures initediblk == old(initediblk) && gens == old(gens) && irotor == (if ino < old(irotor) then ino else old(irotor))
      ensures ndir == old(ndir) - if dir then 1 else 0
    {
      hide Bits, BitOf, Mask, IsSet, FreeCount;
      CountUpdate(Used()[ino := false], ino);
      assert Used()[ino := false][ino := true] == Used();
      Mark(ino, false);
      if ino < irotor {
        irotor := ino;
      }
      nifree := nifree + 1;
      if dir {
        ndir := ndir - 1;
      }
    }
  }

  lemma {:induction false} CountBefore(s: seq<bool>, i: nat, n: nat)
    requires i < |s| && !s[i] && n <= |s|
    ensures FreeBefore(s[i := true], n) == FreeBefore(s, n) + if i < n then 1 else 0
  {
    if n > 0 {
      CountBefore(s, i, n - 1);
    }
  }

  lemma CountUpdate(s: seq<bool>, i: nat)
    requires i < |s| && !s[i]
    ensures FreeCount(s[i := true]) == FreeCount(s) + 1
  {
    CountBefore(s, i, |s|);
  }
}
