/** Free maps as the cylinder group stores them: bytes, eight fragments (or blocks)
    to a byte, low bit first. The mask forms used by the kernel are tied here to the
    plain sequence of bits that the rest of the model reasons about. */
module Bitmap {

  const NBBY := 8

  /** 1 << k, the mask used by setbit, clrbit, isset and isclr. */
  function Mask(k: nat): bv8
    requires k < 8
  {
    if k == 0 then 0x01 else if k == 1 then 0x02 else if k == 2 then 0x04 else if k == 3 then 0x08
    else if k == 4 then 0x10 else if k == 5 then 0x20 else if k == 6 then 0x40 else 0x80
  }

  predicate BitOf(b: bv8, k: nat)
    requires k < 8
  {
    b & Mask(k) != 0
  }

  predicate IsSet(m: seq<bv8>, i: nat)
    requires i < 8 * |m|
  {
    BitOf(m[i / 8], i % 8)
  }

  /** The byte b with the bits of x set, or cleared. */
  function ByteSet(b: bv8, x: bv8): bv8 { b | x }

  function ByteClear(b: bv8, x: bv8): bv8 { b & !x }

  /** All the bits of x are set in b, or none. */
  predicate ByteHasAll(b: bv8, x: bv8) { b & x == x }

  predicate ByteHasNone(b: bv8, x: bv8) { b & x == 0 }

  /** A byte with bit k set, or cleared. */
  function Marked(b: bv8, k: nat, v: bool): bv8
    requires k < 8
  {
    if v then ByteSet(b, Mask(k)) else ByteClear(b, Mask(k))
  }

  /** setbit and clrbit. */
  function PutBit(m: seq<bv8>, i: nat, v: bool): (r: seq<bv8>)
    requires i < 8 * |m|
    ensures |r| == |m|
  {
    m[i / 8 := Marked(m[i / 8], i % 8, v)]
  }

  /** The abstract map: element i is fragment (or block) i. */
  function Bits(m: seq<bv8>): (s: seq<bool>)
    ensures |s| == 8 * |m|
    ensures forall i :: 0 <= i < |s| ==> s[i] == IsSet(m, i)
  {
    seq(8 * |m|, i requires 0 <= i < 8 * |m| => IsSet(m, i))
  }

  /** The sequence s with every element of [lo, lo + n) replaced by v. */
  function Fill(s: seq<bool>, lo: nat, n: nat, v: bool): (r: seq<bool>)
    requires lo + n <= |s|
    ensures |r| == |s|
    ensures forall i :: 0 <= i < |s| ==> r[i] == if lo <= i < lo + n then v else s[i]
  {
    seq(|s|, i requires 0 <= i < |s| => if lo <= i < lo + n then v else s[i])
  }

  lemma ByteOps(b: bv8, x: bv8, j: nat)
    requires j < 8
    ensures BitOf(ByteSet(b, x), j) == (BitOf(b, j) || BitOf(x, j))
    ensures BitOf(ByteClear(b, x), j) == (BitOf(b, j) && !BitOf(x, j))
  {}

  lemma MaskBit(k: nat, j: nat)
    requires k < 8 && j < 8
    ensures BitOf(Mask(k), j) == (j == k)
  {}

  lemma MarkedBit(b: bv8, k: nat, v: bool, j: nat)
    requires k < 8 && j < 8
    ensures BitOf(Marked(b, k, v), j) == if j == k then v else BitOf(b, j)
  {
    hide BitOf, Mask;
    ByteOps(b, Mask(k), j);
    MaskBit(k, j);
  }

  lemma PutBitAt(m: seq<bv8>, i: nat, v: bool, j: nat)
    requires i < 8 * |m| && j < 8 * |m|
    ensures IsSet(PutBit(m, i, v), j) == if j == i then v else IsSet(m, j)
  {
    hide Mask, BitOf, Marked;
    if i / 8 == j / 8 {
      MarkedBit(m[i / 8], i % 8, v, j % 8);
    }
  }

  /** setbit and clrbit change exactly one element of the abstract map. */
  lemma BitUpdates(m: seq<bv8>, i: nat, v: bool)
    requires i < 8 * |m|
    ensures Bits(PutBit(m, i, v)) == Bits(m)[i := v]
  {
    hide IsSet, Bits, BitOf, Mask, PutBit;
    forall j | 0 <= j < 8 * |m|
      ensures Bits(PutBit(m, i, v))[j] == Bits(m)[i := v][j]
    {
      PutBitAt(m, i, v, j);
    }
  }

  predicate ValidFrag(frag: nat) {
    frag == 1 || frag == 2 || frag == 4 || frag == 8
  }

  /** The byte of the map that holds block h: h, h >> 1, h >> 2 or h >> 3. */
  function BlockByte(frag: nat, h: nat): nat
    requires ValidFrag(frag)
  {
    if frag == 8 then h else if frag == 4 then h / 2 else if frag == 2 then h / 4 else h / 8
  }

  /** The bits of that byte that belong to block h. */
  function BlockMask(frag: nat, h: nat): bv8
    requires ValidFrag(frag)
  {
    if frag == 8 then 0xff
    else if frag == 4 then (if h % 2 == 0 then 0x0f else 0xf0)
    else if frag == 2 then
      (if h % 4 == 0 then 0x03 else if h % 4 == 1 then 0x0c else if h % 4 == 2 then 0x30 else 0xc0)
    else Mask(h % 8)
  }

  predicate HasBlock(frag: nat, m: seq<bv8>, h: nat) {
    ValidFrag(frag) && h * frag + frag <= 8 * |m|
  }

  lemma BlockByteInRange(frag: nat, m: seq<bv8>, h: nat)
    requires HasBlock(frag, m, h)
    ensures BlockByte(frag, h) < |m|
    ensures (h * frag) / 8 == BlockByte(frag, h)
    ensures (h * frag) % 8 + frag <= 8
  {}

  /** ffs_isblock: every fragment of block h is free. */
  predicate IsBlock(frag: nat, m: seq<bv8>, h: nat)
    requires HasBlock(frag, m, h)
  {
    BlockByteInRange(frag, m, h);
    ByteHasAll(m[BlockByte(frag, h)], BlockMask(frag, h))
  }

  /** ffs_isfreeblock: no fragment of block h is free. */
  predicate IsFreeBlock(frag: nat, m: seq<bv8>, h: nat)
    requires HasBlock(frag, m, h)
  {
    BlockByteInRange(frag, m, h);
    ByteHasNone(m[BlockByte(frag, h)], BlockMask(frag, h))
  }

  function ClrBlock(frag: nat, m: seq<bv8>, h: nat): seq<bv8>
    requires HasBlock(frag, m, h)
  {
    BlockByteInRange(frag, m, h);
    m[BlockByte(frag, h) := ByteClear(m[BlockByte(frag, h)], BlockMask(frag, h))]
  }

  function SetBlock(frag: nat, m: seq<bv8>, h: nat): seq<bv8>
    requires HasBlock(frag, m, h)
  {
    BlockByteInRange(frag, m, h);
    m[BlockByte(frag, h) := ByteSet(m[BlockByte(frag, h)], BlockMask(frag, h))]
  }

  /** The position of block h in its byte. */
  function BlockLow(frag: nat, h: nat): nat
    requires ValidFrag(frag)
  {
    if frag == 8 then 0 else if frag == 4 then 4 * (h % 2) else if frag == 2 then 2 * (h % 4) else h % 8
  }

  lemma BlockLowIs(frag: nat, h: nat)
    requires ValidFrag(frag)
    ensures (h * frag) % 8 == BlockLow(frag, h) && BlockLow(frag, h) + frag <= 8
  {
    if frag == 4 {
      LowOf4(h, h * frag);
    } else if frag == 2 {
      LowOf2(h, h * frag);
    }
  }

  lemma LowOf4(h: nat, x: nat)
    requires x == 4 * h
    ensures x % 8 == 4 * (h % 2)
  {}

  lemma LowOf2(h: nat, x: nat)
    requires x == 2 * h
    ensures x % 8 == 2 * (h % 4)
  {}

  lemma BlockMaskLow(frag: nat, h: nat, j: nat)
    requires ValidFrag(frag) && j < 8
    ensures BitOf(BlockMask(frag, h), j) == (BlockLow(frag, h) <= j < BlockLow(frag, h) + frag)
  {}

  /** A bit lies in the mask of block h exactly when it is one of the block's fragments. */
  lemma BlockMaskBits(frag: nat, h: nat, j: nat)
    requires ValidFrag(frag) && j < 8
    ensures BitOf(BlockMask(frag, h), j) == ((h * frag) % 8 <= j < (h * frag) % 8 + frag)
  {
    hide BitOf, BlockMask, BlockLow, Mask;
    BlockLowIs(frag, h);
    BlockMaskLow(frag, h, j);
  }

  lemma ByteCover(b: bv8, x: bv8)
    ensures ByteHasAll(b, x) <==> forall j :: 0 <= j < 8 ==> BitOf(x, j) ==> BitOf(b, j)
    ensures ByteHasNone(b, x) <==> forall j :: 0 <= j < 8 ==> BitOf(x, j) ==> !BitOf(b, j)
  {
    EachBit(b);
    EachBit(x);
    hide BitOf, Mask;
  }

  lemma EachBit(b: bv8)
    ensures BitOf(b, 0) == (b & 0x01 != 0) && BitOf(b, 1) == (b & 0x02 != 0)
    ensures BitOf(b, 2) == (b & 0x04 != 0) && BitOf(b, 3) == (b & 0x08 != 0)
    ensures BitOf(b, 4) == (b & 0x10 != 0) && BitOf(b, 5) == (b & 0x20 != 0)
    ensures BitOf(b, 6) == (b & 0x40 != 0) && BitOf(b, 7) == (b & 0x80 != 0)
  {}

  lemma BlockMaskCover(frag: nat, h: nat, b: bv8, lo: nat)
    requires ValidFrag(frag) && lo == (h * frag) % 8
    ensures lo + frag <= 8
    ensures ByteHasAll(b, BlockMask(frag, h)) <==> forall j :: lo <= j < lo + frag ==> BitOf(b, j)
    ensures ByteHasNone(b, BlockMask(frag, h)) <==> forall j :: lo <= j < lo + frag ==> !BitOf(b, j)
  {
    hide BitOf, Mask, BlockMask, BlockLow, ByteHasAll, ByteHasNone;
    BlockLowIs(frag, h);
    var x := BlockMask(frag, h);
    forall j | 0 <= j < 8
      ensures BitOf(x, j) == (lo <= j < lo + frag)
    {
      BlockMaskLow(frag, h, j);
    }
    CoverOf(b, x, lo, frag);
  }

  lemma CoverOf(b: bv8, x: bv8, lo: nat, n: nat)
    requires lo + n <= 8 && forall j :: 0 <= j < 8 ==> BitOf(x, j) == (lo <= j < lo + n)
    ensures ByteHasAll(b, x) <==> forall j :: lo <= j < lo + n ==> BitOf(b, j)
    ensures ByteHasNone(b, x) <==> forall j :: lo <= j < lo + n ==> !BitOf(b, j)
  {
    hide BitOf, Mask, ByteHasAll, ByteHasNone;
    ByteCover(b, x);
  }

  /** ffs_isblock and ffs_isfreeblock, in terms of the fragments of the block. */
  lemma BlockTests(frag: nat, m: seq<bv8>, h: nat)
    requires HasBlock(frag, m, h)
    ensures IsBlock(frag, m, h) <==> forall i :: h * frag <= i < h * frag + frag ==> Bits(m)[i]
    ensures IsFreeBlock(frag, m, h) <==> forall i :: h * frag <= i < h * frag + frag ==> !Bits(m)[i]
  {
    hide BitOf, Mask, BlockMask, BlockByte, Bits, ByteHasAll, ByteHasNone;
    BlockByteInRange(frag, m, h);
    BlockMaskCover(frag, h, m[BlockByte(frag, h)], (h * frag) % 8);
    BitsOfByte(m, h * frag, frag);
  }

  /** The bits of n fragments inside one byte. */
  lemma BitsOfByte(m: seq<bv8>, x: nat, n: nat)
    requires x % 8 + n <= 8 && x + n <= 8 * |m| && n > 0
    ensures forall i :: x <= i < x + n ==> Bits(m)[i] == BitOf(m[x / 8], i - x + x % 8)
    ensures forall j :: x % 8 <= j < x % 8 + n ==> BitOf(m[x / 8], j) == Bits(m)[x + j - x % 8]
  {
    hide BitOf, Mask;
  }

  /** A byte changed only in its bits from x % 8 to x % 8 + n, to v, fills [x, x + n) with v. */
  lemma ByteFilled(m: seq<bv8>, c: bv8, x: nat, n: nat, v: bool, i: nat)
    requires x % 8 + n <= 8 && x < 8 * |m| && i < 8 * |m| && n > 0
    requires BitOf(c, i % 8) == if x % 8 <= i % 8 < x % 8 + n then v else BitOf(m[x / 8], i % 8)
    ensures IsSet(m[x / 8 := c], i) == if x <= i < x + n then v else IsSet(m, i)
  {
    hide BitOf, Mask;
  }

  lemma BlockUpdateAt(frag: nat, m: seq<bv8>, h: nat, i: nat)
    requires HasBlock(frag, m, h) && i < 8 * |m|
    ensures IsSet(SetBlock(frag, m, h), i) == (h * frag <= i < h * frag + frag || IsSet(m, i))
    ensures IsSet(ClrBlock(frag, m, h), i) == (!(h * frag <= i < h * frag + frag) && IsSet(m, i))
  {
    hide BitOf, Mask, BlockMask, BlockByte, IsSet, ByteSet, ByteClear;
    BlockByteInRange(frag, m, h);
    var b, x := m[BlockByte(frag, h)], BlockMask(frag, h);
    BlockMaskBits(frag, h, i % 8);
    ByteOps(b, x, i % 8);
    ByteFilled(m, ByteSet(b, x), h * frag, frag, true, i);
    ByteFilled(m, ByteClear(b, x), h * frag, frag, false, i);
  }

  /** ffs_setblock and ffs_clrblock fill exactly the block's fragments. */
  lemma BlockUpdates(frag: nat, m: seq<bv8>, h: nat)
    requires HasBlock(frag, m, h)
    ensures Bits(SetBlock(frag, m, h)) == Fill(Bits(m), h * frag, frag, true)
    ensures Bits(ClrBlock(frag, m, h)) == Fill(Bits(m), h * frag, frag, false)
  {
    hide IsSet, Bits, BitOf, Mask, Fill, BlockMask;
    forall i | 0 <= i < 8 * |m|
      ensures Bits(SetBlock(frag, m, h))[i] == Fill(Bits(m), h * frag, frag, true)[i]
      ensures Bits(ClrBlock(frag, m, h))[i] == Fill(Bits(m), h * frag, frag, false)[i]
    {
      BlockUpdateAt(frag, m, h, i);
    }
  }

  function Shr(b: bv8, k: nat): bv8
    requires k < 8
  {
    if k == 0 then b else if k == 1 then b >> 1 else if k == 2 then b >> 2 else if k == 3 then b >> 3
    else if k == 4 then b >> 4 else if k == 5 then b >> 5 else if k == 6 then b >> 6 else b >> 7
  }

  /** 0xff >> (NBBY - frag) */
  function LowMask(frag: nat): bv8
    requires ValidFrag(frag)
  {
    if frag == 8 then 0xff else if frag == 4 then 0x0f else if frag == 2 then 0x03 else 0x01
  }

  function LowBits(b: bv8, frag: nat): bv8
    requires ValidFrag(frag)
  {
    b & LowMask(frag)
  }

  /** blkmap: the fragments of the block at loc, moved to the low bits. */
  function BlkMap(frag: nat, m: seq<bv8>, loc: nat): bv8
    requires ValidFrag(frag) && loc < 8 * |m|
  {
    LowBits(Shr(m[loc / 8], loc % 8), frag)
  }

  lemma ShrLow(b: bv8, k: nat, j: nat)
    requires k < 4 && j < 8
    ensures BitOf(Shr(b, k), j) == (k + j < 8 && BitOf(b, k + j))
  {
    EachBit(b);
    EachBit(Shr(b, k));
  }

  lemma ShrHigh(b: bv8, k: nat, j: nat)
    requires 4 <= k < 8 && j < 8
    ensures BitOf(Shr(b, k), j) == (k + j < 8 && BitOf(b, k + j))
  {
    EachBit(b);
    EachBit(Shr(b, k));
  }

  lemma ShrBit(b: bv8, k: nat, j: nat)
    requires k < 8 && j < 8
    ensures BitOf(Shr(b, k), j) == (k + j < 8 && BitOf(b, k + j))
  {
    hide BitOf, Shr;
    if k < 4 {
      ShrLow(b, k, j);
    } else {
      ShrHigh(b, k, j);
    }
  }

  lemma LowMaskBit(b: bv8, frag: nat, j: nat)
    requires ValidFrag(frag) && j < 8
    ensures BitOf(LowBits(b, frag), j) == (j < frag && BitOf(b, j))
  {}

  /** Bit j of blkmap is fragment loc + j; everything above the block reads as zero. */
  lemma BlkMapBits(frag: nat, m: seq<bv8>, loc: nat, j: nat)
    requires ValidFrag(frag) && loc < 8 * |m| && loc % frag == 0 && j < 8
    ensures loc + frag <= 8 * |m|
    ensures BitOf(BlkMap(frag, m, loc), j) == (j < frag && Bits(m)[loc + j])
  {
    hide BitOf, Mask, Shr, LowBits, Bits;
    ShrBit(m[loc / 8], loc % 8, j);
    LowMaskBit(Shr(m[loc / 8], loc % 8), frag, j);
    AlignedInByte(loc, frag);
    if j < frag {
      BitsOfByte(m, loc, frag);
    }
  }

  lemma AlignedInByte(loc: nat, frag: nat)
    requires ValidFrag(frag) && loc % frag == 0
    ensures loc % 8 + frag <= 8
  {
    if frag == 8 {} else if frag == 4 {} else if frag == 2 {} else {}
  }
}
