/** Fragment accounting (ffs_fragacct) and the table-driven map search (scanc, ffs_mapsearch). */
module FragSearch {
  import opened Arith
  import opened Bitmap
  import opened FragTables
  import opened Runs
  import opened Recount

  /** The fragments described by a block map value. */
  function BlkBits(frag: nat, b: bv8): (s: seq<bool>)
    requires frag <= 8
    ensures |s| == frag && forall i :: 0 <= i < frag ==> s[i] == BitOf(b, i)
  {
    seq(frag, i requires 0 <= i < frag => BitOf(b, i))
  }

  /** Nothing above the block is set, as blkmap guarantees. */
  predicate InBlock(frag: nat, b: bv8)
    requires ValidFrag(frag)
  {
    LowBits(b, frag) == b
  }

  lemma RunAtIsRun(frag: nat, b: bv8, siz: nat, pos: nat)
    requires ValidFrag(frag) && InBlock(frag, b) && 1 <= siz && pos + siz <= 8
    ensures RunAt(b, siz, pos) <==> pos + siz <= frag && IsRun(BlkBits(frag, b), pos, siz)
  {
    hide BitOf, LowMask, Mask;
    forall j: nat | j < 8
      ensures BitOf(b, j) ==> j < frag
    {
      LowMaskBit(b, frag, j);
    }
    assert BitOf(b, pos + siz - 1) ==> pos + siz - 1 < frag;
  }

  /** The runs of a block map, as the lookup table and the mask test see them. */
  lemma BlockRuns(frag: nat, b: bv8, siz: nat, pos: nat)
    requires ValidFrag(frag) && InBlock(frag, b) && 1 <= siz <= frag && pos < 8
    ensures BitOf(RunStarts(b, siz), pos) <==> IsRun(BlkBits(frag, b), pos, siz)
    ensures pos + siz <= frag ==> (Match(b, siz, pos) <==> IsRun(BlkBits(frag, b), pos, siz))
  {
    hide BitOf, RunStarts, Match, RunAt, IsRun;
    MatchIsRun(b, siz, pos);
    if pos + siz <= 8 {
      RunAtIsRun(frag, b, siz, pos);
    }
    RunFits(BlkBits(frag, b), pos, siz);
  }

  lemma RunFits(s: seq<bool>, p: nat, k: nat)
    ensures IsRun(s, p, k) ==> p + k <= |s|
  {}

  lemma NoStarts(frag: nat, b: bv8, siz: nat)
    requires ValidFrag(frag) && InBlock(frag, b) && 1 <= siz <= frag
    ensures RunStarts(b, siz) != 0 <==> exists pos: nat :: IsRun(BlkBits(frag, b), pos, siz)
  {
    hide BitOf, RunStarts;
    NonZeroBit(RunStarts(b, siz));
    forall pos: nat | pos < 8
      ensures BitOf(RunStarts(b, siz), pos) <==> IsRun(BlkBits(frag, b), pos, siz)
    {
      BlockRuns(frag, b, siz, pos);
    }
    assert forall pos: nat :: IsRun(BlkBits(frag, b), pos, siz) ==> pos < 8;
  }

  lemma InBlockIsFirst(frag: nat, b: bv8)
    requires ValidFrag(frag) && InBlock(frag, b)
    ensures BlkOf(b, frag, 0) == b
    ensures forall c: nat :: 0 < c && c * frag < 8 ==> BlkOf(b, frag, c) == 0
  {}

  lemma NoRunsInZero(siz: nat)
    requires 1 <= siz <= 8
    ensures RunStarts(0, siz) == 0
  {}

  /** A block value has a run of siz exactly when its table entry says so. */
  lemma TableOnBlock(frag: nat, b: bv8, siz: nat)
    requires ValidFrag(frag) && InBlock(frag, b) && 1 <= siz <= frag
    ensures TableHit(frag, b, siz) <==> exists pos: nat :: IsRun(BlkBits(frag, b), pos, siz)
  {
    hide TableHit, RunStarts, BlkOf, BitOf, InBlock;
    TableFinds(frag, b, siz);
    InBlockIsFirst(frag, b);
    NoRunsInZero(siz);
    NoStarts(frag, b, siz);
    assert 0 * frag < 8;
  }

  lemma {:induction false} RunsBeforeGap(s: seq<bool>, k: nat, a: nat, b: nat)
    requires a <= b <= |s|
    requires forall q: nat :: a <= q < b ==> !IsRun(s, q, k)
    ensures RunsBefore(s, k, b) == RunsBefore(s, k, a)
  {
    hide IsRun;
    if a < b {
      RunsBeforeGap(s, k, a, b - 1);
      assert !IsRun(s, b - 1, k);
    }
  }

  function Min(a: nat, b: nat): nat {
    if a < b then a else b
  }

  /** After a run of siz at p the next one cannot start before p + siz + 1. */
  lemma SkipRun(s: seq<bool>, siz: nat, p: nat)
    requires IsRun(s, p, siz)
    ensures RunsBefore(s, siz, Min(p + siz + 1, |s|)) == RunsBefore(s, siz, p) + 1
  {
    var e := Min(p + siz + 1, |s|);
    assert RunsBefore(s, siz, p + 1) == RunsBefore(s, siz, p) + 1;
    forall q: nat | p + 1 <= q < e
      ensures !IsRun(s, q, siz)
    {
      assert q < p + siz ==> s[q - 1];
      assert q == p + siz ==> !s[q];
    }
    RunsBeforeGap(s, siz, p + 1, e);
  }

  /** No run of siz starts so late that it would leave the block. */
  lemma LateRuns(s: seq<bool>, siz: nat, p: nat)
    requires siz > 0 && p + siz > |s|
    ensures RunsBefore(s, siz, Min(p, |s|)) == RunCount(s, siz)
  {
    RunsBeforeGap(s, siz, Min(p, |s|), |s|);
  }

  lemma OneMore(cnt: int, found: nat)
    ensures cnt * (found + 1) == cnt * found + cnt
  {}

  /** The inner loop of ffs_fragacct for one run length: slides the around/inside masks
      over the block, jumping over each run it finds. */
  method AcctOneSize(frag: nat, fragmap: bv8, siz: nat, fraglist: array<int>, cnt: int)
    requires ValidFrag(frag) && InBlock(frag, fragmap) && 1 <= siz < frag <= fraglist.Length
    modifies fraglist
    ensures forall k :: 0 <= k < fraglist.Length && k != siz ==> fraglist[k] == old(fraglist[k])
    ensures fraglist[siz] == old(fraglist[siz]) + cnt * RunCount(BlkBits(frag, fragmap), siz)
  {
    hide Match, BitOf, InBlock, IsRun, BlkBits, LowMask;
    ghost var s, found: nat := BlkBits(frag, fragmap), 0;
    var pos := siz;
    while pos <= frag
      invariant siz <= pos
      invariant forall k :: 0 <= k < fraglist.Length && k != siz ==> fraglist[k] == old(fraglist[k])
      invariant found == RunsBefore(s, siz, Min(pos - siz, frag))
      invariant fraglist[siz] == old(fraglist[siz]) + cnt * found
      decreases frag + 1 - pos
    {
      var p := pos - siz;
      BlockRuns(frag, fragmap, siz, p);
      if Match(fragmap, siz, p) {
        SkipRun(s, siz, p);
        fraglist[siz] := fraglist[siz] + cnt;
        OneMore(cnt, found);
        found := found + 1;
        pos := pos + siz;
      } else {
        RunsBeforeGap(s, siz, p, p + 1);
      }
      pos := pos + 1;
    }
    LateRuns(s, siz, pos - siz);
  }

  /** ffs_fragacct: adds cnt to fraglist[k] once for every maximal free run of exactly k
      in the block, for k below fs_frag; a wholly free block adds nothing. */
  method FragAcct(frag: nat, fragmap: bv8, fraglist: array<int>, cnt: int)
    requires ValidFrag(frag) && InBlock(frag, fragmap) && frag <= fraglist.Length
    modifies fraglist
    ensures forall k :: 0 <= k < fraglist.Length ==>
      fraglist[k] == old(fraglist[k])
                   + if 1 <= k < frag then cnt * RunCount(BlkBits(frag, fragmap), k) else 0
  {
    hide BitOf, InBlock, TableHit, BlkBits, RunCount;
    for siz := 1 to frag
      invariant forall k :: 0 <= k < fraglist.Length ==>
        fraglist[k] == old(fraglist[k])
                     + if 1 <= k < siz then cnt * RunCount(BlkBits(frag, fragmap), k) else 0
    {
      TableOnBlock(frag, fragmap, siz);
      RunCountPositive(BlkBits(frag, fragmap), siz);
      if TableHit(frag, fragmap, siz) {
        AcctOneSize(frag, fragmap, siz, fraglist, cnt);
      }
    }
  }

  /** scanc: the number of bytes left, counted from the first table hit, or 0. */
  method Scanc(cp: array<bv8>, lo: nat, size: nat, frag: nat, siz: nat) returns (left: nat)
    requires lo + size <= cp.Length && ValidFrag(frag) && 1 <= siz <= frag
    ensures left <= size
    ensures forall j :: lo <= j < lo + size - left ==> !TableHit(frag, cp[j], siz)
    ensures left > 0 ==> TableHit(frag, cp[lo + size - left], siz)
  {
    hide TableHit;
    var i := lo;
    while i < lo + size
      invariant lo <= i <= lo + size
      invariant forall j :: lo <= j < i ==> !TableHit(frag, cp[j], siz)
    {
      if TableHit(frag, cp[i], siz) {
        break;
      }
      i := i + 1;
    }
    left := lo + size - i;
  }

  /** Block h of the map has a maximal free run of siz at fragment offset p. */
  predicate HasRun(m: seq<bv8>, frag: nat, h: nat, p: nat, siz: nat) {
    HasBlock(frag, m, h) && IsRun(Block(Bits(m), frag, h), p, siz)
  }

  lemma BlkMapInBlock(frag: nat, m: seq<bv8>, loc: nat)
    requires ValidFrag(frag) && loc < 8 * |m|
    ensures InBlock(frag, BlkMap(frag, m, loc))
  {
    var x, y := Shr(m[loc / 8], loc % 8), LowMask(frag);
    assert (x & y) & y == x & y;
  }

  lemma BlkMapBlock(frag: nat, m: seq<bv8>, h: nat)
    requires HasBlock(frag, m, h)
    ensures BlkBits(frag, BlkMap(frag, m, h * frag)) == Block(Bits(m), frag, h)
  {
    hide BitOf, BlkMap, BlkBits, Block, Bits;
    assert (h * frag) % frag == 0;
    forall j: nat | j < frag
      ensures BitOf(BlkMap(frag, m, h * frag), j) == Bits(m)[h * frag + j]
    {
      BlkMapBits(frag, m, h * frag, j);
    }
  }

  /** The test made while sifting a byte recognises the runs of the block. */
  lemma MatchBlkMap(frag: nat, m: seq<bv8>, h: nat, siz: nat, pos: nat)
    requires HasBlock(frag, m, h) && 1 <= siz && pos + siz <= frag
    ensures Match(BlkMap(frag, m, h * frag), siz, pos) <==> HasRun(m, frag, h, pos, siz)
  {
    hide Match, BlkMap, BlkBits, Block, Bits, InBlock, BitOf, IsRun;
    BlkMapInBlock(frag, m, h * frag);
    BlkMapBlock(frag, m, h);
    BlockRuns(frag, BlkMap(frag, m, h * frag), siz, pos);
  }

  /** The byte of the map that block h lies in. */
  function ByteOf(frag: nat, h: nat): nat {
    h * frag / 8
  }

  lemma PlaceInByte(frag: nat, r: nat)
    requires ValidFrag(frag) && r < 8 && r % frag == 0
    ensures (r / frag) * frag == r
  {}

  lemma BlockOnBoundary(frag: nat, h: nat)
    requires ValidFrag(frag)
    ensures (h * frag) % 8 % frag == 0
  {}

  lemma BlockInByte(frag: nat, m: seq<bv8>, h: nat)
    requires HasBlock(frag, m, h)
    ensures BlockByte(frag, h) < |m| && ByteOf(frag, h) == BlockByte(frag, h) && (h * frag) % 8 % frag == 0
    ensures ((h * frag) % 8 / frag) * frag < 8
    ensures BlkMap(frag, m, h * frag) == BlkOf(m[BlockByte(frag, h)], frag, (h * frag) % 8 / frag)
  {
    hide Shr, LowMask, BlockByte;
    BlockByteInRange(frag, m, h);
    BlockOnBoundary(frag, h);
    PlaceInByte(frag, (h * frag) % 8);
  }

  /** A byte hits the table exactly when one of its blocks has a run of siz. */
  lemma ByteHit(frag: nat, m: seq<bv8>, byte: nat, siz: nat)
    requires ValidFrag(frag) && 1 <= siz <= frag && byte < |m|
    ensures TableHit(frag, m[byte], siz) <==> exists h: nat, p: nat :: HasRun(m, frag, h, p, siz) && ByteOf(frag, h) == byte
  {
    hide TableHit, RunStarts, BlkOf, BlkMap, HasRun, BitOf, InBlock, BlkBits, ByteOf, BlockByte;
    TableFinds(frag, m[byte], siz);
    if h: nat, p: nat :| HasRun(m, frag, h, p, siz) && ByteOf(frag, h) == byte {
      HasRunStarts(frag, m, h, p, siz);
      BlockInByte(frag, m, h);
      var c := (h * frag) % 8 / frag;
      assert c * frag < 8 && RunStarts(BlkOf(m[byte], frag, c), siz) != 0;
    }
    if c: nat :| c * frag < 8 && RunStarts(BlkOf(m[byte], frag, c), siz) != 0 {
      var h := ByteBlock(frag, m, byte, c);
      StartsHasRun(frag, m, h, siz);
    }
  }

  lemma HasRunStarts(frag: nat, m: seq<bv8>, h: nat, p: nat, siz: nat)
    requires HasRun(m, frag, h, p, siz) && 1 <= siz <= frag
    ensures HasBlock(frag, m, h) && RunStarts(BlkMap(frag, m, h * frag), siz) != 0
  {
    hide RunStarts, BlkMap, BlkBits, Block, Bits, InBlock, BitOf, IsRun;
    BlkMapInBlock(frag, m, h * frag);
    BlkMapBlock(frag, m, h);
    NoStarts(frag, BlkMap(frag, m, h * frag), siz);
  }

  lemma StartsHasRun(frag: nat, m: seq<bv8>, h: nat, siz: nat)
    requires HasBlock(frag, m, h) && 1 <= siz <= frag
    requires RunStarts(BlkMap(frag, m, h * frag), siz) != 0
    ensures exists p: nat :: HasRun(m, frag, h, p, siz)
  {
    hide RunStarts, BlkMap, BlkBits, Block, Bits, InBlock, BitOf, IsRun;
    BlkMapInBlock(frag, m, h * frag);
    BlkMapBlock(frag, m, h);
    NoStarts(frag, BlkMap(frag, m, h * frag), siz);
    var p: nat :| IsRun(Block(Bits(m), frag, h), p, siz);
    assert HasRun(m, frag, h, p, siz);
  }

  /** The block of the map that is the c-th block of a byte. */
  lemma ByteBlock(frag: nat, m: seq<bv8>, byte: nat, c: nat) returns (h: nat)
    requires ValidFrag(frag) && byte < |m| && c * frag < 8
    ensures HasBlock(frag, m, h) && h * frag == 8 * byte + c * frag && ByteOf(frag, h) == byte
    ensures BlkMap(frag, m, h * frag) == BlkOf(m[byte], frag, c)
  {
    h := if frag == 8 then byte + c else if frag == 4 then 2 * byte + c else if frag == 2 then 4 * byte + c else 8 * byte + c;
    assert h * frag == 8 * byte + c * frag;
    assert (8 * byte + c * frag) / 8 == byte && (8 * byte + c * frag) % 8 == c * frag;
    assert c * frag + frag <= 8;
  }

  /** Fragment bno starts a maximal free run of siz within its block. */
  predicate StartsRun(m: seq<bv8>, frag: nat, bno: nat, siz: nat) {
    ValidFrag(frag) && HasRun(m, frag, bno / frag, bno % frag, siz)
  }

  lemma StartsRunBlock(m: seq<bv8>, frag: nat, h: nat, pos: nat, siz: nat, bno: nat)
    requires ValidFrag(frag) && pos < frag && HasRun(m, frag, h, pos, siz) && bno == h * frag + pos
    ensures StartsRun(m, frag, bno, siz)
  {
    hide HasRun;
    DivModBase(h, frag, pos);
  }

  /** Sifts one block: the first offset of a run of allocsiz, or one that is too large. */
  method SiftBlock(blk: bv8, frag: nat, allocsiz: nat, ghost m: seq<bv8>, ghost h: nat) returns (pos: nat)
    requires HasBlock(frag, m, h) && 1 <= allocsiz <= frag && blk == BlkMap(frag, m, h * frag)
    ensures pos <= frag - allocsiz ==> HasRun(m, frag, h, pos, allocsiz)
    ensures forall p: nat :: p < pos ==> !HasRun(m, frag, h, p, allocsiz)
    ensures pos > frag - allocsiz ==> forall p: nat :: !HasRun(m, frag, h, p, allocsiz)
  {
    hide HasRun, Match, BlkMap;
    pos := 0;
    while pos <= frag - allocsiz
      invariant 0 <= pos <= frag - allocsiz + 1
      invariant forall p: nat :: p < pos ==> !HasRun(m, frag, h, p, allocsiz)
    {
      MatchBlkMap(frag, m, h, allocsiz, pos);
      if Match(blk, allocsiz, pos) {
        return;
      }
      pos := pos + 1;
    }
    forall p: nat
      ensures !HasRun(m, frag, h, p, allocsiz)
    {
      HasRunFits(m, frag, h, p, allocsiz);
    }
  }

  /** The second half of ffs_mapsearch: find the run inside the byte that scanc stopped at.
      Falling out of the loop would be the panic "block not in map". */
  method Sift(blksfree: array<bv8>, frag: nat, byte: nat, allocsiz: nat) returns (bno: nat)
    requires ValidFrag(frag) && 1 <= allocsiz <= frag && byte < blksfree.Length
    requires TableHit(frag, blksfree[byte], allocsiz)
    ensures 8 * byte <= bno < 8 * byte + 8
    ensures StartsRun(blksfree[..], frag, bno, allocsiz)
    ensures forall a: nat :: 8 * byte <= a < bno ==> !StartsRun(blksfree[..], frag, a, allocsiz)
  {
    hide TableHit, HasRun, BlkMap, ByteOf, StartsRun;
    ghost var m := blksfree[..];
    ByteHit(frag, m, byte, allocsiz);
    bno := 8 * byte;
    var i := bno + NBBY;
    ghost var c: nat := 0;
    ghost var h0 := FirstBlock(frag, byte);
    while bno < i
      invariant bno == 8 * byte + c * frag
      invariant forall h: nat, p: nat :: h0 <= h < h0 + c ==> !HasRun(m, frag, h, p, allocsiz)
      decreases i - bno
    {
      ghost var h := h0 + c;
      ByteBlocks(frag, byte, c);
      var pos := SiftBlock(BlkMap(frag, blksfree[..], bno), frag, allocsiz, m, h);
      if pos <= frag - allocsiz {
        bno := bno + pos;
        StartsRunBlock(m, frag, h, pos, allocsiz, bno);
        forall a: nat | 8 * byte <= a < bno
          ensures !StartsRun(m, frag, a, allocsiz)
        {
          NotBefore(m, frag, allocsiz, byte, h0, h, pos, a);
        }
        return;
      }
      MulStep(c, frag);
      c := c + 1;
      bno := bno + frag;
    }
    forall h: nat, p: nat | ByteOf(frag, h) == byte
      ensures !HasRun(m, frag, h, p, allocsiz)
    {
      BlockOfByte(frag, byte, h, c);
    }
    assert false;
  }

  /** With none in the blocks of the byte before h, and none before pos in h, none begins before h * frag + pos. */
  lemma NotBefore(m: seq<bv8>, frag: nat, siz: nat, byte: nat, h0: nat, h: nat, pos: nat, a: nat)
    requires ValidFrag(frag) && h0 * frag == 8 * byte && h0 <= h && 8 * byte <= a < h * frag + pos && pos < frag
    requires forall g: nat, p: nat :: h0 <= g < h ==> !HasRun(m, frag, g, p, siz)
    requires forall p: nat :: p < pos ==> !HasRun(m, frag, h, p, siz)
    ensures !StartsRun(m, frag, a, siz)
  {
    hide HasRun;
    var g := a / frag;
    DivisionLaw(a, frag);
    if g < h0 {
      MulApart(frag, g, h0);
    } else if g > h {
      MulApart(frag, h, g);
    }
  }

  /** The first block of a byte. */
  function FirstBlock(frag: nat, byte: nat): nat
    requires ValidFrag(frag)
  {
    8 * byte / frag
  }

  lemma HasRunFits(m: seq<bv8>, frag: nat, h: nat, p: nat, siz: nat)
    ensures HasRun(m, frag, h, p, siz) ==> p + siz <= frag
  {}

  lemma ByteBlocks(frag: nat, byte: nat, c: nat)
    requires ValidFrag(frag) && c * frag < 8
    ensures (FirstBlock(frag, byte) + c) * frag == 8 * byte + c * frag
    ensures c * frag + frag <= 8
  {
    ProductMod(byte, 8, frag);
    DivisionLaw(8 * byte, frag);
    Distribute(8 * byte / frag, c, frag);
    DivModBase(c, frag, 0);
    NextMultiple(c * frag, frag, 8);
  }

  lemma BlockOfByte(frag: nat, byte: nat, h: nat, c: nat)
    requires ValidFrag(frag) && ByteOf(frag, h) == byte && c * frag >= 8
    ensures FirstBlock(frag, byte) <= h < FirstBlock(frag, byte) + c
  {
    var q := 8 * byte / frag;
    ProductMod(byte, 8, frag);
    DivisionLaw(8 * byte, frag);
    DivisionLaw(h * frag, 8);
    Distribute(q, c, frag);
    if h < q {
      MulApart(frag, h, q);
      assert false;
    }
    if q + c <= h {
      MulMono(q + c, h, frag);
      assert false;
    }
  }

  /** No block of the bytes in [lo, hi) has a run of siz. */
  ghost predicate NoRunIn(m: seq<bv8>, frag: nat, siz: nat, lo: nat, hi: nat) {
    forall h: nat, p: nat :: lo <= ByteOf(frag, h) < hi ==> !HasRun(m, frag, h, p, siz)
  }

  lemma NoHitNoRun(m: seq<bv8>, frag: nat, siz: nat, lo: nat, hi: nat)
    requires ValidFrag(frag) && 1 <= siz <= frag && lo <= hi <= |m|
    requires forall j :: lo <= j < hi ==> !TableHit(frag, m[j], siz)
    ensures NoRunIn(m, frag, siz, lo, hi)
  {
    hide TableHit, HasRun, ByteOf;
    forall h: nat, p: nat | lo <= ByteOf(frag, h) < hi
      ensures !HasRun(m, frag, h, p, siz)
    {
      ByteHit(frag, m, ByteOf(frag, h), siz);
    }
  }

  /** A run of siz begins at bno, and at no address before it in the order that begins at lo and wraps around. */
  ghost predicate FirstStart(m: seq<bv8>, frag: nat, siz: nat, lo: nat, bno: nat) {
    && StartsRun(m, frag, bno, siz)
    && (forall a: nat :: lo <= a && (bno < lo || a < bno) ==> !StartsRun(m, frag, a, siz))
    && (bno < lo ==> forall a: nat :: a < bno ==> !StartsRun(m, frag, a, siz))
  }

  /** Where a run begins says which byte it is in. */
  lemma StartByte(m: seq<bv8>, frag: nat, a: nat, siz: nat)
    requires StartsRun(m, frag, a, siz)
    ensures ValidFrag(frag) && ByteOf(frag, a / frag) == a / 8 < |m| && HasRun(m, frag, a / frag, a % frag, siz)
  {
    hide IsRun, Block, Bits;
    BlockByteInRange(frag, m, a / frag);
    DivisionLaw(a, frag);
    SameByte((a / frag) * frag, frag, a);
  }

  lemma SameByte(x: nat, n: nat, a: nat)
    requires x % 8 + n <= 8 && x <= a < x + n
    ensures a / 8 == x / 8
  {}

  lemma NoStart(m: seq<bv8>, frag: nat, siz: nat, lo: nat, hi: nat, a: nat)
    requires NoRunIn(m, frag, siz, lo, hi) && 8 * lo <= a && (a < 8 * hi || hi == |m|)
    ensures !StartsRun(m, frag, a, siz)
  {
    hide HasRun, ByteOf, StartsRun;
    assert lo <= a / 8;
    assert a < 8 * hi ==> a / 8 < hi;
    if StartsRun(m, frag, a, siz) {
      StartByte(m, frag, a, siz);
    }
  }

  /** ffs_mapsearch. Given that some block has a maximal free run of exactly allocsiz, the
      scan from the preferred byte, wrapped once, finds the first one in that order; neither panic is reachable. The
      position of its byte becomes the new fragment rotor. */
  method MapSearch(blksfree: array<bv8>, frag: nat, prefByte: nat, allocsiz: nat) returns (bno: nat, frotor: nat)
    requires ValidFrag(frag) && 1 <= allocsiz <= frag && prefByte < blksfree.Length
    requires exists h: nat, p: nat :: HasRun(blksfree[..], frag, h, p, allocsiz)
    ensures frotor == DownTo(bno, 8) && FirstStart(blksfree[..], frag, allocsiz, 8 * prefByte, bno)
  {
    hide TableHit, HasRun, ByteOf, StartsRun;
    var start := prefByte;
    var len := blksfree.Length - start;
    var loc := Scanc(blksfree, start, len, frag, allocsiz);
    NoHitNoRun(blksfree[..], frag, allocsiz, start, start + len - loc);
    if loc == 0 {
      len := start + 1;
      start := 0;
      loc := Scanc(blksfree, start, len, frag, allocsiz);
      NoHitNoRun(blksfree[..], frag, allocsiz, 0, len - loc);
      if loc == 0 {
        // panic: map corrupted
        forall h: nat, p: nat
          ensures !HasRun(blksfree[..], frag, h, p, allocsiz)
        {
          HasRunInMap(blksfree[..], frag, h, p, allocsiz);
        }
        assert false;
      }
    }
    var byte := start + len - loc;
    frotor := byte * 8;
    bno := Sift(blksfree, frag, byte, allocsiz);
    ghost var m := blksfree[..];
    forall a: nat | 8 * prefByte <= a && (bno < 8 * prefByte || a < bno)
      ensures !StartsRun(m, frag, a, allocsiz)
    {
      if byte < prefByte {
        NoStart(m, frag, allocsiz, prefByte, blksfree.Length, a);
      } else if a < 8 * byte {
        NoStart(m, frag, allocsiz, prefByte, byte, a);
      }
    }
    forall a: nat | bno < 8 * prefByte && a < bno
      ensures !StartsRun(m, frag, a, allocsiz)
    {
      if a < 8 * byte {
        NoStart(m, frag, allocsiz, 0, byte, a);
      }
    }
  }

  lemma HasRunInMap(m: seq<bv8>, frag: nat, h: nat, p: nat, siz: nat)
    ensures HasRun(m, frag, h, p, siz) ==> ByteOf(frag, h) < |m|
  {}
}
