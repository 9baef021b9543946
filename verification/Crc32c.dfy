/** CRC32c as the check-hash code computes it: bit by bit (the definition), byte by byte through
    one table, and eight bytes at a time through eight tables. All three agree. */
module Crc32c {
  import opened Crc32cTables
  import opened Crc32cLinear

  // ---- the definition -------------------------------------------------------------------

  function Half(c: bv32): bv32 { c >> 1 }

  /** One bit of the reflected division by the polynomial 0x1EDC6F41. */
  function Step(c: bv32): bv32 {
    Xor(Half(c), if c & 1 != 0 then 0x82F63B78 else 0)
  }

  function Step8(c: bv32): bv32 {
    Step(Step(Step(Step(Step(Step(Step(Step(c))))))))
  }

  /** The checksum register after one more byte, bit by bit. */
  function BitUpdate(c: bv32, b: bv8): bv32 {
    Step8(Xor(c, b as bv32))
  }

  /** The checksum register after a whole buffer, bit by bit. */
  function BitCrc(c: bv32, p: seq<bv8>): bv32 {
    if p == [] then c else BitUpdate(BitCrc(c, p[..|p| - 1]), p[|p| - 1])
  }

  // ---- byte by byte ---------------------------------------------------------------------

  /** crc32Table[(crc ^ *p) & 0xff] ^ (crc >> 8) */
  function Update(c: bv32, b: bv8): bv32 {
    Xor(Table32(Low(Xor(c, b as bv32))), Shr8(c))
  }

  function Crc(c: bv32, p: seq<bv8>): bv32 {
    if p == [] then c else Update(Crc(c, p[..|p| - 1]), p[|p| - 1])
  }

  lemma PolyXor(a: bv32, b: bv32)
    ensures (Xor(a, b) & 1 != 0) <==> (a & 1 != 0) != (b & 1 != 0)
  {
    assert (a ^ b) & 1 == (a & 1) ^ (b & 1);
    assert a & 1 == 0 || a & 1 == 1;
    assert b & 1 == 0 || b & 1 == 1;
  }

  lemma HalfXor(a: bv32, b: bv32)
    ensures Half(Xor(a, b)) == Xor(Half(a), Half(b))
  {}

  lemma StepXor(a: bv32, b: bv32)
    ensures Step(Xor(a, b)) == Xor(Step(a), Step(b))
  {
    PolyXor(a, b);
    HalfXor(a, b);
    var p, q: bv32 := if a & 1 != 0 then 0x82F63B78 else 0, if b & 1 != 0 then 0x82F63B78 else 0;
    assert (if Xor(a, b) & 1 != 0 then 0x82F63B78 else 0) == Xor(p, q) by { PolyTerm(a & 1 != 0, b & 1 != 0); }
    hide Xor;
    XorSwap(Half(a), Half(b), p, q);
  }

  lemma PolyTerm(x: bool, y: bool)
    ensures var p, q: bv32 := if x then 0x82F63B78 else 0, if y then 0x82F63B78 else 0;
      Xor(p, q) == if x != y then 0x82F63B78 else 0
  {}

  lemma Step8Xor(a: bv32, b: bv32)
    ensures Step8(Xor(a, b)) == Xor(Step8(a), Step8(b))
  {
    hide Xor, Step;
    StepXor(a, b);
    var a1, b1 := Step(a), Step(b);
    StepXor(a1, b1);
    var a2, b2 := Step(a1), Step(b1);
    StepXor(a2, b2);
    var a3, b3 := Step(a2), Step(b2);
    StepXor(a3, b3);
    var a4, b4 := Step(a3), Step(b3);
    StepXor(a4, b4);
    var a5, b5 := Step(a4), Step(b4);
    StepXor(a5, b5);
    var a6, b6 := Step(a5), Step(b5);
    StepXor(a6, b6);
    StepXor(Step(a6), Step(b6));
  }

  lemma Step8Term(i: bv8, mask: bv8, c: bv32)
    ensures Step8(Term(i, mask, c)) == Term(i, mask, Step8(c))
  {
    assert Step(0) == 0;
    hide Step;
  }

  lemma Step8Lin(i: bv8, c0: bv32, c1: bv32, c2: bv32, c3: bv32, c4: bv32, c5: bv32, c6: bv32, c7: bv32)
    ensures Step8(Lin(i, c0, c1, c2, c3, c4, c5, c6, c7)) ==
      Lin(i, Step8(c0), Step8(c1), Step8(c2), Step8(c3), Step8(c4), Step8(c5), Step8(c6), Step8(c7))
  {
    hide Xor, Term, Step8;
    Step8Term(i, 0x01, c0);
    Step8Term(i, 0x02, c1);
    Step8Term(i, 0x04, c2);
    Step8Term(i, 0x08, c3);
    Step8Term(i, 0x10, c4);
    Step8Term(i, 0x20, c5);
    Step8Term(i, 0x40, c6);
    Step8Term(i, 0x80, c7);
    Step8Xor(Term(i, 0x01, c0), Term(i, 0x02, c1));
    Step8Xor(Term(i, 0x04, c2), Term(i, 0x08, c3));
    Step8Xor(Term(i, 0x10, c4), Term(i, 0x20, c5));
    Step8Xor(Term(i, 0x40, c6), Term(i, 0x80, c7));
    Step8Xor(Xor(Term(i, 0x01, c0), Term(i, 0x02, c1)), Xor(Term(i, 0x04, c2), Term(i, 0x08, c3)));
    Step8Xor(Xor(Term(i, 0x10, c4), Term(i, 0x20, c5)), Xor(Term(i, 0x40, c6), Term(i, 0x80, c7)));
    Step8Xor(Xor(Xor(Term(i, 0x01, c0), Term(i, 0x02, c1)), Xor(Term(i, 0x04, c2), Term(i, 0x08, c3))),
             Xor(Xor(Term(i, 0x10, c4), Term(i, 0x20, c5)), Xor(Term(i, 0x40, c6), Term(i, 0x80, c7))));
  }

  lemma Poly0()
    ensures Step8(0x01) == 0xF26B8303
  {
    assert Step(0x1) == 0x82F63B78;
    assert Step(0x82F63B78) == 0x417B1DBC;
    assert Step(0x417B1DBC) == 0x20BD8EDE;
    assert Step(0x20BD8EDE) == 0x105EC76F;
    assert Step(0x105EC76F) == 0x8AD958CF;
    assert Step(0x8AD958CF) == 0xC79A971F;
    assert Step(0xC79A971F) == 0xE13B70F7;
    assert Step(0xE13B70F7) == 0xF26B8303;
  }

  lemma Poly1()
    ensures Step8(0x02) == 0xE13B70F7
  {
    assert Step(0x2) == 0x1;
    assert Step(0x1) == 0x82F63B78;
    assert Step(0x82F63B78) == 0x417B1DBC;
    assert Step(0x417B1DBC) == 0x20BD8EDE;
    assert Step(0x20BD8EDE) == 0x105EC76F;
    assert Step(0x105EC76F) == 0x8AD958CF;
    assert Step(0x8AD958CF) == 0xC79A971F;
    assert Step(0xC79A971F) == 0xE13B70F7;
  }

  lemma Poly2()
    ensures Step8(0x04) == 0xC79A971F
  {
    assert Step(0x4) == 0x2;
    assert Step(0x2) == 0x1;
    assert Step(0x1) == 0x82F63B78;
    assert Step(0x82F63B78) == 0x417B1DBC;
    assert Step(0x417B1DBC) == 0x20BD8EDE;
    assert Step(0x20BD8EDE) == 0x105EC76F;
    assert Step(0x105EC76F) == 0x8AD958CF;
    assert Step(0x8AD958CF) == 0xC79A971F;
  }

  lemma Poly3()
    ensures Step8(0x08) == 0x8AD958CF
  {
    assert Step(0x8) == 0x4;
    assert Step(0x4) == 0x2;
    assert Step(0x2) == 0x1;
    assert Step(0x1) == 0x82F63B78;
    assert Step(0x82F63B78) == 0x417B1DBC;
    assert Step(0x417B1DBC) == 0x20BD8EDE;
    assert Step(0x20BD8EDE) == 0x105EC76F;
    assert Step(0x105EC76F) == 0x8AD958CF;
  }

  lemma Poly4()
    ensures Step8(0x10) == 0x105EC76F
  {
    assert Step(0x10) == 0x8;
    assert Step(0x8) == 0x4;
    assert Step(0x4) == 0x2;
    assert Step(0x2) == 0x1;
    assert Step(0x1) == 0x82F63B78;
    assert Step(0x82F63B78) == 0x417B1DBC;
    assert Step(0x417B1DBC) == 0x20BD8EDE;
    assert Step(0x20BD8EDE) == 0x105EC76F;
  }

  lemma Poly5()
    ensures Step8(0x20) == 0x20BD8EDE
  {
    assert Step(0x20) == 0x10;
    assert Step(0x10) == 0x8;
    assert Step(0x8) == 0x4;
    assert Step(0x4) == 0x2;
    assert Step(0x2) == 0x1;
    assert Step(0x1) == 0x82F63B78;
    assert Step(0x82F63B78) == 0x417B1DBC;
    assert Step(0x417B1DBC) == 0x20BD8EDE;
  }

  lemma Poly6()
    ensures Step8(0x40) == 0x417B1DBC
  {
    assert Step(0x40) == 0x20;
    assert Step(0x20) == 0x10;
    assert Step(0x10) == 0x8;
    assert Step(0x8) == 0x4;
    assert Step(0x4) == 0x2;
    assert Step(0x2) == 0x1;
    assert Step(0x1) == 0x82F63B78;
    assert Step(0x82F63B78) == 0x417B1DBC;
  }

  lemma Poly7()
    ensures Step8(0x80) == 0x82F63B78
  {
    assert Step(0x80) == 0x40;
    assert Step(0x40) == 0x20;
    assert Step(0x20) == 0x10;
    assert Step(0x10) == 0x8;
    assert Step(0x8) == 0x4;
    assert Step(0x4) == 0x2;
    assert Step(0x2) == 0x1;
    assert Step(0x1) == 0x82F63B78;
  }

  lemma ByteIsLin(i: bv8)
    ensures i as bv32 == Lin(i, 0x01, 0x02, 0x04, 0x08, 0x10, 0x20, 0x40, 0x80)
  {}

  /** The table really is the division of a byte by the polynomial. */
  lemma TableIsPoly(i: bv8)
    ensures Table32(i) == Step8(i as bv32)
  {
    Linear32(i);
    ByteIsLin(i);
    hide Table32, Lin, Step8;
    Poly0(); Poly1(); Poly2(); Poly3(); Poly4(); Poly5(); Poly6(); Poly7();
    Step8Lin(i, 0x01, 0x02, 0x04, 0x08, 0x10, 0x20, 0x40, 0x80);
  }

  lemma SplitLow(x: bv32)
    ensures x == Xor(Low(x) as bv32, x & 0xFFFFFF00) && (x & 0xFFFFFF00) & 0xFF == 0
    ensures Shr8(x & 0xFFFFFF00) == Shr8(x)
  {}

  lemma StepEven(h: bv32)
    requires h & 1 == 0
    ensures Step(h) == Half(h)
  {
    XorZero(Half(h));
  }

  lemma ShiftBits(h: bv32)
    requires h & 0xFF == 0
    ensures h & 1 == 0 && Half(h) & 0x7F == 0
  {}

  lemma Shift7(h: bv32)
    requires h & 0x7F == 0
    ensures h & 1 == 0 && Half(h) & 1 == 0 && Half(Half(h)) & 1 == 0 && Half(Half(Half(h))) & 1 == 0
    ensures Half(Half(Half(h))) & 0x0F == 0
  {}

  lemma Shift4(h: bv32)
    requires h & 0x0F == 0
    ensures h & 1 == 0 && Half(h) & 1 == 0 && Half(Half(h)) & 1 == 0 && Half(Half(Half(h))) & 1 == 0
  {}

  lemma EightHalves(h: bv32)
    ensures Half(Half(Half(Half(Half(Half(Half(Half(h)))))))) == Shr8(h)
  {}

  /** Eight steps on a register whose low byte is zero only shift it. */
  lemma Step8High(h: bv32)
    requires h & 0xFF == 0
    ensures Step8(h) == Shr8(h)
  {
    ShiftBits(h);
    Shift7(Half(h));
    Shift4(Half(Half(Half(Half(h)))));
    EightHalves(h);
    hide Step, Half, Shr8;
    StepEven(h);
    StepEven(Half(h));
    StepEven(Half(Half(h)));
    StepEven(Half(Half(Half(h))));
    StepEven(Half(Half(Half(Half(h)))));
    StepEven(Half(Half(Half(Half(Half(h))))));
    StepEven(Half(Half(Half(Half(Half(Half(h)))))));
    StepEven(Half(Half(Half(Half(Half(Half(Half(h))))))));
  }

  /** One table lookup does eight bits of the division. */
  lemma AdvanceIsStep8(x: bv32)
    ensures Advance(x) == Step8(x)
  {
    SplitLow(x);
    hide Xor, Step8, Table32, Shr8, Low;
    var low, high := Low(x) as bv32, x & 0xFFFFFF00;
    Step8Xor(low, high);
    Step8High(high);
    TableIsPoly(Low(x));
  }

  lemma ByteShr8(b: bv8)
    ensures Shr8(b as bv32) == 0
  {}

  lemma UpdateIsAdvance(c: bv32, b: bv8)
    ensures Update(c, b) == Advance(Xor(c, b as bv32))
  {
    hide Xor, Low, Shr8, Table32;
    PartsXor(c, b as bv32);
    ByteShr8(b);
    XorZero(Shr8(c));
  }

  /** The byte-at-a-time table form computes the CRC as defined. */
  lemma {:induction false} CrcIsBitCrc(c: bv32, p: seq<bv8>)
    ensures Crc(c, p) == BitCrc(c, p)
  {
    hide Update, BitUpdate;
    if p != [] {
      CrcIsBitCrc(c, p[..|p| - 1]);
      UpdateIsBits(Crc(c, p[..|p| - 1]), p[|p| - 1]);
    }
  }

  lemma UpdateIsBits(c: bv32, b: bv8)
    ensures Update(c, b) == BitUpdate(c, b)
  {
    hide Update, Advance, Step8, Xor;
    UpdateIsAdvance(c, b);
    AdvanceIsStep8(Xor(c, b as bv32));
  }

  /** Checksumming a and then b is checksumming their concatenation. */
  lemma {:induction false} CrcConcat(c: bv32, a: seq<bv8>, b: seq<bv8>)
    ensures Crc(c, a + b) == Crc(Crc(c, a), b)
  {
    hide Update;
    if b == [] {
      assert a + b == a;
    } else {
      var n := |b| - 1;
      assert (a + b)[..|a + b| - 1] == a + b[..n];
      CrcConcat(c, a, b[..n]);
    }
  }

  // ---- eight bytes at a time ------------------------------------------------------------

  function Advance4(x: bv32): bv32 {
    Advance(Advance(Advance(Advance(x))))
  }

  /** A little-endian 32-bit load. */
  function Word(b0: bv8, b1: bv8, b2: bv8, b3: bv8): bv32 {
    Xor(Xor(b0 as bv32, (b1 as bv32) << 8), Xor((b2 as bv32) << 16, (b3 as bv32) << 24))
  }

  lemma WordBytes(b: bv8)
    ensures Low((b as bv32) << 8) == 0 && Shr8((b as bv32) << 8) == b as bv32
    ensures Low((b as bv32) << 16) == 0 && Shr8((b as bv32) << 16) == (b as bv32) << 8
    ensures Low((b as bv32) << 24) == 0 && Shr8((b as bv32) << 24) == (b as bv32) << 16
  {}

  /** A byte that is not yet at the bottom of the register only moves down. */
  lemma AdvanceShifted(b: bv8)
    ensures Advance((b as bv32) << 8) == b as bv32
    ensures Advance((b as bv32) << 16) == (b as bv32) << 8
    ensures Advance((b as bv32) << 24) == (b as bv32) << 16
  {
    WordBytes(b);
    assert Table32(0) == 0;
    hide Xor, Low, Shr8, Table32;
    XorZero(b as bv32);
    XorZero((b as bv32) << 8);
    XorZero((b as bv32) << 16);
  }

  lemma AdvanceTwice(x: bv32, b: bv8)
    ensures Advance(Xor(Advance(x), b as bv32)) == Advance(Advance(Xor(x, (b as bv32) << 8)))
  {
    hide Xor, Advance;
    AdvanceShifted(b);
    AdvanceXor(x, (b as bv32) << 8);
  }

  lemma AdvanceThrice(x: bv32, b: bv8)
    ensures Advance(Xor(Advance(Advance(x)), b as bv32)) == Advance(Advance(Advance(Xor(x, (b as bv32) << 16))))
  {
    hide Xor, Advance;
    AdvanceTwice(Advance(x), b);
    AdvanceShifted(b);
    AdvanceXor(x, (b as bv32) << 16);
  }

  lemma AdvanceFour(x: bv32, b: bv8)
    ensures Advance(Xor(Advance(Advance(Advance(x))), b as bv32)) == Advance4(Xor(x, (b as bv32) << 24))
  {
    hide Xor, Advance;
    AdvanceThrice(Advance(x), b);
    AdvanceShifted(b);
    AdvanceXor(x, (b as bv32) << 24);
  }

  /** Four byte updates are one word, advanced four times. */
  lemma FourUpdates(c: bv32, b0: bv8, b1: bv8, b2: bv8, b3: bv8)
    ensures Update(Update(Update(Update(c, b0), b1), b2), b3) == Advance4(Xor(c, Word(b0, b1, b2, b3)))
  {
    hide Xor, Advance, Advance4, Update;
    var x0 := Xor(c, b0 as bv32);
    var x1 := Xor(x0, (b1 as bv32) << 8);
    var x2 := Xor(x1, (b2 as bv32) << 16);
    UpdateIsAdvance(c, b0);
    UpdateIsAdvance(Advance(x0), b1);
    AdvanceTwice(x0, b1);
    UpdateIsAdvance(Advance(Advance(x1)), b2);
    AdvanceThrice(x1, b2);
    UpdateIsAdvance(Advance(Advance(Advance(x2))), b3);
    AdvanceFour(x2, b3);
    XorAssoc(c, b0 as bv32, (b1 as bv32) << 8);
    XorAssoc(x1, (b2 as bv32) << 16, (b3 as bv32) << 24);
    XorAssoc(c, Xor(b0 as bv32, (b1 as bv32) << 8), Xor((b2 as bv32) << 16, (b3 as bv32) << 24));
  }

  /** Four lookups advance a register by four bytes. */
  function Slice4(x: bv32): bv32 {
    Xor(Xor(Xor(Table56(Low(x)), Table48(Low(Shr8(x)))), Table40(Low(Shr8(Shr8(x))))), Table32(Low(Shr8(Shr8(Shr8(x))))))
  }

  /** Four lookups in the far tables advance it by eight. */
  function Slice8(x: bv32): bv32 {
    Xor(Xor(Xor(Table88(Low(x)), Table80(Low(Shr8(x)))), Table72(Low(Shr8(Shr8(x))))), Table64(Low(Shr8(Shr8(Shr8(x))))))
  }

  lemma ShiftOut(x: bv32)
    ensures Shr8(Shr8(Shr8(Shr8(x)))) == 0
  {}

  lemma Slice4Advances(x: bv32)
    ensures Slice4(x) == Advance4(x)
  {
    var y, z, w := Shr8(x), Shr8(Shr8(x)), Shr8(Shr8(Shr8(x)));
    ShiftOut(x);
    Next40(Low(x)); Next48(Low(x)); Next56(Low(x));
    Next40(Low(y)); Next48(Low(y));
    Next40(Low(z));
    hide Xor, Low, Shr8, Table32, Table40, Table48, Table56;
    assert Advance(x) == Xor(Table32(Low(x)), y);
    assert Advance(y) == Xor(Table32(Low(y)), z);
    assert Advance(z) == Xor(Table32(Low(z)), w);
    assert Advance(w) == Table32(Low(w)) by { XorZero(Table32(Low(w))); }
    hide Advance;
    AdvanceXor(Table32(Low(x)), y);
    AdvanceXor(Table40(Low(x)), Advance(y));
    AdvanceXor(Table48(Low(x)), Advance(Advance(y)));
    AdvanceXor(Table32(Low(y)), z);
    AdvanceXor(Table40(Low(y)), Advance(z));
    AdvanceXor(Table32(Low(z)), w);
    XorAssoc(Table56(Low(x)), Table48(Low(y)), Xor(Table40(Low(z)), Table32(Low(w))));
    XorAssoc(Xor(Table56(Low(x)), Table48(Low(y))), Table40(Low(z)), Table32(Low(w)));
  }

  lemma Advance4Xor(a: bv32, b: bv32)
    ensures Advance4(Xor(a, b)) == Xor(Advance4(a), Advance4(b))
  {
    hide Xor, Advance;
    AdvanceXor(a, b);
    AdvanceXor(Advance(a), Advance(b));
    AdvanceXor(Advance(Advance(a)), Advance(Advance(b)));
    AdvanceXor(Advance(Advance(Advance(a))), Advance(Advance(Advance(b))));
  }

  lemma FarTables(i: bv8)
    ensures Table64(i) == Advance4(Table32(i)) && Table72(i) == Advance4(Table40(i))
    ensures Table80(i) == Advance4(Table48(i)) && Table88(i) == Advance4(Table56(i))
  {
    hide Table32, Table40, Table48, Table56, Table64, Table72, Table80, Table88, Advance;
    Next40(i); Next48(i); Next56(i); Next64(i); Next72(i); Next80(i); Next88(i);
  }

  lemma Slice8Advances(x: bv32)
    ensures Slice8(x) == Advance4(Advance4(x))
  {
    hide Xor, Low, Shr8, Table32, Table40, Table48, Table56, Table64, Table72, Table80, Table88, Advance4;
    var y, z, w := Shr8(x), Shr8(Shr8(x)), Shr8(Shr8(Shr8(x)));
    Slice4Advances(x);
    FarTables(Low(x)); FarTables(Low(y)); FarTables(Low(z)); FarTables(Low(w));
    Advance4Xor(Table56(Low(x)), Table48(Low(y)));
    Advance4Xor(Xor(Table56(Low(x)), Table48(Low(y))), Table40(Low(z)));
    Advance4Xor(Xor(Xor(Table56(Low(x)), Table48(Low(y))), Table40(Low(z))), Table32(Low(w)));
  }

  /** One turn of the slicing loop, on the two words at the read position. */
  function SliceStep(c: bv32, w0: bv32, w1: bv32): bv32 {
    Xor(Slice8(Xor(c, w0)), Slice4(w1))
  }

  /** Eight byte updates are one turn of the slicing loop. */
  lemma EightUpdates(c: bv32, b0: bv8, b1: bv8, b2: bv8, b3: bv8, b4: bv8, b5: bv8, b6: bv8, b7: bv8)
    ensures Update(Update(Update(Update(Update(Update(Update(Update(c, b0), b1), b2), b3), b4), b5), b6), b7)
         == SliceStep(c, Word(b0, b1, b2, b3), Word(b4, b5, b6, b7))
  {
    hide Xor, Advance4, Update, Slice4, Slice8, Word;
    var w0, w1 := Word(b0, b1, b2, b3), Word(b4, b5, b6, b7);
    FourUpdates(c, b0, b1, b2, b3);
    FourUpdates(Advance4(Xor(c, w0)), b4, b5, b6, b7);
    Advance4Xor(Advance4(Xor(c, w0)), w1);
    Slice8Advances(Xor(c, w0));
    Slice4Advances(w1);
  }

  lemma {:induction false} CrcNext(c: bv32, p: seq<bv8>, i: nat)
    requires i < |p|
    ensures Crc(c, p[..i + 1]) == Update(Crc(c, p[..i]), p[i])
  {
    hide Update;
    assert p[..i + 1][..i] == p[..i];
  }

  lemma CrcNext8(c: bv32, p: seq<bv8>, i: nat)
    requires i + 8 <= |p|
    ensures Crc(c, p[..i + 8]) ==
      SliceStep(Crc(c, p[..i]), Word(p[i], p[i + 1], p[i + 2], p[i + 3]), Word(p[i + 4], p[i + 5], p[i + 6], p[i + 7]))
  {
    hide Update, Crc, SliceStep, Word;
    CrcNext(c, p, i); CrcNext(c, p, i + 1); CrcNext(c, p, i + 2); CrcNext(c, p, i + 3);
    CrcNext(c, p, i + 4); CrcNext(c, p, i + 5); CrcNext(c, p, i + 6); CrcNext(c, p, i + 7);
    EightUpdates(Crc(c, p[..i]), p[i], p[i + 1], p[i + 2], p[i + 3], p[i + 4], p[i + 5], p[i + 6], p[i + 7]);
  }

  /** singletable_crc32c */
  method SingleTable(crc: bv32, buf: array<bv8>) returns (r: bv32)
    ensures r == Crc(crc, buf[..])
  {
    hide Update, Crc;
    r := crc;
    var i := 0;
    assert Crc(crc, buf[..0]) == crc by { CrcNone(crc, buf[..0]); }
    while i < buf.Length
      invariant 0 <= i <= buf.Length && r == Crc(crc, buf[..i])
    {
      CrcNext(crc, buf[..], i);
      assert buf[..][..i] == buf[..i] && buf[..][..i + 1] == buf[..i + 1];
      r := Update(r, buf[i]);
      i := i + 1;
    }
    assert buf[..i] == buf[..];
  }

  lemma CrcNone(c: bv32, p: seq<bv8>)
    requires p == []
    ensures Crc(c, p) == c
  {}

  /** crc32c_sb8_64_bit: init bytes one at a time to reach a word boundary, then eight at a time,
      then the rest. */
  method SliceBy8(crc: bv32, buf: array<bv8>, init: nat) returns (r: bv32)
    requires init <= buf.Length
    ensures r == Crc(crc, buf[..])
  {
    hide Update, Crc, SliceStep, Word;
    ghost var p := buf[..];
    var running := (buf.Length - init) / 8 * 8;
    var end := buf.Length - init - running;
    r := crc;
    assert Crc(crc, p[..0]) == crc by { CrcNone(crc, p[..0]); }
    var at := 0;
    var li := 0;
    while li < init
      invariant 0 <= li <= init && at == li && r == Crc(crc, p[..at])
    {
      CrcNext(crc, p, at);
      r := Update(r, buf[at]);
      at := at + 1;
      li := li + 1;
    }
    li := 0;
    while li < running / 8
      invariant 0 <= li <= running / 8 && at == init + 8 * li && r == Crc(crc, p[..at])
    {
      CrcNext8(crc, p, at);
      r := SliceStep(r, Word(buf[at], buf[at + 1], buf[at + 2], buf[at + 3]),
                     Word(buf[at + 4], buf[at + 5], buf[at + 6], buf[at + 7]));
      at := at + 8;
      li := li + 1;
    }
    li := 0;
    while li < end
      invariant 0 <= li <= end && at == init + running + li && r == Crc(crc, p[..at])
    {
      CrcNext(crc, p, at);
      r := Update(r, buf[at]);
      at := at + 1;
      li := li + 1;
    }
    assert p[..at] == p;
  }

  /** multitable_crc32c: the head is 1 to 4 bytes, depending on the buffer's address. Callers
      pass at least that many. */
  method MultiTable(crc: bv32, buf: array<bv8>, address: nat) returns (r: bv32)
    requires buf.Length == 0 || 4 - address % 4 <= buf.Length
    ensures r == Crc(crc, buf[..])
  {
    if buf.Length == 0 {
      CrcNone(crc, buf[..]);
      return crc;
    }
    r := SliceBy8(crc, buf, 4 - address % 4);
  }

  /** calculate_crc32c: for every seed, buffer, length and alignment the result is the CRC of the
      bytes, the same as the bit-by-bit definition gives. */
  method CalculateCrc32c(crc: bv32, buf: array<bv8>, address: nat) returns (r: bv32)
    ensures r == Crc(crc, buf[..]) == BitCrc(crc, buf[..])
  {
    hide Crc, BitCrc;
    CrcIsBitCrc(crc, buf[..]);
    if buf.Length < 4 {
      r := SingleTable(crc, buf);
    } else {
      r := MultiTable(crc, buf, address);
    }
  }
}
