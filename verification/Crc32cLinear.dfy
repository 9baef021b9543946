/** The lookup tables are linear over exclusive or, so eight entries of each say everything;
    each slicing table is the previous one advanced by a zero byte. Linearity of a table is a fact
    about its 256 literal entries, so it is stated once per table and, for each, by ranges of the
    index: the solver settles such a fact only in pieces of this size, and no two tables share one. */
module Crc32cLinear {
  import opened Crc32cTables

  function Xor(a: bv32, b: bv32): bv32 { a ^ b }

  /** The low byte, as a table index. */
  function Low(c: bv32): bv8 { (c & 0xFF) as bv8 }

  function Shr8(c: bv32): bv32 { c >> 8 }

  /** The register advanced by one zero byte. */
  function Advance(c: bv32): bv32 {
    Xor(Table32(Low(c)), Shr8(c))
  }

  function Term(i: bv8, mask: bv8, c: bv32): bv32 {
    if i & mask != 0 then c else 0
  }

  /** The linear function of a byte with the given values on its eight bits. */
  function Lin(i: bv8, c0: bv32, c1: bv32, c2: bv32, c3: bv32, c4: bv32, c5: bv32, c6: bv32, c7: bv32): bv32 {
    Xor(Xor(Xor(Term(i, 0x01, c0), Term(i, 0x02, c1)), Xor(Term(i, 0x04, c2), Term(i, 0x08, c3))),
        Xor(Xor(Term(i, 0x10, c4), Term(i, 0x20, c5)), Xor(Term(i, 0x40, c6), Term(i, 0x80, c7))))
  }

  lemma XorComm(a: bv32, b: bv32)
    ensures Xor(a, b) == Xor(b, a)
  {}

  lemma XorAssoc(a: bv32, b: bv32, c: bv32)
    ensures Xor(Xor(a, b), c) == Xor(a, Xor(b, c))
  {}

  lemma XorZero(a: bv32)
    ensures Xor(a, 0) == a && Xor(0, a) == a
  {}

  lemma XorSwap(a: bv32, b: bv32, c: bv32, d: bv32)
    ensures Xor(Xor(a, b), Xor(c, d)) == Xor(Xor(a, c), Xor(b, d))
  {
    hide Xor;
    XorAssoc(a, b, Xor(c, d));
    XorAssoc(b, c, d);
    XorComm(b, c);
    XorAssoc(c, b, d);
    XorAssoc(a, c, Xor(b, d));
  }

  function Lin32(m: bv8): bv32 {
    Lin(m, 0xF26B8303, 0xE13B70F7, 0xC79A971F, 0x8AD958CF, 0x105EC76F, 0x20BD8EDE, 0x417B1DBC, 0x82F63B78)
  }

  lemma Linear32A(m: bv8)
    requires m < 0x40
    ensures Table32A(m, m & 0x07) == Lin32(m)
  {
    if m < 0x08 {} else if m < 0x10 {} else if m < 0x18 {} else if m < 0x20 {}
    else if m < 0x28 {} else if m < 0x30 {} else if m < 0x38 {} else {}
  }

  lemma Linear32B(m: bv8)
    requires 0x40 <= m < 0x80
    ensures Table32B(m, m & 0x07) == Lin32(m)
  {
    if m < 0x48 {} else if m < 0x50 {} else if m < 0x58 {} else if m < 0x60 {}
    else if m < 0x68 {} else if m < 0x70 {} else if m < 0x78 {} else {}
  }

  lemma Linear32C(m: bv8)
    requires 0x80 <= m < 0xc0
    ensures Table32C(m, m & 0x07) == Lin32(m)
  {
    if m < 0x88 {} else if m < 0x90 {} else if m < 0x98 {} else if m < 0xa0 {}
    else if m < 0xa8 {} else if m < 0xb0 {} else if m < 0xb8 {} else {}
  }

  lemma Linear32D(m: bv8)
    requires 0xc0 <= m
    ensures Table32D(m, m & 0x07) == Lin32(m)
  {
    if m < 0xc8 {} else if m < 0xd0 {} else if m < 0xd8 {} else if m < 0xe0 {}
    else if m < 0xe8 {} else if m < 0xf0 {} else if m < 0xf8 {} else {}
  }

  lemma Linear32(m: bv8)
    ensures Table32(m) == Lin32(m)
  {
    hide Table32A, Table32B, Table32C, Table32D, Lin32;
    if m < 0x40 {
      Linear32A(m);
    } else if m < 0x80 {
      Linear32B(m);
    } else if m < 0xc0 {
      Linear32C(m);
    } else {
      Linear32D(m);
    }
  }

  function Lin40(m: bv8): bv32 {
    Lin(m, 0x13A29877, 0x274530EE, 0x4E8A61DC, 0x9D14C3B8, 0x3FC5F181, 0x7F8BE302, 0xFF17C604, 0xFBC3FAF9)
  }

  lemma Linear40A(m: bv8)
    requires m < 0x40
    ensures Table40A(m, m & 0x07) == Lin40(m)
  {
    if m < 0x08 {} else if m < 0x10 {} else if m < 0x18 {} else if m < 0x20 {}
    else if m < 0x28 {} else if m < 0x30 {} else if m < 0x38 {} else {}
  }

  lemma Linear40B(m: bv8)
    requires 0x40 <= m < 0x80
    ensures Table40B(m, m & 0x07) == Lin40(m)
  {
    if m < 0x48 {} else if m < 0x50 {} else if m < 0x58 {} else if m < 0x60 {}
    else if m < 0x68 {} else if m < 0x70 {} else if m < 0x78 {} else {}
  }

  lemma Linear40C(m: bv8)
    requires 0x80 <= m < 0xc0
    ensures Table40C(m, m & 0x07) == Lin40(m)
  {
    if m < 0x88 {} else if m < 0x90 {} else if m < 0x98 {} else if m < 0xa0 {}
    else if m < 0xa8 {} else if m < 0xb0 {} else if m < 0xb8 {} else {}
  }

  lemma Linear40D(m: bv8)
    requires 0xc0 <= m
    ensures Table40D(m, m & 0x07) == Lin40(m)
  {
    if m < 0xc8 {} else if m < 0xd0 {} else if m < 0xd8 {} else if m < 0xe0 {}
    else if m < 0xe8 {} else if m < 0xf0 {} else if m < 0xf8 {} else {}
  }

  lemma Linear40(m: bv8)
    ensures Table40(m) == Lin40(m)
  {
    hide Table40A, Table40B, Table40C, Table40D, Lin40;
    if m < 0x40 {
      Linear40A(m);
    } else if m < 0x80 {
      Linear40B(m);
    } else if m < 0xc0 {
      Linear40C(m);
    } else {
      Linear40D(m);
    }
  }

  function Lin48(m: bv8): bv32 {
    Lin(m, 0xA541927E, 0x4F6F520D, 0x9EDEA41A, 0x38513EC5, 0x70A27D8A, 0xE144FB14, 0xC76580D9, 0x8B277743)
  }

  lemma Linear48A(m: bv8)
    requires m < 0x40
    ensures Table48A(m, m & 0x07) == Lin48(m)
  {
    if m < 0x08 {} else if m < 0x10 {} else if m < 0x18 {} else if m < 0x20 {}
    else if m < 0x28 {} else if m < 0x30 {} else if m < 0x38 {} else {}
  }

  lemma Linear48B(m: bv8)
    requires 0x40 <= m < 0x80
    ensures Table48B(m, m & 0x07) == Lin48(m)
  {
    if m < 0x48 {} else if m < 0x50 {} else if m < 0x58 {} else if m < 0x60 {}
    else if m < 0x68 {} else if m < 0x70 {} else if m < 0x78 {} else {}
  }

  lemma Linear48C(m: bv8)
    requires 0x80 <= m < 0xc0
    ensures Table48C(m, m & 0x07) == Lin48(m)
  {
    if m < 0x88 {} else if m < 0x90 {} else if m < 0x98 {} else if m < 0xa0 {}
    else if m < 0xa8 {} else if m < 0xb0 {} else if m < 0xb8 {} else {}
  }

  lemma Linear48D(m: bv8)
    requires 0xc0 <= m
    ensures Table48D(m, m & 0x07) == Lin48(m)
  {
    if m < 0xc8 {} else if m < 0xd0 {} else if m < 0xd8 {} else if m < 0xe0 {}
    else if m < 0xe8 {} else if m < 0xf0 {} else if m < 0xf8 {} else {}
  }

  lemma Linear48(m: bv8)
    ensures Table48(m) == Lin48(m)
  {
    hide Table48A, Table48B, Table48C, Table48D, Lin48;
    if m < 0x40 {
      Linear48A(m);
    } else if m < 0x80 {
      Linear48B(m);
    } else if m < 0xc0 {
      Linear48C(m);
    } else {
      Linear48D(m);
    }
  }

  function Lin56(m: bv8): bv32 {
    Lin(m, 0xDD45AAB8, 0xBF672381, 0x7B2231F3, 0xF64463E6, 0xE964B13D, 0xD725148B, 0xABA65FE7, 0x52A0C93F)
  }

  lemma Linear56A(m: bv8)
    requires m < 0x40
    ensures Table56A(m, m & 0x07) == Lin56(m)
  {
    if m < 0x08 {} else if m < 0x10 {} else if m < 0x18 {} else if m < 0x20 {}
    else if m < 0x28 {} else if m < 0x30 {} else if m < 0x38 {} else {}
  }

  lemma Linear56B(m: bv8)
    requires 0x40 <= m < 0x80
    ensures Table56B(m, m & 0x07) == Lin56(m)
  {
    if m < 0x48 {} else if m < 0x50 {} else if m < 0x58 {} else if m < 0x60 {}
    else if m < 0x68 {} else if m < 0x70 {} else if m < 0x78 {} else {}
  }

  lemma Linear56C(m: bv8)
    requires 0x80 <= m < 0xc0
    ensures Table56C(m, m & 0x07) == Lin56(m)
  {
    if m < 0x88 {} else if m < 0x90 {} else if m < 0x98 {} else if m < 0xa0 {}
    else if m < 0xa8 {} else if m < 0xb0 {} else if m < 0xb8 {} else {}
  }

  lemma Linear56D(m: bv8)
    requires 0xc0 <= m
    ensures Table56D(m, m & 0x07) == Lin56(m)
  {
    if m < 0xc8 {} else if m < 0xd0 {} else if m < 0xd8 {} else if m < 0xe0 {}
    else if m < 0xe8 {} else if m < 0xf0 {} else if m < 0xf8 {} else {}
  }

  lemma Linear56(m: bv8)
    ensures Table56(m) == Lin56(m)
  {
    hide Table56A, Table56B, Table56C, Table56D, Lin56;
    if m < 0x40 {
      Linear56A(m);
    } else if m < 0x80 {
      Linear56B(m);
    } else if m < 0xc0 {
      Linear56C(m);
    } else {
      Linear56D(m);
    }
  }

  function Lin64(m: bv8): bv32 {
    Lin(m, 0x38116FAC, 0x7022DF58, 0xE045BEB0, 0xC5670B91, 0x8F2261D3, 0x1BA8B557, 0x37516AAE, 0x6EA2D55C)
  }

  lemma Linear64A(m: bv8)
    requires m < 0x40
    ensures Table64A(m, m & 0x07) == Lin64(m)
  {
    if m < 0x08 {} else if m < 0x10 {} else if m < 0x18 {} else if m < 0x20 {}
    else if m < 0x28 {} else if m < 0x30 {} else if m < 0x38 {} else {}
  }

  lemma Linear64B(m: bv8)
    requires 0x40 <= m < 0x80
    ensures Table64B(m, m & 0x07) == Lin64(m)
  {
    if m < 0x48 {} else if m < 0x50 {} else if m < 0x58 {} else if m < 0x60 {}
    else if m < 0x68 {} else if m < 0x70 {} else if m < 0x78 {} else {}
  }

  lemma Linear64C(m: bv8)
    requires 0x80 <= m < 0xc0
    ensures Table64C(m, m & 0x07) == Lin64(m)
  {
    if m < 0x88 {} else if m < 0x90 {} else if m < 0x98 {} else if m < 0xa0 {}
    else if m < 0xa8 {} else if m < 0xb0 {} else if m < 0xb8 {} else {}
  }

  lemma Linear64D(m: bv8)
    requires 0xc0 <= m
    ensures Table64D(m, m & 0x07) == Lin64(m)
  {
    if m < 0xc8 {} else if m < 0xd0 {} else if m < 0xd8 {} else if m < 0xe0 {}
    else if m < 0xe8 {} else if m < 0xf0 {} else if m < 0xf8 {} else {}
  }

  lemma Linear64(m: bv8)
    ensures Table64(m) == Lin64(m)
  {
    hide Table64A, Table64B, Table64C, Table64D, Lin64;
    if m < 0x40 {
      Linear64A(m);
    } else if m < 0x80 {
      Linear64B(m);
    } else if m < 0xc0 {
      Linear64C(m);
    } else {
      Linear64D(m);
    }
  }

  function Lin72(m: bv8): bv32 {
    Lin(m, 0xEF306B19, 0xDB8CA0C3, 0xB2F53777, 0x6006181F, 0xC00C303E, 0x85F4168D, 0x0E045BEB, 0x1C08B7D6)
  }

  lemma Linear72A(m: bv8)
    requires m < 0x40
    ensures Table72A(m, m & 0x07) == Lin72(m)
  {
    if m < 0x08 {} else if m < 0x10 {} else if m < 0x18 {} else if m < 0x20 {}
    else if m < 0x28 {} else if m < 0x30 {} else if m < 0x38 {} else {}
  }

  lemma Linear72B(m: bv8)
    requires 0x40 <= m < 0x80
    ensures Table72B(m, m & 0x07) == Lin72(m)
  {
    if m < 0x48 {} else if m < 0x50 {} else if m < 0x58 {} else if m < 0x60 {}
    else if m < 0x68 {} else if m < 0x70 {} else if m < 0x78 {} else {}
  }

  lemma Linear72C(m: bv8)
    requires 0x80 <= m < 0xc0
    ensures Table72C(m, m & 0x07) == Lin72(m)
  {
    if m < 0x88 {} else if m < 0x90 {} else if m < 0x98 {} else if m < 0xa0 {}
    else if m < 0xa8 {} else if m < 0xb0 {} else if m < 0xb8 {} else {}
  }

  lemma Linear72D(m: bv8)
    requires 0xc0 <= m
    ensures Table72D(m, m & 0x07) == Lin72(m)
  {
    if m < 0xc8 {} else if m < 0xd0 {} else if m < 0xd8 {} else if m < 0xe0 {}
    else if m < 0xe8 {} else if m < 0xf0 {} else if m < 0xf8 {} else {}
  }

  lemma Linear72(m: bv8)
    ensures Table72(m) == Lin72(m)
  {
    hide Table72A, Table72B, Table72C, Table72D, Lin72;
    if m < 0x40 {
      Linear72A(m);
    } else if m < 0x80 {
      Linear72B(m);
    } else if m < 0xc0 {
      Linear72C(m);
    } else {
      Linear72D(m);
    }
  }

  function Lin80(m: bv8): bv32 {
    Lin(m, 0x68032CC8, 0xD0065990, 0xA5E0C5D1, 0x4E2DFD53, 0x9C5BFAA6, 0x3D5B83BD, 0x7AB7077A, 0xF56E0EF4)
  }

  lemma Linear80A(m: bv8)
    requires m < 0x40
    ensures Table80A(m, m & 0x07) == Lin80(m)
  {
    if m < 0x08 {} else if m < 0x10 {} else if m < 0x18 {} else if m < 0x20 {}
    else if m < 0x28 {} else if m < 0x30 {} else if m < 0x38 {} else {}
  }

  lemma Linear80B(m: bv8)
    requires 0x40 <= m < 0x80
    ensures Table80B(m, m & 0x07) == Lin80(m)
  {
    if m < 0x48 {} else if m < 0x50 {} else if m < 0x58 {} else if m < 0x60 {}
    else if m < 0x68 {} else if m < 0x70 {} else if m < 0x78 {} else {}
  }

  lemma Linear80C(m: bv8)
    requires 0x80 <= m < 0xc0
    ensures Table80C(m, m & 0x07) == Lin80(m)
  {
    if m < 0x88 {} else if m < 0x90 {} else if m < 0x98 {} else if m < 0xa0 {}
    else if m < 0xa8 {} else if m < 0xb0 {} else if m < 0xb8 {} else {}
  }

  lemma Linear80D(m: bv8)
    requires 0xc0 <= m
    ensures Table80D(m, m & 0x07) == Lin80(m)
  {
    if m < 0xc8 {} else if m < 0xd0 {} else if m < 0xd8 {} else if m < 0xe0 {}
    else if m < 0xe8 {} else if m < 0xf0 {} else if m < 0xf8 {} else {}
  }

  lemma Linear80(m: bv8)
    ensures Table80(m) == Lin80(m)
  {
    hide Table80A, Table80B, Table80C, Table80D, Lin80;
    if m < 0x40 {
      Linear80A(m);
    } else if m < 0x80 {
      Linear80B(m);
    } else if m < 0xc0 {
      Linear80C(m);
    } else {
      Linear80D(m);
    }
  }

  function Lin88(m: bv8): bv32 {
    Lin(m, 0x493C7D27, 0x9278FA4E, 0x211D826D, 0x423B04DA, 0x847609B4, 0x0D006599, 0x1A00CB32, 0x34019664)
  }

  lemma Linear88A(m: bv8)
    requires m < 0x40
    ensures Table88A(m, m & 0x07) == Lin88(m)
  {
    if m < 0x08 {} else if m < 0x10 {} else if m < 0x18 {} else if m < 0x20 {}
    else if m < 0x28 {} else if m < 0x30 {} else if m < 0x38 {} else {}
  }

  lemma Linear88B(m: bv8)
    requires 0x40 <= m < 0x80
    ensures Table88B(m, m & 0x07) == Lin88(m)
  {
    if m < 0x48 {} else if m < 0x50 {} else if m < 0x58 {} else if m < 0x60 {}
    else if m < 0x68 {} else if m < 0x70 {} else if m < 0x78 {} else {}
  }

  lemma Linear88C(m: bv8)
    requires 0x80 <= m < 0xc0
    ensures Table88C(m, m & 0x07) == Lin88(m)
  {
    if m < 0x88 {} else if m < 0x90 {} else if m < 0x98 {} else if m < 0xa0 {}
    else if m < 0xa8 {} else if m < 0xb0 {} else if m < 0xb8 {} else {}
  }

  lemma Linear88D(m: bv8)
    requires 0xc0 <= m
    ensures Table88D(m, m & 0x07) == Lin88(m)
  {
    if m < 0xc8 {} else if m < 0xd0 {} else if m < 0xd8 {} else if m < 0xe0 {}
    else if m < 0xe8 {} else if m < 0xf0 {} else if m < 0xf8 {} else {}
  }

  lemma Linear88(m: bv8)
    ensures Table88(m) == Lin88(m)
  {
    hide Table88A, Table88B, Table88C, Table88D, Lin88;
    if m < 0x40 {
      Linear88A(m);
    } else if m < 0x80 {
      Linear88B(m);
    } else if m < 0xc0 {
      Linear88C(m);
    } else {
      Linear88D(m);
    }
  }

  predicate OneBit(mask: bv8) {
    mask == 0x01 || mask == 0x02 || mask == 0x04 || mask == 0x08 || mask == 0x10 || mask == 0x20 || mask == 0x40 || mask == 0x80
  }

  lemma MaskXor(i: bv8, j: bv8, mask: bv8)
    requires OneBit(mask)
    ensures (i ^ j) & mask != 0 <==> (i & mask != 0) != (j & mask != 0)
  {}

  lemma TermXor(i: bv8, j: bv8, mask: bv8, c: bv32)
    requires OneBit(mask)
    ensures Term(i ^ j, mask, c) == Xor(Term(i, mask, c), Term(j, mask, c))
  {
    MaskXor(i, j, mask);
    XorZero(c);
    assert Xor(c, c) == 0;
  }

  /** Eight pairs, regrouped. */
  lemma XorRegroup(u0: bv32, u1: bv32, u2: bv32, u3: bv32, u4: bv32, u5: bv32, u6: bv32, u7: bv32, v0: bv32, v1: bv32, v2: bv32, v3: bv32, v4: bv32, v5: bv32, v6: bv32, v7: bv32)
    ensures Xor(Xor(Xor(Xor(u0, v0), Xor(u1, v1)), Xor(Xor(u2, v2), Xor(u3, v3))),
                Xor(Xor(Xor(u4, v4), Xor(u5, v5)), Xor(Xor(u6, v6), Xor(u7, v7))))
         == Xor(Xor(Xor(Xor(u0, u1), Xor(u2, u3)), Xor(Xor(u4, u5), Xor(u6, u7))),
                Xor(Xor(Xor(v0, v1), Xor(v2, v3)), Xor(Xor(v4, v5), Xor(v6, v7))))
  {
    hide Xor;
    XorSwap(u0, v0, u1, v1);
    XorSwap(u2, v2, u3, v3);
    XorSwap(u4, v4, u5, v5);
    XorSwap(u6, v6, u7, v7);
    XorSwap(Xor(u0, u1), Xor(v0, v1), Xor(u2, u3), Xor(v2, v3));
    XorSwap(Xor(u4, u5), Xor(v4, v5), Xor(u6, u7), Xor(v6, v7));
    XorSwap(Xor(Xor(u0, u1), Xor(u2, u3)), Xor(Xor(v0, v1), Xor(v2, v3)), Xor(Xor(u4, u5), Xor(u6, u7)), Xor(Xor(v4, v5), Xor(v6, v7)));
  }

  lemma LinXor(i: bv8, j: bv8, c0: bv32, c1: bv32, c2: bv32, c3: bv32, c4: bv32, c5: bv32, c6: bv32, c7: bv32)
    ensures Lin(i ^ j, c0, c1, c2, c3, c4, c5, c6, c7) == Xor(Lin(i, c0, c1, c2, c3, c4, c5, c6, c7), Lin(j, c0, c1, c2, c3, c4, c5, c6, c7))
  {
    hide Xor, Term;
    TermXor(i, j, 0x01, c0);
    TermXor(i, j, 0x02, c1);
    TermXor(i, j, 0x04, c2);
    TermXor(i, j, 0x08, c3);
    TermXor(i, j, 0x10, c4);
    TermXor(i, j, 0x20, c5);
    TermXor(i, j, 0x40, c6);
    TermXor(i, j, 0x80, c7);
    XorRegroup(Term(i, 0x01, c0), Term(i, 0x02, c1), Term(i, 0x04, c2), Term(i, 0x08, c3), Term(i, 0x10, c4), Term(i, 0x20, c5), Term(i, 0x40, c6), Term(i, 0x80, c7),
               Term(j, 0x01, c0), Term(j, 0x02, c1), Term(j, 0x04, c2), Term(j, 0x08, c3), Term(j, 0x10, c4), Term(j, 0x20, c5), Term(j, 0x40, c6), Term(j, 0x80, c7));
  }

  lemma TableXor(i: bv8, j: bv8)
    ensures Table32(i ^ j) == Xor(Table32(i), Table32(j))
  {
    Linear32(i);
    Linear32(j);
    Linear32(i ^ j);
    hide Xor, Lin, Table32;
    LinXor(i, j, 0xF26B8303, 0xE13B70F7, 0xC79A971F, 0x8AD958CF, 0x105EC76F, 0x20BD8EDE, 0x417B1DBC, 0x82F63B78);
  }

  lemma PartsXor(a: bv32, b: bv32)
    ensures Low(Xor(a, b)) == Low(a) ^ Low(b)
    ensures Shr8(Xor(a, b)) == Xor(Shr8(a), Shr8(b))
  {}

  /** Advancing by a zero byte is linear. */
  lemma AdvanceXor(a: bv32, b: bv32)
    ensures Advance(Xor(a, b)) == Xor(Advance(a), Advance(b))
  {
    hide Xor, Low, Shr8, Table32;
    PartsXor(a, b);
    TableXor(Low(a), Low(b));
    XorSwap(Table32(Low(a)), Table32(Low(b)), Shr8(a), Shr8(b));
  }

  lemma AdvanceZero()
    ensures Advance(0) == 0
  {
    assert Low(0) == 0 && Shr8(0) == 0;
    assert Table32(0) == 0;
  }

  lemma AdvanceTerm(i: bv8, mask: bv8, c: bv32)
    ensures Advance(Term(i, mask, c)) == Term(i, mask, Advance(c))
  {
    hide Advance;
    AdvanceZero();
  }

  lemma AdvanceLin(i: bv8, c0: bv32, c1: bv32, c2: bv32, c3: bv32, c4: bv32, c5: bv32, c6: bv32, c7: bv32)
    ensures Advance(Lin(i, c0, c1, c2, c3, c4, c5, c6, c7)) == Lin(i, Advance(c0), Advance(c1), Advance(c2), Advance(c3), Advance(c4), Advance(c5), Advance(c6), Advance(c7))
  {
    hide Xor, Term, Advance;
    AdvanceTerm(i, 0x01, c0);
    AdvanceTerm(i, 0x02, c1);
    AdvanceTerm(i, 0x04, c2);
    AdvanceTerm(i, 0x08, c3);
    AdvanceTerm(i, 0x10, c4);
    AdvanceTerm(i, 0x20, c5);
    AdvanceTerm(i, 0x40, c6);
    AdvanceTerm(i, 0x80, c7);
    AdvanceXor(Term(i, 0x01, c0), Term(i, 0x02, c1));
    AdvanceXor(Term(i, 0x04, c2), Term(i, 0x08, c3));
    AdvanceXor(Term(i, 0x10, c4), Term(i, 0x20, c5));
    AdvanceXor(Term(i, 0x40, c6), Term(i, 0x80, c7));
    AdvanceXor(Xor(Term(i, 0x01, c0), Term(i, 0x02, c1)), Xor(Term(i, 0x04, c2), Term(i, 0x08, c3)));
    AdvanceXor(Xor(Term(i, 0x10, c4), Term(i, 0x20, c5)), Xor(Term(i, 0x40, c6), Term(i, 0x80, c7)));
    AdvanceXor(Xor(Xor(Term(i, 0x01, c0), Term(i, 0x02, c1)), Xor(Term(i, 0x04, c2), Term(i, 0x08, c3))),
               Xor(Xor(Term(i, 0x10, c4), Term(i, 0x20, c5)), Xor(Term(i, 0x40, c6), Term(i, 0x80, c7))));
  }

  lemma Basis40()
    ensures Advance(0xF26B8303) == 0x13A29877
    ensures Advance(0xE13B70F7) == 0x274530EE
    ensures Advance(0xC79A971F) == 0x4E8A61DC
    ensures Advance(0x8AD958CF) == 0x9D14C3B8
    ensures Advance(0x105EC76F) == 0x3FC5F181
    ensures Advance(0x20BD8EDE) == 0x7F8BE302
    ensures Advance(0x417B1DBC) == 0xFF17C604
    ensures Advance(0x82F63B78) == 0xFBC3FAF9
  {}

  /** Table o40 is table o32 advanced by a zero byte. */
  lemma Next40(i: bv8)
    ensures Table40(i) == Advance(Table32(i))
  {
    Linear32(i);
    Linear40(i);
    Basis40();
    hide Table40, Table32, Lin, Advance;
    AdvanceLin(i, 0xF26B8303, 0xE13B70F7, 0xC79A971F, 0x8AD958CF, 0x105EC76F, 0x20BD8EDE, 0x417B1DBC, 0x82F63B78);
  }

  lemma Basis48()
    ensures Advance(0x13A29877) == 0xA541927E
    ensures Advance(0x274530EE) == 0x4F6F520D
    ensures Advance(0x4E8A61DC) == 0x9EDEA41A
    ensures Advance(0x9D14C3B8) == 0x38513EC5
    ensures Advance(0x3FC5F181) == 0x70A27D8A
    ensures Advance(0x7F8BE302) == 0xE144FB14
    ensures Advance(0xFF17C604) == 0xC76580D9
    ensures Advance(0xFBC3FAF9) == 0x8B277743
  {}

  /** Table o48 is table o40 advanced by a zero byte. */
  lemma Next48(i: bv8)
    ensures Table48(i) == Advance(Table40(i))
  {
    Linear40(i);
    Linear48(i);
    Basis48();
    hide Table48, Table40, Lin, Advance;
    AdvanceLin(i, 0x13A29877, 0x274530EE, 0x4E8A61DC, 0x9D14C3B8, 0x3FC5F181, 0x7F8BE302, 0xFF17C604, 0xFBC3FAF9);
  }

  lemma Basis56()
    ensures Advance(0xA541927E) == 0xDD45AAB8
    ensures Advance(0x4F6F520D) == 0xBF672381
    ensures Advance(0x9EDEA41A) == 0x7B2231F3
    ensures Advance(0x38513EC5) == 0xF64463E6
    ensures Advance(0x70A27D8A) == 0xE964B13D
    ensures Advance(0xE144FB14) == 0xD725148B
    ensures Advance(0xC76580D9) == 0xABA65FE7
    ensures Advance(0x8B277743) == 0x52A0C93F
  {}

  /** Table o56 is table o48 advanced by a zero byte. */
  lemma Next56(i: bv8)
    ensures Table56(i) == Advance(Table48(i))
  {
    Linear48(i);
    Linear56(i);
    Basis56();
    hide Table56, Table48, Lin, Advance;
    AdvanceLin(i, 0xA541927E, 0x4F6F520D, 0x9EDEA41A, 0x38513EC5, 0x70A27D8A, 0xE144FB14, 0xC76580D9, 0x8B277743);
  }

  lemma Basis64()
    ensures Advance(0xDD45AAB8) == 0x38116FAC
    ensures Advance(0xBF672381) == 0x7022DF58
    ensures Advance(0x7B2231F3) == 0xE045BEB0
    ensures Advance(0xF64463E6) == 0xC5670B91
    ensures Advance(0xE964B13D) == 0x8F2261D3
    ensures Advance(0xD725148B) == 0x1BA8B557
    ensures Advance(0xABA65FE7) == 0x37516AAE
    ensures Advance(0x52A0C93F) == 0x6EA2D55C
  {}

  /** Table o64 is table o56 advanced by a zero byte. */
  lemma Next64(i: bv8)
    ensures Table64(i) == Advance(Table56(i))
  {
    Linear56(i);
    Linear64(i);
    Basis64();
    hide Table64, Table56, Lin, Advance;
    AdvanceLin(i, 0xDD45AAB8, 0xBF672381, 0x7B2231F3, 0xF64463E6, 0xE964B13D, 0xD725148B, 0xABA65FE7, 0x52A0C93F);
  }

  lemma Basis72Low()
    ensures Advance(0x38116FAC) == 0xEF306B19
    ensures Advance(0x7022DF58) == 0xDB8CA0C3
    ensures Advance(0xE045BEB0) == 0xB2F53777
    ensures Advance(0xC5670B91) == 0x6006181F
  {}

  lemma Basis72High()
    ensures Advance(0x8F2261D3) == 0xC00C303E
    ensures Advance(0x1BA8B557) == 0x85F4168D
    ensures Advance(0x37516AAE) == 0x0E045BEB
    ensures Advance(0x6EA2D55C) == 0x1C08B7D6
  {}

  /** Table o72 is table o64 advanced by a zero byte. */
  lemma Next72(i: bv8)
    ensures Table72(i) == Advance(Table64(i))
  {
    Linear64(i);
    Linear72(i);
    Basis72Low();
    Basis72High();
    hide Table72, Table64, Lin, Advance;
    AdvanceLin(i, 0x38116FAC, 0x7022DF58, 0xE045BEB0, 0xC5670B91, 0x8F2261D3, 0x1BA8B557, 0x37516AAE, 0x6EA2D55C);
  }

  lemma Basis80()
    ensures Advance(0xEF306B19) == 0x68032CC8
    ensures Advance(0xDB8CA0C3) == 0xD0065990
    ensures Advance(0xB2F53777) == 0xA5E0C5D1
    ensures Advance(0x6006181F) == 0x4E2DFD53
    ensures Advance(0xC00C303E) == 0x9C5BFAA6
    ensures Advance(0x85F4168D) == 0x3D5B83BD
    ensures Advance(0x0E045BEB) == 0x7AB7077A
    ensures Advance(0x1C08B7D6) == 0xF56E0EF4
  {}

  /** Table o80 is table o72 advanced by a zero byte. */
  lemma Next80(i: bv8)
    ensures Table80(i) == Advance(Table72(i))
  {
    Linear72(i);
    Linear80(i);
    Basis80();
    hide Table80, Table72, Lin, Advance;
    AdvanceLin(i, 0xEF306B19, 0xDB8CA0C3, 0xB2F53777, 0x6006181F, 0xC00C303E, 0x85F4168D, 0x0E045BEB, 0x1C08B7D6);
  }

  lemma Basis88Low()
    ensures Advance(0x68032CC8) == 0x493C7D27
    ensures Advance(0xD0065990) == 0x9278FA4E
    ensures Advance(0xA5E0C5D1) == 0x211D826D
    ensures Advance(0x4E2DFD53) == 0x423B04DA
  {}

  lemma Basis88High()
    ensures Advance(0x9C5BFAA6) == 0x847609B4
    ensures Advance(0x3D5B83BD) == 0x0D006599
    ensures Advance(0x7AB7077A) == 0x1A00CB32
    ensures Advance(0xF56E0EF4) == 0x34019664
  {}

  /** Table o88 is table o80 advanced by a zero byte. */
  lemma Next88(i: bv8)
    ensures Table88(i) == Advance(Table80(i))
  {
    Linear80(i);
    Linear88(i);
    Basis88Low();
    Basis88High();
    hide Table88, Table80, Lin, Advance;
    AdvanceLin(i, 0x68032CC8, 0xD0065990, 0xA5E0C5D1, 0x4E2DFD53, 0x9C5BFAA6, 0x3D5B83BD, 0x7AB7077A, 0xF56E0EF4);
  }

}
