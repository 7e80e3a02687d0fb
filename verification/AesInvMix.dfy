// Inverse MixColumns of one round-key word (aes_core.c:761-784 and 1336-1365): the
// table build and the packed-byte build compute the same word.

module AesInvMix {
  import opened Gf
  import opened AesTables
  import opened Fips197
  import opened AesKeys

  /** The inverse table applied to the substituted bytes, so that the S-boxes cancel. */
  function InvMixTable(sb: SBox, w: bv32): bv32 {
    Td0(sb, Byte3(Te1(sb, Byte0(w)))) ^ Td1(sb, Byte3(Te1(sb, Byte1(w)))) ^
    Td2(sb, Byte3(Te1(sb, Byte2(w)))) ^ Td3(sb, Byte3(Te1(sb, Byte3(w))))
  }

  lemma Te1Low(sb: SBox, x: Byte)
    ensures Byte3(Te1(sb, x)) == sb.S(x)
  {
    hide Xtime, Mul3, Bits3, PackBits;
    var s := sb.S(x);
    BitsOfPack(Mul3(s).v, Xtime(s).v, s.v, s.v);
  }

  lemma InvMixTableIs(sb: SBox, w: bv32)
    requires sb.Valid()
    ensures InvMixTable(sb, w) == InvMixWord(w)
  {
    hide Pack, Te1, Byte0, Byte1, Byte2, Byte3, Sum4, MulE, MulB, MulD, Mul9;
    var p, q, r, s := Byte0(w), Byte1(w), Byte2(w), Byte3(w);
    Te1Low(sb, p);
    Te1Low(sb, q);
    Te1Low(sb, r);
    Te1Low(sb, s);
    PackSumBits(Col(MulE(p), Mul9(p), MulD(p), MulB(p)), Col(MulB(q), MulE(q), Mul9(q), MulD(q)),
      Col(MulD(r), MulB(r), MulE(r), Mul9(r)), Col(Mul9(s), MulD(s), MulB(s), MulE(s)));
    Sum4Rotate(Mul9(p), MulE(q), MulB(r), MulD(s));
    Sum4Rotate(MulD(p), Mul9(q), MulE(r), MulB(s));
    Sum4Rotate(MulB(p), MulD(q), Mul9(r), MulE(s));
  }

  /** Four doublings at once: the carries of the four bytes are spread into masks that select the polynomial. */
  function Double4(w: bv32): bv32 {
    var m := w & 0x80808080;
    ((w & 0x7f7f7f7f) << 1) ^ ((m - (m >> 7)) & 0x1b1b1b1b)
  }

  lemma CarryBits(w: bv32)
    ensures var m := w & 0x80808080;
            (m - (m >> 7)) & 0x1b1b1b1b == (m >> 7) ^ (m >> 6) ^ (m >> 4) ^ (m >> 3)
  {
  }

  lemma XtBits(b: bv8)
    ensures Xt(b) == (b << 1) ^ (b >> 7) ^ ((b >> 7) << 1) ^ ((b >> 7) << 3) ^ ((b >> 7) << 4)
  {
  }

  lemma Double4Bits(a: bv8, b: bv8, c: bv8, d: bv8)
    ensures Double4(PackBits(a, b, c, d)) == PackBits(Xt(a), Xt(b), Xt(c), Xt(d))
  {
    CarryBits(PackBits(a, b, c, d));
    XtBits(a);
    XtBits(b);
    XtBits(c);
    XtBits(d);
    hide Xt;
  }

  // ROTATE(w, n), spelled with shifts.
  function Rotate8(w: bv32): bv32 { (w >> 24) ^ (w << 8) }
  function Rotate16(w: bv32): bv32 { (w >> 16) ^ (w << 16) }
  function Rotate24(w: bv32): bv32 { (w >> 8) ^ (w << 24) }

  /** The four multiples, rotated into place with shifts and added up. */
  function Rotated(tp9: bv32, tpb: bv32, tpd: bv32, tpe: bv32): bv32 {
    tpe ^ (tpd >> 16) ^ (tpd << 16) ^ (tp9 >> 8) ^ (tp9 << 24) ^ (tpb >> 24) ^ (tpb << 8)
  }

  function Multiples(tp1: bv32, tp2: bv32, tp4: bv32, tp8: bv32): bv32 {
    var tp9 := Xor(tp8, tp1);
    var tpb := Xor(tp9, tp2);
    var tpd := Xor(tp9, tp4);
    var tpe := Xor(Xor(tp8, tp4), tp2);
    Rotated(tp9, tpb, tpd, tpe)
  }

  /** The inner loop body of the AES_ASM build. */
  function InvMixPacked(tp1: bv32): bv32 {
    var tp2 := Double4(tp1);
    var tp4 := Double4(tp2);
    var tp8 := Double4(tp4);
    Multiples(tp1, tp2, tp4, tp8)
  }

  lemma Rotate16Bytes(a: bv8, b: bv8, c: bv8, d: bv8)
    ensures Rotate16(PackBits(a, b, c, d)) == PackBits(c, d, a, b)
  {
  }

  lemma Rotate24Bytes(a: bv8, b: bv8, c: bv8, d: bv8)
    ensures Rotate24(PackBits(a, b, c, d)) == PackBits(d, a, b, c)
  {
  }

  lemma Rotate8Bytes(a: bv8, b: bv8, c: bv8, d: bv8)
    ensures Rotate8(PackBits(a, b, c, d)) == PackBits(b, c, d, a)
  {
  }

  lemma RotatedIs(tp9: bv32, tpb: bv32, tpd: bv32, tpe: bv32)
    ensures Rotated(tp9, tpb, tpd, tpe) == Xor(Xor(Xor(tpe, Rotate8(tpb)), Rotate16(tpd)), Rotate24(tp9))
  {
  }

  lemma Double4Is(s: Col)
    ensures Double4(Pack(s)) == Pack(MapCol(Xtime, s))
  {
    hide Double4, PackBits, Xt;
    Double4Bits(s.a.v, s.b.v, s.c.v, s.d.v);
  }

  lemma PackXor(s: Col, t: Col)
    ensures Xor(Pack(s), Pack(t)) == Pack(PlusCol(s, t))
  {
    hide Pack, PlusCol;
    PackPlus(s, t);
  }

  function SumCol3(s: Col, t: Col, u: Col): Col {
    Col(Sum3(s.a, t.a, u.a), Sum3(s.b, t.b, u.b), Sum3(s.c, t.c, u.c), Sum3(s.d, t.d, u.d))
  }

  lemma PackPlus3(s: Col, t: Col, u: Col)
    ensures Xor(Xor(Pack(s), Pack(t)), Pack(u)) == Pack(SumCol3(s, t, u)) == Pack(SumCol3(s, u, t))
  {
    hide Pack, Xor, Xor2;
    PackXor(s, t);
    PackXor(PlusCol(s, t), u);
    Sum3Swap(s.a, t.a, u.a);
    Sum3Swap(s.b, t.b, u.b);
    Sum3Swap(s.c, t.c, u.c);
    Sum3Swap(s.d, t.d, u.d);
  }

  lemma PackXor4(p: Col, q: Col, r: Col, s: Col)
    ensures Xor(Xor(Xor(Pack(p), Pack(q)), Pack(r)), Pack(s)) == Pack(SumCol(p, q, r, s))
  {
    hide Pack, Xor, Xor2;
    PackXor(p, q);
    PackXor(PlusCol(p, q), r);
    PackXor(PlusCol(PlusCol(p, q), r), s);
  }

  lemma Sum3Swap(x: Byte, y: Byte, z: Byte)
    ensures Sum3(x, y, z) == Sum3(x, z, y)
  {
    hide Xor2;
    XorAssociates(x.v, y.v, z.v);
    XorCommutes(y.v, z.v);
    XorAssociates(x.v, z.v, y.v);
  }

  lemma MultipleIs9(s: Col, c1: Col, c2: Col, c3: Col)
    requires c1 == MapCol(Xtime, s) && c2 == MapCol(Xtime, c1) && c3 == MapCol(Xtime, c2)
    ensures Xor(Pack(c3), Pack(s)) == Pack(MapCol(Mul9, s))
  {
    hide Pack, Xtime, Plus, Xor;
    PackXor(c3, s);
  }

  lemma MultipleIsB(s: Col, c1: Col, c2: Col, c3: Col)
    requires c1 == MapCol(Xtime, s) && c2 == MapCol(Xtime, c1) && c3 == MapCol(Xtime, c2)
    ensures Xor(Xor(Pack(c3), Pack(s)), Pack(c1)) == Pack(MapCol(MulB, s))
  {
    hide Pack, Xtime, Sum3, Xor;
    PackPlus3(c3, s, c1);
  }

  lemma MultipleIsD(s: Col, c1: Col, c2: Col, c3: Col)
    requires c1 == MapCol(Xtime, s) && c2 == MapCol(Xtime, c1) && c3 == MapCol(Xtime, c2)
    ensures Xor(Xor(Pack(c3), Pack(s)), Pack(c2)) == Pack(MapCol(MulD, s))
  {
    hide Pack, Xtime, Sum3, Xor;
    PackPlus3(c3, s, c2);
  }

  lemma MultipleIsE(s: Col, c1: Col, c2: Col, c3: Col)
    requires c1 == MapCol(Xtime, s) && c2 == MapCol(Xtime, c1) && c3 == MapCol(Xtime, c2)
    ensures Xor(Xor(Pack(c3), Pack(c2)), Pack(c1)) == Pack(MapCol(MulE, s))
  {
    hide Pack, Xtime, Sum3, Xor;
    PackPlus3(c3, c2, c1);
  }

  /** The multiples of a packed column, from its three doublings. */
  lemma MultiplesAre(s: Col)
    ensures var c1 := MapCol(Xtime, s);
            var c2 := MapCol(Xtime, c1);
            var c3 := MapCol(Xtime, c2);
            Multiples(Pack(s), Pack(c1), Pack(c2), Pack(c3))
            == Rotated(Pack(MapCol(Mul9, s)), Pack(MapCol(MulB, s)), Pack(MapCol(MulD, s)), Pack(MapCol(MulE, s)))
  {
    hide Pack, MapCol, Rotated, Xor;
    var c1 := MapCol(Xtime, s);
    var c2 := MapCol(Xtime, c1);
    var c3 := MapCol(Xtime, c2);
    MultipleIs9(s, c1, c2, c3);
    MultipleIsB(s, c1, c2, c3);
    MultipleIsD(s, c1, c2, c3);
    MultipleIsE(s, c1, c2, c3);
  }

  /** The AES_ASM build computes the same word as the table build. */
  lemma InvMixPackedIs(w: bv32)
    ensures InvMixPacked(w) == InvMixWord(w)
  {
    hide Pack, Unpack, Double4, Xtime, Mul9, MulB, MulD, MulE, InvMixCol, Multiples, Rotated, MapCol;
    var s := Unpack(w);
    PackUnpack(w);
    Double4Is(s);
    Double4Is(MapCol(Xtime, s));
    Double4Is(MapCol(Xtime, MapCol(Xtime, s)));
    MultiplesAre(s);
    PackedSum(s);
  }

  lemma PackedSum(s: Col)
    ensures Rotated(Pack(MapCol(Mul9, s)), Pack(MapCol(MulB, s)), Pack(MapCol(MulD, s)), Pack(MapCol(MulE, s)))
            == Pack(InvMixCol(s))
  {
    hide PackBits, Mul9, MulB, MulD, MulE, Sum4, Rotated, Rotate8, Rotate16, Rotate24, Xor;
    var e, b, d, n := MapCol(MulE, s), MapCol(MulB, s), MapCol(MulD, s), MapCol(Mul9, s);
    Rotate16Bytes(d.a.v, d.b.v, d.c.v, d.d.v);
    Rotate24Bytes(n.a.v, n.b.v, n.c.v, n.d.v);
    Rotate8Bytes(b.a.v, b.b.v, b.c.v, b.d.v);
    RotatedIs(Pack(n), Pack(b), Pack(d), Pack(e));
    PackXor4(e, Col(b.b, b.c, b.d, b.a), Col(d.c, d.d, d.a, d.b), Col(n.d, n.a, n.b, n.c));
  }
}
