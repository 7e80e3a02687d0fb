// GF(2^8) as AES uses it (sections 4.1 to 4.3 of FIPS 197). Bytes are wrapped so that
// field algebra can be done without looking at bits.

module Gf {
  datatype Byte = Byte(v: bv8)

  const ZERO := Byte(0)

  function Plus(x: Byte, y: Byte): Byte { Byte(Xor2(x.v, y.v)) }

  function Sum3(x: Byte, y: Byte, z: Byte): Byte { Byte(Xor3(x.v, y.v, z.v)) }

  function Sum4(x: Byte, y: Byte, z: Byte, u: Byte): Byte { Byte(Xor4(x.v, y.v, z.v, u.v)) }

  function Xor2(x: bv8, y: bv8): bv8 { x ^ y }
  function Xor3(x: bv8, y: bv8, z: bv8): bv8 { Xor2(Xor2(x, y), z) }
  function Xor4(x: bv8, y: bv8, z: bv8, u: bv8): bv8 { Xor2(Xor3(x, y, z), u) }

  /** Multiplication by {02}. */
  function Xtime(x: Byte): Byte { Byte(Xt(x.v)) }

  function Xt(b: bv8): bv8 { (b << 1) ^ ((b >> 7) * 0x1b) }

  function Mul3(x: Byte): Byte { Plus(Xtime(x), x) }
  function Mul9(x: Byte): Byte { Plus(Xtime(Xtime(Xtime(x))), x) }
  function MulB(x: Byte): Byte { Sum3(Xtime(Xtime(Xtime(x))), Xtime(x), x) }
  function MulD(x: Byte): Byte { Sum3(Xtime(Xtime(Xtime(x))), Xtime(Xtime(x)), x) }
  function MulE(x: Byte): Byte { Sum3(Xtime(Xtime(Xtime(x))), Xtime(Xtime(x)), Xtime(x)) }

  lemma XorCommutes(x: bv8, y: bv8)
    ensures Xor2(x, y) == Xor2(y, x)
  {}

  lemma XorAssociates(x: bv8, y: bv8, z: bv8)
    ensures Xor2(Xor2(x, y), z) == Xor2(x, Xor2(y, z))
  {}

  lemma Regroup2(x: bv8, y: bv8, x': bv8, y': bv8)
    ensures Xor2(Xor2(x, x'), Xor2(y, y')) == Xor2(Xor2(x, y), Xor2(x', y'))
  {
    hide Xor2;
    XorAssociates(x, x', Xor2(y, y'));
    XorAssociates(x', y, y');
    XorCommutes(x', y);
    XorAssociates(y, x', y');
    XorAssociates(x, y, Xor2(x', y'));
  }

  lemma Regroup3(x: bv8, y: bv8, z: bv8, x': bv8, y': bv8, z': bv8)
    ensures Xor3(Xor2(x, x'), Xor2(y, y'), Xor2(z, z')) == Xor2(Xor3(x, y, z), Xor3(x', y', z'))
  {
    hide Xor2;
    Regroup2(x, y, x', y');
    Regroup2(Xor2(x, y), z, Xor2(x', y'), z');
  }

  lemma Regroup4(x: bv8, y: bv8, z: bv8, u: bv8, x': bv8, y': bv8, z': bv8, u': bv8)
    ensures Xor4(Xor2(x, x'), Xor2(y, y'), Xor2(z, z'), Xor2(u, u')) == Xor2(Xor4(x, y, z, u), Xor4(x', y', z', u'))
  {
    hide Xor2;
    Regroup3(x, y, z, x', y', z');
    Regroup2(Xor3(x, y, z), u, Xor3(x', y', z'), u');
  }

  lemma Sum2Plus(x: Byte, y: Byte, x': Byte, y': Byte)
    ensures Plus(Plus(x, x'), Plus(y, y')) == Plus(Plus(x, y), Plus(x', y'))
  {
    hide Xor2;
    Regroup2(x.v, y.v, x'.v, y'.v);
  }

  lemma Sum3Plus(x: Byte, y: Byte, z: Byte, x': Byte, y': Byte, z': Byte)
    ensures Sum3(Plus(x, x'), Plus(y, y'), Plus(z, z')) == Plus(Sum3(x, y, z), Sum3(x', y', z'))
  {
    hide Xor2, Xor3;
    Regroup3(x.v, y.v, z.v, x'.v, y'.v, z'.v);
  }

  lemma Sum4Plus(x: Byte, y: Byte, z: Byte, u: Byte, x': Byte, y': Byte, z': Byte, u': Byte)
    ensures Sum4(Plus(x, x'), Plus(y, y'), Plus(z, z'), Plus(u, u')) == Plus(Sum4(x, y, z, u), Sum4(x', y', z', u'))
  {
    hide Xor2, Xor4;
    Regroup4(x.v, y.v, z.v, u.v, x'.v, y'.v, z'.v, u'.v);
  }

  lemma XtimePlus(x: Byte, y: Byte)
    ensures Xtime(Plus(x, y)) == Plus(Xtime(x), Xtime(y))
  {}

  /** Multiplication by a constant distributes over addition. */
  lemma MulPlus(x: Byte, y: Byte)
    ensures Mul9(Plus(x, y)) == Plus(Mul9(x), Mul9(y))
    ensures MulB(Plus(x, y)) == Plus(MulB(x), MulB(y))
    ensures MulD(Plus(x, y)) == Plus(MulD(x), MulD(y))
    ensures MulE(Plus(x, y)) == Plus(MulE(x), MulE(y))
  {
    hide Plus, Sum3, Xtime;
    var x1, y1 := Xtime(x), Xtime(y);
    var x2, y2 := Xtime(x1), Xtime(y1);
    var x3, y3 := Xtime(x2), Xtime(y2);
    XtimePlus(x, y);
    XtimePlus(x1, y1);
    XtimePlus(x2, y2);
    Sum2Plus(x3, x, y3, y);
    Sum3Plus(x3, x1, x, y3, y1, y);
    Sum3Plus(x3, x2, x, y3, y2, y);
    Sum3Plus(x3, x2, x1, y3, y2, y1);
  }

  datatype Col = Col(a: Byte, b: Byte, c: Byte, d: Byte)

  function PlusCol(s: Col, t: Col): Col { Col(Plus(s.a, t.a), Plus(s.b, t.b), Plus(s.c, t.c), Plus(s.d, t.d)) }

  function MixRow(a: Byte, b: Byte, c: Byte, d: Byte): Byte { Sum4(Xtime(a), Mul3(b), c, d) }
  function InvRow(a: Byte, b: Byte, c: Byte, d: Byte): Byte { Sum4(MulE(a), MulB(b), MulD(c), Mul9(d)) }

  /** One column of MixColumns (section 5.1.3). */
  function MixCol(s: Col): Col {
    Col(MixRow(s.a, s.b, s.c, s.d), MixRow(s.b, s.c, s.d, s.a), MixRow(s.c, s.d, s.a, s.b), MixRow(s.d, s.a, s.b, s.c))
  }

  /** One column of InvMixColumns (section 5.3.3). */
  function InvMixCol(s: Col): Col {
    Col(InvRow(s.a, s.b, s.c, s.d), InvRow(s.b, s.c, s.d, s.a), InvRow(s.c, s.d, s.a, s.b), InvRow(s.d, s.a, s.b, s.c))
  }

  lemma InvRowPlus(a: Byte, b: Byte, c: Byte, d: Byte, a': Byte, b': Byte, c': Byte, d': Byte)
    ensures InvRow(Plus(a, a'), Plus(b, b'), Plus(c, c'), Plus(d, d')) == Plus(InvRow(a, b, c, d), InvRow(a', b', c', d'))
  {
    hide Plus, Sum4, MulE, MulB, MulD, Mul9;
    MulPlus(a, a');
    MulPlus(b, b');
    MulPlus(c, c');
    MulPlus(d, d');
    Sum4Plus(MulE(a), MulB(b), MulD(c), Mul9(d), MulE(a'), MulB(b'), MulD(c'), Mul9(d'));
  }

  lemma InvMixColPlus(s: Col, t: Col)
    ensures InvMixCol(PlusCol(s, t)) == PlusCol(InvMixCol(s), InvMixCol(t))
  {
    hide Plus, InvRow;
    InvRowPlus(s.a, s.b, s.c, s.d, t.a, t.b, t.c, t.d);
    InvRowPlus(s.b, s.c, s.d, s.a, t.b, t.c, t.d, t.a);
    InvRowPlus(s.c, s.d, s.a, s.b, t.c, t.d, t.a, t.b);
    InvRowPlus(s.d, s.a, s.b, s.c, t.d, t.a, t.b, t.c);
  }

  // The same products on bare bits, where the solver can compute.
  function BitsE(b: bv8): bv8 { Xt(Xt(Xt(b))) ^ Xt(Xt(b)) ^ Xt(b) }
  function BitsB(b: bv8): bv8 { Xt(Xt(Xt(b))) ^ Xt(b) ^ b }
  function BitsD(b: bv8): bv8 { Xt(Xt(Xt(b))) ^ Xt(Xt(b)) ^ b }
  function Bits9(b: bv8): bv8 { Xt(Xt(Xt(b))) ^ b }
  function Row(a: bv8, b: bv8, c: bv8, d: bv8): bv8 { BitsE(a) ^ BitsB(b) ^ BitsD(c) ^ Bits9(d) }

  lemma MulEIsBits(x: Byte)
    ensures MulE(x) == Byte(BitsE(x.v))
  {
    hide Xt;
  }

  lemma MulBIsBits(x: Byte)
    ensures MulB(x) == Byte(BitsB(x.v))
  {
    hide Xt;
  }

  lemma MulDIsBits(x: Byte)
    ensures MulD(x) == Byte(BitsD(x.v))
  {
    hide Xt;
  }

  lemma Mul9IsBits(x: Byte)
    ensures Mul9(x) == Byte(Bits9(x.v))
  {
    hide Xt;
  }

  lemma RowIs(a: Byte, b: Byte, c: Byte, d: Byte)
    ensures InvRow(a, b, c, d) == Byte(Row(a.v, b.v, c.v, d.v))
  {
    hide MulE, MulB, MulD, Mul9, BitsE, BitsB, BitsD, Bits9;
    MulEIsBits(a);
    MulBIsBits(b);
    MulDIsBits(c);
    Mul9IsBits(d);
  }

  lemma Coefficient0(x: bv8)
    ensures Row(Xt(x), x, x, Xt(x) ^ x) == x
  {}

  lemma Coefficient1(x: bv8)
    ensures Row(Xt(x) ^ x, Xt(x), x, x) == 0
  {}

  lemma Coefficient2(x: bv8)
    ensures Row(x, Xt(x) ^ x, Xt(x), x) == 0
  {}

  lemma Coefficient3(x: bv8)
    ensures Row(x, x, Xt(x) ^ x, Xt(x)) == 0
  {}

  /** The products of the two coefficient circulants: {02}{0e}+{01}{0b}+{01}{0d}+{03}{09} = {01}, the other three are 0. */
  lemma Coefficients(x: Byte)
    ensures InvRow(Xtime(x), x, x, Mul3(x)) == x
    ensures InvRow(Mul3(x), Xtime(x), x, x) == ZERO
    ensures InvRow(x, Mul3(x), Xtime(x), x) == ZERO
    ensures InvRow(x, x, Mul3(x), Xtime(x)) == ZERO
  {
    RowIs(Xtime(x), x, x, Mul3(x));
    RowIs(Mul3(x), Xtime(x), x, x);
    RowIs(x, Mul3(x), Xtime(x), x);
    RowIs(x, x, Mul3(x), Xtime(x));
    Coefficient0(x.v);
    Coefficient1(x.v);
    Coefficient2(x.v);
    Coefficient3(x.v);
    hide Xt, Row, InvRow;
  }

  lemma Sum4Pairs(a: Byte, b: Byte, c: Byte, d: Byte)
    ensures Sum4(a, b, c, d) == Plus(Plus(a, b), Plus(c, d))
    ensures Sum4(b, c, d, a) == Plus(Plus(a, b), Plus(c, d))
    ensures Sum4(c, d, a, b) == Plus(Plus(a, b), Plus(c, d))
    ensures Sum4(d, a, b, c) == Plus(Plus(a, b), Plus(c, d))
  {
    hide Xor2, Xor4;
    Xor4Rotates(a.v, b.v, c.v, d.v);
    Xor4Rotates(b.v, c.v, d.v, a.v);
    Xor4Rotates(c.v, d.v, a.v, b.v);
  }

  lemma Xor4Rotates(a: bv8, b: bv8, c: bv8, d: bv8)
    ensures Xor4(a, b, c, d) == Xor4(b, c, d, a) == Xor2(Xor2(a, b), Xor2(c, d))
  {
    hide Xor2;
    XorAssociates(Xor2(a, b), c, d);
    XorCommutes(Xor3(b, c, d), a);
    XorAssociates(b, c, d);
    XorAssociates(a, b, Xor2(c, d));
  }

  lemma PlusZero(x: Byte)
    ensures Plus(x, ZERO) == x && Plus(ZERO, ZERO) == ZERO
  {}

  lemma InvRowOfMix(a: Byte, b: Byte, c: Byte, d: Byte)
    ensures InvRow(MixRow(a, b, c, d), MixRow(b, c, d, a), MixRow(c, d, a, b), MixRow(d, a, b, c)) == a
  {
    hide Plus, Sum4, InvRow, Xtime, Mul3;
    var a2, a3, b2, b3, c2, c3, d2, d3 := Xtime(a), Mul3(a), Xtime(b), Mul3(b), Xtime(c), Mul3(c), Xtime(d), Mul3(d);
    Sum4Pairs(a2, b3, c, d);
    Sum4Pairs(a, b2, c3, d);
    Sum4Pairs(a, b, c2, d3);
    Sum4Pairs(a3, b, c, d2);
    InvRowPlus(Plus(a2, b3), Plus(a, b2), Plus(a, b), Plus(a3, b), Plus(c, d), Plus(c3, d), Plus(c2, d3), Plus(c, d2));
    InvRowPlus(a2, a, a, a3, b3, b2, b, b);
    InvRowPlus(c, c3, c2, c, d, d, d3, d2);
    Coefficients(a);
    Coefficients(b);
    Coefficients(c);
    Coefficients(d);
    PlusZero(a);
  }

  lemma InvMixColOfMixCol(s: Col)
    ensures InvMixCol(MixCol(s)) == s
  {
    hide InvRow, MixRow;
    InvRowOfMix(s.a, s.b, s.c, s.d);
    InvRowOfMix(s.b, s.c, s.d, s.a);
    InvRowOfMix(s.c, s.d, s.a, s.b);
    InvRowOfMix(s.d, s.a, s.b, s.c);
  }
}
