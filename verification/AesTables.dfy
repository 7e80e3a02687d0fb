// 32-bit words as columns of four bytes, and the lookup tables of
// openssl/aes_core.c generated by their own recipe (aes_core.c:45-54).

module AesTables {
  import opened Gf

  /** A substitution box and its inverse. The tables of the original are one such pair. */
  datatype SBox = SBox(S: Byte -> Byte, Si: Byte -> Byte)
  {
    ghost predicate Valid() {
      (forall x :: Si(S(x)) == x) && (forall x :: S(Si(x)) == x)
    }
  }

  function PackBits(a: bv8, b: bv8, c: bv8, d: bv8): bv32 {
    ((a as bv32) << 24) ^ ((b as bv32) << 16) ^ ((c as bv32) << 8) ^ (d as bv32)
  }

  /** GETU32: the column as a big-endian word. */
  function Pack(s: Col): bv32 { PackBits(s.a.v, s.b.v, s.c.v, s.d.v) }

  function Bits0(w: bv32): bv8 { (w >> 24) as bv8 }
  function Bits1(w: bv32): bv8 { ((w >> 16) & 0xff) as bv8 }
  function Bits2(w: bv32): bv8 { ((w >> 8) & 0xff) as bv8 }
  function Bits3(w: bv32): bv8 { (w & 0xff) as bv8 }

  function Byte0(w: bv32): Byte { Byte(Bits0(w)) }
  function Byte1(w: bv32): Byte { Byte(Bits1(w)) }
  function Byte2(w: bv32): Byte { Byte(Bits2(w)) }
  function Byte3(w: bv32): Byte { Byte(Bits3(w)) }

  /** PUTU32. */
  function Unpack(w: bv32): Col { Col(Byte0(w), Byte1(w), Byte2(w), Byte3(w)) }

  lemma BitsOfPack(a: bv8, b: bv8, c: bv8, d: bv8)
    ensures Bits0(PackBits(a, b, c, d)) == a && Bits1(PackBits(a, b, c, d)) == b
    ensures Bits2(PackBits(a, b, c, d)) == c && Bits3(PackBits(a, b, c, d)) == d
  {}

  lemma PackOfBits(w: bv32)
    ensures PackBits(Bits0(w), Bits1(w), Bits2(w), Bits3(w)) == w
  {}

  lemma PackBitsXor(a: bv8, b: bv8, c: bv8, d: bv8, a': bv8, b': bv8, c': bv8, d': bv8)
    ensures PackBits(a, b, c, d) ^ PackBits(a', b', c', d') == PackBits(Xor2(a, a'), Xor2(b, b'), Xor2(c, c'), Xor2(d, d'))
  {}

  lemma UnpackPack(s: Col)
    ensures Unpack(Pack(s)) == s
  {
    hide Bits0, Bits1, Bits2, Bits3, PackBits;
    BitsOfPack(s.a.v, s.b.v, s.c.v, s.d.v);
  }

  lemma PackUnpack(w: bv32)
    ensures Pack(Unpack(w)) == w
  {
    hide Bits0, Bits1, Bits2, Bits3, PackBits;
    PackOfBits(w);
  }

  lemma PackPlus(s: Col, t: Col)
    ensures Pack(PlusCol(s, t)) == Pack(s) ^ Pack(t)
  {
    hide PackBits, Xor2;
    PackBitsXor(s.a.v, s.b.v, s.c.v, s.d.v, t.a.v, t.b.v, t.c.v, t.d.v);
  }

  // Te0[x] = S[x].[02, 01, 01, 03] and its rotations; Td0[x] = Si[x].[0e, 09, 0d, 0b] and its rotations.
  function Te0(sb: SBox, x: Byte): bv32 { var s := sb.S(x); Pack(Col(Xtime(s), s, s, Mul3(s))) }
  function Te1(sb: SBox, x: Byte): bv32 { var s := sb.S(x); Pack(Col(Mul3(s), Xtime(s), s, s)) }
  function Te2(sb: SBox, x: Byte): bv32 { var s := sb.S(x); Pack(Col(s, Mul3(s), Xtime(s), s)) }
  function Te3(sb: SBox, x: Byte): bv32 { var s := sb.S(x); Pack(Col(s, s, Mul3(s), Xtime(s))) }

  function Td0(sb: SBox, x: Byte): bv32 { var s := sb.Si(x); Pack(Col(MulE(s), Mul9(s), MulD(s), MulB(s))) }
  function Td1(sb: SBox, x: Byte): bv32 { var s := sb.Si(x); Pack(Col(MulB(s), MulE(s), Mul9(s), MulD(s))) }
  function Td2(sb: SBox, x: Byte): bv32 { var s := sb.Si(x); Pack(Col(MulD(s), MulB(s), MulE(s), Mul9(s))) }
  function Td3(sb: SBox, x: Byte): bv32 { var s := sb.Si(x); Pack(Col(Mul9(s), MulD(s), MulB(s), MulE(s))) }
  function Td4(sb: SBox, x: Byte): Byte { sb.Si(x) }

  /** One table-lookup word of an encryption round. */
  function EncWord(sb: SBox, w0: bv32, w1: bv32, w2: bv32, w3: bv32, key: bv32): bv32 {
    Te0(sb, Byte0(w0)) ^ Te1(sb, Byte1(w1)) ^ Te2(sb, Byte2(w2)) ^ Te3(sb, Byte3(w3)) ^ key
  }

  /** One word of the last encryption round. */
  function EncLastWord(sb: SBox, w0: bv32, w1: bv32, w2: bv32, w3: bv32, key: bv32): bv32 {
    (Te2(sb, Byte0(w0)) & 0xff000000) ^ (Te3(sb, Byte1(w1)) & 0x00ff0000) ^
    (Te0(sb, Byte2(w2)) & 0x0000ff00) ^ (Te1(sb, Byte3(w3)) & 0x000000ff) ^ key
  }

  function DecWord(sb: SBox, w0: bv32, w1: bv32, w2: bv32, w3: bv32, key: bv32): bv32 {
    Td0(sb, Byte0(w0)) ^ Td1(sb, Byte1(w1)) ^ Td2(sb, Byte2(w2)) ^ Td3(sb, Byte3(w3)) ^ key
  }

  function DecLastWord(sb: SBox, w0: bv32, w1: bv32, w2: bv32, w3: bv32, key: bv32): bv32 {
    ((Td4(sb, Byte0(w0)).v as bv32) << 24) ^ ((Td4(sb, Byte1(w1)).v as bv32) << 16) ^
    ((Td4(sb, Byte2(w2)).v as bv32) << 8) ^ (Td4(sb, Byte3(w3)).v as bv32) ^ key
  }

  function SumCol(p: Col, q: Col, r: Col, s: Col): Col {
    Col(Sum4(p.a, q.a, r.a, s.a), Sum4(p.b, q.b, r.b, s.b), Sum4(p.c, q.c, r.c, s.c), Sum4(p.d, q.d, r.d, s.d))
  }

  lemma PackSumBits(p: Col, q: Col, r: Col, s: Col)
    ensures Pack(p) ^ Pack(q) ^ Pack(r) ^ Pack(s) == Pack(SumCol(p, q, r, s))
  {}

  lemma PackSum(p: Col, q: Col, r: Col, s: Col, key: bv32)
    ensures Unpack(Pack(p) ^ Pack(q) ^ Pack(r) ^ Pack(s) ^ key) == PlusCol(SumCol(p, q, r, s), Unpack(key))
  {
    hide Pack, Unpack, SumCol, PlusCol;
    PackSumBits(p, q, r, s);
    PackUnpack(key);
    PackPlus(SumCol(p, q, r, s), Unpack(key));
    UnpackPack(PlusCol(SumCol(p, q, r, s), Unpack(key)));
  }

  lemma Sum4Rotate(a: Byte, b: Byte, c: Byte, d: Byte)
    ensures Sum4(a, b, c, d) == Sum4(b, c, d, a) == Sum4(c, d, a, b) == Sum4(d, a, b, c)
  {
    Sum4Pairs(a, b, c, d);
    hide Sum4;
  }

  /** The four lookups are one column of MixColumns after SubBytes, plus the key. */
  lemma EncWordIs(sb: SBox, w0: bv32, w1: bv32, w2: bv32, w3: bv32, key: bv32)
    ensures Unpack(EncWord(sb, w0, w1, w2, w3, key))
            == PlusCol(MixCol(Col(sb.S(Byte0(w0)), sb.S(Byte1(w1)), sb.S(Byte2(w2)), sb.S(Byte3(w3)))), Unpack(key))
  {
    hide Pack, Unpack, PlusCol, Byte0, Byte1, Byte2, Byte3, Sum4, Xtime, Mul3;
    var p, q, r, s := sb.S(Byte0(w0)), sb.S(Byte1(w1)), sb.S(Byte2(w2)), sb.S(Byte3(w3));
    PackSum(Col(Xtime(p), p, p, Mul3(p)), Col(Mul3(q), Xtime(q), q, q), Col(r, Mul3(r), Xtime(r), r), Col(s, s, Mul3(s), Xtime(s)), key);
    Sum4Rotate(p, Xtime(q), Mul3(r), s);
    Sum4Rotate(p, q, Xtime(r), Mul3(s));
    Sum4Rotate(Mul3(p), q, r, Xtime(s));
  }

  /** ... and of InvMixColumns after InvSubBytes. */
  lemma DecWordIs(sb: SBox, w0: bv32, w1: bv32, w2: bv32, w3: bv32, key: bv32)
    ensures Unpack(DecWord(sb, w0, w1, w2, w3, key))
            == PlusCol(InvMixCol(Col(sb.Si(Byte0(w0)), sb.Si(Byte1(w1)), sb.Si(Byte2(w2)), sb.Si(Byte3(w3)))), Unpack(key))
  {
    hide Pack, Unpack, PlusCol, Byte0, Byte1, Byte2, Byte3, Sum4, MulE, MulB, MulD, Mul9;
    var p, q, r, s := sb.Si(Byte0(w0)), sb.Si(Byte1(w1)), sb.Si(Byte2(w2)), sb.Si(Byte3(w3));
    PackSum(Col(MulE(p), Mul9(p), MulD(p), MulB(p)), Col(MulB(q), MulE(q), Mul9(q), MulD(q)),
      Col(MulD(r), MulB(r), MulE(r), Mul9(r)), Col(Mul9(s), MulD(s), MulB(s), MulE(s)), key);
    Sum4Rotate(Mul9(p), MulE(q), MulB(r), MulD(s));
    Sum4Rotate(MulD(p), Mul9(q), MulE(r), MulB(s));
    Sum4Rotate(MulB(p), MulD(q), Mul9(r), MulE(s));
  }

  lemma MaskBits(a: bv8, b: bv8, c: bv8, d: bv8)
    ensures PackBits(a, b, c, d) & 0xff000000 == (a as bv32) << 24
    ensures PackBits(a, b, c, d) & 0x00ff0000 == (b as bv32) << 16
    ensures PackBits(a, b, c, d) & 0x0000ff00 == (c as bv32) << 8
    ensures PackBits(a, b, c, d) & 0x000000ff == d as bv32
  {}

  /** The masked lookups are SubBytes alone. */
  lemma EncLastWordIs(sb: SBox, w0: bv32, w1: bv32, w2: bv32, w3: bv32, key: bv32)
    ensures Unpack(EncLastWord(sb, w0, w1, w2, w3, key))
            == PlusCol(Col(sb.S(Byte0(w0)), sb.S(Byte1(w1)), sb.S(Byte2(w2)), sb.S(Byte3(w3))), Unpack(key))
  {
    hide Unpack, PlusCol, Byte0, Byte1, Byte2, Byte3, Xtime, Mul3;
    var p, q, r, s := sb.S(Byte0(w0)), sb.S(Byte1(w1)), sb.S(Byte2(w2)), sb.S(Byte3(w3));
    MaskBits(p.v, Mul3(p).v, Xtime(p).v, p.v);
    MaskBits(q.v, q.v, Mul3(q).v, Xtime(q).v);
    MaskBits(Xtime(r).v, r.v, r.v, Mul3(r).v);
    MaskBits(Mul3(s).v, Xtime(s).v, s.v, s.v);
    PackKey(Col(p, q, r, s), key);
  }

  lemma PackKey(s: Col, key: bv32)
    ensures Unpack(Pack(s) ^ key) == PlusCol(s, Unpack(key))
  {
    hide Pack, Unpack, PlusCol;
    PackUnpack(key);
    PackPlus(s, Unpack(key));
    UnpackPack(PlusCol(s, Unpack(key)));
  }

  lemma DecLastWordIs(sb: SBox, w0: bv32, w1: bv32, w2: bv32, w3: bv32, key: bv32)
    ensures Unpack(DecLastWord(sb, w0, w1, w2, w3, key))
            == PlusCol(Col(sb.Si(Byte0(w0)), sb.Si(Byte1(w1)), sb.Si(Byte2(w2)), sb.Si(Byte3(w3))), Unpack(key))
  {
    hide Unpack, PlusCol, Byte0, Byte1, Byte2, Byte3;
    PackKey(Col(sb.Si(Byte0(w0)), sb.Si(Byte1(w1)), sb.Si(Byte2(w2)), sb.Si(Byte3(w3))), key);
  }
}
