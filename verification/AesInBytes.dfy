// The cipher and the key expansion byte by byte, as sections 5.1 and 5.2 of FIPS 197 write them, and
// example values of its appendices.

module AesInBytes {
  import opened Gf
  import opened AesTables
  import opened Fips197
  import opened AesKeys
  import opened AesCore

  // ----- the state as a square of bytes --------------------------------

  function Row(s: Col, r: int): Byte
    requires 0 <= r < 4
  {
    if r == 0 then s.a else if r == 1 then s.b else if r == 2 then s.c else s.d
  }

  /** Row r, column c. */
  function Cell(s: State, r: int, c: int): Byte
    requires 0 <= r < 4 && 0 <= c < 4
  {
    Row(if c == 0 then s.c0 else if c == 1 then s.c1 else if c == 2 then s.c2 else s.c3, r)
  }

  /** Byte r of a big-endian word. */
  function Octet(w: bv32, r: int): Byte
    requires 0 <= r < 4
  {
    if r == 0 then Byte((w >> 24) as bv8) else if r == 1 then Byte(((w >> 16) & 0xff) as bv8)
    else if r == 2 then Byte(((w >> 8) & 0xff) as bv8) else Byte((w & 0xff) as bv8)
  }

  lemma OctetIs(w: bv32, r: int)
    requires 0 <= r < 4
    ensures Row(Unpack(w), r) == Octet(w, r)
  {
  }

  /** Multiplication by {02}: a shift, and {1b} when a bit falls out. */
  lemma XtimeInBits(b: bv8)
    ensures Xtime(Byte(b)) == Byte(if b < 0x80 then b << 1 else (b << 1) ^ 0x1b)
  {
    ShiftOut(b);
  }

  lemma ShiftOut(b: bv8)
    ensures b < 0x80 ==> b >> 7 == 0
    ensures b >= 0x80 ==> b >> 7 == 1
  {
  }

  /** Block byte 4 * c + r is row r of column c (section 3.4). */
  lemma StateInBytes(s: seq<Byte>, i: nat, r: int, c: int)
    requires i + 16 <= |s| && 0 <= r < 4 && 0 <= c < 4
    ensures Cell(LoadState(s, i), r, c) == s[i + 4 * c + r]
  {
  }

  /** What the byte in row r and column c is before MixColumns: row r comes from r columns further on. */
  function Shifted(sb: SBox, s: State, r: int, c: int): Byte
    requires 0 <= r < 4 && 0 <= c < 4
  {
    sb.S(Cell(s, r, (c + r) % 4))
  }

  lemma ShiftInBytes(sb: SBox, s: State, r: int, c: int)
    requires 0 <= r < 4 && 0 <= c < 4
    ensures Cell(ShiftRows(SubBytes(sb.S, s)), r, c) == Shifted(sb, s, r, c)
  {
  }

  lemma MixInBytes(s: State, r: int, c: int)
    requires 0 <= r < 4 && 0 <= c < 4
    ensures var b1, b2, b3 := Cell(s, (r + 1) % 4, c), Cell(s, (r + 2) % 4, c), Cell(s, (r + 3) % 4, c);
            Cell(MixColumns(s), r, c) == Plus(Plus(Xtime(Cell(s, r, c)), Plus(Xtime(b1), b1)), Plus(b2, b3))
  {
    hide Xtime, Sum4, Plus;
    var col := if c == 0 then s.c0 else if c == 1 then s.c1 else if c == 2 then s.c2 else s.c3;
    assert forall k :: 0 <= k < 4 ==> Cell(s, k, c) == Row(col, k);
    Sum4Pairs(Xtime(Row(col, r)), Mul3(Row(col, (r + 1) % 4)), Row(col, (r + 2) % 4), Row(col, (r + 3) % 4));
  }

  lemma KeyInBytes(s: State, w: Words, k: nat, r: int, c: int)
    requires 4 * k + 4 <= |w| && 0 <= r < 4 && 0 <= c < 4
    ensures Cell(AddKey(s, RoundKey(w, k)), r, c) == Plus(Cell(s, r, c), Octet(w[4 * k + c], r))
  {
    hide Plus, Unpack, Octet;
    OctetIs(w[4 * k + c], r);
  }

  /** Before the first round: block and key. */
  lemma StartInBytes(sb: SBox, w: Words, s: State, r: int, c: int)
    requires 4 <= |w| && 0 <= r < 4 && 0 <= c < 4
    ensures Cell(AfterRounds(sb, w, s, 0), r, c) == Plus(Cell(s, r, c), Octet(w[c], r))
  {
    hide AddKey, RoundKey, Octet;
    KeyInBytes(s, w, 0, r, c);
  }

  /** A full round (equation 5.6). */
  lemma RoundInBytes(sb: SBox, w: Words, s: State, k: nat, r: int, c: int)
    requires k > 0 && 4 * k + 4 <= |w| && 0 <= r < 4 && 0 <= c < 4
    ensures var before := AfterRounds(sb, w, s, k - 1);
            var b0, b1 := Shifted(sb, before, r, c), Shifted(sb, before, (r + 1) % 4, c);
            var b2, b3 := Shifted(sb, before, (r + 2) % 4, c), Shifted(sb, before, (r + 3) % 4, c);
            Cell(AfterRounds(sb, w, s, k), r, c)
            == Plus(Plus(Plus(Xtime(b0), Plus(Xtime(b1), b1)), Plus(b2, b3)), Octet(w[4 * k + c], r))
  {
    hide AddKey, MixColumns, ShiftRows, SubBytes, RoundKey, Octet, Plus, Xtime, Cell;
    var before := AfterRounds(sb, w, s, k - 1);
    var t := ShiftRows(SubBytes(sb.S, before));
    ShiftInBytes(sb, before, r, c);
    ShiftInBytes(sb, before, (r + 1) % 4, c);
    ShiftInBytes(sb, before, (r + 2) % 4, c);
    ShiftInBytes(sb, before, (r + 3) % 4, c);
    MixInBytes(t, r, c);
    KeyInBytes(MixColumns(t), w, k, r, c);
  }

  /** The last round has no MixColumns. */
  lemma LastRoundInBytes(sb: SBox, w: Words, nr: nat, s: State, r: int, c: int)
    requires nr > 0 && |w| == 4 * (nr + 1) && 0 <= r < 4 && 0 <= c < 4
    ensures Cell(Cipher(sb, w, nr, s), r, c) == Plus(Shifted(sb, AfterRounds(sb, w, s, nr - 1), r, c), Octet(w[4 * nr + c], r))
  {
    hide AddKey, ShiftRows, SubBytes, RoundKey, Octet, Plus, Cell;
    var before := AfterRounds(sb, w, s, nr - 1);
    ShiftInBytes(sb, before, r, c);
    KeyInBytes(ShiftRows(SubBytes(sb.S, before)), w, nr, r, c);
  }

  // ----- key expansion -------------------------------------------------

  /** What is added to the word nk places back: the previous word, turned by one byte, substituted and with
      a power of x at the start of a key; substituted in the middle of a 256-bit key; plain otherwise. */
  function AddedByte(sb: SBox, p: bv32, nk: int, i: int, r: int): Byte
    requires 0 < nk <= i && 0 <= r < 4
  {
    if i % nk == 0 then
      (if r == 0 then Plus(sb.S(Octet(p, 1)), PowX(i / nk - 1)) else sb.S(Octet(p, (r + 1) % 4)))
    else if nk > 6 && i % nk == 4 then sb.S(Octet(p, r))
    else Octet(p, r)
  }

  lemma WordInBytes(sb: SBox, w: Words, nk: int, i: int, r: int)
    requires 0 < nk <= i < |w| && 0 <= r < 4 && WordOk(sb, w, nk, i)
    ensures Octet(w[i], r) == Plus(Octet(w[i - nk], r), AddedByte(sb, w[i - 1], nk, i, r))
  {
    hide Plus, Pack, Unpack, Octet, Xor, SubWord, RotWord, RconWord;
    var p, q := w[i - 1], w[i - nk];
    OctetIs(w[i], r);
    OctetIs(q, r);
    OctetIs(p, 0);
    OctetIs(p, 1);
    OctetIs(p, 2);
    OctetIs(p, 3);
    if i % nk == 0 {
      TurnedInBytes(sb, p, i / nk);
      XorInBytes(q, Xor(SubWord(sb, RotWord(p)), RconWord(i / nk)), r);
    } else if nk > 6 && i % nk == 4 {
      SubstitutedInBytes(sb, p);
      XorInBytes(q, SubWord(sb, p), r);
    } else {
      XorInBytes(q, p, r);
    }
  }

  lemma XorInBytes(x: bv32, y: bv32, r: int)
    requires 0 <= r < 4
    ensures Row(Unpack(Xor(x, y)), r) == Plus(Row(Unpack(x), r), Row(Unpack(y), r))
  {
    hide Plus, Pack, Unpack, Xor;
    PackUnpack(x);
    LoadedCol(Unpack(x), y);
  }

  lemma SubstitutedInBytes(sb: SBox, p: bv32)
    ensures Unpack(SubWord(sb, p)) == MapCol(sb.S, Unpack(p))
  {
    hide Pack, Unpack;
    UnpackPack(MapCol(sb.S, Unpack(p)));
  }

  lemma TurnedInBytes(sb: SBox, p: bv32, n: nat)
    requires n > 0
    ensures var s, t := Unpack(p), Unpack(Xor(SubWord(sb, RotWord(p)), RconWord(n)));
            && Row(t, 0) == Plus(sb.S(Row(s, 1)), PowX(n - 1))
            && Row(t, 1) == sb.S(Row(s, 2)) && Row(t, 2) == sb.S(Row(s, 3)) && Row(t, 3) == sb.S(Row(s, 0))
  {
    hide Plus, Pack, Unpack, PowX, Xor, SubWord;
    var s := Unpack(p);
    UnpackPack(Col(s.b, s.c, s.d, s.a));
    SubstitutedInBytes(sb, RotWord(p));
    UnpackPack(Col(PowX(n - 1), ZERO, ZERO, ZERO));
    XorInBytes(SubWord(sb, RotWord(p)), RconWord(n), 0);
    XorInBytes(SubWord(sb, RotWord(p)), RconWord(n), 1);
    XorInBytes(SubWord(sb, RotWord(p)), RconWord(n), 2);
    XorInBytes(SubWord(sb, RotWord(p)), RconWord(n), 3);
    PlusZero(sb.S(s.c));
    PlusZero(sb.S(s.d));
    PlusZero(sb.S(s.a));
  }

  // ----- examples ------------------------------------------------------

  /** Section 4.2.1: multiplying {57} by {02} again and again. */
  lemma XtimeExample()
    ensures Xtime(Byte(0x57)) == Byte(0xae) && Xtime(Byte(0xae)) == Byte(0x47)
    ensures Xtime(Byte(0x47)) == Byte(0x8e) && Xtime(Byte(0x8e)) == Byte(0x07)
  {
  }

  lemma Xor32(a: bv32, b: bv32, c: bv32)
    requires c == a ^ b
    ensures Xor(a, b) == c
  {
  }

  /** Appendix A.1: the first words derived from the key 2b7e1516 28aed2a6 abf71588 09cf4f3c, from the
      four S-box values that they need. */
  lemma KeyExample(sb: SBox, user: seq<Byte>, w: Words, rounds: int)
    requires KeySchedule(sb, user, 128, w, rounds)
    requires user[..4] == [Byte(0x2b), Byte(0x7e), Byte(0x15), Byte(0x16)]
    requires user[4..8] == [Byte(0x28), Byte(0xae), Byte(0xd2), Byte(0xa6)]
    requires user[8..12] == [Byte(0xab), Byte(0xf7), Byte(0x15), Byte(0x88)]
    requires user[12..16] == [Byte(0x09), Byte(0xcf), Byte(0x4f), Byte(0x3c)]
    requires sb.S(Byte(0xcf)) == Byte(0x8a) && sb.S(Byte(0x4f)) == Byte(0x84)
    requires sb.S(Byte(0x3c)) == Byte(0xeb) && sb.S(Byte(0x09)) == Byte(0x01)
    ensures rounds == 10 && |w| == 44
    ensures w[0] == 0x2b7e1516 && w[1] == 0x28aed2a6 && w[2] == 0xabf71588 && w[3] == 0x09cf4f3c
    ensures w[4] == 0xa0fafe17 && w[5] == 0x88542cb1 && w[6] == 0x23a33939 && w[7] == 0x2a6c7605
  {
    hide Pack, Unpack, WordOk, Xor, Plus, GetU32;
    FirstWords(sb, user, w, rounds);
    assert WordOk(sb, w, 4, 4) && WordOk(sb, w, 4, 5) && WordOk(sb, w, 4, 6) && WordOk(sb, w, 4, 7);
    FourthWord(sb, w);
    LaterWord(sb, w, 5);
    LaterWord(sb, w, 6);
    LaterWord(sb, w, 7);
    Xor32(w[1], w[4], 0x88542cb1);
    Xor32(w[2], w[5], 0x23a33939);
    Xor32(w[3], w[6], 0x2a6c7605);
  }

  lemma LaterWord(sb: SBox, w: Words, i: int)
    requires 4 < i < 8 && |w| == 44 && WordOk(sb, w, 4, i)
    ensures w[i] == Xor(w[i - 4], w[i - 1])
  {
  }

  lemma FirstWords(sb: SBox, user: seq<Byte>, w: Words, rounds: int)
    requires KeySchedule(sb, user, 128, w, rounds)
    requires user[..4] == [Byte(0x2b), Byte(0x7e), Byte(0x15), Byte(0x16)]
    requires user[4..8] == [Byte(0x28), Byte(0xae), Byte(0xd2), Byte(0xa6)]
    requires user[8..12] == [Byte(0xab), Byte(0xf7), Byte(0x15), Byte(0x88)]
    requires user[12..16] == [Byte(0x09), Byte(0xcf), Byte(0x4f), Byte(0x3c)]
    ensures rounds == 10 && |w| == 44 && Expanded(sb, w, 4, 44)
    ensures w[0] == 0x2b7e1516 && w[1] == 0x28aed2a6 && w[2] == 0xabf71588 && w[3] == 0x09cf4f3c
  {
    hide WordOk, PackBits;
    KeyWords();
    WordOf(user, 0, 0x2b, 0x7e, 0x15, 0x16);
    WordOf(user, 4, 0x28, 0xae, 0xd2, 0xa6);
    WordOf(user, 8, 0xab, 0xf7, 0x15, 0x88);
    WordOf(user, 12, 0x09, 0xcf, 0x4f, 0x3c);
  }

  lemma WordOf(user: seq<Byte>, i: nat, a: bv8, b: bv8, c: bv8, d: bv8)
    requires i + 4 <= |user| && user[i..i + 4] == [Byte(a), Byte(b), Byte(c), Byte(d)]
    ensures GetU32(user, i) == PackBits(a, b, c, d)
  {
    hide PackBits;
    var s := user[i..i + 4];
    assert user[i] == s[0] && user[i + 1] == s[1] && user[i + 2] == s[2] && user[i + 3] == s[3];
  }

  lemma KeyWords()
    ensures PackBits(0x2b, 0x7e, 0x15, 0x16) == 0x2b7e1516 && PackBits(0x28, 0xae, 0xd2, 0xa6) == 0x28aed2a6
    ensures PackBits(0xab, 0xf7, 0x15, 0x88) == 0xabf71588 && PackBits(0x09, 0xcf, 0x4f, 0x3c) == 0x09cf4f3c
  {
  }

  lemma FourthWord(sb: SBox, w: Words)
    requires |w| == 44 && WordOk(sb, w, 4, 4) && w[0] == 0x2b7e1516 && w[3] == 0x09cf4f3c
    requires sb.S(Byte(0xcf)) == Byte(0x8a) && sb.S(Byte(0x4f)) == Byte(0x84)
    requires sb.S(Byte(0x3c)) == Byte(0xeb) && sb.S(Byte(0x09)) == Byte(0x01)
    ensures w[4] == 0xa0fafe17
  {
    hide Plus;
    WordInBytes(sb, w, 4, 4, 0);
    WordInBytes(sb, w, 4, 4, 1);
    WordInBytes(sb, w, 4, 4, 2);
    WordInBytes(sb, w, 4, 4, 3);
    OctetsOf(0x2b7e1516, 0x2b, 0x7e, 0x15, 0x16);
    OctetsOf(0x09cf4f3c, 0x09, 0xcf, 0x4f, 0x3c);
    hide Octet;
    FourBytes();
    FromOctets(w[4], 0xa0, 0xfa, 0xfe, 0x17);
    assert PackBits(0xa0, 0xfa, 0xfe, 0x17) == 0xa0fafe17;
  }

  lemma FourBytes()
    ensures Plus(Byte(0x2b), Plus(Byte(0x8a), PowX(0))) == Byte(0xa0) && Plus(Byte(0x7e), Byte(0x84)) == Byte(0xfa)
    ensures Plus(Byte(0x15), Byte(0xeb)) == Byte(0xfe) && Plus(Byte(0x16), Byte(0x01)) == Byte(0x17)
  {
  }

  lemma OctetsOf(w: bv32, a: bv8, b: bv8, c: bv8, d: bv8)
    requires w == PackBits(a, b, c, d)
    ensures Octet(w, 0) == Byte(a) && Octet(w, 1) == Byte(b) && Octet(w, 2) == Byte(c) && Octet(w, 3) == Byte(d)
  {
    hide PackBits, Octet;
    BitsOfPack(a, b, c, d);
    OctetBits(w);
  }

  lemma FromOctets(w: bv32, a: bv8, b: bv8, c: bv8, d: bv8)
    requires Octet(w, 0) == Byte(a) && Octet(w, 1) == Byte(b) && Octet(w, 2) == Byte(c) && Octet(w, 3) == Byte(d)
    ensures w == PackBits(a, b, c, d)
  {
    hide PackBits, Octet;
    PackOfBits(w);
    OctetBits(w);
  }

  lemma OctetBits(w: bv32)
    ensures Octet(w, 0).v == Bits0(w) && Octet(w, 1).v == Bits1(w) && Octet(w, 2).v == Bits2(w) && Octet(w, 3).v == Bits3(w)
  {
  }

  /** Appendix B, first round: the first column before and after MixColumns. */
  lemma MixExample()
    ensures MixCol(Col(Byte(0xd4), Byte(0xbf), Byte(0x5d), Byte(0x30))) == Col(Byte(0x04), Byte(0x66), Byte(0x81), Byte(0xe5))
    ensures MixCol(Col(Byte(0xe0), Byte(0xb4), Byte(0x52), Byte(0xae))) == Col(Byte(0xe0), Byte(0xcb), Byte(0x19), Byte(0x9a))
  {
  }
}
