// Key expansion of openssl/aes_core.c against section 5.2 of FIPS 197.

module AesKeys {
  import opened Gf
  import opened AesTables
  import opened Fips197

  const MAX_WORDS := 60   // 4 * (AES_MAXNR + 1)

  class AesKey {
    const rdKey: array<bv32>
    var rounds: nat

    constructor ()
      ensures rdKey.Length == MAX_WORDS && fresh(rdKey)
    {
      rdKey := new bv32[MAX_WORDS](_ => 0);
      rounds := 0;
    }
  }

  // ----- section 5.2: key expansion ------------------------------------

  function Xor(x: bv32, y: bv32): bv32 { x ^ y }

  function RotWord(w: bv32): bv32 { var s := Unpack(w); Pack(Col(s.b, s.c, s.d, s.a)) }

  function SubWord(sb: SBox, w: bv32): bv32 { Pack(MapCol(sb.S, Unpack(w))) }

  function PowX(n: nat): Byte { if n == 0 then Byte(1) else Xtime(PowX(n - 1)) }

  /** Rcon[i] = [x^(i-1), 0, 0, 0]. */
  function RconWord(i: nat): bv32
    requires i > 0
  {
    Pack(Col(PowX(i - 1), ZERO, ZERO, ZERO))
  }

  function NextWord(sb: SBox, nk: int, i: int, prev: bv32, back: bv32): bv32
    requires 0 < nk <= i
  {
    Xor(back, if i % nk == 0 then Xor(SubWord(sb, RotWord(prev)), RconWord(i / nk))
              else if nk > 6 && i % nk == 4 then SubWord(sb, prev)
              else prev)
  }

  ghost predicate WordOk(sb: SBox, w: Words, nk: int, i: int)
    requires 0 < nk <= i < |w|
  {
    w[i] == NextWord(sb, nk, i, w[i - 1], w[i - nk])
  }

  /** The words from nk up to n follow the recurrence. */
  ghost predicate Expanded(sb: SBox, w: Words, nk: int, n: int)
    requires 0 < nk <= n <= |w|
  {
    forall i :: nk <= i < n ==> WordOk(sb, w, nk, i)
  }

  lemma ExpandedFrame(sb: SBox, w: Words, w': Words, nk: int, n: int)
    requires 0 < nk <= n <= |w| == |w'| && w[..n] == w'[..n]
    requires Expanded(sb, w, nk, n)
    ensures Expanded(sb, w', nk, n)
  {
    hide NextWord;
    forall i | nk <= i < n
      ensures WordOk(sb, w', nk, i)
    {
      assert WordOk(sb, w, nk, i);
      assert w[i] == w[..n][i] && w[i - 1] == w[..n][i - 1] && w[i - nk] == w[..n][i - nk];
      assert w'[i] == w'[..n][i] && w'[i - 1] == w'[..n][i - 1] && w'[i - nk] == w'[..n][i - nk];
    }
  }

  // ----- the original's pieces -----------------------------------------

  const RCON: seq<bv32> := [
    0x01000000, 0x02000000, 0x04000000, 0x08000000,
    0x10000000, 0x20000000, 0x40000000, 0x80000000,
    0x1B000000, 0x36000000]

  function Rcon(i: int): bv32
    requires 0 <= i < 10
  {
    RCON[i]
  }

  /** Four table entries, each masked to the byte that is the S-box value alone. */
  function Masked(sb: SBox, x: Byte, y: Byte, z: Byte, u: Byte): bv32 {
    (Te2(sb, x) & 0xff000000) ^ (Te3(sb, y) & 0x00ff0000) ^ (Te0(sb, z) & 0x0000ff00) ^ (Te1(sb, u) & 0x000000ff)
  }

  /** The same from the byte table Te4 of the AES_ASM build. */
  function Te4Word(sb: SBox, x: Byte, y: Byte, z: Byte, u: Byte): bv32 {
    PackBits(sb.S(x).v, sb.S(y).v, sb.S(z).v, sb.S(u).v)
  }

  /** The table form of SubWord(RotWord(temp)); `packed` selects the AES_ASM build. */
  function RotSub(sb: SBox, temp: bv32, packed: bool): bv32 {
    if packed then Te4Word(sb, Byte1(temp), Byte2(temp), Byte3(temp), Byte0(temp))
    else Masked(sb, Byte1(temp), Byte2(temp), Byte3(temp), Byte0(temp))
  }

  /** The table form of SubWord(temp). */
  function Sub(sb: SBox, temp: bv32, packed: bool): bv32 {
    if packed then Te4Word(sb, Byte0(temp), Byte1(temp), Byte2(temp), Byte3(temp))
    else Masked(sb, Byte0(temp), Byte1(temp), Byte2(temp), Byte3(temp))
  }

  lemma MaskedTables(sb: SBox, x: Byte, y: Byte, z: Byte, u: Byte)
    ensures Masked(sb, x, y, z, u) == Pack(Col(sb.S(x), sb.S(y), sb.S(z), sb.S(u)))
  {
    hide Xtime, Mul3;
    var p, q, r, s := sb.S(x), sb.S(y), sb.S(z), sb.S(u);
    MaskBits(p.v, Mul3(p).v, Xtime(p).v, p.v);
    MaskBits(q.v, q.v, Mul3(q).v, Xtime(q).v);
    MaskBits(Xtime(r).v, r.v, r.v, Mul3(r).v);
    MaskBits(Mul3(s).v, Xtime(s).v, s.v, s.v);
  }

  lemma RotSubIs(sb: SBox, temp: bv32, packed: bool)
    ensures RotSub(sb, temp, packed) == SubWord(sb, RotWord(temp))
  {
    hide Masked, PackBits, Byte0, Byte1, Byte2, Byte3, Unpack;
    MaskedTables(sb, Byte1(temp), Byte2(temp), Byte3(temp), Byte0(temp));
    UnpackIs(temp);
    UnpackPack(Col(Byte1(temp), Byte2(temp), Byte3(temp), Byte0(temp)));
  }

  lemma SubIs(sb: SBox, temp: bv32, packed: bool)
    ensures Sub(sb, temp, packed) == SubWord(sb, temp)
  {
    hide Masked, PackBits, Byte0, Byte1, Byte2, Byte3, Unpack;
    MaskedTables(sb, Byte0(temp), Byte1(temp), Byte2(temp), Byte3(temp));
    UnpackIs(temp);
  }

  lemma UnpackIs(w: bv32)
    ensures Unpack(w) == Col(Byte0(w), Byte1(w), Byte2(w), Byte3(w))
  {
  }

  lemma PowXs()
    ensures PowX(0) == Byte(0x01) && PowX(1) == Byte(0x02) && PowX(2) == Byte(0x04) && PowX(3) == Byte(0x08)
    ensures PowX(4) == Byte(0x10) && PowX(5) == Byte(0x20) && PowX(6) == Byte(0x40) && PowX(7) == Byte(0x80)
    ensures PowX(8) == Byte(0x1b) && PowX(9) == Byte(0x36)
  {
    assert PowX(0) == Byte(1);
    assert PowX(1) == Xtime(Byte(0x01)) == Byte(0x02);
    assert PowX(2) == Xtime(Byte(0x02)) == Byte(0x04);
    assert PowX(3) == Xtime(Byte(0x04)) == Byte(0x08);
    assert PowX(4) == Xtime(Byte(0x08)) == Byte(0x10);
    assert PowX(5) == Xtime(Byte(0x10)) == Byte(0x20);
    assert PowX(6) == Xtime(Byte(0x20)) == Byte(0x40);
    assert PowX(7) == Xtime(Byte(0x40)) == Byte(0x80);
    assert PowX(8) == Xtime(Byte(0x80)) == Byte(0x1b);
    assert PowX(9) == Xtime(Byte(0x1b)) == Byte(0x36);
  }

  /** The rcon table holds the powers of x. */
  lemma RconIs(i: nat)
    requires i < 10
    ensures Rcon(i) == RconWord(i + 1)
  {
    PowXs();
    hide PowX;
    assert i == 0 || i == 1 || i == 2 || i == 3 || i == 4 || i == 5 || i == 6 || i == 7 || i == 8 || i == 9;
  }

  lemma XorAssociative(x: bv32, y: bv32, z: bv32)
    ensures Xor(Xor(x, y), z) == Xor(x, Xor(y, z))
  {
  }

  lemma FirstOfGroup(sb: SBox, nk: nat, k: nat, i: int, prev: bv32, back: bv32, packed: bool)
    requires nk in {4, 6, 8} && k < 10 && i == nk * (k + 1)
    ensures nk <= i && Xor(Xor(back, RotSub(sb, prev, packed)), Rcon(k)) == NextWord(sb, nk, i, prev, back)
  {
    hide RotSub, SubWord, RotWord, RconWord, Xor, Rcon;
    GroupIndex(nk, k + 1, 0);
    RotSubIs(sb, prev, packed);
    RconIs(k);
    XorAssociative(back, RotSub(sb, prev, packed), Rcon(k));
  }

  lemma GroupIndex4(k: nat, j: nat)
    requires j < 4
    ensures (4 * k + j) % 4 == j && (4 * k + j) / 4 == k
  {
  }

  lemma GroupIndex6(k: nat, j: nat)
    requires j < 6
    ensures (6 * k + j) % 6 == j && (6 * k + j) / 6 == k
  {
  }

  lemma GroupIndex8(k: nat, j: nat)
    requires j < 8
    ensures (8 * k + j) % 8 == j && (8 * k + j) / 8 == k
  {
  }

  lemma GroupIndex(nk: nat, k: nat, j: nat)
    requires j < nk && nk in {4, 6, 8}
    ensures (nk * k + j) % nk == j && (nk * k + j) / nk == k
  {
    if nk == 4 {
      GroupIndex4(k, j);
    } else if nk == 6 {
      GroupIndex6(k, j);
    } else {
      GroupIndex8(k, j);
    }
  }

  lemma MiddleWord(sb: SBox, i: int, prev: bv32, back: bv32, packed: bool)
    requires 8 <= i && i % 8 == 4
    ensures Xor(back, Sub(sb, prev, packed)) == NextWord(sb, 8, i, prev, back)
  {
    hide Sub, SubWord, Xor;
    SubIs(sb, prev, packed);
  }

  /** A word of the schedule that is just the sum of two earlier ones. */
  method PlainWord(sb: SBox, rk: array<bv32>, nk: int, i: int)
    requires 0 < nk <= i < rk.Length && i % nk != 0 && !(nk > 6 && i % nk == 4)
    requires Expanded(sb, rk[..], nk, i)
    modifies rk
    ensures Expanded(sb, rk[..], nk, i + 1)
    ensures forall j :: 0 <= j < rk.Length && j != i ==> rk[j] == old(rk[j])
  {
    hide Xor;
    StoreWord(sb, rk, nk, i, Xor(rk[i - nk], rk[i - 1]));
  }

  method StoreWord(sb: SBox, rk: array<bv32>, nk: int, i: int, v: bv32)
    requires 0 < nk <= i < rk.Length && Expanded(sb, rk[..], nk, i)
    requires v == NextWord(sb, nk, i, rk[i - 1], rk[i - nk])
    modifies rk
    ensures Expanded(sb, rk[..], nk, i + 1)
    ensures forall j :: 0 <= j < rk.Length && j != i ==> rk[j] == old(rk[j])
  {
    hide NextWord;
    ghost var w := rk[..];
    rk[i] := v;
    assert w[..i] == rk[..][..i];
    ExpandedFrame(sb, w, rk[..], nk, i);
    assert WordOk(sb, rk[..], nk, i);
  }

  /** The four assignments with which every pass of the three loops starts, `temp` being the last word so far. */
  method Group(sb: SBox, rk: array<bv32>, nk: nat, k: nat, o: nat, packed: bool)
    requires nk in {4, 6, 8} && k < 10 && o == nk * k && o + nk + 4 <= rk.Length
    requires Expanded(sb, rk[..], nk, o + nk)
    modifies rk
    ensures Expanded(sb, rk[..], nk, o + nk + 4)
    ensures forall j :: 0 <= j < o + nk || o + nk + 4 <= j < rk.Length ==> rk[j] == old(rk[j])
  {
    hide NextWord, RotSub, Expanded, Xor, Rcon;
    var temp := rk[o + nk - 1];
    assert o + nk == nk * (k + 1);
    FirstOfGroup(sb, nk, k, o + nk, temp, rk[o], packed);
    GroupIndex(nk, k + 1, 0);
    GroupIndex(nk, k + 1, 1);
    GroupIndex(nk, k + 1, 2);
    GroupIndex(nk, k + 1, 3);
    StoreWord(sb, rk, nk, o + nk, Xor(Xor(rk[o], RotSub(sb, temp, packed)), Rcon(k)));
    PlainWord(sb, rk, nk, o + nk + 1);
    PlainWord(sb, rk, nk, o + nk + 2);
    PlainWord(sb, rk, nk, o + nk + 3);
  }

  /** The loop for 128-bit keys: four words per round constant. */
  method Expand128(sb: SBox, rk: array<bv32>, packed: bool)
    requires rk.Length == MAX_WORDS
    modifies rk
    ensures Expanded(sb, rk[..], 4, 44) && forall j :: 0 <= j < 4 || 44 <= j < MAX_WORDS ==> rk[j] == old(rk[j])
  {
    var i, o := 0, 0;
    while true
      invariant 0 <= i < 10 && o == 4 * i
      invariant Expanded(sb, rk[..], 4, o + 4) && forall j :: 0 <= j < 4 || 44 <= j < MAX_WORDS ==> rk[j] == old(rk[j])
      decreases 10 - i
    {
      hide WordOk;
      Group(sb, rk, 4, i, o, packed);
      i := i + 1;
      if i == 10 {
        return;
      }
      o := o + 4;
    }
  }

  /** The loop for 192-bit keys: six words per round constant, four in the last round. */
  method Expand192(sb: SBox, rk: array<bv32>, packed: bool)
    requires rk.Length == MAX_WORDS
    modifies rk
    ensures Expanded(sb, rk[..], 6, 52) && forall j :: 0 <= j < 6 || 52 <= j < MAX_WORDS ==> rk[j] == old(rk[j])
  {
    var i, o := 0, 0;
    while true
      invariant 0 <= i < 8 && o == 6 * i
      invariant Expanded(sb, rk[..], 6, o + 6) && forall j :: 0 <= j < 6 || 52 <= j < MAX_WORDS ==> rk[j] == old(rk[j])
      decreases 8 - i
    {
      hide WordOk;
      Group(sb, rk, 6, i, o, packed);
      i := i + 1;
      if i == 8 {
        return;
      }
      PlainWord(sb, rk, 6, o + 10);
      PlainWord(sb, rk, 6, o + 11);
      o := o + 6;
    }
  }

  /** The loop for 256-bit keys: eight words per round constant, four in the last round. */
  method Expand256(sb: SBox, rk: array<bv32>, packed: bool)
    requires rk.Length == MAX_WORDS
    modifies rk
    ensures Expanded(sb, rk[..], 8, 60) && forall j :: 0 <= j < 8 ==> rk[j] == old(rk[j])
  {
    var i, o := 0, 0;
    while true
      invariant 0 <= i < 7 && o == 8 * i
      invariant Expanded(sb, rk[..], 8, o + 8) && forall j :: 0 <= j < 8 ==> rk[j] == old(rk[j])
      decreases 7 - i
    {
      hide WordOk;
      Group(sb, rk, 8, i, o, packed);
      i := i + 1;
      if i == 7 {
        return;
      }
      var temp := rk[o + 11];
      MiddleWord(sb, o + 12, temp, rk[o + 4], packed);
      StoreWord(sb, rk, 8, o + 12, Xor(rk[o + 4], Sub(sb, temp, packed)));
      PlainWord(sb, rk, 8, o + 13);
      PlainWord(sb, rk, 8, o + 14);
      PlainWord(sb, rk, 8, o + 15);
      o := o + 8;
    }
  }
}
