// The AES cipher, its key expansion and its equivalent inverse as FIPS 197
// defines them, over any S-box pair.

module Fips197 {
  import opened Gf
  import opened AesTables

  datatype State = State(c0: Col, c1: Col, c2: Col, c3: Col)

  type Words = seq<bv32>

  // ----- section 5.1: the cipher ---------------------------------------

  function MapCol(f: Byte -> Byte, s: Col): Col { Col(f(s.a), f(s.b), f(s.c), f(s.d)) }

  function SubBytes(f: Byte -> Byte, s: State): State {
    State(MapCol(f, s.c0), MapCol(f, s.c1), MapCol(f, s.c2), MapCol(f, s.c3))
  }

  /** Row r of the state moves r places to the left. */
  function ShiftRows(s: State): State {
    State(Col(s.c0.a, s.c1.b, s.c2.c, s.c3.d), Col(s.c1.a, s.c2.b, s.c3.c, s.c0.d),
          Col(s.c2.a, s.c3.b, s.c0.c, s.c1.d), Col(s.c3.a, s.c0.b, s.c1.c, s.c2.d))
  }

  function InvShiftRows(s: State): State {
    State(Col(s.c0.a, s.c3.b, s.c2.c, s.c1.d), Col(s.c1.a, s.c0.b, s.c3.c, s.c2.d),
          Col(s.c2.a, s.c1.b, s.c0.c, s.c3.d), Col(s.c3.a, s.c2.b, s.c1.c, s.c0.d))
  }

  function MixColumns(s: State): State { State(MixCol(s.c0), MixCol(s.c1), MixCol(s.c2), MixCol(s.c3)) }

  function InvMixColumns(s: State): State {
    State(InvMixCol(s.c0), InvMixCol(s.c1), InvMixCol(s.c2), InvMixCol(s.c3))
  }

  function AddKey(s: State, k: State): State {
    State(PlusCol(s.c0, k.c0), PlusCol(s.c1, k.c1), PlusCol(s.c2, k.c2), PlusCol(s.c3, k.c3))
  }

  function RoundKey(w: Words, r: nat): State
    requires 4 * r + 4 <= |w|
  {
    State(Unpack(w[4 * r]), Unpack(w[4 * r + 1]), Unpack(w[4 * r + 2]), Unpack(w[4 * r + 3]))
  }

  /** The state after the initial key addition and r full rounds. */
  function AfterRounds(sb: SBox, w: Words, s: State, r: nat): State
    requires 4 * r + 4 <= |w|
  {
    if r == 0 then AddKey(s, RoundKey(w, 0))
    else AddKey(MixColumns(ShiftRows(SubBytes(sb.S, AfterRounds(sb, w, s, r - 1)))), RoundKey(w, r))
  }

  function Cipher(sb: SBox, w: Words, nr: nat, s: State): State
    requires nr > 0 && |w| == 4 * (nr + 1)
  {
    AddKey(ShiftRows(SubBytes(sb.S, AfterRounds(sb, w, s, nr - 1))), RoundKey(w, nr))
  }

  // ----- section 5.3.5: the equivalent inverse cipher ------------------

  function InvAfterRounds(sb: SBox, dw: Words, s: State, r: nat): State
    requires 4 * r + 4 <= |dw|
  {
    if r == 0 then AddKey(s, RoundKey(dw, 0))
    else AddKey(InvMixColumns(InvShiftRows(SubBytes(sb.Si, InvAfterRounds(sb, dw, s, r - 1)))), RoundKey(dw, r))
  }

  function EqInvCipher(sb: SBox, dw: Words, nr: nat, s: State): State
    requires nr > 0 && |dw| == 4 * (nr + 1)
  {
    AddKey(InvShiftRows(SubBytes(sb.Si, InvAfterRounds(sb, dw, s, nr - 1))), RoundKey(dw, nr))
  }

  function InvMixWord(w: bv32): bv32 { Pack(InvMixCol(Unpack(w))) }

  /** dw is w with the round keys in reverse order and InvMixColumns applied to the inner ones. */
  ghost predicate DecryptSchedule(w: Words, dw: Words, nr: nat) {
    && nr > 0 && |w| == |dw| == 4 * (nr + 1)
    && (forall r, c :: 0 <= r <= nr && 0 <= c < 4 ==> WordTurned(w, dw, nr, r, c))
  }

  ghost predicate WordTurned(w: Words, dw: Words, nr: int, r: int, c: int)
    requires 0 <= r <= nr && 0 <= c < 4 && |w| == |dw| == 4 * (nr + 1)
  {
    dw[4 * r + c] == if 0 < r < nr then InvMixWord(w[4 * (nr - r) + c]) else w[4 * (nr - r) + c]
  }

  lemma ScheduleKeys(w: Words, dw: Words, nr: nat, r: nat)
    requires DecryptSchedule(w, dw, nr) && r <= nr
    ensures RoundKey(dw, r) == if 0 < r < nr then InvMixColumns(RoundKey(w, nr - r)) else RoundKey(w, nr - r)
  {
    hide InvMixCol, Unpack, Pack;
    var q := nr - r;
    assert WordTurned(w, dw, nr, r, 0);
    assert WordTurned(w, dw, nr, r, 1);
    assert WordTurned(w, dw, nr, r, 2);
    assert WordTurned(w, dw, nr, r, 3);
    UnpackPack(InvMixCol(Unpack(w[4 * q])));
    UnpackPack(InvMixCol(Unpack(w[4 * q + 1])));
    UnpackPack(InvMixCol(Unpack(w[4 * q + 2])));
    UnpackPack(InvMixCol(Unpack(w[4 * q + 3])));
  }

  lemma ColTwice(s: Col, k: Col)
    ensures PlusCol(PlusCol(s, k), k) == s
  {
  }

  lemma AddKeyTwice(s: State, k: State)
    ensures AddKey(AddKey(s, k), k) == s
  {
    hide PlusCol;
    ColTwice(s.c0, k.c0);
    ColTwice(s.c1, k.c1);
    ColTwice(s.c2, k.c2);
    ColTwice(s.c3, k.c3);
  }

  lemma InvMixAdd(s: State, k: State)
    ensures InvMixColumns(AddKey(s, k)) == AddKey(InvMixColumns(s), InvMixColumns(k))
  {
    hide PlusCol, InvMixCol;
    InvMixColPlus(s.c0, k.c0);
    InvMixColPlus(s.c1, k.c1);
    InvMixColPlus(s.c2, k.c2);
    InvMixColPlus(s.c3, k.c3);
  }

  lemma InvMixMix(s: State)
    ensures InvMixColumns(MixColumns(s)) == s
  {
    hide MixCol, InvMixCol;
    InvMixColOfMixCol(s.c0);
    InvMixColOfMixCol(s.c1);
    InvMixColOfMixCol(s.c2);
    InvMixColOfMixCol(s.c3);
  }

  lemma UndoSubShift(sb: SBox, s: State)
    requires sb.Valid()
    ensures InvShiftRows(SubBytes(sb.Si, ShiftRows(SubBytes(sb.S, s)))) == s
  {
  }

  /** After r rounds the inverse cipher has undone the last r rounds, up to SubBytes and ShiftRows. */
  lemma {:induction false} InvRoundsUndo(sb: SBox, w: Words, dw: Words, nr: nat, s: State, r: nat)
    requires sb.Valid() && DecryptSchedule(w, dw, nr) && r < nr
    ensures InvAfterRounds(sb, dw, Cipher(sb, w, nr, s), r)
            == ShiftRows(SubBytes(sb.S, AfterRounds(sb, w, s, nr - 1 - r)))
  {
    hide SubBytes, ShiftRows, InvShiftRows, MixColumns, InvMixColumns, AddKey, RoundKey, DecryptSchedule;
    ScheduleSizes(w, dw, nr);
    ScheduleKeys(w, dw, nr, r);
    if r == 0 {
      AddKeyTwice(ShiftRows(SubBytes(sb.S, AfterRounds(sb, w, s, nr - 1))), RoundKey(w, nr));
    } else {
      InvRoundsUndo(sb, w, dw, nr, s, r - 1);
      var e := AfterRounds(sb, w, s, nr - r);
      UndoSubShift(sb, e);
      var inner := ShiftRows(SubBytes(sb.S, AfterRounds(sb, w, s, nr - r - 1)));
      var k := RoundKey(w, nr - r);
      assert e == AddKey(MixColumns(inner), k);
      InvMixAdd(MixColumns(inner), k);
      InvMixMix(inner);
      AddKeyTwice(inner, InvMixColumns(k));
    }
  }

  /** Decryption inverts encryption, for every key schedule, every block and every S-box pair. */
  lemma EqInvCipherInverts(sb: SBox, w: Words, dw: Words, nr: nat, s: State)
    requires sb.Valid() && DecryptSchedule(w, dw, nr)
    ensures EqInvCipher(sb, dw, nr, Cipher(sb, w, nr, s)) == s
  {
    hide SubBytes, ShiftRows, InvShiftRows, AddKey, RoundKey, DecryptSchedule;
    ScheduleSizes(w, dw, nr);
    InvRoundsUndo(sb, w, dw, nr, s, nr - 1);
    UndoSubShift(sb, AfterRounds(sb, w, s, 0));
    ScheduleKeys(w, dw, nr, nr);
    AddKeyTwice(s, RoundKey(w, 0));
  }

  lemma ScheduleSizes(w: Words, dw: Words, nr: nat)
    requires DecryptSchedule(w, dw, nr)
    ensures nr > 0 && |w| == |dw| == 4 * (nr + 1)
  {
  }
}
