// AES_set_encrypt_key, AES_set_decrypt_key, AES_encrypt and AES_decrypt of
// openssl/aes_core.c against FIPS 197.

module AesCore {
  import opened Gf
  import opened AesTables
  import opened Fips197
  import opened AesKeys
  import opened AesInvMix

  function RoundsFor(bits: int): int {
    if bits == 128 then 10 else if bits == 192 then 12 else 14
  }

  function GetU32(s: seq<Byte>, i: nat): bv32
    requires i + 4 <= |s|
  {
    Pack(Col(s[i], s[i + 1], s[i + 2], s[i + 3]))
  }

  /** rk[..4 * (rounds + 1)] is the section 5.2 expansion of the first `bits` bits of user. */
  ghost predicate KeySchedule(sb: SBox, user: seq<Byte>, bits: int, w: Words, rounds: int) {
    && bits in {128, 192, 256} && rounds == RoundsFor(bits) && bits / 8 <= |user|
    && |w| == 4 * (rounds + 1)
    && (forall i :: 0 <= i < bits / 32 ==> w[i] == GetU32(user, 4 * i))
    && Expanded(sb, w, bits / 32, |w|)
  }

  method LoadWords(user: array<Byte>, rk: array<bv32>, from: nat, to: nat)
    requires from <= to <= 8 && rk.Length == MAX_WORDS && 4 * to <= user.Length && user as object != rk
    modifies rk
    ensures forall i :: from <= i < to ==> rk[i] == GetU32(user[..], 4 * i)
    ensures forall i :: 0 <= i < from || to <= i < MAX_WORDS ==> rk[i] == old(rk[i])
  {
    for i := from to to
      invariant forall j :: from <= j < i ==> rk[j] == GetU32(user[..], 4 * j)
      invariant forall j :: 0 <= j < from || i <= j < MAX_WORDS ==> rk[j] == old(rk[j])
    {
      hide Pack;
      rk[i] := GetU32(user[..], 4 * i);
    }
  }

  /** Either build leaves the section 5.2 expansion of the key; `packed` selects the AES_ASM build. */
  method SetEncryptKey(sb: SBox, user: array?<Byte>, bits: int, key: AesKey?, packed: bool) returns (r: int)
    requires key != null ==> key.rdKey.Length == MAX_WORDS
    requires user != null && bits in {128, 192, 256} ==> bits / 8 <= user.Length
    requires user != null && key != null ==> user as object != key.rdKey
    modifies if key == null then {} else {key, key.rdKey}
    ensures r == if user == null || key == null then -1 else if bits !in {128, 192, 256} then -2 else 0
    ensures r == 0 ==> key.rounds == bits / 32 + 6 &&
                       KeySchedule(sb, user[..], bits, key.rdKey[..4 * (key.rounds + 1)], key.rounds)
    ensures r != 0 && key != null ==> unchanged(key) && unchanged(key.rdKey)
  {
    if user == null || key == null {
      return -1;
    }
    if bits != 128 && bits != 192 && bits != 256 {
      return -2;
    }
    hide NextWord, Pack, WordOk;
    var rk := key.rdKey;
    if bits == 128 {
      key.rounds := 10;
    } else if bits == 192 {
      key.rounds := 12;
    } else {
      key.rounds := 14;
    }
    LoadWords(user, rk, 0, 4);
    if bits == 128 {
      Expand128(sb, rk, packed);
      SchedulePrefix(sb, rk[..], 4, 44);
      return 0;
    }
    LoadWords(user, rk, 4, 6);
    if bits == 192 {
      Expand192(sb, rk, packed);
      SchedulePrefix(sb, rk[..], 6, 52);
      return 0;
    }
    LoadWords(user, rk, 6, 8);
    Expand256(sb, rk, packed);
    SchedulePrefix(sb, rk[..], 8, 60);
    return 0;
  }

  lemma SchedulePrefix(sb: SBox, w: Words, nk: int, n: int)
    requires 0 < nk <= n <= |w| && Expanded(sb, w, nk, n)
    ensures Expanded(sb, w[..n], nk, n)
  {
    hide NextWord;
    forall i | nk <= i < n
      ensures WordOk(sb, w[..n], nk, i)
    {
      assert WordOk(sb, w, nk, i);
    }
  }

  // ----- decryption schedule, in place ---------------------------------

  /** Word c of round key r, counted from either end. */
  function At(r: int, c: int): int { 4 * r + c }

  /** The round keys r with done(r) have changed places with those at the other end. */
  ghost predicate Reversed(w: Words, rk: Words, nr: int, done: int)
    requires 0 <= nr && |w| == |rk| == 4 * (nr + 1)
  {
    forall r, c :: 0 <= r <= nr && 0 <= c < 4 ==> ReversedAt(w, rk, nr, done, r, c)
  }

  ghost predicate ReversedAt(w: Words, rk: Words, nr: int, done: int, r: int, c: int)
    requires 0 <= r <= nr && 0 <= c < 4 && |w| == |rk| == 4 * (nr + 1)
  {
    rk[At(r, c)] == if r < done || r > nr - done then w[At(nr - r, c)] else w[At(r, c)]
  }

  /** The swap of two round keys. */
  method SwapKeys(rk: array<bv32>, i: nat, j: nat)
    requires i + 4 <= j && j + 4 <= rk.Length
    modifies rk
    ensures forall t :: 0 <= t < rk.Length ==>
              rk[t] == old(if i <= t < i + 4 then rk[j + (t - i)] else if j <= t < j + 4 then rk[i + (t - j)] else rk[t])
  {
    for c := 0 to 4
      invariant forall t :: 0 <= t < rk.Length ==>
                  rk[t] == old(if i <= t < i + c then rk[j + (t - i)] else if j <= t < j + c then rk[i + (t - j)] else rk[t])
    {
      var temp := rk[i + c];
      rk[i + c] := rk[j + c];
      rk[j + c] := temp;
    }
  }

  /** Exchanges the round keys from both ends inwards. */
  method ReverseKeys(rk: array<bv32>, nr: nat)
    requires 4 * (nr + 1) <= rk.Length && nr % 2 == 0
    modifies rk
    ensures Reversed(old(rk[..4 * (nr + 1)]), rk[..4 * (nr + 1)], nr, nr / 2 + 1)
  {
    hide Reversed;
    ghost var w := rk[..4 * (nr + 1)];
    var i, j := 0, 4 * nr;
    ghost var d := 0;
    NothingReversed(w, nr);
    while i < j
      invariant 0 <= d <= nr / 2 && i == 4 * d && j == 4 * (nr - d)
      invariant Reversed(w, rk[..4 * (nr + 1)], nr, d)
    {
      ghost var before := rk[..4 * (nr + 1)];
      SwapKeys(rk, i, j);
      SwapStep(w, before, rk[..4 * (nr + 1)], nr, d);
      i := i + 4;
      j := j - 4;
      d := d + 1;
    }
    ReversedMiddle(w, rk[..4 * (nr + 1)], nr, d);
  }

  lemma NothingReversed(w: Words, nr: nat)
    requires |w| == 4 * (nr + 1)
    ensures Reversed(w, w, nr, 0)
  {
  }

  lemma ReversedMiddle(w: Words, rk: Words, nr: nat, d: nat)
    requires 2 * d == nr && |w| == |rk| == 4 * (nr + 1) && Reversed(w, rk, nr, d)
    ensures Reversed(w, rk, nr, d + 1)
  {
    var d' := d + 1;
    forall r, c | 0 <= r <= nr && 0 <= c < 4
      ensures ReversedAt(w, rk, nr, d', r, c)
    {
      assert ReversedAt(w, rk, nr, d, r, c);
    }
  }

  lemma SwapStep(w: Words, before: Words, rk: Words, nr: int, d: int)
    requires 0 <= d && 2 * d < nr && |w| == |before| == |rk| == 4 * (nr + 1)
    requires Reversed(w, before, nr, d)
    requires forall t {:trigger rk[t]} :: 0 <= t < 4 * (nr + 1) ==>
               rk[t] == if 4 * d <= t < 4 * d + 4 then before[4 * (nr - d) + (t - 4 * d)]
                        else if 4 * (nr - d) <= t < 4 * (nr - d) + 4 then before[4 * d + (t - 4 * (nr - d))]
                        else before[t]
    ensures Reversed(w, rk, nr, d + 1)
  {
    var d' := d + 1;
    forall r, c | 0 <= r <= nr && 0 <= c < 4
      ensures ReversedAt(w, rk, nr, d', r, c)
    {
      assert ReversedAt(w, before, nr, d, r, c) && ReversedAt(w, before, nr, d, nr - r, c);
      var t := At(r, c);
      assert 4 * d <= t < 4 * d + 4 <==> r == d;
      assert 4 * (nr - d) <= t < 4 * (nr - d) + 4 <==> r == nr - d;
      if r == d || r == nr - d {
        assert rk[At(r, c)] == before[At(nr - r, c)];
      } else {
        assert rk[At(r, c)] == before[At(r, c)];
      }
    }
  }

  /** The inverse MixColumns loop over the inner round keys; `packed` selects the AES_ASM build. */
  method MixInnerKeys(sb: SBox, rk: array<bv32>, nr: nat, packed: bool)
    requires sb.Valid() && 4 * (nr + 1) <= rk.Length && nr > 0
    modifies rk
    ensures forall t :: 0 <= t < 4 * (nr + 1) ==>
              rk[t] == if 4 <= t < 4 * nr then InvMixWord(old(rk[t])) else old(rk[t])
  {
    hide InvMixWord, InvMixTable, InvMixPacked, SBox.Valid;
    for i := 1 to nr
      invariant forall t :: 0 <= t < 4 * (nr + 1) ==>
                  rk[t] == if 4 <= t < 4 * i then InvMixWord(old(rk[t])) else old(rk[t])
    {
      for j := 0 to 4
        invariant forall t :: 0 <= t < 4 * (nr + 1) ==>
                    rk[t] == if 4 <= t < 4 * i + j then InvMixWord(old(rk[t])) else old(rk[t])
      {
        InvMixTableIs(sb, rk[4 * i + j]);
        InvMixPackedIs(rk[4 * i + j]);
        rk[4 * i + j] := if packed then InvMixPacked(rk[4 * i + j]) else InvMixTable(sb, rk[4 * i + j]);
      }
    }
  }

  /** Either build leaves the section 5.3.5 schedule of the same key: the expansion w turned round,
      with InvMixColumns applied to the inner round keys. */
  method SetDecryptKey(sb: SBox, user: array?<Byte>, bits: int, key: AesKey?, packed: bool) returns (status: int, ghost w: Words)
    requires sb.Valid()
    requires key != null ==> key.rdKey.Length == MAX_WORDS
    requires user != null && bits in {128, 192, 256} ==> bits / 8 <= user.Length
    requires user != null && key != null ==> user as object != key.rdKey
    modifies if key == null then {} else {key, key.rdKey}
    ensures status == if user == null || key == null then -1 else if bits !in {128, 192, 256} then -2 else 0
    ensures status == 0 ==>
              && key.rounds == RoundsFor(bits)
              && KeySchedule(sb, old(user[..]), bits, w, key.rounds)
              && DecryptSchedule(w, key.rdKey[..4 * (key.rounds + 1)], key.rounds)
    ensures status != 0 && key != null ==> unchanged(key) && unchanged(key.rdKey)
  {
    hide KeySchedule, InvMixWord, Reversed, DecryptSchedule, SBox.Valid;
    w := [];
    status := SetEncryptKey(sb, user, bits, key, packed);
    if status < 0 {
      return;
    }
    var rk, nr := key.rdKey, key.rounds;
    w := rk[..4 * (nr + 1)];
    ReverseKeys(rk, nr);
    ghost var turned := rk[..4 * (nr + 1)];
    MixInnerKeys(sb, rk, nr, packed);
    ScheduleTurned(w, turned, rk[..4 * (nr + 1)], nr);
  }

  lemma ScheduleTurned(w: Words, turned: Words, dw: Words, nr: nat)
    requires nr > 0 && nr % 2 == 0 && |w| == |turned| == |dw| == 4 * (nr + 1)
    requires Reversed(w, turned, nr, nr / 2 + 1)
    requires forall t :: 0 <= t < 4 * (nr + 1) ==> dw[t] == if 4 <= t < 4 * nr then InvMixWord(turned[t]) else turned[t]
    ensures DecryptSchedule(w, dw, nr)
  {
    hide InvMixWord;
    forall r, c | 0 <= r <= nr && 0 <= c < 4
      ensures WordTurned(w, dw, nr, r, c)
    {
      assert ReversedAt(w, turned, nr, nr / 2 + 1, r, c);
    }
  }

  // ----- one block -----------------------------------------------------

  /** The state held in four words. */
  function StateOf(s0: bv32, s1: bv32, s2: bv32, s3: bv32): State {
    State(Unpack(s0), Unpack(s1), Unpack(s2), Unpack(s3))
  }

  /** The 16 bytes at offset i as a state. */
  function LoadState(s: seq<Byte>, i: nat): State
    requires i + 16 <= |s|
  {
    State(Col(s[i], s[i + 1], s[i + 2], s[i + 3]), Col(s[i + 4], s[i + 5], s[i + 6], s[i + 7]),
          Col(s[i + 8], s[i + 9], s[i + 10], s[i + 11]), Col(s[i + 12], s[i + 13], s[i + 14], s[i + 15]))
  }

  lemma LoadedState(s: seq<Byte>, i: nat, k0: bv32, k1: bv32, k2: bv32, k3: bv32)
    requires i + 16 <= |s|
    ensures StateOf(Xor(GetU32(s, i), k0), Xor(GetU32(s, i + 4), k1), Xor(GetU32(s, i + 8), k2), Xor(GetU32(s, i + 12), k3))
            == AddKey(LoadState(s, i), StateOf(k0, k1, k2, k3))
  {
    hide Pack, Unpack, PlusCol, Xor;
    LoadedCol(Col(s[i], s[i + 1], s[i + 2], s[i + 3]), k0);
    LoadedCol(Col(s[i + 4], s[i + 5], s[i + 6], s[i + 7]), k1);
    LoadedCol(Col(s[i + 8], s[i + 9], s[i + 10], s[i + 11]), k2);
    LoadedCol(Col(s[i + 12], s[i + 13], s[i + 14], s[i + 15]), k3);
  }

  lemma LoadedCol(s: Col, k: bv32)
    ensures Unpack(Xor(Pack(s), k)) == PlusCol(s, Unpack(k))
  {
    hide Pack, Unpack, PlusCol;
    PackKey(s, k);
  }

  /** PUTU32. */
  method PutU32(out: array<Byte>, o: nat, w: bv32)
    requires o + 4 <= out.Length
    modifies out
    ensures Col(out[o], out[o + 1], out[o + 2], out[o + 3]) == Unpack(w)
    ensures forall i :: 0 <= i < out.Length && !(o <= i < o + 4) ==> out[i] == old(out[i])
  {
    hide Byte0, Byte1, Byte2, Byte3;
    out[o] := Byte0(w);
    out[o + 1] := Byte1(w);
    out[o + 2] := Byte2(w);
    out[o + 3] := Byte3(w);
  }

  method PutState(out: array<Byte>, o: nat, s0: bv32, s1: bv32, s2: bv32, s3: bv32)
    requires o + 16 <= out.Length
    modifies out
    ensures LoadState(out[..], o) == StateOf(s0, s1, s2, s3)
    ensures forall i :: 0 <= i < out.Length && !(o <= i < o + 16) ==> out[i] == old(out[i])
  {
    hide Unpack;
    PutU32(out, o, s0);
    PutU32(out, o + 4, s1);
    PutU32(out, o + 8, s2);
    PutU32(out, o + 12, s3);
  }

  /** Four encryption words are one full round. */
  lemma EncRound(sb: SBox, s0: bv32, s1: bv32, s2: bv32, s3: bv32, k0: bv32, k1: bv32, k2: bv32, k3: bv32)
    ensures StateOf(EncWord(sb, s0, s1, s2, s3, k0), EncWord(sb, s1, s2, s3, s0, k1),
                    EncWord(sb, s2, s3, s0, s1, k2), EncWord(sb, s3, s0, s1, s2, k3))
            == AddKey(MixColumns(ShiftRows(SubBytes(sb.S, StateOf(s0, s1, s2, s3)))), StateOf(k0, k1, k2, k3))
  {
    hide EncWord, PlusCol, MixCol, Byte0, Byte1, Byte2, Byte3;
    EncWordIs(sb, s0, s1, s2, s3, k0);
    EncWordIs(sb, s1, s2, s3, s0, k1);
    EncWordIs(sb, s2, s3, s0, s1, k2);
    EncWordIs(sb, s3, s0, s1, s2, k3);
  }

  lemma EncLastRound(sb: SBox, s0: bv32, s1: bv32, s2: bv32, s3: bv32, k0: bv32, k1: bv32, k2: bv32, k3: bv32)
    ensures StateOf(EncLastWord(sb, s0, s1, s2, s3, k0), EncLastWord(sb, s1, s2, s3, s0, k1),
                    EncLastWord(sb, s2, s3, s0, s1, k2), EncLastWord(sb, s3, s0, s1, s2, k3))
            == AddKey(ShiftRows(SubBytes(sb.S, StateOf(s0, s1, s2, s3))), StateOf(k0, k1, k2, k3))
  {
    hide EncLastWord, PlusCol, Byte0, Byte1, Byte2, Byte3;
    EncLastWordIs(sb, s0, s1, s2, s3, k0);
    EncLastWordIs(sb, s1, s2, s3, s0, k1);
    EncLastWordIs(sb, s2, s3, s0, s1, k2);
    EncLastWordIs(sb, s3, s0, s1, s2, k3);
  }

  lemma DecRound(sb: SBox, s0: bv32, s1: bv32, s2: bv32, s3: bv32, k0: bv32, k1: bv32, k2: bv32, k3: bv32)
    ensures StateOf(DecWord(sb, s0, s3, s2, s1, k0), DecWord(sb, s1, s0, s3, s2, k1),
                    DecWord(sb, s2, s1, s0, s3, k2), DecWord(sb, s3, s2, s1, s0, k3))
            == AddKey(InvMixColumns(InvShiftRows(SubBytes(sb.Si, StateOf(s0, s1, s2, s3)))), StateOf(k0, k1, k2, k3))
  {
    hide DecWord, PlusCol, InvMixCol, Byte0, Byte1, Byte2, Byte3;
    DecWordIs(sb, s0, s3, s2, s1, k0);
    DecWordIs(sb, s1, s0, s3, s2, k1);
    DecWordIs(sb, s2, s1, s0, s3, k2);
    DecWordIs(sb, s3, s2, s1, s0, k3);
  }

  lemma DecLastRound(sb: SBox, s0: bv32, s1: bv32, s2: bv32, s3: bv32, k0: bv32, k1: bv32, k2: bv32, k3: bv32)
    ensures StateOf(DecLastWord(sb, s0, s3, s2, s1, k0), DecLastWord(sb, s1, s0, s3, s2, k1),
                    DecLastWord(sb, s2, s1, s0, s3, k2), DecLastWord(sb, s3, s2, s1, s0, k3))
            == AddKey(InvShiftRows(SubBytes(sb.Si, StateOf(s0, s1, s2, s3))), StateOf(k0, k1, k2, k3))
  {
    hide DecLastWord, PlusCol, Byte0, Byte1, Byte2, Byte3;
    DecLastWordIs(sb, s0, s3, s2, s1, k0);
    DecLastWordIs(sb, s1, s0, s3, s2, k1);
    DecLastWordIs(sb, s2, s1, s0, s3, k2);
    DecLastWordIs(sb, s3, s2, s1, s0, k3);
  }

  /** One more full round, with the words of its round key. */
  lemma EncNext(sb: SBox, w: Words, st: State, n: nat, s0: bv32, s1: bv32, s2: bv32, s3: bv32)
    requires 4 * n + 8 <= |w| && StateOf(s0, s1, s2, s3) == AfterRounds(sb, w, st, n)
    ensures StateOf(EncWord(sb, s0, s1, s2, s3, w[4 * n + 4]), EncWord(sb, s1, s2, s3, s0, w[4 * n + 5]),
                    EncWord(sb, s2, s3, s0, s1, w[4 * n + 6]), EncWord(sb, s3, s0, s1, s2, w[4 * n + 7]))
            == AfterRounds(sb, w, st, n + 1)
  {
    hide EncWord, StateOf, AddKey, MixColumns, ShiftRows, SubBytes;
    KeyAt(w, n + 1);
    EncRound(sb, s0, s1, s2, s3, w[4 * n + 4], w[4 * n + 5], w[4 * n + 6], w[4 * n + 7]);
  }

  lemma DecNext(sb: SBox, w: Words, st: State, n: nat, s0: bv32, s1: bv32, s2: bv32, s3: bv32)
    requires 4 * n + 8 <= |w| && StateOf(s0, s1, s2, s3) == InvAfterRounds(sb, w, st, n)
    ensures StateOf(DecWord(sb, s0, s3, s2, s1, w[4 * n + 4]), DecWord(sb, s1, s0, s3, s2, w[4 * n + 5]),
                    DecWord(sb, s2, s1, s0, s3, w[4 * n + 6]), DecWord(sb, s3, s2, s1, s0, w[4 * n + 7]))
            == InvAfterRounds(sb, w, st, n + 1)
  {
    hide DecWord, StateOf, AddKey, InvMixColumns, InvShiftRows, SubBytes;
    KeyAt(w, n + 1);
    DecRound(sb, s0, s1, s2, s3, w[4 * n + 4], w[4 * n + 5], w[4 * n + 6], w[4 * n + 7]);
  }

  /** The four assignments of one round, with the round key at rk[b..]. */
  method EncOneRound(sb: SBox, rk: array<bv32>, b: nat, s0: bv32, s1: bv32, s2: bv32, s3: bv32, ghost w: Words, ghost st: State, ghost n: nat)
    returns (t0: bv32, t1: bv32, t2: bv32, t3: bv32)
    requires b == 4 * n + 4 && b + 4 <= |w| <= rk.Length && w == rk[..|w|]
    requires StateOf(s0, s1, s2, s3) == AfterRounds(sb, w, st, n)
    ensures StateOf(t0, t1, t2, t3) == AfterRounds(sb, w, st, n + 1)
  {
    hide AfterRounds, EncWord, StateOf;
    EncNext(sb, w, st, n, s0, s1, s2, s3);
    t0 := EncWord(sb, s0, s1, s2, s3, rk[b]);
    t1 := EncWord(sb, s1, s2, s3, s0, rk[b + 1]);
    t2 := EncWord(sb, s2, s3, s0, s1, rk[b + 2]);
    t3 := EncWord(sb, s3, s0, s1, s2, rk[b + 3]);
  }

  /** The four assignments of one round, with the round key at rk[b..]. */
  method DecOneRound(sb: SBox, rk: array<bv32>, b: nat, s0: bv32, s1: bv32, s2: bv32, s3: bv32, ghost w: Words, ghost st: State, ghost n: nat)
    returns (t0: bv32, t1: bv32, t2: bv32, t3: bv32)
    requires b == 4 * n + 4 && b + 4 <= |w| <= rk.Length && w == rk[..|w|]
    requires StateOf(s0, s1, s2, s3) == InvAfterRounds(sb, w, st, n)
    ensures StateOf(t0, t1, t2, t3) == InvAfterRounds(sb, w, st, n + 1)
  {
    hide InvAfterRounds, DecWord, StateOf;
    DecNext(sb, w, st, n, s0, s1, s2, s3);
    t0 := DecWord(sb, s0, s3, s2, s1, rk[b]);
    t1 := DecWord(sb, s1, s0, s3, s2, rk[b + 1]);
    t2 := DecWord(sb, s2, s1, s0, s3, rk[b + 2]);
    t3 := DecWord(sb, s3, s2, s1, s0, rk[b + 3]);
  }

  /** All rounds but the last, two per pass. */
  method EncryptRounds(sb: SBox, rk: array<bv32>, rounds: nat, i0: bv32, i1: bv32, i2: bv32, i3: bv32, ghost st: State)
    returns (t0: bv32, t1: bv32, t2: bv32, t3: bv32)
    requires rk.Length == MAX_WORDS && (rounds == 10 || rounds == 12 || rounds == 14)
    requires StateOf(i0, i1, i2, i3) == AfterRounds(sb, rk[..4 * (rounds + 1)], st, 0)
    ensures StateOf(t0, t1, t2, t3) == AfterRounds(sb, rk[..4 * (rounds + 1)], st, rounds - 1)
  {
    hide AfterRounds, EncWord, StateOf, AddKey, MixColumns, ShiftRows, SubBytes;
    var s0, s1, s2, s3 := i0, i1, i2, i3;
    t0, t1, t2, t3 := s0, s1, s2, s3;
    ghost var w := rk[..4 * (rounds + 1)];
    assert |w| == 4 * rounds + 4 <= MAX_WORDS;
    var r, b := rounds / 2, 0;
    ghost var done := 0;
    while true
      invariant 0 < r && done == rounds - 2 * r && b == 4 * done
      invariant StateOf(s0, s1, s2, s3) == AfterRounds(sb, w, st, done)
      decreases r
    {
      t0, t1, t2, t3 := EncOneRound(sb, rk, b + 4, s0, s1, s2, s3, w, st, done);
      b := b + 8;
      r := r - 1;
      if r == 0 {
        break;
      }
      s0, s1, s2, s3 := EncOneRound(sb, rk, b, t0, t1, t2, t3, w, st, done + 1);
      done := done + 2;
    }
  }

  /** The two-rounds-per-pass loop is the section 5.1 cipher. in and out may overlap. */
  method Encrypt(sb: SBox, input: array<Byte>, i: nat, out: array<Byte>, o: nat, key: AesKey)
    requires i + 16 <= input.Length && o + 16 <= out.Length
    requires key.rdKey.Length == MAX_WORDS && key.rounds in {10, 12, 14}
    requires out as object != key.rdKey
    modifies out
    ensures LoadState(out[..], o)
            == Cipher(sb, key.rdKey[..4 * (key.rounds + 1)], key.rounds, old(LoadState(input[..], i)))
    ensures forall k :: 0 <= k < out.Length && !(o <= k < o + 16) ==> out[k] == old(out[k])
  {
    hide GetU32, EncWord, EncLastWord, StateOf, AddKey, MixColumns, ShiftRows, SubBytes, Xor, LoadState;
    var rk, b, rounds := key.rdKey, 0, key.rounds;
    ghost var w, st := rk[..4 * (rounds + 1)], LoadState(input[..], i);
    var s0 := Xor(GetU32(input[..], i), rk[0]);
    var s1 := Xor(GetU32(input[..], i + 4), rk[1]);
    var s2 := Xor(GetU32(input[..], i + 8), rk[2]);
    var s3 := Xor(GetU32(input[..], i + 12), rk[3]);
    LoadedState(input[..], i, rk[0], rk[1], rk[2], rk[3]);
    KeyAt(w, 0);
    var t0, t1, t2, t3 := EncryptRounds(sb, rk, rounds, s0, s1, s2, s3, st);
    b := 4 * rounds;
    KeyAt(w, rounds);
    EncLastRound(sb, t0, t1, t2, t3, rk[b], rk[b + 1], rk[b + 2], rk[b + 3]);
    s0 := EncLastWord(sb, t0, t1, t2, t3, rk[b]);
    s1 := EncLastWord(sb, t1, t2, t3, t0, rk[b + 1]);
    s2 := EncLastWord(sb, t2, t3, t0, t1, rk[b + 2]);
    s3 := EncLastWord(sb, t3, t0, t1, t2, rk[b + 3]);
    PutState(out, o, s0, s1, s2, s3);
  }

  /** All rounds but the last, two per pass. */
  method DecryptRounds(sb: SBox, rk: array<bv32>, rounds: nat, i0: bv32, i1: bv32, i2: bv32, i3: bv32, ghost st: State)
    returns (t0: bv32, t1: bv32, t2: bv32, t3: bv32)
    requires rk.Length == MAX_WORDS && (rounds == 10 || rounds == 12 || rounds == 14)
    requires StateOf(i0, i1, i2, i3) == InvAfterRounds(sb, rk[..4 * (rounds + 1)], st, 0)
    ensures StateOf(t0, t1, t2, t3) == InvAfterRounds(sb, rk[..4 * (rounds + 1)], st, rounds - 1)
  {
    hide InvAfterRounds, DecWord, StateOf, AddKey, InvMixColumns, InvShiftRows, SubBytes;
    var s0, s1, s2, s3 := i0, i1, i2, i3;
    t0, t1, t2, t3 := s0, s1, s2, s3;
    ghost var w := rk[..4 * (rounds + 1)];
    assert |w| == 4 * rounds + 4 <= MAX_WORDS;
    var r, b := rounds / 2, 0;
    ghost var done := 0;
    while true
      invariant 0 < r && done == rounds - 2 * r && b == 4 * done
      invariant StateOf(s0, s1, s2, s3) == InvAfterRounds(sb, w, st, done)
      decreases r
    {
      t0, t1, t2, t3 := DecOneRound(sb, rk, b + 4, s0, s1, s2, s3, w, st, done);
      b := b + 8;
      r := r - 1;
      if r == 0 {
        break;
      }
      s0, s1, s2, s3 := DecOneRound(sb, rk, b, t0, t1, t2, t3, w, st, done + 1);
      done := done + 2;
    }
  }

  /** The decryption loop is the section 5.3.5 equivalent inverse cipher. */
  method Decrypt(sb: SBox, input: array<Byte>, i: nat, out: array<Byte>, o: nat, key: AesKey)
    requires i + 16 <= input.Length && o + 16 <= out.Length
    requires key.rdKey.Length == MAX_WORDS && key.rounds in {10, 12, 14}
    requires out as object != key.rdKey
    modifies out
    ensures LoadState(out[..], o)
            == EqInvCipher(sb, key.rdKey[..4 * (key.rounds + 1)], key.rounds, old(LoadState(input[..], i)))
    ensures forall k :: 0 <= k < out.Length && !(o <= k < o + 16) ==> out[k] == old(out[k])
  {
    hide GetU32, DecWord, DecLastWord, StateOf, AddKey, InvMixColumns, InvShiftRows, SubBytes, Xor, LoadState;
    var rk, b, rounds := key.rdKey, 0, key.rounds;
    ghost var w, st := rk[..4 * (rounds + 1)], LoadState(input[..], i);
    var s0 := Xor(GetU32(input[..], i), rk[0]);
    var s1 := Xor(GetU32(input[..], i + 4), rk[1]);
    var s2 := Xor(GetU32(input[..], i + 8), rk[2]);
    var s3 := Xor(GetU32(input[..], i + 12), rk[3]);
    LoadedState(input[..], i, rk[0], rk[1], rk[2], rk[3]);
    KeyAt(w, 0);
    var t0, t1, t2, t3 := DecryptRounds(sb, rk, rounds, s0, s1, s2, s3, st);
    b := 4 * rounds;
    KeyAt(w, rounds);
    DecLastRound(sb, t0, t1, t2, t3, rk[b], rk[b + 1], rk[b + 2], rk[b + 3]);
    s0 := DecLastWord(sb, t0, t3, t2, t1, rk[b]);
    s1 := DecLastWord(sb, t1, t0, t3, t2, rk[b + 1]);
    s2 := DecLastWord(sb, t2, t1, t0, t3, rk[b + 2]);
    s3 := DecLastWord(sb, t3, t2, t1, t0, rk[b + 3]);
    PutState(out, o, s0, s1, s2, s3);
  }

  lemma KeyAt(w: Words, r: nat)
    requires 4 * r + 4 <= |w|
    ensures RoundKey(w, r) == StateOf(w[4 * r], w[4 * r + 1], w[4 * r + 2], w[4 * r + 3])
  {
  }

  /** A key has exactly one expansion. */
  lemma {:induction false} KeyScheduleUnique(sb: SBox, user: seq<Byte>, bits: int, w: Words, w': Words, rounds: int)
    requires KeySchedule(sb, user, bits, w, rounds) && KeySchedule(sb, user, bits, w', rounds)
    ensures w == w'
  {
    forall n | 0 <= n <= |w|
      ensures w[..n] == w'[..n]
    {
      SamePrefix(sb, user, bits, w, w', rounds, n);
    }
    assert w[..|w|] == w && w'[..|w|] == w';
  }

  lemma {:induction false} SamePrefix(sb: SBox, user: seq<Byte>, bits: int, w: Words, w': Words, rounds: int, n: nat)
    requires KeySchedule(sb, user, bits, w, rounds) && KeySchedule(sb, user, bits, w', rounds) && n <= |w|
    ensures w[..n] == w'[..n]
  {
    hide NextWord, Pack;
    if n > 0 {
      SamePrefix(sb, user, bits, w, w', rounds, n - 1);
      var nk := bits / 32;
      if nk < n {
        assert WordOk(sb, w, nk, n - 1) && WordOk(sb, w', nk, n - 1);
        assert w[n - 2] == w[..n - 1][n - 2] && w[n - 1 - nk] == w[..n - 1][n - 1 - nk];
        assert w'[n - 2] == w'[..n - 1][n - 2] && w'[n - 1 - nk] == w'[..n - 1][n - 1 - nk];
      }
      assert w[..n] == w[..n - 1] + [w[n - 1]] && w'[..n] == w'[..n - 1] + [w'[n - 1]];
    }
  }

  /** Encrypting a block in place and decrypting it again with the same user key restores it, for every key
      of the three sizes, in both builds, over any S-box pair. */
  method EncryptThenDecrypt(sb: SBox, user: array<Byte>, bits: int, block: array<Byte>, o: nat, packed: bool)
    requires sb.Valid() && bits in {128, 192, 256} && bits / 8 <= user.Length
    requires o + 16 <= block.Length && user != block
    modifies block
    ensures LoadState(block[..], o) == old(LoadState(block[..], o))
    ensures forall k :: 0 <= k < block.Length && !(o <= k < o + 16) ==> block[k] == old(block[k])
  {
    hide KeySchedule, DecryptSchedule, Cipher, EqInvCipher, LoadState, SBox.Valid;
    var ek := new AesKey();
    var dk := new AesKey();
    var r := SetEncryptKey(sb, user, bits, ek, packed);
    ghost var w1, st := ek.rdKey[..4 * (ek.rounds + 1)], LoadState(block[..], o);
    Encrypt(sb, block, o, block, o, ek);
    ghost var w2;
    r, w2 := SetDecryptKey(sb, user, bits, dk, packed);
    KeyScheduleUnique(sb, user[..], bits, w1, w2, ek.rounds);
    Decrypt(sb, block, o, block, o, dk);
    EqInvCipherInverts(sb, w1, dk.rdKey[..4 * (dk.rounds + 1)], dk.rounds, st);
  }
}
