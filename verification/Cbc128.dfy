// CRYPTO_cbc128_encrypt and CRYPTO_cbc128_decrypt (openssl/cbc128.c): byte-wise and
// word-wise paths, in place or not, whole blocks and tail.

module Cbc128 {
  import opened Gf
  import opened CbcSpec

  // ----- machine words of sizeof(size_t) == 8 bytes --------------------

  function Word(b0: bv8, b1: bv8, b2: bv8, b3: bv8, b4: bv8, b5: bv8, b6: bv8, b7: bv8): bv64 {
    (b0 as bv64) | ((b1 as bv64) << 8) | ((b2 as bv64) << 16) | ((b3 as bv64) << 24) |
    ((b4 as bv64) << 32) | ((b5 as bv64) << 40) | ((b6 as bv64) << 48) | ((b7 as bv64) << 56)
  }

  function WordByte(w: bv64, k: nat): bv8
    requires k < 8
  {
    if k == 0 then (w & 0xff) as bv8
    else if k == 1 then ((w >> 8) & 0xff) as bv8
    else if k == 2 then ((w >> 16) & 0xff) as bv8
    else if k == 3 then ((w >> 24) & 0xff) as bv8
    else if k == 4 then ((w >> 32) & 0xff) as bv8
    else if k == 5 then ((w >> 40) & 0xff) as bv8
    else if k == 6 then ((w >> 48) & 0xff) as bv8
    else ((w >> 56) & 0xff) as bv8
  }

  function Xor64(x: bv64, y: bv64): bv64 { x ^ y }

  lemma WordXor(a0: bv8, a1: bv8, a2: bv8, a3: bv8, a4: bv8, a5: bv8, a6: bv8, a7: bv8,
    b0: bv8, b1: bv8, b2: bv8, b3: bv8, b4: bv8, b5: bv8, b6: bv8, b7: bv8)
    ensures Xor64(Word(a0, a1, a2, a3, a4, a5, a6, a7), Word(b0, b1, b2, b3, b4, b5, b6, b7))
            == Word(Xor2(a0, b0), Xor2(a1, b1), Xor2(a2, b2), Xor2(a3, b3), Xor2(a4, b4), Xor2(a5, b5), Xor2(a6, b6), Xor2(a7, b7))
  {
  }

  lemma WordBytes(b0: bv8, b1: bv8, b2: bv8, b3: bv8, b4: bv8, b5: bv8, b6: bv8, b7: bv8)
    ensures var w := Word(b0, b1, b2, b3, b4, b5, b6, b7);
            WordByte(w, 0) == b0 && WordByte(w, 1) == b1 && WordByte(w, 2) == b2 && WordByte(w, 3) == b3 &&
            WordByte(w, 4) == b4 && WordByte(w, 5) == b5 && WordByte(w, 6) == b6 && WordByte(w, 7) == b7
  {
  }

  /** The eight bytes at an offset as one word. */
  function LoadWord(s: seq<Byte>, i: nat): bv64
    requires i + 8 <= |s|
  {
    Word(s[i].v, s[i + 1].v, s[i + 2].v, s[i + 3].v, s[i + 4].v, s[i + 5].v, s[i + 6].v, s[i + 7].v)
  }

  /** Xor-ing words is xor-ing their bytes. */
  lemma XoredWords(s: seq<Byte>, i: nat, t: seq<Byte>, j: nat, k: nat)
    requires i + 8 <= |s| && j + 8 <= |t| && k < 8
    ensures Byte(WordByte(Xor64(LoadWord(s, i), LoadWord(t, j)), k)) == Plus(s[i + k], t[j + k])
  {
    hide WordByte, Word, Xor2, Xor64;
    WordXor(s[i].v, s[i + 1].v, s[i + 2].v, s[i + 3].v, s[i + 4].v, s[i + 5].v, s[i + 6].v, s[i + 7].v,
      t[j].v, t[j + 1].v, t[j + 2].v, t[j + 3].v, t[j + 4].v, t[j + 5].v, t[j + 6].v, t[j + 7].v);
    WordBytes(Xor2(s[i].v, t[j].v), Xor2(s[i + 1].v, t[j + 1].v), Xor2(s[i + 2].v, t[j + 2].v), Xor2(s[i + 3].v, t[j + 3].v),
      Xor2(s[i + 4].v, t[j + 4].v), Xor2(s[i + 5].v, t[j + 5].v), Xor2(s[i + 6].v, t[j + 6].v), Xor2(s[i + 7].v, t[j + 7].v));
    assert k == 0 || k == 1 || k == 2 || k == 3 || k == 4 || k == 5 || k == 6 || k == 7;
  }

  // ----- blocks of a buffer --------------------------------------------

  /** s with b written at offset o. */
  function Put(s: seq<Byte>, o: nat, b: seq<Byte>): (r: seq<Byte>)
    requires o + |b| <= |s|
    ensures |r| == |s|
  {
    s[..o] + b + s[o + |b|..]
  }

  /** s is s0 with the first n bytes of b written at offset o. */
  ghost predicate Writing(s: seq<Byte>, s0: seq<Byte>, o: nat, b: seq<Byte>, n: nat) {
    && |s| == |s0| && n <= |b| && o + |b| <= |s|
    && forall t :: 0 <= t < |s| ==> s[t] == if o <= t < o + n then b[t - o] else s0[t]
  }

  lemma Written(s: seq<Byte>, s0: seq<Byte>, o: nat, b: seq<Byte>)
    requires Writing(s, s0, o, b, |b|)
    ensures s == Put(s0, o, b)
  {
  }

  lemma WriteNext(s: seq<Byte>, s0: seq<Byte>, o: nat, b: seq<Byte>, n: nat, s': seq<Byte>)
    requires Writing(s, s0, o, b, n) && n < |b| && s' == s[o + n := b[n]]
    ensures Writing(s', s0, o, b, n + 1)
  {
  }

  /** What a reader of block po sees while block oo of the same buffer is being written. */
  lemma StillThere(s: seq<Byte>, s0: seq<Byte>, o: nat, b: seq<Byte>, n: nat, t: nat)
    requires Writing(s, s0, o, b, n) && t < |s| && !(o <= t < o + n)
    ensures s[t] == s0[t]
  {
  }

  lemma WriteNothing(s: seq<Byte>, o: nat, b: seq<Byte>)
    requires o + |b| <= |s|
    ensures Writing(s, s, o, b, 0)
  {
  }

  /** A source at offset po may be read while out is written at oo: elsewhere, in place, or behind. */
  ghost predicate SameOrApart(p: array<Byte>, po: nat, out: array<Byte>, oo: nat) {
    p == out ==> po == oo || po + 16 <= oo
  }

  /** Store a word as eight bytes. */
  method StoreWord(out: array<Byte>, o: nat, w: bv64, ghost s0: seq<Byte>, ghost oo: nat, ghost b: seq<Byte>)
    requires o + 8 <= out.Length && oo <= o && Writing(out[..], s0, oo, b, o - oo)
    requires o - oo + 8 <= |b| && forall k :: 0 <= k < 8 ==> b[o - oo + k] == Byte(WordByte(w, k))
    modifies out
    ensures Writing(out[..], s0, oo, b, o - oo + 8)
  {
    hide WordByte, Writing;
    for n := 0 to 8
      invariant Writing(out[..], s0, oo, b, o - oo + n)
    {
      ghost var s := out[..];
      out[o + n] := Byte(WordByte(w, n));
      WriteNext(s, s0, oo, b, o - oo + n, out[..]);
    }
  }

  /** Xor the input onto the chaining value byte by byte; past the end of a short input the chaining value is copied. */
  method XorBytes(p: array<Byte>, po: nat, len: nat, iv: array<Byte>, ivo: nat, out: array<Byte>, oo: nat)
    requires po + Min(16, len) <= p.Length && ivo + 16 <= iv.Length && oo + 16 <= out.Length
    requires SameOrApart(p, po, out, oo) && SameOrApart(iv, ivo, out, oo)
    modifies out
    ensures out[..] == Put(old(out[..]), oo, XorOnto(old(p[..])[po..po + Min(16, len)], old(iv[..])[ivo..ivo + 16]))
  {
    hide Plus, Writing, Put;
    ghost var p0, iv0, out0 := p[..], iv[..], out[..];
    ghost var want := XorOnto(p0[po..po + Min(16, len)], iv0[ivo..ivo + 16]);
    WriteNothing(out0, oo, want);
    var n := 0;
    while n < 16 && n < len
      invariant 0 <= n <= Min(16, len)
      invariant Writing(out[..], out0, oo, want, n)
    {
      Unwritten(p, po, n, p0, out, oo, out0, want);
      Unwritten(iv, ivo, n, iv0, out, oo, out0, want);
      ghost var s := out[..];
      out[oo + n] := Plus(p[po + n], iv[ivo + n]);
      WriteNext(s, out0, oo, want, n, out[..]);
      n := n + 1;
    }
    while n < 16
      invariant Min(16, len) <= n <= 16
      invariant Writing(out[..], out0, oo, want, n)
    {
      Unwritten(iv, ivo, n, iv0, out, oo, out0, want);
      ghost var s := out[..];
      out[oo + n] := iv[ivo + n];
      WriteNext(s, out0, oo, want, n, out[..]);
      n := n + 1;
    }
    Written(out[..], out0, oo, want);
  }

  /** Byte n of a source block is still what it was while byte n of the target is due. */
  lemma Unwritten(p: array<Byte>, po: nat, n: nat, p0: seq<Byte>, out: array<Byte>, oo: nat, out0: seq<Byte>, want: seq<Byte>)
    requires (if p == out then p0 == out0 else p[..] == p0) && n < 16 && po + n < p.Length
    requires SameOrApart(p, po, out, oo) && Writing(out[..], out0, oo, want, n)
    ensures |p0| == p.Length && p[po + n] == p0[po + n]
  {
    if p == out {
      StillThere(out[..], out0, oo, want, n, po + n);
    }
  }

  /** The same for a whole block, in two words. */
  method XorWords(p: array<Byte>, po: nat, iv: array<Byte>, ivo: nat, out: array<Byte>, oo: nat)
    requires po + 16 <= p.Length && ivo + 16 <= iv.Length && oo + 16 <= out.Length
    requires SameOrApart(p, po, out, oo) && SameOrApart(iv, ivo, out, oo)
    modifies out
    ensures out[..] == Put(old(out[..]), oo, XorOnto(old(p[..])[po..po + 16], old(iv[..])[ivo..ivo + 16]))
  {
    hide Plus, LoadWord, WordByte, Xor64, Writing, Put, XorOnto;
    ghost var p0, iv0, out0 := p[..], iv[..], out[..];
    ghost var want := XorOnto(p0[po..po + 16], iv0[ivo..ivo + 16]);
    WriteNothing(out0, oo, want);
    var n := 0;
    while n < 16
      invariant n == 0 || n == 8 || n == 16
      invariant Writing(out[..], out0, oo, want, n)
    {
      ghost var w := Xor64(LoadWord(p[..], po + n), LoadWord(iv[..], ivo + n));
      forall k | 0 <= k < 8
        ensures Byte(WordByte(w, k)) == want[n + k]
      {
        XoredWords(p[..], po + n, iv[..], ivo + n, k);
        UnwrittenAhead(p, po, n, k, p0, out, oo, out0, want);
        UnwrittenAhead(iv, ivo, n, k, iv0, out, oo, out0, want);
        XorOntoAt(p0, po, iv0, ivo, n + k);
      }
      StoreWord(out, oo + n, Xor64(LoadWord(p[..], po + n), LoadWord(iv[..], ivo + n)), out0, oo, want);
      n := n + 8;
    }
    Written(out[..], out0, oo, want);
  }

  lemma XorOntoAt(p: seq<Byte>, po: nat, iv: seq<Byte>, ivo: nat, k: nat)
    requires po + 16 <= |p| && ivo + 16 <= |iv| && k < 16
    ensures XorOnto(p[po..po + 16], iv[ivo..ivo + 16])[k] == Plus(p[po + k], iv[ivo + k])
  {
  }

  lemma UnwrittenAhead(p: array<Byte>, po: nat, n: nat, k: nat, p0: seq<Byte>, out: array<Byte>, oo: nat, out0: seq<Byte>, want: seq<Byte>)
    requires (if p == out then p0 == out0 else p[..] == p0) && n + k < 16 && po + n + k < p.Length
    requires SameOrApart(p, po, out, oo) && Writing(out[..], out0, oo, want, n)
    ensures |p0| == p.Length && p[po + n + k] == p0[po + n + k]
  {
    if p == out {
      StillThere(out[..], out0, oo, want, n, po + n + k);
    }
  }

  /** Call the block function. */
  method ApplyBlock(f: BlockFn, p: array<Byte>, po: nat, out: array<Byte>, oo: nat)
    requires po + 16 <= p.Length && oo + 16 <= out.Length
    modifies out
    ensures out[..] == Put(old(out[..]), oo, f(old(p[..])[po..po + 16]))
  {
    hide Writing, Put;
    assert p[po..po + 16] == p[..][po..po + 16];
    ghost var out0 := out[..];
    var b := f(p[po..po + 16]);
    WriteNothing(out0, oo, b);
    for n := 0 to 16
      invariant Writing(out[..], out0, oo, b, n)
    {
      ghost var s := out[..];
      out[oo + n] := b[n];
      WriteNext(s, out0, oo, b, n, out[..]);
    }
    Written(out[..], out0, oo, b);
  }

  lemma PutTwice(s: seq<Byte>, o: nat, b: Blk, c: Blk)
    requires o + 16 <= |s|
    ensures Put(s, o, b)[o..o + 16] == b
    ensures Put(Put(s, o, b), o, c) == Put(s, o, c)
  {
  }

  // ----- encryption ----------------------------------------------------

  /** Encrypt min(16, len) bytes at inp[i..] to the block out[o..], by words or by bytes. */
  method EncBlock(e: BlockFn, inp: array<Byte>, i: nat, len: nat, iv: array<Byte>, ivo: nat, out: array<Byte>, o: nat, words: bool)
    requires i + Min(16, len) <= inp.Length && ivo + 16 <= iv.Length && o + 16 <= out.Length
    requires SameOrApart(inp, i, out, o) && SameOrApart(iv, ivo, out, o)
    requires words ==> len >= 16
    modifies out
    ensures out[..] == Put(old(out[..]), o, e(XorOnto(old(inp[..])[i..i + Min(16, len)], old(iv[..])[ivo..ivo + 16])))
  {
    hide Put, XorOnto;
    ghost var out0 := out[..];
    ghost var x := XorOnto(inp[..][i..i + Min(16, len)], iv[..][ivo..ivo + 16]);
    if words {
      XorWords(inp, i, iv, ivo, out, o);
    } else {
      XorBytes(inp, i, len, iv, ivo, out, o);
    }
    PutTwice(out0, o, x, e(x));
    ApplyBlock(e, out, o, out, o);
  }

  /**
   * After the block at offset k: the input p up to there is encrypted onto out[oo..], iv holds the
   * chaining value, the rest of the input is still there and the rest of the output is untouched.
   */
  ghost predicate EncState(e: BlockFn, iv0: Blk, p: seq<Byte>, out0: seq<Byte>,
    inp: seq<Byte>, io: nat, out: seq<Byte>, oo: nat, k: nat, iv: seq<Byte>, ivo: nat)
  {
    && Aligned(k) && k <= Padded(|p|)
    && io + |p| <= |inp| && oo + Padded(|p|) <= |out| == |out0|
    && ivo + 16 <= |iv|
    && EncSoFar(e, iv0, p, Min(k, |p|), out[oo..oo + k], iv[ivo..ivo + 16])
    && InputLeft(inp, io, p, Min(k, |p|))
    && OutputLeft(out, out0, oo, k)
  }

  /** The input from k on is still there. */
  ghost predicate InputLeft(inp: seq<Byte>, io: nat, p: seq<Byte>, k: nat) {
    io + |p| <= |inp| && k <= |p| && inp[io + k..io + |p|] == p[k..]
  }

  /** The output outside the first m bytes is untouched. */
  ghost predicate OutputLeft(out: seq<Byte>, out0: seq<Byte>, oo: nat, m: nat) {
    oo + m <= |out| == |out0| && out[..oo] == out0[..oo] && out[oo + m..] == out0[oo + m..]
  }

  /** done is the encryption of the first m bytes of p, and iv the chaining value. */
  ghost predicate EncSoFar(e: BlockFn, iv0: Blk, p: seq<Byte>, m: nat, done: seq<Byte>, iv: seq<Byte>)
    requires m <= |p|
  {
    done == Enc(e, iv0, p[..m]) && iv == EncIv(e, iv0, p[..m])
  }

  lemma EncStep(e: BlockFn, iv0: Blk, p: seq<Byte>, k: nat, m: nat, done: seq<Byte>, iv: Blk, c: Blk)
    requires Aligned(k) && 0 < m <= 16 && k + m <= |p|
    requires EncSoFar(e, iv0, p, k, done, iv) && c == e(XorOnto(p[k..k + m], iv))
    ensures EncSoFar(e, iv0, p, k + m, done + c, c)
  {
    EncOneMore(e, iv0, p, k, m);
  }

  lemma SliceOf(s: seq<Byte>, lo: nat, hi: nat, p: seq<Byte>, k: nat, m: nat)
    requires lo + m <= hi <= |s| && k <= |p| && s[lo..hi] == p[k..]
    ensures k + m <= |p| && s[lo..lo + m] == p[k..k + m] && s[lo + m..hi] == p[k + m..]
  {
    assert s[lo..lo + m] == s[lo..hi][..m];
    assert s[lo + m..hi] == s[lo..hi][m..];
  }

  /** Writing the next ciphertext block moves the state on, in place or not. */
  lemma EncAdvance(e: BlockFn, iv0: Blk, p: seq<Byte>, out0: seq<Byte>,
    inp: seq<Byte>, io: nat, out: seq<Byte>, oo: nat, k: nat, iv: seq<Byte>, ivo: nat, inp': seq<Byte>, out': seq<Byte>)
    requires EncState(e, iv0, p, out0, inp, io, out, oo, k, iv, ivo) && k < |p|
    requires k + 16 <= Padded(|p|) && oo + k + 16 <= |out|
    requires out' == Put(out, oo + k, e(XorOnto(inp[io + k..io + k + Min(16, |p| - k)], iv[ivo..ivo + 16])))
    requires inp' == inp || (inp == out && inp' == out' && io == oo)
    ensures EncState(e, iv0, p, out0, inp', io, out', oo, k + 16, out', oo + k)
  {
    hide Enc, EncIv, XorOnto, EncSoFar, Padded, Aligned, Put, InputLeft, OutputLeft;
    NextBlock(k, |p|);
    var m := Min(16, |p| - k);
    SliceIs(inp, io, p, k, m);
    var c := e(XorOnto(p[k..k + m], iv[ivo..ivo + 16]));
    EncStep(e, iv0, p, k, m, out[oo..oo + k], iv[ivo..ivo + 16], c);
    OutputStays(out, out0, oo, k, c);
    if m == 16 {
      InputStays(inp, io, p, k, 16, inp', out, oo, c);
    } else {
      NoInputLeft(inp', io, p);
    }
  }

  /** What is left of the input after a step is still there, even if the output is written over what was read. */
  lemma InputStays(inp: seq<Byte>, io: nat, p: seq<Byte>, k: nat, m: nat, inp': seq<Byte>, out: seq<Byte>, oo: nat, b: seq<Byte>)
    requires InputLeft(inp, io, p, k) && k + m <= |p|
    requires |b| <= m && oo + k + |b| <= |out|
    requires inp' == inp || (inp == out && inp' == Put(out, oo + k, b) && io == oo)
    ensures |inp'| == |inp| && InputLeft(inp', io, p, k + m)
  {
    hide Put;
    SliceOf(inp, io + k, io + |p|, p, k, m);
    if inp' != inp {
      PutBefore(out, oo + k, b, io + |p|);
      assert inp'[io + k + m..io + |p|] == inp'[io + k + |b|..io + |p|][m - |b|..];
      assert inp[io + k + m..io + |p|] == inp[io + k + |b|..io + |p|][m - |b|..];
    }
  }

  /** The next bytes go behind those that are there, and the rest of the output stays. */
  lemma OutputStays(out: seq<Byte>, out0: seq<Byte>, oo: nat, k: nat, b: seq<Byte>)
    requires OutputLeft(out, out0, oo, k) && oo + k + |b| <= |out|
    ensures var r := Put(out, oo + k, b);
            && OutputLeft(r, out0, oo, k + |b|)
            && r[oo..oo + k + |b|] == out[oo..oo + k] + b && r[oo + k..oo + k + |b|] == b
  {
    assert out[oo + k..][|b|..] == out[oo + k + |b|..] && out0[oo + k..][|b|..] == out0[oo + k + |b|..];
  }

  lemma NoInputLeft(inp: seq<Byte>, io: nat, p: seq<Byte>)
    requires io + |p| <= |inp|
    ensures InputLeft(inp, io, p, |p|)
  {
  }

  lemma SliceIs(inp: seq<Byte>, io: nat, p: seq<Byte>, k: nat, m: nat)
    requires InputLeft(inp, io, p, k) && k + m <= |p|
    ensures io + k + m <= |inp| && inp[io + k..io + k + m] == p[k..k + m]
  {
    SliceOf(inp, io + k, io + |p|, p, k, m);
  }

  lemma PutBefore(s: seq<Byte>, o: nat, c: seq<Byte>, hi: nat)
    requires o + |c| <= hi <= |s|
    ensures Put(s, o, c)[o + |c|..hi] == s[o + |c|..hi]
  {
  }

  /** One iteration of either loop: the next block, chained from (iv, ivo). */
  method EncIteration(e: BlockFn, ghost iv0: Blk, ghost p: seq<Byte>, ghost out0: seq<Byte>,
    inp: array<Byte>, io: nat, out: array<Byte>, oo: nat, k: nat, len: nat, iv: array<Byte>, ivo: nat, words: bool)
    requires EncState(e, iv0, p, out0, inp[..], io, out[..], oo, k, iv[..], ivo)
    requires len == |p| - k > 0 && (inp == out ==> io == oo) && SameOrApart(iv, ivo, out, oo + k) && (words ==> len >= 16)
    modifies out
    ensures EncState(e, iv0, p, out0, inp[..], io, out[..], oo, k + 16, out[..], oo + k)
  {
    hide Enc, EncIv, XorOnto, EncSoFar, Padded, Aligned, Put;
    NextBlock(k, |p|);
    ghost var inp1, out1, iv1 := inp[..], out[..], iv[..];
    EncBlock(e, inp, io + k, len, iv, ivo, out, oo + k, words);
    EncAdvance(e, iv0, p, out0, inp1, io, out1, oo, k, iv1, ivo, inp[..], out[..]);
  }

  lemma EncStart(e: BlockFn, iv0: Blk, p: seq<Byte>, inp: seq<Byte>, io: nat, out: seq<Byte>, oo: nat)
    requires io + |p| <= |inp| && oo + Padded(|p|) <= |out| && p == inp[io..io + |p|]
    ensures EncState(e, iv0, p, out, inp, io, out, oo, 0, iv0, 0)
  {
    assert out[oo..oo] == [] == p[..0] && iv0[0..16] == iv0 && p[0..] == p;
  }

  lemma EncFinish(e: BlockFn, iv0: Blk, p: seq<Byte>, out0: seq<Byte>,
    inp: seq<Byte>, io: nat, out: seq<Byte>, oo: nat, k: nat, iv: seq<Byte>, ivo: nat)
    requires EncState(e, iv0, p, out0, inp, io, out, oo, k, iv, ivo) && k >= |p|
    ensures out == Put(out0, oo, Enc(e, iv0, p)) && iv[ivo..ivo + 16] == EncIv(e, iv0, p)
  {
    hide Enc, EncIv;
    assert p[..|p|] == p && k == Padded(|p|);
    assert out == out[..oo] + out[oo..oo + k] + out[oo + k..];
  }

  /** CRYPTO_cbc128_encrypt. */
  method Encrypt(e: BlockFn, inp: array<Byte>, io: nat, out: array<Byte>, oo: nat, len: nat, ivec: array<Byte>,
    smallFootprint: bool, words: bool)
    requires io + len <= inp.Length && oo + Padded(len) <= out.Length && ivec.Length == 16
    requires (inp == out ==> io == oo) && ivec != inp && ivec != out
    modifies out, ivec
    ensures out[..] == Put(old(out[..]), oo, Enc(e, old(ivec[..]), old(inp[io..io + len])))
    ensures ivec[..] == EncIv(e, old(ivec[..]), old(inp[io..io + len]))
  {
    hide Enc, EncIv, XorOnto, EncState, Padded, Aligned, Put;
    ghost var p, iv0, out0 := inp[io..io + len], ivec[..], out[..];
    var iv, ivo: nat := ivec, 0;
    var k: nat := 0;
    EncStart(e, iv0, p, inp[..], io, out0, oo);
    if !smallFootprint {
      while len - k >= 16
        invariant EncState(e, iv0, p, out0, inp[..], io, out[..], oo, k, iv[..], ivo)
        invariant k <= len && if k == 0 then iv == ivec else iv == out && ivo + 16 == oo + k
        modifies out
      {
        EncIteration(e, iv0, p, out0, inp, io, out, oo, k, len - k, iv, ivo, words);
        iv, ivo := out, oo + k;
        k := k + 16;
      }
    }
    while len - k > 0
      invariant EncState(e, iv0, p, out0, inp[..], io, out[..], oo, k, iv[..], ivo)
      invariant if k == 0 then iv == ivec else iv == out && ivo + 16 == oo + k
      modifies out
    {
      EncIteration(e, iv0, p, out0, inp, io, out, oo, k, len - k, iv, ivo, false);
      iv, ivo := out, oo + k;
      if len - k <= 16 {
        k := k + 16;
        break;
      }
      k := k + 16;
    }
    EncFinish(e, iv0, p, out0, inp[..], io, out[..], oo, k, iv[..], ivo);
    EncState16(e, iv0, p, out0, inp[..], io, out[..], oo, k, iv[..], ivo);
    Copy16(ivec, iv, ivo);
  }

  lemma EncState16(e: BlockFn, iv0: Blk, p: seq<Byte>, out0: seq<Byte>,
    inp: seq<Byte>, io: nat, out: seq<Byte>, oo: nat, k: nat, iv: seq<Byte>, ivo: nat)
    requires EncState(e, iv0, p, out0, inp, io, out, oo, k, iv, ivo)
    ensures ivo + 16 <= |iv|
  {
  }

  // ----- decryption ----------------------------------------------------

  /** Out of place: the block function writes out, and the previous ciphertext is xor-ed onto it. */
  method DecApart(d: BlockFn, inp: array<Byte>, i: nat, iv: array<Byte>, ivo: nat, out: array<Byte>, o: nat, words: bool)
    requires i + 16 <= inp.Length && ivo + 16 <= iv.Length && o + 16 <= out.Length && inp != out && iv != out
    modifies out
    ensures out[..] == Put(old(out[..]), o, XorOnto(d(inp[..][i..i + 16]), iv[..][ivo..ivo + 16]))
  {
    hide Put, XorOnto;
    ghost var out0 := out[..];
    ghost var b := d(inp[..][i..i + 16]);
    ApplyBlock(d, inp, i, out, o);
    PutTwice(out0, o, b, XorOnto(b, iv[..][ivo..ivo + 16]));
    if words {
      XorWords(out, o, iv, ivo, out, o);
    } else {
      XorBytes(out, o, 16, iv, ivo, out, o);
    }
  }

  /** Byte n of the source block, read before the target's byte n is written, in place or not. */
  lemma SourceByte(s: seq<Byte>, s0: seq<Byte>, i: nat, out: seq<Byte>, out0: seq<Byte>, o: nat, want: seq<Byte>, m: nat, n: nat)
    requires s == s0 || (s == out && s0 == out0 && i == o)
    requires Writing(out, out0, o, want, m) && m <= n && i + n < |s0|
    ensures |s| == |s0| && s[i + n] == s0[i + n]
  {
  }

  lemma SwapByte(out: seq<Byte>, out0: seq<Byte>, o: nat, tmp: Blk, iv0: Blk, len: nat, n: nat, x: Byte, out': seq<Byte>)
    requires Writing(out, out0, o, XorOnto(tmp, iv0)[..Min(16, len)], n) && n < Min(16, len)
    requires x == Plus(tmp[n], iv0[n]) && out' == out[o + n := x]
    ensures Writing(out', out0, o, XorOnto(tmp, iv0)[..Min(16, len)], n + 1)
  {
    hide Plus;
  }

  /**
   * Each ciphertext byte goes into ivec while its place receives the plaintext byte; past the end of a
   * short tail the ciphertext is only copied to ivec.
   */
  method SwapBytes(tmp: array<Byte>, inp: array<Byte>, i: nat, len: nat, out: array<Byte>, o: nat, ivec: array<Byte>)
    requires tmp.Length == 16 == ivec.Length && i + 16 <= inp.Length && o + Min(16, len) <= out.Length
    requires tmp != out && tmp != ivec && ivec != inp && ivec != out && (inp == out ==> i == o)
    modifies out, ivec
    ensures out[..] == Put(old(out[..]), o, XorOnto(old(tmp[..]), old(ivec[..]))[..Min(16, len)])
    ensures ivec[..] == old(inp[..])[i..i + 16]
  {
    hide Plus, Writing, Put, XorOnto;
    ghost var inp0, out0, iv0, tmp0 := inp[..], out[..], ivec[..], tmp[..];
    ghost var want, last := XorOnto(tmp0, iv0)[..Min(16, len)], inp0[i..i + 16];
    WriteNothing(out0, o, want);
    WriteNothing(iv0, 0, last);
    var n := 0;
    while n < 16 && n < len
      invariant 0 <= n <= Min(16, len) && tmp[..] == tmp0
      invariant Writing(out[..], out0, o, want, n) && Writing(ivec[..], iv0, 0, last, n)
      invariant inp != out ==> inp[..] == inp0
    {
      ghost var outN, ivN := out[..], ivec[..];
      SourceByte(inp[..], inp0, i, outN, out0, o, want, n, n);
      StillThere(ivN, iv0, 0, last, n, n);
      assert tmp[n] == tmp[..][n];
      var c := inp[i + n];
      out[o + n] := Plus(tmp[n], ivec[n]);
      ivec[n] := c;
      SwapByte(outN, out0, o, tmp0, iv0, len, n, Plus(tmp0[n], iv0[n]), out[..]);
      WriteNext(ivN, iv0, 0, last, n, ivec[..]);
      n := n + 1;
    }
    Written(out[..], out0, o, want);
    ghost var inpN, outN := inp[..], out[..];
    while n < 16
      invariant Min(16, len) <= n <= 16 && inp[..] == inpN
      invariant Writing(ivec[..], iv0, 0, last, n)
      modifies ivec
    {
      ghost var ivN := ivec[..];
      SourceByte(inpN, inp0, i, outN, out0, o, want, Min(16, len), n);
      assert inp[i + n] == inpN[i + n];
      ivec[n] := inp[i + n];
      WriteNext(ivN, iv0, 0, last, n, ivec[..]);
      n := n + 1;
    }
    Written(ivec[..], iv0, 0, last);
    PutAll(iv0, last);
  }

  lemma PutAll(s: seq<Byte>, b: seq<Byte>)
    requires |s| == |b|
    ensures Put(s, 0, b) == b
  {
  }

  /** The same exchange for a whole block, word by word. */
  method SwapWords(tmp: array<Byte>, inp: array<Byte>, i: nat, out: array<Byte>, o: nat, ivec: array<Byte>)
    requires tmp.Length == 16 == ivec.Length && i + 16 <= inp.Length && o + 16 <= out.Length
    requires tmp != out && tmp != ivec && ivec != inp && ivec != out && (inp == out ==> i == o)
    modifies out, ivec
    ensures out[..] == Put(old(out[..]), o, XorOnto(old(tmp[..]), old(ivec[..])))
    ensures ivec[..] == old(inp[..])[i..i + 16]
  {
    hide Plus, Writing, Put, XorOnto, WordByte, LoadWord, Xor64;
    ghost var inp0, out0, iv0, tmp0 := inp[..], out[..], ivec[..], tmp[..];
    ghost var want, last := XorOnto(tmp0, iv0), inp0[i..i + 16];
    WriteNothing(out0, o, want);
    WriteNothing(iv0, 0, last);
    var n := 0;
    while n < 16
      invariant n == 0 || n == 8 || n == 16
      invariant tmp[..] == tmp0
      invariant Writing(out[..], out0, o, want, n) && Writing(ivec[..], iv0, 0, last, n)
      invariant inp != out ==> inp[..] == inp0
    {
      WordsSwapped(inp[..], inp0, i, out[..], out0, o, tmp0, iv0, ivec[..], last, n);
      var c := LoadWord(inp[..], i + n);
      StoreWord(out, o + n, Xor64(LoadWord(tmp[..], n), LoadWord(ivec[..], n)), out0, o, want);
      StoreWord(ivec, n, c, iv0, 0, last);
      n := n + 8;
    }
    Written(out[..], out0, o, want);
    Written(ivec[..], iv0, 0, last);
    PutAll(iv0, last);
  }

  lemma WordsSwapped(inp: seq<Byte>, inp0: seq<Byte>, i: nat, out: seq<Byte>, out0: seq<Byte>, o: nat,
    tmp: Blk, iv0: Blk, iv: seq<Byte>, last: Blk, n: nat)
    requires n <= 8 && i + 16 <= |inp0| && last == inp0[i..i + 16]
    requires inp == inp0 || (inp == out && inp0 == out0 && i == o)
    requires Writing(out, out0, o, XorOnto(tmp, iv0), n) && Writing(iv, iv0, 0, last, n)
    ensures |inp| == |inp0| && |iv| == 16
    ensures forall k :: 0 <= k < 8 ==> XorOnto(tmp, iv0)[n + k] == Byte(WordByte(Xor64(LoadWord(tmp, n), LoadWord(iv, n)), k))
    ensures var c := LoadWord(inp, i + n); forall k :: 0 <= k < 8 ==> last[n + k] == Byte(WordByte(c, k))
  {
    hide Plus, WordByte, LoadWord, Xor64, Writing, XorOnto;
    SourceByte(inp, inp0, i, out, out0, o, XorOnto(tmp, iv0), n, n);
    WritingLength(iv, iv0, 0, last, n);
    forall k | 0 <= k < 8
      ensures XorOnto(tmp, iv0)[n + k] == Byte(WordByte(Xor64(LoadWord(tmp, n), LoadWord(iv, n)), k))
    {
      StillThere(iv, iv0, 0, last, n, n + k);
      XoredWords(tmp, n, iv, n, k);
      XorOntoAt(tmp, 0, iv0, 0, n + k);
      assert tmp[0..16] == tmp && iv0[0..16] == iv0;
    }
    var c := LoadWord(inp, i + n);
    forall k | 0 <= k < 8
      ensures last[n + k] == Byte(WordByte(c, k))
    {
      SourceByte(inp, inp0, i, out, out0, o, XorOnto(tmp, iv0), n, n + k);
      LoadedByte(inp, i + n, k);
      assert last[n + k] == inp0[i + (n + k)] && inp[i + n + k] == inp[i + (n + k)];
    }
  }

  lemma WritingLength(s: seq<Byte>, s0: seq<Byte>, o: nat, b: seq<Byte>, n: nat)
    requires Writing(s, s0, o, b, n)
    ensures |s| == |s0| && o + |b| <= |s|
  {
  }

  lemma LoadedByte(s: seq<Byte>, i: nat, k: nat)
    requires i + 8 <= |s| && k < 8
    ensures Byte(WordByte(LoadWord(s, i), k)) == s[i + k]
  {
    hide WordByte, Word;
    WordBytes(s[i].v, s[i + 1].v, s[i + 2].v, s[i + 3].v, s[i + 4].v, s[i + 5].v, s[i + 6].v, s[i + 7].v);
    assert k == 0 || k == 1 || k == 2 || k == 3 || k == 4 || k == 5 || k == 6 || k == 7;
  }

  /** In place or at the tail: through a temporary block, with ivec replaced as the bytes are read. */
  method DecSwap(d: BlockFn, inp: array<Byte>, i: nat, len: nat, out: array<Byte>, o: nat, ivec: array<Byte>, words: bool)
    requires ivec.Length == 16 && i + 16 <= inp.Length && o + Min(16, len) <= out.Length
    requires ivec != inp && ivec != out && (inp == out ==> i == o) && (words ==> len >= 16)
    modifies out, ivec
    ensures out[..] == Put(old(out[..]), o, XorOnto(d(old(inp[..])[i..i + 16]), old(ivec[..]))[..Min(16, len)])
    ensures ivec[..] == old(inp[..])[i..i + 16]
  {
    hide Put, XorOnto;
    var tmp := new Byte[16];
    PutAll(tmp[..], d(inp[..][i..i + 16]));
    ApplyBlock(d, inp, i, tmp, 0);
    if words {
      ghost var b := XorOnto(d(inp[..][i..i + 16]), ivec[..]);
      SwapWords(tmp, inp, i, out, o, ivec);
      assert b[..16] == b;
    } else {
      SwapBytes(tmp, inp, i, len, out, o, ivec);
    }
  }

  /** p is the decryption of the first k bytes of c to m bytes, and iv the chaining value. */
  ghost predicate DecSoFar(d: BlockFn, iv0: Blk, c: seq<Byte>, k: nat, m: nat, p: seq<Byte>, iv: seq<Byte>)
    requires Padded(m) <= k <= |c|
  {
    p == Dec(d, iv0, c[..k], m) && iv == DecIv(iv0, c[..k], m)
  }

  lemma DecStep(d: BlockFn, iv0: Blk, c: seq<Byte>, k: nat, m: nat, p: seq<Byte>, iv: Blk)
    requires Aligned(k) && 0 < m <= 16 && k + 16 <= |c| && Padded(k) <= k
    requires DecSoFar(d, iv0, c, k, k, p, iv)
    ensures Padded(k + m) <= k + 16
    ensures DecSoFar(d, iv0, c, k + 16, k + m, p + XorOnto(d(c[k..k + 16]), iv)[..m], c[k..k + 16])
  {
    DecOneMore(d, iv0, c, k, m);
  }

  /** After the block at offset k of the ciphertext c, as for encryption. */
  ghost predicate DecState(d: BlockFn, iv0: Blk, c: seq<Byte>, len: nat, out0: seq<Byte>,
    inp: seq<Byte>, io: nat, out: seq<Byte>, oo: nat, k: nat, iv: seq<Byte>, ivo: nat)
  {
    var m := Min(k, len);
    && Aligned(k) && Padded(m) <= k <= Padded(len) == |c|
    && io + |c| <= |inp| && oo + len <= |out| == |out0|
    && ivo + 16 <= |iv|
    && DecSoFar(d, iv0, c, k, m, out[oo..oo + m], iv[ivo..ivo + 16])
    && InputLeft(inp, io, c, k)
    && OutputLeft(out, out0, oo, m)
  }

  lemma DecAdvance(d: BlockFn, iv0: Blk, c: seq<Byte>, len: nat, out0: seq<Byte>,
    inp: seq<Byte>, io: nat, out: seq<Byte>, oo: nat, k: nat, iv: seq<Byte>, ivo: nat,
    inp': seq<Byte>, out': seq<Byte>, iv': seq<Byte>, ivo': nat)
    requires DecState(d, iv0, c, len, out0, inp, io, out, oo, k, iv, ivo) && k < len
    requires io + k + 16 <= |inp| && oo + k + Min(16, len - k) <= |out| && ivo + 16 <= |iv|
    requires out' == Put(out, oo + k, XorOnto(d(inp[io + k..io + k + 16]), iv[ivo..ivo + 16])[..Min(16, len - k)])
    requires inp' == inp || (inp == out && inp' == out' && io == oo)
    requires ivo' + 16 <= |iv'| && iv'[ivo'..ivo' + 16] == inp[io + k..io + k + 16]
    ensures DecState(d, iv0, c, len, out0, inp', io, out', oo, k + 16, iv', ivo')
  {
    hide XorOnto, DecSoFar, Padded, Aligned, Put, InputLeft, OutputLeft;
    NextBlock(k, len);
    Boundary(k, len);
    var m := Min(16, len - k);
    SliceIs(inp, io, c, k, 16);
    var b := XorOnto(d(c[k..k + 16]), iv[ivo..ivo + 16])[..m];
    DecStep(d, iv0, c, k, m, out[oo..oo + k], iv[ivo..ivo + 16]);
    OutputStays(out, out0, oo, k, b);
    InputStays(inp, io, c, k, 16, inp', out, oo, b);
  }

  lemma DecStart(d: BlockFn, iv0: Blk, c: seq<Byte>, len: nat, inp: seq<Byte>, io: nat, out: seq<Byte>, oo: nat)
    requires |c| == Padded(len) && io + |c| <= |inp| && oo + len <= |out| && c == inp[io..io + |c|]
    ensures DecState(d, iv0, c, len, out, inp, io, out, oo, 0, iv0, 0)
  {
    assert out[oo..oo] == [] && c[..0] == [] && iv0[0..16] == iv0 && c[0..] == c;
  }

  lemma DecFinish(d: BlockFn, iv0: Blk, c: seq<Byte>, len: nat, out0: seq<Byte>,
    inp: seq<Byte>, io: nat, out: seq<Byte>, oo: nat, k: nat, iv: seq<Byte>)
    requires DecState(d, iv0, c, len, out0, inp, io, out, oo, k, iv, 0) && k >= len && |iv| == 16
    ensures out == Put(out0, oo, Dec(d, iv0, c, len)) && iv == DecIv(iv0, c, len)
  {
    hide Dec, DecIv;
    Boundary(k, len);
    assert c[..|c|] == c && iv[0..16] == iv;
    assert out == out[..oo] + out[oo..oo + len] + out[oo + len..];
  }

  /** Where iv points does not matter, only the 16 bytes there. */
  lemma DecMoveIv(d: BlockFn, iv0: Blk, c: seq<Byte>, len: nat, out0: seq<Byte>,
    inp: seq<Byte>, io: nat, out: seq<Byte>, oo: nat, k: nat, iv: seq<Byte>, ivo: nat, iv': Blk)
    requires DecState(d, iv0, c, len, out0, inp, io, out, oo, k, iv, ivo)
    requires ivo + 16 <= |iv| ==> iv' == iv[ivo..ivo + 16]
    ensures ivo + 16 <= |iv| && DecState(d, iv0, c, len, out0, inp, io, out, oo, k, iv', 0)
  {
    assert iv'[0..16] == iv';
  }

  method DecIterationApart(d: BlockFn, ghost iv0: Blk, ghost c: seq<Byte>, ghost out0: seq<Byte>, len: nat,
    inp: array<Byte>, io: nat, out: array<Byte>, oo: nat, k: nat, iv: array<Byte>, ivo: nat, words: bool)
    requires DecState(d, iv0, c, len, out0, inp[..], io, out[..], oo, k, iv[..], ivo)
    requires len - k >= 16 && inp != out && iv != out
    modifies out
    ensures DecState(d, iv0, c, len, out0, inp[..], io, out[..], oo, k + 16, inp[..], io + k)
  {
    hide XorOnto, DecSoFar, Padded, Aligned, Put;
    NextBlock(k, len);
    ghost var out1, iv1 := out[..], iv[..];
    ghost var b := XorOnto(d(inp[..][io + k..io + k + 16]), iv1[ivo..ivo + 16]);
    DecApart(d, inp, io + k, iv, ivo, out, oo + k, words);
    assert b[..16] == b;
    DecAdvance(d, iv0, c, len, out0, inp[..], io, out1, oo, k, iv1, ivo, inp[..], out[..], inp[..], io + k);
  }

  method DecIterationSwap(d: BlockFn, ghost iv0: Blk, ghost c: seq<Byte>, ghost out0: seq<Byte>, len: nat,
    inp: array<Byte>, io: nat, out: array<Byte>, oo: nat, k: nat, ivec: array<Byte>, words: bool)
    requires DecState(d, iv0, c, len, out0, inp[..], io, out[..], oo, k, ivec[..], 0) && ivec.Length == 16
    requires k < len && ivec != inp && ivec != out && (inp == out ==> io == oo) && (words ==> len - k >= 16)
    modifies out, ivec
    ensures DecState(d, iv0, c, len, out0, inp[..], io, out[..], oo, k + 16, ivec[..], 0)
  {
    hide XorOnto, DecSoFar, Padded, Aligned, Put;
    NextBlock(k, len);
    ghost var inp1, out1, iv1 := inp[..], out[..], ivec[..];
    assert iv1[0..16] == iv1;
    DecSwap(d, inp, io + k, len - k, out, oo + k, ivec, words);
    assert ivec[..][0..16] == ivec[..];
    DecAdvance(d, iv0, c, len, out0, inp1, io, out1, oo, k, iv1, 0, inp[..], out[..], ivec[..], 0);
  }

  /** CRYPTO_cbc128_decrypt. The tail reads a whole block of ciphertext and writes len % 16 bytes. */
  method Decrypt(d: BlockFn, inp: array<Byte>, io: nat, out: array<Byte>, oo: nat, len: nat, ivec: array<Byte>,
    smallFootprint: bool, words: bool)
    requires io + Padded(len) <= inp.Length && oo + len <= out.Length && ivec.Length == 16
    requires (inp == out ==> io == oo) && ivec != inp && ivec != out
    modifies out, ivec
    ensures out[..] == Put(old(out[..]), oo, Dec(d, old(ivec[..]), old(inp[io..io + Padded(len)]), len))
    ensures ivec[..] == DecIv(old(ivec[..]), old(inp[io..io + Padded(len)]), len)
  {
    hide Dec, DecIv, XorOnto, DecState, Padded, Aligned, Put;
    ghost var c, iv0, out0 := inp[io..io + Padded(len)], ivec[..], out[..];
    var k: nat := 0;
    DecStart(d, iv0, c, len, inp[..], io, out0, oo);
    if !smallFootprint {
      if inp != out {
        var iv, ivo: nat := ivec, 0;
        while len - k >= 16
          invariant DecState(d, iv0, c, len, out0, inp[..], io, out[..], oo, k, iv[..], ivo)
          invariant k <= len && if k == 0 then iv == ivec && ivo == 0 else iv == inp
          modifies out
        {
          DecIterationApart(d, iv0, c, out0, len, inp, io, out, oo, k, iv, ivo, words);
          iv, ivo := inp, io + k;
          k := k + 16;
        }
        DecBounds(d, iv0, c, len, out0, inp[..], io, out[..], oo, k, iv[..], ivo);
        ghost var iv1 := iv[..];
        Copy16(ivec, iv, ivo);
        DecMoveIv(d, iv0, c, len, out0, inp[..], io, out[..], oo, k, iv1, ivo, ivec[..]);
      } else {
        while len - k >= 16
          invariant DecState(d, iv0, c, len, out0, inp[..], io, out[..], oo, k, ivec[..], 0) && k <= len
        {
          DecIterationSwap(d, iv0, c, out0, len, inp, io, out, oo, k, ivec, words);
          k := k + 16;
        }
      }
    }
    while len - k > 0
      invariant DecState(d, iv0, c, len, out0, inp[..], io, out[..], oo, k, ivec[..], 0)
    {
      DecIterationSwap(d, iv0, c, out0, len, inp, io, out, oo, k, ivec, false);
      if len - k <= 16 {
        k := k + 16;
        break;
      }
      k := k + 16;
    }
    DecFinish(d, iv0, c, len, out0, inp[..], io, out[..], oo, k, ivec[..]);
  }

  lemma DecBounds(d: BlockFn, iv0: Blk, c: seq<Byte>, len: nat, out0: seq<Byte>,
    inp: seq<Byte>, io: nat, out: seq<Byte>, oo: nat, k: nat, iv: seq<Byte>, ivo: nat)
    requires DecState(d, iv0, c, len, out0, inp, io, out, oo, k, iv, ivo)
    ensures ivo + 16 <= |iv|
  {
  }

  /** Encrypt to out and decrypt back from it, into out itself or elsewhere: the plaintext returns. */
  method EncryptThenDecrypt(e: BlockFn, d: BlockFn, inp: array<Byte>, io: nat, mid: array<Byte>, mo: nat, out: array<Byte>, oo: nat,
    len: nat, ivec: array<Byte>, ivec': array<Byte>, smallFootprint: bool, words: bool)
    requires forall b: Blk :: d(e(b)) == b
    requires io + len <= inp.Length && mo + Padded(len) <= mid.Length && oo + len <= out.Length
    requires ivec.Length == 16 == ivec'.Length && ivec[..] == ivec'[..] && ivec != ivec'
    requires ivec != inp && ivec != mid && ivec != out && ivec' != inp && ivec' != mid && ivec' != out
    requires (inp == mid ==> io == mo) && (mid == out ==> mo == oo)
    modifies mid, out, ivec, ivec'
    ensures out[oo..oo + len] == old(inp[io..io + len])
    ensures ivec[..] == ivec'[..]
  {
    hide Enc, EncIv, Dec, DecIv, Padded, Put;
    ghost var p, iv0, mid0 := inp[io..io + len], ivec[..], mid[..];
    Boundary(0, len) by { AlignedZero(); }
    Encrypt(e, inp, io, mid, mo, len, ivec, smallFootprint, words);
    PutPart(mid0, mo, Enc(e, iv0, p));
    DecInvertsEnc(e, d, iv0, p);
    ghost var out1 := out[..];
    assert mid[mo..mo + Padded(len)] == mid[..][mo..mo + Padded(len)] == Enc(e, iv0, p);
    assert ivec'[..] == iv0;
    Decrypt(d, mid, mo, out, oo, len, ivec', smallFootprint, words);
    PutPart(out1, oo, p);
    assert out[oo..oo + len] == out[..][oo..oo + len];
  }

  /** Two calls with the same ivec, the first on whole blocks, write what one call writes. */
  method EncryptTwice(e: BlockFn, inp: array<Byte>, io: nat, out: array<Byte>, oo: nat, len: nat, len': nat, ivec: array<Byte>,
    smallFootprint: bool, words: bool)
    requires Aligned(len) && io + len + len' <= inp.Length && oo + Padded(len + len') <= out.Length && ivec.Length == 16
    requires (inp == out ==> io == oo) && ivec != inp && ivec != out
    modifies out, ivec
    ensures out[..] == Put(old(out[..]), oo, Enc(e, old(ivec[..]), old(inp[io..io + len + len'])))
    ensures ivec[..] == EncIv(e, old(ivec[..]), old(inp[io..io + len + len']))
  {
    hide Enc, EncIv, Padded, Put, Aligned;
    ghost var p, q, iv0, out0 := inp[io..io + len], inp[io + len..io + len + len'], ivec[..], out[..];
    TwoSlices(inp[..], io, len, len');
    assert inp[io..io + len + len'] == p + q;
    PaddedSum(len, len');
    PaddedSum(len, 0);
    Encrypt(e, inp, io, out, oo, len, ivec, smallFootprint, words);
    ghost var c := Enc(e, iv0, p);
    StaysBehind(out0, oo, c, io + len, len');
    assert inp[io + len..io + len + len'] == q;
    Encrypt(e, inp, io + len, out, oo + len, len', ivec, smallFootprint, words);
    EncChains(e, iv0, p, q);
    PutPut(out0, oo, c, Enc(e, EncIv(e, iv0, p), q));
  }

  /** The same for decryption. */
  method DecryptTwice(d: BlockFn, inp: array<Byte>, io: nat, out: array<Byte>, oo: nat, len: nat, len': nat, ivec: array<Byte>,
    smallFootprint: bool, words: bool)
    requires Aligned(len) && io + Padded(len + len') <= inp.Length && oo + len + len' <= out.Length && ivec.Length == 16
    requires (inp == out ==> io == oo) && ivec != inp && ivec != out
    modifies out, ivec
    ensures out[..] == Put(old(out[..]), oo, Dec(d, old(ivec[..]), old(inp[io..io + Padded(len + len')]), len + len'))
    ensures ivec[..] == DecIv(old(ivec[..]), old(inp[io..io + Padded(len + len')]), len + len')
  {
    hide Dec, DecIv, Padded, Put, Aligned;
    PaddedSum(len, len');
    PaddedSum(len, 0);
    ghost var c, c', iv0, out0 := inp[io..io + len], inp[io + len..io + len + Padded(len')], ivec[..], out[..];
    TwoSlices(inp[..], io, len, Padded(len'));
    assert inp[io..io + Padded(len + len')] == inp[..][io..io + len + Padded(len')] == c + c';
    Decrypt(d, inp, io, out, oo, len, ivec, smallFootprint, words);
    ghost var p := Dec(d, iv0, c, len);
    StaysBehind(out0, oo, p, io + len, Padded(len'));
    assert inp[io + len..io + len + Padded(len')] == c';
    Decrypt(d, inp, io + len, out, oo + len, len', ivec, smallFootprint, words);
    DecChains(d, iv0, c, len, c', len');
    PutPut(out0, oo, p, Dec(d, DecIv(iv0, c, len), c', len'));
  }

  lemma TwoSlices(s: seq<Byte>, o: nat, n: nat, m: nat)
    requires o + n + m <= |s|
    ensures s[o..o + n + m] == s[o..o + n] + s[o + n..o + n + m]
  {
  }

  /** What stands behind the bytes written is still there. */
  lemma StaysBehind(s: seq<Byte>, o: nat, b: seq<Byte>, i: nat, n: nat)
    requires o + |b| <= |s|
    ensures |Put(s, o, b)| == |s|
    ensures o + |b| <= i && i + n <= |s| ==> Put(s, o, b)[i..i + n] == s[i..i + n]
  {
  }

  lemma PutPut(s: seq<Byte>, o: nat, b: seq<Byte>, b': seq<Byte>)
    requires o + |b| + |b'| <= |s|
    ensures |Put(s, o, b)| == |s|
    ensures Put(Put(s, o, b), o + |b|, b') == Put(s, o, b + b')
  {
  }

  lemma PutPart(s: seq<Byte>, o: nat, b: seq<Byte>)
    requires o + |b| <= |s|
    ensures Put(s, o, b)[o..o + |b|] == b
  {
  }

  /** Copy the chaining value out. */
  method Copy16(ivec: array<Byte>, iv: array<Byte>, ivo: nat)
    requires ivec.Length == 16 && ivo + 16 <= iv.Length && (iv == ivec ==> ivo == 0)
    modifies ivec
    ensures ivec[..] == old(iv[..])[ivo..ivo + 16]
  {
    for n := 0 to 16
      invariant ivec[..n] == old(iv[ivo..ivo + n])
      invariant iv[ivo..ivo + 16] == old(iv[ivo..ivo + 16])
    {
      assert iv[ivo + n] == iv[ivo..ivo + 16][n];
      ivec[n] := iv[ivo + n];
    }
  }
}
