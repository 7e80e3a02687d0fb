// CBC mode (openssl/cbc128.c, section 6.2 of NIST SP 800-38A) over any 16-byte
// block function.

module CbcSpec {
  import opened Gf

  type Blk = b: seq<Byte> | |b| == 16 witness seq(16, _ => Byte(0))
  type BlockFn = Blk -> Blk

  function Min(a: nat, b: nat): nat { if a < b then a else b }

  /** The bytes of p, xor-ed onto iv; a short p leaves the rest of iv as it is. */
  function XorOnto(p: seq<Byte>, iv: Blk): Blk {
    seq(16, n requires 0 <= n < 16 => if n < |p| then Plus(p[n], iv[n]) else iv[n])
  }

  /** len rounded up to whole blocks. */
  function Padded(len: nat): nat { (len + 15) / 16 * 16 }

  ghost predicate Aligned(k: nat) { k % 16 == 0 }

  /** The next block boundary. */
  lemma NextBlock(k: nat, len: nat)
    requires Aligned(k) && k < len
    ensures k + 16 <= Padded(len) && Aligned(k + 16)
    ensures k + 16 <= len || Padded(len) == k + 16
    ensures k + 16 == len ==> Padded(len) == len
  {
  }

  lemma LessABlock(n: nat)
    requires Aligned(n) && n > 0
    ensures n >= 16 && Aligned(n - 16)
  {
  }

  lemma PaddedSum(n: nat, m: nat)
    requires Aligned(n)
    ensures Padded(n + m) == n + Padded(m)
    ensures m == 0 ==> Padded(m) == 0
    ensures m > 0 ==> Padded(m) >= 16 && Padded(m) == 16 + Padded(m - Min(16, m))
  {
  }

  lemma AlignedZero()
    ensures Aligned(0)
  {
  }

  lemma Boundary(k: nat, len: nat)
    requires Aligned(k) && k <= Padded(len)
    ensures len <= Padded(len) < len + 16
    ensures k >= len ==> k == Padded(len)
    ensures Aligned(len) ==> Padded(len) == len
  {
  }

  /** C_j = E(P_j xor C_{j-1}); a short last block is xor-ed onto the previous ciphertext block. */
  function Enc(e: BlockFn, iv: Blk, p: seq<Byte>): (c: seq<Byte>)
    ensures |c| == Padded(|p|)
    decreases |p|
  {
    if p == [] then []
    else
      var c := e(XorOnto(p[..Min(16, |p|)], iv));
      c + Enc(e, c, p[Min(16, |p|)..])
  }

  /** The chaining value after encrypting p. */
  function EncIv(e: BlockFn, iv: Blk, p: seq<Byte>): Blk
    decreases |p|
  {
    if p == [] then iv
    else EncIv(e, e(XorOnto(p[..Min(16, |p|)], iv)), p[Min(16, |p|)..])
  }

  /** P_j = D(C_j) xor C_{j-1}, cut to len bytes. */
  function Dec(d: BlockFn, iv: Blk, c: seq<Byte>, len: nat): (p: seq<Byte>)
    requires Padded(len) <= |c|
    ensures |p| == len
    decreases len
  {
    if len == 0 then []
    else
      XorOnto(d(c[..16]), iv)[..Min(16, len)] + Dec(d, c[..16], c[16..], len - Min(16, len))
  }

  /** The chaining value after decrypting: the last ciphertext block. */
  function DecIv(iv: Blk, c: seq<Byte>, len: nat): Blk
    requires Padded(len) <= |c|
    decreases len
  {
    if len == 0 then iv else DecIv(c[..16], c[16..], len - Min(16, len))
  }

  lemma XorTwice(p: seq<Byte>, iv: Blk)
    requires |p| <= 16
    ensures XorOnto(XorOnto(p, iv), iv)[..|p|] == p
  {
    hide Plus;
    forall n | 0 <= n < |p|
      ensures XorOnto(XorOnto(p, iv), iv)[n] == p[n]
    {
      PlusTwice(p[n], iv[n]);
    }
  }

  lemma PlusTwice(x: Byte, y: Byte)
    ensures Plus(Plus(x, y), y) == x
  {
  }

  /** Decryption inverts encryption for every length, partial last blocks included. */
  lemma {:induction false} DecInvertsEnc(e: BlockFn, d: BlockFn, iv: Blk, p: seq<Byte>)
    requires forall b: Blk :: d(e(b)) == b
    ensures Dec(d, iv, Enc(e, iv, p), |p|) == p
    ensures DecIv(iv, Enc(e, iv, p), |p|) == EncIv(e, iv, p)
    decreases |p|
  {
    if p != [] {
      var m := Min(16, |p|);
      var head, rest := p[..m], p[m..];
      var c := e(XorOnto(head, iv));
      var all := Enc(e, iv, p);
      assert all[..16] == c && all[16..] == Enc(e, c, rest);
      DecInvertsEnc(e, d, c, rest);
      XorTwice(head, iv);
      assert p == head + rest;
    }
  }

  lemma Associative(x: seq<Byte>, y: seq<Byte>, z: seq<Byte>)
    ensures x + (y + z) == (x + y) + z
  {
  }

  lemma FirstBlockOf(p: seq<Byte>, q: seq<Byte>)
    requires |p| >= 16
    ensures (p + q)[..16] == p[..16] && (p + q)[16..] == p[16..] + q
  {
  }

  lemma EncUnfold(e: BlockFn, iv: Blk, p: seq<Byte>)
    requires |p| >= 16
    ensures var c := e(XorOnto(p[..16], iv));
            Enc(e, iv, p) == c + Enc(e, c, p[16..]) && EncIv(e, iv, p) == EncIv(e, c, p[16..])
  {
    hide XorOnto;
  }

  /** Encrypting in two calls, cut at a block boundary and chained by the iv, is one call. */
  lemma {:induction false} EncChains(e: BlockFn, iv: Blk, p: seq<Byte>, q: seq<Byte>)
    requires Aligned(|p|)
    ensures Enc(e, iv, p + q) == Enc(e, iv, p) + Enc(e, EncIv(e, iv, p), q)
    ensures EncIv(e, iv, p + q) == EncIv(e, EncIv(e, iv, p), q)
    decreases |p|
  {
    if p == [] {
      assert p + q == q;
    } else {
      hide Aligned, XorOnto, Enc, EncIv, Padded;
      LessABlock(|p|);
      EncUnfold(e, iv, p);
      EncUnfold(e, iv, p + q);
      FirstBlockOf(p, q);
      var c := e(XorOnto(p[..16], iv));
      EncChains(e, c, p[16..], q);
      Associative(c, Enc(e, c, p[16..]), Enc(e, EncIv(e, iv, p), q));
    }
  }

  lemma DecUnfold(d: BlockFn, iv: Blk, c: seq<Byte>, len: nat)
    requires len >= 16 && Padded(len) <= |c|
    ensures Padded(len - 16) <= |c[16..]|
    ensures Dec(d, iv, c, len) == XorOnto(d(c[..16]), iv)[..16] + Dec(d, c[..16], c[16..], len - 16)
    ensures DecIv(iv, c, len) == DecIv(c[..16], c[16..], len - 16)
  {
    hide XorOnto;
  }

  lemma DecNothing(d: BlockFn, iv: Blk, c: seq<Byte>)
    ensures Padded(0) == 0 && Dec(d, iv, c, 0) == [] && DecIv(iv, c, 0) == iv
  {
  }

  lemma {:induction false} DecChains(d: BlockFn, iv: Blk, c: seq<Byte>, len: nat, c': seq<Byte>, len': nat)
    requires Aligned(len) && |c| == len && Padded(len') <= |c'|
    ensures Padded(len) == len && Padded(len + len') <= |c + c'|
    ensures Dec(d, iv, c + c', len + len') == Dec(d, iv, c, len) + Dec(d, DecIv(iv, c, len), c', len')
    ensures DecIv(iv, c + c', len + len') == DecIv(DecIv(iv, c, len), c', len')
    decreases len
  {
    hide Aligned, XorOnto, Padded, Dec, DecIv;
    PaddedSum(len, len');
    PaddedSum(len, 0);
    DecNothing(d, iv, c);
    if len == 0 {
      assert c + c' == c';
    } else {
      LessABlock(len);
      DecUnfold(d, iv, c, len);
      DecUnfold(d, iv, c + c', len + len');
      FirstBlockOf(c, c');
      DecChains(d, c[..16], c[16..], len - 16, c', len');
      Associative(XorOnto(d(c[..16]), iv)[..16], Dec(d, c[..16], c[16..], len - 16), Dec(d, DecIv(iv, c, len), c', len'));
    }
  }

  /** One more block at the end of whole blocks. */
  lemma EncOneMore(e: BlockFn, iv: Blk, p: seq<Byte>, k: nat, m: nat)
    requires Aligned(k) && 0 < m <= 16 && k + m <= |p|
    ensures var c := e(XorOnto(p[k..k + m], EncIv(e, iv, p[..k])));
            Enc(e, iv, p[..k + m]) == Enc(e, iv, p[..k]) + c && EncIv(e, iv, p[..k + m]) == c
  {
    var b := p[k..k + m];
    assert p[..k + m] == p[..k] + b;
    EncChains(e, iv, p[..k], b);
    assert b[..Min(16, |b|)] == b && b[Min(16, |b|)..] == [];
  }

  lemma DecOneMore(d: BlockFn, iv: Blk, c: seq<Byte>, k: nat, m: nat)
    requires Aligned(k) && 0 < m <= 16 && k + 16 <= |c|
    ensures Dec(d, iv, c[..k + 16], k + m) == Dec(d, iv, c[..k], k) + XorOnto(d(c[k..k + 16]), DecIv(iv, c[..k], k))[..m]
    ensures DecIv(iv, c[..k + 16], k + m) == c[k..k + 16]
  {
    var b := c[k..k + 16];
    assert c[..k + 16] == c[..k] + b;
    DecChains(d, iv, c[..k], k, b, m);
    assert b[..16] == b;
  }

  // ----- byte by byte --------------------------------------------------

  /** What goes into the block function for block k: input and previous ciphertext block, bit by bit; where
      the input ends, the previous ciphertext alone. */
  ghost predicate BlockInput(b: Blk, p: seq<Byte>, k: nat, prev: Blk) {
    forall n :: 0 <= n < 16 ==> b[n].v == if 16 * k + n < |p| then p[16 * k + n].v ^ prev[n].v else prev[n].v
  }

  /** The ciphertext block before block k of c, or iv. */
  function Previous(iv: Blk, c: seq<Byte>, k: nat): Blk
    requires 16 * k <= |c|
  {
    if k == 0 then iv else c[16 * k - 16..16 * k]
  }

  lemma FirstInput(p: seq<Byte>, iv: Blk)
    ensures BlockInput(XorOnto(p[..Min(16, |p|)], iv), p, 0, iv)
  {
  }

  /** Every ciphertext block is the block function of such an input, and the last one is the chaining value. */
  lemma {:induction false} EncInBytes(e: BlockFn, iv: Blk, p: seq<Byte>, k: nat) returns (b: Blk)
    requires 16 * k < |p|
    ensures var c := Enc(e, iv, p);
            16 * k + 16 <= |c| && BlockInput(b, p, k, Previous(iv, c, k)) && c[16 * k..16 * k + 16] == e(b)
    decreases k
  {
    hide XorOnto;
    var m := Min(16, |p|);
    b := XorOnto(p[..m], iv);
    FirstInput(p, iv);
    var first, c := e(b), Enc(e, iv, p);
    assert c == first + Enc(e, first, p[m..]);
    if k > 0 {
      b := EncInBytes(e, first, p[m..], k - 1);
      LaterBlock(first, Enc(e, first, p[m..]), k);
      InputOfRest(b, p, k, Previous(iv, c, k));
    }
  }

  lemma InputOfRest(b: Blk, p: seq<Byte>, k: nat, prev: Blk)
    requires 0 < k && 16 * k < |p| && BlockInput(b, p[16..], k - 1, prev)
    ensures BlockInput(b, p, k, prev)
  {
    forall n | 0 <= n < 16
      ensures b[n].v == if 16 * k + n < |p| then p[16 * k + n].v ^ prev[n].v else prev[n].v
    {
      assert 16 * (k - 1) + n < |p[16..]| ==> p[16..][16 * (k - 1) + n] == p[16 * k + n];
    }
  }

  /** Blocks behind the first are blocks of the rest. */
  lemma LaterBlock(first: Blk, rest: seq<Byte>, k: nat)
    requires 0 < k && 16 * k <= |rest|
    ensures var c := first + rest;
            && c[16 * k..16 * k + 16] == rest[16 * k - 16..16 * k]
            && forall iv :: Previous(iv, c, k) == Previous(first, rest, k - 1)
  {
    var c := first + rest;
    assert c[16 * k - 16..16 * k] == if k == 1 then first else rest[16 * k - 32..16 * k - 16];
  }

  /** The chaining value that encryption leaves is its last block. */
  lemma {:induction false} EncIvIsLast(e: BlockFn, iv: Blk, p: seq<Byte>)
    ensures EncIv(e, iv, p) == if p == [] then iv else Enc(e, iv, p)[Padded(|p|) - 16..]
    decreases |p|
  {
    if p != [] {
      var m := Min(16, |p|);
      var first := e(XorOnto(p[..m], iv));
      EncIvIsLast(e, first, p[m..]);
      assert Enc(e, iv, p) == first + Enc(e, first, p[m..]);
    }
  }

  /** Every byte of the plaintext, from its block of the ciphertext and the block before. */
  lemma DecInBytes(d: BlockFn, iv: Blk, c: seq<Byte>, len: nat, k: nat, n: nat)
    requires Padded(len) <= |c| && n < 16 && 16 * k + n < len
    ensures 16 * k + 16 <= |c|
    ensures Dec(d, iv, c, len)[16 * k + n].v == d(c[16 * k..16 * k + 16])[n].v ^ Previous(iv, c, k)[n].v
  {
    hide Dec, Previous, XorOnto;
    DecByBlocks(d, iv, c, len, k, n);
    XorOntoByte(d(c[16 * k..16 * k + 16]), Previous(iv, c, k), n);
  }

  lemma {:induction false} DecByBlocks(d: BlockFn, iv: Blk, c: seq<Byte>, len: nat, k: nat, n: nat)
    requires Padded(len) <= |c| && n < 16 && 16 * k + n < len
    ensures 16 * k + 16 <= |c|
    ensures Dec(d, iv, c, len)[16 * k + n] == XorOnto(d(c[16 * k..16 * k + 16]), Previous(iv, c, k))[n]
    decreases k
  {
    hide XorOnto, Previous, Dec;
    NothingBefore(iv, c);
    DecSplit(d, iv, c, len);
    if k > 0 {
      DecByBlocks(d, c[..16], c[16..], len - 16, k - 1, n);
      LaterBlock(c[..16], c[16..], k);
      assert c[..16] + c[16..] == c;
    }
  }

  /** The first block and the rest. */
  lemma DecSplit(d: BlockFn, iv: Blk, c: seq<Byte>, len: nat)
    requires Padded(len) <= |c| && len > 0
    ensures |c| >= 16 && (len >= 16 ==> Padded(len - 16) <= |c| - 16)
    ensures forall n :: 0 <= n < 16 && n < len ==> Dec(d, iv, c, len)[n] == XorOnto(d(c[..16]), iv)[n]
    ensures len >= 16 ==> forall n :: 16 <= n < len ==> Dec(d, iv, c, len)[n] == Dec(d, c[..16], c[16..], len - 16)[n - 16]
  {
    hide XorOnto;
  }

  lemma XorOntoByte(p: Blk, iv: Blk, n: nat)
    requires n < 16
    ensures XorOnto(p, iv)[n].v == p[n].v ^ iv[n].v
  {
  }

  lemma NothingBefore(iv: Blk, c: seq<Byte>)
    ensures Previous(iv, c, 0) == iv
  {
  }

  /** The chaining value that decryption leaves is the last ciphertext block that it used. */
  lemma {:induction false} DecIvIsLast(iv: Blk, c: seq<Byte>, len: nat)
    requires Padded(len) <= |c|
    ensures DecIv(iv, c, len) == if len == 0 then iv else c[Padded(len) - 16..Padded(len)]
    decreases len
  {
    if len > 16 {
      DecIvIsLast(c[..16], c[16..], len - 16);
    }
  }

  /** A short last block counts as filled up with zeros. */
  lemma {:induction false} FilledWithZeros(e: BlockFn, iv: Blk, p: seq<Byte>)
    ensures var q := p + seq(Padded(|p|) - |p|, _ => ZERO);
            Enc(e, iv, p) == Enc(e, iv, q) && EncIv(e, iv, p) == EncIv(e, iv, q)
    decreases |p|
  {
    hide XorOnto;
    var q := p + seq(Padded(|p|) - |p|, _ => ZERO);
    if |p| >= 16 {
      hide Enc, EncIv;
      assert q[..16] == p[..16] && q[16..] == p[16..] + seq(Padded(|p[16..]|) - |p[16..]|, _ => ZERO);
      FilledWithZeros(e, e(XorOnto(p[..16], iv)), p[16..]);
      EncUnfold(e, iv, p);
      EncUnfold(e, iv, q);
    } else if p != [] {
      hide Enc, EncIv;
      ZerosAdded(p, iv);
      OneBlock(e, iv, p);
      OneBlock(e, iv, q);
    }
  }

  lemma OneBlock(e: BlockFn, iv: Blk, p: seq<Byte>)
    requires 0 < |p| <= 16
    ensures Enc(e, iv, p) == e(XorOnto(p, iv)) == EncIv(e, iv, p)
  {
    hide XorOnto;
    assert p[..|p|] == p && p[|p|..] == [];
  }

  lemma ZerosAdded(p: seq<Byte>, iv: Blk)
    requires 0 < |p| < 16
    ensures XorOnto(p + seq(16 - |p|, _ => ZERO), iv) == XorOnto(p, iv)
  {
    hide Plus;
    assert forall x :: Plus(ZERO, x) == x by {
      forall x ensures Plus(ZERO, x) == x {
        ZeroPlus(x);
      }
    }
  }

  lemma ZeroPlus(x: Byte)
    ensures Plus(ZERO, x) == x
  {
  }

  /** Padded(len) is the first block boundary not below len. */
  lemma PaddedIsNext(len: nat)
    ensures len <= Padded(len) < len + 16 && Padded(len) % 16 == 0
  {
  }
}
