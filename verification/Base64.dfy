// base64_encode and base64_decode (openssl/base64.c) against section 4 of RFC 4648.

module Base64 {
  /** Characters as their codes. */
  type code = x: int | 0 <= x < 256

  const PAD: code := 61

  /** The alphabet, table 1 of RFC 4648. */
  function Letter(v: int): code
    requires 0 <= v < 64
  {
    if v < 26 then 65 + v else if v < 52 then 97 + v - 26 else if v < 62 then 48 + v - 52 else if v == 62 then 43 else 47
  }

  /** What the decoder makes of a character: -1 for the pad, -2 for one it refuses. */
  function ValueOf(c: code): (v: int)
    ensures -2 <= v < 64
  {
    if 65 <= c <= 90 then c - 65
    else if 97 <= c <= 122 then c - 97 + 26
    else if 48 <= c <= 57 then c - 48 + 52
    else if c == 43 then 62
    else if c == 47 then 63
    else if c == PAD then -1
    else -2
  }

  lemma ValueOfLetter(v: int)
    requires 0 <= v < 64
    ensures ValueOf(Letter(v)) == v
  {
  }

  // ----- section 4: 24-bit groups --------------------------------------

  function Group(a: int, b: int, c: int): int { 0x1_0000 * a + 0x100 * b + c }

  /** The four 6-bit digits of a 24-bit group. */
  function Digits(a: code, b: code, c: code): (d: seq<int>)
    ensures |d| == 4 && forall i :: 0 <= i < 4 ==> 0 <= d[i] < 64
  {
    var g := Group(a, b, c);
    [g / 64 / 64 / 64 % 64, g / 64 / 64 % 64, g / 64 % 64, g % 64]
  }

  function Encoded(s: seq<code>): seq<code> {
    if s == [] then []
    else if |s| == 1 then
      var d := Digits(s[0], 0, 0); [Letter(d[0]), Letter(d[1]), PAD, PAD]
    else if |s| == 2 then
      var d := Digits(s[0], s[1], 0); [Letter(d[0]), Letter(d[1]), Letter(d[2]), PAD]
    else
      Group4(s[0], s[1], s[2]) + Encoded(s[3..])
  }

  /** A group of three characters gives four letters. */
  function Group4(a: code, b: code, c: code): seq<code> {
    var d := Digits(a, b, c);
    [Letter(d[0]), Letter(d[1]), Letter(d[2]), Letter(d[3])]
  }

  /** Shifting and masking gives the digits, as long as the shifts bring in zeros. */
  lemma ShiftsAreDigits(a: code, b: code, c: code)
    ensures Digits(a, b, c) == [a / 4 % 64, a % 4 * 16 + b / 16, b % 16 * 4 + c / 64, c % 64]
  {
    var g := Group(a, b, c);
    assert g == 64 * (0x400 * a + 4 * b + c / 64) + c % 64;
    var h := 0x400 * a + 4 * b + c / 64;
    assert g / 64 == h && g % 64 == c % 64;
    assert h == 64 * (16 * a + b / 16) + (b % 16 * 4 + c / 64);
    var k := 16 * a + b / 16;
    assert h / 64 == k && h % 64 == b % 16 * 4 + c / 64;
    assert k == 64 * (a / 4) + (a % 4 * 16 + b / 16);
    assert k / 64 == a / 4 && k % 64 == a % 4 * 16 + b / 16;
  }

  // ----- encoding ------------------------------------------------------

  /** A char is signed: shifting one of 0x80 or more to the right brings in ones. */
  function Shifted(c: code, unit: int): int
    requires unit == 16 || unit == 64
  {
    (if c < 128 then c else c - 256) / unit
  }

  /** The indices for three characters, for a last two and for a last one; 64 stands for a pad. */
  function Three(a: code, b: code, c: code): seq<int> {
    [a / 4 % 64, a % 4 * 16 + Shifted(b, 16), b % 16 * 4 + Shifted(c, 64), c % 64]
  }

  function Two(a: code, b: code): seq<int> { [a / 4 % 64, a % 4 * 16 + Shifted(b, 16), b % 16 * 4, 64] }

  function One(a: code): seq<int> { [a / 4 % 64, a % 4 * 16, 64, 64] }

  /** Where in the alphabet the encoder looks for each character. */
  function Indices(s: seq<code>): (q: seq<int>) {
    if s == [] then [] else if |s| == 1 then One(s[0]) else if |s| == 2 then Two(s[0], s[1])
    else Three(s[0], s[1], s[2]) + Indices(s[3..])
  }

  /** Every index is inside the alphabet. */
  ghost predicate Inside(q: seq<int>) { forall i :: 0 <= i < |q| ==> 0 <= q[i] <= 64 }

  function Chars(q: seq<int>): (s: seq<code>)
    requires Inside(q)
    ensures |s| == |q|
  {
    seq(|q|, i requires 0 <= i < |q| => if q[i] == 64 then PAD else Letter(q[i]))
  }

  lemma CharsAppend(q: seq<int>, r: seq<int>)
    requires Inside(q) && Inside(r)
    ensures Inside(q + r) && Chars(q + r) == Chars(q) + Chars(r)
  {
  }

  lemma NoChars()
    ensures Inside([]) && Chars([]) == [] && Plain([])
  {
  }

  /** Outside anywhere is outside. */
  lemma OutsideStays(q: seq<int>, r: seq<int>, t: seq<int>)
    ensures !Inside(r) ==> !Inside(q + (r + t))
  {
    if !Inside(r) {
      var i :| 0 <= i < |r| && !(0 <= r[i] <= 64);
      assert (q + (r + t))[|q| + i] == r[i];
    }
  }

  lemma FourChars(q: seq<int>)
    requires |q| == 4 && 0 <= q[0] < 64 && 0 <= q[3] <= 64
    ensures Inside(q) <==> 0 <= q[1] <= 64 && 0 <= q[2] <= 64
    ensures Inside(q) && q[1] < 64 && q[2] < 64 && q[3] < 64 ==> Chars(q) == [Letter(q[0]), Letter(q[1]), Letter(q[2]), Letter(q[3])]
    ensures Inside(q) && q[1] < 64 && q[2] < 64 && q[3] == 64 ==> Chars(q) == [Letter(q[0]), Letter(q[1]), Letter(q[2]), PAD]
    ensures Inside(q) && q[1] < 64 && q[2] == 64 && q[3] == 64 ==> Chars(q) == [Letter(q[0]), Letter(q[1]), PAD, PAD]
  {
    hide Letter;
  }

  lemma NextGroup(s: seq<code>, i: nat)
    requires i + 3 <= |s|
    ensures Indices(s[i..]) == Three(s[i], s[i + 1], s[i + 2]) + Indices(s[i + 3..])
  {
    hide Shifted;
    assert s[i..][3..] == s[i + 3..];
  }

  /** base64_encode. False: an index was outside the alphabet, and what the source reads there is unknown. */
  method Encode(src: seq<code>) returns (ok: bool, dst: seq<code>)
    ensures ok <==> Inside(Indices(src))
    ensures ok ==> dst == Chars(Indices(src))
  {
    hide Letter, Indices, Inside, Chars, Shifted, Three;
    ok, dst := true, [];
    var d := |src| - 3;
    var i := 0;
    ghost var before: seq<int> := [];
    assert src[0..] == src;
    NoChars();
    while i <= d
      invariant 0 <= i <= |src| && Indices(src) == before + Indices(src[i..])
      invariant Inside(before) && dst == Chars(before)
    {
      ghost var q := Three(src[i], src[i + 1], src[i + 2]);
      NextGroup(src, i);
      OutsideStays(before, q, Indices(src[i + 3..]));
      var four;
      ok, four := EncodeGroup(src[i], src[i + 1], src[i + 2]);
      if !ok {
        return;
      }
      CharsAppend(before, q);
      dst := dst + four;
      assert before + (q + Indices(src[i + 3..])) == before + q + Indices(src[i + 3..]);
      before := before + q;
      i := i + 3;
    }
    var tail;
    ok, tail := EncodeTail(src[i..]);
    OutsideStays(before, Indices(src[i..]), []);
    assert before + (Indices(src[i..]) + []) == Indices(src);
    if ok {
      CharsAppend(before, Indices(src[i..]));
      dst := dst + tail;
    }
  }

  /** Three characters. */
  method EncodeGroup(a: code, b: code, c: code) returns (ok: bool, dst: seq<code>)
    ensures ok <==> Inside(Three(a, b, c))
    ensures ok ==> dst == Chars(Three(a, b, c))
  {
    hide Letter, Inside, Chars, Shifted;
    var q := Three(a, b, c);
    ShiftedIs(b);
    ShiftedIs(c);
    FourChars(q);
    ok, dst := q[1] >= 0 && q[2] >= 0, [];
    if ok {
      dst := [Letter(q[0]), Letter(q[1]), Letter(q[2]), Letter(q[3])];
    }
  }

  /** What is left after the whole groups. */
  method EncodeTail(s: seq<code>) returns (ok: bool, dst: seq<code>)
    requires |s| < 3
    ensures ok <==> Inside(Indices(s))
    ensures ok ==> dst == Chars(Indices(s))
  {
    hide Letter, Inside, Chars, Shifted;
    ok, dst := true, [];
    NoChars();
    if |s| == 1 {
      FourChars(One(s[0]));
      dst := [Letter(s[0] / 4 % 64), Letter(s[0] % 4 * 16), PAD, PAD];
    }
    if |s| == 2 {
      var q := Two(s[0], s[1]);
      ShiftedIs(s[1]);
      FourChars(q);
      if q[1] < 0 {
        return false, dst;
      }
      dst := [Letter(q[0]), Letter(q[1]), Letter(q[2]), PAD];
    }
  }

  /** In the second and third place of each group there are only characters below 0x80. */
  ghost predicate Plain(s: seq<code>) { forall i :: 0 <= i < |s| && i % 3 != 0 ==> s[i] < 128 }

  lemma LetterOnce(v: int, w: int)
    requires 0 <= v < 64 && 0 <= w < 64 && v != w
    ensures Letter(v) != Letter(w)
  {
  }

  /** Only the two shifts can go wrong, and if they do they miss the digit. */
  lemma ShiftedIs(c: code)
    ensures Shifted(c, 16) == c / 16 - if c < 128 then 0 else 16
    ensures Shifted(c, 64) == c / 64 - if c < 128 then 0 else 4
  {
  }

  /** The encoder produces the RFC 4648 encoding if and only if no character of 0x80 or more stands in
      the second or third place of a group; otherwise it looks outside the alphabet or emits a wrong letter. */
  lemma {:induction false} EncodesIff(s: seq<code>)
    ensures Inside(Indices(s)) && Chars(Indices(s)) == Encoded(s) <==> Plain(s)
    decreases |s|
  {
    hide Letter, Digits, Shifted, Inside, Chars, Plain;
    if s == [] {
      NoChars();
    } else if |s| < 3 {
      TailIff(s);
    } else {
      PlainSplit(s);
      GroupIff(s[0], s[1], s[2]);
      EncodesIff(s[3..]);
      SplitIff(Three(s[0], s[1], s[2]), Indices(s[3..]), Group4(s[0], s[1], s[2]), Encoded(s[3..]));
    }
  }

  /** The encoding of three characters. */
  lemma PlainSplit(s: seq<code>)
    requires |s| >= 3
    ensures Plain(s) <==> s[1] < 128 && s[2] < 128 && Plain(s[3..])
  {
    if s[1] < 128 && s[2] < 128 && Plain(s[3..]) {
      forall i | 0 <= i < |s| && i % 3 != 0
        ensures s[i] < 128
      {
        assert i >= 3 ==> s[i] == s[3..][i - 3];
      }
    } else if !Plain(s[3..]) {
      var i :| 0 <= i < |s[3..]| && i % 3 != 0 && s[3..][i] >= 128;
      assert s[i + 3] >= 128 && (i + 3) % 3 != 0;
    }
  }

  /** The second and the third index of a group, against its digits. */
  lemma ShiftsIff(a: code, b: code, c: code)
    ensures var d, v, w := Digits(a, b, c), a % 4 * 16 + Shifted(b, 16), b % 16 * 4 + Shifted(c, 64);
            && d[0] == a / 4 % 64 && d[3] == c % 64 && v < 64 && w < 64
            && (0 <= v && Letter(v) == Letter(d[1]) <==> b < 128)
            && (0 <= w && Letter(w) == Letter(d[2]) <==> c < 128)
  {
    hide Letter, Shifted;
    ShiftsAreDigits(a, b, c);
    ShiftedIs(b);
    ShiftedIs(c);
    var d, v, w := Digits(a, b, c), a % 4 * 16 + Shifted(b, 16), b % 16 * 4 + Shifted(c, 64);
    if 0 <= v && v != d[1] {
      LetterOnce(v, d[1]);
    }
    if 0 <= w && w != d[2] {
      LetterOnce(w, d[2]);
    }
  }

  lemma GroupIff(a: code, b: code, c: code)
    ensures Inside(Three(a, b, c)) && Chars(Three(a, b, c)) == Group4(a, b, c) <==> b < 128 && c < 128
  {
    hide Letter, Digits, Shifted, Inside, Chars;
    ShiftsIff(a, b, c);
    FourChars(Three(a, b, c));
  }

  lemma TailIff(s: seq<code>)
    requires |s| == 1 || |s| == 2
    ensures Inside(Indices(s)) && Chars(Indices(s)) == Encoded(s) <==> Plain(s)
  {
    hide Letter, Digits, Shifted, Inside, Chars, One, Two;
    if |s| == 1 {
      OneIff(s[0]);
    } else {
      TwoIff(s[0], s[1]);
    }
  }

  lemma OneIff(a: code)
    ensures Inside(One(a)) && Chars(One(a)) == [Letter(Digits(a, 0, 0)[0]), Letter(Digits(a, 0, 0)[1]), PAD, PAD]
  {
    hide Letter, Digits, Inside, Chars;
    ShiftsAreDigits(a, 0, 0);
    FourChars(One(a));
  }

  lemma TwoIff(a: code, b: code)
    ensures var d := Digits(a, b, 0);
            Inside(Two(a, b)) && Chars(Two(a, b)) == [Letter(d[0]), Letter(d[1]), Letter(d[2]), PAD] <==> b < 128
  {
    hide Letter, Digits, Shifted, Inside, Chars;
    ShiftsIff(a, b, 0);
    ShiftsAreDigits(a, b, 0);
    FourChars(Two(a, b));
  }

  lemma SplitIff(q: seq<int>, r: seq<int>, d: seq<code>, e: seq<code>)
    requires |q| == |d|
    ensures Inside(q + r) && Chars(q + r) == d + e <==> (Inside(q) && Chars(q) == d) && (Inside(r) && Chars(r) == e)
  {
    hide Letter;
    if Inside(q + r) {
      assert forall i :: 0 <= i < |q| ==> q[i] == (q + r)[i];
      assert forall i :: 0 <= i < |r| ==> r[i] == (q + r)[|q| + i];
      CharsAppend(q, r);
      if Chars(q + r) == d + e {
        assert Chars(q) == (d + e)[..|q|] == d;
        assert Chars(r) == (d + e)[|q|..] == e;
      }
    } else if Inside(q) && Inside(r) {
      CharsAppend(q, r);
    }
  }

  /** One text sends the encoder outside the alphabet, the other makes it emit a wrong letter. */
  lemma HighBytesGoWrong()
    ensures !Inside(Indices([4, 128]))
    ensures Inside(Indices([1, 128])) && Chars(Indices([1, 128])) != Encoded([1, 128])
  {
    hide Encoded, Chars;
    assert Two(4, 128)[1] == -8 && Indices([4, 128]) == Two(4, 128);
    assert Indices([1, 128]) == Two(1, 128) == [0, 8, 0, 64];
    EncodesIff([1, 128]);
    assert [1, 128][1] >= 128;
  }

  // The alphabet written out, table 1 of RFC 4648.
  const CAPITALS: string := "ABCDEFGHIJKLMNOPQRSTUVWXYZ"
  const SMALLS: string := "abcdefghijklmnopqrstuvwxyz"
  const OTHERS: string := "0123456789+/"

  lemma LetterIs(v: int)
    requires 0 <= v < 64
    ensures Letter(v) == (if v < 26 then CAPITALS[v] else if v < 52 then SMALLS[v - 26] else OTHERS[v - 52]) as int
  {
    if v < 26 {
      Capital(v);
    } else if v < 52 {
      Small(v - 26);
    } else if v < 62 {
      Figure(v - 52);
    }
  }

  lemma Capital(k: int)
    requires 0 <= k < 26
    ensures CAPITALS[k] as int == 65 + k
  {
    assert k == 0 || k == 1 || k == 2 || k == 3 || k == 4 || k == 5 || k == 6 || k == 7 || k == 8 || k == 9 || k == 10 || k == 11 || k == 12
        || k == 13 || k == 14 || k == 15 || k == 16 || k == 17 || k == 18 || k == 19 || k == 20 || k == 21 || k == 22 || k == 23 || k == 24 || k == 25;
  }

  lemma Small(k: int)
    requires 0 <= k < 26
    ensures SMALLS[k] as int == 97 + k
  {
    assert k == 0 || k == 1 || k == 2 || k == 3 || k == 4 || k == 5 || k == 6 || k == 7 || k == 8 || k == 9 || k == 10 || k == 11 || k == 12
        || k == 13 || k == 14 || k == 15 || k == 16 || k == 17 || k == 18 || k == 19 || k == 20 || k == 21 || k == 22 || k == 23 || k == 24 || k == 25;
  }

  lemma Figure(k: int)
    requires 0 <= k < 10
    ensures OTHERS[k] as int == 48 + k
  {
    assert k == 0 || k == 1 || k == 2 || k == 3 || k == 4 || k == 5 || k == 6 || k == 7 || k == 8 || k == 9;
  }

  /** Section 10 of RFC 4648: f, fo, foo and foobar. */
  lemma EncodingExamples()
    ensures Encoded([102]) == [90, 103, 61, 61]
    ensures Encoded([102, 111]) == [90, 109, 56, 61]
    ensures Encoded([102, 111, 111]) == [90, 109, 57, 118]
    ensures Encoded([102, 111, 111, 98, 97, 114]) == [90, 109, 57, 118, 89, 109, 70, 121]
  {
    hide Letter, Digits;
    FooDigits();
    FooLetters();
    assert [102, 111, 111, 98, 97, 114][3..] == [98, 97, 114];
    assert [98, 97, 114][3..] == [] && [102, 111, 111][3..] == [];
  }

  lemma FooDigits()
    ensures Digits(102, 0, 0) == [25, 32, 0, 0] && Digits(102, 111, 0) == [25, 38, 60, 0]
    ensures Digits(102, 111, 111) == [25, 38, 61, 47] && Digits(98, 97, 114) == [24, 38, 5, 50]
  {
    ShiftsAreDigits(102, 0, 0);
    ShiftsAreDigits(102, 111, 0);
    ShiftsAreDigits(102, 111, 111);
    ShiftsAreDigits(98, 97, 114);
  }

  lemma FooLetters()
    ensures Letter(25) == 90 && Letter(32) == 103 && Letter(38) == 109 && Letter(60) == 56 && Letter(61) == 57
    ensures Letter(47) == 118 && Letter(24) == 89 && Letter(5) == 70 && Letter(50) == 121
  {
  }

  // ----- decoding ------------------------------------------------------

  /** An int stored in a char. */
  function Chr(x: int): code { x % 256 }

  /** The bytes made of one group of values; a pad in the last places cuts it short. */
  function Bytes3(q0: int, q1: int, q2: int, q3: int): seq<code> {
    [Chr(q0 * 4 + q1 / 16), Chr(q1 * 16 + q2 / 4), Chr(q2 * 64 + q3)]
  }

  /** Three bytes are the 24-bit group of the four values. */
  lemma {:induction false} GroupOfValues(q0: int, q1: int, q2: int, q3: int)
    requires 0 <= q0 < 64 && 0 <= q1 < 64 && 0 <= q2 < 64 && 0 <= q3 < 64
    ensures var b := Bytes3(q0, q1, q2, q3);
            |b| == 3 && Group(b[0], b[1], b[2]) == ((q0 * 64 + q1) * 64 + q2) * 64 + q3
  {
    hide Chr;
    ByteOfValues(q0, q1, q2, q3);
    SumOfParts(q0, q1 / 16, q1 % 16, q2 / 4, q2 % 4, q3);
    assert q1 == q1 / 16 * 16 + q1 % 16;
    assert q2 == q2 / 4 * 4 + q2 % 4;
  }

  lemma {:induction false} SumOfParts(q0: int, h1: int, l1: int, h2: int, l2: int, q3: int)
    ensures ((q0 * 4 + h1) * 256 + (l1 * 16 + h2)) * 256 + (l2 * 64 + q3) == ((q0 * 64 + (h1 * 16 + l1)) * 64 + (h2 * 4 + l2)) * 64 + q3
  {
  }

  lemma {:induction false} ByteOfValues(q0: int, q1: int, q2: int, q3: int)
    requires 0 <= q0 < 64 && 0 <= q1 < 64 && 0 <= q2 < 64 && 0 <= q3 < 64
    ensures Chr(q0 * 4 + q1 / 16) == q0 * 4 + q1 / 16
    ensures Chr(q1 * 16 + q2 / 4) == q1 % 16 * 16 + q2 / 4
    ensures Chr(q2 * 64 + q3) == q2 % 4 * 64 + q3
  {
    LowPart(q1 / 16, q1 % 16 * 16 + q2 / 4);
    LowPart(q2 / 4, q2 % 4 * 64 + q3);
  }

  lemma {:induction false} LowPart(k: int, r: int)
    requires 0 <= r < 256
    ensures Chr(k * 256 + r) == r
  {
  }

  /** The values of the characters, or nothing when one is refused. */
  method Values(src: seq<code>) returns (ok: bool, q: seq<int>)
    ensures ok <==> forall i :: 0 <= i < |src| ==> ValueOf(src[i]) != -2
    ensures ok ==> |q| == |src| && forall i :: 0 <= i < |src| ==> q[i] == ValueOf(src[i])
  {
    q := [];
    ok := true;
    while |q| < |src|
      invariant |q| <= |src| && forall i :: 0 <= i < |q| ==> q[i] == ValueOf(src[i]) && q[i] != -2
    {
      if ValueOf(src[|q|]) == -2 {
        return false, q;
      }
      q := q + [ValueOf(src[|q|])];
    }
  }

  /** The bytes of whole groups, and of a last group that may be padded. */
  function Decoded(q: seq<int>): seq<code>
    requires |q| % 4 == 0
  {
    if q == [] then []
    else if |q| > 4 then Bytes3(q[0], q[1], q[2], q[3]) + Decoded(q[4..])
    else if q[3] != -1 then Bytes3(q[0], q[1], q[2], q[3])
    else if q[2] != -1 then [Chr(q[0] * 4 + q[1] / 16), Chr(q[1] * 16 + q[2] / 4), Chr(q[2] * 64)]
    else if q[1] != -1 then [Chr(q[0] * 4 + q[1] / 16), Chr(q[1] * 16)]
    else []
  }

  function ValueSeq(src: seq<code>): (q: seq<int>)
    ensures |q| == |src| && forall i :: 0 <= i < |q| ==> q[i] == ValueOf(src[i])
  {
    seq(|src|, i requires 0 <= i < |src| => ValueOf(src[i]))
  }

  /** What comes of a call: an exit with a message, a look behind the end of the buffer, or the bytes. */
  datatype Outcome = Exits | LooksOutside | Gives(dst: seq<code>)

  /** The values with the zero behind them, where that completes the last group. */
  function Completed(q: seq<int>): seq<int> { if |q| % 4 == 3 then q + [0] else q }

  ghost predicate Refused(src: seq<code>) { exists i :: 0 <= i < |src| && ValueOf(src[i]) == -2 }

  /** The last group begins with a character and three pads. */
  ghost predicate EmptyTail(q: seq<int>)
    requires |q| >= 4
  {
    var n := |q|;
    q[n - 3] == -1 && q[n - 2] == -1 && q[n - 1] == -1
  }

  /** base64_decode. */
  method Decode(src: seq<code>) returns (r: Outcome)
    ensures r == if Refused(src) then Exits
                 else if |src| == 0 || |src| % 4 == 1 || |src| % 4 == 2 then LooksOutside
                 else if EmptyTail(Completed(ValueSeq(src))) then Exits
                 else Gives(Decoded(Completed(ValueSeq(src))))
  {
    hide Decoded, EmptyTail;
    var len := |src|;
    var ok, q := Values(src);
    if !ok {
      return Exits;
    }
    assert q == ValueSeq(src);
    if |src| == 0 || |src| % 4 == 1 || |src| % 4 == 2 {
      return LooksOutside;
    }
    q := Completed(q);
    r := DecodeGroups(q, len);
  }

  /** The groups but the last, then the last. */
  method DecodeGroups(q: seq<int>, len: int) returns (r: Outcome)
    requires |q| % 4 == 0 && |q| >= 4 && |q| - 1 <= len <= |q|
    ensures r == if EmptyTail(q) then Exits else Gives(Decoded(q))
  {
    hide Decoded, Bytes3, Chr;
    var dst, i := [], 0;
    assert q[0..] == q;
    while i < len - 4
      invariant 0 <= i <= |q| - 4 && i % 4 == 0
      invariant dst + Decoded(q[i..]) == Decoded(q)
    {
      DecodedGroup(q, i);
      ghost var before := dst;
      dst := dst + Bytes3(q[i], q[i + 1], q[i + 2], q[i + 3]);
      assert before + Decoded(q[i..]) == dst + Decoded(q[i + 4..]);
      i := i + 4;
    }
    var ok, last := LastGroup(q[i..]);
    r := if ok then Gives(dst + last) else Exits;
  }

  /** The last group, which pads may cut short. */
  method LastGroup(q: seq<int>) returns (ok: bool, dst: seq<code>)
    requires |q| == 4
    ensures ok <==> !EmptyTail(q)
    ensures ok ==> dst == Decoded(q)
  {
    hide Decoded, Bytes3, Chr;
    DecodedTail(q);
    ok, dst := true, [];
    if q[3] != -1 {
      dst := Bytes3(q[0], q[1], q[2], q[3]);
    } else if q[2] != -1 {
      dst := [Chr(q[0] * 4 + q[1] / 16), Chr(q[1] * 16 + q[2] / 4), Chr(q[2] * 64)];
    } else if q[1] != -1 {
      dst := [Chr(q[0] * 4 + q[1] / 16), Chr(q[1] * 16)];
    } else {
      ok := false;
    }
  }

  lemma DecodedGroup(q: seq<int>, i: int)
    requires |q| % 4 == 0 && i % 4 == 0 && 0 <= i < |q| - 4
    ensures Decoded(q[i..]) == Bytes3(q[i], q[i + 1], q[i + 2], q[i + 3]) + Decoded(q[i + 4..])
  {
    hide Bytes3;
    assert q[i..][4..] == q[i + 4..];
  }

  lemma DecodedTail(q: seq<int>)
    requires |q| == 4
    ensures q[3] != -1 ==> Decoded(q) == Bytes3(q[0], q[1], q[2], q[3])
    ensures q[3] == -1 && q[2] != -1 ==> Decoded(q) == [Chr(q[0] * 4 + q[1] / 16), Chr(q[1] * 16 + q[2] / 4), Chr(q[2] * 64)]
    ensures q[3] == -1 && q[2] == -1 && q[1] != -1 ==> Decoded(q) == [Chr(q[0] * 4 + q[1] / 16), Chr(q[1] * 16)]
  {
    hide Bytes3, Chr;
  }

  // ----- round trip ----------------------------------------------------

  function S0(a: int): int { a / 4 % 64 }
  function S1(a: int, b: int): int { a % 4 * 16 + b / 16 }
  function S2(b: int, c: int): int { b % 16 * 4 + c / 64 }
  function S3(c: int): int { c % 64 }

  /** The values of the characters of an encoding. */
  function Sextets(s: seq<code>): seq<int> {
    if s == [] then []
    else if |s| == 1 then [S0(s[0]), S1(s[0], 0), -1, -1]
    else if |s| == 2 then [S0(s[0]), S1(s[0], s[1]), S2(s[1], 0), -1]
    else [S0(s[0]), S1(s[0], s[1]), S2(s[1], s[2]), S3(s[2])] + Sextets(s[3..])
  }

  /** The characters of one group read as their values. */
  lemma GroupValues(a: code, b: code, c: code)
    ensures var d := Digits(a, b, c);
            && ValueOf(Letter(d[0])) == d[0] == S0(a) && ValueOf(Letter(d[1])) == d[1] == S1(a, b)
            && ValueOf(Letter(d[2])) == d[2] == S2(b, c) && ValueOf(Letter(d[3])) == d[3] == S3(c)
  {
    hide Letter, ValueOf;
    ShiftsAreDigits(a, b, c);
    var d := Digits(a, b, c);
    ValueOfLetter(d[0]);
    ValueOfLetter(d[1]);
    ValueOfLetter(d[2]);
    ValueOfLetter(d[3]);
  }

  lemma ValueSeqAppend(x: seq<code>, y: seq<code>)
    ensures ValueSeq(x + y) == ValueSeq(x) + ValueSeq(y)
  {
    hide ValueOf;
  }

  lemma ThreeValues(a: code, b: code, c: code)
    ensures ValueSeq(Group4(a, b, c)) == [S0(a), S1(a, b), S2(b, c), S3(c)]
  {
    hide ValueOf, Letter, Digits, S0, S1, S2, S3;
    GroupValues(a, b, c);
  }

  lemma TwoValues(a: code, b: code)
    ensures ValueSeq(Encoded([a, b])) == [S0(a), S1(a, b), S2(b, 0), -1]
  {
    hide ValueOf, Letter, Digits, S0, S1, S2, S3;
    GroupValues(a, b, 0);
    PadValue();
  }

  lemma OneValue(a: code)
    ensures ValueSeq(Encoded([a])) == [S0(a), S1(a, 0), -1, -1]
  {
    hide ValueOf, Letter, Digits, S0, S1, S2, S3;
    GroupValues(a, 0, 0);
    PadValue();
  }

  lemma PadValue()
    ensures ValueOf(PAD) == -1
  {
  }

  lemma {:induction false} ValuesOfEncoded(s: seq<code>)
    ensures ValueSeq(Encoded(s)) == Sextets(s) && |Sextets(s)| % 4 == 0 && (s != [] ==> |Sextets(s)| >= 4)
    decreases |s|
  {
    hide ValueOf, Letter, Digits, S0, S1, S2, S3, Group4;
    if |s| == 1 {
      OneValue(s[0]);
      assert s == [s[0]];
    } else if |s| == 2 {
      TwoValues(s[0], s[1]);
      assert s == [s[0], s[1]];
    } else if s != [] {
      ValuesOfEncoded(s[3..]);
      GroupInFront(s);
    }
  }

  lemma {:induction false} GroupInFront(s: seq<code>)
    requires |s| >= 3 && ValueSeq(Encoded(s[3..])) == Sextets(s[3..])
    ensures ValueSeq(Encoded(s)) == Sextets(s) && |Sextets(s)| == 4 + |Sextets(s[3..])|
  {
    hide ValueOf, Letter, Digits, S0, S1, S2, S3, Group4, Encoded, ValueSeq;
    EncodedSplit(s);
    ThreeValues(s[0], s[1], s[2]);
    ValueSeqAppend(Group4(s[0], s[1], s[2]), Encoded(s[3..]));
  }

  lemma {:induction false} EncodedSplit(s: seq<code>)
    requires |s| >= 3
    ensures Encoded(s) == Group4(s[0], s[1], s[2]) + Encoded(s[3..])
  {
    hide Letter, Digits, Group4;
  }

  lemma GroupComesBack(a: code, b: code, c: code)
    ensures Bytes3(S0(a), S1(a, b), S2(b, c), S3(c)) == [a, b, c]
    ensures S0(a) >= 0 && S1(a, b) >= 0 && S2(b, c) >= 0 && S3(c) >= 0
  {
    hide S0, S1, S2, S3, Chr;
    SextetsPositive(a, b, c);
    FirstBack(a, b);
    SecondBack(a, b, c);
    ThirdBack(b, c);
  }

  lemma FirstBack(a: code, b: code)
    ensures Chr(S0(a) * 4 + S1(a, b) / 16) == a
  {
    assert S1(a, b) / 16 == a % 4;
  }

  lemma SecondBack(a: code, b: code, c: code)
    ensures Chr(S1(a, b) * 16 + S2(b, c) / 4) == b
  {
    assert S2(b, c) / 4 == b % 16;
    assert S1(a, b) * 16 + b % 16 == 256 * (a % 4) + b;
  }

  lemma ThirdBack(b: code, c: code)
    ensures Chr(S2(b, c) * 64 + S3(c)) == c
  {
    assert S2(b, c) * 64 + S3(c) == 256 * (b % 16) + c;
  }

  /** Decoding an encoding gives the text, with a zero byte after it when the last group was padded. */
  lemma {:induction false} DecodeSextets(s: seq<code>)
    requires |Sextets(s)| % 4 == 0
    ensures Decoded(Sextets(s)) == s + if |s| % 3 == 0 then [] else [0]
    decreases |s|
  {
    hide S0, S1, S2, S3, Bytes3, Chr;
    if |s| >= 3 {
      GroupComesBack(s[0], s[1], s[2]);
      var rest := Sextets(s[3..]);
      assert |Sextets(s)| == 4 + |rest| && Sextets(s)[4..] == rest;
      DecodeSextets(s[3..]);
      if rest == [] {
        DecodedTail(Sextets(s));
        assert s[3..] == [];
      }
      assert s == [s[0], s[1], s[2]] + s[3..];
    } else if s != [] {
      TailComesBack(s);
    }
  }

  lemma TailComesBack(s: seq<code>)
    requires |s| == 1 || |s| == 2
    ensures Decoded(Sextets(s)) == s + [0]
  {
    hide S0, S1, S2, S3, Bytes3, Chr, Decoded;
    if |s| == 1 {
      LastOneBack(s[0]);
      assert s == [s[0]];
    } else {
      LastTwoBack(s[0], s[1]);
      assert s == [s[0], s[1]];
    }
  }

  lemma LastOneBack(a: code)
    ensures Decoded([S0(a), S1(a, 0), -1, -1]) == [a, 0]
  {
    hide S0, S1, S2, S3, Chr, Decoded;
    DecodedTail([S0(a), S1(a, 0), -1, -1]);
    GroupComesBack(a, 0, 0);
    PadIsZero(a, 0);
  }

  lemma LastTwoBack(a: code, b: code)
    ensures Decoded([S0(a), S1(a, b), S2(b, 0), -1]) == [a, b, 0]
  {
    hide S0, S1, S2, S3, Chr, Decoded;
    DecodedTail([S0(a), S1(a, b), S2(b, 0), -1]);
    GroupComesBack(a, b, 0);
    PadIsZero(a, b);
  }

  /** What a padded group leaves behind is a zero byte. */
  lemma PadIsZero(a: code, b: code)
    ensures Chr(S1(a, 0) * 16) == 0 && Chr(S2(b, 0) * 64) == 0 && S1(a, 0) != -1 && S2(b, 0) != -1
  {
    assert S1(a, 0) * 16 == 256 * (a % 4);
    assert S2(b, 0) * 64 == 256 * (b % 16);
  }

  lemma DecodeEncoded(s: seq<code>)
    ensures |Encoded(s)| % 4 == 0 && (s != [] ==> |Encoded(s)| >= 4)
    ensures Decoded(ValueSeq(Encoded(s))) == s + if |s| % 3 == 0 then [] else [0]
  {
    ValuesOfEncoded(s);
    DecodeSextets(s);
  }

  /** A zero-terminated string: the bytes before the first zero. */
  function CString(s: seq<code>): seq<code> {
    if s == [] || s[0] == 0 then [] else [s[0]] + CString(s[1..])
  }

  lemma {:induction false} CStringOf(s: seq<code>, t: seq<code>)
    requires (forall i :: 0 <= i < |s| ==> s[i] != 0) && (t == [] || t == [0])
    ensures CString(s + t) == s
  {
    if s == [] {
      assert s + t == t;
    } else {
      assert (s + t)[1..] == s[1..] + t;
      CStringOf(s[1..], t);
    }
  }

  /** As zero-terminated strings, the decoder inverts the encoder on every nonempty text that the encoder
      gets right. */
  method EncodeThenDecode(s: seq<code>) returns (r: Outcome)
    requires Plain(s) && s != [] && forall i :: 0 <= i < |s| ==> s[i] != 0
    ensures r.Gives? && CString(r.dst) == s
  {
    DecodeEncoded(s);
    EncodedDecodable(s);
    EncodesIff(s);
    var ok, e := Encode(s);
    r := Decode(e);
    CStringOf(s, if |s| % 3 == 0 then [] else [0]);
    assert s + [] == s;
  }

  /** The decoder accepts every encoding. */
  lemma EncodedDecodable(s: seq<code>)
    requires s != []
    ensures |Encoded(s)| >= 4 && |Encoded(s)| % 4 == 0 && !Refused(Encoded(s)) && !EmptyTail(ValueSeq(Encoded(s)))
  {
    hide Encoded, ValueOf;
    ValuesOfEncoded(s);
    SextetsFine(s);
    DecodeEncoded(s);
    var e, q := Encoded(s), Sextets(s);
    forall i | 0 <= i < |e| ensures ValueOf(e[i]) != -2 {
      assert ValueSeq(e)[i] == q[i];
    }
    assert ValueSeq(e)[|e| - 3] == q[|e| - 3];
  }

  lemma {:induction false} SextetsFine(s: seq<code>)
    requires s != []
    ensures |Sextets(s)| >= 4 && Sextets(s)[|Sextets(s)| - 3] >= 0
    ensures forall i :: 0 <= i < |Sextets(s)| ==> Sextets(s)[i] >= -1
    decreases |s|
  {
    hide S0, S1, S2, S3;
    var b: code, c: code := if |s| > 1 then s[1] else 0, if |s| > 2 then s[2] else 0;
    SextetsPositive(s[0], b, c);
    if |s| > 3 {
      SextetsFine(s[3..]);
    }
  }

  lemma SextetsPositive(a: code, b: code, c: code)
    ensures S0(a) >= 0 && S1(a, b) >= 0 && S2(b, c) >= 0 && S3(c) >= 0
  {
  }
}
