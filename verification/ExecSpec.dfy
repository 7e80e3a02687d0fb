// What execve() must leave at the top of the new program's memory: the argument and environment
// strings one after the other, and two null-terminated tables of pointers to them.

module ExecSpec {
  import opened Blocks

  const WORD := 0x1_0000_0000

  /** A string without its terminator. */
  ghost predicate NoZero(s: seq<byte>) { forall i :: 0 <= i < |s| ==> s[i] != 0 }

  ghost predicate NoZeros(ss: seq<seq<byte>>) { forall i :: 0 <= i < |ss| ==> NoZero(ss[i]) }

  /** The strings with their terminators, first string first. */
  function Packed(ss: seq<seq<byte>>): seq<byte> {
    if ss == [] then [] else ss[0] + [0] + Packed(ss[1..])
  }

  lemma {:induction false} PackedAppend(ss: seq<seq<byte>>, tt: seq<seq<byte>>)
    ensures Packed(ss + tt) == Packed(ss) + Packed(tt)
  {
    if ss == [] {
      assert ss + tt == tt;
    } else {
      assert (ss + tt)[1..] == ss[1..] + tt;
      PackedAppend(ss[1..], tt);
    }
  }

  lemma PackedLast(ss: seq<seq<byte>>, k: nat)
    requires k < |ss|
    ensures Packed(ss[..k + 1]) == Packed(ss[..k]) + (ss[k] + [0])
  {
    assert ss[..k + 1] == ss[..k] + [ss[k]];
    PackedAppend(ss[..k], [ss[k]]);
    assert Packed([ss[k]]) == ss[k] + [0] + Packed([ss[k]][1..]) == ss[k] + [0];
  }

  /** Where string k starts. */
  lemma PackedAt(ss: seq<seq<byte>>, k: nat)
    requires k < |ss|
    ensures Packed(ss) == Packed(ss[..k]) + (ss[k] + [0]) + Packed(ss[k + 1..])
  {
    hide Packed;
    PackedLast(ss, k);
    PackedAppend(ss[..k + 1], ss[k + 1..]);
    assert ss[..k + 1] + ss[k + 1..] == ss;
  }

  // ----- memory --------------------------------------------------------

  /** A zero byte at or after p. */
  ghost predicate Terminated(mem: seq<byte>, p: int) { exists q :: p <= q < |mem| && 0 <= q && mem[q] == 0 }

  /** The string at p: the bytes up to the first zero. */
  function StrAt(mem: seq<byte>, p: int): (s: seq<byte>)
    decreases |mem| - p
  {
    if p < 0 || p >= |mem| || mem[p] == 0 then [] else [mem[p]] + StrAt(mem, p + 1)
  }

  lemma {:induction false} StrAtIs(mem: seq<byte>, p: int)
    requires 0 <= p && Terminated(mem, p)
    ensures var s := StrAt(mem, p); NoZero(s) && p + |s| < |mem| && mem[p..p + |s|] == s && mem[p + |s|] == 0
    decreases |mem| - p
  {
    if mem[p] != 0 {
      StrAtIs(mem, p + 1);
      var s := StrAt(mem, p);
      assert mem[p..p + |s|] == [mem[p]] + mem[p + 1..p + |s|];
    }
  }

  lemma {:induction false} StrAtFound(mem: seq<byte>, p: int, s: seq<byte>)
    requires 0 <= p && p + |s| < |mem| && NoZero(s) && mem[p..p + |s|] == s && mem[p + |s|] == 0
    ensures StrAt(mem, p) == s
    decreases |s|
  {
    if s != [] {
      assert mem[p] == s[0] && mem[p + 1..p + |s|] == s[1..];
      StrAtFound(mem, p + 1, s[1..]);
    }
  }

  function Joined(b0: int, b1: int, b2: int, b3: int): int { b0 + 0x100 * b1 + 0x1_0000 * b2 + 0x100_0000 * b3 }

  /** The 32-bit little-endian word at a. */
  function Long(mem: seq<byte>, a: int): int
    requires 0 <= a && a + 4 <= |mem|
  {
    Joined(mem[a], mem[a + 1], mem[a + 2], mem[a + 3])
  }

  /** The lowest byte of a word comes first in memory. */
  lemma LongInBytes(mem: seq<byte>, a: int)
    requires 0 <= a && a + 4 <= |mem|
    ensures Long(mem, a) == (mem[a] as int) + 256 * (mem[a + 1] as int) + 65536 * (mem[a + 2] as int) + 16777216 * (mem[a + 3] as int)
  {
  }

  function Byte(v: int, k: int): byte {
    if k == 0 then v % 0x100
    else if k == 1 then v / 0x100 % 0x100
    else if k == 2 then v / 0x100 / 0x100 % 0x100
    else v / 0x100 / 0x100 / 0x100 % 0x100
  }

  lemma LongOfBytes(v: int)
    requires 0 <= v < WORD
    ensures Joined(Byte(v, 0), Byte(v, 1), Byte(v, 2), Byte(v, 3)) == v
  {
    var a := v / 0x100;
    var b := a / 0x100;
    var c := b / 0x100;
    assert v == 0x100 * a + v % 0x100;
    assert a == 0x100 * b + a % 0x100;
    assert b == 0x100 * c + b % 0x100;
    assert 0 <= c < 0x100;
  }

  /** The words vals, one after the other from a on. */
  ghost predicate LongsAre(mem: seq<byte>, a: int, vals: seq<int>) {
    0 <= a && a + 4 * |vals| <= |mem| && forall k :: 0 <= k < |vals| ==> LongIs(mem, a, k, vals[k])
  }

  ghost predicate LongIs(mem: seq<byte>, a: int, k: int, v: int)
    requires 0 <= a && 0 <= k && a + 4 * k + 4 <= |mem|
  {
    Long(mem, a + 4 * k) == v
  }

  // ----- the tables ----------------------------------------------------

  /** The addresses of the strings when the first is at p. */
  function Addresses(p: int, ss: seq<seq<byte>>): (r: seq<int>)
    ensures |r| == |ss|
    decreases |ss|
  {
    if ss == [] then [] else [p] + Addresses(p + |ss[0]| + 1, ss[1..])
  }

  lemma {:induction false} AddressAt(p: int, ss: seq<seq<byte>>, k: nat)
    requires k < |ss|
    ensures Addresses(p, ss)[k] == p + |Packed(ss[..k])|
    decreases k
  {
    if k > 0 {
      AddressAt(p + |ss[0]| + 1, ss[1..], k - 1);
      assert ss[..k][1..] == ss[1..][..k - 1];
    }
  }

  /** The words on the new stack, from the stack pointer up. */
  function Stack(sp: int, p: int, args: seq<seq<byte>>, envs: seq<seq<byte>>): (r: seq<int>)
    ensures |r| == |args| + |envs| + 5
  {
    [|args|, sp + 12, sp + 12 + 4 * (|args| + 1)]
    + Addresses(p, args) + [0] + Addresses(p + |Packed(args)|, envs) + [0]
  }

  /** What a program finds in a pointer table: the strings up to the null pointer. */
  function ReadTable(mem: seq<byte>, table: int): seq<seq<byte>>
    decreases |mem| - table
  {
    if table < 0 || table + 4 > |mem| || Long(mem, table) == 0 then []
    else [StrAt(mem, Long(mem, table))] + ReadTable(mem, table + 4)
  }

  /** The strings from k on are read from the table's words from k on. */
  lemma {:induction false} TableReads(mem: seq<byte>, table: int, p: int, ss: seq<seq<byte>>, k: nat)
    requires 0 < p && k <= |ss| && NoZeros(ss)
    requires LongsAre(mem, table, Addresses(p, ss) + [0])
    requires p + |Packed(ss)| <= |mem| && mem[p..p + |Packed(ss)|] == Packed(ss)
    ensures ReadTable(mem, table + 4 * k) == ss[k..]
    decreases |ss| - k
  {
    hide Addresses, Packed, Long, StrAt, NoZeros;
    var vals := Addresses(p, ss) + [0];
    assert LongIs(mem, table, k, vals[k]);
    if k < |ss| {
      AddressAt(p, ss, k);
      StringThere(mem, p, ss, k);
      TableReads(mem, table, p, ss, k + 1);
      assert ss[k..] == [ss[k]] + ss[k + 1..];
    }
  }

  lemma StringThere(mem: seq<byte>, p: int, ss: seq<seq<byte>>, k: nat)
    requires 0 <= p && k < |ss| && NoZeros(ss)
    requires p + |Packed(ss)| <= |mem| && mem[p..p + |Packed(ss)|] == Packed(ss)
    ensures StrAt(mem, p + |Packed(ss[..k])|) == ss[k]
  {
    hide Packed;
    PackedAt(ss, k);
    var a, n, s := p, |Packed(ss[..k])|, ss[k];
    MiddlePart(mem, a, Packed(ss[..k]), s + [0], Packed(ss[k + 1..]));
    assert mem[a + n..a + n + |s|] == (s + [0])[..|s|] == s;
    assert mem[a + n + |s|] == (s + [0])[|s|];
    StrAtFound(mem, a + n, s);
  }

  lemma MiddlePart(mem: seq<byte>, a: int, x: seq<byte>, y: seq<byte>, z: seq<byte>)
    requires 0 <= a && a + |x| + |y| + |z| <= |mem| && mem[a..a + |x| + |y| + |z|] == x + y + z
    ensures mem[a + |x|..a + |x| + |y|] == y
  {
    var w := mem[a..a + |x| + |y| + |z|];
    forall i | 0 <= i < |y|
      ensures mem[a + |x| + i] == y[i]
    {
      assert w[|x| + i] == mem[a + |x| + i] && (x + y + z)[|x| + i] == y[i];
    }
  }

  lemma LongsPart(mem: seq<byte>, a: int, vals: seq<int>, i: nat, j: nat)
    requires LongsAre(mem, a, vals) && i <= j <= |vals|
    ensures LongsAre(mem, a + 4 * i, vals[i..j])
  {
    forall k | 0 <= k < j - i
      ensures a + 4 * i + 4 * k + 4 <= |mem| && LongIs(mem, a + 4 * i, k, vals[i..j][k])
    {
      assert LongIs(mem, a, i + k, vals[i + k]);
    }
  }

  lemma StackWords(mem: seq<byte>, sp: int, p: int, args: seq<seq<byte>>, envs: seq<seq<byte>>)
    requires LongsAre(mem, sp, Stack(sp, p, args, envs))
    ensures 0 <= sp && sp + 12 <= |mem|
    ensures Long(mem, sp) == |args|
    ensures Long(mem, sp + 4) == sp + 12
    ensures Long(mem, sp + 8) == sp + 12 + 4 * (|args| + 1)
    ensures LongsAre(mem, sp + 12, Addresses(p, args) + [0])
    ensures LongsAre(mem, sp + 12 + 4 * (|args| + 1), Addresses(p + |Packed(args)|, envs) + [0])
  {
    hide Addresses, Packed, Long;
    var vals, n := Stack(sp, p, args, envs), |args|;
    assert LongIs(mem, sp, 0, vals[0]) && LongIs(mem, sp, 1, vals[1]) && LongIs(mem, sp, 2, vals[2]);
    LongsPart(mem, sp, vals, 3, n + 4);
    assert vals[3..n + 4] == Addresses(p, args) + [0];
    LongsPart(mem, sp, vals, n + 4, |vals|);
    assert vals[n + 4..|vals|] == Addresses(p + |Packed(args)|, envs) + [0];
  }

  /** A program started on this stack reads back its arguments and its environment, all of them, in order. */
  lemma StackReads(mem: seq<byte>, sp: int, p: int, args: seq<seq<byte>>, envs: seq<seq<byte>>)
    requires 0 < p && NoZeros(args) && NoZeros(envs)
    requires LongsAre(mem, sp, Stack(sp, p, args, envs))
    requires p + |Packed(args + envs)| <= |mem| && mem[p..p + |Packed(args + envs)|] == Packed(args + envs)
    ensures 0 <= sp && sp + 12 <= |mem|
    ensures Long(mem, sp) == |args|
    ensures ReadTable(mem, Long(mem, sp + 4)) == args
    ensures ReadTable(mem, Long(mem, sp + 8)) == envs
  {
    hide Addresses, Packed, Long, ReadTable, LongsAre, Stack, NoZeros;
    StackWords(mem, sp, p, args, envs);
    PackedParts(mem, p, args, envs);
    TableReads(mem, sp + 12, p, args, 0);
    TableReads(mem, sp + 12 + 4 * (|args| + 1), p + |Packed(args)|, envs, 0);
    assert args[0..] == args && envs[0..] == envs;
  }

  lemma PackedParts(mem: seq<byte>, p: int, args: seq<seq<byte>>, envs: seq<seq<byte>>)
    requires 0 <= p && p + |Packed(args + envs)| <= |mem| && mem[p..p + |Packed(args + envs)|] == Packed(args + envs)
    ensures var m, n := |Packed(args)|, |Packed(envs)|;
            p + m + n <= |mem| && mem[p..p + m] == Packed(args) && mem[p + m..p + m + n] == Packed(envs)
  {
    hide Packed;
    PackedAppend(args, envs);
    var none: seq<byte> := [];
    MiddlePart(mem, p, none, Packed(args), Packed(envs)) by {
      assert none + Packed(args) + Packed(envs) == Packed(args + envs);
    }
    MiddlePart(mem, p, Packed(args), Packed(envs), none) by {
      assert Packed(args) + Packed(envs) + none == Packed(args + envs);
    }
  }
}
