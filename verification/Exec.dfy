// copy_strings(), change_ldt() and create_tables() of linux-0.11/fs/exec.c: the arguments and
// the environment of a new program, packed downward into pages allocated on demand.

module Exec {
  import opened Blocks
  import opened ExecSpec

  const MAX_ARG_PAGES: nat := 32
  const AREA: nat := 131072
  /** The data segment, and where the argument pages are in it. */
  const DATA_LIMIT: nat := 0x400_0000
  const TOP: nat := 0x3FE_0000

  // ----- the argument pages --------------------------------------------

  /** How the copying of a string ends: done, out of pages, or at the bottom of the area with bytes left. */
  datatype Copying = Copied | NoPage | Below

  class ArgPages {
    var page: seq<array?<byte>>
    /** Pages that get_free_page() can still give. */
    var free: nat

    constructor (free: nat)
      ensures Valid() && this.free == free && Flat() == seq(AREA, _ => 0)
      ensures fresh(Arrays()) && Spare() == free - MAX_ARG_PAGES
    {
      this.page := seq(MAX_ARG_PAGES, _ => null);
      this.free := free;
      new;
      assert forall i :: 0 <= i < AREA ==> ByteAt(i) == 0;
      AllMissing(page);
    }

    ghost function Arrays(): set<array<byte>>
      reads this
    {
      set a: array<byte> | a in page
    }

    ghost predicate Valid()
      reads this
    {
      && |page| == MAX_ARG_PAGES
      && (forall i :: 0 <= i < |page| && page[i] != null ==> page[i].Length == PAGE_SIZE)
      && (forall i, j :: 0 <= i < j < |page| && page[i] != null ==> page[i] != page[j])
    }

    /** Byte i of the area; a page not allocated yet reads as zeros. */
    ghost function ByteAt(i: int): byte
      requires Valid() && 0 <= i < AREA
      reads this, Arrays()
    {
      if page[i / PAGE_SIZE] == null then 0 else page[i / PAGE_SIZE][i % PAGE_SIZE]
    }

    ghost function FlatTo(n: nat): (s: seq<byte>)
      requires Valid() && n <= AREA
      reads this, Arrays()
      ensures |s| == n && forall i :: 0 <= i < n ==> s[i] == ByteAt(i)
    {
      if n == 0 then [] else FlatTo(n - 1) + [ByteAt(n - 1)]
    }

    ghost function Flat(): (s: seq<byte>)
      requires Valid()
      reads this, Arrays()
      ensures |s| == AREA && forall i :: 0 <= i < AREA ==> s[i] == ByteAt(i)
    {
      FlatTo(AREA)
    }

    /** Free pages beyond those that could still be asked for. */
    ghost function Spare(): int
      reads this
    {
      free - Missing(page)
    }

    /** While offset is positive, pag and offset are where byte p is. */
    ghost predicate Cached(p: int, offset: int, pag: array?<byte>)
      requires Valid()
      reads this
    {
      && 0 <= p <= AREA && 0 <= offset < PAGE_SIZE
      && (offset > 0 ==> p < AREA && pag != null && offset == p % PAGE_SIZE && page[p / PAGE_SIZE] == pag)
    }

    /** `page[p/PAGE_SIZE]`, allocated when it is not there. */
    method PageFor(p: int) returns (pag: array?<byte>)
      requires Valid() && 0 <= p < AREA
      modifies this
      ensures Valid() && Flat() == old(Flat())
      ensures forall a :: a in Arrays() ==> a in old(Arrays()) || fresh(a)
      ensures Spare() == old(Spare())
      ensures pag == null ==> free == 0 && Spare() < 0 && page == old(page)
      ensures pag != null ==> page == old(page)[p / PAGE_SIZE := pag] && free == old(free) - if old(page)[p / PAGE_SIZE] == null then 1 else 0
    {
      ghost var f := Flat();
      pag := page[p / PAGE_SIZE];
      if pag == null {
        OneMissing(page, p / PAGE_SIZE);
        if free == 0 {
          return;
        }
        free := free - 1;
        pag := new byte[PAGE_SIZE](_ => 0);
        NoneMissing(page, p / PAGE_SIZE, pag);
        page := page[p / PAGE_SIZE := pag];
        forall i | 0 <= i < AREA ensures ByteAt(i) == f[i] {
          assert f[i] == old(ByteAt(i));
        }
        assert Flat() == f;
      }
    }

    /** Store one byte at p, going to the page below when the offset in the page has run out. */
    method StoreByte(p: int, offset: int, pag: array?<byte>, b: byte) returns (offset': int, pag': array?<byte>)
      requires Valid() && 0 <= p < AREA && Cached(p + 1, offset, pag)
      modifies this, Arrays()
      ensures Valid() && forall a :: a in Arrays() ==> a in old(Arrays()) || fresh(a)
      ensures Spare() == old(Spare())
      ensures pag' == null ==> free == 0 && Spare() < 0 && Flat() == old(Flat())
      ensures pag' != null ==> Cached(p, offset', pag') && Flat() == old(Flat())[p := b]
      ensures pag' != null ==> page[p / 4096] == pag' && pag'[p % 4096] == b
    {
      SamePage(p, offset);
      offset', pag' := offset - 1, pag;
      if offset' < 0 {
        offset' := p % PAGE_SIZE;
        pag' := PageFor(p);
        if pag' == null {
          return;
        }
      }
      assert page[p / PAGE_SIZE] in page && pag' in Arrays();
      Poke(p, pag', b);
    }

    method Poke(p: int, pag: array<byte>, b: byte)
      requires Valid() && 0 <= p < AREA && page[p / PAGE_SIZE] == pag
      modifies pag
      ensures Valid() && Flat() == old(Flat())[p := b] && pag[p % PAGE_SIZE] == b
    {
      ghost var f := Flat();
      pag[p % PAGE_SIZE] := b;
      forall i | 0 <= i < AREA
        ensures ByteAt(i) == f[p := b][i]
      {
        assert f[i] == old(ByteAt(i));
        if i != p && page[i / PAGE_SIZE] == pag {
          OnePage(i / PAGE_SIZE, p / PAGE_SIZE);
          OtherByte(i, p);
        }
      }
      assert Flat() == f[p := b];
    }

    /** copy_strings(): 0 when out of pages, when p is 0, or when the strings end exactly at the bottom. The
        guard against strings that do not fit never fires, since p is unsigned; then the source goes on
        below the area, which the answer -1 stands for. */
    method CopyStrings(argc: nat, argv: seq<int>, mem: seq<byte>, p: int) returns (r: int)
      requires Valid() && 0 <= p <= AREA && argc == |argv| && forall i :: 0 <= i < |argv| ==> 0 <= argv[i] && Terminated(mem, argv[i])
      modifies this, Arrays()
      ensures Valid() && forall a :: a in Arrays() ==> a in old(Arrays()) || fresh(a)
      ensures Spare() == old(Spare()) && r >= -1
      ensures r == -1 ==> 0 < p < |Packed(Strings(mem, argv))|
      ensures r == 0 ==> p == 0 || p == |Packed(Strings(mem, argv))| || (free == 0 && Spare() < 0)
      ensures r > 0 ==> r == p - |Packed(Strings(mem, argv))| && Flat() == old(Flat())[..r] + Packed(Strings(mem, argv)) + old(Flat())[p..]
    {
      if p == 0 {
        return 0;
      }
      hide Valid, Spare, Cached, Packed, Terminated;
      ghost var ss, f := Strings(mem, argv), Flat();
      var pag: array?<byte>, offset, how := null, 0, Copied;
      var n := argc;
      r := p;
      NothingPacked(f, p, ss);
      StartsUncached(p);
      while n > 0
        invariant Valid() && 0 <= n <= argc && Cached(r, offset, pag)
        invariant 0 <= r == p - |Packed(ss[n..])| <= AREA
        invariant Flat() == f[..r] + Packed(ss[n..]) + f[p..]
        invariant Spare() == old(Spare()) && forall a :: a in Arrays() ==> a in old(Arrays()) || fresh(a)
      {
        n := n - 1;
        ghost var q := r;
        OneMorePacked(ss, n);
        r, offset, pag, how := CopyString(mem, argv[n], r, offset, pag);
        if how == NoPage {
          return 0;
        }
        if how == Below {
          AllOfThem(ss, n);
          return -1;
        }
        CutString(f, q, Packed(ss[n + 1..]), p, ss[n] + [0], r);
      }
      assert ss[0..] == ss;
    }

    /** The strings from n on take no more than all of them. */
    lemma AllOfThem(ss: seq<seq<byte>>, n: nat)
      requires n <= |ss|
      ensures |Packed(ss)| >= |Packed(ss[n..])|
    {
      PackedAppend(ss[..n], ss[n..]);
      assert ss[..n] + ss[n..] == ss;
    }

    lemma StartsUncached(p: int)
      requires Valid() && 0 <= p <= AREA
      ensures Cached(p, 0, null)
    {
    }

    /** One string, from its end to its start: afterwards the bytes below p are the string and its terminator. */
    method CopyString(mem: seq<byte>, str: int, p: int, offset: int, pag: array?<byte>) returns (p': int, offset': int, pag': array?<byte>, how: Copying)
      requires Valid() && 0 <= p <= AREA && Cached(p, offset, pag) && 0 <= str && Terminated(mem, str)
      modifies this, Arrays()
      ensures Valid() && forall a :: a in Arrays() ==> a in old(Arrays()) || fresh(a)
      ensures Spare() == old(Spare()) && (how == NoPage ==> free == 0 && Spare() < 0)
      ensures how == Below ==> |StrAt(mem, str)| + 1 > p
      ensures how == Copied ==> 0 <= p' && Cached(p', offset', pag') && p' == p - |StrAt(mem, str)| - 1
      ensures how == Copied ==> Flat() == old(Flat())[..p'] + (StrAt(mem, str) + [0]) + old(Flat())[p..]
    {
      hide Valid, Spare, Cached;
      StrAtIs(mem, str);
      ghost var full, f := StrAt(mem, str) + [0], Flat();
      var tmp, len := str, 1;
      while mem[tmp] != 0
        invariant str <= tmp && len == tmp - str + 1 && len <= |full|
        decreases |full| - len
        modifies {}
      {
        tmp := tmp + 1;
        len := len + 1;
      }
      tmp := tmp + 1;
      assert len == |full|;
      p', offset', pag', how := p, offset, pag, Copied;
      CutNothing(f, p, full);
      while len > 0
        invariant Valid() && 0 <= len <= |full| && 0 <= p' == p - (|full| - len) && tmp == str + len
        invariant Cached(p', offset', pag')
        invariant Flat() == f[..p'] + full[len..] + f[p..]
        invariant Spare() == old(Spare()) && forall a :: a in Arrays() ==> a in old(Arrays()) || fresh(a)
      {
        if p' == 0 {
          return p', offset', pag', Below;
        }
        p' := p' - 1;
        tmp := tmp - 1;
        len := len - 1;
        assert mem[tmp] == full[len];
        offset', pag' := StoreByte(p', offset', pag', mem[tmp]);
        if pag' == null {
          return p', offset', pag', NoPage;
        }
        CutOne(f, p', full, len, p);
      }
    }

    /** change_ldt(): the pages, last to first, become the top of the data segment. */
    method MapPages(mem: array<byte>)
      requires Valid() && mem.Length == DATA_LIMIT && mem !in Arrays()
      modifies mem
      ensures mem[TOP..] == Flat() && mem[..TOP] == old(mem[..TOP])
    {
      hide ByteAt;
      var i, base := MAX_ARG_PAGES, DATA_LIMIT;
      while i > 0
        invariant 0 <= i <= MAX_ARG_PAGES && base == TOP + i * PAGE_SIZE
        invariant mem[..TOP] == old(mem[..TOP])
        invariant forall k :: i * PAGE_SIZE <= k < AREA ==> mem[TOP + k] == ByteAt(k)
      {
        i := i - 1;
        base := base - PAGE_SIZE;
        var j := 0;
        while j < PAGE_SIZE
          invariant 0 <= j <= PAGE_SIZE && mem[..TOP] == old(mem[..TOP])
          invariant forall k :: i * PAGE_SIZE <= k < i * PAGE_SIZE + j || (i + 1) * PAGE_SIZE <= k < AREA ==> mem[TOP + k] == ByteAt(k)
        {
          mem[base + j] := if page[i] == null then 0 else page[i][j];
          ByteOfPage(i, j);
          j := j + 1;
        }
      }
      assert forall k :: 0 <= k < AREA ==> mem[TOP + k] == mem[TOP..][k];
    }

    lemma ByteOfPage(i: int, j: int)
      requires Valid() && 0 <= i < MAX_ARG_PAGES && 0 <= j < PAGE_SIZE
      ensures ByteAt(i * PAGE_SIZE + j) == if page[i] == null then 0 else page[i][j]
    {
      assert (i * PAGE_SIZE + j) / PAGE_SIZE == i && (i * PAGE_SIZE + j) % PAGE_SIZE == j;
    }

    lemma OnePage(i: int, j: int)
      requires Valid() && 0 <= i < MAX_ARG_PAGES && 0 <= j < MAX_ARG_PAGES && page[i] != null && page[i] == page[j]
      ensures i == j
    {
      assert i < j || j < i || i == j;
    }
  }

  /** Pages not allocated. */
  function Missing(page: seq<array?<byte>>): nat {
    if page == [] then 0 else Missing(page[..|page| - 1]) + if page[|page| - 1] == null then 1 else 0
  }

  lemma {:induction false} AllMissing(page: seq<array?<byte>>)
    requires forall i :: 0 <= i < |page| ==> page[i] == null
    ensures Missing(page) == |page|
  {
    if page != [] {
      AllMissing(page[..|page| - 1]);
    }
  }

  lemma {:induction false} OneMissing(page: seq<array?<byte>>, i: nat)
    requires i < |page| && page[i] == null
    ensures Missing(page) > 0
    decreases |page|
  {
    if i < |page| - 1 {
      OneMissing(page[..|page| - 1], i);
    }
  }

  lemma {:induction false} NoneMissing(page: seq<array?<byte>>, i: nat, pag: array<byte>)
    requires i < |page| && page[i] == null
    ensures Missing(page[i := pag]) == Missing(page) - 1
    decreases |page|
  {
    var n, r := |page| - 1, page[i := pag];
    if i < n {
      NoneMissing(page[..n], i, pag);
      assert r[..n] == page[..n][i := pag];
    } else {
      assert r[..n] == page[..n];
    }
  }

  /** Going down inside a page, the offset and the page stay in step with p. */
  lemma SamePage(p: int, offset: int)
    requires 0 <= p
    ensures offset > 0 && offset == (p + 1) % PAGE_SIZE ==> offset - 1 == p % PAGE_SIZE && (p + 1) / PAGE_SIZE == p / PAGE_SIZE
  {
  }

  lemma OtherByte(i: int, j: int)
    requires i / PAGE_SIZE == j / PAGE_SIZE && i != j
    ensures i % PAGE_SIZE != j % PAGE_SIZE
  {
  }

  /** The strings a pointer table in user memory stands for. */
  function Strings(mem: seq<byte>, argv: seq<int>): (ss: seq<seq<byte>>)
    ensures |ss| == |argv|
  {
    seq(|argv|, i requires 0 <= i < |argv| => StrAt(mem, argv[i]))
  }

  lemma NothingPacked(f: seq<byte>, p: nat, ss: seq<seq<byte>>)
    requires p <= |f|
    ensures ss[|ss|..] == [] && Packed(ss[|ss|..]) == [] && ss[..|ss|] == ss
    ensures f == f[..p] + Packed(ss[|ss|..]) + f[p..]
  {
  }

  lemma OneMorePacked(ss: seq<seq<byte>>, n: nat)
    requires n < |ss|
    ensures Packed(ss[n..]) == ss[n] + [0] + Packed(ss[n + 1..])
    ensures Packed(ss[..n + 1]) == Packed(ss[..n]) + (ss[n] + [0])
  {
    assert ss[n..][1..] == ss[n + 1..];
    PackedLast(ss, n);
  }

  lemma CutString(f: seq<byte>, q: nat, packed: seq<byte>, p: nat, s: seq<byte>, r: nat)
    requires r + |s| == q && q + |packed| == p <= |f|
    ensures var g := f[..q] + packed + f[p..];
            |g| == |f| && g[..r] + s + g[q..] == f[..r] + (s + packed) + f[p..]
  {
  }

  lemma CutNothing(f: seq<byte>, p: nat, full: seq<byte>)
    requires p <= |f|
    ensures f == f[..p] + full[|full|..] + f[p..]
  {
  }

  lemma CutOne(f: seq<byte>, p: nat, full: seq<byte>, len: nat, q: nat)
    requires len < |full| && p < q <= |f| && p + (|full| - len) == q
    ensures (f[..p + 1] + full[len + 1..] + f[q..])[p := full[len]] == f[..p] + full[len..] + f[q..]
  {
  }

  // ----- the tables ----------------------------------------------------

  /** Store a word in the new program's memory. */
  method PutLong(mem: array<byte>, a: int, v: int)
    requires 0 <= a && a + 4 <= mem.Length && 0 <= v < WORD
    modifies mem
    ensures mem[..] == WithLong(old(mem[..]), a, v)
    ensures mem[a] == v % 0x100 && mem[a + 1] == v / 0x100 % 0x100 && mem[a + 2] == v / 0x1_0000 % 0x100 && mem[a + 3] == v / 0x100_0000
  {
    hide Byte;
    ghost var m := mem[..];
    mem[a] := Byte(v, 0);
    mem[a + 1] := Byte(v, 1);
    mem[a + 2] := Byte(v, 2);
    mem[a + 3] := Byte(v, 3);
    LowByteFirst(v);
  }

  /** The bytes of a word, lowest first. */
  lemma LowByteFirst(v: int)
    requires 0 <= v < WORD
    ensures Byte(v, 0) == v % 0x100 && Byte(v, 1) == v / 0x100 % 0x100 && Byte(v, 2) == v / 0x1_0000 % 0x100 && Byte(v, 3) == v / 0x100_0000
  {
    var a := v / 0x100;
    var b := a / 0x100;
    assert b == v / 0x1_0000 && b / 0x100 == v / 0x100_0000;
  }

  function WithLong(m: seq<byte>, a: int, v: int): (r: seq<byte>)
    requires 0 <= a && a + 4 <= |m|
    ensures |r| == |m|
  {
    m[a := Byte(v, 0)][a + 1 := Byte(v, 1)][a + 2 := Byte(v, 2)][a + 3 := Byte(v, 3)]
  }

  /** A word can be read back, and words and bytes elsewhere are what they were. */
  lemma WithLongReads(m: seq<byte>, a: int, v: int)
    requires 0 <= a && a + 4 <= |m| && 0 <= v < WORD
    ensures Long(WithLong(m, a, v), a) == v
    ensures forall b :: 0 <= b && b + 4 <= |m| && (b + 4 <= a || a + 4 <= b) ==> Long(WithLong(m, a, v), b) == Long(m, b)
    ensures forall lo, hi :: 0 <= lo <= hi <= |m| && (hi <= a || a + 4 <= lo) ==> WithLong(m, a, v)[lo..hi] == m[lo..hi]
  {
    hide Byte, Joined;
    LongOfBytes(v);
  }

  /** What is in place while the tables are being filled: the first n words, the strings above them, and
      everything of m0 outside the words. */
  ghost predicate Filling(m: seq<byte>, m0: seq<byte>, sp: int, l: seq<int>, n: int, p: int, packed: seq<byte>) {
    && |m| == |m0| && Outside(m, m0, sp, sp + 4 * |l|)
    && 0 <= n <= |l| && 0 <= sp && sp + 4 * |l| <= p && p + |packed| <= |m|
    && LongsAre(m, sp, l[..n]) && m[p..p + |packed|] == packed
  }

  /** Nothing before lo and nothing from hi on differs. */
  ghost predicate Outside(m: seq<byte>, m0: seq<byte>, lo: int, hi: int) {
    0 <= lo <= hi <= |m| == |m0| && m[0..lo] == m0[0..lo] && m[hi..|m|] == m0[hi..|m|]
  }

  lemma FillNext(m: seq<byte>, m0: seq<byte>, sp: int, l: seq<int>, n: int, p: int, packed: seq<byte>)
    requires Filling(m, m0, sp, l, n, p, packed) && n < |l| && 0 <= l[n] < WORD
    ensures Filling(WithLong(m, sp + 4 * n, l[n]), m0, sp, l, n + 1, p, packed)
  {
    hide Byte, Joined, Long, WithLong;
    var a, v := sp + 4 * n, l[n];
    var m' := WithLong(m, a, v);
    WithLongReads(m, a, v);
    var l' := l[..n + 1];
    forall k | 0 <= k < n + 1
      ensures LongIs(m', sp, k, l'[k])
    {
      if k < n {
        assert LongIs(m, sp, k, l[..n][k]);
      }
    }
  }

  /** Go past the terminator of the string at p. */
  method SkipString(mem: array<byte>, p: int) returns (q: int)
    requires 0 <= p && Terminated(mem[..], p)
    ensures q == p + |StrAt(mem[..], p)| + 1
  {
    hide StrAt;
    ghost var s := StrAt(mem[..], p);
    StrAtIs(mem[..], p);
    q := p;
    while mem[q] != 0
      invariant p <= q <= p + |s|
      decreases p + |s| - q
    {
      assert mem[q] == mem[..][q];
      q := q + 1;
    }
    assert mem[..][q] == mem[q];
    FirstZero(mem[..], p, s, q);
    q := q + 1;
  }

  lemma FirstZero(m: seq<byte>, p: int, s: seq<byte>, q: int)
    requires 0 <= p <= q <= p + |s| < |m| && m[p..p + |s|] == s && NoZero(s) && m[q] == 0
    ensures q == p + |s|
  {
    assert forall i :: p <= i < p + |s| ==> m[i] == m[p..p + |s|][i - p];
  }

  /** String k of the packed strings starts here, and ends in a zero. */
  lemma StringAt(m: seq<byte>, p: int, ss: seq<seq<byte>>, k: nat)
    requires 0 <= p && k < |ss| && NoZeros(ss) && p + |Packed(ss)| <= |m| && m[p..p + |Packed(ss)|] == Packed(ss)
    ensures var q := p + |Packed(ss[..k])|;
            && StrAt(m, q) == ss[k] && Terminated(m, q) && q + |ss[k]| + 1 == p + |Packed(ss[..k + 1])| <= |m|
  {
    hide Packed, StrAt, NoZeros;
    StringThere(m, p, ss, k);
    PackedAt(ss, k);
    PackedLast(ss, k);
    var q := p + |Packed(ss[..k])|;
    MiddlePart(m, p, Packed(ss[..k]), ss[k] + [0], Packed(ss[k + 1..]));
    assert m[q..q + |ss[k]| + 1][|ss[k]|] == m[q + |ss[k]|];
  }

  /**
   * One pointer table: the addresses of count strings, found by walking over the strings themselves, and
   * a null pointer. The strings are those from k on, the pointers the words of l from n on.
   */
  method PutPointers(mem: array<byte>, table: int, p: int, count: nat,
    ghost m0: seq<byte>, ghost sp: int, ghost l: seq<int>, ghost n: int, ghost p0: int, ghost ss: seq<seq<byte>>, ghost k: nat) returns (p': int)
    requires Filling(mem[..], m0, sp, l, n, p0, Packed(ss)) && NoZeros(ss) && mem.Length < WORD
    requires table == sp + 4 * n && n + count < |l| && k + count <= |ss| && p == p0 + |Packed(ss[..k])|
    requires forall i :: 0 <= i < count ==> PointerTo(l, n, p0, ss, k, i)
    requires l[n + count] == 0
    modifies mem
    ensures Filling(mem[..], m0, sp, l, n + count + 1, p0, Packed(ss)) && p' == p0 + |Packed(ss[..k + count])|
  {
    hide Filling, Packed, Byte, StrAt, NoZeros, Terminated, WithLong;
    var left, argv := count, table;
    p' := p;
    ghost var i := 0;
    FillingFacts(mem[..], m0, sp, l, n, p0, Packed(ss));
    while left > 0
      invariant 0 <= i <= count && left == count - i && argv == table + 4 * i
      invariant p' == p0 + |Packed(ss[..k + i])|
      invariant Filling(mem[..], m0, sp, l, n + i, p0, Packed(ss))
    {
      left := left - 1;
      FillingFacts(mem[..], m0, sp, l, n + i, p0, Packed(ss));
      StringAt(mem[..], p0, ss, k + i);
      assert PointerTo(l, n, p0, ss, k, i);
      FillNext(mem[..], m0, sp, l, n + i, p0, Packed(ss));
      PutLong(mem, argv, p');
      FillingFacts(mem[..], m0, sp, l, n + i + 1, p0, Packed(ss));
      StringAt(mem[..], p0, ss, k + i);
      argv := argv + 4;
      p' := SkipString(mem, p');
      i := i + 1;
    }
    FillNext(mem[..], m0, sp, l, n + count, p0, Packed(ss));
    FillingFacts(mem[..], m0, sp, l, n + count, p0, Packed(ss));
    PutLong(mem, argv, 0);
  }

  ghost predicate PointerTo(l: seq<int>, n: int, p: int, ss: seq<seq<byte>>, k: nat, i: int) {
    0 <= i && 0 <= n && n + i < |l| && k + i <= |ss| && l[n + i] == p + |Packed(ss[..k + i])|
  }

  lemma FillingFacts(m: seq<byte>, m0: seq<byte>, sp: int, l: seq<int>, n: int, p: int, packed: seq<byte>)
    requires Filling(m, m0, sp, l, n, p, packed)
    ensures 0 <= n <= |l| && 0 <= sp && sp + 4 * |l| <= p && p + |packed| <= |m| && m[p..p + |packed|] == packed
  {
  }

  lemma ArgPointers(sp: int, p: int, args: seq<seq<byte>>, envs: seq<seq<byte>>)
    ensures var l, ss := Stack(sp, p, args, envs), args + envs;
            l[3 + |args|] == 0 && forall i :: 0 <= i < |args| ==> PointerTo(l, 3, p, ss, 0, i)
  {
    hide Packed, Addresses;
    var l, ss := Stack(sp, p, args, envs), args + envs;
    forall i | 0 <= i < |args|
      ensures PointerTo(l, 3, p, ss, 0, i)
    {
      AddressAt(p, args, i);
      assert l[3 + i] == Addresses(p, args)[i];
      assert ss[..i] == args[..i];
    }
  }

  lemma EnvPointers(sp: int, p: int, args: seq<seq<byte>>, envs: seq<seq<byte>>)
    ensures var l, ss, n := Stack(sp, p, args, envs), args + envs, 4 + |args|;
            l[4 + |args| + |envs|] == 0 && forall i :: 0 <= i < |envs| ==> PointerTo(l, n, p, ss, |args|, i)
  {
    hide Packed, Addresses;
    var l, ss, n := Stack(sp, p, args, envs), args + envs, 4 + |args|;
    forall i | 0 <= i < |envs|
      ensures PointerTo(l, n, p, ss, |args|, i)
    {
      AddressAt(p + |Packed(args)|, envs, i);
      assert l[4 + |args| + i] == Addresses(p + |Packed(args)|, envs)[i];
      assert ss[..|args| + i] == args + envs[..i];
      PackedAppend(args, envs[..i]);
    }
  }

  /** create_tables(): the stack holds the argument count, the two table addresses and the two tables. */
  method CreateTables(mem: array<byte>, p: int, argc: nat, envc: nat, ghost args: seq<seq<byte>>, ghost envs: seq<seq<byte>>) returns (sp: int)
    requires mem.Length < WORD && |args| == argc && |envs| == envc && NoZeros(args + envs)
    requires 4 * (argc + envc + 5) + 3 <= p && p + |Packed(args + envs)| <= mem.Length
    requires mem[p..p + |Packed(args + envs)|] == Packed(args + envs)
    modifies mem
    ensures sp == p / 4 * 4 - 4 * (argc + envc + 5) && LongsAre(mem[..], sp, Stack(sp, p, args, envs))
    ensures mem[p..p + |Packed(args + envs)|] == Packed(args + envs)
    ensures Outside(mem[..], old(mem[..]), sp, sp + 4 * (argc + envc + 5))
  {
    hide Packed, Filling, NoZeros, WithLong, LongsAre, Addresses, PointerTo;
    ghost var ss, m0 := args + envs, mem[..];
    sp := p / 4 * 4;
    sp := sp - 4 * (envc + 1);
    var envp := sp;
    sp := sp - 4 * (argc + 1);
    var argv := sp;
    ghost var l := Stack(sp - 12, p, args, envs);
    sp := sp - 4;
    PutLong(mem, sp, envp);
    sp := sp - 4;
    PutLong(mem, sp, argv);
    sp := sp - 4;
    PutLong(mem, sp, argc);
    FirstThree(m0, sp, p, args, envs);
    PutBoth(mem, argv, envp, p, argc, envc, m0, sp, args, envs);
    FillingDone(mem[..], m0, sp, l, p, Packed(ss));
  }

  /** The two tables, one after the other. */
  method PutBoth(mem: array<byte>, argv: int, envp: int, p: int, argc: nat, envc: nat,
    ghost m0: seq<byte>, ghost sp: int, ghost args: seq<seq<byte>>, ghost envs: seq<seq<byte>>)
    requires mem.Length < WORD && |args| == argc && |envs| == envc && NoZeros(args + envs)
    requires argv == sp + 12 && envp == sp + 4 * (4 + argc)
    requires Filling(mem[..], m0, sp, Stack(sp, p, args, envs), 3, p, Packed(args + envs))
    modifies mem
    ensures Filling(mem[..], m0, sp, Stack(sp, p, args, envs), argc + envc + 5, p, Packed(args + envs))
  {
    hide Packed, Filling, NoZeros, WithLong, LongsAre, Addresses, PointerTo, Stack;
    ghost var ss, l := args + envs, Stack(sp, p, args, envs);
    assert ss[..0] == [] && ss[..argc] == args;
    NothingIsPacked();
    ArgPointers(sp, p, args, envs);
    var q := PutPointers(mem, argv, p, argc, m0, sp, l, 3, p, ss, 0);
    EnvPointers(sp, p, args, envs);
    q := PutPointers(mem, envp, q, envc, m0, sp, l, 4 + argc, p, ss, argc);
  }

  lemma NothingIsPacked()
    ensures Packed([]) == []
  {
  }

  lemma FillingDone(m: seq<byte>, m0: seq<byte>, sp: int, l: seq<int>, p: int, packed: seq<byte>)
    requires Filling(m, m0, sp, l, |l|, p, packed)
    ensures LongsAre(m, sp, l) && p + |packed| <= |m| && m[p..p + |packed|] == packed && Outside(m, m0, sp, sp + 4 * |l|)
  {
    assert l[..|l|] == l;
  }

  /** The three words at the bottom of the stack, written from the top one down. */
  lemma FirstThree(m: seq<byte>, sp: int, p: int, args: seq<seq<byte>>, envs: seq<seq<byte>>)
    requires 0 <= sp && sp + 4 * (|args| + |envs| + 5) <= p && p + |Packed(args + envs)| <= |m| < WORD
    requires m[p..p + |Packed(args + envs)|] == Packed(args + envs)
    ensures var l := Stack(sp, p, args, envs);
            Filling(WithLong(WithLong(WithLong(m, sp + 8, l[2]), sp + 4, l[1]), sp, l[0]), m, sp, l, 3, p, Packed(args + envs))
  {
    hide Packed, Addresses, Byte, Long, WithLong;
    var l := Stack(sp, p, args, envs);
    var m1 := WithLong(m, sp + 8, l[2]);
    var m2 := WithLong(m1, sp + 4, l[1]);
    var m3 := WithLong(m2, sp, l[0]);
    WithLongReads(m, sp + 8, l[2]);
    WithLongReads(m1, sp + 4, l[1]);
    WithLongReads(m2, sp, l[0]);
    forall k | 0 <= k < 3
      ensures LongIs(m3, sp, k, l[..3][k])
    {
    }
  }

  lemma StringsAre(user: seq<byte>, argv: seq<int>, envp: seq<int>)
    requires forall i :: 0 <= i < |argv| ==> 0 <= argv[i] && Terminated(user, argv[i])
    requires forall i :: 0 <= i < |envp| ==> 0 <= envp[i] && Terminated(user, envp[i])
    ensures NoZeros(Strings(user, argv)) && NoZeros(Strings(user, envp)) && NoZeros(Strings(user, argv) + Strings(user, envp))
  {
    forall i | 0 <= i < |argv| ensures NoZero(Strings(user, argv)[i]) {
      StrAtIs(user, argv[i]);
    }
    forall i | 0 <= i < |envp| ensures NoZero(Strings(user, envp)[i]) {
      StrAtIs(user, envp[i]);
    }
  }

  lemma {:induction false} PackedLong(ss: seq<seq<byte>>)
    ensures |Packed(ss)| >= |ss|
  {
    if ss != [] {
      PackedLong(ss[1..]);
    }
  }

  /** What was packed second stands right below what was packed first. */
  lemma BothThere(f0: seq<byte>, f1: seq<byte>, p1: nat, p0: nat, x: seq<byte>, f2: seq<byte>, p2: nat, y: seq<byte>)
    requires p0 <= |f0| && p1 + |x| == p0 && f1 == f0[..p1] + x + f0[p0..]
    requires p2 + |y| == p1 && f2 == f1[..p2] + y + f1[p1..]
    ensures |f2| == |f0| && f2[p2..p2 + |y + x|] == y + x
  {
  }

  lemma SliceAgain(m: seq<byte>, top: nat, lo: nat, hi: nat)
    requires top <= |m| && lo <= hi <= |m| - top
    ensures m[top + lo..top + hi] == m[top..][lo..hi]
  {
  }

  // ----- execve --------------------------------------------------------

  /** The bytes that strings take, terminators included. */
  function StringBytes(user: seq<byte>, argv: seq<int>): nat { |Packed(Strings(user, argv))| }

  /**
   * What do_execve() does with the strings: environment first, then arguments, then the tables. The
   * new program reads back exactly what it was given. 0: no memory, or the strings filled the area to
   * the last byte; -1: they do not fit, and the source leaves the area.
   */
  method BuildStack(user: seq<byte>, argv: seq<int>, envp: seq<int>, free: nat, mem: array<byte>) returns (sp: int)
    requires forall i :: 0 <= i < |argv| ==> 0 <= argv[i] && Terminated(user, argv[i])
    requires forall i :: 0 <= i < |envp| ==> 0 <= envp[i] && Terminated(user, envp[i])
    requires mem.Length == DATA_LIMIT
    modifies mem
    ensures sp == 0 ==> free < MAX_ARG_PAGES || StringBytes(user, argv) + StringBytes(user, envp) == AREA - 4 || StringBytes(user, envp) == AREA - 4
    ensures sp < 0 ==> StringBytes(user, argv) + StringBytes(user, envp) > AREA - 4
    ensures sp > 0 ==> StringBytes(user, argv) + StringBytes(user, envp) < AREA - 4
    ensures free >= MAX_ARG_PAGES ==>
              (sp < 0 <==> StringBytes(user, envp) != AREA - 4 && StringBytes(user, argv) + StringBytes(user, envp) > AREA - 4)
    ensures sp > 0 ==> sp + 12 <= mem.Length && Long(mem[..], sp) == |argv|
    ensures sp > 0 ==> ReadTable(mem[..], Long(mem[..], sp + 4)) == Strings(user, argv)
    ensures sp > 0 ==> ReadTable(mem[..], Long(mem[..], sp + 8)) == Strings(user, envp)
  {
    hide Packed, Strings, NoZeros, ReadTable, Stack, StrAt, LongsAre, Terminated, Long, ArgPages.Valid, ArgPages.Flat;
    ghost var args, envs := Strings(user, argv), Strings(user, envp);
    StringsAre(user, argv, envp);
    PackedLong(args);
    PackedLong(envs);
    PackedAppend(args, envs);
    var pages := new ArgPages(free);
    var p := AREA - 4;
    ghost var f0 := pages.Flat();
    p := pages.CopyStrings(|envp|, envp, user, p);
    if p < 0 {
      return -1;
    }
    ghost var p1, f1 := p, pages.Flat();
    p := pages.CopyStrings(|argv|, argv, user, p);
    if p <= 0 {
      return p;
    }
    BothThere(f0, f1, p1, AREA - 4, Packed(envs), pages.Flat(), p, Packed(args));
    pages.MapPages(mem);
    SliceAgain(mem[..], TOP, p, p + |Packed(args + envs)|);
    p := p + TOP;
    sp := CreateTables(mem, p, |argv|, |envp|, args, envs);
    StackReads(mem[..], sp, p, args, envs);
  }

  /** n ones and a terminator. */
  function Ones(n: nat): (s: seq<byte>)
    ensures |s| == n + 1 && s[n] == 0 && forall i :: 0 <= i < n ==> s[i] == 1
  {
    seq(n, _ => 1) + [0]
  }

  /** One argument of 128 kB leaves the area, with all the pages there can be. */
  method LongArgumentLeavesArea(mem: array<byte>) returns (sp: int)
    requires mem.Length == DATA_LIMIT
    modifies mem
    ensures sp < 0
  {
    hide StrAt;
    var user := Ones(AREA);
    ghost var s := user[..AREA];
    assert user[0..0 + |s|] == s && user[0 + |s|] == 0;
    StrAtFound(user, 0, s);
    OneString(user, s);
    assert Terminated(user, 0) by { assert user[AREA] == 0; }
    sp := BuildStack(user, [0], [], MAX_ARG_PAGES, mem);
  }

  lemma OneString(user: seq<byte>, s: seq<byte>)
    requires StrAt(user, 0) == s
    ensures StringBytes(user, [0]) == |s| + 1 && StringBytes(user, []) == 0
  {
    hide StrAt;
    assert Strings(user, [0]) == [s] && Strings(user, []) == [];
    assert Packed([s]) == s + [0] + Packed([s][1..]) == s + [0];
  }
}
