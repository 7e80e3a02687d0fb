// read_pipe() and write_pipe() (linux-0.11/fs/pipe.c): one page used as a ring of 4095 bytes.

module Pipe {
  import opened Blocks
  import opened Circular

  /** PIPE_SIZE: (head - tail) & (PAGE_SIZE - 1). */
  function PipeSize(head: int, tail: int): int { (head - tail) % PAGE_SIZE }

  lemma SizeIs(head: int, tail: int)
    requires 0 <= head < PAGE_SIZE && 0 <= tail < PAGE_SIZE
    ensures 0 <= PipeSize(head, tail) < PAGE_SIZE && head == Wrap(tail + PipeSize(head, tail), PAGE_SIZE)
  {
  }

  lemma SizeMoves(head: int, tail: int, n: int)
    requires 0 <= head < PAGE_SIZE && 0 <= tail < PAGE_SIZE && 0 <= n <= PAGE_SIZE
    ensures PipeSize(head, tail) + n < PAGE_SIZE ==> PipeSize(Wrap(head + n, PAGE_SIZE), tail) == PipeSize(head, tail) + n
    ensures tail + n <= PAGE_SIZE ==> 0 <= Wrap(tail + n, PAGE_SIZE) < PAGE_SIZE
    ensures head + n <= PAGE_SIZE ==> 0 <= Wrap(head + n, PAGE_SIZE) < PAGE_SIZE
    ensures tail + n == PAGE_SIZE ==> Wrap(tail + n, PAGE_SIZE) == 0
    ensures head + n == PAGE_SIZE ==> Wrap(head + n, PAGE_SIZE) == 0
    ensures n <= PipeSize(head, tail) ==> PipeSize(head, Wrap(tail + n, PAGE_SIZE)) == PipeSize(head, tail) - n
  {
  }

  lemma TookFront(page: seq<byte>, tail: int, size: int, chars: int, written: seq<byte>, taken: seq<byte>)
    requires |page| == PAGE_SIZE && 0 <= tail < PAGE_SIZE && 0 <= chars <= size <= PAGE_SIZE && tail + chars <= PAGE_SIZE
    requires written == taken + Window(page, tail, size)
    ensures var chunk, rest := page[tail..tail + chars], Window(page, Wrap(tail + chars, PAGE_SIZE), size - chars);
            Window(page, tail, size) == chunk + rest && written == taken + chunk + rest
  {
    hide Window;
    var w := Window(page, tail, size);
    TakeFront(page, tail, size, chars);
    assert w == w[..chars] + w[chars..];
  }

  lemma CopyStep(s: seq<byte>, from: int, data: seq<byte>, k: int)
    requires 0 <= from && 0 <= k < |data| && from + k < |s|
    ensures (s[..from] + data[..k] + s[from + k..])[from + k := data[k]] == s[..from] + data[..k + 1] + s[from + k + 1..]
  {
  }

  class PipeInode {
    const page: array<byte>
    var head: int
    var tail: int
    /** Every byte ever written to the pipe, and every byte ever read from it. */
    ghost var written: seq<byte>
    ghost var taken: seq<byte>

    constructor ()
      ensures Valid() && written == taken == [] && fresh(page)
    {
      page := new byte[PAGE_SIZE](_ => 0);
      head, tail := 0, 0;
      written, taken := [], [];
    }

    /** The bytes in the pipe, oldest first. */
    ghost function Contents(): seq<byte>
      requires Indexed()
      reads this, page
    {
      SizeIs(head, tail);
      Window(page[..], tail, PipeSize(head, tail))
    }

    ghost predicate Indexed()
      reads this
    {
      page.Length == PAGE_SIZE && 0 <= head < PAGE_SIZE && 0 <= tail < PAGE_SIZE
    }

    /** What was written is what was read followed by what is there; one byte of the page always stays free. */
    ghost predicate Valid()
      reads this, page
    {
      Indexed() && written == taken + Contents() && |Contents()| <= PAGE_SIZE - 1
    }

    /** Copy bytes of the page to the user's buffer. */
    method CopyOut(from: int, n: int) returns (chunk: seq<byte>)
      requires page.Length == PAGE_SIZE && 0 <= from <= from + n <= PAGE_SIZE
      ensures chunk == page[from..from + n]
    {
      var size, chars := from, n;
      chunk := [];
      while chars > 0
        invariant 0 <= chars <= n && size == from + (n - chars) && chunk == page[from..size]
      {
        chunk := chunk + [page[size]];
        size := size + 1;
        chars := chars - 1;
      }
    }

    method CopyIn(data: seq<byte>, from: int, n: int)
      requires page.Length == PAGE_SIZE && 0 <= from <= from + n <= PAGE_SIZE && n <= |data|
      modifies page
      ensures page[..] == old(page[..])[..from] + data[..n] + old(page[..])[from + n..]
    {
      ghost var m := page[..];
      var size, buf, chars := from, 0, n;
      while chars > 0
        invariant 0 <= chars <= n && buf == n - chars && size == from + buf
        invariant page[..] == m[..from] + data[..buf] + m[size..]
      {
        CopyStep(m, from, data, buf);
        page[size] := data[buf];
        size := size + 1;
        buf := buf + 1;
        chars := chars - 1;
      }
    }

    /** One pass of the loop in read_pipe() that finds data: the longest stretch up to the end of the page. */
    method ReadChunk(count: int) returns (chunk: seq<byte>)
      requires Valid() && count > 0 && Contents() != []
      modifies this
      ensures Valid() && chunk != [] && |chunk| <= count
      ensures chunk + Contents() == old(Contents()) && taken == old(taken) + chunk && written == old(written)
      ensures |chunk| == count || Contents() == [] || tail == 0
      ensures old(tail) + |chunk| <= PAGE_SIZE && chunk == page[old(tail)..old(tail) + |chunk|]
      ensures tail == (old(tail) + |chunk|) % PAGE_SIZE && head == old(head)
    {
      hide PipeSize, Window, Wrap;
      ghost var c := Contents();
      SizeIs(head, tail);
      var size := PipeSize(head, tail);
      var chars := PAGE_SIZE - tail;
      if chars > count {
        chars := count;
      }
      if chars > size {
        chars := size;
      }
      SizeMoves(head, tail, chars);
      chunk := CopyOut(tail, chars);
      TookFront(page[..], tail, size, chars, written, taken);
      assert page[..][tail..tail + chars] == page[tail..tail + chars];
      WrapIs(tail + chars, PAGE_SIZE);
      tail := Wrap(tail + chars, PAGE_SIZE);
      taken := taken + chunk;
    }

    /** One pass of the loop in write_pipe() that finds room. */
    method WriteChunk(data: seq<byte>) returns (n: int)
      requires Valid() && data != [] && |Contents()| < PAGE_SIZE - 1
      modifies this, page
      ensures Valid() && 0 < n <= |data|
      ensures Contents() == old(Contents()) + data[..n] && written == old(written) + data[..n] && taken == old(taken)
      ensures n == |data| || |Contents()| == PAGE_SIZE - 1 || head == 0
      ensures old(head) + n <= PAGE_SIZE && page[old(head)..old(head) + n] == data[..n]
      ensures head == (old(head) + n) % PAGE_SIZE && tail == old(tail)
    {
      hide PipeSize, Window, Wrap;
      ghost var c, m, from := Contents(), page[..], head;
      SizeIs(head, tail);
      var size := PAGE_SIZE - 1 - PipeSize(head, tail);
      var chars := PAGE_SIZE - head;
      if chars > |data| {
        chars := |data|;
      }
      if chars > size {
        chars := size;
      }
      SizeMoves(head, tail, chars);
      n := chars;
      size := head;
      WrapIs(head + chars, PAGE_SIZE);
      head := Wrap(head + chars, PAGE_SIZE);
      CopyIn(data, size, chars);
      PutStretch(m, tail, |c|, data[..n], page[..], size);
      written := written + data[..n];
    }

    /**
     * Every interleaving of reads and writes, a chunk at a time: what comes out is what went in, in
     * order and without gaps, and never more than 4095 bytes are in between.
     */
    method Run(steps: seq<Chunk>) returns (log: seq<Moved>)
      requires Valid()
      modifies this, page
      ensures Valid() && |log| == |steps|
      ensures old(Contents()) + Ins(log) == Outs(log) + Contents() && |Contents()| < PAGE_SIZE
      ensures written == old(written) + Ins(log) && taken == old(taken) + Outs(log) && taken <= written
      ensures forall i :: 0 <= i < |steps| ==> Passes(steps[i], log[i], Level(|old(Contents())|, log[..i]))
    {
      hide Passes, Level, Ins, Outs, Contents;
      ghost var before := Contents();
      log := [];
      NoneMoved();
      for i := 0 to |steps|
        invariant Valid() && |log| == i && before + Ins(log) == Outs(log) + Contents()
        invariant written == old(written) + Ins(log) && taken == old(taken) + Outs(log)
        invariant forall k :: 0 <= k < i ==> Passes(steps[k], log[k], Level(|before|, log[..k]))
      {
        ghost var now := Contents();
        var moved := Pass(steps[i]);
        Balance(before, log, moved, now, Contents());
        NextMoved(log, moved);
        assert (log + [moved])[..i] == log;
        assert forall k :: 0 <= k < i ==> (log + [moved])[..k] == log[..k];
        log := log + [moved];
      }
    }

    /** One pass of either loop; a pass that finds nothing to do moves nothing. */
    method Pass(step: Chunk) returns (moved: Moved)
      requires Valid()
      modifies this, page
      ensures Valid() && |Contents()| < PAGE_SIZE && Passes(step, moved, |old(Contents())|)
      ensures if moved.In? then Contents() == old(Contents()) + moved.bytes else moved.bytes + Contents() == old(Contents())
      ensures written == old(written) + (if moved.In? then moved.bytes else [])
      ensures taken == old(taken) + (if moved.Out? then moved.bytes else [])
    {
      match step
      case Read(count) =>
        moved := Out([]);
        if count > 0 && PipeSize(head, tail) != 0 {
          var chunk := ReadChunk(count);
          moved := Out(chunk);
        }
      case Write(data) =>
        moved := In([]);
        if data != [] && PAGE_SIZE - 1 - PipeSize(head, tail) != 0 {
          var n := WriteChunk(data);
          moved := In(data[..n]);
        }
    }
  }

  datatype Chunk = Read(count: int) | Write(data: seq<byte>)

  /** Only asked-for bytes move, and some do whenever they are there, or there is room for them. */
  ghost predicate Passes(step: Chunk, m: Moved, level: int) {
    match step
    case Read(count) => m.Out? && (if count > 0 && level > 0 then 0 < |m.bytes| <= count else m.bytes == [])
    case Write(data) => m.In? && m.bytes <= data && (m.bytes == [] <==> data == [] || level == PAGE_SIZE - 1)
  }
}
