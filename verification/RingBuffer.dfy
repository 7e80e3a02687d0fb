// The ring of ldd/chrdev/ringbuffer.c: read_pos is the cell read last, write_pos the cell to be
// written next, and one cell always stays free.

module RingBuffer {
  import opened Blocks
  import opened Circular

  const MEMSIZE := 16
  const EINVAL := 22
  const ENOMEM := 12
  const ERESTARTSYS := 512

  class Ring {
    const mem: array<byte>
    var size: int
    var readPos: int
    var writePos: int
    /** Every byte ever put in, and every byte ever taken out. */
    ghost var written: seq<byte>
    ghost var taken: seq<byte>

    /** rb_init. */
    constructor ()
      ensures Valid() && written == taken == [] && Contents() == [] && fresh(mem)
    {
      mem := new byte[MEMSIZE](_ => 0);
      size := MEMSIZE;
      readPos := MEMSIZE - 1;
      writePos := 0;
      written, taken := [], [];
    }

    ghost predicate Indexed()
      reads this
    {
      size == mem.Length == MEMSIZE && 0 <= readPos < size && 0 <= writePos < size
    }

    /** buffer_used. */
    function Used(): (n: int)
      requires Indexed()
      reads this
      ensures 0 <= n < size && writePos == Wrap(Wrap(readPos + 1, size) + n, size)
    {
      if writePos > readPos then writePos - readPos - 1 else writePos - readPos - 1 + size
    }

    /** idle_buffer. */
    function Idle(): (n: int)
      requires Indexed()
      reads this
      ensures 0 <= n && Used() + n == size - 1
    {
      size - Used() - 1
    }

    predicate IsEmpty()
      requires Indexed()
      reads this
      ensures IsEmpty() <==> Used() == 0
    {
      (readPos + 1) % size == writePos
    }

    predicate IsFilled()
      requires Indexed()
      reads this
      ensures IsFilled() <==> Idle() == 0
    {
      writePos == readPos
    }

    /** The bytes in the ring, oldest first. */
    ghost function Contents(): seq<byte>
      requires Indexed()
      reads this, mem
    {
      Window(mem[..], Wrap(readPos + 1, size), Used())
    }

    ghost predicate Valid()
      reads this, mem
    {
      Indexed() && written == taken + Contents()
    }

    /** Advance the read position and take the byte there. */
    method TakeOne() returns (b: byte)
      requires Valid() && Contents() != []
      modifies this`readPos, this`taken
      ensures Valid() && [b] + Contents() == old(Contents()) && taken == old(taken) + [b]
      ensures readPos == (old(readPos) + 1) % size && b == mem[readPos]
    {
      hide Window;
      NextPos(readPos, size);
      TookOne(mem[..], Wrap(readPos + 1, size), Used(), written, taken);
      readPos := (readPos + 1) % size;
      b := mem[readPos];
      taken := taken + [b];
    }

    /** Put a byte at the write position and advance it. */
    method PutOne(b: byte)
      requires Valid() && |Contents()| < size - 1
      modifies this`writePos, this`written, mem
      ensures Valid() && Contents() == old(Contents()) + [b] && written == old(written) + [b]
      ensures writePos == (old(writePos) + 1) % size && mem[..] == old(mem[..])[old(writePos) := b]
    {
      hide Window;
      NextPos(writePos, size);
      PutBack(mem[..], Wrap(readPos + 1, size), Used(), b);
      mem[writePos] := b;
      writePos := (writePos + 1) % size;
      written := written + [b];
    }

    /** What rb_read() does while it holds the semaphore: the oldest bytes, as many as there are and are wanted. */
    method ReadChunk(wanted: int) returns (chunk: seq<byte>)
      requires Valid() && wanted >= 0
      modifies this`readPos, this`taken
      ensures Valid() && |chunk| == (if wanted < old(Used()) then wanted else old(Used()))
      ensures chunk + Contents() == old(Contents()) && taken == old(taken) + chunk
    {
      hide Contents;
      chunk := [];
      EmptyIs();
      if IsEmpty() {
        return;
      }
      var readSize := if wanted < Used() then wanted else Used();
      ghost var n, c := readSize, Contents();
      while readSize > 0
        invariant Valid() && 0 <= readSize <= n && |chunk| == n - readSize && readSize <= Used()
        invariant chunk + Contents() == c && taken == old(taken) + chunk
      {
        EmptyIs();
        ghost var before := chunk;
        var b := TakeOne();
        EmptyIs();
        chunk := chunk + [b];
        assert before + ([b] + Contents()) == chunk + Contents();
        readSize := readSize - 1;
      }
    }

    /** What rb_write() does while it holds the semaphore. */
    method WriteChunk(data: seq<byte>) returns (n: int)
      requires Valid()
      modifies this`writePos, this`written, mem
      ensures Valid() && n == (if |data| < old(Idle()) then |data| else old(Idle()))
      ensures Contents() == old(Contents()) + data[..n] && written == old(written) + data[..n]
    {
      hide Contents;
      var writeSize := if |data| < Idle() then |data| else Idle();
      n := 0;
      ghost var m, c := writeSize, Contents();
      while writeSize > 0
        invariant Valid() && 0 <= writeSize <= m && n == m - writeSize && writeSize <= Idle()
        invariant Contents() == c + data[..n] && written == old(written) + data[..n]
      {
        EmptyIs();
        PutOne(data[n]);
        EmptyIs();
        n := n + 1;
        writeSize := writeSize - 1;
      }
    }

    /**
     * rb_read(); before our chunk number k other tasks do others(k), each of them a chunk at a time. The
     * bytes are taken from the front of the ring in order, at the places `at` of all that was ever taken;
     * only an empty ring or a signal cuts the read short. Without other readers they are one stretch of
     * what was written; with nobody in between, what was in the ring. -EINVAL for a size of 0, -ENOMEM
     * without memory. After a signal, or when the copy to the user fails, the answer is -ERESTARTSYS and
     * the bytes in the buffer, which have left the ring, are gone.
     */
    method Read(count: int, others: nat -> seq<Chunk>, luck: Luck) returns (ret: int, buffer: seq<byte>, ghost at: seq<int>)
      requires Valid()
      modifies this, mem
      ensures Valid() && old(written) <= written && old(taken) <= taken
      ensures count <= 0 ==> ret == -EINVAL && buffer == [] && Contents() == old(Contents())
      ensures count > 0 && !luck.memory ==> ret == -ENOMEM && buffer == [] && Contents() == old(Contents())
      ensures count > 0 && luck.memory ==> ret == -ERESTARTSYS || ret == |buffer|
      ensures ret == -ERESTARTSYS ==> !luck.copied || exists k :: 0 <= k <= |buffer| < count && luck.signal(k)
      ensures ret >= 0 ==> luck.copied && |buffer| <= count && (|buffer| < count ==> Contents() == [])
      ensures count > 0 && luck.memory && luck.signal(0) ==> ret == -ERESTARTSYS && buffer == []
      ensures PickedFrom(buffer, at, taken, |old(taken)|)
      ensures NoReaders(others) ==> taken == old(taken) + buffer
      ensures Silent(others) ==> written == old(written) && buffer + Contents() == old(Contents())
    {
      hide PickedFrom, NoTakes, Contents, Indexed;
      buffer, at := [], [];
      NonePicked(taken);
      if count <= 0 {
        return -EINVAL, buffer, at;
      }
      if !luck.memory {
        return -ENOMEM, buffer, at;
      }
      ghost var t0 := taken;
      var k := 0;
      while |buffer| < count
        invariant Valid() && |buffer| <= count && old(written) <= written && t0 <= taken
        invariant k <= |buffer| && if k == 0 then buffer == [] else !luck.signal(0)
        invariant PickedFrom(buffer, at, taken, |t0|)
        invariant NoReaders(others) ==> taken == t0 + buffer
        invariant Silent(others) ==> written == old(written) && buffer + Contents() == old(Contents())
        decreases count - |buffer|
      {
        if luck.signal(k) {
          return -ERESTARTSYS, buffer, at;
        }
        assert NoReaders(others) ==> NoTakes(others(k));
        assert Silent(others) ==> others(k) == [];
        var empty, chunk;
        ghost var b := buffer;
        empty, chunk, at := ReadTurn(count - |buffer|, others(k), buffer, at, |t0|);
        buffer := buffer + chunk;
        assert t0 + b + chunk == t0 + buffer;
        assert b + (chunk + Contents()) == buffer + Contents();
        if empty {
          break;
        }
        k := k + 1;
      }
      ret := if luck.copied then |buffer| else -ERESTARTSYS;
    }

    /** Others act, then one chunk is read under the semaphore. */
    method ReadTurn(wanted: int, steps: seq<Chunk>, ghost b: seq<byte>, ghost at: seq<int>, ghost lo: int)
      returns (empty: bool, chunk: seq<byte>, ghost at': seq<int>)
      requires Valid() && wanted > 0 && PickedFrom(b, at, taken, lo) && lo <= |taken|
      modifies this, mem
      ensures Valid() && old(written) <= written && old(taken) <= taken && |chunk| <= wanted
      ensures if empty then chunk == [] == Contents() else chunk != []
      ensures PickedFrom(b + chunk, at', taken, lo)
      ensures NoTakes(steps) ==> taken == old(taken) + chunk
      ensures steps == [] ==> written == old(written) && chunk + Contents() == old(Contents())
    {
      hide PickedFrom, NoTakes, Contents;
      var log := Others(steps);
      ghost var t := taken;
      StillPicked(b, at, old(taken), t, lo);
      EmptyIs();
      empty, chunk, at' := IsEmpty(), [], at;
      assert b + chunk == b;
      if !empty {
        chunk := ReadChunk(wanted);
        at' := MorePicked(b, at, t, lo, chunk);
      }
    }

    lemma EmptyIs()
      requires Indexed() && 0 < mem.Length
      ensures IsEmpty() <==> Contents() == []
      ensures |Contents()| == Used()
    {
    }

    /** What other tasks do. */
    method Others(steps: seq<Chunk>) returns (log: seq<Moved>)
      requires Valid()
      modifies this, mem
      ensures Valid() && |log| == |steps|
      ensures old(Contents()) + Ins(log) == Outs(log) + Contents()
      ensures written == old(written) + Ins(log) && taken == old(taken) + Outs(log)
      ensures forall i :: 0 <= i < |steps| ==> Passes(steps[i], log[i], Level(|old(Contents())|, log[..i]), size)
      ensures NoTakes(steps) ==> taken == old(taken)
      ensures steps == [] ==> written == old(written) && Contents() == old(Contents())
    {
      hide Passes, Level, Ins, Outs, Contents;
      ghost var before := Contents();
      log := [];
      NoneMoved();
      for i := 0 to |steps|
        invariant Valid() && |log| == i && before + Ins(log) == Outs(log) + Contents()
        invariant written == old(written) + Ins(log) && taken == old(taken) + Outs(log)
        invariant forall k :: 0 <= k < i ==> Passes(steps[k], log[k], Level(|before|, log[..k]), size)
        invariant NoTakes(steps) ==> taken == old(taken)
        invariant steps == [] ==> written == old(written) && Contents() == old(Contents())
      {
        ghost var now := Contents();
        var moved := Pass(steps[i]);
        Balance(before, log, moved, now, Contents());
        NextMoved(log, moved);
        assert (log + [moved])[..i] == log;
        assert forall k :: 0 <= k < i ==> (log + [moved])[..k] == log[..k];
        log := log + [moved];
      }
    }

    /** One reader or writer with the semaphore. */
    method Pass(step: Chunk) returns (moved: Moved)
      requires Valid()
      modifies this, mem
      ensures Valid() && Passes(step, moved, |old(Contents())|, size) && (moved.In? <==> step.Put?)
      ensures if moved.In? then Contents() == old(Contents()) + moved.bytes else moved.bytes + Contents() == old(Contents())
      ensures written == old(written) + (if moved.In? then moved.bytes else [])
      ensures taken == old(taken) + (if moved.Out? then moved.bytes else [])
    {
      hide Contents;
      EmptyIs();
      match step
      case Take(wanted) =>
        var chunk := ReadChunk(wanted);
        moved := Out(chunk);
      case Put(data) =>
        var n := WriteChunk(data);
        moved := In(data[..n]);
    }

    /** Every interleaving of readers and writers, each holding the semaphore for a chunk at a time. */
    method Run(steps: seq<Chunk>) returns (log: seq<Moved>)
      requires Valid()
      modifies this, mem
      ensures Valid() && |log| == |steps|
      ensures old(Contents()) + Ins(log) == Outs(log) + Contents() && |Contents()| <= size - 1
      ensures written == old(written) + Ins(log) && taken == old(taken) + Outs(log) && taken <= written
      ensures forall i :: 0 <= i < |steps| ==> Passes(steps[i], log[i], Level(|old(Contents())|, log[..i]), size)
    {
      log := Others(steps);
    }
  }

  /** As many bytes move as were asked for and are there, or as there is room for. */
  ghost predicate Passes(step: Chunk, m: Moved, level: int, size: int) {
    match step
    case Take(wanted) => m.Out? && |m.bytes| == if wanted < level then wanted else level
    case Put(data) => m.In? && m.bytes <= data && |m.bytes| == if |data| < size - 1 - level then |data| else size - 1 - level
  }

  ghost predicate NoTakes(steps: seq<Chunk>) { forall i :: 0 <= i < |steps| ==> steps[i].Put? }

  /** The bytes of b are those of t at increasing places from lo on. */
  ghost predicate PickedFrom(b: seq<byte>, at: seq<int>, t: seq<byte>, lo: int) {
    && |at| == |b|
    && (forall i :: 0 <= i < |b| ==> lo <= at[i] < |t| && 0 <= at[i] && t[at[i]] == b[i])
    && (forall i, j :: 0 <= i < j < |b| ==> at[i] < at[j])
  }

  ghost predicate NoReaders(others: nat -> seq<Chunk>) { forall k :: NoTakes(others(k)) }

  ghost predicate Silent(others: nat -> seq<Chunk>) { forall k :: others(k) == [] }

  lemma NonePicked(t: seq<byte>)
    ensures PickedFrom([], [], t, |t|)
  {
  }

  lemma StillPicked(b: seq<byte>, at: seq<int>, t: seq<byte>, t': seq<byte>, lo: int)
    requires PickedFrom(b, at, t, lo) && t <= t'
    ensures PickedFrom(b, at, t', lo)
  {
  }

  /** The next chunk stands behind all that was taken before. */
  lemma MorePicked(b: seq<byte>, at: seq<int>, t: seq<byte>, lo: int, chunk: seq<byte>) returns (at': seq<int>)
    requires PickedFrom(b, at, t, lo) && lo <= |t|
    ensures PickedFrom(b + chunk, at', t + chunk, lo)
  {
    at' := at + seq(|chunk|, i => |t| + i);
  }

  lemma NextPos(p: int, size: int)
    requires 0 <= p < size
    ensures (p + 1) % size == Wrap(p + 1, size) && 0 <= Wrap(p + 1, size) < size
  {
    if p + 1 == size {
      assert size % size == 0;
    } else {
      assert (p + 1) % size == p + 1;
    }
  }

  lemma TookOne(m: seq<byte>, start: int, n: int, written: seq<byte>, taken: seq<byte>)
    requires 0 <= start < |m| && 0 < n <= |m| && written == taken + Window(m, start, n)
    ensures var rest := Window(m, Wrap(start + 1, |m|), n - 1);
            Window(m, start, n) == [m[start]] + rest && written == taken + [m[start]] + rest
  {
    hide Window;
    var w := Window(m, start, n);
    TakeFront(m, start, n, 1);
    assert w == w[..1] + w[1..];
  }

  /** What may go wrong in a read: no memory, a signal while waiting for chunk number k, a bad user buffer. */
  datatype Luck = Luck(memory: bool, signal: nat -> bool, copied: bool)

  datatype Chunk = Take(wanted: nat) | Put(data: seq<byte>)
}
