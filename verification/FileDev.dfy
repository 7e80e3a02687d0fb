// Byte I/O over the zone map (fs/file_dev.c): a file is a byte sequence with
// holes that read as zero.

module FileDev {
  import opened Blocks
  import opened ZoneTree
  import opened Devices
  import opened InodeMap

  const MAX_BYTES := MAX_BLOCKS * BLOCK_SIZE
  const ERROR := 99

  class File {
    const append: bool
    var pos: nat
    constructor (append: bool)
      ensures this.append == append && pos == 0
    {
      this.append := append;
      pos := 0;
    }
  }

  /** Byte x of the file, whatever level of the tree it lives on; holes are zero. */
  ghost function ByteAt(zone: seq<nat>, blocks: seq<Block>, x: int): byte
    requires |zone| == 9 && 0 <= x < MAX_BYTES
  {
    Data(zone, blocks, LeafPath(x / BLOCK_SIZE))[x % BLOCK_SIZE]
  }

  /** Where byte x of a file is, in the words of i_zone and of the index blocks. */
  lemma ByteInWords(zone: seq<nat>, blocks: seq<Block>, x: int)
    requires |zone| == 9 && 0 <= x < MAX_BYTES
    requires forall p: Path :: p.Valid() ==> At(zone, blocks, p) < |blocks|
    ensures zone[7] < |blocks| && zone[8] < |blocks|
    ensures x < 7168 ==> ByteAt(zone, blocks, x) == ByteOfZone(blocks, zone[x / 1024], x)
    ensures 7168 <= x < 531456 ==>
              ByteAt(zone, blocks, x) == ByteOfZone(blocks, if zone[7] == 0 then 0 else Short(blocks[zone[7]], (x - 7168) / 1024), x)
    ensures 531456 <= x && zone[8] != 0 ==>
              var k := Short(blocks[zone[8]], (x - 531456) / 524288);
              && k < |blocks|
              && ByteAt(zone, blocks, x) == ByteOfZone(blocks, if k == 0 then 0 else Short(blocks[k], (x - 531456) / 1024 % 512), x)
    ensures 531456 <= x && zone[8] == 0 ==> ByteAt(zone, blocks, x) == 0
  {
    assert At(zone, blocks, Ind) == zone[7] && At(zone, blocks, Dind) == zone[8];
    assert At(zone, blocks, LeafPath(x / 1024)) < |blocks|;
    if 531456 <= x {
      var b := x / 1024 - 519;
      assert (x - 531456) / 1024 == b && (x - 531456) / 524288 == b / 512;
      assert At(zone, blocks, DindNode(b / 512)) < |blocks|;
    }
  }

  /** The byte of a zone at the place of x in its block; no zone is zeros. */
  ghost function ByteOfZone(blocks: seq<Block>, z: nat, x: int): byte
    requires x >= 0
  {
    if 0 < z < |blocks| then blocks[z][x % 1024] else 0
  }

  /** Byte x can be looked up: no index block above it is unreadable. */
  ghost predicate Indexed(zone: seq<nat>, blocks: seq<Block>, unreadable: set<nat>, x: int)
    requires |zone| == 9 && 0 <= x < MAX_BYTES
  {
    Visible(zone, blocks, unreadable, LeafPath(x / BLOCK_SIZE))
  }

  /** Byte x lives in a data block that cannot be read. */
  ghost predicate Stuck(zone: seq<nat>, blocks: seq<Block>, unreadable: set<nat>, x: int)
    requires |zone| == 9 && 0 <= x < MAX_BYTES
  {
    Indexed(zone, blocks, unreadable, x) &&
    At(zone, blocks, LeafPath(x / BLOCK_SIZE)) != 0 &&
    At(zone, blocks, LeafPath(x / BLOCK_SIZE)) in unreadable
  }

  /** What a reader gets for byte x: below an unreadable index block the map shows a hole. */
  ghost function SeenByte(zone: seq<nat>, blocks: seq<Block>, unreadable: set<nat>, x: int): byte
    requires |zone| == 9 && 0 <= x < MAX_BYTES
  {
    if Indexed(zone, blocks, unreadable, x) then ByteAt(zone, blocks, x) else 0
  }

  /** The second state is the first with `data` stored from byte `pos` on. */
  ghost predicate Stored(zone0: seq<nat>, blocks0: seq<Block>, zone1: seq<nat>, blocks1: seq<Block>,
    pos: nat, data: seq<byte>)
    requires |zone0| == 9 && |zone1| == 9
  {
    forall x :: 0 <= x < MAX_BYTES ==>
      ByteAt(zone1, blocks1, x) == if pos <= x < pos + |data| then data[x - pos] else ByteAt(zone0, blocks0, x)
  }

  lemma StoredThen(zone0: seq<nat>, blocks0: seq<Block>, zone1: seq<nat>, blocks1: seq<Block>,
    zone2: seq<nat>, blocks2: seq<Block>, pos: nat, data: seq<byte>, more: seq<byte>)
    requires |zone0| == 9 && |zone1| == 9 && |zone2| == 9
    requires Stored(zone0, blocks0, zone1, blocks1, pos, data)
    requires Stored(zone1, blocks1, zone2, blocks2, pos + |data|, more)
    ensures Stored(zone0, blocks0, zone2, blocks2, pos, data + more)
  {
    hide ByteAt;
  }

  /** Every file other than n keeps its contents. */
  ghost predicate OthersRead<I>(trees: map<I, seq<nat>>, blocks: seq<Block>,
    trees': map<I, seq<nat>>, blocks': seq<Block>, n: I)
  {
    && trees'.Keys == trees.Keys
    && (forall m :: m in trees ==> |trees[m]| == 9 && |trees'[m]| == 9)
    && (forall m, x :: m in trees && m != n && 0 <= x < MAX_BYTES ==>
          ByteAt(trees'[m], blocks', x) == ByteAt(trees[m], blocks, x))
  }

  lemma OthersReadThen<I>(t0: map<I, seq<nat>>, b0: seq<Block>, t1: map<I, seq<nat>>, b1: seq<Block>,
    t2: map<I, seq<nat>>, b2: seq<Block>, n: I)
    requires OthersRead(t0, b0, t1, b1, n) && OthersRead(t1, b1, t2, b2, n)
    ensures OthersRead(t0, b0, t2, b2, n)
  {
    hide ByteAt;
  }

  /** Filling holes does not change what any file reads as. */
  lemma GrowingIsInvisible<I>(t0: map<I, seq<nat>>, b0: seq<Block>, t1: map<I, seq<nat>>, b1: seq<Block>,
    n: I, gained: set<Path>)
    requires Extends(t0, b0, t1, b1, n, gained) && n in t0
    ensures Stored(t0[n], b0, t1[n], b1, 0, [])
    ensures OthersRead(t0, b0, t1, b1, n)
  {
  }

  /** Storing d in the data zone of logical block b changes that block of that file and nothing else. */
  lemma LeafWritten<I>(trees: map<I, seq<nat>>, blocks: seq<Block>, owner: map<nat, (I, Path)>,
    lost: set<nat>, alloc: set<nat>, first: nat, n: I, b: int, d: Block)
    requires Consistent(trees, blocks, owner, lost, alloc, first)
    requires n in trees && 0 <= b < MAX_BLOCKS && 0 < At(trees[n], blocks, LeafPath(b)) < |blocks|
    ensures var blocks' := blocks[At(trees[n], blocks, LeafPath(b)) := d];
            && Consistent(trees, blocks', owner, lost, alloc, first)
            && OthersRead(trees, blocks, trees, blocks', n)
            && forall x :: 0 <= x < MAX_BYTES ==>
                 ByteAt(trees[n], blocks', x) == if x / BLOCK_SIZE == b then d[x % BLOCK_SIZE] else ByteAt(trees[n], blocks, x)
  {
    hide LeafPath;
    var z := At(trees[n], blocks, LeafPath(b));
    var blocks' := blocks[z := d];
    HeldOnce(trees, blocks, owner, lost, alloc, first, n, LeafPath(b));
    forall m, q: Path | m in trees && q.Valid()
      ensures At(trees[m], blocks', q) == At(trees[m], blocks, q)
    {
      assert forall p: Path :: p.Valid() && !p.Leaf() ==> At(trees[m], blocks, p) != z;
      AtFrame(trees[m], blocks, blocks');
    }
    forall m, x | m in trees && 0 <= x < MAX_BYTES
      ensures ByteAt(trees[m], blocks', x) ==
              if m == n && x / BLOCK_SIZE == b then d[x % BLOCK_SIZE] else ByteAt(trees[m], blocks, x)
    {
      var q := LeafPath(x / BLOCK_SIZE);
      if At(trees[m], blocks, q) == z {
        LeafPathInjective(x / BLOCK_SIZE, b);
      }
    }
  }

  lemma ChunkStored<I>(trees: map<I, seq<nat>>, blocks: seq<Block>, owner: map<nat, (I, Path)>,
    lost: set<nat>, alloc: set<nat>, first: nat, n: I, pos: nat, chunk: seq<byte>, d: Block)
    requires Consistent(trees, blocks, owner, lost, alloc, first)
    requires n in trees && pos % BLOCK_SIZE + |chunk| <= BLOCK_SIZE && pos < MAX_BYTES
    requires 0 < At(trees[n], blocks, LeafPath(pos / BLOCK_SIZE)) < |blocks|
    requires forall k :: 0 <= k < BLOCK_SIZE ==>
               d[k] == if pos % BLOCK_SIZE <= k < pos % BLOCK_SIZE + |chunk| then chunk[k - pos % BLOCK_SIZE]
                       else blocks[At(trees[n], blocks, LeafPath(pos / BLOCK_SIZE))][k]
    ensures var blocks' := blocks[At(trees[n], blocks, LeafPath(pos / BLOCK_SIZE)) := d];
            && Consistent(trees, blocks', owner, lost, alloc, first)
            && OthersRead(trees, blocks, trees, blocks', n)
            && Stored(trees[n], blocks, trees[n], blocks', pos, chunk)
  {
    hide OthersRead;
    var b := pos / BLOCK_SIZE;
    var z := At(trees[n], blocks, LeafPath(b));
    var blocks' := blocks[z := d];
    LeafWritten(trees, blocks, owner, lost, alloc, first, n, b, d);
    forall x | 0 <= x < MAX_BYTES
      ensures ByteAt(trees[n], blocks', x) == if pos <= x < pos + |chunk| then chunk[x - pos] else ByteAt(trees[n], blocks, x)
    {
      if x / BLOCK_SIZE == b {
        assert ByteAt(trees[n], blocks, x) == blocks[z][x % BLOCK_SIZE];
      }
    }
  }

  /** Copy bytes from the user's buffer into a block. */
  method CopyIn(block: Block, c: nat, buf: seq<byte>, from: nat, chars: nat) returns (r: Block)
    requires c + chars <= BLOCK_SIZE && from + chars <= |buf|
    ensures forall k :: 0 <= k < BLOCK_SIZE ==>
              r[k] == if c <= k < c + chars then buf[from..from + chars][k - c] else block[k]
  {
    r := block;
    var p := 0;
    while p < chars
      invariant 0 <= p <= chars
      invariant forall k :: 0 <= k < BLOCK_SIZE ==> r[k] == if c <= k < c + p then buf[from + k - c] else block[k]
    {
      r := r[c + p := buf[from + p]];
      p := p + 1;
    }
  }

  /** Copy bytes of a block to the user's buffer. */
  method CopyOut(buf: seq<byte>, block: Block, c: nat, chars: nat) returns (r: seq<byte>)
    requires c + chars <= BLOCK_SIZE
    ensures r == buf + block[c..c + chars]
  {
    r := buf;
    var p := 0;
    while p < chars
      invariant 0 <= p <= chars
      invariant r == buf + block[c..c + p]
    {
      r := r + [block[c + p]];
      p := p + 1;
    }
  }

  /** buf holds what a reader sees from byte pos on, and none of it came from an unreadable data block. */
  ghost predicate ReadSoFar(zone: seq<nat>, blocks: seq<Block>, unreadable: set<nat>, pos: nat, buf: seq<byte>)
    requires |zone| == 9 && pos + |buf| <= MAX_BYTES
  {
    forall x :: pos <= x < pos + |buf| ==>
      buf[x - pos] == SeenByte(zone, blocks, unreadable, x) && !Stuck(zone, blocks, unreadable, x)
  }

  lemma ReadThen(zone: seq<nat>, blocks: seq<Block>, unreadable: set<nat>, pos: nat, buf: seq<byte>, more: seq<byte>)
    requires |zone| == 9 && pos + |buf| + |more| <= MAX_BYTES
    requires ReadSoFar(zone, blocks, unreadable, pos, buf)
    requires ReadSoFar(zone, blocks, unreadable, pos + |buf|, more)
    ensures ReadSoFar(zone, blocks, unreadable, pos, buf + more)
  {
    hide SeenByte, Stuck;
  }

  lemma ReadNothing(zone: seq<nat>, blocks: seq<Block>, unreadable: set<nat>)
    requires |zone| == 9
    ensures forall pos: nat :: pos <= MAX_BYTES ==> ReadSoFar(zone, blocks, unreadable, pos, [])
  {
  }

  /** Reading stops at the first byte whose data block cannot be read, and nowhere else. The block
      range check in `_bmap` panics beyond MAX_BYTES. */
  method FileRead(dev: Device, n: Inode, f: File, count: int) returns (r: int, buf: seq<byte>)
    requires dev.Valid() && n in dev.inodes
    requires count > 0 ==> f.pos + count <= MAX_BYTES
    modifies dev`zmap, dev`blocks, dev`owner, n`zone, n`dirt, f`pos
    ensures unchanged(dev) && unchanged(n)
    ensures |buf| <= if count > 0 then count else 0
    ensures f.pos == old(f.pos) + |buf|
    ensures r == if count <= 0 then 0 else if |buf| > 0 then |buf| else -ERROR
    ensures buf != [] ==> ReadSoFar(n.zone, dev.blocks, dev.unreadable, old(f.pos), buf)
    ensures |buf| < count ==> Stuck(n.zone, dev.blocks, dev.unreadable, f.pos)
  {
    hide Consistent, Extends, Visible, At, SeenByte, ReadSoFar, Ancestry, InWords;
    buf := [];
    ReadNothing(n.zone, dev.blocks, dev.unreadable);
    var left := count;
    if left <= 0 {
      return 0, buf;
    }
    while left != 0
      invariant 0 <= left && |buf| == count - left
      invariant f.pos == old(f.pos) + |buf|
      invariant unchanged(dev) && unchanged(n)
      invariant ReadSoFar(n.zone, dev.blocks, dev.unreadable, old(f.pos), buf)
      decreases left
    {
      var block: Block := ZeroBlock();
      ghost var p := LeafPath(f.pos / BLOCK_SIZE);
      var nr := BmapOrCreate(dev, n, f.pos / BLOCK_SIZE, false);
      if nr != 0 {
        HeldInRange<Inode>(dev.Trees(), dev.blocks, dev.owner, dev.lost, dev.Allocated(), dev.firstDataZone, n, p);
        var bh := dev.Bread(nr);
        if bh.None? {
          break;
        }
        block := bh.value;
      }
      var c := f.pos % BLOCK_SIZE;
      var chars := if BLOCK_SIZE - c < left then BLOCK_SIZE - c else left;
      BlockRead(n.zone, dev.blocks, dev.unreadable, f.pos, chars, nr, block);
      ReadThen(n.zone, dev.blocks, dev.unreadable, old(f.pos), buf, block[c..c + chars]);
      f.pos := f.pos + chars;
      left := left - chars;
      buf := CopyOut(buf, block, c, chars);
    }
    r := if count - left != 0 then count - left else -ERROR;
  }

  /** One loop step of file_read, byte by byte. */
  lemma BlockRead(zone: seq<nat>, blocks: seq<Block>, unreadable: set<nat>, pos: nat, chars: nat, nr: nat, block: Block)
    requires |zone| == 9 && pos % BLOCK_SIZE + chars <= BLOCK_SIZE && pos + chars <= MAX_BYTES && pos < MAX_BYTES
    requires nr == if Indexed(zone, blocks, unreadable, pos) then At(zone, blocks, LeafPath(pos / BLOCK_SIZE)) else 0
    requires if nr == 0 then block == ZeroBlock() else nr < |blocks| && nr !in unreadable && block == blocks[nr]
    ensures ReadSoFar(zone, blocks, unreadable, pos, block[pos % BLOCK_SIZE..pos % BLOCK_SIZE + chars])
  {
    hide Visible, At, LeafPath;
    forall x | pos <= x < pos + chars
      ensures block[pos % BLOCK_SIZE + (x - pos)] == SeenByte(zone, blocks, unreadable, x)
      ensures !Stuck(zone, blocks, unreadable, x)
    {
      assert x / BLOCK_SIZE == pos / BLOCK_SIZE && x % BLOCK_SIZE == pos % BLOCK_SIZE + (x - pos);
    }
  }

  function Max(a: int, b: int): int { if a > b then a else b }

  /** One step of file_write's loop: store the next chunk, c == 0 when the loop breaks. */
  method WriteChunk(dev: Device, n: Inode, pos: nat, buf: seq<byte>, i: nat, count: int) returns (c: nat)
    requires dev.Valid() && n in dev.inodes
    requires i < count <= |buf| && pos + count - i <= MAX_BYTES
    modifies dev`zmap, dev`blocks, dev`owner, n
    ensures dev.Valid()
    ensures i + c <= count && |old(n.zone)| == |n.zone| == 9
    ensures Stored(old(n.zone), old(dev.blocks), n.zone, dev.blocks, pos, buf[i..i + c])
    ensures OthersRead<Inode>(old(dev.Trees()), old(dev.blocks), dev.Trees(), dev.blocks, n)
    ensures n.size == if c > 0 then Max(old(n.size), pos + c) else old(n.size)
    ensures n.size != old(n.size) || n.zone != old(n.zone) ==> n.dirt
    ensures old(n.dirt) ==> n.dirt
    ensures c == 0 ==>
      || dev.Full()
      || !Indexed(n.zone, dev.blocks, dev.unreadable, pos)
      || Stuck(n.zone, dev.blocks, dev.unreadable, pos)
  {
    hide Consistent, Extends, ByteAt, OthersRead, Stored, Visible, At, InWords;
    ghost var t0, b0 := dev.Trees(), dev.blocks;
    var block := BmapOrCreate(dev, n, pos / BLOCK_SIZE, true);
    ghost var t1, b1 := dev.Trees(), dev.blocks;
    GrowingIsInvisible<Inode>(t0, b0, t1, b1, n, Ancestry(LeafPath(pos / BLOCK_SIZE)));
    StoredEmpty(t0[n], b0, t1[n], b1, 0, pos);
    assert buf[i..i + 0] == [];
    if block == 0 {
      return 0;
    }
    HeldInRange<Inode>(t1, b1, dev.owner, dev.lost, dev.Allocated(), dev.firstDataZone, n, LeafPath(pos / BLOCK_SIZE));
    var bh := dev.Bread(block);
    if bh.None? {
      return 0;
    }
    c := BLOCK_SIZE - pos % BLOCK_SIZE;
    if c > count - i {
      c := count - i;
    }
    StoreInBlock(dev, n, pos, buf, i, c, block);
    StoredThen(t0[n], b0, t1[n], b1, n.zone, dev.blocks, pos, [], buf[i..i + c]);
    OthersReadThen<Inode>(t0, b0, t1, b1, dev.Trees(), dev.blocks, n);
    assert [] + buf[i..i + c] == buf[i..i + c];
    Grow(dev, n, pos + c);
  }

  /** The size after a chunk that ends at `end`. */
  method Grow(dev: Device, n: Inode, end: nat)
    requires dev.Valid() && n in dev.inodes
    modifies n`size, n`dirt
    ensures dev.Valid() && dev.Trees() == old(dev.Trees())
    ensures n.size == Max(old(n.size), end) && n.dirt == (old(n.dirt) || n.size != old(n.size))
  {
    hide Consistent;
    if end > n.size {
      n.size := end;
      n.dirt := true;
    }
    assert dev.Trees() == old(dev.Trees()) && dev.Allocated() == old(dev.Allocated());
  }

  /** Copy the bytes into the data block of the position. */
  method StoreInBlock(dev: Device, n: Inode, pos: nat, buf: seq<byte>, i: nat, c: nat, block: nat)
    requires dev.Valid() && n in dev.inodes && pos < MAX_BYTES
    requires i + c <= |buf| && pos % BLOCK_SIZE + c <= BLOCK_SIZE
    requires 0 < block < |dev.blocks| && block == At(n.zone, dev.blocks, LeafPath(pos / BLOCK_SIZE))
    modifies dev`blocks
    ensures dev.Valid() && dev.Trees() == old(dev.Trees())
    ensures Stored(n.zone, old(dev.blocks), n.zone, dev.blocks, pos, buf[i..i + c])
    ensures OthersRead<Inode>(old(dev.Trees()), old(dev.blocks), dev.Trees(), dev.blocks, n)
  {
    hide Consistent, OthersRead, Stored, At, LeafPath;
    ghost var t, b0, alloc := dev.Trees(), dev.blocks, dev.Allocated();
    var filled := CopyIn(dev.blocks[block], pos % BLOCK_SIZE, buf, i, c);
    ChunkStored<Inode>(t, b0, dev.owner, dev.lost, alloc, dev.firstDataZone, n, pos, buf[i..i + c], filled);
    dev.blocks := dev.blocks[block := filled];
    assert dev.Trees() == t && dev.Allocated() == alloc;
  }

  function StartPos(n: Inode, f: File): nat
    reads n, f
  {
    if f.append then n.size else f.pos
  }

  /** The number of bytes stored when file_write returns r. */
  function Progress(r: int): int { if r > 0 then r else 0 }

  /** Store a prefix of buf[..count] at the file position (or at the end, for O_APPEND). The prefix is all of it
      unless the device fills up or a block cannot be read. The block range check panics beyond MAX_BYTES. */
  method FileWrite(dev: Device, n: Inode, f: File, buf: seq<byte>, count: int) returns (r: int)
    requires dev.Valid() && n in dev.inodes
    requires count <= |buf|
    requires count > 0 ==> StartPos(n, f) + count <= MAX_BYTES
    modifies dev`zmap, dev`blocks, dev`owner, n, f`pos
    ensures dev.Valid()
    ensures r == -1 || 0 < r <= count
    ensures |old(n.zone)| == |n.zone| == 9
    ensures Stored(old(n.zone), old(dev.blocks), n.zone, dev.blocks, if f.append then old(n.size) else old(f.pos), buf[..Progress(r)])
    ensures n.size == if r > 0 then Max(old(n.size), (if f.append then old(n.size) else old(f.pos)) + r) else old(n.size)
    ensures f.pos == if f.append then old(f.pos) else old(f.pos) + Progress(r)
    ensures Progress(r) < count ==>
      var x := old(StartPos(n, f)) + Progress(r);
      dev.Full() || !Indexed(n.zone, dev.blocks, dev.unreadable, x) || Stuck(n.zone, dev.blocks, dev.unreadable, x)
    ensures OthersRead<Inode>(old(dev.Trees()), old(dev.blocks), dev.Trees(), dev.blocks, n)
    ensures n.size != old(n.size) || n.zone != old(n.zone) ==> n.dirt
  {
    hide Consistent, Extends, ByteAt, OthersRead, Stored, Indexed, Stuck;
    var pos := StartPos(n, f);
    var i: int := 0;
    ghost var pos0, t0, b0 := pos, dev.Trees(), dev.blocks;
    StoredNothing<Inode>(t0, b0, n);
    while i < count
      invariant 0 <= i && (i > 0 ==> i <= count) && pos == pos0 + i
      invariant dev.Valid() && |t0[n]| == |n.zone| == 9 && n in t0 && f.pos == old(f.pos)
      invariant Stored(t0[n], b0, n.zone, dev.blocks, pos0, buf[..i])
      invariant OthersRead<Inode>(t0, b0, dev.Trees(), dev.blocks, n)
      invariant n.size == if i > 0 then Max(old(n.size), pos) else old(n.size)
      invariant n.size != old(n.size) || n.zone != old(n.zone) ==> n.dirt
      invariant old(n.dirt) ==> n.dirt
      decreases count - i
    {
      ghost var zone1, t1, b1 := n.zone, dev.Trees(), dev.blocks;
      var c := WriteChunk(dev, n, pos, buf, i, count);
      StoredThen(t0[n], b0, zone1, b1, n.zone, dev.blocks, pos0, buf[..i], buf[i..i + c]);
      OthersReadThen<Inode>(t0, b0, t1, b1, dev.Trees(), dev.blocks, n);
      assert buf[..i] + buf[i..i + c] == buf[..i + c];
      if c == 0 {
        assert buf[..i + c] == buf[..i];
        break;
      }
      pos := pos + c;
      i := i + c;
    }
    if !f.append {
      f.pos := pos;
    }
    r := if i != 0 then i else -1;
  }

  lemma StoredNothing<I>(trees: map<I, seq<nat>>, blocks: seq<Block>, n: I)
    requires n in trees && forall m :: m in trees ==> |trees[m]| == 9
    ensures forall pos: nat :: Stored(trees[n], blocks, trees[n], blocks, pos, [])
    ensures OthersRead(trees, blocks, trees, blocks, n)
  {
    hide ByteAt;
  }

  lemma StoredEmpty(zone0: seq<nat>, blocks0: seq<Block>, zone1: seq<nat>, blocks1: seq<Block>, pos: nat, pos': nat)
    requires |zone0| == 9 && |zone1| == 9 && Stored(zone0, blocks0, zone1, blocks1, pos, [])
    ensures Stored(zone0, blocks0, zone1, blocks1, pos', [])
  {
    hide ByteAt;
  }
}
