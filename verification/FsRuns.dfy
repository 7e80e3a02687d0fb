// What holds over every run of create_block, file_write, file_read and truncate
// on any inodes of one device, with blocks turning unreadable at any time.

module FsRuns {
  import opened Blocks
  import opened ZoneTree
  import opened Devices
  import opened InodeMap
  import opened Truncation
  import opened FileDev
  import opened Cardinality

  /** An index block of tree n that cannot be read although it names zones. */
  ghost predicate HidesZones(zone: seq<nat>, blocks: seq<Block>, unreadable: set<nat>, q: Path)
    requires |zone| == 9 && q.Valid()
  {
    Index(q) && At(zone, blocks, q) in unreadable &&
    exists j :: 0 <= j < 512 && At(zone, blocks, Child(q, j)) != 0
  }

  /** truncate gives every zone of the tree back if and only if, when it runs, no index block of the
      tree that names further zones is unreadable and nobody else refers to a buffer of the tree. */
  lemma TruncateFreesAllIff<I>(trees: map<I, seq<nat>>, blocks: seq<Block>, owner: map<nat, (I, Path)>,
    lost: set<nat>, alloc: set<nat>, first: nat, unreadable: set<nat>, held: set<nat>, n: I)
    requires Consistent(trees, blocks, owner, lost, alloc, first)
    requires n in trees
    ensures VisibleZones(trees, blocks, owner, unreadable, n) - held == ZonesOf(owner, n) <==>
            && (!exists q: Path :: q.Valid() && HidesZones(trees[n], blocks, unreadable, q))
            && (forall p: Path :: p.Valid() && At(trees[n], blocks, p) != 0 ==> At(trees[n], blocks, p) !in held)
  {
    var zone := trees[n];
    if q: Path :| q.Valid() && HidesZones(zone, blocks, unreadable, q) {
      var j :| 0 <= j < 512 && At(zone, blocks, Child(q, j)) != 0;
      HeldOnce(trees, blocks, owner, lost, alloc, first, n, Child(q, j));
      assert At(zone, blocks, Child(q, j)) in ZonesOf(owner, n);
      assert !Visible(zone, blocks, unreadable, Child(q, j));
    } else if p: Path :| p.Valid() && At(zone, blocks, p) != 0 && At(zone, blocks, p) in held {
      HeldOnce(trees, blocks, owner, lost, alloc, first, n, p);
      assert At(zone, blocks, p) in ZonesOf(owner, n);
    } else {
      forall z | z in ZonesOf(owner, n)
        ensures z in VisibleZones(trees, blocks, owner, unreadable, n) - held
      {
        var p := owner[z].1;
        assert z in alloc && At(zone, blocks, p) == z;
        if p.IndLeaf? {
          assert Child(Ind, p.j) == p && !HidesZones(zone, blocks, unreadable, Ind);
        } else if p.DindNode? {
          assert Child(Dind, p.i) == p && !HidesZones(zone, blocks, unreadable, Dind);
        } else if p.DindLeaf? {
          var q := DindNode(p.i);
          assert Child(q, p.j) == p && !HidesZones(zone, blocks, unreadable, q);
          assert Child(Dind, p.i) == q && !HidesZones(zone, blocks, unreadable, Dind);
        }
      }
    }
  }

  /** A forest of one tree: an indirect block (zone 5) naming one data zone (6), which starts with v. */
  lemma SmallTree(v: byte) returns (trees: map<int, seq<nat>>, blocks: seq<Block>, owner: map<nat, (int, Path)>)
    ensures Consistent(trees, blocks, owner, {}, {5, 6}, 3)
    ensures 0 in trees && trees[0] == [0, 0, 0, 0, 0, 0, 0, 5, 0]
    ensures owner == map[5 := (0, Ind), 6 := (0, IndLeaf(0))]
    ensures |blocks| == 10 && blocks[6] == ZeroBlock()[0 := v] && Short(blocks[5], 0) == 6
  {
    var zone: seq<nat> := [0, 0, 0, 0, 0, 0, 0, 5, 0];
    var index, data := PutShort(ZeroBlock(), 0, 6), ZeroBlock()[0 := v];
    blocks := seq(10, i => if i == 5 then index else if i == 6 then data else ZeroBlock());
    trees := map[0 := zone];
    owner := map[5 := (0, Ind), 6 := (0, IndLeaf(0))];
    forall p: Path | p.Valid()
      ensures At(zone, blocks, p) == if p == Ind then 5 else if p == IndLeaf(0) then 6 else 0
    {
    }
  }

  /** In that forest, with zone 5 unreadable truncate does not free zone 6; nor does it, with everything
      readable, while somebody else refers to zone 6. */
  lemma TruncateCanLose() returns (trees: map<int, seq<nat>>, blocks: seq<Block>, owner: map<nat, (int, Path)>)
    ensures Consistent(trees, blocks, owner, {}, {5, 6}, 3) && 0 in trees
    ensures ZonesOf(owner, 0) == {5, 6}
    ensures VisibleZones(trees, blocks, owner, {5}, 0) == {5} && VisibleZones(trees, blocks, owner, {}, 0) - {6} == {5}
  {
    trees, blocks, owner := SmallTree(0);
  }

  /** buf is the file's bytes from pos on. */
  ghost predicate Exact(zone: seq<nat>, blocks: seq<Block>, pos: nat, buf: seq<byte>)
    requires |zone| == 9 && pos + |buf| <= MAX_BYTES
  {
    forall x :: pos <= x < pos + |buf| ==> buf[x - pos] == ByteAt(zone, blocks, x)
  }

  /** No byte other than zero lies below an unreadable index block. */
  ghost predicate NothingHiddenIn(zone: seq<nat>, blocks: seq<Block>, unreadable: set<nat>, pos: nat, len: nat)
    requires |zone| == 9 && pos + len <= MAX_BYTES
  {
    forall x :: pos <= x < pos + len ==> Indexed(zone, blocks, unreadable, x) || ByteAt(zone, blocks, x) == 0
  }

  /** What file_read hands out is the file's bytes if and only if every byte of the range that lies
      below an unreadable index block is zero. */
  lemma ReadIsExactIff(zone: seq<nat>, blocks: seq<Block>, unreadable: set<nat>, pos: nat, buf: seq<byte>)
    requires |zone| == 9 && pos + |buf| <= MAX_BYTES
    requires ReadSoFar(zone, blocks, unreadable, pos, buf)
    ensures Exact(zone, blocks, pos, buf) <==> NothingHiddenIn(zone, blocks, unreadable, pos, |buf|)
  {
    hide ByteAt, Indexed, Stuck;
    forall x | pos <= x < pos + |buf|
      ensures buf[x - pos] == ByteAt(zone, blocks, x) <==> Indexed(zone, blocks, unreadable, x) || ByteAt(zone, blocks, x) == 0
    {
      assert buf[x - pos] == SeenByte(zone, blocks, unreadable, x);
    }
  }

  /** No index block above the bytes from pos to pos + len is unreadable. */
  ghost predicate RangeIndexed(zone: seq<nat>, blocks: seq<Block>, unreadable: set<nat>, pos: nat, len: nat)
    requires |zone| == 9 && pos + len <= MAX_BYTES
  {
    forall x, q :: pos <= x < pos + len && q in Ancestry(LeafPath(x / BLOCK_SIZE)) - {LeafPath(x / BLOCK_SIZE)} ==>
      q.Valid() && At(zone, blocks, q) !in unreadable
  }

  /** file_read returns exactly the file's bytes when the index blocks above the range can be read. */
  method ReadExactly(dev: Device, n: Inode, f: File, count: int) returns (r: int, buf: seq<byte>)
    requires dev.Valid() && n in dev.inodes
    requires count > 0 ==> f.pos + count <= MAX_BYTES
    modifies dev`zmap, dev`blocks, dev`owner, n`zone, n`dirt, f`pos
    ensures unchanged(dev) && unchanged(n) && f.pos == old(f.pos) + |buf| && |buf| <= (if count > 0 then count else 0)
    ensures r == if count <= 0 then 0 else if |buf| > 0 then |buf| else -ERROR
    ensures buf != [] ==> f.pos <= MAX_BYTES
    ensures buf != [] ==>
              (Exact(n.zone, dev.blocks, old(f.pos), buf) <==> NothingHiddenIn(n.zone, dev.blocks, dev.unreadable, old(f.pos), |buf|))
    ensures buf != [] && RangeIndexed(n.zone, dev.blocks, dev.unreadable, old(f.pos), |buf|) ==> Exact(n.zone, dev.blocks, old(f.pos), buf)
    ensures |buf| < count ==> Stuck(n.zone, dev.blocks, dev.unreadable, f.pos)
  {
    hide Exact, NothingHiddenIn, RangeIndexed, ReadSoFar, Stuck, Consistent;
    r, buf := FileRead(dev, n, f, count);
    if buf != [] {
      ReadIsExactIff(n.zone, dev.blocks, dev.unreadable, f.pos - |buf|, buf);
      RangeIsSeen(n.zone, dev.blocks, dev.unreadable, f.pos - |buf|, |buf|);
    }
  }

  lemma RangeIsSeen(zone: seq<nat>, blocks: seq<Block>, unreadable: set<nat>, pos: nat, len: nat)
    requires |zone| == 9 && pos + len <= MAX_BYTES
    ensures RangeIndexed(zone, blocks, unreadable, pos, len) ==> NothingHiddenIn(zone, blocks, unreadable, pos, len)
  {
    hide ByteAt, LeafPath;
    if RangeIndexed(zone, blocks, unreadable, pos, len) {
      forall x | pos <= x < pos + len
        ensures Indexed(zone, blocks, unreadable, x)
      {
        var p := LeafPath(x / BLOCK_SIZE);
        forall q | q in Ancestry(p) && q != p
          ensures q.Valid() && At(zone, blocks, q) !in unreadable
        {
          assert q in Ancestry(LeafPath(x / BLOCK_SIZE)) - {LeafPath(x / BLOCK_SIZE)};
        }
        AncestorsReadable(zone, blocks, unreadable, p);
      }
    }
  }

  lemma AncestorsReadable(zone: seq<nat>, blocks: seq<Block>, unreadable: set<nat>, p: Path)
    requires |zone| == 9 && p.Valid()
    requires forall q :: q in Ancestry(p) && q != p ==> q.Valid() && At(zone, blocks, q) !in unreadable
    ensures Visible(zone, blocks, unreadable, p)
  {
    match p {
      case Direct(_) =>
      case Ind =>
      case IndLeaf(_) => assert Ind in Ancestry(p);
      case Dind =>
      case DindNode(_) => assert Dind in Ancestry(p);
      case DindLeaf(i, _) => assert Dind in Ancestry(p) && DindNode(i) in Ancestry(p);
    }
  }

  /** With the indirect block (zone 5) unreadable, file_read succeeds and hands out 0 for a byte that is 7. */
  lemma ReadCanMissBytes() returns (trees: map<int, seq<nat>>, blocks: seq<Block>, owner: map<nat, (int, Path)>)
    ensures Consistent(trees, blocks, owner, {}, {5, 6}, 3) && 0 in trees
    ensures ReadSoFar(trees[0], blocks, {5}, 7 * BLOCK_SIZE, [0]) && ByteAt(trees[0], blocks, 7 * BLOCK_SIZE) == 7
  {
    trees, blocks, owner := SmallTree(7);
    assert LeafPath(7) == IndLeaf(0);
  }

  /** What was stored is what is read back if and only if no byte of it but zeros lies below an
      index block that is unreadable then. */
  lemma ReadsBackWhatWasStored(zone0: seq<nat>, blocks0: seq<Block>, zone1: seq<nat>, blocks1: seq<Block>,
    unreadable: set<nat>, pos: nat, data: seq<byte>, buf: seq<byte>)
    requires |zone0| == 9 && |zone1| == 9 && pos + |data| <= MAX_BYTES && |buf| == |data|
    requires Stored(zone0, blocks0, zone1, blocks1, pos, data)
    requires ReadSoFar(zone1, blocks1, unreadable, pos, buf)
    ensures buf == data <==>
            forall k :: 0 <= k < |data| ==> data[k] == 0 || Indexed(zone1, blocks1, unreadable, pos + k)
  {
    hide ByteAt, Indexed;
    forall k | 0 <= k < |data|
      ensures buf[k] == data[k] <==> data[k] == 0 || Indexed(zone1, blocks1, unreadable, pos + k)
    {
      assert SeenByte(zone1, blocks1, unreadable, pos + k) == buf[pos + k - pos];
      assert ByteAt(zone1, blocks1, pos + k) == data[pos + k - pos];
    }
  }

  /** Bytes at or past the end of a file are zero. */
  ghost predicate ZeroPastEnd(zone: seq<nat>, blocks: seq<Block>, size: nat)
    requires |zone| == 9
  {
    forall x :: size <= x < MAX_BYTES ==> ByteAt(zone, blocks, x) == 0
  }

  lemma StoringKeepsTail(zone0: seq<nat>, blocks0: seq<Block>, size0: nat, zone1: seq<nat>, blocks1: seq<Block>,
    size1: nat, pos: nat, data: seq<byte>)
    requires |zone0| == 9 && |zone1| == 9
    requires Stored(zone0, blocks0, zone1, blocks1, pos, data)
    requires size1 == if data == [] then size0 else Max(size0, pos + |data|)
    requires ZeroPastEnd(zone0, blocks0, size0)
    ensures ZeroPastEnd(zone1, blocks1, size1)
  {
    hide ByteAt;
  }

  lemma OthersKeepTail<I>(trees: map<I, seq<nat>>, blocks: seq<Block>, trees': map<I, seq<nat>>, blocks': seq<Block>,
    n: I, m: I, size: nat)
    requires OthersRead(trees, blocks, trees', blocks', n) && m in trees && m != n
    requires ZeroPastEnd(trees[m], blocks, size)
    ensures ZeroPastEnd(trees'[m], blocks', size)
  {
    hide ByteAt;
  }

  lemma EmptyTreeIsZero(blocks: seq<Block>)
    ensures forall p: Path :: p.Valid() ==> At(seq(9, _ => 0), blocks, p) == 0
    ensures ZeroPastEnd(seq(9, _ => 0), blocks, 0)
  {
  }

  lemma KeptReads<I>(trees: map<I, seq<nat>>, blocks: seq<Block>, trees': map<I, seq<nat>>, blocks': seq<Block>, n: I)
    requires OthersKept(trees, blocks, trees', blocks', n)
    ensures OthersRead(trees, blocks, trees', blocks', n)
  {
  }

  /** Operations on the inodes opened so far, by number. */
  datatype Op =
    | Open(fileType: FileType)
    | Create(n: nat, block: int)
    | Write(n: nat, append: bool, pos: nat, data: seq<byte>)
    | Read(n: nat, pos: nat, count: int)
    | Trunc(n: nat)
    | Media(unreadable: set<nat>, held: set<nat>)

  ghost predicate Tails(dev: Device)
    requires dev.Valid()
    reads dev, dev.inodes
  {
    forall n :: n in dev.inodes ==> ZeroPastEnd(n.zone, dev.blocks, n.size)
  }

  /** The inode is among the count open ones, holds zones, and `_bmap` does not panic. */
  ghost predicate Sane(op: Op, count: nat) {
    match op
    case Open(fileType) => fileType != Other
    case Create(n, block) => n < count && 0 <= block < MAX_BLOCKS
    case Write(n, _, _, _) => n < count
    case Read(n, _, _) => n < count
    case Trunc(n) => n < count
    case Media(_, _) => true
  }

  /** How many inodes are open after op. */
  ghost function Opened(count: nat, op: Op): nat { if op.Open? then count + 1 else count }

  // ----- files as sequences of bytes -----------------------------------

  /** A file for whoever uses it: its size, and a byte at every place. */
  datatype Contents = Contents(size: nat, at: int -> byte)

  ghost function Empty(): Contents { Contents(0, _ => 0) }

  /** a with the bytes d from start on. */
  ghost function WithBytes(a: Contents, start: nat, d: seq<byte>): Contents {
    Contents(if d == [] then a.size else Max(a.size, start + |d|), x => if start <= x < start + |d| then d[x - start] else a.at(x))
  }

  /** How many bytes a write stored, what a read handed out, and whether the device was full afterwards. */
  datatype Did = Did(stored: nat, buf: seq<byte>, full: bool)

  /** What an operation does to the files. */
  ghost function Effect(op: Op, did: Did, files: seq<Contents>): seq<Contents> {
    match op
    case Open(_) => files + [Empty()]
    case Write(n, append, pos, data) =>
      if n < |files| && did.stored <= |data| then
        files[n := WithBytes(files[n], if append then files[n].size else pos, data[..did.stored])]
      else files
    case Trunc(n) => if n < |files| then files[n := Empty()] else files
    case _ => files
  }

  /** What the answer of an operation must be while every block can be read: a write stores everything or the
      device is full, a read gives the bytes of the file. */
  ghost predicate Answers(op: Op, did: Did, files: seq<Contents>) {
    match op
    case Write(n, append, pos, data) =>
      && n < |files| && did.stored <= |data|
      && ((if append then files[n].size else pos) + |data| <= MAX_BYTES ==> did.stored == |data| || did.full)
    case Read(n, pos, count) =>
      && n < |files|
      && (0 < count && pos + count <= MAX_BYTES ==> |did.buf| == count && forall i :: 0 <= i < count ==> did.buf[i] == files[n].at(pos + i))
    case _ => true
  }

  ghost predicate Shows(zone: seq<nat>, blocks: seq<Block>, size: nat, a: Contents) {
    |zone| == 9 && size == a.size && forall x :: 0 <= x < MAX_BYTES ==> ByteAt(zone, blocks, x) == a.at(x)
  }

  /** Inode by inode, the device shows these files. */
  ghost predicate AllShow(dev: Device, nodes: seq<Inode>, files: seq<Contents>)
    reads dev, nodes
  {
    Distinct(nodes) && |nodes| == |files| && forall k :: 0 <= k < |nodes| ==> Shows(nodes[k].zone, dev.blocks, nodes[k].size, files[k])
  }

  lemma ShowsStored(zone0: seq<nat>, blocks0: seq<Block>, size0: nat, a: Contents,
    zone1: seq<nat>, blocks1: seq<Block>, size1: nat, start: nat, d: seq<byte>)
    requires Shows(zone0, blocks0, size0, a) && |zone1| == 9 && Stored(zone0, blocks0, zone1, blocks1, start, d)
    requires size1 == if d == [] then size0 else Max(size0, start + |d|)
    ensures Shows(zone1, blocks1, size1, WithBytes(a, start, d))
  {
    hide ByteAt;
  }

  lemma ShowsEmpty(blocks: seq<Block>)
    ensures Shows(seq(9, _ => 0), blocks, 0, Empty())
  {
  }

  /** One file changed, the others did not. */
  lemma OneChanged(dev: Device, nodes: seq<Inode>, files: seq<Contents>, t0: map<Inode, seq<nat>>, b0: seq<Block>, k: nat, f: Contents)
    requires Distinct(nodes) && |nodes| == |files| && k < |nodes| && forall i :: 0 <= i < |nodes| ==> nodes[i] in t0 && nodes[i] in dev.inodes
    requires forall i :: 0 <= i < |nodes| ==> Shows(t0[nodes[i]], b0, files[i].size, files[i])
    requires forall i :: 0 <= i < |nodes| && i != k ==> nodes[i].size == files[i].size
    requires OthersRead<Inode>(t0, b0, dev.Trees(), dev.blocks, nodes[k])
    requires Shows(nodes[k].zone, dev.blocks, nodes[k].size, f)
    ensures AllShow(dev, nodes, files[k := f])
  {
    hide ByteAt;
    var files' := files[k := f];
    forall i | 0 <= i < |nodes|
      ensures Shows(nodes[i].zone, dev.blocks, nodes[i].size, files'[i])
    {
      if i != k {
        assert nodes[i] != nodes[k] by { assert i < k || k < i; }
      }
    }
  }

  method StepOpen(dev: Device, nodes: seq<Inode>, fileType: FileType, ghost files: seq<Contents>) returns (nodes': seq<Inode>)
    requires dev.Valid() && Tails(dev) && fileType != Other && dev.inodes == (set n | n in nodes) && AllShow(dev, nodes, files)
    modifies dev`inodes, dev`owner, dev`lost
    ensures dev.Valid() && Tails(dev) && dev.inodes == (set n | n in nodes') && fresh(dev.inodes - old(dev.inodes))
    ensures |nodes'| == |nodes| + 1 && nodes <= nodes' && dev.lost == old(dev.lost)
    ensures AllShow(dev, nodes', files + [Empty()]) && nodes'[|nodes|].fileType == fileType
  {
    hide Consistent, ByteAt, ZeroPastEnd, At, Names, NamedIn, Shows;
    EmptyTreeIsZero(dev.blocks);
    ZoneZero(dev.Trees(), dev.blocks, dev.owner, dev.lost, dev.Allocated(), dev.firstDataZone);
    EmptyTreeNames(dev.blocks, dev.lost);
    var n := dev.Load(fileType, seq(9, _ => 0), 0);
    assert n !in nodes;
    nodes' := nodes + [n];
    ShowsEmpty(dev.blocks);
  }

  lemma ZoneZero<I>(trees: map<I, seq<nat>>, blocks: seq<Block>, owner: map<nat, (I, Path)>,
    lost: set<nat>, alloc: set<nat>, first: nat)
    requires Consistent(trees, blocks, owner, lost, alloc, first)
    ensures 0 !in lost
  {
  }

  lemma EmptyTreeNames(blocks: seq<Block>, zones: set<nat>)
    requires 0 !in zones
    ensures Names(seq(9, _ => 0), blocks, zones) && NamedIn(seq(9, _ => 0), blocks, zones) == {}
  {
    EmptyTreeIsZero(blocks);
  }

  /** What AllShow says about the trees before an operation. */
  lemma ShownBefore(dev: Device, nodes: seq<Inode>, files: seq<Contents>)
    requires dev.Valid() && dev.inodes == (set n | n in nodes) && AllShow(dev, nodes, files)
    ensures Distinct(nodes) && |nodes| == |files|
    ensures forall i :: 0 <= i < |nodes| ==> nodes[i] in dev.Trees() && nodes[i] in dev.inodes
    ensures forall i :: 0 <= i < |nodes| ==> Shows(dev.Trees()[nodes[i]], dev.blocks, files[i].size, files[i]) && nodes[i].size == files[i].size
  {
    hide Consistent, ByteAt;
  }

  /** create_block. */
  method StepCreate(dev: Device, nodes: seq<Inode>, k: nat, block: int, ghost files: seq<Contents>)
    requires dev.Valid() && Tails(dev) && k < |nodes| && 0 <= block < MAX_BLOCKS
    requires dev.inodes == (set n | n in nodes) && AllShow(dev, nodes, files)
    modifies dev`zmap, dev`blocks, dev`owner, nodes[k]
    ensures dev.Valid() && Tails(dev) && AllShow(dev, nodes, files)
    ensures dev.unreadable == {} ==> dev.Full() || At(nodes[k].zone, dev.blocks, LeafPath(block)) != 0
  {
    hide Consistent, Extends, ByteAt, Stored, OthersRead, ZeroPastEnd, At, Shows, InWords;
    ghost var t0, b0, n := dev.Trees(), dev.blocks, nodes[k];
    ShownBefore(dev, nodes, files);
    var z := BmapOrCreate(dev, nodes[k], block, true);
    AllVisible(n.zone, dev.blocks, dev.unreadable);
    GrowingIsInvisible<Inode>(t0, b0, dev.Trees(), dev.blocks, n, Ancestry(LeafPath(block)));
    TailsKept(dev, t0, b0, n, 0, []);
    ShowsStored(t0[n], b0, files[k].size, files[k], n.zone, dev.blocks, n.size, 0, []);
    OneChanged(dev, nodes, files, t0, b0, k, WithBytes(files[k], 0, []));
    SameShows(dev, nodes, files, k);
  }

  lemma AllVisible(zone: seq<nat>, blocks: seq<Block>, unreadable: set<nat>)
    requires |zone| == 9
    ensures unreadable == {} ==> forall p: Path :: p.Valid() ==> Visible(zone, blocks, unreadable, p)
  {
  }

  lemma SameShows(dev: Device, nodes: seq<Inode>, files: seq<Contents>, k: nat)
    requires k < |files| && AllShow(dev, nodes, files[k := WithBytes(files[k], 0, [])])
    ensures AllShow(dev, nodes, files)
  {
    hide ByteAt;
    var files' := files[k := WithBytes(files[k], 0, [])];
    forall i | 0 <= i < |nodes|
      ensures Shows(nodes[i].zone, dev.blocks, nodes[i].size, files[i])
    {
      assert Shows(nodes[i].zone, dev.blocks, nodes[i].size, files'[i]);
    }
  }

  /** file_write of all the data; beyond the largest file, where `_bmap` panics, nothing is written. */
  method StepWrite(dev: Device, nodes: seq<Inode>, k: nat, append: bool, pos: nat, data: seq<byte>, ghost files: seq<Contents>) returns (m: nat)
    requires dev.Valid() && Tails(dev) && k < |nodes|
    requires dev.inodes == (set n | n in nodes) && AllShow(dev, nodes, files)
    modifies dev`zmap, dev`blocks, dev`owner, nodes[k]
    ensures dev.Valid() && Tails(dev) && m <= |data|
    ensures AllShow(dev, nodes, files[k := WithBytes(files[k], if append then files[k].size else pos, data[..m])])
    ensures dev.unreadable == {} && (if append then files[k].size else pos) + |data| <= MAX_BYTES ==> m == |data| || dev.Full()
  {
    hide Consistent, ByteAt, Stored, OthersRead, ZeroPastEnd, At, Visible, Shows, Stuck, Indexed;
    ghost var t0, b0 := dev.Trees(), dev.blocks;
    ShownBefore(dev, nodes, files);
    var n := nodes[k];
    var f := new File(append);
    f.pos := pos;
    m := 0;
    ghost var start := StartPos(n, f);
    if StartPos(n, f) + |data| <= MAX_BYTES {
      assert dev.Valid();
      var r := FileWrite(dev, n, f, data, |data|);
      m := Progress(r);
      NoneStuck(n.zone, dev.blocks, dev.unreadable);
      TailsKept(dev, t0, b0, n, start, data[..m]);
      ShowsStored(t0[n], b0, files[k].size, files[k], n.zone, dev.blocks, n.size, start, data[..m]);
      OneChanged(dev, nodes, files, t0, b0, k, WithBytes(files[k], start, data[..m]));
    } else {
      assert dev.Trees() == t0;
      ReadsAsBefore<Inode>(t0, b0, n);
      StoredNone(t0[n], b0, start);
      ShowsStored(t0[n], b0, files[k].size, files[k], n.zone, dev.blocks, n.size, start, []);
      OneChanged(dev, nodes, files, t0, b0, k, WithBytes(files[k], start, []));
      assert data[..0] == [];
    }
  }

  lemma ReadsAsBefore<I>(trees: map<I, seq<nat>>, blocks: seq<Block>, n: I)
    requires forall m :: m in trees ==> |trees[m]| == 9
    ensures OthersRead(trees, blocks, trees, blocks, n)
  {
  }

  lemma StoredNone(zone: seq<nat>, blocks: seq<Block>, pos: nat)
    requires |zone| == 9
    ensures Stored(zone, blocks, zone, blocks, pos, [])
  {
  }

  lemma NoneStuck(zone: seq<nat>, blocks: seq<Block>, unreadable: set<nat>)
    requires |zone| == 9
    ensures unreadable == {} ==> forall x :: 0 <= x < MAX_BYTES ==> Indexed(zone, blocks, unreadable, x) && !Stuck(zone, blocks, unreadable, x)
  {
    AllVisible(zone, blocks, unreadable);
    hide Visible, LeafPath;
  }

  /** file_read; beyond the largest file, where `_bmap` panics, nothing is read. */
  method StepRead(dev: Device, nodes: seq<Inode>, k: nat, pos: nat, count: int, ghost files: seq<Contents>) returns (buf: seq<byte>)
    requires dev.Valid() && Tails(dev) && k < |nodes|
    requires dev.inodes == (set n | n in nodes) && AllShow(dev, nodes, files)
    modifies dev`zmap, dev`blocks, dev`owner, nodes[k]
    ensures unchanged(dev) && unchanged(nodes[k])
    ensures dev.unreadable == {} && 0 < count && pos + count <= MAX_BYTES ==>
              |buf| == count && forall i :: 0 <= i < count ==> buf[i] == files[k].at(pos + i)
  {
    hide Consistent, ByteAt, At, Visible, Shows, Stuck, Indexed, ReadSoFar, Exact, NothingHiddenIn;
    var n := nodes[k];
    buf := [];
    ShownBefore(dev, nodes, files);
    if 0 < count && pos + count <= MAX_BYTES {
      var f := new File(false);
      f.pos := pos;
      assert dev.Valid();
      var r;
      r, buf := ReadExactly(dev, n, f, count);
      NoneStuck(n.zone, dev.blocks, dev.unreadable);
      if dev.unreadable == {} {
        SeenIsShown(n.zone, dev.blocks, n.size, files[k], pos, buf);
      }
    }
  }

  lemma SeenIsShown(zone: seq<nat>, blocks: seq<Block>, size: nat, a: Contents, pos: nat, buf: seq<byte>)
    requires Shows(zone, blocks, size, a) && pos + |buf| <= MAX_BYTES
    ensures NothingHiddenIn(zone, blocks, {}, pos, |buf|)
    ensures Exact(zone, blocks, pos, buf) ==> forall i :: 0 <= i < |buf| ==> buf[i] == a.at(pos + i)
  {
    NoneStuck(zone, blocks, {});
    hide ByteAt, Indexed, Stuck;
    if Exact(zone, blocks, pos, buf) {
      forall i | 0 <= i < |buf|
        ensures buf[i] == a.at(pos + i)
      {
        assert buf[pos + i - pos] == ByteAt(zone, blocks, pos + i);
      }
    }
  }

  /** truncate. */
  method StepTrunc(dev: Device, nodes: seq<Inode>, k: nat, ghost files: seq<Contents>)
    requires dev.Valid() && Tails(dev) && k < |nodes|
    requires dev.inodes == (set n | n in nodes) && AllShow(dev, nodes, files)
    modifies dev`zmap, dev`blocks, dev`owner, dev`lost, nodes[k]
    ensures dev.Valid() && Tails(dev) && old(dev.lost) <= dev.lost
    ensures dev.unreadable + dev.held == {} ==> dev.lost == old(dev.lost)
    ensures AllShow(dev, nodes, files[k := Empty()])
  {
    hide Consistent, ByteAt, OthersRead, OthersKept, ZeroPastEnd, At, Visible, VisibleZones, HidesZones, ZonesOf, Shows;
    ghost var t0, b0, u := dev.Trees(), dev.blocks, dev.unreadable;
    ShownBefore(dev, nodes, files);
    var n := nodes[k];
    if u + dev.held == {} {
      assert u == {} == dev.held;
      NothingHidden(t0, b0, dev.owner, dev.lost, dev.Allocated(), dev.firstDataZone, n);
    }
    Truncate(dev, n);
    KeptReads<Inode>(t0, b0, dev.Trees(), dev.blocks, n);
    EmptyTreeIsZero(dev.blocks);
    OtherTails(dev, t0, b0, n);
    ShowsEmpty(dev.blocks);
    OneChanged(dev, nodes, files, t0, b0, k, Empty());
  }

  /** One operation keeps the partition of the zones and the zero tails, loses no zone while all blocks are
      readable and nobody else refers to their buffers, and does to the files what Effect says. */
  method Step(dev: Device, nodes: seq<Inode>, op: Op, ghost files: seq<Contents>) returns (nodes': seq<Inode>, did: Did)
    requires dev.Valid() && Tails(dev) && Sane(op, |nodes|) && dev.inodes == (set n | n in nodes) && AllShow(dev, nodes, files)
    modifies dev`zmap, dev`blocks, dev`owner, dev`lost, dev`unreadable, dev`held, dev`inodes, dev.inodes
    ensures dev.Valid() && Tails(dev) && dev.inodes == (set n | n in nodes') && fresh(dev.inodes - old(dev.inodes))
    ensures |nodes'| == Opened(|nodes|, op) && nodes <= nodes'
    ensures dev.unreadable == if op.Media? then op.unreadable else old(dev.unreadable)
    ensures dev.held <= if op.Media? then op.held else old(dev.held)
    ensures old(dev.unreadable) + old(dev.held) == {} || !op.Trunc? ==> dev.lost == old(dev.lost)
    ensures old(dev.lost) <= dev.lost
    ensures AllShow(dev, nodes', Effect(op, did, files))
    ensures old(dev.unreadable) == {} ==> Answers(op, did, files)
    ensures did.full == dev.Full()
  {
    hide Consistent, AllShow;
    nodes', did := nodes, Did(0, [], false);
    match op {
      case Open(fileType) =>
        nodes' := StepOpen(dev, nodes, fileType, files);
      case Create(k, block) =>
        StepCreate(dev, nodes, k, block, files);
      case Write(k, append, pos, data) =>
        SameNumber(dev, nodes, files);
        var m := StepWrite(dev, nodes, k, append, pos, data, files);
        did := Did(m, [], false);
      case Read(k, pos, count) =>
        SameNumber(dev, nodes, files);
        var buf := StepRead(dev, nodes, k, pos, count, files);
        did := Did(0, buf, false);
      case Trunc(k) =>
        SameNumber(dev, nodes, files);
        StepTrunc(dev, nodes, k, files);
      case Media(u, held) =>
        StepMedia(dev, nodes, u, held, files);
    }
    did := did.(full := dev.Full());
  }

  lemma SameNumber(dev: Device, nodes: seq<Inode>, files: seq<Contents>)
    requires AllShow(dev, nodes, files)
    ensures |nodes| == |files|
  {
  }

  method StepMedia(dev: Device, nodes: seq<Inode>, u: set<nat>, held: set<nat>, ghost files: seq<Contents>)
    requires dev.Valid() && Tails(dev) && dev.inodes == (set n | n in nodes) && AllShow(dev, nodes, files)
    modifies dev`unreadable, dev`held
    ensures dev.Valid() && Tails(dev) && AllShow(dev, nodes, files)
    ensures dev.unreadable == u && dev.held <= held
  {
    hide Consistent, ByteAt, ZeroPastEnd, Shows;
    ghost var t0 := dev.Trees();
    dev.unreadable := u;
    assert dev.Trees() == t0 && dev.Allocated() == old(dev.Allocated());
    dev.Hold(held);
    assert dev.Trees() == t0 && dev.Allocated() == old(dev.Allocated());
  }

  twostate lemma OtherTails(dev: Device, new t0: map<Inode, seq<nat>>, new b0: seq<Block>, new n: Inode)
    requires old(dev.Valid()) && old(Tails(dev)) && dev.Valid()
    requires t0 == old(dev.Trees()) && b0 == old(dev.blocks) && dev.inodes == old(dev.inodes) && n in dev.inodes
    requires OthersRead<Inode>(t0, b0, dev.Trees(), dev.blocks, n)
    requires forall m :: m in dev.inodes && m != n ==> m.size == old(m.size)
    ensures forall m :: m in dev.inodes && m != n ==> ZeroPastEnd(m.zone, dev.blocks, m.size)
  {
    hide OthersRead, ZeroPastEnd, Consistent;
    forall m | m in dev.inodes && m != n
      ensures ZeroPastEnd(m.zone, dev.blocks, m.size)
    {
      OthersKeepTail<Inode>(t0, b0, dev.Trees(), dev.blocks, n, m, m.size);
    }
  }

  twostate lemma TailsKept(dev: Device, new t0: map<Inode, seq<nat>>, new b0: seq<Block>, new n: Inode, new pos: nat, new data: seq<byte>)
    requires old(dev.Valid()) && old(Tails(dev)) && dev.Valid()
    requires t0 == old(dev.Trees()) && b0 == old(dev.blocks) && dev.inodes == old(dev.inodes) && n in dev.inodes
    requires OthersRead<Inode>(t0, b0, dev.Trees(), dev.blocks, n)
    requires Stored(t0[n], b0, n.zone, dev.blocks, pos, data)
    requires n.size == if data == [] then old(n.size) else Max(old(n.size), pos + |data|)
    requires forall m :: m in dev.inodes && m != n ==> m.size == old(m.size)
    ensures Tails(dev)
  {
    hide OthersRead, ZeroPastEnd, Consistent, Stored;
    OtherTails(dev, t0, b0, n);
    StoringKeepsTail(t0[n], b0, old(n.size), n.zone, dev.blocks, n.size, pos, data);
  }

  lemma NothingHidden<I>(trees: map<I, seq<nat>>, blocks: seq<Block>, owner: map<nat, (I, Path)>,
    lost: set<nat>, alloc: set<nat>, first: nat, n: I)
    requires Consistent(trees, blocks, owner, lost, alloc, first)
    requires n in trees
    ensures VisibleZones(trees, blocks, owner, {}, n) - {} == ZonesOf(owner, n)
  {
    TruncateFreesAllIff(trees, blocks, owner, lost, alloc, first, {}, {}, n);
  }

  /** No block turns unreadable, and nobody else gets hold of a buffer. */
  ghost predicate AllAvailable(ops: seq<Op>) {
    forall k :: 0 <= k < |ops| && ops[k].Media? ==> ops[k].unreadable == {} && ops[k].held == {}
  }

  ghost predicate AllSane(ops: seq<Op>, count: nat) {
    ops == [] || (Sane(ops[0], count) && AllSane(ops[1..], Opened(count, ops[0])))
  }

  /** What a whole run does to the files. */
  ghost function Replay(ops: seq<Op>, log: seq<Did>, files: seq<Contents>): seq<Contents>
    requires |ops| == |log|
  {
    if ops == [] then files
    else Effect(ops[|ops| - 1], log[|ops| - 1], Replay(ops[..|ops| - 1], log[..|ops| - 1], files))
  }

  /** Every answer of the run suits the files as they were then. */
  ghost predicate AllAnswer(ops: seq<Op>, log: seq<Did>, files: seq<Contents>) {
    |log| <= |ops| && forall i :: 0 <= i < |log| ==> AnswersAt(ops, log, files, i)
  }

  ghost predicate AnswersAt(ops: seq<Op>, log: seq<Did>, files: seq<Contents>, i: nat)
    requires i < |log| <= |ops|
  {
    Answers(ops[i], log[i], Replay(ops[..i], log[..i], files))
  }

  lemma ReplayNext(ops: seq<Op>, log: seq<Did>, files: seq<Contents>, did: Did)
    requires |log| < |ops|
    ensures Replay(ops[..|log| + 1], log + [did], files) == Effect(ops[|log|], did, Replay(ops[..|log|], log, files))
    ensures AllAnswer(ops, log, files) && Answers(ops[|log|], did, Replay(ops[..|log|], log, files)) ==>
              AllAnswer(ops, log + [did], files)
  {
    hide Effect, Answers;
    var k, log' := |log|, log + [did];
    assert ops[..k + 1][..k] == ops[..k] && log'[..k] == log;
    if AllAnswer(ops, log, files) && Answers(ops[k], did, Replay(ops[..k], log, files)) {
      forall i | 0 <= i < |log'|
        ensures AnswersAt(ops, log', files, i)
      {
        if i < k {
          assert AnswersAt(ops, log, files, i) && log'[..i] == log[..i];
        } else {
          assert log'[..i] == log && log'[i] == did;
        }
      }
    }
  }

  /** Every run from any state of the device and its in-core inodes: the allocated zones stay partitioned
      among the trees and the rest (Valid), all tails read as zero, as long as no block is unreadable or held by
      others nothing is lost, and the files are at each moment what the operations make of byte sequences. */
  method RunFrom(dev: Device, nodes0: seq<Inode>, ops: seq<Op>, ghost files: seq<Contents>) returns (nodes: seq<Inode>, log: seq<Did>)
    requires dev.Valid() && Tails(dev) && dev.inodes == (set n | n in nodes0) && AllShow(dev, nodes0, files)
    requires AllSane(ops, |nodes0|)
    modifies dev, dev.inodes
    ensures dev.Valid() && Tails(dev) && dev.inodes == (set n | n in nodes) && nodes0 <= nodes
    ensures old(dev.unreadable) == {} == old(dev.held) && AllAvailable(ops) ==> dev.lost == old(dev.lost)
    ensures |log| == |ops| && AllShow(dev, nodes, Replay(ops, log, files))
    ensures old(dev.unreadable) == {} == old(dev.held) && AllAvailable(ops) ==> AllAnswer(ops, log, files)
  {
    hide Consistent, AllShow, Answers, Effect, Sane;
    nodes, log := nodes0, [];
    assert ops[0..] == ops && ops[..0] == [];
    for k := 0 to |ops|
      invariant dev.Valid() && Tails(dev) && dev.inodes == (set n | n in nodes) && nodes0 <= nodes
      invariant fresh(dev.inodes - old(dev.inodes)) && AllSane(ops[k..], |nodes|)
      invariant |log| == k && AllShow(dev, nodes, Replay(ops[..k], log, files))
      invariant old(dev.unreadable) == {} == old(dev.held) && AllAvailable(ops) ==>
                  dev.lost == old(dev.lost) && dev.unreadable == {} == dev.held && AllAnswer(ops, log, files)
    {
      assert ops[k..][1..] == ops[k + 1..];
      var did;
      nodes, did := Step(dev, nodes, ops[k], Replay(ops[..k], log, files));
      ReplayNext(ops, log, files, did);
      log := log + [did];
    }
    assert ops[..|ops|] == ops;
  }

  /** The same from mounting any map: what is lost at the end was in use at the start. */
  method Run(firstDataZone: nat, zmap: seq<seq<bool>>, blocks: seq<Block>, ops: seq<Op>) returns (dev: Device, nodes: seq<Inode>, log: seq<Did>)
    requires 0 < firstDataZone <= |blocks| < 65536
    requires 0 < |zmap| <= 8 && forall i :: 0 <= i < |zmap| ==> |zmap[i]| == BITS_PER_MAP
    requires |blocks| - firstDataZone < |zmap| * BITS_PER_MAP
    requires AllSane(ops, 0)
    ensures fresh(dev) && dev.Valid() && Tails(dev)
    ensures AllAvailable(ops) ==> dev.lost == UsedZones(zmap, firstDataZone, |blocks|)
    ensures |log| == |ops| && AllShow(dev, nodes, Replay(ops, log, []))
    ensures AllAvailable(ops) ==> AllAnswer(ops, log, [])
  {
    hide UsedZones;
    dev := new Device(firstDataZone, zmap, blocks);
    nodes, log := RunFrom(dev, [], ops, []);
  }
}
