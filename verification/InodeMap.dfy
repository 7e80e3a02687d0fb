// `_bmap`, `bmap` and `create_block` (fs/inode.c): from logical blocks to zones
// through seven direct, one indirect and one double-indirect zone.

module InodeMap {
  import opened Blocks
  import opened ZoneTree
  import opened Devices

  /** Fill a hole in i_zone when asked to and when there is a free zone. */
  method TakeRoot(dev: Device, n: Inode, i: int, create: bool)
    requires dev.Valid() && n in dev.inodes && 0 <= i < 9
    modifies dev`zmap, dev`blocks, dev`owner, n`zone, n`dirt
    ensures dev.Valid()
    ensures Extends(old(dev.Trees()), old(dev.blocks), dev.Trees(), dev.blocks, n, {RootPath(i)})
    ensures n.zone == old(n.zone) || (old(n.zone[i]) == 0 && n.zone == old(n.zone)[i := n.zone[i]])
    ensures !create ==> unchanged(dev) && unchanged(n)
    ensures create && n.zone[i] == 0 ==> dev.Full()
    ensures n.dirt == (old(n.dirt) || n.zone != old(n.zone))
  {
    hide Consistent, Extends;
    ghost var t, b0, alloc := dev.Trees(), dev.blocks, dev.Allocated();
    ExtendsReflexive(t, b0, n, {RootPath(i)});
    if create && n.zone[i] == 0 {
      var z := dev.NewBlock();
      if z != 0 {
        RootLinked(t, b0, dev.owner, dev.lost, alloc, dev.firstDataZone, n, i, z, n.zone[i := z]);
        n.zone := n.zone[i := z];
        n.dirt := true;
        dev.owner := dev.owner[z := (n, RootPath(i))];
        assert dev.Trees() == t[n := n.zone] && dev.Allocated() == alloc + {z};
      } else {
        assert dev.Trees() == t && dev.Allocated() == alloc;
      }
    }
  }

  /** Fill an empty entry of the index block k at path q when there is a free zone. */
  method FillEntry(dev: Device, n: Inode, ghost q: Path, k: nat, j: int) returns (z: nat)
    requires dev.Valid() && n in dev.inodes && 0 <= j < 512
    requires q.Valid() && Index(q) && k != 0 && k == At(n.zone, dev.blocks, q)
    requires At(n.zone, dev.blocks, Child(q, j)) == 0
    modifies dev`zmap, dev`blocks, dev`owner
    ensures dev.Valid()
    ensures Extends(old(dev.Trees()), old(dev.blocks), dev.Trees(), dev.blocks, n, {Child(q, j)})
    ensures k < |dev.blocks| && z == Short(dev.blocks[k], j)
    ensures At(n.zone, dev.blocks, q) == k
    ensures z == 0 ==> dev.Full()
  {
    hide Consistent, Extends;
    ghost var t, b0, alloc := dev.Trees(), dev.blocks, dev.Allocated();
    HeldInRange(t, b0, dev.owner, dev.lost, alloc, dev.firstDataZone, n, q);
    z := dev.NewBlock();
    if z != 0 {
      EntryLinked(t, b0, dev.owner, dev.lost, alloc, dev.firstDataZone, n, q, j, z);
      dev.blocks := dev.blocks[k := PutShort(dev.blocks[k], j, z)];
      dev.owner := dev.owner[z := (n, Child(q, j))];
      assert dev.Trees() == t && dev.Allocated() == alloc + {z};
      ExtendsKeeps(t, b0, dev.Trees(), dev.blocks, n, {Child(q, j)}, q);
    } else {
      assert dev.Trees() == t && dev.Allocated() == alloc;
      ExtendsReflexive(t, b0, n, {Child(q, j)});
    }
  }

  /** Entry j of the readable index block k at path q, taking a zone for it when asked to. */
  method TakeEntry(dev: Device, n: Inode, ghost q: Path, k: nat, j: int, create: bool) returns (z: nat)
    requires dev.Valid() && n in dev.inodes && 0 <= j < 512
    requires q.Valid() && Index(q) && k != 0 && k == At(n.zone, dev.blocks, q)
    modifies dev`zmap, dev`blocks, dev`owner
    ensures dev.Valid()
    ensures Extends(old(dev.Trees()), old(dev.blocks), dev.Trees(), dev.blocks, n, {Child(q, j)})
    ensures z == At(n.zone, dev.blocks, Child(q, j))
    ensures At(n.zone, dev.blocks, q) == k
    ensures !create ==> unchanged(dev)
    ensures create && z == 0 ==> dev.Full()
  {
    hide Consistent, Extends;
    HeldInRange(dev.Trees(), dev.blocks, dev.owner, dev.lost, dev.Allocated(), dev.firstDataZone, n, q);
    EntryIsChild(n.zone, dev.blocks, q, j);
    z := Short(dev.blocks[k], j);
    if create && z == 0 {
      z := FillEntry(dev, n, q, k, j);
      EntryIsChild(n.zone, dev.blocks, q, j);
    } else {
      ExtendsReflexive(dev.Trees(), dev.blocks, n, {Child(q, j)});
    }
  }

  lemma ExtendsKeeps(t0: map<Inode, seq<nat>>, b0: seq<Block>, t1: map<Inode, seq<nat>>, b1: seq<Block>,
    n: Inode, gained: set<Path>, q: Path)
    requires Extends(t0, b0, t1, b1, n, gained) && n in t0 && q.Valid()
    requires q !in gained || At(t0[n], b0, q) != 0
    ensures At(t1[n], b1, q) == At(t0[n], b0, q)
  {
  }

  lemma EntryIsChild(zone: seq<nat>, blocks: seq<Block>, q: Path, j: int)
    requires |zone| == 9 && q.Valid() && Index(q) && 0 <= j < 512
    ensures At(zone, blocks, Child(q, j)) == Entry(blocks, At(zone, blocks, q), j)
  {
  }

  ghost function Ancestry(p: Path): set<Path> {
    match p
    case Direct(_) => {p}
    case Ind => {p}
    case IndLeaf(_) => {Ind, p}
    case Dind => {p}
    case DindNode(_) => {Dind, p}
    case DindLeaf(i, _) => {Dind, DindNode(i), p}
  }

  /** The indirect part of `_bmap`. */
  method BmapIndirect(dev: Device, n: Inode, j: int, create: bool) returns (r: nat)
    requires dev.Valid() && n in dev.inodes && 0 <= j < 512
    modifies dev`zmap, dev`blocks, dev`owner, n`zone, n`dirt
    ensures dev.Valid()
    ensures Extends(old(dev.Trees()), old(dev.blocks), dev.Trees(), dev.blocks, n, {Ind, IndLeaf(j)})
    ensures r == if Visible(n.zone, dev.blocks, dev.unreadable, IndLeaf(j))
                 then At(n.zone, dev.blocks, IndLeaf(j)) else 0
    ensures !create ==> unchanged(dev) && unchanged(n)
    ensures create && r == 0 ==>
              dev.Full() || !Visible(n.zone, dev.blocks, dev.unreadable, IndLeaf(j))
    ensures r == 0 ==> At(n.zone, dev.blocks, IndLeaf(j)) == old(At(n.zone, dev.blocks, IndLeaf(j)))
    ensures n.dirt == (old(n.dirt) || n.zone != old(n.zone))
  {
    hide Consistent, Extends;
    ghost var t0, b0 := dev.Trees(), dev.blocks;
    TakeRoot(dev, n, 7, create);
    ghost var t1, b1 := dev.Trees(), dev.blocks;
    ExtendsKeeps(t0, b0, t1, b1, n, {Ind}, IndLeaf(j));
    if n.zone[7] == 0 {
      ExtendsWeaken(t0, b0, t1, b1, n, {Ind}, {Ind, IndLeaf(j)});
      return 0;
    }
    HeldInRange(t1, b1, dev.owner, dev.lost, dev.Allocated(), dev.firstDataZone, n, Ind);
    var bh := dev.Bread(n.zone[7]);
    if bh.None? {
      ExtendsWeaken(t0, b0, t1, b1, n, {Ind}, {Ind, IndLeaf(j)});
      return 0;
    }
    r := TakeEntry(dev, n, Ind, n.zone[7], j, create);
    ExtendsTransitive(t0, b0, t1, b1, dev.Trees(), dev.blocks, n, {Ind}, {IndLeaf(j)});
    assert {Ind} + {IndLeaf(j)} == {Ind, IndLeaf(j)};
    if r == 0 {
      ExtendsKeeps'(t0, b0, dev.Trees(), dev.blocks, n, {Ind, IndLeaf(j)}, IndLeaf(j));
    }
  }

  lemma UnderDind(zone: seq<nat>, blocks: seq<Block>, unreadable: set<nat>, i: int, j: int)
    requires |zone| == 9 && 0 <= i < 512 && 0 <= j < 512
    ensures At(zone, blocks, Dind) == zone[8]
    ensures zone[8] == 0 || At(zone, blocks, DindNode(i)) == 0 ==> At(zone, blocks, DindLeaf(i, j)) == 0
    ensures Visible(zone, blocks, unreadable, DindLeaf(i, j)) <==>
            zone[8] !in unreadable && At(zone, blocks, DindNode(i)) !in unreadable
  {
  }

  /** The double-indirect part of `_bmap`. */
  method BmapDouble(dev: Device, n: Inode, i: int, j: int, create: bool) returns (r: nat)
    requires dev.Valid() && n in dev.inodes && 0 <= i < 512 && 0 <= j < 512
    modifies dev`zmap, dev`blocks, dev`owner, n`zone, n`dirt
    ensures dev.Valid()
    ensures Extends(old(dev.Trees()), old(dev.blocks), dev.Trees(), dev.blocks, n, {Dind, DindNode(i), DindLeaf(i, j)})
    ensures r == if Visible(n.zone, dev.blocks, dev.unreadable, DindLeaf(i, j))
                 then At(n.zone, dev.blocks, DindLeaf(i, j)) else 0
    ensures !create ==> unchanged(dev) && unchanged(n)
    ensures create && r == 0 ==>
              dev.Full() || !Visible(n.zone, dev.blocks, dev.unreadable, DindLeaf(i, j))
    ensures r == 0 ==> At(n.zone, dev.blocks, DindLeaf(i, j)) == old(At(n.zone, dev.blocks, DindLeaf(i, j)))
    ensures n.dirt == (old(n.dirt) || n.zone != old(n.zone))
  {
    hide Consistent, Extends, At, Visible;
    ghost var t0, b0 := dev.Trees(), dev.blocks;
    ghost var leaf, node := DindLeaf(i, j), DindNode(i);
    TakeRoot(dev, n, 8, create);
    ghost var t1, b1 := dev.Trees(), dev.blocks;
    ExtendsKeeps(t0, b0, t1, b1, n, {Dind}, leaf);
    UnderDind(n.zone, b1, dev.unreadable, i, j);
    if n.zone[8] == 0 {
      ExtendsWeaken(t0, b0, t1, b1, n, {Dind}, {Dind, node, leaf});
      return 0;
    }
    HeldInRange(t1, b1, dev.owner, dev.lost, dev.Allocated(), dev.firstDataZone, n, Dind);
    var bh := dev.Bread(n.zone[8]);
    if bh.None? {
      ExtendsWeaken(t0, b0, t1, b1, n, {Dind}, {Dind, node, leaf});
      return 0;
    }
    r := BmapInner(dev, n, i, j, create);
    ExtendsTransitive(t0, b0, t1, b1, dev.Trees(), dev.blocks, n, {Dind}, {node, leaf});
    assert {Dind} + {node, leaf} == {Dind, node, leaf};
  }

  /** The last two levels of the double-indirect part, below a readable block in i_zone[8]. */
  method BmapInner(dev: Device, n: Inode, i: int, j: int, create: bool) returns (r: nat)
    requires dev.Valid() && n in dev.inodes && 0 <= i < 512 && 0 <= j < 512
    requires n.zone[8] != 0 && n.zone[8] !in dev.unreadable
    modifies dev`zmap, dev`blocks, dev`owner
    ensures dev.Valid()
    ensures Extends(old(dev.Trees()), old(dev.blocks), dev.Trees(), dev.blocks, n, {DindNode(i), DindLeaf(i, j)})
    ensures r == if Visible(n.zone, dev.blocks, dev.unreadable, DindLeaf(i, j))
                 then At(n.zone, dev.blocks, DindLeaf(i, j)) else 0
    ensures !create ==> unchanged(dev)
    ensures create && r == 0 ==>
              dev.Full() || !Visible(n.zone, dev.blocks, dev.unreadable, DindLeaf(i, j))
    ensures r == 0 ==> At(n.zone, dev.blocks, DindLeaf(i, j)) == old(At(n.zone, dev.blocks, DindLeaf(i, j)))
  {
    hide Consistent, Extends, At, Visible;
    ghost var t0, b0 := dev.Trees(), dev.blocks;
    ghost var leaf, node := DindLeaf(i, j), DindNode(i);
    UnderDind(n.zone, b0, dev.unreadable, i, j);
    var k := TakeEntry(dev, n, Dind, n.zone[8], i, create);
    ghost var t1, b1 := dev.Trees(), dev.blocks;
    UnderDind(n.zone, b1, dev.unreadable, i, j);
    ExtendsKeeps(t0, b0, t1, b1, n, {node}, leaf);
    ExtendsWeaken(t0, b0, t1, b1, n, {node}, {node, leaf});
    if k == 0 {
      return 0;
    }
    HeldInRange(t1, b1, dev.owner, dev.lost, dev.Allocated(), dev.firstDataZone, n, node);
    var bh := dev.Bread(k);
    if bh.None? {
      return 0;
    }
    r := TakeEntry(dev, n, node, k, j, create);
    UnderDind(n.zone, dev.blocks, dev.unreadable, i, j);
    ExtendsTransitive(t0, b0, t1, b1, dev.Trees(), dev.blocks, n, {node}, {leaf});
    assert {node} + {leaf} == {node, leaf};
    if r == 0 {
      ExtendsKeeps'(t1, b1, dev.Trees(), dev.blocks, n, {leaf}, leaf);
    }
  }

  lemma ExtendsKeeps'(t0: map<Inode, seq<nat>>, b0: seq<Block>, t1: map<Inode, seq<nat>>, b1: seq<Block>,
    n: Inode, gained: set<Path>, q: Path)
    requires Extends(t0, b0, t1, b1, n, gained) && n in t0 && q.Valid()
    requires At(t1[n], b1, q) == 0
    ensures At(t0[n], b0, q) == 0
  {
  }

  /** The zone of logical block `block`, 0 for a hole or on a read error; with `create`, holes
      on the way are filled first. The two range checks of the original panic. */
  method BmapOrCreate(dev: Device, n: Inode, block: int, create: bool) returns (r: nat)
    requires dev.Valid() && n in dev.inodes
    requires 0 <= block < MAX_BLOCKS
    modifies dev`zmap, dev`blocks, dev`owner, n`zone, n`dirt
    ensures dev.Valid()
    ensures Extends(old(dev.Trees()), old(dev.blocks), dev.Trees(), dev.blocks, n, Ancestry(LeafPath(block)))
    ensures r == if Visible(n.zone, dev.blocks, dev.unreadable, LeafPath(block))
                 then At(n.zone, dev.blocks, LeafPath(block)) else 0
    ensures !create ==> unchanged(dev) && unchanged(n)
    ensures create && r == 0 ==>
              dev.Full() || !Visible(n.zone, dev.blocks, dev.unreadable, LeafPath(block))
    ensures r == 0 ==> At(n.zone, dev.blocks, LeafPath(block)) == old(At(n.zone, dev.blocks, LeafPath(block)))
    ensures n.dirt == (old(n.dirt) || n.zone != old(n.zone))
    ensures InWords(n.zone, dev.blocks, dev.unreadable, block, r)
  {
    hide Consistent, Extends;
    if block < 7 {
      TakeRoot(dev, n, block, create);
      TreeInWords(dev, n, 0, 0, 0);
      return n.zone[block];
    }
    var b := block - 7;
    if b < 512 {
      r := BmapIndirect(dev, n, b, create);
      TreeInWords(dev, n, b, 0, 0);
      return;
    }
    b := b - 512;
    r := BmapDouble(dev, n, b / 512, b % 512, create);
    TreeInWords(dev, n, 0, b / 512, b % 512);
  }

  /** Where the zone r of a logical block is found, in the words of i_zone and of the index blocks. */
  ghost predicate InWords(zone: seq<nat>, blocks: seq<Block>, unreadable: set<nat>, block: int, r: nat)
    requires |zone| == 9 && 0 <= block < MAX_BLOCKS
  {
    && zone[7] < |blocks| && zone[8] < |blocks|
    && (block < 7 ==> r == zone[block])
    && (7 <= block < 519 ==> r == if zone[7] == 0 || zone[7] in unreadable then 0 else Short(blocks[zone[7]], block - 7))
    && (block >= 519 && (zone[8] == 0 || zone[8] in unreadable) ==> r == 0)
    && (block >= 519 && zone[8] != 0 && zone[8] !in unreadable ==>
          var k := Short(blocks[zone[8]], (block - 519) / 512);
          k < |blocks| && r == if k == 0 || k in unreadable then 0 else Short(blocks[k], (block - 519) % 512))
  }

  /** What stands where in the tree, in the words of i_zone and of the index blocks. */
  lemma TreeInWords(dev: Device, n: Inode, j: int, i: int, k: int)
    requires dev.Valid() && n in dev.inodes && 0 <= j < 512 && 0 <= i < 512 && 0 <= k < 512
    ensures n.zone[7] < |dev.blocks| && n.zone[8] < |dev.blocks|
    ensures At(n.zone, dev.blocks, IndLeaf(j)) == if n.zone[7] == 0 then 0 else Short(dev.blocks[n.zone[7]], j)
    ensures n.zone[8] == 0 ==> At(n.zone, dev.blocks, DindLeaf(i, k)) == 0
    ensures n.zone[8] != 0 ==>
              var z := Short(dev.blocks[n.zone[8]], i);
              && z == At(n.zone, dev.blocks, DindNode(i)) && z < |dev.blocks|
              && At(n.zone, dev.blocks, DindLeaf(i, k)) == if z == 0 then 0 else Short(dev.blocks[z], k)
  {
    hide Consistent;
    var alloc := dev.Allocated();
    if n.zone[7] != 0 {
      HeldInRange(dev.Trees(), dev.blocks, dev.owner, dev.lost, alloc, dev.firstDataZone, n, Ind);
    }
    if n.zone[8] != 0 {
      HeldInRange(dev.Trees(), dev.blocks, dev.owner, dev.lost, alloc, dev.firstDataZone, n, Dind);
      if At(n.zone, dev.blocks, DindNode(i)) != 0 {
        HeldInRange(dev.Trees(), dev.blocks, dev.owner, dev.lost, alloc, dev.firstDataZone, n, DindNode(i));
      }
    }
  }
}
