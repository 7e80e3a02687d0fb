// The on-disk zone tree of an inode, as values: 512 little-endian shorts per
// index block, seven direct zones, one indirect and one double-indirect zone
// (fs/inode.c, include/linux/fs.h).

module ZoneTree {
  import opened Blocks

  const MAX_BLOCKS := 7 + 512 + 512 * 512

  /** A position in an inode's tree. The leaves hold data, the others index blocks. */
  datatype Path = Direct(d: int) | Ind | IndLeaf(j: int) | Dind | DindNode(i: int) | DindLeaf(i: int, j: int)
  {
    ghost predicate Valid() {
      match this
      case Direct(d) => 0 <= d < 7
      case Ind => true
      case IndLeaf(j) => 0 <= j < 512
      case Dind => true
      case DindNode(i) => 0 <= i < 512
      case DindLeaf(i, j) => 0 <= i < 512 && 0 <= j < 512
    }

    ghost predicate Leaf() { Direct? || IndLeaf? || DindLeaf? }
  }

  /** Where `_bmap` looks for logical block b. */
  ghost function LeafPath(b: int): (p: Path)
    requires 0 <= b < MAX_BLOCKS
    ensures p.Valid() && p.Leaf()
  {
    if b < 7 then Direct(b)
    else if b < 7 + 512 then IndLeaf(b - 7)
    else DindLeaf((b - 519) / 512, (b - 519) % 512)
  }

  lemma LeafPathInjective(b: int, c: int)
    requires 0 <= b < MAX_BLOCKS && 0 <= c < MAX_BLOCKS && LeafPath(b) == LeafPath(c)
    ensures b == c
  {
  }

  ghost function Entry(blocks: seq<Block>, z: nat, j: int): nat
    requires 0 <= j < 512
  {
    if 0 < z < |blocks| then Short(blocks[z], j) else 0
  }

  /** The zone stored at a path, 0 when the path is a hole. */
  ghost function At(zone: seq<nat>, blocks: seq<Block>, p: Path): nat
    requires |zone| == 9 && p.Valid()
  {
    match p
    case Direct(d) => zone[d]
    case Ind => zone[7]
    case IndLeaf(j) => Entry(blocks, zone[7], j)
    case Dind => zone[8]
    case DindNode(i) => Entry(blocks, zone[8], i)
    case DindLeaf(i, j) => Entry(blocks, Entry(blocks, zone[8], i), j)
  }

  /** No index block on the way to p is unreadable. */
  ghost predicate Visible(zone: seq<nat>, blocks: seq<Block>, unreadable: set<nat>, p: Path)
    requires |zone| == 9 && p.Valid()
  {
    match p
    case Direct(_) => true
    case Ind => true
    case IndLeaf(_) => zone[7] !in unreadable
    case Dind => true
    case DindNode(_) => zone[8] !in unreadable
    case DindLeaf(i, _) => zone[8] !in unreadable && Entry(blocks, zone[8], i) !in unreadable
  }

  /** Contents of the logical block at leaf p; holes are zero. */
  ghost function Data(zone: seq<nat>, blocks: seq<Block>, p: Path): Block
    requires |zone| == 9 && p.Valid()
  {
    if At(zone, blocks, p) < |blocks| && At(zone, blocks, p) != 0 then blocks[At(zone, blocks, p)] else ZeroBlock()
  }

  // ----- ownership over a set of trees ---------------------------------

  /** The trees partition the allocated zones: `owner` inverts (tree, path) -> zone
      and `lost` holds allocated zones that no tree reaches. */
  ghost predicate Consistent<I>(trees: map<I, seq<nat>>, blocks: seq<Block>,
    owner: map<nat, (I, Path)>, lost: set<nat>, alloc: set<nat>, first: nat)
  {
    && 0 < first
    && (forall n :: n in trees ==> |trees[n]| == 9)
    && (forall n, p: Path {:trigger At(trees[n], blocks, p)} :: n in trees && p.Valid() ==>
          At(trees[n], blocks, p) == 0 ||
          (At(trees[n], blocks, p) in owner && owner[At(trees[n], blocks, p)] == (n, p)))
    && (forall z :: z in owner ==>
          owner[z].0 in trees && owner[z].1.Valid() && At(trees[owner[z].0], blocks, owner[z].1) == z)
    && alloc == owner.Keys + lost
    && owner.Keys !! lost
    && (forall z :: z in alloc ==> first <= z < |blocks|)
  }

  /** What Consistent means without the inverse map: every allocated zone is either lost or sits at
      exactly one place of exactly one tree, and nothing that a tree mentions is free. */
  lemma TreesPartitionZones<I>(trees: map<I, seq<nat>>, blocks: seq<Block>,
    owner: map<nat, (I, Path)>, lost: set<nat>, alloc: set<nat>, first: nat)
    requires Consistent(trees, blocks, owner, lost, alloc, first)
    ensures forall n, p: Path :: n in trees && p.Valid() && At(trees[n], blocks, p) != 0
                ==> At(trees[n], blocks, p) in alloc - lost && first <= At(trees[n], blocks, p) < |blocks|
    ensures forall n, p: Path, m, q: Path ::
                n in trees && p.Valid() && m in trees && q.Valid() && At(trees[n], blocks, p) != 0 &&
                At(trees[n], blocks, p) == At(trees[m], blocks, q)
                ==> n == m && p == q
    ensures forall z :: z in alloc - lost ==>
                exists n, p: Path :: n in trees && p.Valid() && At(trees[n], blocks, p) == z
  {
    hide At, Consistent;
    NineZones(trees, blocks, owner, lost, alloc, first);
    forall n, p: Path | n in trees && p.Valid() && At(trees[n], blocks, p) != 0
      ensures At(trees[n], blocks, p) in alloc - lost && first <= At(trees[n], blocks, p) < |blocks|
    {
      OwnedPlace(trees, blocks, owner, lost, alloc, first, n, p);
    }
    forall n, p: Path, m, q: Path |
      n in trees && p.Valid() && m in trees && q.Valid() && At(trees[n], blocks, p) != 0 &&
      At(trees[n], blocks, p) == At(trees[m], blocks, q)
      ensures n == m && p == q
    {
      OwnedPlace(trees, blocks, owner, lost, alloc, first, n, p);
      OwnedPlace(trees, blocks, owner, lost, alloc, first, m, q);
    }
    forall z | z in alloc - lost
      ensures exists n, p: Path :: n in trees && p.Valid() && At(trees[n], blocks, p) == z
    {
      OwnerPlace(trees, blocks, owner, lost, alloc, first, z);
    }
  }

  lemma NineZones<I>(trees: map<I, seq<nat>>, blocks: seq<Block>,
    owner: map<nat, (I, Path)>, lost: set<nat>, alloc: set<nat>, first: nat)
    requires Consistent(trees, blocks, owner, lost, alloc, first)
    ensures forall n :: n in trees ==> |trees[n]| == 9
  {
  }

  lemma OwnedPlace<I>(trees: map<I, seq<nat>>, blocks: seq<Block>,
    owner: map<nat, (I, Path)>, lost: set<nat>, alloc: set<nat>, first: nat, n: I, p: Path)
    requires Consistent(trees, blocks, owner, lost, alloc, first)
    requires n in trees && p.Valid() && |trees[n]| == 9 && At(trees[n], blocks, p) != 0
    ensures var z := At(trees[n], blocks, p); z in alloc - lost && z in owner && owner[z] == (n, p) && first <= z < |blocks|
  {
    hide At;
  }

  lemma OwnerPlace<I>(trees: map<I, seq<nat>>, blocks: seq<Block>,
    owner: map<nat, (I, Path)>, lost: set<nat>, alloc: set<nat>, first: nat, z: nat)
    requires Consistent(trees, blocks, owner, lost, alloc, first)
    requires z in alloc - lost
    ensures z in owner && owner[z].0 in trees && owner[z].1.Valid() && |trees[owner[z].0]| == 9
    ensures At(trees[owner[z].0], blocks, owner[z].1) == z
  {
    hide At;
  }

  /** Nothing in the tree is at zone z. */
  ghost predicate Avoids(zone: seq<nat>, blocks: seq<Block>, z: nat)
    requires |zone| == 9
  {
    forall p: Path :: p.Valid() ==> At(zone, blocks, p) != z
  }

  /** A tree does not notice changes to blocks it does not hold. */
  lemma AtFrame(zone: seq<nat>, blocks: seq<Block>, blocks': seq<Block>)
    requires |zone| == 9 && |blocks'| == |blocks|
    requires forall p: Path :: p.Valid() && !p.Leaf() && 0 < At(zone, blocks, p) < |blocks| ==>
                 blocks'[At(zone, blocks, p)] == blocks[At(zone, blocks, p)]
    ensures forall p: Path :: p.Valid() ==> At(zone, blocks', p) == At(zone, blocks, p)
  {
    forall p: Path | p.Valid()
      ensures At(zone, blocks', p) == At(zone, blocks, p)
    {
      assert At(zone, blocks, Ind) == zone[7];
      assert At(zone, blocks, Dind) == zone[8];
      if p.DindLeaf? {
        assert At(zone, blocks, DindNode(p.i)) == Entry(blocks, zone[8], p.i);
      }
    }
  }

  /** Position i of i_zone. */
  ghost function RootPath(i: int): Path
    requires 0 <= i < 9
  {
    if i < 7 then Direct(i) else if i == 7 then Ind else Dind
  }

  /** Hanging the fresh zero-filled zone z on i_zone[i] changes that path and no other. */
  lemma LinkRoot(zone: seq<nat>, blocks: seq<Block>, i: int, z: nat)
    requires |zone| == 9 && 0 <= i < 9 && zone[i] == 0 && 0 < z < |blocks|
    requires Avoids(zone, blocks, z)
    ensures forall p: Path :: p.Valid() ==>
                At(zone[i := z], blocks[z := ZeroBlock()], p) == if p == RootPath(i) then z else At(zone, blocks, p)
  {
    var blocks' := blocks[z := ZeroBlock()];
    AvoidsFrame(zone, blocks, z, ZeroBlock());
    forall p: Path | p.Valid()
      ensures At(zone[i := z], blocks', p) == if p == RootPath(i) then z else At(zone, blocks, p)
    {
      assert At(zone, blocks', p) == At(zone, blocks, p);
    }
  }

  lemma AvoidsFrame(zone: seq<nat>, blocks: seq<Block>, z: nat, b: Block)
    requires |zone| == 9 && 0 < z < |blocks|
    requires Avoids(zone, blocks, z)
    ensures forall p: Path :: p.Valid() ==> At(zone, blocks[z := b], p) == At(zone, blocks, p)
  {
    AtFrame(zone, blocks, blocks[z := b]);
  }

  ghost predicate Index(p: Path) { p.Ind? || p.Dind? || p.DindNode? }

  ghost function Child(p: Path, j: int): Path
    requires Index(p)
  {
    match p
    case Ind => IndLeaf(j)
    case Dind => DindNode(j)
    case DindNode(i) => DindLeaf(i, j)
  }

  /** Storing the fresh zone z in empty entry j of the index block k at path q changes the child path and no other. */
  lemma LinkEntry(zone: seq<nat>, blocks: seq<Block>, q: Path, j: int, z: nat)
    requires |zone| == 9 && q.Valid() && Index(q) && 0 <= j < 512 && 0 < z < |blocks| && z < 65536
    requires Avoids(zone, blocks, z)
    requires 0 < At(zone, blocks, q) < |blocks|
    requires forall p: Path :: p.Valid() && At(zone, blocks, p) == At(zone, blocks, q) ==> p == q
    requires At(zone, blocks, Child(q, j)) == 0
    ensures var k := At(zone, blocks, q);
            forall p: Path :: p.Valid() ==>
                At(zone, blocks[z := ZeroBlock()][k := PutShort(blocks[k], j, z)], p)
                == if p == Child(q, j) then z else At(zone, blocks, p)
  {
    var k := At(zone, blocks, q);
    var blocks1 := blocks[z := ZeroBlock()];
    AvoidsFrame(zone, blocks, z, ZeroBlock());
    var blocks2 := blocks1[k := PutShort(blocks[k], j, z)];
    assert k != z;
    forall p: Path | p.Valid()
      ensures At(zone, blocks2, p) == if p == Child(q, j) then z else At(zone, blocks, p)
    {
      assert At(zone, blocks1, p) == At(zone, blocks, p);
      assert At(zone, blocks, Ind) == zone[7] && At(zone, blocks, Dind) == zone[8];
      if p.DindLeaf? {
        var node := DindNode(p.i);
        assert node.Valid();
        assert At(zone, blocks1, node) == At(zone, blocks, node);
        assert At(zone, blocks2, node) == if node == Child(q, j) then z else At(zone, blocks, node);
      }
    }
  }

  // ----- growing a tree ------------------------------------------------

  /** Only the paths `gained` of tree n may have gained a zone; no zone moved and
      every logical block of every tree reads as before. */
  ghost predicate Extends<I>(trees: map<I, seq<nat>>, blocks: seq<Block>,
    trees': map<I, seq<nat>>, blocks': seq<Block>, n: I, gained: set<Path>)
  {
    && trees'.Keys == trees.Keys
    && |blocks'| == |blocks|
    && (forall m :: m in trees ==> |trees[m]| == 9 && |trees'[m]| == 9)
    && (forall m, q: Path :: m in trees && q.Valid() ==>
          At(trees'[m], blocks', q) == At(trees[m], blocks, q) ||
          (m == n && q in gained && At(trees[m], blocks, q) == 0))
    && (forall m, q: Path :: m in trees && q.Valid() && q.Leaf() ==>
          Data(trees'[m], blocks', q) == Data(trees[m], blocks, q))
  }

  lemma ExtendsTransitive<I>(t0: map<I, seq<nat>>, b0: seq<Block>, t1: map<I, seq<nat>>, b1: seq<Block>,
    t2: map<I, seq<nat>>, b2: seq<Block>, n: I, f: set<Path>, g: set<Path>)
    requires Extends(t0, b0, t1, b1, n, f) && Extends(t1, b1, t2, b2, n, g)
    ensures Extends(t0, b0, t2, b2, n, f + g)
  {
    hide At;
    forall m, q: Path | m in t0 && q.Valid()
      ensures At(t2[m], b2, q) == At(t0[m], b0, q) || (m == n && q in f + g && At(t0[m], b0, q) == 0)
    {
      assert At(t1[m], b1, q) == At(t0[m], b0, q) || (m == n && q in f && At(t0[m], b0, q) == 0);
    }
    forall m, q: Path | m in t0 && q.Valid() && q.Leaf()
      ensures Data(t2[m], b2, q) == Data(t0[m], b0, q)
    {
      assert Data(t1[m], b1, q) == Data(t0[m], b0, q);
    }
  }

  lemma FreeZoneAvoided<I>(trees: map<I, seq<nat>>, blocks: seq<Block>,
    owner: map<nat, (I, Path)>, lost: set<nat>, alloc: set<nat>, first: nat, z: nat)
    requires Consistent(trees, blocks, owner, lost, alloc, first)
    requires 0 < z && z !in alloc
    ensures forall m :: m in trees ==> Avoids(trees[m], blocks, z)
  {
  }

  lemma HeldOnce<I>(trees: map<I, seq<nat>>, blocks: seq<Block>,
    owner: map<nat, (I, Path)>, lost: set<nat>, alloc: set<nat>, first: nat, n: I, q: Path)
    requires Consistent(trees, blocks, owner, lost, alloc, first)
    requires n in trees && q.Valid() && At(trees[n], blocks, q) != 0
    ensures At(trees[n], blocks, q) in owner && owner[At(trees[n], blocks, q)] == (n, q)
    ensures first <= At(trees[n], blocks, q) < |blocks| && At(trees[n], blocks, q) in alloc
    ensures forall m, p: Path :: m in trees && p.Valid() && At(trees[m], blocks, p) == At(trees[n], blocks, q)
                ==> m == n && p == q
  {
    hide At;
    var k := At(trees[n], blocks, q);
    forall m, p: Path | m in trees && p.Valid() && At(trees[m], blocks, p) == k
      ensures m == n && p == q
    {
      assert owner[At(trees[m], blocks, p)] == (m, p);
    }
  }

  lemma HeldInRange<I>(trees: map<I, seq<nat>>, blocks: seq<Block>,
    owner: map<nat, (I, Path)>, lost: set<nat>, alloc: set<nat>, first: nat, n: I, q: Path)
    requires Consistent(trees, blocks, owner, lost, alloc, first)
    requires n in trees && q.Valid() && At(trees[n], blocks, q) != 0
    ensures first <= At(trees[n], blocks, q) < |blocks| && At(trees[n], blocks, q) in alloc
  {
  }

  lemma ExtendsReflexive<I>(trees: map<I, seq<nat>>, blocks: seq<Block>, n: I, gained: set<Path>)
    requires forall m :: m in trees ==> |trees[m]| == 9
    ensures Extends(trees, blocks, trees, blocks, n, gained)
  {
  }

  lemma ExtendsWeaken<I>(t0: map<I, seq<nat>>, b0: seq<Block>, t1: map<I, seq<nat>>, b1: seq<Block>,
    n: I, f: set<Path>, g: set<Path>)
    requires Extends(t0, b0, t1, b1, n, f) && f <= g
    ensures Extends(t0, b0, t1, b1, n, g)
  {
  }

  lemma RootLinked<I>(trees: map<I, seq<nat>>, blocks: seq<Block>,
    owner: map<nat, (I, Path)>, lost: set<nat>, alloc: set<nat>, first: nat, n: I, i: int, z: nat, zone': seq<nat>)
    requires Consistent(trees, blocks, owner, lost, alloc, first)
    requires first <= z < |blocks| && z !in alloc
    requires n in trees && 0 <= i < 9 && trees[n][i] == 0 && zone' == trees[n][i := z]
    ensures var trees', blocks' := trees[n := zone'], blocks[z := ZeroBlock()];
            && Consistent(trees', blocks', owner[z := (n, RootPath(i))], lost, alloc + {z}, first)
            && Extends(trees, blocks, trees', blocks', n, {RootPath(i)})
  {
    var trees', blocks' := trees[n := zone'], blocks[z := ZeroBlock()];
    FreeZoneAvoided(trees, blocks, owner, lost, alloc, first, z);
    LinkRoot(trees[n], blocks, i, z);
    forall m | m in trees && m != n
      ensures forall p: Path :: p.Valid() ==> At(trees'[m], blocks', p) == At(trees[m], blocks, p)
    {
      AvoidsFrame(trees[m], blocks, z, ZeroBlock());
    }
    FilledConsistent(trees, blocks, owner, lost, alloc, first, trees', blocks', n, RootPath(i), z);
    FilledExtends(trees, blocks, owner, lost, alloc, first, trees', blocks', n, RootPath(i), z);
  }

  lemma EntryLinked<I>(trees: map<I, seq<nat>>, blocks: seq<Block>,
    owner: map<nat, (I, Path)>, lost: set<nat>, alloc: set<nat>, first: nat, n: I, q: Path, j: int, z: nat)
    requires Consistent(trees, blocks, owner, lost, alloc, first)
    requires first <= z < |blocks| && z < 65536 && z !in alloc
    requires n in trees && q.Valid() && Index(q) && 0 <= j < 512
    requires At(trees[n], blocks, q) != 0 && At(trees[n], blocks, Child(q, j)) == 0
    ensures At(trees[n], blocks, q) < |blocks|
    ensures var k := At(trees[n], blocks, q);
            var blocks' := blocks[z := ZeroBlock()][k := PutShort(blocks[k], j, z)];
            && Consistent(trees, blocks', owner[z := (n, Child(q, j))], lost, alloc + {z}, first)
            && Extends(trees, blocks, trees, blocks', n, {Child(q, j)})
  {
    var k := At(trees[n], blocks, q);
    HeldOnce(trees, blocks, owner, lost, alloc, first, n, q);
    var blocks' := blocks[z := ZeroBlock()][k := PutShort(blocks[k], j, z)];
    FreeZoneAvoided(trees, blocks, owner, lost, alloc, first, z);
    LinkEntry(trees[n], blocks, q, j, z);
    forall m | m in trees && m != n
      ensures forall p: Path :: p.Valid() ==> At(trees[m], blocks', p) == At(trees[m], blocks, p)
    {
      assert Avoids(trees[m], blocks, z);
      assert Avoids(trees[m], blocks, k);
      AtFrame(trees[m], blocks, blocks');
    }
    hide PutShort, ZeroBlock;
    FilledConsistent(trees, blocks, owner, lost, alloc, first, trees, blocks', n, Child(q, j), z);
    FilledExtends(trees, blocks, owner, lost, alloc, first, trees, blocks', n, Child(q, j), z);
  }

  /** If exactly the hole (n, p) was filled with the fresh zone z and only index blocks besides z changed, the
      forest stays consistent and every logical block keeps its contents. */
  ghost predicate FilledOne<I>(trees: map<I, seq<nat>>, blocks: seq<Block>, owner: map<nat, (I, Path)>,
    trees': map<I, seq<nat>>, blocks': seq<Block>, n: I, p: Path, z: nat)
  {
    && 0 < z < |blocks| == |blocks'| && blocks'[z] == ZeroBlock()
    && n in trees && p.Valid()
    && trees'.Keys == trees.Keys
    && (forall m :: m in trees ==> |trees[m]| == 9 && |trees'[m]| == 9)
    && At(trees[n], blocks, p) == 0
    && (forall m, q: Path :: m in trees && q.Valid() ==>
          At(trees'[m], blocks', q) == if m == n && q == p then z else At(trees[m], blocks, q))
    && (forall y :: 0 <= y < |blocks| && y != z && blocks'[y] != blocks[y] ==> y in owner && !owner[y].1.Leaf())
  }

  lemma FilledConsistent<I>(trees: map<I, seq<nat>>, blocks: seq<Block>,
    owner: map<nat, (I, Path)>, lost: set<nat>, alloc: set<nat>, first: nat,
    trees': map<I, seq<nat>>, blocks': seq<Block>, n: I, p: Path, z: nat)
    requires Consistent(trees, blocks, owner, lost, alloc, first)
    requires first <= z && z !in alloc
    requires FilledOne(trees, blocks, owner, trees', blocks', n, p, z)
    ensures Consistent(trees', blocks', owner[z := (n, p)], lost, alloc + {z}, first)
  {
    hide At;
    var owner' := owner[z := (n, p)];
    assert owner'.Keys == owner.Keys + {z};
    forall m, q: Path | m in trees' && q.Valid() && At(trees'[m], blocks', q) != 0
      ensures At(trees'[m], blocks', q) in owner' && owner'[At(trees'[m], blocks', q)] == (m, q)
    {
      if m == n && q == p {
      } else {
        assert At(trees'[m], blocks', q) == At(trees[m], blocks, q);
      }
    }
  }

  lemma FilledExtends<I>(trees: map<I, seq<nat>>, blocks: seq<Block>,
    owner: map<nat, (I, Path)>, lost: set<nat>, alloc: set<nat>, first: nat,
    trees': map<I, seq<nat>>, blocks': seq<Block>, n: I, p: Path, z: nat)
    requires Consistent(trees, blocks, owner, lost, alloc, first)
    requires first <= z && z !in alloc
    requires FilledOne(trees, blocks, owner, trees', blocks', n, p, z)
    ensures Extends(trees, blocks, trees', blocks', n, {p})
  {
    hide At;
    forall m, q: Path | m in trees && q.Valid() && q.Leaf()
      ensures Data(trees'[m], blocks', q) == Data(trees[m], blocks, q)
    {
      var y := At(trees[m], blocks, q);
      assert y == 0 || owner[y] == (m, q);
    }
  }
}
