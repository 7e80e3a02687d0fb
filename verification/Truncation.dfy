// Freeing a whole zone tree (fs/truncate.c).

module Truncation {
  import opened Blocks
  import opened ZoneTree
  import opened Devices

  /** The zones named by the first m entries of an index block. */
  ghost function Entries(b: Block, m: int): set<nat>
    requires 0 <= m <= 512
  {
    set j | 0 <= j < m && Short(b, j) != 0 :: Short(b, j)
  }

  ghost predicate EntriesDistinct(b: Block) {
    forall i, j :: 0 <= i < j < 512 && Short(b, i) != 0 ==> Short(b, i) != Short(b, j)
  }

  /** What free_ind frees: the index block, and its entries if it can be read. */
  ghost function IndSet(blocks: seq<Block>, unreadable: set<nat>, z: nat): set<nat> {
    if z == 0 then {}
    else if z in unreadable || z >= |blocks| then {z}
    else {z} + Entries(blocks[z], 512)
  }

  ghost predicate IndOk(blocks: seq<Block>, z: nat) {
    0 < z < |blocks| ==> EntriesDistinct(blocks[z]) && z !in Entries(blocks[z], 512)
  }

  ghost function IndSets(blocks: seq<Block>, unreadable: set<nat>, b: Block, m: int): set<nat>
    requires 0 <= m <= 512
  {
    if m == 0 then {} else IndSets(blocks, unreadable, b, m - 1) + IndSet(blocks, unreadable, Short(b, m - 1))
  }

  /** What free_dind frees. */
  ghost function DindSet(blocks: seq<Block>, unreadable: set<nat>, z: nat): set<nat> {
    if z == 0 then {}
    else if z in unreadable || z >= |blocks| then {z}
    else {z} + IndSets(blocks, unreadable, blocks[z], 512)
  }

  ghost predicate DindOk(blocks: seq<Block>, unreadable: set<nat>, z: nat) {
    0 < z < |blocks| && z !in unreadable ==>
      && z !in IndSets(blocks, unreadable, blocks[z], 512)
      && (forall i :: 0 <= i < 512 ==> IndOk(blocks, Short(blocks[z], i)))
      && (forall i :: 0 <= i < 512 ==>
            IndSets(blocks, unreadable, blocks[z], i) !! IndSet(blocks, unreadable, Short(blocks[z], i)))
  }

  method FreeInd(dev: Device, block: nat)
    requires dev.MapOk() && IndSet(dev.blocks, dev.unreadable, block) <= dev.Allocated()
    requires IndOk(dev.blocks, block)
    modifies dev`zmap, dev`blocks
    ensures dev.MapOk()
    ensures dev.Allocated() == old(dev.Allocated()) - (IndSet(old(dev.blocks), dev.unreadable, block) - dev.held)
    ensures forall y :: 0 <= y < dev.nzones && y !in IndSet(old(dev.blocks), dev.unreadable, block)
              ==> dev.blocks[y] == old(dev.blocks[y])
  {
    if block == 0 {
      return;
    }
    ghost var alloc := dev.Allocated();
    assert block in IndSet(dev.blocks, dev.unreadable, block);
    var bh := dev.Bread(block);
    if bh.Some? {
      var p := bh.value;
      for i := 0 to 512
        invariant dev.MapOk()
        invariant dev.Allocated() == alloc - (Entries(p, i) - dev.held)
        invariant forall y :: 0 <= y < dev.nzones && y !in Entries(p, i) ==> dev.blocks[y] == old(dev.blocks[y])
      {
        if Short(p, i) != 0 {
          assert Short(p, i) in Entries(p, 512);
          assert Short(p, i) !in Entries(p, i);
          assert Short(p, i) in dev.Allocated();
          dev.FreeBlock(Short(p, i));
        }
        assert Entries(p, i + 1) == Entries(p, i) + if Short(p, i) != 0 then {Short(p, i)} else {};
      }
    }
    assert block in dev.Allocated();
    dev.FreeBlock(block);
  }

  /** Freeing zones elsewhere does not change what free_ind will free below c. */
  lemma IndSetFrame(b0: seq<Block>, b1: seq<Block>, unreadable: set<nat>, c: nat, gone: set<nat>)
    requires |b1| == |b0| && forall y :: 0 <= y < |b0| && y !in gone ==> b1[y] == b0[y]
    requires IndSet(b0, unreadable, c) !! gone && IndOk(b0, c)
    ensures IndSet(b1, unreadable, c) == IndSet(b0, unreadable, c) && IndOk(b1, c)
  {
    assert c != 0 ==> c in IndSet(b0, unreadable, c);
  }

  method FreeDind(dev: Device, block: nat)
    requires dev.MapOk() && DindSet(dev.blocks, dev.unreadable, block) <= dev.Allocated()
    requires DindOk(dev.blocks, dev.unreadable, block)
    modifies dev`zmap, dev`blocks
    ensures dev.MapOk()
    ensures dev.Allocated() == old(dev.Allocated()) - (DindSet(old(dev.blocks), dev.unreadable, block) - dev.held)
    ensures forall y :: 0 <= y < dev.nzones && y !in DindSet(old(dev.blocks), dev.unreadable, block)
              ==> dev.blocks[y] == old(dev.blocks[y])
  {
    hide IndSet, IndOk, DindOk, Entries, EntriesDistinct;
    if block == 0 {
      return;
    }
    ghost var alloc, b0, u := dev.Allocated(), dev.blocks, dev.unreadable;
    assert block in DindSet(b0, u, block);
    var bh := dev.Bread(block);
    if bh.Some? {
      var p := bh.value;
      for i := 0 to 512
        invariant dev.MapOk()
        invariant dev.Allocated() == alloc - (IndSets(b0, u, p, i) - dev.held)
        invariant forall y :: 0 <= y < dev.nzones && y !in IndSets(b0, u, p, i) ==> dev.blocks[y] == b0[y]
      {
        var c := Short(p, i);
        if c != 0 {
          IndSetsGrow(b0, u, p, i + 1, 512);
          DindOkAt(b0, u, block, i);
          IndSetFrame(b0, dev.blocks, u, c, IndSets(b0, u, p, i));
          FreeInd(dev, c);
        } else {
          assert IndSet(b0, u, c) == {} by { NoZoneNoSet(b0, u); }
        }
      }
    }
    assert block in dev.Allocated() by { DindOkAt(b0, u, block, 0); }
    dev.FreeBlock(block);
  }

  lemma DindOkAt(blocks: seq<Block>, unreadable: set<nat>, z: nat, i: int)
    requires DindOk(blocks, unreadable, z) && 0 <= i < 512
    ensures 0 < z < |blocks| && z !in unreadable ==>
      && z !in IndSets(blocks, unreadable, blocks[z], 512)
      && IndOk(blocks, Short(blocks[z], i))
      && IndSets(blocks, unreadable, blocks[z], i) !! IndSet(blocks, unreadable, Short(blocks[z], i))
  {
  }

  lemma NoZoneNoSet(blocks: seq<Block>, unreadable: set<nat>)
    ensures IndSet(blocks, unreadable, 0) == {}
  {
  }

  lemma IndSetsGrow(blocks: seq<Block>, unreadable: set<nat>, b: Block, m: int, k: int)
    requires 0 <= m <= k <= 512
    ensures IndSets(blocks, unreadable, b, m) <= IndSets(blocks, unreadable, b, k)
    decreases k
  {
    if m < k {
      IndSetsGrow(blocks, unreadable, b, m, k - 1);
    }
  }

  // ----- the freed sets are the visible part of one tree ---------------

  /** The zones of tree n that can be reached through readable index blocks. */
  ghost function VisibleZones<I>(trees: map<I, seq<nat>>, blocks: seq<Block>, owner: map<nat, (I, Path)>,
    unreadable: set<nat>, n: I): set<nat>
    requires n in trees && |trees[n]| == 9
  {
    set z | z in owner && owner[z].0 == n && owner[z].1.Valid() &&
            Visible(trees[n], blocks, unreadable, owner[z].1)
  }

  ghost function ZonesOf<I>(owner: map<nat, (I, Path)>, n: I): set<nat> {
    set z | z in owner && owner[z].0 == n
  }

  /** free_ind at path q frees q's zone and, if readable, the zones right below it. */
  lemma IndSetMembers<I>(trees: map<I, seq<nat>>, blocks: seq<Block>, owner: map<nat, (I, Path)>,
    lost: set<nat>, alloc: set<nat>, first: nat, unreadable: set<nat>, n: I, q: Path)
    requires Consistent(trees, blocks, owner, lost, alloc, first)
    requires n in trees && q.Valid() && (q.Ind? || q.DindNode?)
    ensures forall y :: y in IndSet(blocks, unreadable, At(trees[n], blocks, q)) <==>
              y in owner && owner[y].0 == n &&
              (owner[y].1 == q ||
               (At(trees[n], blocks, q) !in unreadable && exists j :: 0 <= j < 512 && owner[y].1 == Child(q, j)))
    ensures IndOk(blocks, At(trees[n], blocks, q))
  {
    var k := At(trees[n], blocks, q);
    if k != 0 {
      HeldOnce(trees, blocks, owner, lost, alloc, first, n, q);
      forall j | 0 <= j < 512
        ensures Short(blocks[k], j) == At(trees[n], blocks, Child(q, j))
        ensures Short(blocks[k], j) != 0 ==> Short(blocks[k], j) in owner && owner[Short(blocks[k], j)] == (n, Child(q, j))
      {
      }
      forall y | y in owner && owner[y].0 == n && k !in unreadable && exists j :: 0 <= j < 512 && owner[y].1 == Child(q, j)
        ensures y in IndSet(blocks, unreadable, k)
      {
        var j :| 0 <= j < 512 && owner[y].1 == Child(q, j);
        assert At(trees[n], blocks, Child(q, j)) == y;
        assert y != 0 by { assert y in alloc; }
        assert y in Entries(blocks[k], 512);
      }
    } else {
      forall y | y in owner && owner[y].0 == n && exists j :: 0 <= j < 512 && owner[y].1 == Child(q, j)
        ensures false
      {
      }
      forall y | y in owner && owner[y].0 == n && owner[y].1 == q
        ensures false
      {
      }
    }
  }

  ghost predicate UnderNode(p: Path, i: int) {
    (p.DindNode? || p.DindLeaf?) && p.i == i
  }

  /** The first m steps of free_dind's loop free what hangs below the first m entries. */
  lemma IndSetsMembers<I>(trees: map<I, seq<nat>>, blocks: seq<Block>, owner: map<nat, (I, Path)>,
    lost: set<nat>, alloc: set<nat>, first: nat, unreadable: set<nat>, n: I, m: int)
    requires Consistent(trees, blocks, owner, lost, alloc, first)
    requires n in trees && 0 <= m <= 512
    requires 0 < trees[n][8] < |blocks| && trees[n][8] !in unreadable
    ensures forall y :: y in IndSets(blocks, unreadable, blocks[trees[n][8]], m) <==>
              y in owner && y in VisibleZones(trees, blocks, owner, unreadable, n) &&
              (owner[y].1.DindNode? || owner[y].1.DindLeaf?) && 0 <= owner[y].1.i < m
    ensures forall i :: 0 <= i < m ==>
              && IndOk(blocks, Short(blocks[trees[n][8]], i))
              && IndSets(blocks, unreadable, blocks[trees[n][8]], i) !! IndSet(blocks, unreadable, Short(blocks[trees[n][8]], i))
    decreases m
  {
    hide IndSet, IndOk, Consistent, VisibleZones;
    if m > 0 {
      IndSetsMembers(trees, blocks, owner, lost, alloc, first, unreadable, n, m - 1);
      NodeMembers(trees, blocks, owner, lost, alloc, first, unreadable, n, m - 1);
    }
  }

  lemma NodeMembers<I>(trees: map<I, seq<nat>>, blocks: seq<Block>, owner: map<nat, (I, Path)>,
    lost: set<nat>, alloc: set<nat>, first: nat, unreadable: set<nat>, n: I, i: int)
    requires Consistent(trees, blocks, owner, lost, alloc, first)
    requires n in trees && 0 <= i < 512
    requires 0 < trees[n][8] < |blocks| && trees[n][8] !in unreadable
    ensures forall y :: y in IndSet(blocks, unreadable, Short(blocks[trees[n][8]], i)) <==>
              y in owner && y in VisibleZones(trees, blocks, owner, unreadable, n) && UnderNode(owner[y].1, i)
    ensures IndOk(blocks, Short(blocks[trees[n][8]], i))
  {
    var q := DindNode(i);
    IndSetMembers(trees, blocks, owner, lost, alloc, first, unreadable, n, q);
    assert At(trees[n], blocks, q) == Short(blocks[trees[n][8]], i);
    forall y | y in owner && owner[y].0 == n && UnderNode(owner[y].1, i)
      ensures y in VisibleZones(trees, blocks, owner, unreadable, n) <==>
              owner[y].1 == q || (At(trees[n], blocks, q) !in unreadable && exists j :: 0 <= j < 512 && owner[y].1 == Child(q, j))
    {
      assert owner[y].1.Valid();
      if owner[y].1.DindLeaf? {
        assert owner[y].1 == Child(q, owner[y].1.j);
      }
    }
  }

  /** The direct zones in the first m slots. */
  ghost function DirectZones(zone: seq<nat>, m: int): set<nat>
    requires |zone| == 9 && 0 <= m <= 7
  {
    set d | 0 <= d < m && zone[d] != 0 :: zone[d]
  }

  lemma DirectMembers<I>(trees: map<I, seq<nat>>, blocks: seq<Block>, owner: map<nat, (I, Path)>,
    lost: set<nat>, alloc: set<nat>, first: nat, n: I)
    requires Consistent(trees, blocks, owner, lost, alloc, first)
    requires n in trees
    ensures forall y :: y in DirectZones(trees[n], 7) <==> y in owner && owner[y].0 == n && owner[y].1.Direct?
    ensures forall d, e :: 0 <= d < e < 7 && trees[n][d] != 0 ==> trees[n][d] != trees[n][e]
  {
    forall d | 0 <= d < 7 && trees[n][d] != 0
      ensures trees[n][d] in owner && owner[trees[n][d]] == (n, Direct(d))
    {
      assert At(trees[n], blocks, Direct(d)) == trees[n][d];
    }
    forall y | y in owner && owner[y].0 == n && owner[y].1.Direct?
      ensures y in DirectZones(trees[n], 7)
    {
      assert y in alloc;
      assert At(trees[n], blocks, owner[y].1) == y;
    }
  }

  lemma DindMembers<I>(trees: map<I, seq<nat>>, blocks: seq<Block>, owner: map<nat, (I, Path)>,
    lost: set<nat>, alloc: set<nat>, first: nat, unreadable: set<nat>, n: I)
    requires Consistent(trees, blocks, owner, lost, alloc, first)
    requires n in trees
    ensures forall y :: y in DindSet(blocks, unreadable, trees[n][8]) <==>
              y in owner && y in VisibleZones(trees, blocks, owner, unreadable, n) &&
              (owner[y].1.Dind? || owner[y].1.DindNode? || owner[y].1.DindLeaf?)
    ensures DindOk(blocks, unreadable, trees[n][8])
  {
    hide IndSet, IndOk, IndSets;
    if trees[n][8] != 0 {
      DindThere(trees, blocks, owner, lost, alloc, first, unreadable, n);
    } else {
      DindNotThere(trees, blocks, owner, lost, alloc, first, n);
    }
  }

  ghost predicate InDind(p: Path) { p.Dind? || p.DindNode? || p.DindLeaf? }

  lemma DindNotThere<I>(trees: map<I, seq<nat>>, blocks: seq<Block>, owner: map<nat, (I, Path)>,
    lost: set<nat>, alloc: set<nat>, first: nat, n: I)
    requires Consistent(trees, blocks, owner, lost, alloc, first)
    requires n in trees && trees[n][8] == 0
    ensures forall y :: y in owner && owner[y].0 == n ==> !InDind(owner[y].1)
  {
    forall y | y in owner && owner[y].0 == n && InDind(owner[y].1)
      ensures false
    {
    }
  }

  lemma DindThere<I>(trees: map<I, seq<nat>>, blocks: seq<Block>, owner: map<nat, (I, Path)>,
    lost: set<nat>, alloc: set<nat>, first: nat, unreadable: set<nat>, n: I)
    requires Consistent(trees, blocks, owner, lost, alloc, first)
    requires n in trees && trees[n][8] != 0
    ensures forall y :: y in DindSet(blocks, unreadable, trees[n][8]) <==>
              y in owner && y in VisibleZones(trees, blocks, owner, unreadable, n) && InDind(owner[y].1)
    ensures DindOk(blocks, unreadable, trees[n][8])
  {
    hide IndSet, IndOk, IndSets;
    var k := trees[n][8];
    assert At(trees[n], blocks, Dind) == k;
    HeldOnce(trees, blocks, owner, lost, alloc, first, n, Dind);
    assert k in VisibleZones(trees, blocks, owner, unreadable, n);
    forall y | y in owner && owner[y].0 == n && owner[y].1.Dind?
      ensures y == k
    {
      assert At(trees[n], blocks, owner[y].1) == y;
    }
    if k !in unreadable {
      IndSetsMembers(trees, blocks, owner, lost, alloc, first, unreadable, n, 512);
      hide Consistent;
      assert owner[k].1.Dind?;
    }
  }

  /** truncate's three parts free pairwise disjoint sets, together the visible zones of the tree. */
  lemma PartsOfTree<I>(trees: map<I, seq<nat>>, blocks: seq<Block>, owner: map<nat, (I, Path)>,
    lost: set<nat>, alloc: set<nat>, first: nat, unreadable: set<nat>, n: I)
    requires Consistent(trees, blocks, owner, lost, alloc, first)
    requires n in trees
    ensures var d, i, k := DirectZones(trees[n], 7), IndSet(blocks, unreadable, trees[n][7]), DindSet(blocks, unreadable, trees[n][8]);
            d !! i && d !! k && i !! k && VisibleZones(trees, blocks, owner, unreadable, n) == d + i + k
    ensures VisibleZones(trees, blocks, owner, unreadable, n) <= alloc
  {
    hide DindSet, IndSet, DirectZones, IndOk, DindOk;
    DirectMembers(trees, blocks, owner, lost, alloc, first, n);
    IndSetMembers(trees, blocks, owner, lost, alloc, first, unreadable, n, Ind);
    DindMembers(trees, blocks, owner, lost, alloc, first, unreadable, n);
    assert At(trees[n], blocks, Ind) == trees[n][7];
    forall y | y in owner && owner[y].0 == n && owner[y].1.IndLeaf?
      ensures exists j :: 0 <= j < 512 && owner[y].1 == Child(Ind, j)
    {
      assert owner[y].1 == Child(Ind, owner[y].1.j);
    }
  }

  /** No other tree lost a zone or a byte. */
  ghost predicate OthersKept<I>(trees: map<I, seq<nat>>, blocks: seq<Block>,
    trees': map<I, seq<nat>>, blocks': seq<Block>, n: I)
  {
    && trees'.Keys == trees.Keys
    && (forall m :: m in trees ==> |trees[m]| == 9 && |trees'[m]| == 9)
    && (forall m, q: Path :: m in trees && m != n && q.Valid() ==>
          At(trees'[m], blocks', q) == At(trees[m], blocks, q))
    && (forall m, q: Path :: m in trees && m != n && q.Valid() && q.Leaf() ==>
          Data(trees'[m], blocks', q) == Data(trees[m], blocks, q))
  }

  /** Cutting tree n off: its visible zones become free unless somebody else refers to them, the others are lost. */
  lemma TreeCut<I>(trees: map<I, seq<nat>>, blocks: seq<Block>, owner: map<nat, (I, Path)>,
    lost: set<nat>, alloc: set<nat>, first: nat, unreadable: set<nat>, held: set<nat>, n: I,
    trees': map<I, seq<nat>>, blocks': seq<Block>)
    requires Consistent(trees, blocks, owner, lost, alloc, first)
    requires n in trees && trees' == trees[n := seq(9, _ => 0)]
    requires |blocks'| == |blocks|
    requires forall y :: 0 <= y < |blocks| && y !in VisibleZones(trees, blocks, owner, unreadable, n) ==> blocks'[y] == blocks[y]
    ensures var freed, all := VisibleZones(trees, blocks, owner, unreadable, n) - held, ZonesOf(owner, n);
            Consistent(trees', blocks', owner - all, lost + (all - freed), alloc - freed, first)
    ensures OthersKept(trees, blocks, trees', blocks', n)
  {
    var all := ZonesOf(owner, n);
    forall m, q: Path | m in trees && m != n && q.Valid()
      ensures At(trees'[m], blocks', q) == At(trees[m], blocks, q)
      ensures At(trees[m], blocks, q) != 0 ==> At(trees[m], blocks, q) in owner && At(trees[m], blocks, q) !in all
    {
      AtFrame(trees[m], blocks, blocks');
    }
    forall q: Path | q.Valid()
      ensures At(trees'[n], blocks', q) == 0
    {
    }
    assert (owner - all).Keys == owner.Keys - all;
  }

  lemma DirectNext(zone: seq<nat>, i: int)
    requires |zone| == 9 && 0 <= i < 7
    requires forall d, e :: 0 <= d < e < 7 && zone[d] != 0 ==> zone[d] != zone[e]
    ensures DirectZones(zone, i + 1) == DirectZones(zone, i) + if zone[i] != 0 then {zone[i]} else {}
    ensures zone[i] !in DirectZones(zone, i)
    ensures zone[i] != 0 ==> zone[i] in DirectZones(zone, 7)
  {
  }

  lemma DirectNone(zone: seq<nat>)
    requires |zone| == 9
    ensures DirectZones(zone, 0) == {}
  {
  }

  /** The loop over the seven direct zones. */
  method FreeDirect(dev: Device, n: Inode)
    requires dev.MapOk() && |n.zone| == 9 && DirectZones(n.zone, 7) <= dev.Allocated()
    requires forall d, e :: 0 <= d < e < 7 && n.zone[d] != 0 ==> n.zone[d] != n.zone[e]
    modifies dev`zmap, dev`blocks, n`zone
    ensures dev.MapOk()
    ensures dev.Allocated() == old(dev.Allocated()) - (DirectZones(old(n.zone), 7) - dev.held)
    ensures forall y :: 0 <= y < dev.nzones && y !in DirectZones(old(n.zone), 7) ==> dev.blocks[y] == old(dev.blocks[y])
    ensures n.zone == seq(7, _ => 0) + old(n.zone[7..])
  {
    hide DirectZones, DirectFreed, Bit;
    ghost var zone, alloc, b0 := n.zone, dev.Allocated(), dev.blocks;
    NoneFreed(dev, n);
    for i := 0 to 7
      invariant dev.MapOk() && DirectFreed(dev, n, zone, alloc, b0, i)
    {
      FreeSlot(dev, n, zone, alloc, b0, i);
    }
    AllFreed(dev, n, zone, alloc, b0);
  }

  /** The first i direct zones are freed. */
  ghost predicate DirectFreed(dev: Device, n: Inode, zone: seq<nat>, alloc: set<nat>, b0: seq<Block>, i: int)
    requires dev.MapOk() && |zone| == 9 && 0 <= i <= 7
    reads dev, n
  {
    && n.zone == seq(i, _ => 0) + zone[i..]
    && dev.Allocated() == alloc - (DirectZones(zone, i) - dev.held)
    && |b0| == dev.nzones
    && forall y :: 0 <= y < dev.nzones && y !in DirectZones(zone, i) ==> dev.blocks[y] == b0[y]
  }

  lemma NoneFreed(dev: Device, n: Inode)
    requires dev.MapOk() && |n.zone| == 9
    ensures DirectFreed(dev, n, n.zone, dev.Allocated(), dev.blocks, 0)
  {
    DirectNone(n.zone);
  }

  lemma AllFreed(dev: Device, n: Inode, zone: seq<nat>, alloc: set<nat>, b0: seq<Block>)
    requires dev.MapOk() && |zone| == 9 && DirectFreed(dev, n, zone, alloc, b0, 7)
    ensures dev.Allocated() == alloc - (DirectZones(zone, 7) - dev.held)
    ensures |b0| == dev.nzones && forall y :: 0 <= y < dev.nzones && y !in DirectZones(zone, 7) ==> dev.blocks[y] == b0[y]
    ensures n.zone == seq(7, _ => 0) + zone[7..]
  {
    hide DirectZones;
  }

  /** One slot of the loop. */
  method FreeSlot(dev: Device, n: Inode, ghost zone: seq<nat>, ghost alloc: set<nat>, ghost b0: seq<Block>, i: int)
    requires dev.MapOk() && |zone| == 9 && 0 <= i < 7 && DirectFreed(dev, n, zone, alloc, b0, i)
    requires DirectZones(zone, 7) <= alloc && forall d, e :: 0 <= d < e < 7 && zone[d] != 0 ==> zone[d] != zone[e]
    modifies dev`zmap, dev`blocks, n`zone
    ensures dev.MapOk() && DirectFreed(dev, n, zone, alloc, b0, i + 1)
  {
    hide DirectZones, Bit;
    DirectNext(zone, i);
    assert n.zone[i] == zone[i];
    if n.zone[i] != 0 {
      assert zone[i] in dev.Allocated();
      dev.FreeBlock(n.zone[i]);
      n.zone := n.zone[i := 0];
    }
    assert n.zone == seq(i + 1, _ => 0) + zone[i + 1..];
  }

  /** The three freeing parts, in order. */
  method FreeParts(dev: Device, n: Inode)
    requires dev.Valid() && n in dev.inodes
    modifies dev`zmap, dev`blocks, n`zone
    ensures dev.MapOk()
    ensures dev.Allocated() == old(dev.Allocated()) -
              (old(VisibleZones(dev.Trees(), dev.blocks, dev.owner, dev.unreadable, n)) - dev.held)
    ensures forall y :: 0 <= y < dev.nzones && y !in old(VisibleZones(dev.Trees(), dev.blocks, dev.owner, dev.unreadable, n))
              ==> dev.blocks[y] == old(dev.blocks[y])
    ensures n.zone == seq(7, _ => 0) + old(n.zone[7..])
  {
    hide Consistent, IndSet, DindSet, IndOk, DindOk, VisibleZones, DirectZones;
    ghost var trees, b0, alloc, u := dev.Trees(), dev.blocks, dev.Allocated(), dev.unreadable;
    ghost var d, s7, s8 := DirectZones(n.zone, 7), IndSet(b0, u, n.zone[7]), DindSet(b0, u, n.zone[8]);
    PartsOfTree(trees, b0, dev.owner, dev.lost, alloc, dev.firstDataZone, u, n);
    FreeingAllowed(trees, b0, dev.owner, dev.lost, alloc, dev.firstDataZone, u, n);
    FreeDirect(dev, n);
    IndSetFrame(b0, dev.blocks, u, n.zone[7], d);
    FreeInd(dev, n.zone[7]);
    DindSetFrame(b0, dev.blocks, u, n.zone[8], d + s7);
    FreeDind(dev, n.zone[8]);
    assert dev.Allocated() == alloc - (d + s7 + s8 - dev.held);
  }

  /** Give the zones of the inode back. */
  method TruncateZones(dev: Device, n: Inode)
    requires dev.Valid() && n in dev.inodes
    modifies dev`zmap, dev`blocks, dev`owner, dev`lost, n
    ensures dev.Valid() && n.zone == seq(9, _ => 0) && n.size == 0 && n.dirt
    ensures var freed := old(VisibleZones(dev.Trees(), dev.blocks, dev.owner, dev.unreadable, n)) - dev.held;
            && dev.Allocated() == old(dev.Allocated()) - freed
            && dev.lost == old(dev.lost) + (old(ZonesOf(dev.owner, n)) - freed)
    ensures OthersKept(old(dev.Trees()), old(dev.blocks), dev.Trees(), dev.blocks, n)
  {
    hide Consistent, VisibleZones, OthersKept, ZonesOf;
    ghost var trees, b0, alloc, u := dev.Trees(), dev.blocks, dev.Allocated(), dev.unreadable;
    ghost var freed, all := VisibleZones(trees, b0, dev.owner, u, n) - dev.held, ZonesOf(dev.owner, n);
    FreeParts(dev, n);
    TreeCut(trees, b0, dev.owner, dev.lost, alloc, dev.firstDataZone, u, dev.held, n, trees[n := seq(9, _ => 0)], dev.blocks);
    assert dev.Trees()[n := seq(9, _ => 0)] == trees[n := seq(9, _ => 0)];
    assert dev.Allocated() == alloc - freed;
    CutOff(dev, n, dev.owner - all, dev.lost + (all - freed));
  }

  /** The last assignments of truncate, once the zones are freed. */
  method CutOff(dev: Device, n: Inode, ghost owner: map<nat, (Inode, Path)>, ghost lost: set<nat>)
    requires dev.MapOk() && n in dev.inodes && n.HoldsZones() && |n.zone| == 9 && n.zone[..7] == seq(7, _ => 0)
    requires forall m :: m in dev.inodes ==> m.HoldsZones() && |m.zone| == 9
    requires Consistent<Inode>(dev.Trees()[n := seq(9, _ => 0)], dev.blocks, owner, lost, dev.Allocated(), dev.firstDataZone)
    modifies dev`owner, dev`lost, n
    ensures dev.Valid() && n.zone == seq(9, _ => 0) && n.size == 0 && n.dirt
    ensures dev.owner == owner && dev.lost == lost && dev.Allocated() == old(dev.Allocated())
    ensures dev.Trees() == old(dev.Trees())[n := seq(9, _ => 0)]
  {
    hide Consistent;
    ghost var trees := dev.Trees();
    assert n.zone[7 := 0][8 := 0] == seq(9, _ => 0);
    n.zone, n.size, n.dirt := n.zone[7 := 0][8 := 0], 0, true;
    dev.lost, dev.owner := lost, owner;
    assert dev.Trees() == trees[n := n.zone];
    assert dev.Allocated() == old(dev.Allocated());
  }

  /** Give every zone of the inode back. Special files hold none. */
  method Truncate(dev: Device, n: Inode)
    requires dev.Valid() && (n.HoldsZones() ==> n in dev.inodes)
    modifies dev`zmap, dev`blocks, dev`owner, dev`lost, n
    ensures dev.Valid()
    ensures !n.HoldsZones() ==> unchanged(dev) && unchanged(n)
    ensures n.HoldsZones() ==>
      && n.zone == seq(9, _ => 0) && n.size == 0 && n.dirt
      && dev.Allocated() == old(dev.Allocated()) -
           (old(VisibleZones(dev.Trees(), dev.blocks, dev.owner, dev.unreadable, n)) - dev.held)
      && dev.lost == old(dev.lost) +
           (old(ZonesOf(dev.owner, n)) - (old(VisibleZones(dev.Trees(), dev.blocks, dev.owner, dev.unreadable, n)) - dev.held))
      && OthersKept(old(dev.Trees()), old(dev.blocks), dev.Trees(), dev.blocks, n)
  {
    hide Consistent, VisibleZones, OthersKept, ZonesOf;
    if !n.HoldsZones() {
      return;
    }
    TruncateZones(dev, n);
  }

  lemma DindSetFrame(b0: seq<Block>, b1: seq<Block>, unreadable: set<nat>, c: nat, gone: set<nat>)
    requires |b1| == |b0| && forall y :: 0 <= y < |b0| && y !in gone ==> b1[y] == b0[y]
    requires DindSet(b0, unreadable, c) !! gone && DindOk(b0, unreadable, c)
    ensures DindSet(b1, unreadable, c) == DindSet(b0, unreadable, c) && DindOk(b1, unreadable, c)
  {
    if 0 < c < |b0| && c !in unreadable {
      assert c in DindSet(b0, unreadable, c);
      IndSetsFrame(b0, b1, unreadable, b0[c], 512, gone);
    }
  }

  lemma IndSetsFrame(b0: seq<Block>, b1: seq<Block>, unreadable: set<nat>, b: Block, m: int, gone: set<nat>)
    requires |b1| == |b0| && forall y :: 0 <= y < |b0| && y !in gone ==> b1[y] == b0[y]
    requires 0 <= m <= 512 && IndSets(b0, unreadable, b, m) !! gone
    requires forall i :: 0 <= i < m ==> IndOk(b0, Short(b, i))
    ensures forall i :: 0 <= i <= m ==> IndSets(b1, unreadable, b, i) == IndSets(b0, unreadable, b, i)
    ensures forall i :: 0 <= i < m ==>
              IndOk(b1, Short(b, i)) && IndSet(b1, unreadable, Short(b, i)) == IndSet(b0, unreadable, Short(b, i))
    decreases m
  {
    hide IndSet, IndOk;
    if m > 0 {
      IndSetsFrame(b0, b1, unreadable, b, m - 1, gone);
      IndSetFrame(b0, b1, unreadable, Short(b, m - 1), gone);
    }
  }

  lemma FreeingAllowed<I>(trees: map<I, seq<nat>>, blocks: seq<Block>, owner: map<nat, (I, Path)>,
    lost: set<nat>, alloc: set<nat>, first: nat, unreadable: set<nat>, n: I)
    requires Consistent(trees, blocks, owner, lost, alloc, first)
    requires n in trees
    ensures IndOk(blocks, trees[n][7]) && DindOk(blocks, unreadable, trees[n][8])
    ensures forall d, e :: 0 <= d < e < 7 && trees[n][d] != 0 ==> trees[n][d] != trees[n][e]
  {
    DirectMembers(trees, blocks, owner, lost, alloc, first, n);
    IndSetMembers(trees, blocks, owner, lost, alloc, first, unreadable, n, Ind);
    DindMembers(trees, blocks, owner, lost, alloc, first, unreadable, n);
    assert At(trees[n], blocks, Ind) == trees[n][7];
  }
}
