// A mounted Minix device: zone bitmaps (fs/bitmap.c), block contents as seen
// through the buffer cache, and the in-core inodes that hold zones on it.

module Devices {
  import opened Blocks
  import opened ZoneTree

  const BITS_PER_MAP := 8192

  datatype Option<+T> = None | Some(value: T)

  datatype FileType = Regular | Directory | Other

  class Inode {
    const fileType: FileType
    var zone: seq<nat>
    var size: nat
    var dirt: bool

    constructor (fileType: FileType, zone: seq<nat>, size: nat)
      ensures this.fileType == fileType && this.zone == zone && this.size == size && !dirt
    {
      this.fileType := fileType;
      this.zone, this.size, dirt := zone, size, false;
    }

    predicate HoldsZones() { fileType != Other }
  }

  /** Bit k of the zone map, counted over all loaded map blocks. */
  function Bit(zmap: seq<seq<bool>>, k: int): bool
    requires forall i :: 0 <= i < |zmap| ==> |zmap[i]| == BITS_PER_MAP
    requires 0 <= k < |zmap| * BITS_PER_MAP
  {
    zmap[k / BITS_PER_MAP][k % BITS_PER_MAP]
  }

  /** The bit-scan primitive: index of the first clear bit, 8192 if there is none. */
  method FindFirstZero(bits: seq<bool>) returns (j: nat)
    requires |bits| == BITS_PER_MAP
    ensures j <= BITS_PER_MAP
    ensures forall i :: 0 <= i < j ==> bits[i]
    ensures j < BITS_PER_MAP ==> !bits[j]
  {
    j := 0;
    while j < BITS_PER_MAP && bits[j]
      invariant j <= BITS_PER_MAP
      invariant forall i :: 0 <= i < j ==> bits[i]
    {
      j := j + 1;
    }
  }

  class Device {
    const firstDataZone: nat
    const nzones: nat
    var zmap: seq<seq<bool>>        // the loaded s_zmap slots; the other slots are NULL
    var blocks: seq<Block>
    var unreadable: set<nat>        // blocks on which bread currently fails
    var held: set<nat>              // blocks whose buffer somebody else refers to
    ghost var inodes: set<Inode>
    ghost var owner: map<nat, (Inode, Path)>
    ghost var lost: set<nat>

    /** Mounting: whatever map is on the disk, with its first bit set. No inode is in core yet, so no
        zone in use is named by one. */
    constructor (firstDataZone: nat, zmap: seq<seq<bool>>, blocks: seq<Block>)
      requires 0 < firstDataZone <= |blocks| < 65536
      requires 0 < |zmap| <= 8 && forall i :: 0 <= i < |zmap| ==> |zmap[i]| == BITS_PER_MAP
      requires |blocks| - firstDataZone < |zmap| * BITS_PER_MAP
      ensures Valid() && inodes == {} && lost == Allocated() == UsedZones(zmap, firstDataZone, |blocks|)
      ensures this.firstDataZone == firstDataZone && nzones == |blocks| && this.blocks == blocks && |this.zmap| == |zmap|
      ensures forall k :: 0 <= k < |zmap| * BITS_PER_MAP ==> (Bit(this.zmap, k) <==> k == 0 || Bit(zmap, k))
      ensures unreadable == {} && held == {}
    {
      this.firstDataZone, nzones, this.blocks := firstDataZone, |blocks|, blocks;
      this.zmap := zmap[0 := zmap[0][0 := true]];
      unreadable, held := {}, {};
      inodes, owner, lost := {}, map[], {};
      new;
      assert forall k :: 0 <= k < |zmap| * BITS_PER_MAP ==> Bit(this.zmap, k) == (k == 0 || Bit(zmap, k));
      lost := Allocated();
    }

    /** iget and read_inode: an inode comes in core, with the zones its tree names on the disk. */
    method Load(fileType: FileType, zone: seq<nat>, size: nat) returns (n: Inode)
      requires Valid() && fileType != Other && |zone| == 9 && Names(zone, blocks, lost)
      modifies this`inodes, this`owner, this`lost
      ensures Valid() && fresh(n) && inodes == old(inodes) + {n}
      ensures n.zone == zone && n.size == size && n.fileType == fileType
      ensures lost == old(lost) - NamedIn(zone, blocks, old(lost))
    {
      hide Consistent, Names, NamedIn;
      n := new Inode(fileType, zone, size);
      owner, lost := TreeLoaded(Trees(), blocks, owner, lost, Allocated(), firstDataZone, n, zone);
      inodes := inodes + {n};
      assert Trees() == old(Trees())[n := n.zone] && Allocated() == old(Allocated());
    }

    /** Somebody else gets hold of buffers; of a free zone there is none to get. */
    method Hold(zones: set<nat>)
      requires Valid()
      modifies this`held
      ensures Valid() && held == set z | z in zones && MayHold(z)
    {
      hide Consistent;
      held := set z | z in zones && MayHold(z);
      assert Allocated() == old(Allocated()) && Trees() == old(Trees());
    }

    predicate MayHold(z: nat)
      requires MapShape()
      reads this`zmap, this`blocks
    {
      firstDataZone <= z < nzones ==> Bit(zmap, z - firstDataZone + 1)
    }

    ghost predicate MapShape()
      reads this`zmap, this`blocks
    {
      && 0 < firstDataZone <= nzones < 65536
      && |blocks| == nzones
      && 0 < |zmap| <= 8
      && (forall i :: 0 <= i < |zmap| ==> |zmap[i]| == BITS_PER_MAP)
      && nzones - firstDataZone < |zmap| * BITS_PER_MAP
      && zmap[0][0]
    }

    /** The map is well formed, and nobody refers to the buffer of a free zone. */
    ghost predicate MapOk()
      reads this
    {
      MapShape() && forall z :: z in held ==> MayHold(z)
    }

    predicate Taken(z: int)
      requires MapOk() && firstDataZone <= z < nzones
      reads this
    {
      Bit(zmap, z - firstDataZone + 1)
    }

    /** The data zones whose bit is set. */
    ghost function Allocated(): (s: set<nat>)
      requires MapOk()
      reads this
    {
      set z: nat | firstDataZone <= z < nzones && Taken(z)
    }

    predicate Full()
      requires MapOk()
      reads this
    {
      forall z :: firstDataZone <= z < nzones ==> Taken(z)
    }

    ghost function Trees(): (t: map<Inode, seq<nat>>)
      reads this, inodes
      ensures t.Keys == inodes && forall n :: n in inodes ==> t[n] == n.zone
    {
      map n | n in inodes :: n.zone
    }

    ghost predicate Valid()
      reads this, inodes
    {
      && MapOk()
      && (forall n :: n in inodes ==> n.HoldsZones() && |n.zone| == 9)
      && Consistent(Trees(), blocks, owner, lost, Allocated(), firstDataZone)
    }

    /** bread: the current contents, or None on an I/O error. */
    method Bread(z: nat) returns (r: Option<Block>)
      requires MapOk() && z < nzones
      ensures r == if z in unreadable then None else Some(blocks[z])
    {
      r := if z in unreadable then None else Some(blocks[z]);
    }

    /** First-fit allocation of a zero-filled zone. The panic on a new zone whose buffer somebody refers to
        cannot happen: nobody refers to the buffer of a free zone. */
    method NewBlock() returns (z: nat)
      requires MapOk()
      modifies this`zmap, this`blocks
      ensures MapOk()
      ensures z == 0 ==> Full() && Allocated() == old(Allocated()) && blocks == old(blocks)
      ensures z == 0 ==> (zmap == old(zmap) <==> old(forall k :: 0 <= k < |zmap| * BITS_PER_MAP ==> Bit(zmap, k)))
      ensures z != 0 ==>
        && firstDataZone <= z < nzones && z !in held
        && !old(Taken(z))
        && (forall y :: firstDataZone <= y < z ==> old(Taken(y)))
        && zmap == (var k := z - firstDataZone + 1; old(zmap)[k / 8192 := old(zmap)[k / 8192][k % 8192 := true]])
        && Allocated() == old(Allocated()) + {z}
        && blocks == old(blocks)[z := ZeroBlock()]
    {
      var found, i, j := FirstClear();
      if !found {
        return 0;
      }
      SetBit(zmap, i, j);
      zmap := zmap[i := zmap[i][j := true]];
      z := i * BITS_PER_MAP + j + firstDataZone - 1;
      if z >= nzones {
        assert old(Full());
        return 0;
      }
      assert !old(Taken(z));
      blocks := blocks[z := ZeroBlock()];
    }

    /** The scan over the loaded map blocks. */
    method FirstClear() returns (found: bool, i: nat, j: nat)
      requires MapShape()
      ensures found ==> i < |zmap| && j < BITS_PER_MAP && !zmap[i][j] && !Bit(zmap, i * BITS_PER_MAP + j)
      ensures found ==> forall k :: 0 <= k < i * BITS_PER_MAP + j ==> Bit(zmap, k)
      ensures !found ==> forall k :: 0 <= k < |zmap| * BITS_PER_MAP ==> Bit(zmap, k)
    {
      i, j := 0, BITS_PER_MAP;
      while i < 8
        invariant 0 <= i <= 8
        invariant forall k :: 0 <= k < i && k < |zmap| ==> forall b :: 0 <= b < BITS_PER_MAP ==> zmap[k][b]
      {
        if i < |zmap| {
          j := FindFirstZero(zmap[i]);
          if j < BITS_PER_MAP {
            return true, i, j;
          }
        }
        i := i + 1;
      }
      found := false;
    }

    /** Clear the bit of zone z, unless somebody else refers to its buffer: then a complaint is all.
        The cached copy is discarded, so the contents are no longer known. The preconditions are the
        two panics of the original. */
    method FreeBlock(z: nat)
      requires MapOk()
      requires firstDataZone <= z < nzones
      requires Taken(z)
      modifies this`zmap, this`blocks
      ensures MapOk()
      ensures var k := z - firstDataZone + 1;
              zmap == if z in held then old(zmap) else old(zmap)[k / 8192 := old(zmap)[k / 8192][k % 8192 := false]]
      ensures Allocated() == old(Allocated()) - ({z} - held)
      ensures forall y :: 0 <= y < nzones && y !in {z} - held ==> blocks[y] == old(blocks[y])
    {
      if z in held {
        return;
      }
      var stale: Block := *;
      blocks := blocks[z := stale];
      var k := z - (firstDataZone - 1);
      var i, j := k / BITS_PER_MAP, k % BITS_PER_MAP;
      zmap := zmap[i := zmap[i][j := false]];
      assert forall b :: 0 <= b < |zmap| * BITS_PER_MAP ==> Bit(zmap, b) == (b != k && old(Bit(zmap, b)));
    }
  }

  /** Setting one bit of one map block sets just that bit of the map. */
  lemma SetBit(zmap: seq<seq<bool>>, i: nat, j: nat)
    requires forall k :: 0 <= k < |zmap| ==> |zmap[k]| == BITS_PER_MAP
    requires i < |zmap| && j < BITS_PER_MAP
    ensures var r := zmap[i := zmap[i][j := true]];
            && (forall k :: 0 <= k < |r| ==> |r[k]| == BITS_PER_MAP)
            && forall k :: 0 <= k < |zmap| * BITS_PER_MAP ==> Bit(r, k) == (k == i * BITS_PER_MAP + j || Bit(zmap, k))
  {
  }

  /** The data zones that a map says are in use. */
  function UsedZones(zmap: seq<seq<bool>>, first: nat, nzones: nat): set<nat>
    requires forall i :: 0 <= i < |zmap| ==> |zmap[i]| == BITS_PER_MAP
    requires 0 < first <= nzones && nzones - first < |zmap| * BITS_PER_MAP
  {
    set z: nat | first <= z < nzones && UsedAt(zmap, first, z)
  }

  predicate UsedAt(zmap: seq<seq<bool>>, first: nat, z: nat)
    requires forall i :: 0 <= i < |zmap| ==> |zmap[i]| == BITS_PER_MAP
    requires first <= z && z - first + 1 < |zmap| * BITS_PER_MAP
  {
    Bit(zmap, z - first + 1)
  }

  /** The zones that a tree names are all among the given ones, and each at one place. */
  ghost predicate Names(zone: seq<nat>, blocks: seq<Block>, zones: set<nat>)
    requires |zone| == 9
  {
    && (forall p: Path :: p.Valid() ==> At(zone, blocks, p) == 0 || At(zone, blocks, p) in zones)
    && (forall p: Path, q: Path :: p.Valid() && q.Valid() && At(zone, blocks, p) != 0 && At(zone, blocks, p) == At(zone, blocks, q) ==> p == q)
  }

  ghost predicate NamedAt(zone: seq<nat>, blocks: seq<Block>, z: nat, p: Path)
    requires |zone| == 9
  {
    p.Valid() && At(zone, blocks, p) == z
  }

  ghost function NamedIn(zone: seq<nat>, blocks: seq<Block>, zones: set<nat>): set<nat>
    requires |zone| == 9
  {
    set z | z in zones && exists p :: NamedAt(zone, blocks, z, p)
  }

  ghost function PlaceOf(zone: seq<nat>, blocks: seq<Block>, z: nat): (p: Path)
    requires |zone| == 9 && exists p :: NamedAt(zone, blocks, z, p)
    ensures NamedAt(zone, blocks, z, p)
  {
    var p :| NamedAt(zone, blocks, z, p); p
  }

  /** A tree whose zones nobody names joins the forest. */
  lemma TreeLoaded<I>(trees: map<I, seq<nat>>, blocks: seq<Block>,
    owner: map<nat, (I, Path)>, lost: set<nat>, alloc: set<nat>, first: nat, n: I, zone: seq<nat>)
    returns (owner': map<nat, (I, Path)>, lost': set<nat>)
    requires Consistent(trees, blocks, owner, lost, alloc, first) && n !in trees
    requires |zone| == 9 && Names(zone, blocks, lost)
    ensures lost' == lost - NamedIn(zone, blocks, lost)
    ensures Consistent(trees[n := zone], blocks, owner', lost', alloc, first)
  {
    hide At;
    var named, trees' := NamedIn(zone, blocks, lost), trees[n := zone];
    lost' := lost - named;
    owner' := map z | z in owner.Keys + named :: if z in named then (n, PlaceOf(zone, blocks, z)) else owner[z];
    forall m, p: Path | m in trees' && p.Valid() && At(trees'[m], blocks, p) != 0
      ensures At(trees'[m], blocks, p) in owner' && owner'[At(trees'[m], blocks, p)] == (m, p)
    {
      if m == n {
        assert NamedAt(zone, blocks, At(zone, blocks, p), p);
      } else {
        assert At(trees[m], blocks, p) in owner;
      }
    }
  }
}
