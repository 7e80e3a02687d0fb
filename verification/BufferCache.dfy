// The buffer cache (fs/buffer.c): one pool of buffers, threaded at once on a
// circular free list and on hash chains keyed by (device, block).

module BufferCache {
  import opened Cardinality
  import opened Blocks

  const NR_HASH := 307
  const NR_BLK_DEV := 7

  type DevNr = x: int | 0 <= x < 0x1_0000
  type BlockNr = x: int | 0 <= x < 0x1_0000_0000

  /** The bucket of a block. */
  function HashFn(dev: DevNr, block: BlockNr): (h: int)
    ensures 0 <= h < NR_HASH
  {
    Bucket(dev as bv32, block as bv32)
  }

  function Bucket(dev: bv32, block: bv32): (h: int)
    ensures 0 <= h < NR_HASH
  {
    (dev ^ block) as int % NR_HASH
  }

  /** Some buckets: device and block number cancel where their bits agree. */
  lemma HashExamples()
    ensures Bucket(0x301, 0x301) == 0 && Bucket(0x301, 0x303) == 2 && Bucket(0x301, 0) == 155
    ensures Bucket(0, 1000) == 79 && Bucket(0x301, 0x1_0301) == 145
  {
    assert (0x301 as bv32) ^ 0x301 == 0 && (0x301 as bv32) ^ 0x303 == 2 && (0x301 as bv32) ^ 0 == 0x301;
    assert (0x301 as bv32) ^ 0x1_0301 == 0x1_0000;
  }

  type Id = (DevNr, BlockNr)

  /** Who keeps the lock bit set: nobody, a task about to queue a request, or a queued request. */
  datatype Phase = Idle | Locked | Reading | Writing

  /** What a client of the cache does, and what comes of it. */
  datatype Call = Fetch(id: Id) | Look(id: Id) | Change(id: Id, data: Block) | LetGo(id: Id) | Sync(dev: DevNr)

  datatype Event =
    | Got(id: Id, data: Block)
    | ReadError(id: Id)
    | Hung(id: Id)
    | Saw(id: Id, data: Block)
    | Wrote(id: Id, data: Block)
    | Dropped(id: Id)
    | Nothing
  {
    /** References to a block after the event, when there were n. */
    function Left(n: int, k: Id): int {
      if Got? && id == k then n + 1 else if Dropped? && id == k then n - 1 else n
    }

    /** The last contents given to a block after the event, when they were d. */
    function Latest(d: Block, k: Id): Block {
      if Wrote? && id == k then data else d
    }
  }

  /** What a call may come to when we hold n references to its block. */
  ghost predicate Answers(call: Call, e: Event, n: int) {
    match call
    case Fetch(id) => if n > 0 then e.Got? && e.id == id else (e.Got? || e.ReadError? || e.Hung?) && e.id == id
    case Look(id) => if n > 0 then e.Saw? && e.id == id else e == Nothing
    case Change(id, data) => e == if n > 0 then Wrote(id, data) else Nothing
    case LetGo(id) => e == if n > 0 then Dropped(id) else Nothing
    case Sync(_) => e == Nothing
  }

  /** Each call of the log got an answer that suits the references held then. */
  ghost predicate Answered(calls: seq<Call>, log: seq<Event>) {
    |log| <= |calls| && forall i :: 0 <= i < |log| ==> AnsweredAt(calls, log, i)
  }

  ghost predicate AnsweredAt(calls: seq<Call>, log: seq<Event>, i: nat)
    requires i < |log| <= |calls|
  {
    !log[i].Hung? && Answers(calls[i], log[i], if calls[i].Sync? then 0 else HeldIn(log[..i], calls[i].id))
  }

  /** Whenever the contents of a block that only we write are seen, they are the last ones given to it, or those it had at first. */
  ghost predicate Transparent(log: seq<Event>, mine: set<Id>, first: Id -> Block) {
    forall i :: 0 <= i < |log| ==> TrueAt(log, mine, first, i)
  }

  ghost predicate TrueAt(log: seq<Event>, mine: set<Id>, first: Id -> Block, i: nat)
    requires i < |log|
  {
    (log[i].Got? || log[i].Saw?) && log[i].id in mine ==> log[i].data == LastIn(log[..i], log[i].id, first(log[i].id))
  }

  lemma NothingLogged(calls: seq<Call>, mine: set<Id>, first: Id -> Block)
    ensures Answered(calls, []) && Transparent([], mine, first)
  {
  }

  lemma LogGrows(calls: seq<Call>, log: seq<Event>, e: Event, mine: set<Id>, first: Id -> Block)
    requires Answered(calls, log) && Transparent(log, mine, first) && |log| < |calls|
    requires !e.Hung? && Answers(calls[|log|], e, if calls[|log|].Sync? then 0 else HeldIn(log, calls[|log|].id))
    requires (e.Got? || e.Saw?) && e.id in mine ==> e.data == LastIn(log, e.id, first(e.id))
    ensures Answered(calls, log + [e]) && Transparent(log + [e], mine, first)
    ensures forall k :: HeldIn(log + [e], k) == e.Left(HeldIn(log, k), k)
    ensures forall k, d :: LastIn(log + [e], k, d) == e.Latest(LastIn(log, k, d), k)
  {
    hide Answers, HeldIn, LastIn;
    var log' := log + [e];
    assert log'[..|log|] == log;
    forall i | 0 <= i < |log'|
      ensures AnsweredAt(calls, log', i) && TrueAt(log', mine, first, i)
    {
      if i < |log| {
        assert log'[..i] == log[..i] && AnsweredAt(calls, log, i) && TrueAt(log, mine, first, i);
      }
    }
    LogFolds(log, e);
  }

  lemma LogFolds(log: seq<Event>, e: Event)
    ensures forall k :: HeldIn(log + [e], k) == e.Left(HeldIn(log, k), k)
    ensures forall k, d :: LastIn(log + [e], k, d) == e.Latest(LastIn(log, k, d), k)
  {
    assert (log + [e])[..|log|] == log;
  }

  /** Reads of k that came back with an error. */
  function ErrorsIn(log: seq<Event>, k: Id): nat {
    if log == [] then 0 else ErrorsIn(log[..|log| - 1], k) + if log[|log| - 1] == ReadError(k) then 1 else 0
  }

  /** References to k that the log leaves us. */
  function HeldIn(log: seq<Event>, k: Id): int {
    if log == [] then 0 else log[|log| - 1].Left(HeldIn(log[..|log| - 1], k), k)
  }

  /** What the log gave k last, d if nothing. */
  function LastIn(log: seq<Event>, k: Id, d: Block): Block {
    if log == [] then d else log[|log| - 1].Latest(LastIn(log[..|log| - 1], k, d), k)
  }

  class BufferHead {
    var dev: DevNr
    var block: BlockNr
    var uptodate: bool
    var dirt: bool
    var count: nat
    var lock: bool
    var data: Block
    var next: BufferHead?
    var prev: BufferHead?
    var nextFree: BufferHead?
    var prevFree: BufferHead?
    var phase: Phase

    constructor ()
      ensures dev == 0 && count == 0 && !uptodate && !dirt && !lock && phase == Idle
      ensures next == null && prev == null
    {
      dev, block, count := 0, *, 0;
      uptodate, dirt, lock := false, false, false;
      data := ZeroBlock();
      next, prev, nextFree, prevFree := null, null, null, null;
      phase := Idle;
    }
  }

  // ----- the two list shapes -------------------------------------------

  /** s is one circle of next_free/prev_free links. */
  ghost predicate Ring(s: seq<BufferHead>)
    reads (set b | b in s)`nextFree, (set b | b in s)`prevFree
  {
    && Distinct(s)
    && (forall i {:trigger s[i].nextFree} :: 0 <= i < |s| ==> s[i].nextFree == s[if i + 1 < |s| then i + 1 else 0])
    && (forall i {:trigger s[i].prevFree} :: 0 <= i < |s| ==> s[i].prevFree == s[if i > 0 then i - 1 else |s| - 1])
  }

  /** s is one NULL-terminated doubly linked chain starting at head. */
  ghost predicate Chain(s: seq<BufferHead>, head: BufferHead?)
    reads (set b | b in s)`next, (set b | b in s)`prev
  {
    && Distinct(s)
    && head == (if |s| > 0 then s[0] else null)
    && (forall i {:trigger s[i].next} :: 0 <= i < |s| ==> s[i].next == (if i + 1 < |s| then s[i + 1] else null))
    && (forall i {:trigger s[i].prev} :: 0 <= i < |s| ==> s[i].prev == (if i > 0 then s[i - 1] else null))
  }

  ghost function IndexOf(s: seq<BufferHead>, b: BufferHead): (i: int)
    requires b in s
    ensures 0 <= i < |s| && s[i] == b
  {
    var i :| 0 <= i < |s| && s[i] == b; i
  }

  /** s without b, in order. */
  ghost function Minus(s: seq<BufferHead>, b: BufferHead): seq<BufferHead>
    requires b in s
  {
    s[..IndexOf(s, b)] + s[IndexOf(s, b) + 1..]
  }

  lemma MinusAt(s: seq<BufferHead>, b: BufferHead)
    requires Distinct(s) && b in s
    ensures b !in Minus(s, b)
    ensures forall x :: x in s <==> x == b || x in Minus(s, b)
    ensures Distinct(Minus(s, b))
    ensures |Minus(s, b)| == |s| - 1
    ensures forall j :: 0 <= j < |s| - 1 ==> Minus(s, b)[j] == s[if j < IndexOf(s, b) then j else j + 1]
  {
    var i, r := IndexOf(s, b), Minus(s, b);
    forall x | x in s && x != b
      ensures x in r
    {
      var j := IndexOf(s, x);
      assert x == r[if j < i then j else j - 1];
    }
    forall j, k | 0 <= j < k < |r|
      ensures r[j] != r[k]
    {
      assert r[j] == s[if j < i then j else j + 1] && r[k] == s[if k < i then k else k + 1];
    }
  }

  lemma PushDistinct(s: seq<BufferHead>, b: BufferHead)
    requires Distinct(s) && b !in s
    ensures Distinct([b] + s)
  {
  }

  /** How many references are to the block. */
  ghost function References(cached: map<Id, BufferHead>, held: multiset<BufferHead>, id: Id): nat {
    if id in cached then held[cached[id]] else 0
  }

  lemma Referred(cached: map<Id, BufferHead>, held: multiset<BufferHead>, id: Id)
    ensures References(cached, held, id) > 0 ==> id in cached && cached[id] in held
  {
  }

  class Cache {
    const hashTable: array<BufferHead?>
    const driver: int -> bool             // majors with a request function
    const mine: set<Id>                   // blocks that only we write
    var freeList: BufferHead?
    var pool: seq<BufferHead>             // start_buffer[0 .. NR_BUFFERS)
    ghost var free: seq<BufferHead>       // the free list, from freeList on
    ghost var chains: seq<seq<BufferHead>>

    // Bookkeeping of the model. "We" are the task whose calls are followed; every other task acts
    // through OtherStep.
    var disk: Id -> Block                 // what is on the medium
    ghost var written: Id -> Block        // the last contents given to each block
    ghost var cached: map<Id, BufferHead>
    var held: multiset<BufferHead>        // our references
    var ours: set<BufferHead>             // buffers we locked
    var moves: nat                        // steps that other tasks have taken while we slept
    const budget: nat                     // how many they take in the whole run
    ghost var failed: multiset<Id>        // reads that came back with an error

    ghost function Bufs(): set<BufferHead>
      reads this`pool
    {
      set b | b in pool
    }

    /** The free list is one circle through exactly the buffers in live. */
    ghost predicate FreeOn(live: set<BufferHead>)
      reads this`freeList, this`free, live`nextFree, live`prevFree
    {
      && |free| > 0 && freeList == free[0]
      && (forall b :: b in free ==> b in live) && (forall b :: b in live ==> b in free)
      && Ring(free)
    }

    /** The hash chains hold exactly the buffers of live that have a device, each in its own bucket. */
    ghost predicate HashOn(live: set<BufferHead>)
      reads this`chains, hashTable, live`next, live`prev, live`dev, live`block
    {
      && hashTable.Length == NR_HASH == |chains|
      && (forall h, b {:trigger b in chains[h]} :: 0 <= h < NR_HASH && b in chains[h] ==> b in live && b.dev != 0 && HashFn(b.dev, b.block) == h)
      && (forall b :: b in live && b.dev != 0 ==> b in chains[HashFn(b.dev, b.block)])
      && (forall h :: 0 <= h < NR_HASH ==> Chain(chains[h], hashTable[h]))
      && (forall b :: b in live && b.dev == 0 ==> b.next == null && b.prev == null)
    }

    /** Make the neighbours of bh on the circle s point past it. */
    method UnlinkFree(bh: BufferHead, ghost s: seq<BufferHead>)
      requires Ring(s) && bh in s
      modifies (set b | b in s)`nextFree, (set b | b in s)`prevFree
      ensures Ring(Minus(s, bh))
      ensures |s| == 1 ==> bh.nextFree == bh && bh.prevFree == bh
      ensures |s| > 1 && s[0] == bh ==> bh.nextFree == Minus(s, bh)[0]
    {
      hide Minus, IndexOf;
      ghost var i := IndexOf(s, bh);
      MinusAt(s, bh);
      ghost var before, after := if i > 0 then i - 1 else |s| - 1, if i + 1 < |s| then i + 1 else 0;
      assert s[i].nextFree == s[after] && s[i].prevFree == s[before];
      bh.prevFree.nextFree := bh.nextFree;
      bh.nextFree.prevFree := bh.prevFree;
      forall k | 0 <= k < |s| && k != i
        ensures s[k].nextFree == (if k == before then s[after] else s[if k + 1 < |s| then k + 1 else 0])
        ensures s[k].prevFree == (if k == after then s[before] else s[if k > 0 then k - 1 else |s| - 1])
      {
        assert old(s[k].nextFree) == s[if k + 1 < |s| then k + 1 else 0];
        assert old(s[k].prevFree) == s[if k > 0 then k - 1 else |s| - 1];
      }
      RingWithout(s, bh, i, before, after);
    }

    lemma RingWithout(s: seq<BufferHead>, bh: BufferHead, i: nat, before: nat, after: nat)
      requires Distinct(s) && bh in s && i == IndexOf(s, bh)
      requires before == (if i > 0 then i - 1 else |s| - 1) && after == (if i + 1 < |s| then i + 1 else 0)
      requires forall k {:trigger s[k].nextFree} :: 0 <= k < |s| && k != i ==> s[k].nextFree == (if k == before then s[after] else s[if k + 1 < |s| then k + 1 else 0])
      requires forall k {:trigger s[k].prevFree} :: 0 <= k < |s| && k != i ==> s[k].prevFree == (if k == after then s[before] else s[if k > 0 then k - 1 else |s| - 1])
      ensures Ring(Minus(s, bh))
    {
      hide Minus, IndexOf, Distinct;
      MinusAt(s, bh);
      var r := Minus(s, bh);
      forall j | 0 <= j < |r|
        ensures r[j].nextFree == r[if j + 1 < |r| then j + 1 else 0]
        ensures r[j].prevFree == r[if j > 0 then j - 1 else |r| - 1]
      {
        assert r[j] == s[if j < i then j else j + 1];
      }
    }

    /** remove_from_queues, second half. */
    method RemoveFromFree(bh: BufferHead)
      requires FreeOn(Bufs()) && bh in Bufs()
      modifies this`freeList, this`free, Bufs()`nextFree, Bufs()`prevFree
      ensures bh in old(free) && free == Minus(old(free), bh) && bh !in free
      ensures free == [] ==> Bufs() == {bh} && freeList == bh && bh.nextFree == bh && bh.prevFree == bh
      ensures free != [] ==> FreeOn(Bufs() - {bh})
    {
      hide Ring;
      MinusAt(free, bh) by { RingDistinct(free); }
      UnlinkFree(bh, free);
      if freeList == bh {
        freeList := bh.nextFree;
      }
      free := Minus(free, bh);
    }

    lemma RingDistinct(s: seq<BufferHead>)
      requires Ring(s)
      ensures Distinct(s)
    {
    }

    /** insert_into_queues, first half: at the end of the free list. */
    method InsertIntoFree(bh: BufferHead)
      requires bh in Bufs() && bh !in free
      requires free == [] ==> Bufs() == {bh} && freeList == bh && bh.nextFree == bh && bh.prevFree == bh
      requires free != [] ==> FreeOn(Bufs() - {bh})
      modifies this`free, Bufs()`nextFree, Bufs()`prevFree
      ensures FreeOn(Bufs())
      ensures free == old(free) + [bh]
    {
      ghost var s := free;
      assert s != [] ==> s[0].prevFree == s[|s| - 1] && s[|s| - 1] in s && s[0] in s;
      bh.nextFree := freeList;
      bh.prevFree := freeList.prevFree;
      freeList.prevFree.nextFree := bh;
      freeList.prevFree := bh;
      free := free + [bh];
      forall j | 0 <= j < |free|
        ensures free[j].nextFree == free[if j + 1 < |free| then j + 1 else 0]
        ensures free[j].prevFree == free[if j > 0 then j - 1 else |free| - 1]
      {
        if j < |s| {
          assert free[j] == s[j];
        }
      }
    }

    /** Make the chain neighbours of bh point past it. */
    method Unlink(bh: BufferHead, ghost s: seq<BufferHead>)
      requires if s == [] then bh.next == null && bh.prev == null else Chain(s, s[0]) && bh in s
      modifies (set b | b in s)`next, (set b | b in s)`prev
      ensures s != [] ==> Chain(Minus(s, bh), if s[0] == bh then bh.next else s[0])
    {
      hide Minus, IndexOf;
      ghost var i := 0;
      if s != [] {
        i := IndexOf(s, bh);
        MinusAt(s, bh);
        assert s[i].next == (if i + 1 < |s| then s[i + 1] else null);
        assert s[i].prev == (if i > 0 then s[i - 1] else null);
      }
      if bh.next != null {
        bh.next.prev := bh.prev;
      }
      if bh.prev != null {
        bh.prev.next := bh.next;
      }
      if s != [] {
        ghost var r := Minus(s, bh);
        forall j | 0 <= j < |r|
          ensures r[j].next == if j + 1 < |r| then r[j + 1] else null
          ensures r[j].prev == if j > 0 then r[j - 1] else null
        {
          var k := if j < i then j else j + 1;
          assert r[j] == s[k];
          assert s[k].next == if k + 1 == i then (if i + 1 < |s| then s[i + 1] else null) else if k + 1 < |s| then s[k + 1] else null;
          assert s[k].prev == if k == i + 1 then (if i > 0 then s[i - 1] else null) else if k > 0 then s[k - 1] else null;
        }
      }
    }

    lemma ChainsDisjoint(live: set<BufferHead>, h: int)
      requires HashOn(live) && 0 <= h < NR_HASH
      ensures forall g, b :: 0 <= g < NR_HASH && g != h && b in chains[g] ==> b !in chains[h]
    {
      hide HashFn;
      forall g, b | 0 <= g < NR_HASH && g != h && b in chains[g] && b in chains[h]
        ensures false
      {
      }
    }

    /** remove_from_queues, first half. */
    method RemoveFromHash(bh: BufferHead)
      requires HashOn(Bufs()) && bh in Bufs()
      modifies this`chains, hashTable, Bufs()`next, Bufs()`prev
      ensures HashOn(Bufs() - {bh})
      ensures bh.dev == 0 ==> chains == old(chains)
      ensures bh.dev != 0 ==>
                var h := HashFn(bh.dev, bh.block);
                bh in old(chains)[h] && chains == old(chains)[h := Minus(old(chains)[h], bh)]
    {
      hide Minus, IndexOf, HashFn, Distinct, Chain;
      var h := HashFn(bh.dev, bh.block);
      ghost var s := chains[h];
      ChainShape(s, hashTable[h]);
      if bh.dev != 0 {
        MinusAt(s, bh);
      } else {
        assert bh !in s;
      }
      Unlink(bh, if bh.dev == 0 then [] else s);
      if hashTable[h] == bh {
        hashTable[h] := bh.next;
      }
      if bh.dev != 0 {
        chains := chains[h := Minus(s, bh)];
        Unchained(bh, h);
      }
    }

    /** With bh off its chain, the chains hold exactly the others. */
    twostate lemma Unchained(bh: BufferHead, new h: int)
      requires old(HashOn(Bufs())) && pool == old(pool) && bh in Bufs() && bh.dev != 0 && h == HashFn(bh.dev, bh.block)
      requires forall b :: b in Bufs() ==> b.dev == old(b.dev) && b.block == old(b.block)
      requires hashTable.Length == NR_HASH && bh in old(chains)[h] && chains == old(chains)[h := Minus(old(chains)[h], bh)]
      requires forall g :: 0 <= g < NR_HASH && g != h ==> hashTable[g] == old(hashTable[g])
      requires forall b :: b in Bufs() && b !in old(chains)[h] ==> b.next == old(b.next) && b.prev == old(b.prev)
      requires Chain(chains[h], hashTable[h])
      ensures HashOn(Bufs() - {bh})
    {
      hide Minus, IndexOf, HashFn, Distinct, Chain;
      var c0 := old(chains);
      assert old(Chain(chains[h], hashTable[h]));
      DistinctOf(h);
      MinusAt(c0[h], bh);
      OnlyOwnChain(h);
      ChainsUnmoved(c0, h);
      assert forall g :: 0 <= g < NR_HASH ==> Chain(chains[g], hashTable[g]);
      forall g, b | 0 <= g < NR_HASH && b in chains[g]
        ensures b in c0[g] && b != bh
      {
      }
    }

    twostate lemma DistinctOf(new h: int)
      requires 0 <= h < NR_HASH == |old(chains)| && hashTable.Length == NR_HASH && old(Chain(chains[h], hashTable[h]))
      ensures Distinct(old(chains)[h])
    {
    }

    twostate lemma OnlyOwnChain(new h: int)
      requires old(HashOn(Bufs())) && 0 <= h < NR_HASH
      ensures forall g, b :: 0 <= g < NR_HASH && g != h && b in old(chains)[g] ==> b !in old(chains)[h]
    {
      hide HashFn, Chain;
    }

    lemma ChainShape(s: seq<BufferHead>, head: BufferHead?)
      requires Chain(s, head)
      ensures Distinct(s)
      ensures if s == [] then head == null else head == s[0] && s[0] in s
    {
    }

    twostate lemma ChainsUnmoved(c0: seq<seq<BufferHead>>, new h: int)
      requires |c0| == NR_HASH == |chains| && hashTable.Length == NR_HASH && 0 <= h < NR_HASH
      requires forall g :: 0 <= g < NR_HASH ==> old(Chain(c0[g], hashTable[g]))
      requires forall g :: 0 <= g < NR_HASH && g != h ==> chains[g] == c0[g] && hashTable[g] == old(hashTable[g])
      requires forall g, b :: 0 <= g < NR_HASH && g != h && b in c0[g] ==> b.next == old(b.next) && b.prev == old(b.prev)
      ensures forall g :: 0 <= g < NR_HASH && g != h ==> Chain(chains[g], hashTable[g])
    {
      forall g | 0 <= g < NR_HASH && g != h
        ensures Chain(chains[g], hashTable[g])
      {
        assert old(Chain(c0[g], hashTable[g]));
        assert forall i :: 0 <= i < |c0[g]| ==> c0[g][i] in c0[g];
      }
    }

    /** Link bh in front of the chain s. */
    method Push(bh: BufferHead, head: BufferHead?, ghost s: seq<BufferHead>)
      requires Chain(s, head) && bh !in s
      modifies bh`next, bh`prev, (set b | b in s)`prev
      ensures Chain([bh] + s, bh)
    {
      bh.prev := null;
      bh.next := head;
      if bh.next != null {
        bh.next.prev := bh;
      }
      ghost var r := [bh] + s;
      PushDistinct(s, bh);
      forall j | 0 <= j < |r|
        ensures r[j].next == if j + 1 < |r| then r[j + 1] else null
        ensures r[j].prev == if j > 0 then r[j - 1] else null
      {
        if j > 0 {
          assert r[j] == s[j - 1];
          assert old(s[j - 1].next) == (if j < |s| then s[j] else null);
          assert old(s[j - 1].prev) == (if j - 1 > 0 then s[j - 2] else null);
        }
      }
    }

    /** insert_into_queues, second half: in front of the chain of its bucket, if it has a device.
        The original stores through b_next without a null test; Push is the guarded store. */
    method InsertIntoHash(bh: BufferHead)
      requires HashOn(Bufs() - {bh}) && bh in Bufs()
      modifies this`chains, hashTable, Bufs()`next, Bufs()`prev
      ensures HashOn(Bufs())
      ensures bh.dev == 0 ==> chains == old(chains)
      ensures bh.dev != 0 ==>
                var h := HashFn(bh.dev, bh.block);
                chains == old(chains)[h := [bh] + old(chains)[h]]
    {
      hide HashFn, Distinct;
      bh.prev := null;
      bh.next := null;
      Unhashed(bh);
      if bh.dev == 0 {
        return;
      }
      LinkHash(bh);
    }

    /** A buffer on no chain can be written without disturbing any. */
    twostate lemma Unhashed(bh: BufferHead)
      requires old(HashOn(Bufs() - {bh})) && pool == old(pool) && chains == old(chains) && bh in Bufs()
      requires unchanged(hashTable) && bh.next == null && bh.prev == null
      requires forall b :: b in Bufs() && b != bh ==> unchanged(b)
      requires bh.dev == old(bh.dev) && bh.block == old(bh.block)
      ensures HashOn(Bufs() - {bh})
      ensures bh.dev == 0 ==> HashOn(Bufs())
    {
      hide HashFn, Distinct;
      forall g | 0 <= g < NR_HASH
        ensures Chain(chains[g], hashTable[g])
      {
        assert old(Chain(chains[g], hashTable[g]));
        assert forall i :: 0 <= i < |chains[g]| ==> chains[g][i] in chains[g];
      }
    }

    /** The last three statements of insert_into_queues. */
    method LinkHash(bh: BufferHead)
      requires HashOn(Bufs() - {bh}) && bh in Bufs() && bh.dev != 0
      modifies this`chains, hashTable, Bufs()`next, Bufs()`prev
      ensures HashOn(Bufs())
      ensures var h := HashFn(bh.dev, bh.block);
              chains == old(chains)[h := [bh] + old(chains)[h]]
    {
      hide HashFn, Distinct, Chain;
      var h := HashFn(bh.dev, bh.block);
      ghost var s, c0 := chains[h], chains;
      ChainsDisjoint(Bufs() - {bh}, h);
      assert Chain(s, hashTable[h]);
      assert bh !in s;
      Push(bh, hashTable[h], s);
      hashTable[h] := bh;
      chains := chains[h := [bh] + s];
      ChainsUnmoved(c0, h);
      assert forall g :: 0 <= g < NR_HASH ==> Chain(chains[g], hashTable[g]);
      forall g, b | 0 <= g < NR_HASH && b in chains[g]
        ensures b in Bufs() && b.dev != 0 && HashFn(b.dev, b.block) == g
      {
        assert (g == h && b == bh) || b in c0[g];
      }
      assert forall b :: b in Bufs() && b != bh && b.dev != 0 ==> b in c0[HashFn(b.dev, b.block)];
    }

    // ----- what every task keeps -----------------------------------------

    /** At most one buffer per (device, block). */
    ghost predicate IdentOk()
      reads this`pool, this`cached, Bufs()`dev, Bufs()`block
    {
      && (forall b :: b in Bufs() && b.dev != 0 ==> (b.dev, b.block) in cached && cached[(b.dev, b.block)] == b)
      && (forall k :: k in cached ==> k.0 != 0 && cached[k] in Bufs() && (cached[k].dev, cached[k].block) == k)
    }

    /** There is a driver for the major number; number 0 is `no_dev`. */
    predicate HasDriver(dev: DevNr) {
      0 < dev / 0x100 < NR_BLK_DEV && driver(dev / 0x100)
    }

    /** The major number is the high byte of a device number; 1 to 6 may have a driver. */
    lemma DriverOf(dev: DevNr)
      ensures HasDriver(dev) <==> exists major :: 1 <= major <= 6 && driver(major) && 256 * major <= dev < 256 * major + 256
    {
      if HasDriver(dev) {
        assert driver(dev / 256);
      }
    }

    ghost predicate BufOk(b: BufferHead)
      reads this`disk, this`written, this`held, this`ours, b
    {
      && held[b] <= b.count
      && (b.lock <==> b.phase != Idle)
      && (b in ours ==> b.phase == Locked)
      && (b.dirt ==> b.uptodate)
      && (b.phase == Reading ==> !b.uptodate && HasDriver(b.dev))
      && (b.phase == Writing ==> b.uptodate)
      && (b.uptodate ==> HasDriver(b.dev) && b.data == written((b.dev, b.block)))
      && (b.dev != 0 && !b.dirt && b.phase != Writing ==> disk((b.dev, b.block)) == written((b.dev, b.block)))
    }

    /** Up-to-date buffers hold what was last written; only dirty or in-flight buffers are ahead of the disk. */
    ghost predicate DataOk()
      reads this`pool, this`cached, this`disk, this`written, this`held, this`ours, Bufs()
    {
      && (forall b :: b in Bufs() ==> BufOk(b))
      && (forall k: Id :: k !in cached ==> disk(k) == written(k))
    }

    ghost predicate Valid()
      reads this, hashTable, Bufs()
    {
      FreeOn(Bufs()) && HashOn(Bufs()) && IdentOk() && DataOk() && moves <= budget
    }

    /** What other tasks leave alone: the identity of what we refer to or locked, and the blocks
        only we write. What we refer to stays up to date, a read that we started ends in one of two ways,
        and no buffer of our blocks becomes dirty. */
    twostate predicate Rely()
      reads this, Bufs()
    {
      Onward() && forall b :: b in Bufs() ==> LeftAlone(b)
    }

    twostate predicate Onward()
      reads this
    {
      && pool == old(pool) && moves >= old(moves) && old(failed) <= failed
      && (forall k :: k in mine ==> written(k) == old(written(k)))
    }

    twostate predicate LeftAlone(b: BufferHead)
      reads this, b
    {
      && (old(held)[b] > 0 || b in old(ours) ==> b.dev == old(b.dev) && b.block == old(b.block))
      && (b in old(ours) ==> b.uptodate == old(b.uptodate) && (old(b.dirt) ==> b.dirt))
      && (old(held)[b] > 0 && old(b.uptodate) ==> b.uptodate)
      && (old(held)[b] > 0 && old(b.phase) == Reading ==>
            b.phase == Reading || b.uptodate || failed[(b.dev, b.block)] > old(failed)[(b.dev, b.block)])
      && (b.dirt && (b.dev, b.block) in mine ==> old(b.dirt) && b.dev == old(b.dev) && b.block == old(b.block))
    }

    /** Unless other tasks have moved, nothing was cached or dropped and no buffer was referenced,
        released, renamed or made dirty. */
    twostate predicate Quiet()
      reads this, Bufs()
    {
      && pool == old(pool)
      && (moves == old(moves) ==> cached == old(cached) && forall b :: b in Bufs() ==> Unmoved(b))
    }

    twostate predicate Unmoved(b: BufferHead)
      reads b
    {
      b.count == old(b.count) && b.dev == old(b.dev) && b.block == old(b.block) && (b.dirt ==> old(b.dirt))
    }

    // ----- the atomic steps between two sleeping points ------------------

    method Reference(b: BufferHead)
      requires Valid() && b in Bufs()
      modifies b`count
      ensures Valid() && b.count == old(b.count) + 1
    {
      hide FreeOn, HashOn, IdentOk;
      b.count := b.count + 1;
    }

    /** `b_count--` on a reference that is not ours. */
    method Release(b: BufferHead)
      requires Valid() && b in Bufs() && b.count > held[b]
      modifies b`count
      ensures Valid() && b.count == old(b.count) - 1
    {
      hide FreeOn, HashOn, IdentOk;
      b.count := b.count - 1;
    }

    /** Only buffer b and what is stored for its own identity changed. */
    twostate predicate OnlyAt(b: BufferHead)
      reads this, Bufs()
    {
      && pool == old(pool) && cached == old(cached) && held == old(held) && ours == old(ours) && b in Bufs()
      && b.dev == old(b.dev) && b.block == old(b.block)
      && (forall c :: c in Bufs() && c != b ==> unchanged(c))
      && (forall k: Id :: k != (b.dev, b.block) || b.dev == 0 ==> disk(k) == old(disk)(k) && written(k) == old(written)(k))
    }

    twostate lemma OthersOk(b: BufferHead)
      requires old(IdentOk()) && old(DataOk()) && OnlyAt(b) && BufOk(b)
      ensures DataOk()
    {
      forall c | c in Bufs() && c != b
        ensures BufOk(c)
      {
        assert old(BufOk(c));
        assert c.dev != 0 ==> cached[(c.dev, c.block)] == c;
        assert b.dev != 0 ==> cached[(b.dev, b.block)] == b;
      }
    }

    /** An up-to-date, dirty buffer may hold anything, as long as it counts as the last contents of its block. */
    twostate lemma ChangedOk(b: BufferHead)
      requires old(IdentOk()) && old(DataOk()) && OnlyAt(b)
      requires b.count == old(b.count) && b.lock == old(b.lock) && b.phase == old(b.phase) && b.phase != Reading
      requires b.uptodate && b.dirt && HasDriver(b.dev) && b.data == written((b.dev, b.block))
      ensures DataOk()
    {
      hide OnlyAt;
      assert old(BufOk(b)) && BufOk(b) by { SameHolders(b); }
      OthersOk(b);
    }

    twostate lemma SameHolders(b: BufferHead)
      requires OnlyAt(b) && old(DataOk())
      ensures held == old(held) && ours == old(ours) && b.dev == old(b.dev) && b.block == old(b.block) && old(BufOk(b))
    {
    }

    /** New contents for a referenced buffer: in place when it is up to date, or all of it at once. */
    method Modify(b: BufferHead, data: Block)
      requires Valid() && b in Bufs() && b.count > 0
      requires b.uptodate || (b.phase == Idle && HasDriver(b.dev))
      modifies b`data, b`uptodate, b`dirt, this`written
      ensures Valid()
      ensures b.data == data && b.uptodate && b.dirt
      ensures forall k :: written(k) == if k == (b.dev, b.block) then data else old(written)(k)
    {
      hide FreeOn, HashOn, IdentOk, DataOk;
      BufOkOf(b);
      ghost var id: Id := (b.dev, b.block);
      b.data := data;
      b.uptodate := true;
      b.dirt := true;
      ghost var w := written;
      written := (k: Id) => if k == id then data else w(k);
      ChangedOk(b);
    }

    /** free_block forgets an unlocked cached block: its last contents are now those of the disk. */
    method Discard(b: BufferHead)
      requires Valid() && b in Bufs() && b.dev != 0 && b.phase == Idle
      modifies b`uptodate, b`dirt, this`written
      ensures Valid()
      ensures !b.uptodate && !b.dirt
      ensures forall k :: k != (b.dev, b.block) ==> written(k) == old(written)(k)
    {
      hide FreeOn, HashOn, IdentOk, DataOk;
      BufOkOf(b);
      ghost var id: Id := (b.dev, b.block);
      b.dirt := false;
      b.uptodate := false;
      ghost var w, onDisk := written, disk(id);
      written := (k: Id) => if k == id then onDisk else w(k);
      OthersOk(b);
    }

    /** lock_buffer on an unlocked buffer. */
    method LockNow(b: BufferHead)
      requires Valid() && b in Bufs() && !b.lock
      modifies b`lock, b`phase
      ensures Valid() && b.lock && b.phase == Locked
    {
      hide FreeOn, HashOn, IdentOk;
      b.lock := true;
      b.phase := Locked;
    }

    /** unlock_buffer without a request. */
    method UnlockNow(b: BufferHead)
      requires Valid() && b in Bufs() && b.phase == Locked && b !in ours
      modifies b`lock, b`phase
      ensures Valid() && !b.lock && b.phase == Idle
    {
      hide FreeOn, HashOn, IdentOk;
      b.lock := false;
      b.phase := Idle;
    }

    /** add_request: a write takes the dirty flag with it. */
    method Queue(b: BufferHead)
      requires Valid() && b in Bufs() && b.phase == Locked && b !in ours
      requires HasDriver(b.dev) && (b.dirt || !b.uptodate)
      modifies b`dirt, b`phase
      ensures Valid()
      ensures b.phase == (if old(b.dirt) then Writing else Reading) && !b.dirt
    {
      hide FreeOn, HashOn, IdentOk;
      if b.dirt {
        b.dirt := false;
        b.phase := Writing;
      } else {
        b.phase := Reading;
      }
    }

    /** end_request after a read, which may have failed. */
    method FinishRead(b: BufferHead)
      requires Valid() && b in Bufs() && b.phase == Reading
      modifies b`data, b`uptodate, b`lock, b`phase, this`failed
      ensures Valid() && !b.lock && b.phase == Idle
      ensures failed == if b.uptodate then old(failed) else old(failed) + multiset{(b.dev, b.block)}
    {
      hide FreeOn, HashOn, IdentOk;
      var ok: bool := *;
      if ok {
        b.data := disk((b.dev, b.block));
        b.uptodate := true;
      } else {
        failed := failed + multiset{(b.dev, b.block)};
      }
      b.lock := false;
      b.phase := Idle;
    }

    /** end_request after a write. A buffer changed while it was being written leaves something unknown
        on the disk, and is dirty again. */
    method FinishWrite(b: BufferHead)
      requires Valid() && b in Bufs() && b.phase == Writing
      modifies b`lock, b`phase, this`disk
      ensures Valid() && !b.lock && b.phase == Idle
    {
      hide FreeOn, HashOn, IdentOk, DataOk;
      BufOkOf(b);
      var id: Id := (b.dev, b.block);
      assert b.dev != 0;
      var d := disk;
      var out: Block := b.data;
      if b.dirt {
        out := *;
      }
      disk := (k: Id) => if k == id then out else d(k);
      b.lock := false;
      b.phase := Idle;
      OthersOk(b);
    }

    method FinishIo(b: BufferHead)
      requires Valid() && b in Bufs() && b.phase in {Reading, Writing}
      modifies b`data, b`uptodate, b`lock, b`phase, this`disk, this`failed
      ensures Valid() && !b.lock && b.phase == Idle
      ensures old(b.uptodate) ==> b.uptodate
      ensures failed == if b.uptodate then old(failed) else old(failed) + multiset{(b.dev, b.block)}
    {
      hide FreeOn, HashOn, IdentOk, DataOk;
      BufOkOf(b);
      if b.phase == Reading {
        FinishRead(b);
      } else {
        FinishWrite(b);
      }
    }

    /** find_buffer: walk one hash chain. */
    method FindBuffer(dev: DevNr, block: BlockNr) returns (r: BufferHead?)
      requires HashOn(Bufs()) && IdentOk()
      ensures r == if (dev, block) in cached then cached[(dev, block)] else null
    {
      hide HashFn, Distinct;
      var h := HashFn(dev, block);
      ghost var s, i := chains[h], 0;
      assert (dev, block) in cached ==> cached[(dev, block)] in s;
      assert Chain(s, hashTable[h]);
      r := hashTable[h];
      while r != null
        invariant 0 <= i <= |s| && r == if i < |s| then s[i] else null
        invariant forall j :: 0 <= j < i ==> s[j].dev != dev || s[j].block != block
        decreases |s| - i
      {
        assert s[i] in chains[h];
        if r.dev == dev && r.block == block {
          return;
        }
        assert s[i].next == if i + 1 < |s| then s[i + 1] else null;
        r := r.next;
        i := i + 1;
      }
    }

    /** Move bh to the end of the free list and to the chain of its new identity. */
    method Requeue(bh: BufferHead, dev: DevNr, block: BlockNr)
      requires FreeOn(Bufs()) && HashOn(Bufs()) && bh in Bufs()
      modifies this`chains, this`free, this`freeList, hashTable
      modifies Bufs()`next, Bufs()`prev, Bufs()`nextFree, Bufs()`prevFree, bh`dev, bh`block
      ensures FreeOn(Bufs()) && HashOn(Bufs())
      ensures bh in old(free) && free == Minus(old(free), bh) + [bh]
      ensures bh.dev == dev && bh.block == block
    {
      hide FreeOn, HashOn, HashFn, Minus;
      RemoveFromHash(bh);
      RemoveFromFree(bh);
      bh.dev := dev;
      bh.block := block;
      InsertIntoFree(bh);
      InsertIntoHash(bh);
    }

    /** Only bh changed, from one unreferenced clean identity to an uncached one. */
    twostate predicate Renamed(bh: BufferHead, new id1: Id)
      reads this, Bufs()
    {
      && pool == old(pool) && bh in Bufs() && old(bh.count == 0 && !bh.lock && !bh.dirt) && id1 !in old(cached)
      && bh.dev == id1.0 && bh.block == id1.1 && bh.count == 1 && !bh.uptodate && !bh.dirt
      && bh.lock == old(bh.lock) && bh.phase == old(bh.phase)
      && (forall c :: c in Bufs() && c != bh ==>
            && c.dev == old(c.dev) && c.block == old(c.block) && c.count == old(c.count) && c.lock == old(c.lock)
            && c.uptodate == old(c.uptodate) && c.dirt == old(c.dirt) && c.data == old(c.data) && c.phase == old(c.phase))
      && disk == old(disk) && written == old(written) && held == old(held) && ours == old(ours)
      && cached == var rest := if old(bh.dev) != 0 then old(cached) - {(old(bh.dev), old(bh.block))} else old(cached);
                   if id1.0 != 0 then rest[id1 := bh] else rest
    }

    twostate lemma IdentRenamed(bh: BufferHead, new id1: Id)
      requires old(IdentOk()) && Renamed(bh, id1)
      ensures IdentOk()
    {
    }

    twostate lemma DataRenamed(bh: BufferHead, new id1: Id)
      requires old(IdentOk()) && old(DataOk()) && Renamed(bh, id1)
      ensures DataOk()
    {
      forall c | c in Bufs()
        ensures BufOk(c)
      {
        assert old(BufOk(c));
      }
    }

    /** The end of getblk: the unreferenced, unlocked, clean victim gets a new identity. */
    method Recycle(bh: BufferHead, dev: DevNr, block: BlockNr)
      requires Valid() && bh in Bufs()
      requires bh.count == 0 && !bh.lock && !bh.dirt
      requires (dev, block) !in cached
      modifies this`chains, this`free, this`freeList, this`cached, hashTable
      modifies Bufs()`next, Bufs()`prev, Bufs()`nextFree, Bufs()`prevFree
      modifies bh`dev, bh`block, bh`count, bh`dirt, bh`uptodate
      ensures Valid()
      ensures bh in old(free) && free == Minus(old(free), bh) + [bh]
      ensures bh.dev == dev && bh.block == block && bh.count == 1 && !bh.uptodate && !bh.dirt
    {
      hide FreeOn, HashOn, Minus, IdentOk, DataOk, Renamed;
      TakeOver(bh, dev, block);
      IdentRenamed(bh, (dev, block));
      DataRenamed(bh, (dev, block));
    }

    /** The statements of that end. */
    method TakeOver(bh: BufferHead, dev: DevNr, block: BlockNr)
      requires FreeOn(Bufs()) && HashOn(Bufs()) && bh in Bufs()
      requires bh.count == 0 && !bh.lock && !bh.dirt
      requires (dev, block) !in cached
      modifies this`chains, this`free, this`freeList, this`cached, hashTable
      modifies Bufs()`next, Bufs()`prev, Bufs()`nextFree, Bufs()`prevFree
      modifies bh`dev, bh`block, bh`count, bh`dirt, bh`uptodate
      ensures FreeOn(Bufs()) && HashOn(Bufs()) && Renamed(bh, (dev, block))
      ensures bh in old(free) && free == Minus(old(free), bh) + [bh]
      ensures bh.dev == dev && bh.block == block && bh.count == 1 && !bh.uptodate && !bh.dirt
    {
      hide FreeOn, HashOn, Minus, HashFn, IndexOf;
      ghost var rest := if bh.dev != 0 then cached - {(bh.dev, bh.block)} else cached;
      bh.count := 1;
      bh.dirt := false;
      bh.uptodate := false;
      Requeue(bh, dev, block);
      cached := if dev != 0 then rest[(dev, block) := bh] else rest;
    }

    // ----- sleeping: anything the other tasks can do ---------------------

    /** Another task references, releases, changes or forgets a buffer. */
    method OtherUse(b: BufferHead)
      requires Valid() && b in Bufs()
      modifies b, this`written
      ensures Valid() && Rely()
    {
      hide FreeOn, HashOn, DataOk, IdentOk, HashFn;
      BufOkOf(b);
      if {
        case true => Reference(b);
        case b.count > held[b] => Release(b);
        case b.count > held[b] && HasDriver(b.dev) && (b.uptodate || !b.lock) && (b.dev, b.block) !in mine =>
          var data: Block := *;
          Modify(b, data);
        case b.count == 1 && held[b] == 0 && b.dev != 0 && !b.lock && (b.dev, b.block) !in mine => Discard(b);
      }
    }

    /** Another task locks or unlocks a buffer, queues a request for it, or the device finishes one. */
    method OtherIo(b: BufferHead)
      requires Valid() && b in Bufs()
      modifies b, this`disk, this`failed
      ensures Valid() && Rely()
    {
      hide FreeOn, HashOn, DataOk, IdentOk, HashFn;
      BufOkOf(b);
      if {
        case !b.lock => LockNow(b);
        case b.phase == Locked && b !in ours => UnlockNow(b);
        case b.phase == Locked && b !in ours && HasDriver(b.dev) && (b.dirt || !b.uptodate) => Queue(b);
        case b.phase in {Reading, Writing} => FinishIo(b);
        case true =>
      }
    }

    /** Another task gives a buffer that nobody uses to another block, unless that has one. */
    method OtherRename(b: BufferHead, dev: DevNr, block: BlockNr)
      requires Valid() && b in Bufs()
      modifies this`freeList, this`free, this`chains, this`cached, hashTable, Bufs()
      ensures Valid() && Rely()
    {
      hide FreeOn, HashOn, DataOk, IdentOk, HashFn, Minus;
      if b.count == 0 && !b.lock && !b.dirt {
        BufOkOf(b);
        var other := FindBuffer(dev, block);
        if other == null {
          Recycle(b, dev, block);
        }
      }
    }

    /** One atomic step of some other task, on any buffer. */
    method OtherStep()
      requires Valid() && moves < budget
      modifies this`freeList, this`free, this`chains, this`cached, this`disk, this`written, this`moves, this`failed
      modifies hashTable, Bufs()
      ensures Valid() && Rely() && moves == old(moves) + 1
    {
      hide FreeOn, HashOn, DataOk, IdentOk, HashFn;
      moves := moves + 1;
      var i: int := *;
      if 0 <= i < |pool| {
        var b := pool[i];
        if {
          case true => OtherUse(b);
          case true => OtherIo(b);
          case true =>
            var dev: DevNr, block: BlockNr := *, *;
            OtherRename(b, dev, block);
        }
      }
    }

    lemma BufOkOf(b: BufferHead)
      requires DataOk() && b in Bufs()
      ensures BufOk(b)
    {
    }

    /** Sleep: any number of steps of the other tasks. */
    method Sleep()
      requires Valid()
      modifies this`freeList, this`free, this`chains, this`cached, this`disk, this`written, this`moves, this`failed
      modifies hashTable, Bufs()
      ensures Valid() && Rely() && Quiet()
    {
      hide FreeOn, HashOn, DataOk, IdentOk;
      var more: bool := *;
      while more && moves < budget
        invariant Valid() && Rely() && Quiet()
        decreases budget - moves
      {
        OtherStep();
        more := *;
      }
    }

    /** wait_on_buffer: when it returns the buffer is not locked. Whoever locked it goes on. */
    method WaitOnBuffer(b: BufferHead)
      requires Valid() && b in Bufs() && b !in ours
      modifies this`freeList, this`free, this`chains, this`cached, this`disk, this`written, this`moves, this`failed
      modifies hashTable, Bufs()
      ensures Valid() && Rely() && Quiet() && !b.lock
      ensures !old(b.lock) ==> unchanged(this) && unchanged(hashTable) && unchanged(Bufs())
    {
      hide FreeOn, HashOn, IdentOk, DataOk;
      if b.lock {
        Sleep();
        if b.lock {
          Settle(b);
        }
      }
    }

    /** Whoever locked the buffer finishes with it. */
    method Settle(b: BufferHead)
      requires Valid() && b in Bufs() && b !in ours && b.lock
      modifies b, this`disk, this`failed
      ensures Valid() && Rely() && Quiet() && !b.lock
    {
      hide FreeOn, HashOn, IdentOk, DataOk;
      BufOkOf(b);
      if b.phase == Locked {
        UnlockNow(b);
      } else {
        FinishIo(b);
      }
    }

    /** Our own reference: `b_count++` and `b_count--`. */
    method Take(b: BufferHead)
      requires Valid() && b in Bufs()
      modifies b`count, this`held
      ensures Valid() && held == old(held) + multiset{b} && b.count == old(b.count) + 1
    {
      hide FreeOn, HashOn, IdentOk;
      b.count := b.count + 1;
      held := held + multiset{b};
    }

    method Drop(b: BufferHead)
      requires Valid() && b in Bufs() && held[b] > 0 && b !in ours
      modifies b`count, this`held
      ensures Valid() && held == old(held) - multiset{b}
    {
      hide FreeOn, HashOn, IdentOk;
      BufOkOf(b);
      b.count := b.count - 1;
      held := held - multiset{b};
    }

    /** get_hash_table. The buffer is referenced before the wait, so it still is the right one after it
        and the retry of the original is never taken. */
    method GetHashTable(dev: DevNr, block: BlockNr) returns (bh: BufferHead?)
      requires Valid() && ours == {}
      modifies this`freeList, this`free, this`chains, this`cached, this`disk, this`written, this`moves, this`failed
      modifies this`held, hashTable, Bufs()
      ensures Valid() && Rely()
      ensures bh == null <==> (dev, block) !in old(cached)
      ensures bh == null ==> unchanged(this) && unchanged(hashTable) && unchanged(Bufs())
      ensures bh != null ==> bh == old(cached)[(dev, block)] && (old(bh.uptodate) ==> bh.uptodate)
      ensures bh != null ==> bh in Bufs() && bh.dev == dev && bh.block == block && !bh.lock && held == old(held) + multiset{bh}
    {
      hide FreeOn, HashOn, HashFn, DataOk, Quiet;
      bh := FindBuffer(dev, block);
      if bh == null {
        return;
      }
      Hold(bh);
    }

    /** Take a reference, then wait. */
    method Hold(bh: BufferHead)
      requires Valid() && ours == {} && bh in Bufs()
      modifies this`freeList, this`free, this`chains, this`cached, this`disk, this`written, this`moves, this`failed
      modifies this`held, hashTable, Bufs()
      ensures Valid() && Rely() && !bh.lock && held == old(held) + multiset{bh}
      ensures bh.dev == old(bh.dev) && bh.block == old(bh.block) && (old(bh.uptodate) ==> bh.uptodate)
    {
      hide FreeOn, HashOn, HashFn, DataOk, IdentOk, Quiet;
      Take(bh);
      WaitOnBuffer(bh);
    }

    /** Wait for a free request, keeping the buffer locked. */
    method AwaitRequest(b: BufferHead)
      requires Valid() && b in Bufs() && ours == {} && b.phase == Locked
      modifies this`freeList, this`free, this`chains, this`cached, this`disk, this`written, this`moves, this`failed
      modifies this`ours, hashTable, Bufs()
      ensures Valid() && Rely() && Quiet() && ours == {}
      ensures b.phase == Locked && b.uptodate == old(b.uptodate) && (old(b.dirt) ==> b.dirt) && (b.dirt ==> b.uptodate)
      ensures b.dev == old(b.dev) && b.block == old(b.block)
    {
      hide Valid, BufOk;
      SetOurs({b});
      Sleep();
      StillLocked(b);
      SetOurs({});
    }

    /** The second half of make_request on a buffer we have locked: wait for a free request, then queue it. */
    method Submit(b: BufferHead)
      requires Valid() && b in Bufs() && ours == {} && b.phase == Locked && HasDriver(b.dev) && (b.dirt || !b.uptodate)
      modifies this`freeList, this`free, this`chains, this`cached, this`disk, this`written, this`moves, this`failed
      modifies this`ours, hashTable, Bufs()
      ensures Valid() && Rely() && Quiet() && ours == {}
      ensures b.phase == (if old(b.dirt) then Writing else Reading) && !b.dirt && b.uptodate == old(b.uptodate)
    {
      hide Valid, BufOk;
      DirtyIsFresh(b);
      AwaitRequest(b);
      Queue(b);
    }

    lemma DirtyIsFresh(b: BufferHead)
      requires Valid() && b in Bufs()
      ensures b.dirt ==> b.uptodate
    {
      hide FreeOn, HashOn, IdentOk;
      BufOkOf(b);
    }

    lemma StillLocked(b: BufferHead)
      requires Valid() && b in Bufs() && b in ours
      ensures b.phase == Locked && (b.dirt ==> b.uptodate)
    {
      hide FreeOn, HashOn, IdentOk;
      BufOkOf(b);
    }

    method SetOurs(s: set<BufferHead>)
      requires Valid() && forall b :: b in Bufs() && b in s ==> b.phase == Locked
      modifies this`ours
      ensures Valid() && ours == s
    {
      hide FreeOn, HashOn, HashFn, IdentOk;
      ours := s;
    }

    /** lock_buffer. */
    method LockBuffer(b: BufferHead)
      requires Valid() && b in Bufs() && b !in ours
      modifies this`freeList, this`free, this`chains, this`cached, this`disk, this`written, this`moves, this`failed
      modifies hashTable, Bufs()
      ensures Valid() && Rely() && Quiet() && b.phase == Locked
    {
      hide FreeOn, HashOn, HashFn, IdentOk, DataOk;
      WaitOnBuffer(b);
      BufOkOf(b);
      LockNow(b);
    }

    /** make_request on the locked buffer: drop the request if there is nothing to do, else queue it. */
    method MakeRequest(read: bool, b: BufferHead)
      requires Valid() && b in Bufs() && ours == {} && b.phase == Locked && (read ==> HasDriver(b.dev))
      modifies this`freeList, this`free, this`chains, this`cached, this`disk, this`written, this`moves, this`failed
      modifies this`ours, hashTable, Bufs()
      ensures Valid() && Rely() && Quiet() && ours == {}
      ensures read ==> b.phase == if b.uptodate then Idle else Reading
      ensures !read ==> !b.dirt && b.phase in {Idle, Writing}
    {
      hide FreeOn, HashOn, HashFn, IdentOk, DataOk;
      BufOkOf(b);
      if if read then b.uptodate else !b.dirt {
        UnlockNow(b);
      } else {
        Submit(b);
      }
    }

    /** ll_rw_block: lock, drop the request if there is nothing to do, else queue it. Afterwards a write
        is on its way or not needed, and so is a read; without a driver nothing happens. */
    method LlRwBlock(read: bool, b: BufferHead)
      requires Valid() && b in Bufs() && ours == {} && (read ==> held[b] > 0)
      modifies this`freeList, this`free, this`chains, this`cached, this`disk, this`written, this`moves, this`failed
      modifies this`ours, hashTable, Bufs()
      ensures Valid() && Rely() && Quiet() && ours == {}
      ensures !HasDriver(old(b.dev)) ==> unchanged(this) && unchanged(hashTable) && unchanged(Bufs())
      ensures HasDriver(old(b.dev)) && read ==> b.phase == if b.uptodate then Idle else Reading
      ensures HasDriver(old(b.dev)) && !read ==> !b.dirt && b.phase in {Idle, Writing}
    {
      hide FreeOn, HashOn, HashFn, IdentOk, DataOk;
      if !HasDriver(b.dev) {
        return;
      }
      LockBuffer(b);
      MakeRequest(read, b);
    }

    lemma DirtyHasDriver(b: BufferHead)
      requires Valid() && b in Bufs()
      ensures b.dirt ==> HasDriver(b.dev)
    {
      hide FreeOn, HashOn, IdentOk;
      BufOkOf(b);
    }

    /** The buffer is clean if it is one of ours on the device, or if nobody has moved since m0. */
    ghost predicate Synced(b: BufferHead, dev: DevNr, m0: nat)
      reads this`moves, b
    {
      b.dev == dev && ((b.dev, b.block) in mine || moves == m0) ==> !b.dirt
    }

    twostate lemma SyncedStays(b: BufferHead, new dev: DevNr, new m0: nat)
      requires Rely() && Quiet() && b in Bufs() && m0 <= old(moves) && old(Synced(b, dev, m0))
      ensures Synced(b, dev, m0)
    {
      assert LeftAlone(b);
    }

    lemma SyncedSince(b: BufferHead, dev: DevNr, m0: nat, m1: nat)
      requires Synced(b, dev, m1) && m0 <= m1 <= moves
      ensures Synced(b, dev, m0)
    {
    }

    /** What a pass does with one buffer. */
    method SyncOne(b: BufferHead, dev: DevNr)
      requires Valid() && ours == {} && b in Bufs()
      modifies this`freeList, this`free, this`chains, this`cached, this`disk, this`written, this`moves, this`failed
      modifies this`ours, hashTable, Bufs()
      ensures Valid() && Rely() && Quiet() && ours == {}
      ensures Synced(b, dev, old(moves))
    {
      hide FreeOn, HashOn, HashFn, IdentOk, DataOk;
      if b.dev == dev {
        WaitOnBuffer(b);
        if b.dev == dev && b.dirt {
          DirtyHasDriver(b);
          LlRwBlock(false, b);
        }
      }
    }

    /** One of sync_dev's two passes over the pool. */
    method SyncPass(dev: DevNr)
      requires Valid() && ours == {}
      modifies this`freeList, this`free, this`chains, this`cached, this`disk, this`written, this`moves, this`failed
      modifies this`ours, hashTable, Bufs()
      ensures Valid() && Rely() && Quiet() && ours == {}
      ensures forall b :: b in Bufs() ==> Synced(b, dev, old(moves))
    {
      hide Valid, Synced;
      ghost var m0 := moves;
      for i := 0 to |pool|
        invariant Valid() && Rely() && Quiet() && ours == {}
        invariant forall j :: 0 <= j < i ==> Synced(pool[j], dev, m0)
      {
        ghost var p, m1 := pool, moves;
        label Before:
        SyncOne(pool[i], dev);
        forall j | 0 <= j <= i
          ensures Synced(pool[j], dev, m0)
        {
          if j < i {
            SyncedStays@Before(p[j], dev, m0);
          } else {
            SyncedSince(p[j], dev, m0, m1);
          }
        }
      }
    }

    /** sync_dev; sync_inodes in between is other tasks' work to the cache. Only blocks that others
        write can be dirty on the device afterwards, and only if they did something meanwhile. */
    method SyncDev(dev: DevNr)
      requires Valid() && ours == {}
      modifies this`freeList, this`free, this`chains, this`cached, this`disk, this`written, this`moves, this`failed
      modifies this`ours, hashTable, Bufs()
      ensures Valid() && Rely() && Quiet() && ours == {}
      ensures forall b :: b in Bufs() ==> Synced(b, dev, old(moves))
    {
      hide FreeOn, HashOn, HashFn, IdentOk, DataOk;
      SyncPass(dev);
      Sleep();
      SyncPass(dev);
    }

    /** BADNESS: dirty counts double. */
    static function Badness(b: BufferHead): nat
      reads b
    {
      (if b.dirt then 2 else 0) + (if b.lock then 1 else 0)
    }

    /** Unreferenced buffers before bh on the free list are all worse. */
    ghost predicate FirstLeast(bh: BufferHead)
      reads this`free, set b | b in free
    {
      exists k :: 0 <= k < |free| && free[k] == bh && (forall j :: 0 <= j < k && free[j].count == 0 ==> Badness(bh) < Badness(free[j]))
    }

    /** a is a worse choice than b: dirty and b is not, or as dirty and locked and b is not. */
    static ghost predicate Worse(a: BufferHead, b: BufferHead)
      reads a, b
    {
      (a.dirt && !b.dirt) || (a.dirt == b.dirt && a.lock && !b.lock)
    }

    static lemma BadnessIs(a: BufferHead, b: BufferHead)
      ensures Badness(b) < Badness(a) <==> Worse(a, b)
    {
    }

    /** bh was the choice of the search: see ChosenAt. */
    twostate predicate WasChosen(new bh: BufferHead)
      reads this
    {
      exists k :: 0 <= k < |old(free)| && old(free)[k] == bh && old(ChosenAt(k))
    }

    /** free[k] is unreferenced, no unreferenced buffer is a better choice, and those before it are worse. */
    ghost predicate ChosenAt(k: int)
      requires 0 <= k < |free|
      reads this`free, set b | b in free
    {
      && free[k].count == 0
      && (forall j :: 0 <= j < k && free[j].count == 0 ==> Worse(free[j], free[k]))
      && (forall j :: 0 <= j < |free| && free[j].count == 0 ==> !Worse(free[k], free[j]))
    }

    lemma LeastIsChosen(bh: BufferHead) returns (k: nat)
      requires FreeOn(Bufs()) && bh in Bufs() && bh.count == 0 && FirstLeast(bh)
      requires forall b :: b in Bufs() && b.count == 0 ==> Badness(bh) <= Badness(b)
      ensures k < |free| && free[k] == bh && ChosenAt(k)
    {
      hide Distinct, Badness, Worse;
      k :| 0 <= k < |free| && free[k] == bh && (forall j :: 0 <= j < k && free[j].count == 0 ==> Badness(bh) < Badness(free[j]));
      forall j | 0 <= j < |free| && free[j].count == 0
        ensures !Worse(bh, free[j]) && (j < k ==> Worse(free[j], bh))
      {
        assert free[j] in Bufs();
        BadnessIs(bh, free[j]);
        BadnessIs(free[j], bh);
      }
      assert ChosenAt(k);
    }

    /** bh was the first buffer of the free list that could be taken as it was. */
    twostate predicate WasFirstReady(new bh: BufferHead)
      reads this
    {
      exists k :: 0 <= k < |old(free)| && old(free)[k] == bh && old(ReadyAt(k)) && forall j :: 0 <= j < k ==> !old(ReadyAt(j))
    }

    ghost predicate ReadyAt(k: int)
      requires 0 <= k < |free|
      reads this`free, set b | b in free
    {
      free[k].count == 0 && !free[k].dirt && !free[k].lock
    }

    lemma ChosenIsReady(k: nat)
      requires FreeOn(Bufs()) && FreeAtHand() && k < |free| && ChosenAt(k)
      ensures ReadyAt(k) && forall j :: 0 <= j < k ==> !ReadyAt(j)
    {
      hide Distinct;
      var b :| b in Bufs() && b.count == 0 && !b.dirt && !b.lock;
      var i :| 0 <= i < |free| && free[i] == b;
      assert !Worse(free[k], free[i]);
      forall j | 0 <= j < k
        ensures !ReadyAt(j)
      {
        assert free[j].count == 0 ==> Worse(free[j], free[k]);
      }
    }

    /** getblk's search: the first least bad unreferenced buffer in free-list order, NULL if all are referenced. */
    method PickVictim() returns (bh: BufferHead?)
      requires FreeOn(Bufs())
      ensures bh == null ==> forall b :: b in Bufs() ==> b.count > 0
      ensures bh != null ==> bh in Bufs() && bh.count == 0
      ensures bh != null ==> forall b :: b in Bufs() && b.count == 0 ==> Badness(bh) <= Badness(b)
      ensures bh != null ==> WasChosen(bh) && (old(FreeAtHand()) ==> WasFirstReady(bh) && !bh.dirt && !bh.lock)
      ensures bh == null ==> !old(FreeAtHand())
    {
      hide Distinct, ChosenAt;
      bh := null;
      var tmp := freeList;
      ghost var i, k := 0, 0;
      while true
        invariant 0 <= i < |free| && tmp == free[i]
        invariant bh == null ==> forall j :: 0 <= j < i ==> free[j].count > 0
        invariant bh != null ==> 0 <= k < i && free[k] == bh && bh.count == 0
        invariant bh != null ==> forall j :: 0 <= j < i && free[j].count == 0 ==> Badness(bh) <= Badness(free[j])
        invariant bh != null ==> forall j :: 0 <= j < k && free[j].count == 0 ==> Badness(bh) < Badness(free[j])
        decreases |free| - i
      {
        if tmp.count == 0 && (bh == null || Badness(tmp) < Badness(bh)) {
          bh, k := tmp, i;
          if Badness(tmp) == 0 {
            ghost var at := Concluded(bh, k);
            return;
          }
        }
        assert free[i].nextFree == free[if i + 1 < |free| then i + 1 else 0];
        NextIsHead(i);
        tmp := tmp.nextFree;
        if tmp == freeList {
          ghost var at := Concluded(bh, k);
          return;
        }
        i := i + 1;
      }
    }

    /** What the search has found. */
    lemma Concluded(bh: BufferHead?, k: nat) returns (at: nat)
      requires FreeOn(Bufs())
      requires bh == null ==> forall j :: 0 <= j < |free| ==> free[j].count > 0
      requires bh != null ==> k < |free| && free[k] == bh && bh.count == 0
      requires bh != null ==> forall j :: 0 <= j < |free| && free[j].count == 0 ==> Badness(bh) <= Badness(free[j])
      requires bh != null ==> forall j :: 0 <= j < k && free[j].count == 0 ==> Badness(bh) < Badness(free[j])
      ensures bh == null ==> !FreeAtHand()
      ensures bh != null ==> at < |free| && free[at] == bh && ChosenAt(at)
      ensures bh != null && FreeAtHand() ==> ReadyAt(at) && forall j :: 0 <= j < at ==> !ReadyAt(j)
    {
      hide Distinct, Badness, ChosenAt, ReadyAt;
      at := 0;
      if bh == null {
        forall b | b in Bufs() ensures b.count > 0 {
          assert b in free;
        }
        NoneAtHand();
      } else {
        forall b | b in Bufs() && b.count == 0 ensures Badness(bh) <= Badness(b) {
          assert b in free;
        }
        at := LeastIsChosen(bh);
        if FreeAtHand() {
          ChosenIsReady(at);
        }
      }
    }

    lemma NextIsHead(i: int)
      requires FreeOn(Bufs()) && 0 <= i < |free|
      ensures free[i].nextFree == freeList <==> i + 1 == |free|
    {
    }

    /** Sync a dirty victim until it is clean or somebody references it. As long as nobody moves, one pass is enough. */
    method Clean(bh: BufferHead)
      requires Valid() && bh in Bufs() && ours == {} && !bh.lock && bh.count == 0
      modifies this`freeList, this`free, this`chains, this`cached, this`disk, this`written, this`moves, this`failed
      modifies this`ours, hashTable, Bufs()
      ensures Valid() && Rely() && Quiet() && ours == {}
      ensures bh.count == 0 ==> !bh.lock && !bh.dirt
      ensures !old(bh.dirt) ==> unchanged(this) && unchanged(hashTable) && unchanged(Bufs())
    {
      hide FreeOn, HashOn, HashFn, IdentOk, DataOk;
      if !bh.dirt {
        return;
      }
      while bh.dirt
        invariant Valid() && Rely() && Quiet() && ours == {}
        invariant !bh.lock && bh.count == 0
        decreases budget - moves, bh.dirt
      {
        SyncDev(bh.dev);
        WaitOnBuffer(bh);
        if bh.count != 0 {
          return;
        }
      }
    }

    /** The reference Recycle left in b_count is ours. */
    method Own(b: BufferHead)
      requires Valid() && b in Bufs() && b.count == 1 && held[b] == 0
      modifies this`held
      ensures Valid() && held == old(held) + multiset{b}
    {
      hide FreeOn, HashOn, IdentOk;
      held := held + multiset{b};
    }

    /** The tail of getblk without sleeping: take over the victim unless someone was faster. */
    method Claim(victim: BufferHead, dev: DevNr, block: BlockNr) returns (bh: BufferHead?)
      requires Valid() && victim in Bufs() && victim.count == 0 && !victim.lock && !victim.dirt
      modifies this`freeList, this`free, this`chains, this`cached, this`held, hashTable, Bufs()
      ensures Valid() && Rely()
      ensures bh == null <==> (dev, block) in old(cached)
      ensures bh == null ==> held == old(held)
      ensures bh != null ==> bh == victim && bh.dev == dev && bh.block == block && !bh.lock && held == old(held) + multiset{bh}
    {
      hide FreeOn, HashOn, HashFn, IdentOk, DataOk, Minus, BufOk;
      bh := FindBuffer(dev, block);
      if bh != null {
        return null;
      }
      BufOkOf(victim);
      Recycle(victim, dev, block);
      Own(victim);
      bh := victim;
    }

    /** Every buffer is referenced and no other task moves any more: whoever waits for a buffer waits for ever. */
    ghost predicate Stalled()
      reads this, Bufs()
    {
      moves == budget && forall b :: b in Bufs() ==> b.count > 0
    }

    /** `sleep_on(&buffer_wait)`: it only returns after somebody has released a buffer, and never if nobody moves any more. */
    method SleepForBuffer()
      requires Valid() && forall b :: b in Bufs() ==> b.count > 0
      modifies this`freeList, this`free, this`chains, this`cached, this`disk, this`written, this`moves, this`failed
      modifies hashTable, Bufs()
      ensures Valid() && Rely()
      ensures moves > old(moves) || Stalled()
    {
      hide FreeOn, HashOn, DataOk, IdentOk;
      var m0 := moves;
      Sleep();
      if moves == m0 && moves < budget {
        OtherStep();
      }
    }

    /** There is a buffer that getblk can take as it is. */
    ghost predicate FreeAtHand()
      reads this`pool, Bufs()
    {
      exists b :: b in Bufs() && b.count == 0 && !b.dirt && !b.lock
    }

    /** Wait for the victim, clean it and claim it, unless somebody is faster. */
    method TakeVictim(victim: BufferHead, dev: DevNr, block: BlockNr) returns (bh: BufferHead?)
      requires Valid() && ours == {} && (dev, block) !in cached && victim in Bufs() && victim.count == 0
      modifies this`freeList, this`free, this`chains, this`cached, this`disk, this`written, this`moves, this`failed
      modifies this`held, this`ours, hashTable, Bufs()
      ensures Valid() && Rely() && ours == {}
      ensures !old(victim.dirt) && !old(victim.lock) ==> bh != null && moves == old(moves)
      ensures bh == null ==> held == old(held) && moves > old(moves)
      ensures bh != null ==> bh == victim && bh in Bufs() && bh.dev == dev && bh.block == block && !bh.lock && held == old(held) + multiset{bh}
    {
      hide FreeOn, HashOn, HashFn, IdentOk, DataOk, BufOk;
      bh := null;
      WaitOnBuffer(victim);
      if victim.count != 0 {
        return;
      }
      Clean(victim);
      if victim.count == 0 {
        bh := Claim(victim, dev, block);
      }
    }

    /** getblk after the failed lookup: find a victim and take it. NULL: `repeat`, because other tasks have
        moved, or a sleep without end. */
    method Replace(dev: DevNr, block: BlockNr) returns (bh: BufferHead?)
      requires Valid() && ours == {} && (dev, block) !in cached
      modifies this`freeList, this`free, this`chains, this`cached, this`disk, this`written, this`moves, this`failed
      modifies this`held, this`ours, hashTable, Bufs()
      ensures Valid() && Rely() && ours == {}
      ensures old(FreeAtHand()) ==> bh != null && moves == old(moves)
      ensures bh != null ==> WasChosen(bh) && (old(FreeAtHand()) ==> WasFirstReady(bh))
      ensures bh == null ==> held == old(held) && (moves > old(moves) || Stalled())
      ensures bh != null ==> bh in Bufs() && bh.dev == dev && bh.block == block && !bh.lock && held == old(held) + multiset{bh}
    {
      hide FreeOn, HashOn, HashFn, IdentOk, DataOk, Badness, FirstLeast, FreeAtHand, Stalled, ChosenAt;
      bh := null;
      var victim := PickVictim();
      if victim == null {
        SleepForBuffer();
        return;
      }
      bh := TakeVictim(victim, dev, block);
    }

    lemma NoneAtHand()
      requires forall b :: b in Bufs() ==> b.count > 0
      ensures !FreeAtHand()
    {
    }

    /** One pass of getblk. */
    method Attempt(dev: DevNr, block: BlockNr) returns (bh: BufferHead?, again: bool)
      requires Valid() && ours == {}
      modifies this`freeList, this`free, this`chains, this`cached, this`disk, this`written, this`moves, this`failed
      modifies this`held, this`ours, hashTable, Bufs()
      ensures Valid() && Rely() && ours == {}
      ensures bh == null ==> held == old(held) && if again then moves > old(moves) else Stalled()
      ensures (dev, block) in old(cached) ==> bh == old(cached)[(dev, block)] && (old(bh.uptodate) ==> bh.uptodate)
      ensures (dev, block) !in old(cached) && old(FreeAtHand()) ==> bh != null && moves == old(moves)
      ensures (dev, block) !in old(cached) && bh != null ==> WasChosen(bh) && (old(FreeAtHand()) ==> WasFirstReady(bh))
      ensures bh != null ==> !again && bh in Bufs() && bh.dev == dev && bh.block == block && !bh.lock && held == old(held) + multiset{bh}
    {
      hide FreeOn, HashOn, HashFn, IdentOk, DataOk, FreeAtHand, Stalled;
      var m := moves;
      bh := GetHashTable(dev, block);
      if bh == null {
        bh := Replace(dev, block);
      }
      again := bh == null && moves > m;
    }

    /** getblk: the buffer of (dev, block), referenced once more by us and unlocked. A cached buffer is found at
        once, and a buffer that can be taken as it is is taken without sleeping. NULL stands for a sleep that
        never ends; otherwise the retries end when the other tasks let go. */
    method Getblk(dev: DevNr, block: BlockNr) returns (bh: BufferHead?)
      requires Valid() && ours == {}
      modifies this`freeList, this`free, this`chains, this`cached, this`disk, this`written, this`moves, this`failed
      modifies this`held, this`ours, hashTable, Bufs()
      ensures Valid() && Rely() && ours == {}
      ensures bh == null ==> held == old(held) && Stalled()
      ensures (dev, block) in old(cached) ==> bh == old(cached)[(dev, block)] && (old(bh.uptodate) ==> bh.uptodate)
      ensures (dev, block) !in old(cached) && old(FreeAtHand()) ==> bh != null && moves == old(moves)
      ensures (dev, block) !in old(cached) && old(FreeAtHand()) ==> bh != null && WasFirstReady(bh)
      ensures bh != null ==> bh in Bufs() && bh.dev == dev && bh.block == block && !bh.lock && held == old(held) + multiset{bh}
    {
      hide FreeOn, HashOn, HashFn, IdentOk, DataOk, FreeAtHand, Stalled;
      var again;
      bh, again := Attempt(dev, block);
      while again
        invariant Valid() && Rely() && ours == {}
        invariant bh == null ==> held == old(held) && (again || Stalled())
        invariant (dev, block) in old(cached) ==> bh == old(cached)[(dev, block)] && (old(bh.uptodate) ==> bh.uptodate)
        invariant (dev, block) !in old(cached) && old(FreeAtHand()) ==> bh != null && moves == old(moves)
        invariant (dev, block) !in old(cached) && old(FreeAtHand()) ==> bh != null && WasFirstReady(bh)
        invariant bh != null ==> !again && bh in Bufs() && bh.dev == dev && bh.block == block && !bh.lock && held == old(held) + multiset{bh}
        decreases budget - moves, again
      {
        bh, again := Attempt(dev, block);
      }
    }

    /** brelse. The panic on a free buffer cannot happen for a reference we hold. */
    method Brelse(b: BufferHead?)
      requires Valid() && ours == {} && (b != null ==> b in Bufs() && held[b] > 0)
      modifies this`freeList, this`free, this`chains, this`cached, this`disk, this`written, this`moves, this`failed
      modifies this`held, hashTable, Bufs()
      ensures Valid() && Rely()
      ensures held == if b == null then old(held) else old(held) - multiset{b}
      ensures (b != null ==> !old(b.lock)) ==> disk == old(disk)
    {
      hide FreeOn, HashOn, HashFn, IdentOk, DataOk;
      if b == null {
        return;
      }
      WaitOnBuffer(b);
      BufOkOf(b);
      assert b.count > 0;
      Drop(b);
    }

    /** Unless it is up to date, start reading the buffer and wait for it. */
    method Fill(bh: BufferHead)
      requires Valid() && ours == {} && bh in Bufs() && held[bh] > 0
      modifies this`freeList, this`free, this`chains, this`cached, this`disk, this`written, this`moves, this`failed
      modifies this`ours, hashTable, Bufs()
      ensures Valid() && Rely() && ours == {}
      ensures bh.uptodate || ReadFailed(bh.dev, bh.block)
    {
      hide FreeOn, HashOn, HashFn, IdentOk, DataOk;
      if !bh.uptodate {
        LlRwBlock(true, bh);
        WaitOnBuffer(bh);
        BufOkOf(bh);
      }
    }

    /** There is no driver, or a read of the block has failed meanwhile. */
    twostate predicate ReadFailed(dev: DevNr, block: BlockNr)
      reads this
    {
      !HasDriver(dev) || failed[(dev, block)] > old(failed)[(dev, block)]
    }

    /** bread once it has the buffer: fill it, and drop our reference if that fails. */
    method FillOrRelease(bh: BufferHead) returns (ok: bool)
      requires Valid() && ours == {} && bh in Bufs() && held[bh] > 0
      modifies this`freeList, this`free, this`chains, this`cached, this`disk, this`written, this`moves, this`failed
      modifies this`held, this`ours, hashTable, Bufs()
      ensures Valid() && Rely() && ours == {}
      ensures held == if ok then old(held) else old(held) - multiset{bh}
      ensures old(bh.uptodate) ==> ok
      ensures !ok ==> ReadFailed(old(bh.dev), old(bh.block))
      ensures ok ==> bh.uptodate && bh.data == written((bh.dev, bh.block))
    {
      hide FreeOn, HashOn, HashFn, IdentOk, DataOk;
      Fill(bh);
      ok := bh.uptodate;
      if ok {
        BufOkOf(bh);
      } else {
        Brelse(bh);
      }
    }

    /** bread: the buffer of (dev, block) holding what was last written there; NULL on a read error, and also,
        with hung, for a sleep that never ends. A cached buffer that is up to date is always delivered. */
    method Bread(dev: DevNr, block: BlockNr) returns (bh: BufferHead?, hung: bool)
      requires Valid() && ours == {}
      modifies this`freeList, this`free, this`chains, this`cached, this`disk, this`written, this`moves, this`failed
      modifies this`held, this`ours, hashTable, Bufs()
      ensures Valid() && Rely() && ours == {}
      ensures bh == null ==> held == old(held) && if hung then Stalled() else ReadFailed(dev, block)
      ensures hung ==> bh == null && (dev, block) !in old(cached) && !old(FreeAtHand())
      ensures (dev, block) in old(cached) && old(cached[(dev, block)].uptodate) ==> bh == old(cached)[(dev, block)]
      ensures bh != null ==> bh in Bufs() && bh.dev == dev && bh.block == block && held == old(held) + multiset{bh}
      ensures bh != null ==> bh.uptodate && bh.data == written((dev, block))
    {
      hide WasFirstReady, FreeOn, HashOn, HashFn, IdentOk, DataOk, BufOk, FreeAtHand, Stalled;
      bh := Getblk(dev, block);
      hung := bh == null;
      if bh != null {
        assert forall b :: b in Bufs() ==> LeftAlone(b);
        label Found:
        var ok := FillOrRelease(bh);
        forall b | b in Bufs()
          ensures LeftAlone(b)
        {
          assert LeftAlone@Found(b);
        }
        if !ok {
          assert held == old(held);
          bh := null;
        }
      }
    }

    /** Change a buffer we hold and let it go. */
    method WriteBack(bh: BufferHead, data: Block)
      requires Valid() && ours == {} && bh in Bufs() && held[bh] > 0 && bh.uptodate
      modifies this`freeList, this`free, this`chains, this`cached, this`disk, this`written, this`moves, this`failed
      modifies this`held, hashTable, Bufs()
      ensures Valid() && held == old(held) - multiset{bh} && pool == old(pool)
      ensures moves >= old(moves) && old(failed) <= failed
      ensures forall k :: k in mine ==> written(k) == if k == old((bh.dev, bh.block)) then data else old(written(k))
    {
      hide FreeOn, HashOn, HashFn, IdentOk, DataOk, LeftAlone;
      BufOkOf(bh);
      Modify(bh, data);
      Brelse(bh);
    }

    /** Write a block that nobody else writes, and let it go. */
    method Store(dev: DevNr, block: BlockNr, data: Block) returns (ok: bool)
      requires Valid() && ours == {} && (dev, block) in mine
      modifies this`freeList, this`free, this`chains, this`cached, this`disk, this`written, this`moves, this`failed
      modifies this`held, this`ours, hashTable, Bufs()
      ensures Valid() && ours == {} && held == old(held) && pool == old(pool)
      ensures moves >= old(moves) && old(failed) <= failed
      ensures if ok then written((dev, block)) == data else ReadFailed(dev, block) || Stalled()
      ensures !ok && ((dev, block) in old(cached) || old(FreeAtHand())) ==> ReadFailed(dev, block)
      ensures (dev, block) in old(cached) && old(cached[(dev, block)].uptodate) ==> ok
    {
      hide Valid, LeftAlone, Quiet, FreeAtHand, Stalled;
      var bh, hung := Bread(dev, block);
      ok := bh != null;
      if ok {
        WriteBack(bh, data);
        assert held == old(held);
      }
    }

    /** Write a block that nobody else writes, let it go, let anything happen to the cache, and read it again. */
    method WriteThenRead(dev: DevNr, block: BlockNr, data: Block) returns (bh: BufferHead?)
      requires Valid() && ours == {} && (dev, block) in mine
      modifies this`freeList, this`free, this`chains, this`cached, this`disk, this`written, this`moves, this`failed
      modifies this`held, this`ours, hashTable, Bufs()
      ensures Valid() && ours == {}
      ensures bh == null ==> held == old(held) && (ReadFailed(dev, block) || Stalled())
      ensures bh != null ==> held == old(held) + multiset{bh} && bh.uptodate && bh.data == data
    {
      hide Valid, LeftAlone, Quiet, FreeAtHand, Stalled;
      var ok := Store(dev, block, data);
      if !ok {
        return null;
      }
      SyncDev(dev);
      Sleep();
      var hung;
      bh, hung := Bread(dev, block);
    }

    /** A block that is neither dirty nor locked in the cache is on the disk as it was last written. */
    lemma CleanIsOnDisk(k: Id)
      requires IdentOk() && DataOk()
      requires k in cached ==> !cached[k].dirt && !cached[k].lock
      ensures disk(k) == written(k)
    {
      if k in cached {
        assert BufOk(cached[k]);
      }
    }

    /** Wait until the buffer of a block that is not dirty is not locked either. */
    method WaitForDisk(dev: DevNr, block: BlockNr)
      requires Valid() && ours == {} && (dev, block) in mine
      requires forall b :: b in Bufs() && b.dev == dev && b.block == block ==> !b.dirt
      modifies this`freeList, this`free, this`chains, this`cached, this`disk, this`written, this`moves, this`failed
      modifies this`held, hashTable, Bufs()
      ensures Valid() && Onward() && held == old(held)
      ensures disk((dev, block)) == written((dev, block))
    {
      hide FreeOn, HashOn, HashFn, DataOk;
      var bh := GetHashTable(dev, block);
      CleanIsOnDisk((dev, block));
      Brelse(bh);
    }

    /** Write a block that nobody else writes, let it go, sync its device, and wait for the block's
        buffer if it still has one: the disk has the block. */
    method WriteAndSync(dev: DevNr, block: BlockNr, data: Block) returns (ok: bool)
      requires Valid() && ours == {} && (dev, block) in mine
      modifies this`freeList, this`free, this`chains, this`cached, this`disk, this`written, this`moves, this`failed
      modifies this`held, this`ours, hashTable, Bufs()
      ensures Valid() && ours == {} && held == old(held)
      ensures !ok ==> ReadFailed(dev, block) || Stalled()
      ensures !ok && ((dev, block) in old(cached) || old(FreeAtHand())) ==> ReadFailed(dev, block)
      ensures (dev, block) in old(cached) && old(cached[(dev, block)].uptodate) ==> ok
      ensures ok ==> disk((dev, block)) == data
    {
      hide Valid, LeftAlone, Quiet, FreeAtHand, Stalled;
      ok := Store(dev, block, data);
      if ok {
        SyncDev(dev);
        WaitForDisk(dev, block);
      }
    }

    // ----- runs ----------------------------------------------------------

    /** What we refer to is up to date, and is nobody's but ours to lock. */
    ghost predicate Ready()
      reads this, Bufs()
    {
      ours == {} && forall b :: b in held ==> b in Bufs() && b.uptodate
    }

    /** Sleeping leaves our references where they are: counted by the old references, the buffers of today
        have what those of then had. */
    twostate lemma ReferencesStay()
      requires old(IdentOk()) && IdentOk() && Rely()
      requires forall b :: b in old(held) ==> b in Bufs() && b.dev != 0
      ensures forall id :: References(old(cached), old(held), id) == References(cached, old(held), id)
    {
      forall id
        ensures References(old(cached), old(held), id) == References(cached, old(held), id)
      {
        if old(id in cached && held[cached[id]] > 0) {
          assert LeftAlone(old(cached[id]));
        }
        if id in cached && old(held)[cached[id]] > 0 {
          assert LeftAlone(cached[id]);
        }
      }
    }

    /** bread as a call. */
    method DoFetch(id: Id) returns (e: Event)
      requires Valid() && Ready()
      modifies this`freeList, this`free, this`chains, this`cached, this`disk, this`written, this`moves, this`failed
      modifies this`held, this`ours, hashTable, Bufs()
      ensures Valid() && Ready() && Onward()
      ensures forall k :: References(cached, held, k) == e.Left(References(old(cached), old(held), k), k)
      ensures e == Got(id, written(id)) || (e == ReadError(id) && ReadFailed(id.0, id.1)) || (e == Hung(id) && Stalled())
      ensures e == Hung(id) ==> id !in old(cached) && !old(FreeAtHand())
      ensures References(old(cached), old(held), id) > 0 ==> e.Got?
    {
      hide FreeOn, HashOn, HashFn, DataOk, IdentOk, FreeAtHand, Stalled, ReadFailed, References;
      var bh, hung := Bread(id.0, id.1);
      ReadyOnes();
      ReferencesStay();
      if bh != null {
        OneMore(old(held), bh);
      }
      Referred(old(cached), old(held), id);
      e := if bh != null then Got(id, bh.data) else if hung then Hung(id) else ReadError(id);
    }

    lemma OneMore(held0: multiset<BufferHead>, bh: BufferHead)
      requires IdentOk() && bh in Bufs() && bh.dev != 0
      ensures forall k :: References(cached, held0 + multiset{bh}, k) ==
                References(cached, held0, k) + if k == (bh.dev, bh.block) then 1 else 0
    {
    }

    /** What we refer to has a device. */
    lemma ReadyOnes()
      requires DataOk() && Ready()
      ensures forall b :: b in held ==> b.dev != 0
    {
    }

    /** The buffer of a block that we refer to. */
    method FindHeld(id: Id) returns (b: BufferHead?)
      requires Valid()
      ensures b != null <==> References(cached, held, id) > 0
      ensures b != null ==> b in Bufs() && held[b] > 0 && b.count > 0 && b.dev == id.0 && b.block == id.1
    {
      hide FreeOn, HashOn, HashFn, DataOk;
      b := FindBuffer(id.0, id.1);
      if b != null && held[b] == 0 {
        return null;
      }
      if b != null {
        BufOkOf(b);
      }
    }

    /** Drop one reference to b. */
    method DoLetGo(b: BufferHead)
      requires Valid() && Ready() && b in Bufs() && held[b] > 0
      modifies this`freeList, this`free, this`chains, this`cached, this`disk, this`written, this`moves, this`failed
      modifies this`held, hashTable, Bufs()
      ensures Valid() && Ready() && Onward()
      ensures forall k :: References(cached, held, k) ==
                References(old(cached), old(held), k) - if k == old((b.dev, b.block)) then 1 else 0
    {
      hide FreeOn, HashOn, HashFn, DataOk;
      ReadyOnes();
      Brelse(b);
      ReadyOnes();
      assert LeftAlone(b);
      ReferencesStay();
    }

    /** New contents for a buffer that we refer to. */
    method DoChange(b: BufferHead, data: Block)
      requires Valid() && Ready() && b in Bufs() && held[b] > 0
      modifies b`data, b`uptodate, b`dirt, this`written
      ensures Valid() && Ready()
      ensures forall k :: written(k) == if k == (b.dev, b.block) then data else old(written)(k)
    {
      hide FreeOn, HashOn, HashFn, IdentOk, DataOk;
      BufOkOf(b);
      Modify(b, data);
    }

    /** A call on a block that we refer to; nothing is done on others. */
    method DoHeld(call: Call) returns (e: Event)
      requires Valid() && Ready() && !call.Fetch? && !call.Sync?
      modifies this`freeList, this`free, this`chains, this`cached, this`disk, this`written, this`moves, this`failed
      modifies this`held, hashTable, Bufs()
      ensures Valid() && Ready() && pool == old(pool) && moves >= old(moves) && old(failed) <= failed
      ensures forall k :: References(cached, held, k) == e.Left(References(old(cached), old(held), k), k)
      ensures forall k :: k in mine ==> written(k) == e.Latest(old(written)(k), k)
      ensures References(old(cached), old(held), call.id) == 0 ==> e == Nothing
      ensures References(old(cached), old(held), call.id) > 0 ==>
                e == match call case Change(id, data) => Wrote(id, data) case LetGo(id) => Dropped(id) case _ => Saw(call.id, written(call.id))
    {
      hide Valid, Ready, Rely;
      e := Nothing;
      var b := FindHeld(call.id);
      if b == null {
        return;
      }
      match call {
        case Change(id, data) =>
          DoChange(b, data);
          e := Wrote(id, data);
        case LetGo(id) =>
          DoLetGo(b);
          e := Dropped(id);
        case Look(id) =>
          ContentsAre(b);
          e := Saw(id, b.data);
      }
    }

    lemma ContentsAre(b: BufferHead)
      requires Valid() && Ready() && b in Bufs() && held[b] > 0
      ensures b.data == written((b.dev, b.block))
    {
      hide FreeOn, HashOn, HashFn, IdentOk, DataOk;
      BufOkOf(b);
    }

    /** What a read may come to besides a buffer: an error, or a sleep without end in a cache that offers nothing. */
    twostate predicate Explained(e: Event)
      reads this, Bufs()
    {
      && (e.ReadError? ==> ReadFailed(e.id.0, e.id.1))
      && (e.Hung? ==> Stalled() && e.id !in old(cached) && !old(FreeAtHand()))
    }

    method DoSync(dev: DevNr)
      requires Valid() && Ready()
      modifies this`freeList, this`free, this`chains, this`cached, this`disk, this`written, this`moves, this`failed
      modifies this`ours, hashTable, Bufs()
      ensures Valid() && Ready() && Onward() && held == old(held)
      ensures forall k :: References(cached, held, k) == References(old(cached), old(held), k)
    {
      hide FreeOn, HashOn, HashFn, DataOk, Quiet;
      SyncDev(dev);
      ReadyOnes();
      ReferencesStay();
    }

    /** One call. */
    method Do(call: Call) returns (e: Event)
      requires Valid() && Ready()
      modifies this`freeList, this`free, this`chains, this`cached, this`disk, this`written, this`moves, this`failed
      modifies this`held, this`ours, hashTable, Bufs()
      ensures Valid() && Ready() && pool == old(pool) && moves >= old(moves) && old(failed) <= failed
      ensures forall k :: References(cached, held, k) == e.Left(References(old(cached), old(held), k), k)
      ensures forall k :: k in mine ==> written(k) == e.Latest(old(written)(k), k)
      ensures e.Got? || e.Saw? ==> e.data == written(e.id)
      ensures Answers(call, e, if call.Sync? then 0 else References(old(cached), old(held), call.id))
      ensures Explained(e)
    {
      hide Valid, Ready, References, Stalled, FreeAtHand, ReadFailed;
      match call {
        case Fetch(id) =>
          e := DoFetch(id);
        case Sync(dev) =>
          DoSync(dev);
          e := Nothing;
        case _ =>
          e := DoHeld(call);
      }
    }

    lemma NothingHeld()
      requires ours == {} && held == multiset{}
      ensures Ready() && forall k :: References(cached, held, k) == 0
    {
    }

    /** Every read error in the log is a failed read of its own, where there is a driver. */
    ghost predicate ErrorsCounted(log: seq<Event>, failed0: multiset<Id>)
      reads this`failed
    {
      failed0 <= failed && forall k: Id :: HasDriver(k.0) ==> ErrorsIn(log, k) <= failed[k] - failed0[k]
    }

    twostate lemma OneMoreEvent(new log: seq<Event>, new e: Event, failed0: multiset<Id>)
      requires old(ErrorsCounted(log, failed0)) && old(failed) <= failed && (e.ReadError? ==> ReadFailed(e.id.0, e.id.1))
      ensures ErrorsCounted(log, failed0) && ErrorsCounted(log + [e], failed0)
    {
      assert (log + [e])[..|log|] == log;
    }

    /** Any calls in any order, with anything the other tasks do in between: every time a block that only
        we write is read or looked at, it has the contents we gave it last, or those it had at first. Only a
        sleep that never ends cuts the run short: at a read of a block that we do not hold, with every buffer
        referenced and nobody left to let go of one. */
    method Run(calls: seq<Call>) returns (log: seq<Event>)
      requires Valid() && ours == {} && held == multiset{}
      modifies this`freeList, this`free, this`chains, this`cached, this`disk, this`written, this`moves, this`failed
      modifies this`held, this`ours, hashTable, Bufs()
      ensures Valid() && |log| <= |calls|
      ensures |log| < |calls| ==> Stalled() && calls[|log|].Fetch? && HeldIn(log, calls[|log|].id) == 0
      ensures Answered(calls, log) && Transparent(log, mine, old(written)) && ErrorsCounted(log, old(failed))
    {
      hide FreeOn, HashOn, HashFn, DataOk, IdentOk, Answers, References, Ready, FreeAtHand, Stalled, ReadFailed, ErrorsCounted, Answered, Transparent;
      log := [];
      NothingHeld();
      NoErrors();
      NothingLogged(calls, mine, written);
      for i := 0 to |calls|
        invariant Valid() && Ready() && |log| == i
        invariant pool == old(pool) && moves >= old(moves) && ErrorsCounted(log, old(failed))
        invariant forall k :: References(cached, held, k) == HeldIn(log, k)
        invariant forall k :: k in mine ==> written(k) == LastIn(log, k, old(written)(k))
        invariant Answered(calls, log) && Transparent(log, mine, old(written))
      {
        label Before:
        var e := Do(calls[i]);
        OneMoreEvent@Before(log, e, old(failed));
        HungWhen(calls[i], e, if calls[i].Sync? then 0 else HeldIn(log, calls[i].id));
        if e.Hung? {
          return;
        }
        LogGrows(calls, log, e, mine, old(written));
        log := log + [e];
      }
    }

    lemma NoErrors()
      ensures ErrorsCounted([], failed)
    {
    }

    lemma HungWhen(call: Call, e: Event, n: int)
      requires Answers(call, e, n) && n >= 0
      ensures e.Hung? ==> call.Fetch? && n == 0
    {
    }

    /** buffer_init's loop and the two assignments that close the circle. */
    static method MakeRing(n: nat) returns (s: seq<BufferHead>)
      requires n > 0
      ensures |s| == n && Ring(s)
      ensures forall j :: 0 <= j < n ==> fresh(s[j]) && Empty(s[j])
    {
      s := [];
      var i := 0;
      while i < n
        invariant 0 <= i <= n && |s| == i && Distinct(s)
        invariant forall j :: 0 <= j < i ==> fresh(s[j]) && Empty(s[j])
        invariant forall j {:trigger s[j].nextFree} :: 0 <= j && j + 1 < i ==> s[j].nextFree == s[j + 1]
        invariant forall j {:trigger s[j].prevFree} :: 0 < j < i ==> s[j].prevFree == s[j - 1]
      {
        var h := new BufferHead();
        if i > 0 {
          h.prevFree := s[i - 1];
          s[i - 1].nextFree := h;
        }
        s := s + [h];
        i := i + 1;
      }
      var h := s[n - 1];
      s[0].prevFree := h;
      h.nextFree := s[0];
    }

    static ghost predicate Empty(b: BufferHead)
      reads b
    {
      b.dev == 0 && b.count == 0 && !b.uptodate && !b.dirt && !b.lock && b.phase == Idle && b.next == null && b.prev == null
    }

    /** buffer_init: n empty buffers on one circle, empty hash chains. */
    constructor (n: nat, disk: Id -> Block, driver: int -> bool, mine: set<Id>, budget: nat)
      requires n > 0
      ensures Valid() && fresh(hashTable) && fresh(Bufs())
      ensures |pool| == n && free == pool && cached == map[]
      ensures held == multiset{} && ours == {} && moves == 0 && this.disk == disk && written == disk
      ensures this.mine == mine && this.budget == budget && this.driver == driver
      ensures forall b :: b in Bufs() ==> Empty(b)
    {
      hashTable := new BufferHead?[NR_HASH](_ => null);
      freeList, pool, free := null, [], [];
      chains := seq(NR_HASH, _ => []);
      this.disk, written, this.driver, this.mine, this.budget := disk, disk, driver, mine, budget;
      cached, held, ours, moves, failed := map[], multiset{}, {}, 0, multiset{};
      new;
      hide HashFn, Ring, HashOn, Valid, Empty;
      var s := MakeRing(n);
      pool := s;
      freeList := s[0];
      free := s;
      StartsValid();
    }

    lemma StartsValid()
      requires free == pool != [] && freeList == pool[0] && Ring(pool)
      requires hashTable.Length == NR_HASH && chains == seq(NR_HASH, _ => [])
      requires forall h :: 0 <= h < NR_HASH ==> hashTable[h] == null
      requires cached == map[] && held == multiset{} && ours == {} && written == disk
      requires forall i :: 0 <= i < |pool| ==> Empty(pool[i])
      requires moves <= budget
      ensures Valid() && forall b :: b in Bufs() ==> Empty(b)
    {
      hide HashFn, Ring, HashOn;
      assert forall b :: b in Bufs() ==> Empty(b);
      EmptyHash();
    }

    lemma EmptyHash()
      requires hashTable.Length == NR_HASH && chains == seq(NR_HASH, _ => [])
      requires forall h :: 0 <= h < NR_HASH ==> hashTable[h] == null
      requires forall b :: b in Bufs() ==> b.dev == 0 && b.next == null && b.prev == null
      ensures HashOn(Bufs())
    {
      hide HashFn;
      assert forall h :: 0 <= h < NR_HASH ==> chains[h] == [];
    }
  }
}
