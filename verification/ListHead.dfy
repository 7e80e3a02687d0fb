// The circular doubly linked list of shell/list.h: every operation on its nodes is an operation
// on the sequence of entries.

module ListHead {
  import opened Cardinality

  class Node {
    var next: Node?
    var prev: Node?
  }

  ghost function After(c: seq<Node>, i: int): Node
    requires 0 <= i < |c|
  {
    if i + 1 < |c| then c[i + 1] else c[0]
  }

  /** From node i next leads to the one after it and prev back; the last is followed by the first. */
  ghost predicate Linked(c: seq<Node>, i: int)
    requires 0 <= i < |c|
    reads c
  {
    c[i].next == After(c, i) && After(c, i).prev == c[i]
  }

  /** c is one ring. */
  ghost predicate Ring(c: seq<Node>)
    reads c
  {
    Distinct(c) && forall i :: 0 <= i < |c| ==> Linked(c, i)
  }

  /** The list at head has exactly the entries s, in this order. */
  ghost predicate List(head: Node, s: seq<Node>)
    reads [head] + s
  {
    Ring([head] + s)
  }

  lemma RingAt(c: seq<Node>, i: int)
    requires Ring(c) && 0 <= i < |c|
    ensures c[i].next == After(c, i) && After(c, i).prev == c[i]
    ensures c[i].prev == if i > 0 then c[i - 1] else c[|c| - 1]
  {
    assert Linked(c, i);
    var j := if i > 0 then i - 1 else |c| - 1;
    assert Linked(c, j);
  }

  /** From the head, next leads to the first entry and from the last one back; prev the other way. */
  lemma EndsOf(head: Node, s: seq<Node>)
    requires List(head, s)
    ensures s == [] ==> head.next == head && head.prev == head
    ensures s != [] ==> head.next == s[0] && s[0].prev == head && head.prev == s[|s| - 1] && s[|s| - 1].next == head
    ensures forall i {:trigger s[i].next} :: 0 <= i && i + 1 < |s| ==> s[i].next == s[i + 1] && s[i + 1].prev == s[i]
  {
    var c := [head] + s;
    RingAt(c, 0);
    RingAt(c, |s|);
    forall i | 0 <= i && i + 1 < |s|
      ensures s[i].next == s[i + 1] && s[i + 1].prev == s[i]
    {
      RingAt(c, i + 1);
      assert c[i + 1] == s[i] && c[i + 2] == s[i + 1];
    }
  }

  lemma NotSame(c: seq<Node>, i: int, j: int)
    requires Distinct(c) && 0 <= i < |c| && 0 <= j < |c| && i != j
    ensures c[i] != c[j]
  {
    assert i < j || j < i;
  }

  /** Links change only where a node was written. */
  twostate lemma StillLinked(c: seq<Node>, new i: int)
    requires old(Ring(c)) && 0 <= i < |c| && c[i].next == old(c[i].next) && After(c, i).prev == old(After(c, i).prev)
    ensures Linked(c, i)
  {
    assert old(Linked(c, i));
  }

  // ----- the primitives ------------------------------------------------

  /** INIT_LIST_HEAD. */
  method Init(list: Node)
    modifies list
    ensures List(list, [])
  {
    list.next := list;
    list.prev := list;
    var none: seq<Node> := [];
    assert [list] + none == [list];
  }

  /** __list_add: node goes between prev and next, neighbours k and k + 1 of the ring c. */
  method AddBetween(node: Node, prev: Node, next: Node, ghost c: seq<Node>, ghost k: int)
    requires Ring(c) && node !in c && 0 <= k < |c| && prev == c[k] && next == After(c, k)
    modifies node, c
    ensures Ring(c[..k + 1] + [node] + c[k + 1..])
  {
    next.prev := node;
    node.next := next;
    node.prev := prev;
    prev.next := node;
    ghost var c' := c[..k + 1] + [node] + c[k + 1..];
    AddedDistinct(c, k, node);
    forall i | 0 <= i < |c'|
      ensures Linked(c', i)
    {
      if i < k {
        NotSame(c, i, k);
        NotSame(c, i + 1, if k + 1 < |c| then k + 1 else 0);
        StillLinked(c, i);
      } else if i > k + 1 {
        NotSame(c, i - 1, k);
        StillLinked(c, i - 1);
      }
    }
  }

  lemma AddedDistinct(c: seq<Node>, k: int, node: Node)
    requires Distinct(c) && node !in c && 0 <= k < |c|
    ensures Distinct(c[..k + 1] + [node] + c[k + 1..])
  {
  }

  function Without(c: seq<Node>, k: int): seq<Node>
    requires 0 <= k < |c|
  {
    c[..k] + c[k + 1..]
  }

  /** __list_del: the neighbours of c[k] point to each other; c[k] itself is not written. */
  method DelBetween(prev: Node, next: Node, ghost c: seq<Node>, ghost k: int)
    requires Ring(c) && 0 < k < |c| && prev == c[k - 1] && next == After(c, k)
    modifies prev, next
    ensures Ring(Without(c, k))
  {
    next.prev := prev;
    prev.next := next;
    ghost var c' := Without(c, k);
    forall i | 0 <= i < |c'|
      ensures Linked(c', i)
    {
      if i < k - 1 {
        NotSame(c, i, k - 1);
        NotSame(c, i + 1, if k + 1 < |c| then k + 1 else 0);
        StillLinked(c, i);
      } else if i > k - 1 {
        NotSame(c, i + 1, k - 1);
        if i + 2 < |c| {
          NotSame(c, i + 2, k + 1);
        } else {
          NotSame(c, 0, k + 1);
        }
        StillLinked(c, i + 1);
      }
    }
  }

  /** __list_splice: the entries of list go between prev and next; list itself is not written. */
  method SpliceBetween(list: Node, prev: Node, next: Node, ghost s: seq<Node>, ghost c: seq<Node>, ghost k: int)
    requires List(list, s) && s != [] && Ring(c) && (forall x :: x in s ==> x !in c) && list !in c
    requires 0 <= k < |c| && prev == c[k] && next == After(c, k)
    modifies s[0], s[|s| - 1], prev, next
    ensures Ring(c[..k + 1] + s + c[k + 1..])
  {
    ghost var r := [list] + s;
    RingAt(r, 0);
    var first, last := list.next, list.prev;
    first.prev := prev;
    prev.next := first;
    last.next := next;
    next.prev := last;
    ghost var c', n := c[..k + 1] + s + c[k + 1..], |s|;
    SplicedDistinct(list, s, c, k);
    assert s[0] in s && s[n - 1] in s;
    forall i | 0 <= i < |c'|
      ensures Linked(c', i)
    {
      if i < k {
        NotSame(c, i, k);
        NotSame(c, i + 1, if k + 1 < |c| then k + 1 else 0);
        assert c[i] in c && After(c, i) in c;
        StillLinked(c, i);
      } else if k < i < k + n {
        NotSame(r, i - k, n);
        NotSame(r, i - k + 1, 1);
        assert c'[i] == s[i - k - 1] == r[i - k] && c'[i + 1] == s[i - k] == r[i - k + 1];
        assert s[i - k - 1] in s && s[i - k] in s;
        StillLinked(r, i - k);
      } else if i > k + n {
        NotSame(c, i - n, k);
        assert c[i - n] in c && After(c, i - n) in c;
        StillLinked(c, i - n);
      }
    }
  }

  lemma SplicedDistinct(list: Node, s: seq<Node>, c: seq<Node>, k: int)
    requires Distinct([list] + s) && Distinct(c) && (forall x :: x in s ==> x !in c) && 0 <= k < |c|
    ensures Distinct(c[..k + 1] + s + c[k + 1..])
  {
    forall i, j | 0 <= i < |s| && 0 <= j < |c| ensures s[i] != c[j] {
      assert s[i] in s;
    }
    forall i, j | 0 <= i < j < |s| ensures s[i] != s[j] {
      NotSame([list] + s, i + 1, j + 1);
    }
  }

  lemma CutDistinct(list: Node, head: Node, s: seq<Node>, k: int)
    requires Distinct([head] + s) && list != head && list !in s && 0 <= k <= |s|
    ensures Distinct([list] + s[..k]) && Distinct([head] + s[k..])
  {
    forall i, j | 0 <= i < j < |s| ensures s[i] != s[j] {
      NotSame([head] + s, i + 1, j + 1);
    }
    forall i | 0 <= i < |s| ensures s[i] != head {
      NotSame([head] + s, 0, i + 1);
    }
  }

  /** The rings list + entries[..k] and head + entries[k..], from the ring head + entries. */
  method CutAt(list: Node, head: Node, entry: Node, ghost s: seq<Node>, ghost k: int)
    requires List(head, s) && list != head && list !in s && 0 < k <= |s| && entry == s[k - 1]
    modifies list, head, s
    ensures List(list, s[..k]) && List(head, s[k..])
  {
    ghost var r := [head] + s;
    RingAt(r, 0);
    RingAt(r, k);
    var newFirst := entry.next;
    list.next := head.next;
    list.next.prev := list;
    list.prev := entry;
    entry.next := list;
    head.next := newFirst;
    newFirst.prev := head;
    ghost var a, b := [list] + s[..k], [head] + s[k..];
    CutDistinct(list, head, s, k);
    forall i | 0 <= i < |a|
      ensures Linked(a, i)
    {
      if 0 < i < k {
        NotSame(r, i, k);
        NotSame(r, i, 0);
        NotSame(r, i + 1, 1);
        NotSame(r, i + 1, if k + 1 < |r| then k + 1 else 0);
        StillLinked(r, i);
      }
    }
    forall i | 0 <= i < |b|
      ensures Linked(b, i)
    {
      if i > 0 {
        NotSame(r, i + k, k);
        NotSame(r, i + k, 0);
        if i + k + 1 < |r| {
          NotSame(r, i + k + 1, 1);
          NotSame(r, i + k + 1, k + 1);
        } else {
          NotSame(r, 0, k + 1);
          NotSame(r, 0, 1);
        }
        StillLinked(r, i + k);
      }
    }
  }

  // ----- add and delete ------------------------------------------------

  method Add(node: Node, head: Node, ghost s: seq<Node>)
    requires List(head, s) && node != head && node !in s
    modifies node, head, s
    ensures List(head, [node] + s)
  {
    ghost var r := [head] + s;
    RingAt(r, 0);
    AddBetween(node, head, head.next, r, 0);
    assert r[..1] + [node] + r[1..] == [head] + ([node] + s);
  }

  method AddTail(node: Node, head: Node, ghost s: seq<Node>)
    requires List(head, s) && node != head && node !in s
    modifies node, head, s
    ensures List(head, s + [node])
  {
    ghost var r := [head] + s;
    RingAt(r, 0);
    RingAt(r, |s|);
    AddBetween(node, head.prev, head, r, |s|);
    assert r[..|s| + 1] + [node] + r[|s| + 1..] == [head] + (s + [node]);
  }

  /** __list_del_entry. */
  method DelEntry(entry: Node, ghost head: Node, ghost s: seq<Node>, ghost i: int)
    requires List(head, s) && 0 <= i < |s| && entry == s[i]
    modifies head, s
    ensures List(head, Without(s, i)) && unchanged(entry)
  {
    ghost var r := [head] + s;
    RingAt(r, i + 1);
    NotSame(r, i, i + 1);
    NotSame(r, i + 1, if i + 2 < |r| then i + 2 else 0);
    DelBetween(entry.prev, entry.next, r, i + 1);
    assert Without(r, i + 1) == [head] + Without(s, i);
  }

  method Del(entry: Node, ghost head: Node, ghost s: seq<Node>, ghost i: int)
    requires List(head, s) && 0 <= i < |s| && entry == s[i]
    modifies head, s
    ensures List(head, Without(s, i)) && entry.next == null == entry.prev
  {
    DelEntry(entry, head, s, i);
    Gone([head] + s, i + 1);
    assert Without([head] + s, i + 1) == [head] + Without(s, i);
    entry.next := null;
    entry.prev := null;
  }

  method DelInit(entry: Node, ghost head: Node, ghost s: seq<Node>, ghost i: int)
    requires List(head, s) && 0 <= i < |s| && entry == s[i]
    modifies head, s
    ensures List(head, Without(s, i)) && List(entry, [])
  {
    DelEntry(entry, head, s, i);
    Gone([head] + s, i + 1);
    assert Without([head] + s, i + 1) == [head] + Without(s, i);
    Init(entry);
  }

  lemma Gone(c: seq<Node>, k: int)
    requires Distinct(c) && 0 <= k < |c|
    ensures c[k] !in Without(c, k) && forall x :: x in Without(c, k) ==> x in c
  {
  }

  /** Two lists with no node in common. */
  ghost predicate Apart(head: Node, s: seq<Node>, head': Node, s': seq<Node>) {
    forall x :: x in [head] + s ==> x !in [head'] + s'
  }

  lemma NoneShared(head: Node, s: seq<Node>, head': Node, s': seq<Node>)
    requires Apart(head, s, head', s')
    ensures forall x :: x in [head'] + s' ==> x != head && x !in s
    ensures forall x :: x in [head] + s ==> x != head' && x !in s'
  {
    assert head in [head] + s;
    assert forall x :: x in s ==> x in [head] + s;
    assert head' in [head'] + s';
    assert forall x :: x in s' ==> x in [head'] + s';
  }

  twostate lemma Untouched(c: seq<Node>)
    requires old(Ring(c)) && forall x :: x in c ==> unchanged(x)
    ensures Ring(c)
  {
    forall i | 0 <= i < |c| ensures Linked(c, i) {
      assert c[i] in c && After(c, i) in c;
      StillLinked(c, i);
    }
  }

  /** list_move, inside one list or from one list to another. */
  method Move(entry: Node, head: Node, ghost from: Node, ghost s: seq<Node>, ghost i: int, ghost t: seq<Node>)
    requires List(from, s) && 0 <= i < |s| && entry == s[i]
    requires if head == from then t == s else List(head, t) && Apart(from, s, head, t)
    modifies head, t, from, s
    ensures head == from ==> List(head, [entry] + Without(s, i))
    ensures head != from ==> List(from, Without(s, i)) && List(head, [entry] + t)
  {
    label Before:
    DelEntry(entry, from, s, i);
    Gone([from] + s, i + 1);
    assert Without([from] + s, i + 1) == [from] + Without(s, i);
    assert entry in [from] + s;
    if head != from {
      NoneShared(from, s, head, t);
      Untouched@Before([head] + t);
    }
    label Between:
    Add(entry, head, if head == from then Without(s, i) else t);
    if head != from {
      Untouched@Between([from] + Without(s, i));
    }
  }

  method MoveTail(entry: Node, head: Node, ghost from: Node, ghost s: seq<Node>, ghost i: int, ghost t: seq<Node>)
    requires List(from, s) && 0 <= i < |s| && entry == s[i]
    requires if head == from then t == s else List(head, t) && Apart(from, s, head, t)
    modifies head, t, from, s
    ensures head == from ==> List(head, Without(s, i) + [entry])
    ensures head != from ==> List(from, Without(s, i)) && List(head, t + [entry])
  {
    label Before:
    DelEntry(entry, from, s, i);
    Gone([from] + s, i + 1);
    assert Without([from] + s, i + 1) == [from] + Without(s, i);
    assert entry in [from] + s;
    if head != from {
      NoneShared(from, s, head, t);
      Untouched@Before([head] + t);
    }
    label Between:
    AddTail(entry, head, if head == from then Without(s, i) else t);
    if head != from {
      Untouched@Between([from] + Without(s, i));
    }
  }

  /** list_replace: node takes the place of c[k] in its ring, also when c[k] is alone in it. */
  method Replace(entry: Node, node: Node, ghost c: seq<Node>, ghost k: int)
    requires Ring(c) && node !in c && 0 <= k < |c| && entry == c[k]
    modifies node, c
    ensures Ring(c[k := node])
  {
    RingAt(c, k);
    node.next := entry.next;
    node.next.prev := node;
    node.prev := entry.prev;
    node.prev.next := node;
    ghost var c' := c[k := node];
    forall i | 0 <= i < |c'|
      ensures Linked(c', i)
    {
      var p := if k > 0 then k - 1 else |c| - 1;
      if i != k && i != p {
        NotSame(c, i, p);
        NotSame(c, if i + 1 < |c| then i + 1 else 0, if k + 1 < |c| then k + 1 else 0);
        StillLinked(c, i);
      }
    }
  }

  method ReplaceInit(entry: Node, node: Node, ghost c: seq<Node>, ghost k: int)
    requires Ring(c) && node !in c && 0 <= k < |c| && entry == c[k]
    modifies node, c
    ensures Ring(c[k := node]) && List(entry, [])
  {
    Replace(entry, node, c, k);
    Replaced(c, k, node);
    Init(entry);
  }

  lemma Replaced(c: seq<Node>, k: int, node: Node)
    requires Distinct(c) && 0 <= k < |c| && node !in c
    ensures c[k] !in c[k := node]
  {
    forall i | 0 <= i < |c| && i != k ensures c[i] != c[k] {
      NotSame(c, i, k);
    }
  }

  // ----- queries -------------------------------------------------------

  method IsEmpty(head: Node, ghost s: seq<Node>) returns (b: bool)
    requires List(head, s)
    ensures b <==> s == []
  {
    RingAt([head] + s, 0);
    b := head.next == head;
    if s != [] {
      NotSame([head] + s, 0, 1);
    }
  }

  method IsSingular(head: Node, ghost s: seq<Node>) returns (b: bool)
    requires List(head, s)
    ensures b <==> |s| == 1
  {
    RingAt([head] + s, 0);
    var empty := IsEmpty(head, s);
    b := !empty && head.next == head.prev;
    if |s| > 1 {
      NotSame([head] + s, 1, |s|);
    }
  }

  method IsLast(entry: Node, head: Node, ghost s: seq<Node>, ghost i: int) returns (b: bool)
    requires List(head, s) && 0 <= i < |s| && entry == s[i]
    ensures b <==> i == |s| - 1
  {
    RingAt([head] + s, i + 1);
    b := entry.next == head;
    if i + 2 < |[head] + s| {
      NotSame([head] + s, 0, i + 2);
    }
  }

  // ----- rotate --------------------------------------------------------

  function Rotated(s: seq<Node>, n: nat): seq<Node>
    decreases n
  {
    if s == [] || n == 0 then s else Rotated(s[1..] + [s[0]], n - 1)
  }

  lemma {:induction false} RotatedIs(s: seq<Node>, n: nat)
    requires n <= |s|
    ensures Rotated(s, n) == s[n..] + s[..n]
    decreases n
  {
    if n > 0 {
      var t := s[1..] + [s[0]];
      RotatedIs(t, n - 1);
      assert t[n - 1..] + t[..n - 1] == s[n..] + s[..n];
    }
  }

  method RotateLeft(head: Node, ghost s: seq<Node>)
    requires List(head, s)
    modifies head, s
    ensures List(head, Rotated(s, 1))
  {
    var empty := IsEmpty(head, s);
    if !empty {
      RingAt([head] + s, 0);
      var first := head.next;
      MoveTail(first, head, head, s, 0, s);
      assert Without(s, 0) == s[1..];
    }
  }

  /** As many rotations as there are entries change nothing. */
  method RotateAll(head: Node, n: nat, ghost s: seq<Node>)
    requires List(head, s) && n == |s|
    modifies head, s
    ensures List(head, s)
  {
    hide Rotated, List;
    ghost var t := s;
    RotatedIs(s, 0);
    for i := 0 to n
      invariant List(head, t) && t == s[i..] + s[..i]
    {
      RotateLeft(head, t);
      RotatedIs(t, 1);
      RotatedOnce(s, i);
      t := Rotated(t, 1);
    }
    assert t == s;
  }

  lemma RotatedOnce(s: seq<Node>, i: nat)
    requires i < |s|
    ensures var t := s[i..] + s[..i]; t[1..] + t[..1] == s[i + 1..] + s[..i + 1]
  {
  }

  // ----- cut and splice ------------------------------------------------

  /** list_cut_position; entry is entry k of the list, or the head itself for k == 0. An empty list is not
      cut at all, nor is a list of one entry at an entry that is not on it. */
  method CutPosition(list: Node, head: Node, entry: Node, ghost s: seq<Node>, ghost k: int)
    requires List(head, s) && list != head && list !in s && 0 <= k <= |s|
    requires |s| > 1 || entry in [head] + s ==> entry == ([head] + s)[k]
    modifies list, head, s
    ensures if s == [] || (|s| == 1 && entry !in [head] + s) then List(head, s) && unchanged(list) else List(list, s[..k]) && List(head, s[k..])
  {
    var empty := IsEmpty(head, s);
    if empty {
      return;
    }
    var singular := IsSingular(head, s);
    RingAt([head] + s, 0);
    if singular && head.next != entry && head != entry {
      assert entry !in [head] + s;
      return;
    }
    if entry == head {
      if k > 0 {
        NotSame([head] + s, 0, k);
      }
      Init(list);
      assert s[0..] == s && s[..0] == [];
    } else {
      CutAt(list, head, entry, s, k);
    }
  }

  /** Cutting an empty list at its head does not empty the receiving list: what it held before is still there. */
  method EmptyCutLeavesReceiver() returns (head: Node, list: Node, entry: Node)
    ensures fresh(head) && fresh(list) && fresh(entry)
    ensures List(head, []) && List(list, [entry])
  {
    head, list, entry := new Node, new Node, new Node;
    Init(head);
    Init(list);
    Add(entry, list, []);
    assert [entry] + [] == [entry];
    CutPosition(list, head, head, [], 0);
  }

  method Splice(list: Node, head: Node, ghost s: seq<Node>, ghost t: seq<Node>)
    requires List(list, s) && List(head, t) && Apart(list, s, head, t)
    modifies s, head, t
    ensures List(head, s + t)
  {
    var empty := IsEmpty(list, s);
    if !empty {
      RingAt([head] + t, 0);
      SpliceEnds(list, s);
      SpliceBetween(list, head, head.next, s, [head] + t, 0);
      assert ([head] + t)[..1] + s + ([head] + t)[1..] == [head] + (s + t);
    } else {
      assert s + t == t;
    }
  }

  method SpliceTail(list: Node, head: Node, ghost s: seq<Node>, ghost t: seq<Node>)
    requires List(list, s) && List(head, t) && Apart(list, s, head, t)
    modifies s, head, t
    ensures List(head, t + s)
  {
    var empty := IsEmpty(list, s);
    if !empty {
      RingAt([head] + t, 0);
      RingAt([head] + t, |t|);
      SpliceEnds(list, s);
      SpliceBetween(list, head.prev, head, s, [head] + t, |t|);
      assert ([head] + t)[..|t| + 1] + s + ([head] + t)[|t| + 1..] == [head] + (t + s);
    } else {
      assert t + s == t;
    }
  }

  lemma SpliceEnds(list: Node, s: seq<Node>)
    requires List(list, s) && s != []
    ensures s[0] in s && s[|s| - 1] in s && list in [list] + s && forall x :: x in s ==> x in [list] + s
  {
  }

  method SpliceInit(list: Node, head: Node, ghost s: seq<Node>, ghost t: seq<Node>)
    requires List(list, s) && List(head, t) && Apart(list, s, head, t)
    modifies list, s, head, t
    ensures List(head, s + t) && List(list, [])
  {
    Splice(list, head, s, t);
    ListNotIn(list, s, head, t);
    Init(list);
  }

  method SpliceTailInit(list: Node, head: Node, ghost s: seq<Node>, ghost t: seq<Node>)
    requires List(list, s) && List(head, t) && Apart(list, s, head, t)
    modifies list, s, head, t
    ensures List(head, t + s) && List(list, [])
  {
    SpliceTail(list, head, s, t);
    ListNotIn(list, s, head, t);
    Init(list);
  }

  lemma ListNotIn(list: Node, s: seq<Node>, head: Node, t: seq<Node>)
    requires Distinct([list] + s) && Apart(list, s, head, t)
    ensures list !in [head] + (s + t) && list !in [head] + (t + s)
  {
    assert list in [list] + s;
    if list in s {
      var i :| 0 <= i < |s| && s[i] == list;
      NotSame([list] + s, 0, i + 1);
    }
  }

  /** Cutting a list anywhere and splicing the cut part back in front restores it. */
  method CutAndSplice(list: Node, head: Node, entry: Node, ghost s: seq<Node>, ghost k: int)
    requires List(head, s) && List(list, []) && list != head && list !in s && 0 <= k <= |s| && entry == ([head] + s)[k]
    modifies list, head, s
    ensures List(head, s)
  {
    CutPosition(list, head, entry, s, k);
    ghost var cut, rest := s[..k], s[k..];
    assert s == cut + rest;
    CutApart(list, head, s, k);
    Splice(list, head, cut, rest);
  }

  lemma CutApart(list: Node, head: Node, s: seq<Node>, k: int)
    requires Distinct([head] + s) && list != head && list !in s && 0 <= k <= |s|
    ensures Apart(list, s[..k], head, s[k..])
  {
    var r := [head] + s;
    forall i, j | 0 <= i < k && k <= j < |s| ensures s[i] != s[j] && s[i] != head {
      NotSame(r, i + 1, j + 1);
      NotSame(r, 0, i + 1);
    }
    forall i | 0 <= i < k ensures s[i] != head {
      NotSame(r, 0, i + 1);
    }
  }

  // ----- the sequence is determined ------------------------------------

  /** The nodes determine the sequence: one list has one content. */
  lemma ListIsOne(head: Node, s: seq<Node>, t: seq<Node>)
    requires List(head, s) && List(head, t)
    ensures s == t
  {
    if |s| <= |t| {
      PrefixOfList(head, s, t);
    } else {
      PrefixOfList(head, t, s);
    }
  }

  lemma PrefixOfList(head: Node, s: seq<Node>, t: seq<Node>)
    requires List(head, s) && List(head, t) && |s| <= |t|
    ensures s == t
  {
    SameFrom(head, s, t, |s|);
    assert s == t[..|s|];
    RingAt([head] + s, |s|);
    RingAt([head] + t, |s|);
    if |s| < |t| {
      NotSame([head] + t, 0, |s| + 1);
    }
  }

  lemma {:induction false} SameFrom(head: Node, s: seq<Node>, t: seq<Node>, n: nat)
    requires List(head, s) && List(head, t) && n <= |s| <= |t|
    ensures s[..n] == t[..n]
  {
    if n > 0 {
      SameFrom(head, s, t, n - 1);
      RingAt([head] + s, n - 1);
      RingAt([head] + t, n - 1);
      assert ([head] + s)[n - 1] == if n > 1 then s[..n - 1][n - 2] else head;
      assert ([head] + t)[n - 1] == if n > 1 then t[..n - 1][n - 2] else head;
    }
  }
}
