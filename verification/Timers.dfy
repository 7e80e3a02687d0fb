// The kernel timers of linux-0.11/kernel/sched.c: a list of delays, each relative to the timer
// before it, kept in 64 slots.

module Timers {
  import opened Cardinality

  const TIME_REQUESTS: nat := 64

  datatype Fn = Null | Routine(id: int)
  datatype Entry = Entry(fn: Fn, delta: int)

  // ----- the list as a sequence ----------------------------------------

  /** The loop of add_timer(): past every timer whose delay is shorter than what is left. */
  function Insert(d: seq<Entry>, e: Entry): (r: seq<Entry>)
    ensures |r| == |d| + 1
  {
    if d == [] || d[0].delta >= e.delta then [e] + d
    else [d[0]] + Insert(d[1..], e.(delta := e.delta - d[0].delta))
  }

  /** Where it ends up. */
  function Position(d: seq<Entry>, j: int): (k: nat)
    ensures k <= |d|
  {
    if d == [] || d[0].delta >= j then 0 else 1 + Position(d[1..], j - d[0].delta)
  }

  /** The tick, counted from now, on which the delays up to and including entry n - 1 have run out. */
  function Due(d: seq<Entry>, n: nat): int
    requires n <= |d|
  {
    if n == 0 then 0 else Due(d, n - 1) + d[n - 1].delta
  }

  ghost predicate Running(d: seq<Entry>) { forall i :: 0 <= i < |d| ==> d[i].delta >= 1 && d[i].fn != Null }

  lemma {:induction false} DueTail(d: seq<Entry>, n: nat)
    requires 0 < n <= |d|
    ensures Due(d, n) == d[0].delta + Due(d[1..], n - 1)
  {
    if n > 1 {
      DueTail(d, n - 1);
    }
  }

  lemma {:induction false} DuePrefix(d: seq<Entry>, d': seq<Entry>, n: nat)
    requires n <= |d| && n <= |d'| && d[..n] == d'[..n]
    ensures Due(d, n) == Due(d', n)
  {
    if n > 0 {
      assert d[n - 1] == d[..n][n - 1] == d'[..n][n - 1];
      assert d[..n - 1] == d[..n][..n - 1] == d'[..n - 1];
      DuePrefix(d, d', n - 1);
    }
  }

  lemma {:induction false} DueGrows(d: seq<Entry>, m: nat, n: nat)
    requires Running(d) && m <= n <= |d|
    ensures Due(d, m) + (n - m) <= Due(d, n)
  {
    if m < n {
      DueGrows(d, m, n - 1);
    }
  }

  lemma {:induction false} InsertSplit(d: seq<Entry>, e: Entry)
    ensures var k := Position(d, e.delta);
            Insert(d, e) == d[..k] + [e.(delta := e.delta - Due(d, k))] + d[k..]
  {
    if d != [] && d[0].delta < e.delta {
      var e' := e.(delta := e.delta - d[0].delta);
      InsertSplit(d[1..], e');
      var k := Position(d, e.delta);
      DueTail(d, k);
      SplitTail(d, k, e'.(delta := e'.delta - Due(d[1..], k - 1)));
    }
  }

  lemma SplitTail(d: seq<Entry>, k: nat, e: Entry)
    requires 0 < k <= |d|
    ensures [d[0]] + (d[1..][..k - 1] + [e] + d[1..][k - 1..]) == d[..k] + [e] + d[k..]
  {
  }

  /** The new timer stands after exactly the timers that are due before it, with some time left. */
  lemma {:induction false} PositionIs(d: seq<Entry>, j: int)
    requires Running(d) && j >= 1
    ensures var k := Position(d, j);
            j - Due(d, k) >= 1 && forall n :: 0 < n <= |d| ==> (n <= k <==> Due(d, n) < j)
  {
    if d == [] || d[0].delta >= j {
      forall n | 0 < n <= |d| ensures Due(d, n) >= j {
        DueGrows(d, 1, n);
        assert Due(d, 1) == d[0].delta;
      }
    } else {
      hide Due;
      assert Running(d[1..]) by {
        assert forall i :: 0 <= i < |d[1..]| ==> d[1..][i] == d[i + 1];
      }
      PositionIs(d[1..], j - d[0].delta);
      var k := Position(d, j);
      DueTail(d, k);
      forall n | 0 < n <= |d| ensures n <= k <==> Due(d, n) < j {
        DueTail(d, n);
        FirstDue(d);
      }
    }
  }

  lemma FirstDue(d: seq<Entry>)
    requires d != []
    ensures Due(d, 1) == d[0].delta && Due(d, 0) == 0 && Due(d[1..], 0) == 0
  {
  }

  /** The new timer goes in at one place, with what is left of its delay; every other entry is as it was. */
  lemma InsertIs(d: seq<Entry>, e: Entry)
    requires Running(d) && e.delta >= 1
    ensures var k := Position(d, e.delta);
            && Insert(d, e) == d[..k] + [e.(delta := e.delta - Due(d, k))] + d[k..]
            && e.delta - Due(d, k) >= 1
            && (forall n :: 0 < n <= |d| ==> (n <= k <==> Due(d, n) < e.delta))
  {
    InsertSplit(d, e);
    PositionIs(d, e.delta);
  }

  /**
   * The new timer is due when asked. Timers due before it keep their tick; the others, whose delays are
   * not reduced by what was put in front of them, move by exactly that much.
   */
  lemma InsertDue(d: seq<Entry>, e: Entry, i: nat)
    requires Running(d) && e.delta >= 1 && e.fn != Null && i < |d|
    ensures var k, r := Position(d, e.delta), Insert(d, e);
            && Running(r) && r[k].fn == e.fn && Due(r, k + 1) == e.delta
            && (i < k ==> r[i] == d[i] && Due(r, i + 1) == Due(d, i + 1))
            && (i >= k ==> r[i + 1] == d[i] && Due(r, i + 2) == Due(d, i + 1) + (e.delta - Due(d, k)))
  {
    InsertNewDue(d, e);
    var k, r := Position(d, e.delta), Insert(d, e);
    InsertIs(d, e);
    if i < k {
      assert r[..i + 1] == d[..i + 1];
      DuePrefix(r, d, i + 1);
    } else {
      InsertShifts(d, e, i);
    }
  }

  lemma InsertNewDue(d: seq<Entry>, e: Entry)
    requires Running(d) && e.delta >= 1 && e.fn != Null
    ensures var k, r := Position(d, e.delta), Insert(d, e);
            Running(r) && r[k].fn == e.fn && Due(r, k + 1) == e.delta
  {
    hide Insert, Position;
    InsertIs(d, e);
    var k, r := Position(d, e.delta), Insert(d, e);
    assert r[..k] == d[..k];
    DuePrefix(r, d, k);
  }

  lemma {:induction false} InsertShifts(d: seq<Entry>, e: Entry, i: nat)
    requires Running(d) && e.delta >= 1 && e.fn != Null && Position(d, e.delta) <= i < |d|
    ensures Insert(d, e)[i + 1] == d[i]
    ensures Due(Insert(d, e), i + 2) == Due(d, i + 1) + (e.delta - Due(d, Position(d, e.delta)))
    decreases i
  {
    var k, r := Position(d, e.delta), Insert(d, e);
    InsertIs(d, e);
    assert r[i + 1] == d[i];
    if i == k {
      InsertNewDue(d, e);
      assert Due(r, i + 2) == Due(r, k + 1) + d[i].delta;
    } else {
      InsertShifts(d, e, i - 1);
    }
  }

  /** Entry n - 1 of d is still due on the same tick after adding e. */
  ghost predicate OnTime(d: seq<Entry>, e: Entry, n: nat)
    requires n <= |d|
  {
    Due(Insert(d, e), if n <= Position(d, e.delta) then n else n + 1) == Due(d, n)
  }

  ghost predicate DueBefore(d: seq<Entry>, j: int, n: nat)
    requires n <= |d|
  {
    Due(d, n) < j
  }

  lemma OnTimeIff(d: seq<Entry>, e: Entry, n: nat)
    requires Running(d) && e.delta >= 1 && e.fn != Null && 0 < n <= |d|
    ensures OnTime(d, e, n) <==> DueBefore(d, e.delta, n)
  {
    InsertIs(d, e);
    InsertDue(d, e, n - 1);
  }

  /** Adding a timer leaves every queued one on time if and only if all of them are due before it. */
  lemma OthersKeptIff(d: seq<Entry>, e: Entry)
    requires Running(d) && e.delta >= 1 && e.fn != Null
    ensures (forall n :: 0 < n <= |d| ==> OnTime(d, e, n)) <==> (forall n :: 0 < n <= |d| ==> DueBefore(d, e.delta, n))
  {
    hide OnTime, DueBefore;
    forall n | 0 < n <= |d|
      ensures OnTime(d, e, n) <==> DueBefore(d, e.delta, n)
    {
      OnTimeIff(d, e, n);
    }
  }

  /** Two timers asked for the same tick: the one that was there first becomes due only at twice the time. */
  lemma SameTickIsLate(a: Fn, b: Fn, j: int)
    requires j >= 1
    ensures Insert([Entry(a, j)], Entry(b, j)) == [Entry(b, j), Entry(a, j)]
    ensures Due(Insert([Entry(a, j)], Entry(b, j)), 2) == 2 * j
  {
    var r := Insert([Entry(a, j)], Entry(b, j));
    assert r == [Entry(b, j), Entry(a, j)];
    assert Due(r, 1) == j;
  }

  // ----- ticks ---------------------------------------------------------

  /** One tick: the first delay goes down by one, and a timer that reaches 0 leaves. */
  function Ticked(d: seq<Entry>): seq<Entry> {
    if d == [] then []
    else if d[0].delta <= 1 then d[1..]
    else d[0 := d[0].(delta := d[0].delta - 1)]
  }

  /** The routines run on that tick: at most one. */
  function Fired(d: seq<Entry>): (f: seq<Fn>)
    ensures |f| <= 1
  {
    if d != [] && d[0].delta <= 1 then [d[0].fn] else []
  }

  /** A tick brings every timer nearer by one, and fires exactly the one that was due on it. */
  lemma TickDue(d: seq<Entry>, i: nat)
    requires Running(d) && i < |d|
    ensures Running(Ticked(d)) && Due(d, i + 1) >= 1
    ensures Fired(d) != [] && i == 0 <==> Due(d, i + 1) == 1
    ensures Fired(d) == [] ==> |Ticked(d)| == |d| && Due(Ticked(d), i + 1) == Due(d, i + 1) - 1 && Ticked(d)[i].fn == d[i].fn
    ensures Fired(d) != [] ==> Fired(d) == [d[0].fn] && |Ticked(d)| == |d| - 1
    ensures Fired(d) != [] && i > 0 ==> Due(Ticked(d), i) == Due(d, i + 1) - 1 && Ticked(d)[i - 1] == d[i]
  {
    DueTail(d, i + 1);
    DueGrows(d, 0, i + 1);
    if Fired(d) == [] {
      DueTail(Ticked(d), i + 1);
      assert Ticked(d)[1..] == d[1..];
    }
    if i > 0 {
      DueGrows(d, 1, i + 1);
      assert Due(d, 1) == d[0].delta;
    }
  }

  /** What becomes of the list when a routine adds timers: those due at once are called, and with
      TIME_REQUESTS in the list the next one is too many. */
  datatype Addition = Addition(ok: bool, d: seq<Entry>, direct: seq<Fn>)

  function AddedTo(d: seq<Entry>, adds: seq<Entry>): Addition
    decreases |adds|
  {
    if adds == [] then Addition(true, d, [])
    else
      var e := adds[0];
      if e.fn == Null then AddedTo(d, adds[1..])
      else if e.delta <= 0 then var a := AddedTo(d, adds[1..]); a.(direct := [e.fn] + a.direct)
      else if |d| >= TIME_REQUESTS then Addition(false, d, [])
      else AddedTo(Insert(d, e), adds[1..])
  }

  /** The additions that go into the list, and the routines of those that are called at once. */
  function Queued(adds: seq<Entry>): nat {
    if adds == [] then 0 else (if adds[0].fn != Null && adds[0].delta > 0 then 1 else 0) + Queued(adds[1..])
  }

  function AtOnce(adds: seq<Entry>): seq<Fn> {
    if adds == [] then [] else (if adds[0].fn != Null && adds[0].delta <= 0 then [adds[0].fn] else []) + AtOnce(adds[1..])
  }

  /** All additions are made, in order, when there is room for them; otherwise the list is full in the end. */
  lemma {:induction false} AddedInTotal(d: seq<Entry>, adds: seq<Entry>)
    requires |d| <= TIME_REQUESTS
    ensures var a := AddedTo(d, adds);
            && (a.ok <==> |d| + Queued(adds) <= TIME_REQUESTS)
            && (a.ok ==> |a.d| == |d| + Queued(adds) && a.direct == AtOnce(adds))
            && (!a.ok ==> |a.d| == TIME_REQUESTS && a.direct <= AtOnce(adds))
    decreases |adds|
  {
    hide Insert;
    if adds != [] {
      var e := adds[0];
      if e.fn == Null || e.delta <= 0 {
        AddedInTotal(d, adds[1..]);
      } else if |d| < TIME_REQUESTS {
        AddedInTotal(Insert(d, e), adds[1..]);
      }
    }
  }

  lemma NothingAdded(d: seq<Entry>)
    ensures AddedTo(d, []) == Addition(true, d, [])
  {
  }

  // ----- runs ----------------------------------------------------------

  datatype Event = Tick | Add(e: Entry)

  ghost predicate Fit(ev: Event) { ev.Add? ==> ev.e.delta >= 1 && ev.e.fn != Null }

  function After(d: seq<Entry>, ev: Event): seq<Entry> { if ev.Tick? then Ticked(d) else Insert(d, ev.e) }

  function Ticks(evs: seq<Event>): nat {
    if evs == [] then 0 else (if evs[0].Tick? then 1 else 0) + Ticks(evs[1..])
  }

  /** Where timer i is after an event that does not fire it. */
  function Moved(d: seq<Entry>, i: nat, ev: Event): nat {
    match ev
    case Tick => if Fired(d) != [] && i > 0 then i - 1 else i
    case Add(e) => if i < Position(d, e.delta) then i else i + 1
  }

  /** How many ticks pass before timer i fires, or -1 if it does not. */
  function FiresOn(d: seq<Entry>, i: nat, evs: seq<Event>): int
    decreases |evs|
  {
    if evs == [] then -1
    else if evs[0].Tick? && Fired(d) != [] && i == 0 then 1
    else
      var n := FiresOn(After(d, evs[0]), Moved(d, i, evs[0]), evs[1..]);
      if n == -1 then -1 else n + if evs[0].Tick? then 1 else 0
  }

  /** What the timers added at or ahead of timer i, while it waits, take from its time. */
  function Delay(d: seq<Entry>, i: nat, evs: seq<Event>): int
    decreases |evs|
  {
    if evs == [] || (evs[0].Tick? && Fired(d) != [] && i == 0) then 0
    else
      (if evs[0].Add? && i >= Position(d, evs[0].e.delta) then evs[0].e.delta - Due(d, Position(d, evs[0].e.delta)) else 0)
      + Delay(After(d, evs[0]), Moved(d, i, evs[0]), evs[1..])
  }

  /**
   * In every run a timer fires on exactly the tick it was due when queued plus the delay by later
   * timers put ahead of it; if the run is shorter than that, not at all.
   */
  lemma {:induction false} FiresWhenDue(d: seq<Entry>, i: nat, evs: seq<Event>)
    requires Running(d) && i < |d| && forall k :: 0 <= k < |evs| ==> Fit(evs[k])
    ensures Delay(d, i, evs) >= 0
    ensures FiresOn(d, i, evs) == if Ticks(evs) >= Due(d, i + 1) + Delay(d, i, evs) then Due(d, i + 1) + Delay(d, i, evs) else -1
    decreases |evs|
  {
    hide Insert, Position, Due, Ticked, Fired, Running;
    TickDue(d, i);
    if evs != [] {
      var ev, d', i' := evs[0], After(d, evs[0]), Moved(d, i, evs[0]);
      assert Fit(ev);
      if ev.Add? {
        InsertDue(d, ev.e, i);
        InsertIs(d, ev.e);
        FiresWhenDue(d', i', evs[1..]);
      } else if Fired(d) != [] && i == 0 {
      } else {
        FiresWhenDue(d', i', evs[1..]);
      }
    }
  }

  // ----- the code ------------------------------------------------------

  class Timer {
    var jiffies: int
    var fn: Fn
    var next: Timer?

    constructor ()
      ensures fn == Null && next == null
    {
      jiffies, fn, next := 0, Null, null;
    }

    ghost function Value(): Entry
      reads this
    {
      Entry(fn, jiffies)
    }
  }

  ghost function Values(q: seq<Timer>): (d: seq<Entry>)
    reads q
    ensures |d| == |q| && forall i :: 0 <= i < |d| ==> d[i] == q[i].Value()
  {
    if q == [] then [] else Values(q[..|q| - 1]) + [q[|q| - 1].Value()]
  }

  /** The next pointers lead from head through q and end there. */
  ghost predicate Chained(head: Timer?, q: seq<Timer>)
    reads q
  {
    head == (if q == [] then null else q[0]) && Linked(q)
  }

  ghost predicate Linked(q: seq<Timer>)
    reads q
  {
    && Distinct(q)
    && forall i {:trigger q[i].next} :: 0 <= i < |q| ==> q[i].next == if i + 1 < |q| then q[i + 1] else null
  }

  lemma ChainAt(head: Timer?, q: seq<Timer>, k: nat)
    requires Chained(head, q) && k < |q|
    ensures q[k].next == (if k + 1 < |q| then q[k + 1] else null)
    ensures k + 1 < |q| ==> q[k] != q[k + 1]
  {
  }

  lemma ChainTail(head: Timer?, q: seq<Timer>)
    requires Chained(head, q) && q != []
    ensures Chained(q[0].next, q[1..]) && q[0] !in q[1..] && head == q[0]
    ensures Values(q[1..]) == Values(q)[1..]
  {
    assert forall i {:trigger q[1..][i].next} :: 0 <= i < |q[1..]| ==> q[1..][i].next == q[i + 1].next;
  }

  /** Exchanging contents leaves the chain alone. */
  twostate lemma ChainKept(q: seq<Timer>)
    requires old(Linked(q)) && forall t :: t in q ==> t.next == old(t.next)
    ensures Linked(q)
  {
  }

  twostate lemma ValuesExchanged(q: seq<Timer>, new k: int)
    requires 0 <= k && k + 1 < |q| && Distinct(q) && forall t :: t in q && t != q[k] && t != q[k + 1] ==> unchanged(t)
    ensures Values(q) == old(Values(q))[k := q[k].Value()][k + 1 := q[k + 1].Value()]
  {
    hide Values;
    var v, v' := old(Values(q)), Values(q);
    forall i | 0 <= i < |q|
      ensures v'[i] == v[k := q[k].Value()][k + 1 := q[k + 1].Value()][i]
    {
      assert v[i] == old(q[i].Value()) && v'[i] == q[i].Value();
      if i != k && i != k + 1 {
        NotSame(q, i, k);
        NotSame(q, i, k + 1);
        assert q[i] in q && unchanged(q[i]);
      }
    }
  }

  lemma NotSame(q: seq<Timer>, i: nat, j: nat)
    requires Distinct(q) && i < |q| && j < |q| && i != j
    ensures q[i] != q[j]
  {
    assert i < j || j < i;
  }

  /** While the new entry is at place k: what is left of the insertion is into the entries after it. */
  ghost predicate Sinking(d: seq<Entry>, e: Entry, v: seq<Entry>, k: nat) {
    k < |v| && Insert(d, e) == v[..k] + Insert(v[k + 1..], v[k])
  }

  /** Entries k and k + 1 changed places, the one going down less by the one going up. */
  function Exchanged(v: seq<Entry>, k: int): seq<Entry>
    requires 0 <= k && k + 1 < |v|
  {
    v[k := v[k + 1]][k + 1 := v[k].(delta := v[k].delta - v[k + 1].delta)]
  }

  /** One exchange on values. */
  lemma SinkStep(d: seq<Entry>, e: Entry, v: seq<Entry>, k: nat, v': seq<Entry>)
    requires k + 1 < |v| && v[k + 1].delta < v[k].delta
    requires Sinking(d, e, v, k)
    requires v' == Exchanged(v, k)
    ensures Sinking(d, e, v', k + 1)
  {
    assert v[k + 1..][1..] == v[k + 2..] == v'[k + 2..];
    assert v'[..k + 1] == v[..k] + [v[k + 1]];
  }

  lemma SinkEnd(d: seq<Entry>, e: Entry, v: seq<Entry>, k: nat)
    requires k < |v| && (k + 1 < |v| ==> v[k + 1].delta >= v[k].delta)
    requires Sinking(d, e, v, k)
    ensures v == Insert(d, e)
  {
    assert Insert(v[k + 1..], v[k]) == [v[k]] + v[k + 1..];
  }

  method Exchange(p: Timer, q: Timer)
    requires p != q
    modifies p`jiffies, p`fn, q`jiffies, q`fn
    ensures p.Value() == old(q.Value())
    ensures q.Value() == old(p.Value()).(delta := old(p.jiffies) - old(q.jiffies))
  {
    p.jiffies := p.jiffies - q.jiffies;
    var fn := p.fn;
    p.fn := q.fn;
    q.fn := fn;
    var jiffies := p.jiffies;
    p.jiffies := q.jiffies;
    q.jiffies := jiffies;
  }

  lemma {:induction false} DistinctSize(s: seq<Timer>)
    requires Distinct(s)
    ensures |set t | t in s| == |s|
  {
    if s != [] {
      var n := |s| - 1;
      DistinctSize(s[..n]);
      assert (set t | t in s) == (set t | t in s[..n]) + {s[n]};
    }
  }

  /** A queue inside the slots fills them exactly when no slot is left over. */
  lemma QueueRoom(slots: seq<Timer>, q: seq<Timer>)
    requires Distinct(slots) && Distinct(q) && forall t :: t in q ==> t in slots
    ensures |q| < |slots| <==> exists t :: t in slots && t !in q
  {
    var a, b := set t | t in q, set t | t in slots;
    DistinctSize(q);
    DistinctSize(slots);
    SubsetSize(a, b);
    if t :| t in slots && t !in q {
      SubsetSize(a, b - {t});
    } else {
      SubsetSize(b, a);
    }
  }

  class TimerList {
    var slots: seq<Timer>
    var nextTimer: Timer?
    /** Routines called so far. */
    var called: seq<Fn>
    /** The queued slots, first to fire first. */
    ghost var queue: seq<Timer>

    ghost function Contents(): (d: seq<Entry>)
      reads this, queue
      ensures |d| == |queue| && forall i :: 0 <= i < |d| ==> d[i] == queue[i].Value()
    {
      Values(queue)
    }

    ghost predicate Valid()
      reads this, slots, queue
    {
      Listed() && Running(Contents())
    }

    /** A slot has a routine exactly when it is on the list. */
    ghost predicate Listed()
      reads this, slots, queue
    {
      && |slots| == TIME_REQUESTS
      && Distinct(slots)
      && (forall t :: t in queue ==> t in slots)
      && (forall t :: t in slots ==> (t.fn != Null <==> t in queue))
      && Chained(nextTimer, queue)
    }

    constructor ()
      ensures Valid() && queue == [] && called == []
    {
      slots, nextTimer, called, queue := [], null, [], [];
      new;
      while |slots| < TIME_REQUESTS
        invariant |slots| <= TIME_REQUESTS && nextTimer == null && called == [] && queue == []
        invariant Distinct(slots)
        invariant forall t :: t in slots ==> fresh(t) && t.fn == Null
        modifies this
      {
        var t := new Timer();
        slots := slots + [t];
      }
    }

    /** add_timer(). The answer is false when no slot is free, where the source panics. */
    method AddTimer(jiffies: int, fn: Fn) returns (ok: bool)
      requires Valid()
      modifies this, slots
      ensures Valid() && slots == old(slots)
      ensures ok <==> fn == Null || jiffies <= 0 || old(|queue|) < TIME_REQUESTS
      ensures ok && fn != Null && jiffies > 0 ==> Contents() == Insert(old(Contents()), Entry(fn, jiffies)) && called == old(called)
      ensures !ok || fn == Null || jiffies <= 0 ==> Contents() == old(Contents())
      ensures called == if fn != Null && jiffies <= 0 then old(called) + [fn] else old(called)
    {
      hide Chained, Values, Running, Insert;
      ok := true;
      if fn == Null {
        return;
      }
      if jiffies <= 0 {
        called := called + [fn];
        return;
      }
      var i := 0;
      while i < TIME_REQUESTS && slots[i].fn != Null
        invariant 0 <= i <= TIME_REQUESTS
        invariant forall k :: 0 <= k < i ==> slots[k].fn != Null
        modifies {}
      {
        i := i + 1;
      }
      ChainDistinct(nextTimer, queue);
      QueueRoom(slots, queue);
      if i >= TIME_REQUESTS {
        return false;
      }
      ghost var d := Contents();
      var p := slots[i];
      PushFront(p, fn, jiffies);
      Sink(p, d, Entry(fn, jiffies));
    }

    /** A free slot becomes the head of the list. */
    method PushFront(p: Timer, fn: Fn, jiffies: int)
      requires Valid() && p in slots && p.fn == Null && fn != Null
      modifies this`nextTimer, this`queue, p
      ensures Listed() && queue == [p] + old(queue)
      ensures Contents() == [Entry(fn, jiffies)] + old(Contents())
    {
      hide Running;
      ghost var q, d := queue, Contents();
      p.fn := fn;
      p.jiffies := jiffies;
      p.next := nextTimer;
      nextTimer := p;
      queue := [p] + q;
      assert forall i {:trigger queue[i].next} :: 1 <= i < |queue| ==> queue[i] == q[i - 1];
      forall i | 0 <= i < |queue|
        ensures queue[i].Value() == ([Entry(fn, jiffies)] + d)[i]
      {
        assert i > 0 ==> queue[i] == q[i - 1] && d[i - 1] == q[i - 1].Value();
      }
    }

    /** The loop of add_timer(), started at the head. */
    method Sink(first: Timer, ghost d: seq<Entry>, ghost e: Entry)
      requires Listed() && Contents() == [e] + d && queue[0] == first
      requires Running(d) && e.delta >= 1 && e.fn != Null
      modifies queue
      ensures Valid() && Contents() == Insert(d, e)
    {
      hide Chained, Insert, Running, Distinct;
      SinkLoop(nextTimer, queue, first, d, e);
      InsertNewDue(d, e);
      RunningFns(Contents());
      forall t | t in queue ensures t.fn != Null {
        var i :| 0 <= i < |queue| && queue[i] == t;
        assert Contents()[i].fn == t.fn;
      }
    }

    /** The head's routine is called and its slot is free again. */
    method FireHead(head: Timer)
      requires Listed() && nextTimer == head
      modifies this`nextTimer, this`queue, this`called, head`fn
      ensures Listed() && queue == old(queue)[1..] && Contents() == old(Contents())[1..]
      ensures called == old(called) + [old(Contents())[0].fn]
    {
      ghost var q := queue;
      ChainTail(nextTimer, q);
      var fn := nextTimer.fn;
      nextTimer.fn := Null;
      nextTimer := nextTimer.next;
      queue := queue[1..];
      called := called + [fn];
      TailMembers(q);
    }

    method CountDown(head: Timer)
      requires Listed() && nextTimer == head
      modifies head`jiffies
      ensures Listed() && Contents() == old(Contents())[0 := old(Contents())[0].(delta := old(Contents())[0].delta - 1)]
    {
      hide Values;
      ghost var d, q := Contents(), queue;
      nextTimer.jiffies := nextTimer.jiffies - 1;
      ghost var d' := Contents();
      forall i | 0 <= i < |q|
        ensures d'[i] == d[0 := d[0].(delta := d[0].delta - 1)][i]
      {
        assert d[i] == old(q[i].Value()) && d'[i] == q[i].Value();
        if i > 0 {
          NotSame(q, i, 0);
        }
      }
    }

    /** The calls of add_timer() that one routine makes; they end where the source panics. */
    method AddAll(adds: seq<Entry>) returns (ok: bool)
      requires Valid()
      modifies this, slots
      ensures Valid() && slots == old(slots)
      ensures var a := AddedTo(old(Contents()), adds);
              ok == a.ok && Contents() == a.d && called == old(called) + a.direct
      decreases |adds|
    {
      hide Listed, Running, Insert, Values;
      ok := true;
      if adds != [] {
        ghost var d, c := Contents(), called;
        SameSize();
        ok := AddTimer(adds[0].delta, adds[0].fn);
        if ok {
          assert Entry(adds[0].fn, adds[0].delta) == adds[0];
          ok := AddAll(adds[1..]);
        }
      }
    }

    lemma SameSize()
      ensures |Contents()| == |queue|
    {
    }

    /** The head's time is up: it leaves, and its routine is called, which may add timers. */
    method FireFirst(adds: seq<Entry>, ghost d: seq<Entry>) returns (ok: bool)
      requires Listed() && nextTimer != null && Running(d) && d != []
      requires Contents() == d[0 := d[0].(delta := d[0].delta - 1)]
      modifies this, slots
      ensures Valid() && slots == old(slots)
      ensures var a := AddedTo(d[1..], adds);
              ok == a.ok && Contents() == a.d && called == old(called) + [d[0].fn] + a.direct
    {
      hide Listed, Values, AddedTo;
      ListedFacts();
      FireHead(nextTimer);
      assert Contents() == d[1..];
      ok := AddAll(adds);
    }

    /** The head is the first to fire. */
    lemma HeadTime()
      requires Listed()
      ensures nextTimer != null <==> Contents() != []
      ensures nextTimer != null ==> nextTimer in slots && nextTimer.jiffies == Contents()[0].delta
    {
      ListedFacts();
    }

    /** The timer part of do_timer(); a routine that it calls may itself add timers. */
    method Tick(adds: seq<Entry>) returns (ok: bool)
      requires Valid()
      modifies this, slots
      ensures Valid() && slots == old(slots)
      ensures var d := old(Contents());
              var a := AddedTo(Ticked(d), if Fired(d) == [] then [] else adds);
              ok == a.ok && Contents() == a.d && called == old(called) + Fired(d) + a.direct
    {
      hide Listed, Values, AddedTo, Contents;
      ghost var d, c := Contents(), called;
      ghost var a, e := AddedTo(d[if d == [] then 0 else 1..], adds), if d == [] then d else d[0 := d[0].(delta := d[0].delta - 1)];
      ok := true;
      NothingAdded(Ticked(d));
      HeadTime();
      if nextTimer != null {
        CountDown(nextTimer);
        ghost var fired := false;
        HeadTime();
        while nextTimer != null && nextTimer.jiffies <= 0
          invariant Listed() && slots == old(slots)
          invariant if fired then Valid() && d[0].delta <= 1 && ok == a.ok && Contents() == a.d && called == c + [d[0].fn] + a.direct
                    else ok && Contents() == e && called == c && nextTimer != null && nextTimer.jiffies == e[0].delta
          decreases !fired
        {
          if fired {
            HeadTime();
          }
          ok := FireFirst(adds, d);
          fired := true;
        }
        HeadTime();
      }
    }

    lemma ListedFacts()
      requires Listed()
      ensures nextTimer == (if queue == [] then null else queue[0]) && (nextTimer != null ==> nextTimer in slots)
    {
    }
  }

  lemma TailMembers(q: seq<Timer>)
    requires q != [] && q[0] !in q[1..]
    ensures forall t :: t in q[1..] <==> t in q && t != q[0]
  {
    assert q == [q[0]] + q[1..];
  }

  /** One iteration: the contents of p and of the slot after it are exchanged. */
  method SinkOnce(ghost head: Timer?, ghost queue: seq<Timer>, p: Timer, ghost k: nat) returns (p': Timer)
    requires Chained(head, queue) && k < |queue| && queue[k] == p && p.next != null
    modifies queue
    ensures Chained(head, queue) && k + 1 < |queue| && p' == queue[k + 1]
    ensures Values(queue) == Exchanged(old(Values(queue)), k)
  {
    hide Linked, Values, Distinct;
    ChainAt(head, queue, k);
    ChainDistinct(head, queue);
    p' := p.next;
    Exchange(p, p');
    ChainKept(queue);
    ValuesExchanged(queue, k);
  }

  /** The contents of p and of the slot after it are exchanged while that one is shorter. */
  method SinkLoop(ghost head: Timer?, ghost queue: seq<Timer>, first: Timer, ghost d: seq<Entry>, ghost e: Entry)
    requires Chained(head, queue) && Values(queue) == [e] + d && queue[0] == first
    modifies queue
    ensures Chained(head, queue) && Values(queue) == Insert(d, e)
  {
    hide Chained, Insert, Distinct, Values, Sinking;
    var p := first;
    ghost var k := 0;
    SinkStart(d, e, Values(queue));
    while p.next != null && p.next.jiffies < p.jiffies
      invariant 0 <= k < |queue| && p == queue[k] && Chained(head, queue)
      invariant Sinking(d, e, Values(queue), k)
      decreases |queue| - k
    {
      ChainAt(head, queue, k);
      ghost var v := Values(queue);
      p := SinkOnce(head, queue, p, k);
      SinkStep(d, e, v, k, Values(queue));
      k := k + 1;
    }
    ChainAt(head, queue, k);
    SinkEnd(d, e, Values(queue), k);
  }

  lemma ChainDistinct(head: Timer?, q: seq<Timer>)
    requires Chained(head, q)
    ensures Distinct(q)
  {
  }

  lemma SinkStart(d: seq<Entry>, e: Entry, v: seq<Entry>)
    requires v == [e] + d
    ensures Sinking(d, e, v, 0)
  {
    assert v[1..] == d;
  }

  lemma RunningFns(d: seq<Entry>)
    requires Running(d)
    ensures forall i :: 0 <= i < |d| ==> d[i].fn != Null
  {
  }
}
