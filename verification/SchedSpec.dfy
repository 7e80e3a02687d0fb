// The scheduler of linux-0.11/kernel/sched.c as a state machine: what schedule() chooses,
// and how long a runnable task can be kept waiting.

module SchedSpec {
  const NR_TASKS: nat := 64
  const RUNNING := 0
  const INTERRUPTIBLE := 1
  const UNINTERRUPTIBLE := 2

  datatype Slot =
    | Free
    | Task(state: int, counter: int, priority: int, signal: bv32, blocked: bv32, alarm: int)

  type Table = t: seq<Slot> | |t| == NR_TASKS witness seq(NR_TASKS, _ => Free)

  function PendingAlarm(signal: bv32): bv32 { signal | 0x2000 }

  function And(x: bv32, y: bv32): bv32 { x & y }
  function Or(x: bv32, y: bv32): bv32 { x | y }
  function Not(x: bv32): bv32 { !x }

  /** _BLOCKABLE: everything but SIGKILL and SIGSTOP can be blocked. */
  function Deliverable(signal: bv32, blocked: bv32): bool { And(signal, Not(And(0xFFFBFEFF, blocked))) != 0 }

  /** A task whose alarm has expired gets SIGALRM; an interruptible sleeper with a signal wakes. */
  function Woken(p: Slot, now: int): Slot
    requires p.Task?
  {
    var q := if p.alarm != 0 && p.alarm < now then p.(signal := PendingAlarm(p.signal), alarm := 0) else p;
    if Deliverable(q.signal, q.blocked) && q.state == INTERRUPTIBLE then q.(state := RUNNING) else q
  }

  function Recharge(p: Slot): Slot
    requires p.Task?
  {
    p.(counter := p.counter / 2 + p.priority)
  }

  /** Every task but task 0. */
  function Checked(v: Table, now: int): Table {
    seq(NR_TASKS, i requires 0 <= i < NR_TASKS => if i > 0 && v[i].Task? then Woken(v[i], now) else v[i])
  }

  function Recharged(v: Table): Table {
    seq(NR_TASKS, i requires 0 <= i < NR_TASKS => if i > 0 && v[i].Task? then Recharge(v[i]) else v[i])
  }

  ghost predicate Runnable(v: Table, i: int) {
    0 < i < NR_TASKS && v[i].Task? && v[i].state == RUNNING
  }

  /** c is the largest counter of a runnable task and next the highest slot that has it. */
  ghost predicate Best(v: Table, c: int, next: int) {
    Runnable(v, next) && v[next].counter == c
    && forall i :: Runnable(v, i) ==> v[i].counter < c || (v[i].counter == c && i <= next)
  }

  ghost predicate NoneRunnable(v: Table) { forall i :: !Runnable(v, i) }

  /** Somebody is runnable but nobody has time left. */
  ghost predicate Exhausted(v: Table) { exists i :: Best(v, 0, i) }

  /** What schedule() promises: recharge at most once, then the best task, or task 0 if there is none. */
  ghost predicate Schedules(v: Table, now: int, v': Table, next: nat) {
    var w := Checked(v, now);
    && v' == (if Exhausted(w) then Recharged(w) else w)
    && (if NoneRunnable(v') then next == 0 else Runnable(v', next) && Best(v', v'[next].counter, next) && v'[next].counter > 0)
  }

  /** Priorities are positive and no counter is beyond what recharging can give. */
  ghost predicate Sound(v: Table) {
    && v[0].Task?
    && forall i :: 0 <= i < NR_TASKS && v[i].Task? ==> v[i].priority > 0 && 0 <= v[i].counter <= 2 * v[i].priority - 1
  }

  lemma BestIsUnique(v: Table, c: int, i: int, c': int, i': int)
    requires Best(v, c, i) && Best(v, c', i')
    ensures c == c' && i == i'
  {
  }

  lemma {:induction false} BestUpTo(v: Table, n: nat) returns (c: int, next: nat)
    requires n <= NR_TASKS && exists i :: i < n && Runnable(v, i)
    ensures next < n && Runnable(v, next) && v[next].counter == c
    ensures forall i :: i < n && Runnable(v, i) ==> v[i].counter < c || (v[i].counter == c && i <= next)
    decreases n
  {
    if exists i :: i < n - 1 && Runnable(v, i) {
      c, next := BestUpTo(v, n - 1);
      if Runnable(v, n - 1) && v[n - 1].counter >= c {
        c, next := v[n - 1].counter, n - 1;
      }
    } else {
      c, next := v[n - 1].counter, n - 1;
    }
  }

  /** One table and one time determine what schedule() does: there is exactly one outcome. */
  lemma ScheduleIsDetermined(v: Table, now: int, v1: Table, n1: nat, v2: Table, n2: nat)
    requires Schedules(v, now, v1, n1) && Schedules(v, now, v2, n2)
    ensures v1 == v2 && n1 == n2
  {
    if !NoneRunnable(v1) {
      BestIsUnique(v1, v1[n1].counter, n1, v1[n2].counter, n2);
    }
  }

  /** Recharging once is enough, and keeps the counters within 2 * priority - 1. */
  lemma RechargedOnce(v: Table)
    requires Sound(v)
    ensures Sound(Recharged(v)) && !Exhausted(Recharged(v))
    ensures forall i :: Runnable(v, i) <==> Runnable(Recharged(v), i)
    ensures forall i :: Runnable(v, i) ==> Recharged(v)[i].counter > 0
  {
  }

  lemma CheckedSound(v: Table, now: int)
    requires Sound(v)
    ensures Sound(Checked(v, now))
    ensures forall i :: Runnable(v, i) ==> Runnable(Checked(v, now), i)
  {
    hide Deliverable, PendingAlarm;
  }

  /** schedule() always has an outcome, and keeps the table sound. */
  lemma ScheduleHappens(v: Table, now: int) returns (v': Table, next: nat)
    requires Sound(v)
    ensures Schedules(v, now, v', next) && Sound(v')
  {
    hide Woken, Recharge;
    CheckedSound(v, now);
    var w := Checked(v, now);
    v' := if Exhausted(w) then Recharged(w) else w;
    RechargedOnce(w);
    if NoneRunnable(v') {
      next := 0;
    } else {
      var c;
      c, next := BestUpTo(v', NR_TASKS);
      assert Best(v', c, next);
      assert c != 0;
    }
  }

  /**
   * Were priorities allowed to be 0, recharging would be in vain, and the search repeated for ever,
   * exactly when every runnable task has priority 0.
   */
  lemma RechargeIsUselessIff(v: Table)
    requires forall i :: Runnable(v, i) ==> v[i].counter >= 0 && v[i].priority >= 0
    requires Exhausted(v)
    ensures Exhausted(Recharged(v)) <==> forall i :: Runnable(v, i) ==> v[i].priority == 0
  {
    var w := Recharged(v);
    assert forall i :: Runnable(v, i) <==> Runnable(w, i);
    forall i | Runnable(v, i) ensures w[i].counter == v[i].priority {
      assert v[i].counter == 0;
    }
    var z :| Best(v, 0, z);
    assert Runnable(v, z) && Runnable(w, z);
    var c, next := BestUpTo(w, NR_TASKS);
    assert Best(w, c, next);
    if Exhausted(w) {
      var i :| Best(w, 0, i);
      BestIsUnique(w, 0, i, c, next);
    }
  }

  // ----- field by field ------------------------------------------------

  /** A signal gets through: SIGKILL and SIGSTOP always, the others unless they are blocked. */
  predicate GetsThrough(signal: bv32, blocked: bv32) {
    signal & 0x100 != 0 || signal & 0x4_0000 != 0 || signal & !blocked != 0
  }

  lemma DeliverableInBits(signal: bv32, blocked: bv32)
    ensures Deliverable(signal, blocked) <==> GetsThrough(signal, blocked)
  {
    hide And, Or, Not, GetsThrough;
    ThroughIs(signal, blocked);
    OpenIs(blocked);
    AndOfOr(signal, Or(0x100, 0x4_0000), Not(blocked));
    AndOfOr(signal, 0x100, 0x4_0000);
    OrIsZero(And(signal, Or(0x100, 0x4_0000)), And(signal, Not(blocked)));
    OrIsZero(And(signal, 0x100), And(signal, 0x4_0000));
  }

  lemma ThroughIs(signal: bv32, blocked: bv32)
    ensures GetsThrough(signal, blocked) <==> And(signal, 0x100) != 0 || And(signal, 0x4_0000) != 0 || And(signal, Not(blocked)) != 0
  {
  }

  lemma OpenIs(blocked: bv32)
    ensures Not(And(0xFFFBFEFF, blocked)) == Or(Or(0x100, 0x4_0000), Not(blocked))
  {
  }

  lemma AndOfOr(x: bv32, y: bv32, z: bv32)
    ensures And(x, Or(y, z)) == Or(And(x, y), And(x, z))
  {
  }

  lemma OrIsZero(x: bv32, y: bv32)
    ensures Or(x, y) != 0 <==> x != 0 || y != 0
  {
  }

  lemma AlarmBit(signal: bv32)
    ensures PendingAlarm(signal) == signal | 0x2000
  {
  }

  /** The alarm of every task but task 0 goes off when its time is past, and a task that can be interrupted
      runs again exactly when a signal gets through; nothing else changes. */
  lemma {:induction false} CheckedInFields(v: Table, now: int, i: nat)
    requires i < NR_TASKS
    ensures i == 0 || v[i].Free? ==> Checked(v, now)[i] == v[i]
    ensures i > 0 && v[i].Task? ==>
              var p, q := v[i], Checked(v, now)[i];
              && q.Task? && q.counter == p.counter && q.priority == p.priority && q.blocked == p.blocked
              && q.alarm == (if 0 != p.alarm < now then 0 else p.alarm)
              && q.signal == (if 0 != p.alarm < now then p.signal | 0x2000 else p.signal)
              && (q.state == p.state || q.state == 0)
              && (q.state == 0 <==> p.state == 0 || (p.state == 1 && GetsThrough(q.signal, q.blocked)))
  {
    hide Woken, GetsThrough;
    if i > 0 && v[i].Task? {
      WokenFields(v[i], now);
      WokenState(v[i], now);
    }
  }

  lemma {:induction false} WokenFields(p: Slot, now: int)
    requires p.Task?
    ensures var q := Woken(p, now);
            && q.Task? && q.counter == p.counter && q.priority == p.priority && q.blocked == p.blocked
            && q.alarm == (if 0 != p.alarm < now then 0 else p.alarm)
            && q.signal == (if 0 != p.alarm < now then p.signal | 0x2000 else p.signal)
  {
    hide Deliverable, PendingAlarm;
    AlarmBit(p.signal);
  }

  lemma {:induction false} WokenState(p: Slot, now: int)
    requires p.Task?
    ensures var q := Woken(p, now);
            && q.Task? && (q.state == p.state || q.state == 0)
            && (q.state == 0 <==> p.state == 0 || (p.state == 1 && GetsThrough(q.signal, q.blocked)))
  {
    hide Deliverable, GetsThrough, PendingAlarm;
    var q := Woken(p, now);
    DeliverableInBits(q.signal, q.blocked);
  }

  /** Recharging is for every task but task 0, asleep or not: half the counter, rounded down, and the priority. */
  lemma RechargedInFields(v: Table, i: nat)
    requires i < NR_TASKS
    ensures i == 0 || v[i].Free? ==> Recharged(v)[i] == v[i]
    ensures i > 0 && v[i].Task? ==>
              var p, q := v[i], Recharged(v)[i];
              && q.Task? && q.(counter := 0) == p.(counter := 0)
              && 2 * (q.counter - p.priority) <= p.counter <= 2 * (q.counter - p.priority) + 1
  {
  }

  /** What is chosen, and when everybody is recharged first. */
  lemma ScheduleInFields(v: Table, now: int, v': Table, next: nat)
    requires Sound(v) && Schedules(v, now, v', next)
    ensures var w := Checked(v, now);
            && ((exists i :: 0 < i < NR_TASKS && w[i].Task? && w[i].state == 0 && w[i].counter > 0) ==> v' == w)
            && ((exists i :: 0 < i < NR_TASKS && w[i].Task? && w[i].state == 0)
                && (forall i :: 0 < i < NR_TASKS && w[i].Task? && w[i].state == 0 ==> w[i].counter == 0)
                ==> v' == Recharged(w))
            && ((forall i :: 0 < i < NR_TASKS && w[i].Task? ==> w[i].state != 0) ==> v' == w && next == 0)
    ensures next < NR_TASKS && (next > 0 ==> v'[next].Task? && v'[next].state == 0)
    ensures forall i :: 0 < i < NR_TASKS && v'[i].Task? && v'[i].state == 0 ==>
              next > 0 && (v'[i].counter < v'[next].counter || (v'[i].counter == v'[next].counter && i <= next))
  {
    hide Woken, Recharge;
    CheckedSound(v, now);
    var w := Checked(v, now);
    assert forall i :: 0 < i < NR_TASKS && v'[i].Task? && v'[i].state == 0 ==> Runnable(v', i);
    if exists i :: 0 < i < NR_TASKS && w[i].Task? && w[i].state == 0 {
      var i :| 0 < i < NR_TASKS && w[i].Task? && w[i].state == 0;
      assert Runnable(w, i);
      var c, best := BestUpTo(w, NR_TASKS);
      assert Best(w, c, best);
      RechargedOnce(w);
    }
  }
}
