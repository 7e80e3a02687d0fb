// No runnable task waits for ever: every run of timer ticks, reschedules and state changes of
// the other tasks gives a task that stays runnable the processor within a bounded number of
// user-mode ticks (linux-0.11/kernel/sched.c).

module Fairness {
  import opened SchedSpec

  datatype Sys = Sys(v: Table, cur: int)

  /**
   * UserTick and KernelTick are do_timer() with cpl != 0 and cpl == 0; Reschedule is any other call
   * of schedule(); Move is everything that changes states, signals and alarms between them.
   */
  datatype Event = UserTick(now: int) | KernelTick | Reschedule(now: int) | Move

  ghost predicate Inv(s: Sys) { Sound(s.v) && 0 <= s.cur < NR_TASKS && s.v[s.cur].Task? }

  /** A tick is taken from the counter of the running task, which stops at zero. */
  function Charged(v: Table, cur: int): Table
    requires 0 <= cur < NR_TASKS && v[cur].Task?
  {
    var c := v[cur].counter - 1;
    v[cur := v[cur].(counter := if c > 0 then c else 0)]
  }

  /** Only the running task pays, one tick, and never below zero. */
  lemma ChargedInFields(v: Table, cur: int, i: int)
    requires 0 <= cur < NR_TASKS && v[cur].Task? && 0 <= i < NR_TASKS
    ensures i != cur ==> Charged(v, cur)[i] == v[i]
    ensures var p, q := v[cur], Charged(v, cur)[cur];
            && q.Task? && q.(counter := 0) == p.(counter := 0) && q.counter >= 0
            && (p.counter >= 1 ==> q.counter + 1 == p.counter) && (p.counter <= 0 ==> q.counter == 0)
  {
  }

  /** The same tasks with the same counters and priorities. */
  ghost predicate SameBudgets(v: Table, v': Table) {
    forall i :: 0 <= i < NR_TASKS ==>
                  v[i].Task? == v'[i].Task? && (v[i].Task? ==> v[i].counter == v'[i].counter && v[i].priority == v'[i].priority)
  }

  ghost predicate Step(s: Sys, ev: Event, s': Sys)
    requires Inv(s)
  {
    match ev
    case UserTick(now) =>
      var w := Charged(s.v, s.cur);
      if w[s.cur].counter > 0 then s' == Sys(w, s.cur) else s'.cur >= 0 && Schedules(w, now, s'.v, s'.cur)
    case KernelTick => s' == Sys(Charged(s.v, s.cur), s.cur)
    case Reschedule(now) => s'.cur >= 0 && Schedules(s.v, now, s'.v, s'.cur)
    case Move => s'.cur == s.cur && SameBudgets(s.v, s'.v)
  }

  lemma StepKeepsInv(s: Sys, ev: Event, s': Sys)
    requires Inv(s) && Step(s, ev, s')
    ensures Inv(s')
  {
    if ev.UserTick? || ev.Reschedule? {
      var w := if ev.UserTick? then Charged(s.v, s.cur) else s.v;
      if ev.Reschedule? || w[s.cur].counter <= 0 {
        ScheduleKeepsSound(w, ev.now, s'.v, s'.cur);
      }
    }
  }

  lemma ScheduleKeepsSound(w: Table, now: int, v': Table, next: nat)
    requires Sound(w) && Schedules(w, now, v', next)
    ensures Sound(v') && next < NR_TASKS && v'[next].Task?
    ensures forall i :: Runnable(w, i) ==> Runnable(v', i)
  {
    hide Woken;
    CheckedSound(w, now);
    RechargedOnce(Checked(w, now));
  }

  // ----- the budget of the others --------------------------------------

  /** What the first n slots other than t can still spend. */
  function Others(v: Table, t: int, n: nat): int
    requires n <= NR_TASKS
  {
    if n == 0 then 0 else Others(v, t, n - 1) + if n - 1 != t && v[n - 1].Task? then v[n - 1].counter else 0
  }

  /** The most they can ever hold. */
  function Ceiling(v: Table, t: int, n: nat): int
    requires n <= NR_TASKS
  {
    if n == 0 then 0 else Ceiling(v, t, n - 1) + if n - 1 != t && v[n - 1].Task? then 2 * v[n - 1].priority - 1 else 0
  }

  lemma {:induction false} OthersBelowCeiling(v: Table, t: int, n: nat)
    requires Sound(v) && n <= NR_TASKS
    ensures 0 <= Others(v, t, n) <= Ceiling(v, t, n)
  {
    if n > 0 {
      OthersBelowCeiling(v, t, n - 1);
    }
  }

  lemma {:induction false} CeilingFixed(v: Table, v': Table, t: int, n: nat)
    requires n <= NR_TASKS
    requires forall i :: 0 <= i < NR_TASKS ==> v[i].Task? == v'[i].Task? && (v[i].Task? ==> v[i].priority == v'[i].priority)
    ensures Ceiling(v, t, n) == Ceiling(v', t, n)
  {
    if n > 0 {
      CeilingFixed(v, v', t, n - 1);
    }
  }

  lemma {:induction false} OthersFixed(v: Table, v': Table, t: int, n: nat)
    requires n <= NR_TASKS && SameBudgets(v, v')
    ensures Others(v, t, n) == Others(v', t, n)
  {
    if n > 0 {
      OthersFixed(v, v', t, n - 1);
    }
  }

  lemma {:induction false} OthersCharged(v: Table, cur: int, t: int, n: nat)
    requires Sound(v) && 0 <= cur < NR_TASKS && v[cur].Task? && cur != t && n <= NR_TASKS
    ensures Others(Charged(v, cur), t, n) == Others(v, t, n) - if cur < n && v[cur].counter > 0 then 1 else 0
  {
    if n > 0 {
      OthersCharged(v, cur, t, n - 1);
    }
  }

  /** Ticks that can pass before t runs. */
  function Patience(s: Sys, t: int): int
    requires 0 <= s.cur < NR_TASKS && s.v[s.cur].Task? && 0 <= t < NR_TASKS && s.v[t].Task?
  {
    Others(s.v, t, NR_TASKS)
    + (if s.v[t].counter == 0 then Ceiling(s.v, t, NR_TASKS) else 0)
    + (if s.v[s.cur].counter == 0 then 1 else 0)
  }

  /** When t is runnable and not chosen, schedule() leaves at most what was there, and a current task with time left. */
  lemma RescheduleSpends(w: Table, now: int, v': Table, next: nat, t: int)
    requires Sound(w) && Schedules(w, now, v', next) && Runnable(w, t) && next != t
    ensures Runnable(v', t) && next < NR_TASKS && v'[next].Task? && v'[next].counter > 0
    ensures if w[t].counter == 0 then
              || (v'[t].counter == 0 && Others(v', t, NR_TASKS) == Others(w, t, NR_TASKS))
              || (v'[t].counter > 0 && Others(v', t, NR_TASKS) <= Ceiling(w, t, NR_TASKS))
            else v'[t].counter > 0 && Others(v', t, NR_TASKS) == Others(w, t, NR_TASKS)
    ensures Ceiling(v', t, NR_TASKS) == Ceiling(w, t, NR_TASKS)
  {
    hide Deliverable, PendingAlarm;
    var c := Checked(w, now);
    CheckedSound(w, now);
    RechargedOnce(c);
    assert SameBudgets(w, c);
    OthersFixed(w, c, t, NR_TASKS);
    CeilingFixed(w, v', t, NR_TASKS);
    OthersBelowCeiling(v', t, NR_TASKS);
    assert Runnable(c, t) && Runnable(v', t);
    if Exhausted(c) {
      var z: int :| Best(c, 0, z);
      assert c[t].counter == 0;
    }
  }

  lemma TickLowers(s: Sys, now: int, s': Sys, t: int)
    requires Inv(s) && Step(s, UserTick(now), s') && Runnable(s.v, t) && s.cur != t && s'.cur != t
    ensures Inv(s') && s'.v[t].Task? && Patience(s', t) < Patience(s, t)
  {
    hide Others, Ceiling, Schedules, Runnable;
    StepKeepsInv(s, UserTick(now), s');
    RunnableTask(s.v, t);
    var w := Charged(s.v, s.cur);
    OthersCharged(s.v, s.cur, t, NR_TASKS);
    CeilingFixed(s.v, w, t, NR_TASKS);
    OthersBelowCeiling(w, t, NR_TASKS);
    if w[s.cur].counter <= 0 {
      StillRunnable(s.v, w, t);
      RescheduleSpends(w, now, s'.v, s'.cur, t);
      RunnableTask(s'.v, t);
    }
  }

  lemma StillRunnable(v: Table, w: Table, t: int)
    requires Runnable(v, t) && w[t] == v[t]
    ensures Runnable(w, t)
  {
  }

  lemma RunnableTask(v: Table, t: int)
    requires Runnable(v, t)
    ensures 0 < t < NR_TASKS && v[t].Task?
  {
  }

  lemma NothingRaises(s: Sys, ev: Event, s': Sys, t: int)
    requires Inv(s) && Step(s, ev, s') && !ev.UserTick? && Runnable(s.v, t) && s.cur != t && s'.cur != t
    ensures Inv(s') && s'.v[t].Task? && Patience(s', t) <= Patience(s, t)
  {
    hide Others, Ceiling, Schedules, Runnable;
    StepKeepsInv(s, ev, s');
    RunnableTask(s.v, t);
    OthersBelowCeiling(s.v, t, NR_TASKS);
    match ev
    case KernelTick =>
      OthersCharged(s.v, s.cur, t, NR_TASKS);
      CeilingFixed(s.v, s'.v, t, NR_TASKS);
    case Reschedule(now) =>
      RescheduleSpends(s.v, now, s'.v, s'.cur, t);
      RunnableTask(s'.v, t);
    case Move =>
      OthersFixed(s.v, s'.v, t, NR_TASKS);
      CeilingFixed(s.v, s'.v, t, NR_TASKS);
    case UserTick(_) =>
  }

  // ----- runs ----------------------------------------------------------

  ghost predicate IsRun(ss: seq<Sys>, evs: seq<Event>) {
    && |ss| == |evs| + 1 && Inv(ss[0])
    && forall i :: 0 <= i < |evs| ==> Inv(ss[i]) && Step(ss[i], evs[i], ss[i + 1])
  }

  ghost predicate StaysRunnable(ss: seq<Sys>, t: int) {
    0 < t < NR_TASKS && forall i {:trigger ss[i]} :: 0 <= i < |ss| ==> Runnable(ss[i].v, t)
  }

  function UserTicks(evs: seq<Event>): nat {
    if evs == [] then 0 else UserTicks(evs[..|evs| - 1]) + if evs[|evs| - 1].UserTick? then 1 else 0
  }

  lemma {:induction false} Waiting(ss: seq<Sys>, evs: seq<Event>, t: int)
    requires IsRun(ss, evs)
    requires StaysRunnable(ss, t) && forall i :: 0 <= i < |ss| ==> ss[i].cur != t
    ensures Inv(ss[|evs|]) && Patience(ss[|evs|], t) + UserTicks(evs) <= Patience(ss[0], t)
    decreases |evs|
  {
    hide Schedules;
    if evs != [] {
      var n := |evs| - 1;
      Waiting(ss[..n + 1], evs[..n], t);
      assert Step(ss[n], evs[n], ss[n + 1]);
      if evs[n].UserTick? {
        TickLowers(ss[n], evs[n].now, ss[n + 1], t);
      } else {
        NothingRaises(ss[n], evs[n], ss[n + 1], t);
      }
    }
  }

  /** A bound that depends on the priorities alone. */
  lemma PatienceBound(s: Sys, t: int)
    requires Inv(s) && 0 <= t < NR_TASKS && s.v[t].Task?
    ensures 0 <= Patience(s, t) <= 2 * Ceiling(s.v, t, NR_TASKS) + 1
  {
    OthersBelowCeiling(s.v, t, NR_TASKS);
  }

  /** A task that stays runnable runs before the user-mode ticks exceed its patience. */
  lemma Served(ss: seq<Sys>, evs: seq<Event>, t: int)
    requires IsRun(ss, evs) && StaysRunnable(ss, t)
    requires UserTicks(evs) > Patience(ss[0], t) || UserTicks(evs) > 2 * Ceiling(ss[0].v, t, NR_TASKS) + 1
    ensures exists i :: 0 <= i < |ss| && ss[i].cur == t
  {
    PatienceBound(ss[0], t);
    if forall i :: 0 <= i < |ss| ==> ss[i].cur != t {
      Waiting(ss, evs, t);
      PatienceBound(ss[|evs|], t);
    }
  }
}
