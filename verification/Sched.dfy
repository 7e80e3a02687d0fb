// The task table: schedule() and the scheduling half of do_timer() in
// linux-0.11/kernel/sched.c, pid selection and task creation in fork.c, release() in exit.c.

module Sched {
  import opened Cardinality
  import opened SchedSpec
  import opened Fairness

  const EAGAIN := 11
  const MAX_PID := 0x7FFFFFFF

  class Task {
    var state: int
    var counter: int
    var priority: int
    var signal: bv32
    var blocked: bv32
    var alarm: int
    var pid: int
    var father: int

    /** INIT_TASK. */
    constructor Init()
      ensures Row() == Slot.Task(RUNNING, 15, 15, 0, 0, 0) && pid == 0
    {
      state, counter, priority, signal, blocked, alarm := RUNNING, 15, 15, 0, 0, 0;
      pid, father := 0, -1;
    }

    /** The child: its parent's priority as counter and priority, waiting, without signals or alarm. */
    constructor Child(parent: Task, lastPid: int)
      ensures Row() == Slot.Task(UNINTERRUPTIBLE, parent.priority, parent.priority, 0, parent.blocked, 0)
      ensures pid == lastPid && father == parent.pid
    {
      state, counter, priority, signal, blocked, alarm := UNINTERRUPTIBLE, parent.priority, parent.priority, 0, parent.blocked, 0;
      pid, father := lastPid, parent.pid;
    }

    ghost function Row(): Slot
      reads this
    {
      Slot.Task(state, counter, priority, signal, blocked, alarm)
    }
  }

  // ----- pids ----------------------------------------------------------

  /** The next pid to try: 32-bit counting that starts again at 1. */
  function NextPid(p: int): int { if p == MAX_PID then 1 else p + 1 }

  /** NextPid, n times from p. */
  function Later(p: int, n: nat): int { if p + n <= MAX_PID then p + n else p + n - MAX_PID }

  lemma NextIsLater(p: int, n: nat)
    requires 0 <= p <= MAX_PID && n < MAX_PID
    ensures NextPid(Later(p, n)) == Later(p, n + 1) && 0 < Later(p, n + 1) <= MAX_PID
  {
  }

  class Kernel {
    var task: seq<Task?>
    var current: Task
    var jiffies: int
    var lastPid: int

    ghost function Tasks(): set<Task>
      reads this`task
    {
      set t: Task | t in task
    }

    ghost function RowOf(i: int): Slot
      requires 0 <= i < |task|
      reads this`task, Tasks()
    {
      if task[i] == null then Free else task[i].Row()
    }

    ghost function Rows(): (v: seq<Slot>)
      reads this`task, Tasks()
      ensures |v| == |task| && forall i :: 0 <= i < |task| ==> v[i] == RowOf(i)
    {
      RowsTo(|task|)
    }

    ghost function RowsTo(n: nat): (v: seq<Slot>)
      requires n <= |task|
      reads this`task, Tasks()
      ensures |v| == n && forall i :: 0 <= i < n ==> v[i] == RowOf(i)
    {
      if n == 0 then [] else RowsTo(n - 1) + [RowOf(n - 1)]
    }

    /** One slot per task and one task per slot; the table is sound. */
    ghost predicate TableOk()
      reads this`task, Tasks()
    {
      && |task| == NR_TASKS && task[0] != null
      && Distinct() && Sound(Rows())
    }

    ghost predicate Distinct()
      reads this`task
    {
      forall i, j :: 0 <= i < j < |task| && task[i] != null ==> task[i] != task[j]
    }

    lemma Elsewhere(i: int, j: int)
      requires Distinct() && 0 <= i < |task| && 0 <= j < |task| && i != j && task[i] != null
      ensures task[i] != task[j]
    {
      assert i < j || j < i;
    }

    /** Nothing that leaves the pids alone breaks PidsOk. */
    twostate lemma PidsKept()
      requires old(PidsOk()) && task == old(task) && lastPid == old(lastPid)
      requires forall t :: t in Tasks() ==> t.pid == old(t.pid)
      ensures PidsOk()
    {
      assert forall i :: 0 <= i < |task| && task[i] != null ==> task[i] in Tasks();
    }

    /** No two tasks share a pid, and all were given out by last_pid or are 0. */
    ghost predicate PidsOk()
      reads this`task, this`lastPid, Tasks()
    {
      && 0 <= lastPid <= MAX_PID
      && (forall i :: 0 <= i < |task| && task[i] != null ==> 0 <= task[i].pid <= MAX_PID)
      && (forall i, j :: 0 <= i < j < |task| && task[i] != null && task[j] != null ==> task[i].pid != task[j].pid)
    }

    ghost predicate Valid()
      reads this`task, this`lastPid, this`current, Tasks()
    {
      TableOk() && PidsOk() && current in task
    }

    /** sched_init: task 0 alone. */
    constructor ()
      ensures Valid() && fresh(Tasks()) && lastPid == 0
      ensures task[0] == current && forall i :: 0 < i < NR_TASKS ==> task[i] == null
    {
      var t := new Task.Init();
      current := t;
      task := seq(NR_TASKS, i => if i == 0 then t else null);
      jiffies := 0;
      lastPid := 0;
    }

    // ----- schedule ----------------------------------------------------

    method WakeIfDue(p: Task)
      modifies p
      ensures p.Row() == Woken(old(p.Row()), jiffies) && p.pid == old(p.pid)
    {
      hide Deliverable, PendingAlarm;
      if p.alarm != 0 && p.alarm < jiffies {
        p.signal := PendingAlarm(p.signal);
        p.alarm := 0;
      }
      if Deliverable(p.signal, p.blocked) && p.state == INTERRUPTIBLE {
        p.state := RUNNING;
      }
    }

    method CheckAlarms()
      requires TableOk()
      modifies Tasks()
      ensures TableOk() && Rows() == Checked(old(Rows()), jiffies)
      ensures forall t :: t in Tasks() ==> t.pid == old(t.pid)
    {
      hide Woken;
      var i := NR_TASKS - 1;
      while i > 0
        invariant 0 <= i < NR_TASKS
        invariant forall k :: 0 <= k < NR_TASKS && task[k] != null ==>
                                task[k].Row() == if k > i then Woken(old(task[k].Row()), jiffies) else old(task[k].Row())
        invariant forall t :: t in Tasks() ==> t.pid == old(t.pid)
      {
        if task[i] != null {
          WakeIfDue(task[i]);
        }
        forall k | 0 <= k < NR_TASKS && k != i && task[i] != null ensures task[k] != task[i] {
          Elsewhere(i, k);
        }
        i := i - 1;
      }
      CheckedSound(old(Rows()), jiffies);
      forall k | 0 <= k < NR_TASKS
        ensures RowOf(k) == Checked(old(Rows()), jiffies)[k]
      {
        assert old(Rows())[k] == old(RowOf(k));
      }
      assert Rows() == Checked(old(Rows()), jiffies);
    }

    /** The scan for the largest counter, from the last slot down to slot 1. */
    method FindNext() returns (c: int, next: nat)
      requires TableOk()
      ensures NoneRunnable(Rows()) ==> c == -1 && next == 0
      ensures !NoneRunnable(Rows()) ==> Best(Rows(), c, next)
    {
      c, next := -1, 0;
      var i := NR_TASKS - 1;
      while i > 0
        invariant 0 <= i < NR_TASKS
        invariant next == 0 ==> c == -1 && forall k :: i < k < NR_TASKS ==> !Runnable(Rows(), k)
        invariant next != 0 ==> i < next && Runnable(Rows(), next) && Rows()[next].counter == c
        invariant next != 0 ==> forall k :: i < k < NR_TASKS && Runnable(Rows(), k) ==>
                                              Rows()[k].counter < c || (Rows()[k].counter == c && k <= next)
      {
        assert Rows()[i] == RowOf(i);
        if task[i] != null && task[i].state == RUNNING && task[i].counter > c {
          c, next := task[i].counter, i;
        }
        i := i - 1;
      }
    }

    method RechargeAll()
      requires TableOk()
      modifies Tasks()
      ensures TableOk() && Rows() == Recharged(old(Rows()))
      ensures forall t :: t in Tasks() ==> t.pid == old(t.pid)
    {
      var i := NR_TASKS - 1;
      while i > 0
        invariant 0 <= i < NR_TASKS
        invariant forall k :: 0 <= k < NR_TASKS && task[k] != null ==>
                                task[k].Row() == if k > i then Recharge(old(task[k].Row())) else old(task[k].Row())
        invariant forall t :: t in Tasks() ==> t.pid == old(t.pid)
      {
        if task[i] != null {
          task[i].counter := task[i].counter / 2 + task[i].priority;
        }
        forall k | 0 <= k < NR_TASKS && k != i && task[i] != null ensures task[k] != task[i] {
          Elsewhere(i, k);
        }
        i := i - 1;
      }
      RechargedOnce(old(Rows()));
      forall k | 0 <= k < NR_TASKS
        ensures RowOf(k) == Recharged(old(Rows()))[k]
      {
        assert old(Rows())[k] == old(RowOf(k));
      }
      assert Rows() == Recharged(old(Rows()));
    }

    method Schedule() returns (next: nat)
      requires TableOk() && PidsOk()
      modifies this`current, Tasks()
      ensures Valid() && task == old(task)
      ensures Schedules(old(Rows()), jiffies, Rows(), next) && next < NR_TASKS && current == task[next]
      ensures forall t :: t in Tasks() ==> t.pid == old(t.pid)
    {
      hide Sound, Best, Checked, Recharged, Exhausted, NoneRunnable, Runnable, Schedules, PidsOk;
      CheckAlarms();
      ghost var v, w := old(Rows()), Rows();
      ghost var again := true;
      var c;
      while true
        invariant TableOk() && forall t :: t in Tasks() ==> t.pid == old(t.pid)
        invariant Rows() == if again then w else Recharged(w)
        invariant !again ==> Exhausted(w)
        decreases again
        modifies Tasks()
      {
        c, next := FindNext();
        if c != 0 {
          break;
        }
        FoundExhausted(Rows(), next);
        if !again {
          RechargedOnce(w);
        }
        RechargeAll();
        again := false;
      }
      Chosen(v, jiffies, w, Rows(), c, next);
      PidsKept();
      assert task[next] != null by {
        assert Rows()[next] == RowOf(next);
      }
      current := task[next];
    }

    // ----- do_timer ------------------------------------------------------

    /** The slot of a task. */
    ghost function SlotOf(t: Task): (i: int)
      requires t in task
      reads this`task
      ensures 0 <= i < |task| && task[i] == t
    {
      var i :| 0 <= i < |task| && task[i] == t; i
    }

    ghost function Now(): Sys
      requires TableOk() && current in task
      reads this`task, this`current, Tasks()
    {
      Sys(Rows(), SlotOf(current))
    }

    /** The table after the current task has paid for a tick, if it has something left to pay with. */
    ghost function Paid(): seq<Slot>
      requires TableOk() && current in task
      reads this`task, this`current, Tasks()
    {
      var p := current.Row();
      Rows()[SlotOf(current) := p.(counter := if p.counter <= 1 then 0 else p.counter - 1)]
    }

    /** The end of do_timer(): the current task's tick is charged, and in user mode it may lose the processor. */
    method ChargeTick(cpl: int)
      requires Valid()
      modifies this`current, Tasks()
      ensures Valid() && task == old(task)
      ensures Step(old(Now()), if cpl != 0 then UserTick(jiffies) else KernelTick, Now())
      ensures cpl == 0 || old(current.counter) > 1 ==> current == old(current) && Rows() == old(Paid())
      ensures cpl != 0 && old(current.counter) <= 1 ==> Schedules(old(Paid()), jiffies, Rows(), SlotOf(current))
      ensures forall t :: t in Tasks() ==> t.pid == old(t.pid)
    {
      hide Schedules, Sound, Best, PidsOk;
      ghost var v, cur := Rows(), SlotOf(current);
      assert v[cur] == current.Row();
      current.counter := current.counter - 1;
      PidsKept();
      if current.counter > 0 {
        Charges(v, cur);
        return;
      }
      current.counter := 0;
      PidsKept();
      Charges(v, cur);
      if cpl == 0 {
        return;
      }
      var next := Schedule();
      OneSlot(next);
    }

    lemma OneSlot(i: int)
      requires TableOk() && 0 <= i < NR_TASKS && task[i] != null
      ensures SlotOf(task[i]) == i
    {
      SameTask(i, SlotOf(task[i]));
    }

    lemma SameTask(i: int, j: int)
      requires Distinct() && 0 <= i < |task| && 0 <= j < |task| && task[i] != null && task[i] == task[j]
      ensures i == j
    {
    }

    /** With one counter charged the rows are the charged rows. */
    twostate lemma Charges(v: Table, new cur: int)
      requires task == old(task) && current == old(current)
      requires old(TableOk()) && old(current in task) && v == old(Rows()) && cur == old(SlotOf(current))
      requires forall t :: t in Tasks() && t != current ==> unchanged(t)
      requires current.Row() == Charged(v, cur)[cur]
      ensures Rows() == Charged(v, cur) && TableOk()
    {
      forall i | 0 <= i < NR_TASKS
        ensures RowOf(i) == Charged(v, cur)[i]
      {
        assert v[i] == old(RowOf(i));
        if i != cur && task[i] != null {
          Elsewhere(i, cur);
          assert task[i] in Tasks();
        }
      }
      assert Rows() == Charged(v, cur);
      ChargedSound(v, cur);
    }

    // ----- fork --------------------------------------------------------

    predicate PidUsed(pid: int)
      reads this`task, Tasks()
    {
      exists i :: 0 <= i < |task| && task[i] != null && task[i].pid == pid
    }

    ghost function UsedPids(n: nat): (s: set<int>)
      requires n <= |task|
      reads this`task, Tasks()
      ensures |s| <= n
      ensures forall i :: 0 <= i < n && task[i] != null ==> task[i].pid in s
    {
      if n == 0 then {}
      else UsedPids(n - 1) + if task[n - 1] == null then {} else {task[n - 1].pid}
    }

    twostate lemma SameTasks()
      requires task == old(task) && forall t :: t in Tasks() ==> unchanged(t)
      ensures TableOk() == old(TableOk()) && (|task| == NR_TASKS ==> UsedPids(NR_TASKS) == old(UsedPids(NR_TASKS)))
    {
      assert Tasks() == old(Tasks());
      assert forall i :: 0 <= i < |task| ==> RowOf(i) == old(RowOf(i));
      assert Rows() == old(Rows());
      assert Distinct() == old(Distinct());
    }

    /** The pids in use are those of the tasks. */
    lemma UsedIs()
      requires |task| == NR_TASKS
      ensures forall pid :: pid in UsedPids(NR_TASKS) <==> PidUsed(pid)
    {
      OnlyUsed(NR_TASKS);
      assert forall i :: 0 <= i < NR_TASKS && task[i] != null ==> task[i].pid in UsedPids(NR_TASKS);
    }

    lemma {:induction false} OnlyUsed(n: nat)
      requires n <= |task|
      ensures forall pid :: pid in UsedPids(n) ==> PidUsed(pid)
    {
      if n > 0 {
        OnlyUsed(n - 1);
        assert task[n - 1] != null ==> PidUsed(task[n - 1].pid);
      }
    }

    /** Whether a task has the pid. */
    method PidTaken(pid: int) returns (taken: bool)
      requires |task| == NR_TASKS
      ensures taken <==> pid in UsedPids(NR_TASKS)
    {
      hide UsedPids;
      UsedIs();
      taken := false;
      var i := 0;
      while i < NR_TASKS && !taken
        invariant 0 <= i <= NR_TASKS
        invariant taken ==> PidUsed(pid)
        invariant !taken ==> forall k :: 0 <= k < i && task[k] != null ==> task[k].pid != pid
      {
        if task[i] != null && task[i].pid == pid {
          taken := true;
        }
        i := i + 1;
      }
    }

    /** The first free slot after slot 0. */
    method FreeSlot() returns (nr: int)
      requires Valid()
      ensures Valid() && forall pid :: PidUsed(pid) <==> old(PidUsed(pid))
      ensures if forall i :: 1 <= i < NR_TASKS ==> task[i] != null then nr == -EAGAIN
              else 1 <= nr < NR_TASKS && task[nr] == null && forall i :: 1 <= i < nr ==> task[i] != null
    {
      hide Distinct, Sound, Rows;
      nr := 1;
      while nr < NR_TASKS
        invariant 1 <= nr <= NR_TASKS
        invariant forall i :: 1 <= i < nr ==> task[i] != null
      {
        if task[nr] == null {
          return;
        }
        nr := nr + 1;
      }
      nr := -EAGAIN;
    }

    /** The next pid in cyclic order that no task has. */
    method FreshPid() returns (ghost tries: nat)
      requires Valid()
      modifies this`lastPid
      ensures Valid() && !PidUsed(lastPid) && 0 < lastPid <= MAX_PID
      ensures 1 <= tries <= NR_TASKS + 1 && lastPid == Later(old(lastPid), tries)
      ensures forall k :: 1 <= k < tries ==> PidUsed(Later(old(lastPid), k))
      ensures if lastPid > old(lastPid) then forall p :: old(lastPid) < p < lastPid ==> PidUsed(p)
              else forall p :: old(lastPid) < p <= MAX_PID || 0 < p < lastPid ==> PidUsed(p)
    {
      hide Distinct, Sound, Rows, UsedPids, PidUsed, TriedInVain;
      ghost var p0, used := lastPid, UsedPids(NR_TASKS);
      ghost var tried: set<int> := {};
      tries := 0;
      NothingTried(used, p0);
      while true
        invariant 0 <= lastPid <= MAX_PID && lastPid == Later(p0, tries)
        invariant tries <= NR_TASKS && TableOk() && UsedPids(NR_TASKS) == used && TriedInVain(used, p0, tries, tried)
        decreases NR_TASKS - tries
      {
        NextIsLater(p0, tries);
        lastPid := NextPid(lastPid);
        SameTasks();
        var taken := PidTaken(lastPid);
        SameTasks();
        if !taken {
          UsedIs();
          AllTried(used, p0, tries, tried);
          AllBetween(used, p0, tries);
          tries := tries + 1;
          return;
        }
        OneMoreTried(used, p0, tries, tried, lastPid);
        tried := tried + {lastPid};
        tries := tries + 1;
      }
    }

    /** The next pid in cyclic order that no task has, and the first free slot after slot 0. */
    method FindEmptyProcess() returns (nr: int, ghost tries: nat)
      requires Valid()
      modifies this`lastPid
      ensures Valid() && !PidUsed(lastPid) && 0 < lastPid <= MAX_PID
      ensures 1 <= tries <= NR_TASKS + 1 && lastPid == Later(old(lastPid), tries)
      ensures forall k :: 1 <= k < tries ==> PidUsed(Later(old(lastPid), k))
      ensures if lastPid > old(lastPid) then forall p :: old(lastPid) < p < lastPid ==> PidUsed(p)
              else forall p :: old(lastPid) < p <= MAX_PID || 0 < p < lastPid ==> PidUsed(p)
      ensures if forall i :: 1 <= i < NR_TASKS ==> task[i] != null then nr == -EAGAIN
              else 1 <= nr < NR_TASKS && task[nr] == null && forall i :: 1 <= i < nr ==> task[i] != null
    {
      hide Distinct, Sound, Rows;
      tries := FreshPid();
      nr := FreeSlot();
    }

    /** A new task with an unused pid in a free slot leaves the table as it should be. */
    twostate lemma Added(nr: int, new p: Task)
      requires old(TableOk()) && old(PidsOk()) && 0 < nr < NR_TASKS && old(task)[nr] == null
      requires task == old(task)[nr := p] && p !in old(task) && forall t :: t in old(Tasks()) ==> unchanged(t)
      requires p.pid == lastPid && 0 < lastPid <= MAX_PID && p.priority > 0 && 0 <= p.counter < 2 * p.priority
      requires forall i :: 0 <= i < NR_TASKS && old(task)[i] != null ==> old(task[i].pid) != lastPid
      ensures TableOk() && PidsOk()
    {
      forall i | 0 <= i < NR_TASKS
        ensures RowOf(i) == old(Rows())[nr := p.Row()][i]
      {
        assert old(Rows())[i] == old(RowOf(i));
        if i != nr && old(task)[i] != null {
          assert old(task)[i] in old(Tasks());
        }
      }
      assert Rows() == old(Rows())[nr := p.Row()];
      forall i | 0 <= i < NR_TASKS && i != nr && old(task)[i] != null
        ensures task[i].pid == old(task[i].pid)
      {
        assert old(task)[i] in old(Tasks());
      }
    }

    lemma CurrentHasPriority()
      requires TableOk() && current in task
      ensures current.priority > 0
    {
      var i := SlotOf(current);
      assert Rows()[i] == RowOf(i);
    }

    /** sys_fork: find_empty_process and copy_process. */
    method Fork(pageFree: bool, memoryCopied: bool) returns (pid: int, ghost nr: nat)
      requires Valid()
      modifies this`task, this`lastPid
      ensures Valid() && 0 < lastPid
      ensures forall i :: 0 <= i < NR_TASKS && old(task)[i] != null ==> old(task[i].pid) != lastPid
      ensures pid < 0 <==> !pageFree || !memoryCopied || forall i :: 1 <= i < NR_TASKS ==> old(task)[i] != null
      ensures pid < 0 ==> pid == -EAGAIN && task == old(task)
      ensures pid >= 0 ==>
                && pid == lastPid && 1 <= nr < NR_TASKS && old(task)[nr] == null
                && (forall i :: 1 <= i < nr ==> old(task)[i] != null)
                && task[nr] != null && fresh(task[nr]) && task == old(task)[nr := task[nr]]
                && task[nr].pid == pid && task[nr].father == current.pid
                && task[nr].Row() == Slot.Task(RUNNING, current.priority, current.priority, 0, current.blocked, 0)
    {
      hide Sound, Rows, Distinct, PidsOk;
      var slot, tries := FindEmptyProcess();
      nr := 0;
      pid := -EAGAIN;
      if slot < 0 || !pageFree {
        return;
      }
      nr := slot;
      CurrentHasPriority();
      ghost var at := SlotOf(current);
      label Found:
      var p := new Task.Child(current, lastPid);
      task := task[slot := p];
      if !memoryCopied {
        task := task[slot := null];
        assert task == old(task);
        SameTasks@Found();
        PidsKept@Found();
        return;
      }
      p.state := RUNNING;
      pid := lastPid;
      assert task[at] == current;
      Added@Found(nr, p);
    }

    /** release(): the slot of p is emptied and the processor given away. */
    method Release(p: Task) returns (next: nat)
      requires Valid() && p in task[1..]
      modifies this, Tasks()
      ensures Valid() && lastPid == old(lastPid) && jiffies == old(jiffies)
      ensures p !in task && task == old(task)[old(SlotOf(p)) := null]
      ensures Schedules(old(Rows())[old(SlotOf(p)) := Free], jiffies, Rows(), next) && current == task[next]
    {
      hide Schedules;
      var i := 1;
      while i < NR_TASKS && task[i] != p
        invariant 1 <= i <= NR_TASKS
        invariant forall k :: 1 <= k < i ==> task[k] != p
      {
        i := i + 1;
      }
      OneSlot(i);
      ghost var v := Rows();
      task := task[i := null];
      forall k | 0 <= k < NR_TASKS
        ensures RowOf(k) == v[i := Free][k]
      {
        assert v[k] == old(RowOf(k));
      }
      assert Rows() == v[i := Free];
      next := Schedule();
    }

    // ----- runs --------------------------------------------------------

    /** In every run of forks, releases, ticks and reschedulings the task table stays valid: all pids are distinct. */
    method Run(calls: seq<Call>)
      requires Valid()
      modifies this, Tasks()
      ensures Valid()
    {
      for i := 0 to |calls|
        invariant Valid() && forall t :: t in Tasks() ==> t in old(Tasks()) || fresh(t)
      {
        match calls[i]
        case Fork(pageFree, memoryCopied) => var pid, nr := Fork(pageFree, memoryCopied);
        case Exit(slot) =>
          if 1 <= slot < NR_TASKS && task[slot] != null {
            var next := Release(task[slot]);
          }
        case Tick(cpl) =>
          jiffies := jiffies + 1;
          ChargeTick(cpl);
        case Yield =>
          var next := Schedule();
      }
    }
  }

  datatype Call = Fork(pageFree: bool, memoryCopied: bool) | Exit(slot: nat) | Tick(cpl: int) | Yield

  /** The pids tried in vain so far are in use, and they are as many as the tries. */
  ghost predicate TriedInVain(used: set<int>, from: int, tries: nat, tried: set<int>) {
    && tried <= used && |tried| == tries
    && (forall p :: p in tried ==> Passed(from, tries, p))
    && (forall k :: 1 <= k <= tries ==> Later(from, k) in used)
  }

  lemma NothingTried(used: set<int>, from: int)
    requires 0 <= from <= MAX_PID
    ensures TriedInVain(used, from, 0, {}) && from == Later(from, 0)
  {
  }

  lemma AllTried(used: set<int>, from: int, tries: nat, tried: set<int>)
    requires TriedInVain(used, from, tries, tried)
    ensures forall k :: 1 <= k <= tries ==> Later(from, k) in used
  {
  }

  /** The pids passed over are all those between the old and the new one, around the end. */
  lemma AllBetween(used: set<int>, from: int, tries: nat)
    requires 0 <= from <= MAX_PID && tries < MAX_PID && forall k :: 1 <= k <= tries ==> Later(from, k) in used
    ensures var to := Later(from, tries + 1);
            if to > from then forall p :: from < p < to ==> p in used
            else forall p :: from < p <= MAX_PID || 0 < p < to ==> p in used
  {
    var to := Later(from, tries + 1);
    forall p | from < p <= MAX_PID && (to <= from || p < to)
      ensures p in used
    {
      assert Later(from, p - from) == p;
    }
    forall p | to <= from && 0 < p < to
      ensures p in used
    {
      assert Later(from, p + MAX_PID - from) == p;
    }
  }

  /** One more pid tried in vain. More of them than pids in use there cannot be. */
  lemma OneMoreTried(used: set<int>, from: int, tries: nat, tried: set<int>, pid: int)
    requires 0 <= from <= MAX_PID && tries <= NR_TASKS && |used| <= NR_TASKS && TriedInVain(used, from, tries, tried)
    requires pid == Later(from, tries + 1) && pid in used
    ensures tries + 1 <= NR_TASKS && TriedInVain(used, from, tries + 1, tried + {pid})
  {
    assert pid !in tried;
    SubsetSize(tried + {pid}, used);
  }

  /** A pid among the n that follow p. */
  ghost predicate Passed(p: int, n: nat, x: int) { p < x <= p + n || x <= p + n - MAX_PID }

  lemma FoundExhausted(v: Table, next: nat)
    requires Best(v, 0, next)
    ensures Exhausted(v)
  {
  }

  /** What the search stopped at is what schedule() promises. */
  lemma Chosen(v: Table, now: int, w: Table, v': Table, c: int, next: nat)
    requires w == Checked(v, now) && Sound(w) && Sound(v') && c != 0
    requires v' == w || (v' == Recharged(w) && Exhausted(w))
    requires if NoneRunnable(v') then next == 0 else Best(v', c, next)
    ensures Schedules(v, now, v', next) && next < NR_TASKS && v'[next].Task?
  {
    hide Woken, Checked, Recharged;
    assert !Exhausted(v');
  }

  lemma ChargedSound(v: Table, cur: int)
    requires Sound(v) && 0 <= cur < NR_TASKS && v[cur].Task?
    ensures Sound(Charged(v, cur))
  {
  }
}
