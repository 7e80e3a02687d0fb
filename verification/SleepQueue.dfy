// sleep_on() and wake_up() (linux-0.11/kernel/sched.c): a queue of sleepers with no queue in
// memory. Each sleeper keeps, in its own stack frame, a pointer to the task that was at the
// head before it; waking the head makes it wake the next when it resumes.

module SleepQueue {
  import opened SchedSpec

  const NULL := -1

  /** Where a task is in sleep_on(): outside it, or past saving the old queue head and becoming the new one. */
  datatype Frame = Out | In(tmp: int)

  /** The queue heads, and the state and stack frame of each task. */
  datatype Queues = Queues(head: seq<int>, state: seq<int>, frame: seq<Frame>)

  ghost predicate Shape(s: Queues) {
    |s.state| == |s.frame| && forall q :: 0 <= q < |s.head| ==> s.head[q] == NULL || IsTask(s, s.head[q])
  }

  predicate IsTask(s: Queues, t: int) { 0 <= t < |s.state| }

  ghost predicate Asleep(s: Queues, t: int)
    requires |s.state| == |s.frame|
  {
    IsTask(s, t) && s.frame[t].In? && s.state[t] == UNINTERRUPTIBLE
  }

  /** Woken inside sleep_on() and not resumed yet. */
  ghost predicate Waking(s: Queues, t: int)
    requires |s.state| == |s.frame|
  {
    IsTask(s, t) && s.frame[t].In? && s.state[t] == RUNNING
  }

  // ----- steps ---------------------------------------------------------

  /** sleep_on() up to schedule(). */
  function Enter(s: Queues, cur: int, q: int): Queues
    requires IsTask(s, cur) && cur < |s.frame| && 0 <= q < |s.head|
  {
    Queues(s.head[q := cur], s.state[cur := UNINTERRUPTIBLE], s.frame[cur := In(s.head[q])])
  }

  /** sleep_on() after schedule(). */
  function Resume(s: Queues, cur: int): Queues
    requires 0 <= cur < |s.frame| && s.frame[cur].In?
    requires s.frame[cur].tmp == NULL || IsTask(s, s.frame[cur].tmp)
  {
    var tmp := s.frame[cur].tmp;
    Queues(s.head, if tmp != NULL then s.state[tmp := RUNNING] else s.state, s.frame[cur := Out])
  }

  function WakeUp(s: Queues, q: int): Queues
    requires 0 <= q < |s.head| && (s.head[q] == NULL || IsTask(s, s.head[q]))
  {
    if s.head[q] == NULL then s
    else Queues(s.head[q := NULL], s.state[s.head[q] := RUNNING], s.frame)
  }

  /** Anything else that happens to the state of a task that is not inside sleep_on(). */
  function Elsewhere(s: Queues, t: int, state: int): Queues
    requires IsTask(s, t)
  {
    s.(state := s.state[t := state])
  }

  datatype Step = DoEnter(cur: int, q: int) | DoResume(cur: int) | DoWakeUp(q: int) | DoElsewhere(t: int, state: int)

  /** When a step can happen: only a task that runs can call sleep_on() or come back from schedule(). */
  ghost predicate Enabled(s: Queues, step: Step)
    requires Shape(s)
  {
    match step
    case DoEnter(cur, q) => IsTask(s, cur) && s.frame[cur].Out? && 0 <= q < |s.head|
    case DoResume(cur) => Waking(s, cur) && (s.frame[cur].tmp == NULL || IsTask(s, s.frame[cur].tmp))
    case DoWakeUp(q) => 0 <= q < |s.head|
    case DoElsewhere(t, _) => IsTask(s, t) && s.frame[t].Out?
  }

  function Next(s: Queues, step: Step): Queues
    requires Shape(s) && Enabled(s, step)
  {
    match step
    case DoEnter(cur, q) => Enter(s, cur, q)
    case DoResume(cur) => Resume(s, cur)
    case DoWakeUp(q) => WakeUp(s, q)
    case DoElsewhere(t, state) => Elsewhere(s, t, state)
  }

  // ----- the chains ----------------------------------------------------

  /** What a chain of sleepers hangs from: a queue head, or the tmp of a task that is waking. */
  datatype Root = Queue(q: int) | Woken(t: int)

  datatype Place = Place(root: Root, i: int)

  /** The chain under each root, oldest sleeper first, and the place of each sleeper. */
  datatype Chains = Chains(chain: map<Root, seq<int>>, place: int -> Place)

  ghost predicate IsRoot(s: Queues, r: Root)
    requires Shape(s)
  {
    match r
    case Queue(q) => 0 <= q < |s.head|
    case Woken(t) => Waking(s, t)
  }

  /** The task a root points to. */
  ghost function Target(s: Queues, r: Root): int
    requires Shape(s) && IsRoot(s, r)
  {
    match r
    case Queue(q) => s.head[q]
    case Woken(t) => s.frame[t].tmp
  }

  function Last(c: seq<int>): int { if c == [] then NULL else c[|c| - 1] }

  /** Sleeper i of the chain under r is asleep, points to the one that slept before it, and is only here. */
  ghost predicate Link(s: Queues, g: Chains, r: Root, i: int)
    requires Shape(s) && r in g.chain && 0 <= i < |g.chain[r]|
  {
    var c := g.chain[r];
    Asleep(s, c[i]) && s.frame[c[i]].tmp == (if i == 0 then NULL else c[i - 1]) && g.place(c[i]) == Place(r, i)
  }

  ghost predicate Linked(s: Queues, g: Chains, r: Root)
    requires Shape(s) && r in g.chain
  {
    && IsRoot(s, r) && Target(s, r) == Last(g.chain[r])
    && forall i {:trigger Link(s, g, r, i)} {:trigger g.chain[r][i]} :: 0 <= i < |g.chain[r]| ==> Link(s, g, r, i)
  }

  ghost predicate Placed(s: Queues, g: Chains, t: int)
    requires Shape(s)
  {
    var p := g.place(t);
    p.root in g.chain && 0 <= p.i < |g.chain[p.root]| && g.chain[p.root][p.i] == t
  }

  /** Every task inside sleep_on() is asleep in exactly one place of one chain, or is waking and is itself a root. */
  ghost predicate Inv(s: Queues, g: Chains) {
    && Shape(s)
    && (forall r :: IsRoot(s, r) ==> r in g.chain)
    && (forall r :: r in g.chain ==> Linked(s, g, r))
    && (forall t :: Asleep(s, t) ==> Placed(s, g, t))
    && (forall t :: IsTask(s, t) && s.frame[t].In? ==> Asleep(s, t) || Waking(s, t))
  }

  /** The top sleeper of the chain under `from` wakes: what is left hangs from it. */
  function Popped(g: Chains, from: Root): Chains
    requires from in g.chain && g.chain[from] != []
  {
    var c := g.chain[from];
    var top := Woken(Last(c));
    var rest := if from.Queue? then g.chain[from := []] else g.chain - {from};
    Chains(rest[top := c[..|c| - 1]],
           t => if g.place(t).root == from then Place(top, g.place(t).i) else g.place(t))
  }

  function NextChains(g: Chains, step: Step): Chains
    requires step.DoEnter? ==> Queue(step.q) in g.chain
    requires step.DoResume? ==> Woken(step.cur) in g.chain
    requires step.DoWakeUp? ==> Queue(step.q) in g.chain
  {
    match step
    case DoEnter(cur, q) =>
      var c := g.chain[Queue(q)];
      Chains(g.chain[Queue(q) := c + [cur]], t => if t == cur then Place(Queue(q), |c|) else g.place(t))
    case DoResume(cur) =>
      if g.chain[Woken(cur)] == [] then g.(chain := g.chain - {Woken(cur)}) else Popped(g, Woken(cur))
    case DoWakeUp(q) =>
      if g.chain[Queue(q)] == [] then g else Popped(g, Queue(q))
    case DoElsewhere(_, _) => g
  }

  // ----- entering ------------------------------------------------------

  lemma EnterLink(s: Queues, g: Chains, cur: int, q: int, r: Root, i: int)
    requires Shape(s) && Enabled(s, DoEnter(cur, q)) && Queue(q) in g.chain
    requires r in g.chain && 0 <= i < |g.chain[r]| && Link(s, g, r, i)
    ensures Link(Enter(s, cur, q), NextChains(g, DoEnter(cur, q)), r, i)
  {
  }

  lemma EnterRoot(s: Queues, g: Chains, cur: int, q: int, r: Root)
    requires Shape(s) && Enabled(s, DoEnter(cur, q)) && Queue(q) in g.chain
    requires r in g.chain && Linked(s, g, r) && Linked(s, g, Queue(q))
    ensures Linked(Enter(s, cur, q), NextChains(g, DoEnter(cur, q)), r)
  {
    hide Link;
    var s', g' := Enter(s, cur, q), NextChains(g, DoEnter(cur, q));
    forall i | 0 <= i < |g'.chain[r]|
      ensures Link(s', g', r, i)
    {
      if i < |g.chain[r]| {
        EnterLink(s, g, cur, q, r, i);
      } else {
        EnterTop(s, g, cur, q);
      }
    }
  }

  lemma EnterTop(s: Queues, g: Chains, cur: int, q: int)
    requires Shape(s) && Enabled(s, DoEnter(cur, q)) && Queue(q) in g.chain && Linked(s, g, Queue(q))
    ensures Link(Enter(s, cur, q), NextChains(g, DoEnter(cur, q)), Queue(q), |g.chain[Queue(q)]|)
  {
  }

  lemma EnterKeeps(s: Queues, g: Chains, cur: int, q: int)
    requires Inv(s, g) && Enabled(s, DoEnter(cur, q))
    ensures Queue(q) in g.chain && Inv(Enter(s, cur, q), NextChains(g, DoEnter(cur, q)))
  {
    hide Linked, Link;
    assert IsRoot(s, Queue(q));
    var s', g' := Enter(s, cur, q), NextChains(g, DoEnter(cur, q));
    forall r | IsRoot(s', r) ensures r in g'.chain {
      assert IsRoot(s, r);
    }
    forall r | r in g'.chain ensures Linked(s', g', r) {
      assert Linked(s, g, r) && Linked(s, g, Queue(q));
      EnterRoot(s, g, cur, q, r);
    }
    forall t | Asleep(s', t) ensures Placed(s', g', t) {
      assert t != cur ==> Asleep(s, t);
    }
  }

  // ----- waking the top of a chain -------------------------------------

  /** s' is s with the top sleeper of the chain under `from` woken, and `from` pointing nowhere or gone. */
  ghost predicate TopWoken(s: Queues, g: Chains, from: Root, s': Queues)
    requires Shape(s) && Shape(s') && from in g.chain && g.chain[from] != []
  {
    var top := Last(g.chain[from]);
    && IsTask(s, top) && s'.state == s.state[top := RUNNING] && |s'.head| == |s.head|
    && (match from
        case Queue(q) => 0 <= q < |s.head| && s'.frame == s.frame && s'.head == s.head[q := NULL]
        case Woken(t) => 0 <= t < |s.frame| && s'.frame == s.frame[t := Out] && s'.head == s.head)
  }

  /** A sleeper other than the top keeps its tmp, and its place under the root r0 becomes one under r. */
  lemma PopLink(s: Queues, g: Chains, from: Root, s': Queues, r0: Root, i: int, r: Root)
    requires Shape(s) && Shape(s') && from in g.chain && g.chain[from] != [] && TopWoken(s, g, from, s')
    requires r0 in g.chain && 0 <= i < |g.chain[r0]| && Link(s, g, r0, i) && (r0 == from ==> i < |g.chain[from]| - 1)
    requires g.place(Last(g.chain[from])) == Place(from, |g.chain[from]| - 1)
    requires from.Woken? ==> Waking(s, from.t)
    requires r in Popped(g, from).chain && r == (if r0 == from then Woken(Last(g.chain[from])) else r0)
    requires r0 != from ==> r0 != Woken(Last(g.chain[from]))
    ensures Link(s', Popped(g, from), r, i)
  {
  }

  lemma PopRoot(s: Queues, g: Chains, from: Root, s': Queues, r: Root)
    requires Inv(s, g) && Shape(s') && from in g.chain && g.chain[from] != [] && TopWoken(s, g, from, s')
    requires r in Popped(g, from).chain
    ensures Linked(s', Popped(g, from), r)
  {
    hide Link;
    var g' := Popped(g, from);
    var c := g.chain[from];
    var top := Last(c);
    assert Linked(s, g, from);
    LinkTop(s, g, from);
    var r0 := if r == Woken(top) then from else r;
    assert r0 in g.chain && Linked(s, g, r0);
    forall i | 0 <= i < |g'.chain[r]|
      ensures Link(s', g', r, i)
    {
      assert Link(s, g, r0, i);
      PopLink(s, g, from, s', r0, i, r);
    }
    if r == Woken(top) {
      LinkTmp(s, g, from);
    }
  }

  lemma LinkTmp(s: Queues, g: Chains, r: Root)
    requires Shape(s) && r in g.chain && g.chain[r] != [] && Linked(s, g, r)
    ensures Asleep(s, Last(g.chain[r])) && s.frame[Last(g.chain[r])].tmp == Last(g.chain[r][..|g.chain[r]| - 1])
  {
    assert Link(s, g, r, |g.chain[r]| - 1);
  }

  lemma PopKeeps(s: Queues, g: Chains, from: Root, s': Queues)
    requires Inv(s, g) && Shape(s') && from in g.chain && g.chain[from] != [] && TopWoken(s, g, from, s')
    ensures Inv(s', Popped(g, from))
  {
    hide Link;
    var g' := Popped(g, from);
    var c := g.chain[from];
    var top := Last(c);
    assert Linked(s, g, from);
    LinkTop(s, g, from);
    forall r | IsRoot(s', r) ensures r in g'.chain {
      assert r == Woken(top) || (IsRoot(s, r) && r in g.chain);
    }
    forall r | r in g'.chain ensures Linked(s', g', r) {
      PopRoot(s, g, from, s', r);
    }
    forall t | Asleep(s', t) ensures Placed(s', g', t) {
      assert Asleep(s, t) && t != top;
    }
  }

  lemma LinkTop(s: Queues, g: Chains, r: Root)
    requires Shape(s) && r in g.chain && g.chain[r] != [] && Linked(s, g, r)
    ensures Asleep(s, Last(g.chain[r])) && g.place(Last(g.chain[r])) == Place(r, |g.chain[r]| - 1)
  {
    assert Link(s, g, r, |g.chain[r]| - 1);
  }

  // ----- every step ----------------------------------------------------

  lemma WakeUpKeeps(s: Queues, g: Chains, q: int)
    requires Inv(s, g) && Enabled(s, DoWakeUp(q))
    ensures Queue(q) in g.chain && Inv(WakeUp(s, q), NextChains(g, DoWakeUp(q)))
  {
    hide Link;
    assert IsRoot(s, Queue(q));
    assert Linked(s, g, Queue(q));
    if g.chain[Queue(q)] != [] {
      LinkTop(s, g, Queue(q));
      PopKeeps(s, g, Queue(q), WakeUp(s, q));
    }
  }

  lemma ResumeKeeps(s: Queues, g: Chains, cur: int)
    requires Inv(s, g) && Enabled(s, DoResume(cur))
    ensures Woken(cur) in g.chain && Inv(Resume(s, cur), NextChains(g, DoResume(cur)))
  {
    hide Link;
    assert IsRoot(s, Woken(cur));
    assert Linked(s, g, Woken(cur));
    if g.chain[Woken(cur)] != [] {
      LinkTop(s, g, Woken(cur));
      PopKeeps(s, g, Woken(cur), Resume(s, cur));
    } else {
      LastResumeKeeps(s, g, cur);
    }
  }

  lemma FrameLink(s: Queues, g: Chains, s': Queues, g': Chains, r: Root, i: int)
    requires Shape(s) && Shape(s') && r in g.chain && r in g'.chain && g'.chain[r] == g.chain[r] && g'.place == g.place
    requires 0 <= i < |g.chain[r]| && Link(s, g, r, i) && |s'.state| == |s.state|
    requires forall t :: 0 <= t < |s.state| && Asleep(s, t) ==> s'.state[t] == s.state[t] && s'.frame[t] == s.frame[t]
    ensures Link(s', g', r, i)
  {
  }

  /** A task that leaves sleep_on() with nothing under it takes its root away and changes nothing else. */
  lemma LastResumeKeeps(s: Queues, g: Chains, cur: int)
    requires Inv(s, g) && Enabled(s, DoResume(cur)) && Woken(cur) in g.chain && g.chain[Woken(cur)] == [] && s.frame[cur].tmp == NULL
    ensures Inv(Resume(s, cur), NextChains(g, DoResume(cur)))
  {
    hide Link;
    var s', g' := Resume(s, cur), NextChains(g, DoResume(cur));
    forall r | r in g'.chain ensures Linked(s', g', r) {
      assert Linked(s, g, r);
      forall i | 0 <= i < |g'.chain[r]| ensures Link(s', g', r, i) {
        assert Link(s, g, r, i);
        FrameLink(s, g, s', g', r, i);
      }
    }
    forall t | Asleep(s', t) ensures Placed(s', g', t) {
      assert Asleep(s, t) && Placed(s, g, t);
    }
    forall r | IsRoot(s', r) ensures r in g'.chain {
      assert IsRoot(s, r);
    }
  }

  lemma ElsewhereKeeps(s: Queues, g: Chains, t: int, state: int)
    requires Inv(s, g) && Enabled(s, DoElsewhere(t, state))
    ensures Inv(Elsewhere(s, t, state), g)
  {
    hide Link;
    var s' := Elsewhere(s, t, state);
    forall r | r in g.chain ensures Linked(s', g, r) {
      assert Linked(s, g, r);
      forall i | 0 <= i < |g.chain[r]| ensures Link(s', g, r, i) {
        assert Link(s, g, r, i);
        FrameLink(s, g, s', g, r, i);
      }
    }
    forall x | Asleep(s', x) ensures Placed(s', g, x) {
      assert Asleep(s, x) && Placed(s, g, x);
    }
    forall r | IsRoot(s', r) ensures r in g.chain {
      assert IsRoot(s, r);
    }
  }

  /** Every step keeps every sleeper in its place in one chain. */
  lemma StepKeeps(s: Queues, g: Chains, step: Step)
    requires Inv(s, g) && Enabled(s, step)
    ensures step.DoEnter? ==> Queue(step.q) in g.chain
    ensures step.DoResume? ==> Woken(step.cur) in g.chain
    ensures step.DoWakeUp? ==> Queue(step.q) in g.chain
    ensures Inv(Next(s, step), NextChains(g, step))
  {
    hide Linked, Placed, IsRoot;
    match step
    case DoEnter(cur, q) => EnterKeeps(s, g, cur, q);
    case DoResume(cur) => ResumeKeeps(s, g, cur);
    case DoWakeUp(q) => WakeUpKeeps(s, g, q);
    case DoElsewhere(t, state) => ElsewhereKeeps(s, g, t, state);
  }

  // ----- no waiter is lost ---------------------------------------------

  /** n tmp pointers on from t. */
  ghost function Follow(s: Queues, t: int, n: nat): int
    requires |s.state| == |s.frame|
  {
    if n == 0 then t
    else
      var u := Follow(s, t, n - 1);
      if IsTask(s, u) && s.frame[u].In? then s.frame[u].tmp else NULL
  }

  /** From a sleeper of a chain to the one below it. */
  lemma LinkDown(s: Queues, g: Chains, r: Root, i: nat)
    requires Shape(s) && r in g.chain && Linked(s, g, r) && i < |g.chain[r]|
    ensures var c := g.chain[r];
            && IsTask(s, c[i]) && s.frame[c[i]].In? && (i > 0 ==> c[i - 1] == s.frame[c[i]].tmp)
            && Target(s, r) == c[|c| - 1]
  {
    assert Link(s, g, r, i);
  }

  lemma {:induction false} FollowChain(s: Queues, g: Chains, r: Root, n: nat)
    requires Shape(s) && r in g.chain && Linked(s, g, r) && n < |g.chain[r]|
    ensures Follow(s, Target(s, r), n) == g.chain[r][|g.chain[r]| - 1 - n]
  {
    hide Link;
    var c := g.chain[r];
    if n == 0 {
      LinkDown(s, g, r, |c| - 1);
    } else {
      FollowChain(s, g, r, n - 1);
      LinkDown(s, g, r, |c| - n);
    }
  }

  /** A sleeper can be reached by saved tmp pointers from a queue head or from a woken task that has not resumed. */
  ghost predicate Reachable(s: Queues, t: int)
    requires Shape(s)
  {
    exists r, n: nat :: IsRoot(s, r) && Follow(s, Target(s, r), n) == t
  }

  lemma InvReaches(s: Queues, g: Chains, t: int)
    requires Inv(s, g) && Asleep(s, t)
    ensures Reachable(s, t)
  {
    hide Link;
    assert Placed(s, g, t);
    var p := g.place(t);
    assert Linked(s, g, p.root);
    FollowChain(s, g, p.root, |g.chain[p.root]| - 1 - p.i);
  }

  ghost predicate CanRun(s: Queues, steps: seq<Step>)
    decreases |steps|
  {
    Shape(s) && (steps != [] ==> Enabled(s, steps[0]) && CanRun(Next(s, steps[0]), steps[1..]))
  }

  ghost function After(s: Queues, steps: seq<Step>): Queues
    requires CanRun(s, steps)
    decreases |steps|
  {
    if steps == [] then s else After(Next(s, steps[0]), steps[1..])
  }

  /** Nobody inside sleep_on(). */
  ghost predicate Fresh(s: Queues) {
    && |s.state| == |s.frame|
    && (forall q :: 0 <= q < |s.head| ==> s.head[q] == NULL)
    && (forall t :: 0 <= t < |s.frame| ==> s.frame[t].Out?)
  }

  lemma FreshInv(s: Queues) returns (g: Chains)
    requires Fresh(s)
    ensures Inv(s, g)
  {
    g := Chains(map q | 0 <= q < |s.head| :: Queue(q) := [], _ => Place(Queue(0), 0));
  }

  lemma {:induction false} RunKeeps(s: Queues, g: Chains, steps: seq<Step>) returns (g': Chains)
    requires Inv(s, g) && CanRun(s, steps)
    ensures Inv(After(s, steps), g')
    decreases |steps|
  {
    hide Inv;
    g' := g;
    if steps != [] {
      StepKeeps(s, g, steps[0]);
      g' := RunKeeps(Next(s, steps[0]), NextChains(g, steps[0]), steps[1..]);
    }
  }

  /** In every reachable state every sleeper is reachable. */
  lemma NoWaiterIsLost(s: Queues, steps: seq<Step>, t: int)
    requires Fresh(s) && CanRun(s, steps)
    ensures var s' := After(s, steps); Shape(s') && (Asleep(s', t) ==> Reachable(s', t))
  {
    var g := FreshInv(s);
    var g' := RunKeeps(s, g, steps);
    if Asleep(After(s, steps), t) {
      InvReaches(After(s, steps), g', t);
    }
  }

  // ----- one wake_up wakes the whole chain -----------------------------

  /** How many sleepers must wake before t. */
  ghost function Ahead(g: Chains, t: int): int
    requires g.place(t).root in g.chain
  {
    |g.chain[g.place(t).root]| - 1 - g.place(t).i
  }

  /** The step that wakes the top of t's chain. */
  ghost predicate Pops(g: Chains, step: Step, t: int) {
    (step.DoResume? && g.place(t).root == Woken(step.cur)) || (step.DoWakeUp? && g.place(t).root == Queue(step.q))
  }

  lemma PlaceOf(s: Queues, g: Chains, t: int)
    requires Inv(s, g) && Asleep(s, t)
    ensures Shape(s) && Placed(s, g, t) && IsRoot(s, g.place(t).root)
    ensures Link(s, g, g.place(t).root, g.place(t).i)
  {
    assert Placed(s, g, t);
    assert Linked(s, g, g.place(t).root);
    assert Link(s, g, g.place(t).root, g.place(t).i);
  }

  lemma TopOf(s: Queues, g: Chains, r: Root)
    requires Inv(s, g) && r in g.chain
    ensures Shape(s) && IsRoot(s, r) && Target(s, r) == Last(g.chain[r])
    ensures g.chain[r] != [] ==> Asleep(s, Target(s, r)) && g.place(Target(s, r)) == Place(r, |g.chain[r]| - 1)
  {
    assert Linked(s, g, r);
    if g.chain[r] != [] {
      LinkTop(s, g, r);
    }
  }

  /**
   * Each wake-up of the top of t's chain brings t one nearer and, with none ahead, wakes it; nothing
   * else touches a sleeper that hangs from a woken task.
   */
  lemma StepProgress(s: Queues, g: Chains, step: Step, t: int)
    requires Inv(s, g) && Enabled(s, step) && Asleep(s, t)
    ensures Placed(s, g, t) && Ahead(g, t) >= 0
    ensures step.DoEnter? ==> Queue(step.q) in g.chain
    ensures step.DoResume? ==> Woken(step.cur) in g.chain
    ensures step.DoWakeUp? ==> Queue(step.q) in g.chain
    ensures Inv(Next(s, step), NextChains(g, step))
    ensures Pops(g, step, t) && Ahead(g, t) == 0 ==> Waking(Next(s, step), t)
    ensures Pops(g, step, t) && Ahead(g, t) > 0 ==>
              var g' := NextChains(g, step);
              Asleep(Next(s, step), t) && g'.place(t).root.Woken? && g'.place(t).root in g'.chain && Ahead(g', t) == Ahead(g, t) - 1
    ensures !Pops(g, step, t) && g.place(t).root.Woken? ==>
              var g' := NextChains(g, step);
              Asleep(Next(s, step), t) && g'.place(t) == g.place(t) && g'.place(t).root in g'.chain && Ahead(g', t) == Ahead(g, t)
  {
    hide Inv, Linked;
    StepKeeps(s, g, step);
    PlaceOf(s, g, t);
    if step.DoResume? || step.DoWakeUp? {
      TopOf(s, g, if step.DoResume? then Woken(step.cur) else Queue(step.q));
    }
  }

  /** How often the top of t's chain is woken while t is still asleep. */
  ghost function PopCount(s: Queues, g: Chains, steps: seq<Step>, t: int): nat
    requires Inv(s, g) && CanRun(s, steps)
    decreases |steps|
  {
    if steps == [] || !Asleep(s, t) then 0
    else
      StepKeeps(s, g, steps[0]);
      (if Pops(g, steps[0], t) then 1 else 0) + PopCount(Next(s, steps[0]), NextChains(g, steps[0]), steps[1..], t)
  }

  /**
   * Whatever else runs in between, a sleeper that hangs from a woken task, with k others ahead of it,
   * is awake as soon as the top of its chain has been woken k + 1 times, and not before.
   */
  lemma {:induction false} ChainDrains(s: Queues, g: Chains, steps: seq<Step>, t: int)
    requires Inv(s, g) && CanRun(s, steps) && Asleep(s, t) && g.place(t).root.Woken? && g.place(t).root in g.chain
    ensures PopCount(s, g, steps, t) > Ahead(g, t) <==> exists j :: 0 <= j <= |steps| && WakingAt(s, steps, j, t)
    decreases |steps|
  {
    hide Inv, Link, Linked, Placed, IsRoot;
    PlaceOf(s, g, t);
    WakingAtStart(s, steps, t);
    if steps != [] {
      StepProgress(s, g, steps[0], t);
      var s', g' := Next(s, steps[0]), NextChains(g, steps[0]);
      if Asleep(s', t) {
        ChainDrains(s', g', steps[1..], t);
        if j :| 0 <= j <= |steps[1..]| && WakingAt(s', steps[1..], j, t) {
          WakingLater(s, steps, j, t);
        }
        if j :| 0 <= j <= |steps| && WakingAt(s, steps, j, t) {
          assert j > 0;
          WakingLater(s, steps, j - 1, t);
        }
      } else {
        WakingAtStart(s', steps[1..], t);
        WakingLater(s, steps, 0, t);
      }
    }
  }

  lemma {:induction false} CanRunPrefix(s: Queues, steps: seq<Step>, j: nat)
    requires CanRun(s, steps) && j <= |steps|
    ensures CanRun(s, steps[..j])
    decreases j
  {
    if j > 0 {
      CanRunPrefix(Next(s, steps[0]), steps[1..], j - 1);
      assert steps[..j][1..] == steps[1..][..j - 1];
    }
  }

  /** After j steps t is awake inside sleep_on(). */
  ghost predicate WakingAt(s: Queues, steps: seq<Step>, j: nat, t: int)
    requires CanRun(s, steps) && j <= |steps|
  {
    CanRunPrefix(s, steps, j);
    var s' := After(s, steps[..j]);
    |s'.state| == |s'.frame| && Waking(s', t)
  }

  lemma WakingAtStart(s: Queues, steps: seq<Step>, t: int)
    requires CanRun(s, steps)
    ensures WakingAt(s, steps, 0, t) <==> Waking(s, t)
  {
    assert steps[..0] == [];
  }

  lemma WakingLater(s: Queues, steps: seq<Step>, j: nat, t: int)
    requires CanRun(s, steps) && j < |steps|
    ensures WakingAt(s, steps, j + 1, t) == WakingAt(Next(s, steps[0]), steps[1..], j, t)
  {
    assert steps[..j + 1][1..] == steps[1..][..j];
    CanRunPrefix(s, steps, j + 1);
  }

  /** wake_up() on a sleeper's queue wakes it if it slept last, and otherwise hangs it from the one that did. */
  lemma WakeUpStarts(s: Queues, g: Chains, q: int, t: int)
    requires Inv(s, g) && Enabled(s, DoWakeUp(q)) && Asleep(s, t) && g.place(t).root == Queue(q)
    ensures Queue(q) in g.chain && s.head[q] != NULL
    ensures var s', g' := WakeUp(s, q), NextChains(g, DoWakeUp(q));
            && Inv(s', g') && s'.head[q] == NULL && Waking(s', s.head[q])
            && (t != s.head[q] ==> Asleep(s', t) && g'.place(t).root == Woken(s.head[q]) && g'.place(t).root in g'.chain && Ahead(g', t) == Ahead(g, t) - 1)
  {
    hide Inv, Linked;
    StepProgress(s, g, DoWakeUp(q), t);
    PlaceOf(s, g, t);
    TopOf(s, g, Queue(q));
  }

  /** A woken task can always take its next step. */
  lemma WakingCanResume(s: Queues, g: Chains, t: int)
    requires Inv(s, g) && Waking(s, t)
    ensures Enabled(s, DoResume(t)) && 0 <= t < |s.frame| && s.frame[t].In?
  {
    hide Linked;
    assert IsRoot(s, Woken(t));
    TopOf(s, g, Woken(t));
  }

  /** t and the sleepers under it resume one after the other. */
  function Resumes(t: int, c: seq<int>): seq<Step>
    decreases |c|
  {
    [DoResume(t)] + if c == [] then [] else Resumes(Last(c), c[..|c| - 1])
  }

  /** Those and only those have left sleep_on(). */
  ghost predicate Drained(s: Queues, s': Queues, gone: seq<int>)
    requires |s.state| == |s.frame|
  {
    && |s'.state| == |s.state| && |s'.frame| == |s.frame|
    && forall x :: IsTask(s, x) ==>
                     if x in gone then s'.frame[x] == Out && s'.state[x] == RUNNING
                     else s'.frame[x] == s.frame[x] && s'.state[x] == s.state[x]
  }

  lemma {:induction false} ChainResumes(s: Queues, g: Chains, t: int)
    requires Inv(s, g) && Waking(s, t) && Woken(t) in g.chain
    ensures CanRun(s, Resumes(t, g.chain[Woken(t)]))
    ensures After(s, Resumes(t, g.chain[Woken(t)])).head == s.head
    ensures Drained(s, After(s, Resumes(t, g.chain[Woken(t)])), g.chain[Woken(t)] + [t])
    decreases |g.chain[Woken(t)]|
  {
    hide Inv, Linked, IsRoot, Asleep, Waking, Drained, CanRun, After, Shape;
    var c := g.chain[Woken(t)];
    InvShape(s, g);
    WakingCanResume(s, g, t);
    ResumeKeeps(s, g, t);
    TopOf(s, g, Woken(t));
    var s', g' := Resume(s, t), NextChains(g, DoResume(t));
    InvShape(s', g');
    if c == [] {
      RunStep(s, DoResume(t), []);
      RunNothing(s');
      DrainedOne(s, t);
    } else {
      var top, under := Last(c), c[..|c| - 1];
      ChainAsleep(s, g, Woken(t));
      ResumeWakes(s, g, t);
      ChainResumes(s', g', top);
      RunStep(s, DoResume(t), Resumes(top, under));
      assert under + [top] == c;
      DrainedMore(s, t, top, s', After(s', Resumes(top, under)), c);
    }
  }

  /** When t resumes, the task its tmp points to is woken and takes over what hung from t. */
  lemma ResumeWakes(s: Queues, g: Chains, t: int)
    requires Inv(s, g) && Enabled(s, DoResume(t)) && Woken(t) in g.chain && g.chain[Woken(t)] != []
    ensures var top, g' := Last(g.chain[Woken(t)]), NextChains(g, DoResume(t));
            && Waking(Resume(s, t), top) && Woken(top) in g'.chain && g'.chain[Woken(top)] == g.chain[Woken(t)][..|g.chain[Woken(t)]| - 1]
            && top != t && s.frame[t].tmp == top && Waking(s, t) && IsTask(s, top)
  {
    hide Inv, Linked, IsRoot;
    TopOf(s, g, Woken(t));
  }

  lemma RunNothing(s: Queues)
    requires Shape(s)
    ensures CanRun(s, []) && After(s, []) == s
  {
  }

  lemma RunStep(s: Queues, step: Step, rest: seq<Step>)
    requires Shape(s) && Enabled(s, step)
    ensures CanRun(Next(s, step), rest) ==> CanRun(s, [step] + rest) && After(s, [step] + rest) == After(Next(s, step), rest)
    ensures rest == [] && Shape(Next(s, step)) ==> CanRun(s, [step]) && After(s, [step]) == Next(s, step)
  {
    assert ([step] + rest)[1..] == rest;
  }

  lemma DrainedOne(s: Queues, t: int)
    requires Shape(s) && Waking(s, t) && s.frame[t].tmp == NULL
    ensures Drained(s, Resume(s, t), [] + [t])
  {
  }

  lemma DrainedMore(s: Queues, t: int, top: int, s': Queues, s'': Queues, c: seq<int>)
    requires |s.state| == |s.frame| && Waking(s, t) && IsTask(s, top) && top != t && top in c && s.frame[t].tmp == top && s' == Resume(s, t)
    requires forall x :: x in c ==> Asleep(s, x)
    requires Drained(s', s'', c)
    ensures Drained(s, s'', c + [t])
  {
  }

  lemma InvShape(s: Queues, g: Chains)
    requires Inv(s, g)
    ensures Shape(s)
  {
  }

  lemma ChainAsleep(s: Queues, g: Chains, r: Root)
    requires Inv(s, g) && r in g.chain
    ensures Shape(s) && forall x :: x in g.chain[r] ==> Asleep(s, x)
    ensures forall i, j :: 0 <= i < j < |g.chain[r]| ==> g.chain[r][i] != g.chain[r][j]
  {
    assert Linked(s, g, r);
    assert forall i :: 0 <= i < |g.chain[r]| ==> Link(s, g, r, i);
  }

  /** One wake_up() followed by the resumptions empties the queue and wakes its whole chain. */
  lemma OneWakeUpWakesAll(s: Queues, g: Chains, q: int)
    requires Inv(s, g) && Enabled(s, DoWakeUp(q))
    ensures Queue(q) in g.chain
    ensures var c := g.chain[Queue(q)];
            var steps := [DoWakeUp(q)] + if c == [] then [] else Resumes(Last(c), c[..|c| - 1]);
            CanRun(s, steps) && After(s, steps).head == s.head[q := NULL] && Drained(s, After(s, steps), c)
  {
    hide Inv, Linked, IsRoot, Asleep, Drained, CanRun, After, Shape;
    InvShape(s, g);
    WakeUpKeeps(s, g, q);
    TopOf(s, g, Queue(q));
    var c := g.chain[Queue(q)];
    var s', g' := WakeUp(s, q), NextChains(g, DoWakeUp(q));
    InvShape(s', g');
    if c == [] {
      RunStep(s, DoWakeUp(q), []);
      assert s.head[q := NULL] == s.head && [DoWakeUp(q)] + [] == [DoWakeUp(q)];
      DrainedNone(s);
    } else {
      var top, under := Last(c), c[..|c| - 1];
      ChainAsleep(s, g, Queue(q));
      AsleepFacts(s, top);
      ChainResumes(s', g', top);
      RunStep(s, DoWakeUp(q), Resumes(top, under));
      assert under + [top] == c;
      DrainedFrom(s, q, top, After(s', Resumes(top, under)), c);
    }
  }

  lemma AsleepFacts(s: Queues, t: int)
    requires |s.state| == |s.frame| && Asleep(s, t)
    ensures IsTask(s, t) && s.frame[t].In? && s.state[t] == UNINTERRUPTIBLE
  {
  }

  lemma DrainedNone(s: Queues)
    requires Shape(s)
    ensures Drained(s, s, [])
  {
  }

  lemma DrainedFrom(s: Queues, q: int, top: int, s': Queues, c: seq<int>)
    requires |s.state| == |s.frame| && 0 <= q < |s.head| && s.head[q] == top && IsTask(s, top) && top in c
    requires Drained(WakeUp(s, q), s', c)
    ensures Drained(s, s', c)
  {
  }

  // ----- the code ------------------------------------------------------

  class WaitQueues {
    var head: seq<int>
    var state: seq<int>
    var frame: seq<Frame>
    ghost var chains: Chains

    ghost function View(): Queues
      reads this
    {
      Queues(head, state, frame)
    }

    ghost predicate Valid()
      reads this
    {
      Inv(View(), chains)
    }

    constructor (queues: nat, tasks: nat)
      ensures Valid() && Fresh(View()) && |head| == queues && |state| == tasks
    {
      head := seq(queues, _ => NULL);
      state := seq(tasks, _ => RUNNING);
      frame := seq(tasks, _ => Out);
      new;
      chains := FreshInv(View());
    }

    /** sleep_on() until it gives the processor away; q == NULL is the null queue pointer. */
    method SleepOn(cur: int, q: int)
      requires Valid() && cur != 0 && (q == NULL || Enabled(View(), DoEnter(cur, q)))
      modifies this
      ensures Valid()
      ensures View() == if q == NULL then old(View()) else Next(old(View()), DoEnter(cur, q))
      ensures q == NULL ==> head == old(head) && state == old(state) && frame == old(frame)
      ensures q != NULL ==> head == old(head)[q := cur] && state == old(state)[cur := 2] && frame == old(frame)[cur := In(old(head[q]))]
      ensures q != NULL ==> Asleep(View(), cur) && chains.place(cur).root == Queue(q) && Ahead(chains, cur) == 0
    {
      if q == NULL {
        return;
      }
      ghost var s, g := View(), chains;
      EnterKeeps(s, g, cur, q);
      var tmp := head[q];
      head := head[q := cur];
      frame := frame[cur := In(tmp)];
      state := state[cur := UNINTERRUPTIBLE];
      chains := NextChains(g, DoEnter(cur, q));
    }

    /** The rest of sleep_on(), once schedule() comes back. */
    method SleepOnReturns(cur: int)
      requires Valid() && Waking(View(), cur)
      modifies this
      ensures Valid() && Enabled(old(View()), DoResume(cur)) && View() == Next(old(View()), DoResume(cur))
      ensures old(frame[cur]).In? && head == old(head) && frame == old(frame)[cur := Out]
      ensures state == var tmp := old(frame[cur]).tmp; if 0 <= tmp < |old(state)| then old(state)[tmp := 0] else old(state)
    {
      ghost var s, g := View(), chains;
      WakingCanResume(s, g, cur);
      ResumeKeeps(s, g, cur);
      var tmp := frame[cur].tmp;
      frame := frame[cur := Out];
      if tmp != NULL {
        state := state[tmp := RUNNING];
      }
      chains := NextChains(g, DoResume(cur));
    }

    method WakeUp(q: int)
      requires Valid() && (q == NULL || Enabled(View(), DoWakeUp(q)))
      modifies this
      ensures Valid() && View() == if q == NULL then old(View()) else Next(old(View()), DoWakeUp(q))
      ensures frame == old(frame)
      ensures q == NULL || old(head[q]) == NULL ==> head == old(head) && state == old(state)
      ensures q != NULL && old(head[q]) != NULL ==> head == old(head)[q := NULL] && state == old(state)[old(head[q]) := 0]
    {
      if q != NULL && head[q] != NULL {
        ghost var s, g := View(), chains;
        WakeUpKeeps(s, g, q);
        state := state[head[q] := RUNNING];
        head := head[q := NULL];
        chains := NextChains(g, DoWakeUp(q));
      }
    }
  }
}
