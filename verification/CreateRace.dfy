// Tasks that create blocks of one file at the same time (fs/inode.c). Between the test for a hole and
// the store of the new zone, new_block may sleep, and nothing locks the inode meanwhile.

module CreateRace {
  /** slots: where zones are linked, 0 for a hole; pending: for each call inside new_block, its place
      and the zone it has marked as used; lost: zones that were overwritten. */
  datatype State<!Slot> = State(slots: map<Slot, nat>, used: set<nat>, pending: map<nat, (Slot, nat)>, lost: set<nat>)

  /** Begin: the test and, when there is a hole, the marking of zone z, which do not sleep in between.
      Finish: back from new_block, the store. Refused: the test and a new_block that finds no zone. */
  datatype Event<Slot> = Begin(task: nat, slot: Slot, z: nat) | Finish(task: nat) | Refused(task: nat, slot: Slot)

  ghost predicate Enabled<Slot>(s: State<Slot>, e: Event<Slot>) {
    match e
    case Begin(task, slot, z) => task !in s.pending && slot in s.slots && z > 0 && z !in s.used
    case Finish(task) => task in s.pending && s.pending[task].0 in s.slots
    case Refused(task, slot) => task !in s.pending && slot in s.slots
  }

  ghost function Next<Slot>(s: State<Slot>, e: Event<Slot>): State<Slot>
    requires Enabled(s, e)
  {
    match e
    case Begin(task, slot, z) =>
      if s.slots[slot] != 0 then s
      else s.(used := s.used + {z}, pending := s.pending[task := (slot, z)])
    case Finish(task) =>
      var (slot, z) := s.pending[task];
      s.(slots := s.slots[slot := z], pending := s.pending - {task},
         lost := if s.slots[slot] != 0 then s.lost + {s.slots[slot]} else s.lost)
    case Refused(_, _) => s
  }

  /** Every zone in use is linked at one place, in the hands of one call, or lost. */
  ghost predicate Inv<Slot>(s: State<Slot>) { Apart(s) && Accounted(s) }

  ghost predicate Apart<Slot>(s: State<Slot>) {
    && (forall a :: a in s.slots && s.slots[a] != 0 ==> s.slots[a] in s.used && s.slots[a] !in s.lost)
    && (forall a, b :: a in s.slots && b in s.slots && s.slots[a] == s.slots[b] != 0 ==> a == b)
    && (forall t :: t in s.pending ==> s.pending[t].0 in s.slots && s.pending[t].1 != 0 && s.pending[t].1 in s.used - s.lost)
    && (forall t, u :: t in s.pending && u in s.pending && s.pending[t].1 == s.pending[u].1 ==> t == u)
    && (forall t, a :: t in s.pending && a in s.slots ==> s.slots[a] != s.pending[t].1)
    && s.lost <= s.used && 0 !in s.used
  }

  ghost predicate Accounted<Slot>(s: State<Slot>) {
    forall z :: z in s.used ==> z in s.lost || (exists a :: a in s.slots && s.slots[a] == z) || Carried(s, z)
  }

  ghost predicate Carried<Slot>(s: State<Slot>, z: nat) {
    exists t :: t in s.pending && s.pending[t].1 == z
  }

  lemma StepKeepsInv<Slot>(s: State<Slot>, e: Event<Slot>)
    requires Inv(s) && Enabled(s, e)
    ensures Inv(Next(s, e))
  {
    match e
    case Begin(task, slot, z) => BeginKeepsInv(s, task, slot, z);
    case Finish(task) => FinishKeepsInv(s, task);
    case Refused(_, _) =>
  }

  lemma {:induction false} BeginKeepsInv<Slot>(s: State<Slot>, task: nat, slot: Slot, z: nat)
    requires Inv(s) && Enabled(s, Begin(task, slot, z))
    ensures Inv(Next(s, Begin(task, slot, z)))
  {
    var s' := Next(s, Begin(task, slot, z));
    assert forall t :: t in s.pending ==> t in s'.pending && s'.pending[t] == s.pending[t];
    if s' != s {
      assert s'.pending[task].1 == z;
    }
  }

  lemma {:induction false} FinishKeepsInv<Slot>(s: State<Slot>, task: nat)
    requires Inv(s) && Enabled(s, Finish(task))
    ensures Inv(Next(s, Finish(task)))
  {
    FinishKeepsApart(s, task);
    FinishAccounts(s, task);
  }

  lemma {:induction false} FinishKeepsApart<Slot>(s: State<Slot>, task: nat)
    requires Apart(s) && Enabled(s, Finish(task))
    ensures Apart(Next(s, Finish(task)))
  {
  }

  lemma {:induction false} FinishAccounts<Slot>(s: State<Slot>, task: nat)
    requires Inv(s) && Enabled(s, Finish(task))
    ensures Accounted(Next(s, Finish(task)))
  {
    var s', slot := Next(s, Finish(task)), s.pending[task].0;
    forall y | y in s'.used
      ensures y in s'.lost || (exists a :: a in s'.slots && s'.slots[a] == y) || Carried(s', y)
    {
      if y == s.pending[task].1 {
        assert s'.slots[slot] == y;
      } else if a :| a in s.slots && s.slots[a] == y && a != slot {
        assert s'.slots[a] == y;
      } else if t :| t in s.pending && s.pending[t].1 == y {
        assert t in s'.pending && s'.pending[t].1 == y;
      }
    }
  }

  /** A call that begins on a hole for which another call is already fetching a zone. */
  ghost predicate Second<Slot>(s: State<Slot>, e: Event<Slot>) {
    e.Begin? && e.slot in s.slots && s.slots[e.slot] == 0 && exists t :: t in s.pending && s.pending[t].0 == e.slot
  }

  ghost predicate Runs<Slot>(s: State<Slot>, events: seq<Event<Slot>>)
    decreases events
  {
    events == [] || (Enabled(s, events[0]) && Runs(Next(s, events[0]), events[1..]))
  }

  ghost function After<Slot>(s: State<Slot>, events: seq<Event<Slot>>): State<Slot>
    requires Runs(s, events)
    decreases events
  {
    if events == [] then s else After(Next(s, events[0]), events[1..])
  }

  ghost predicate NoSecond<Slot>(s: State<Slot>, events: seq<Event<Slot>>)
    requires Runs(s, events)
    decreases events
  {
    events == [] || (!Second(s, events[0]) && NoSecond(Next(s, events[0]), events[1..]))
  }

  /** Nothing is lost, and every zone in hand will go into a hole of its own. */
  ghost predicate Orderly<Slot>(s: State<Slot>) {
    && s.lost == {}
    && (forall t :: t in s.pending ==> s.pending[t].0 in s.slots && s.slots[s.pending[t].0] == 0)
    && (forall t, u :: t in s.pending && u in s.pending && s.pending[t].0 == s.pending[u].0 ==> t == u)
  }

  /** A loss has happened or is certain to. */
  ghost predicate Doomed<Slot>(s: State<Slot>) {
    || s.lost != {}
    || (exists t :: t in s.pending && s.pending[t].0 in s.slots && s.slots[s.pending[t].0] != 0)
    || (exists t, u :: t in s.pending && u in s.pending && t != u && s.pending[t].0 == s.pending[u].0)
  }

  lemma FilledStays<Slot>(s: State<Slot>, e: Event<Slot>, t: nat)
    requires Enabled(s, e) && t in s.pending && s.pending[t].0 in s.slots && s.slots[s.pending[t].0] != 0
    requires forall u :: u in s.pending ==> s.pending[u].1 != 0
    ensures Doomed(Next(s, e))
  {
    var s' := Next(s, e);
    assert if t in s'.pending then s'.pending[t] == s.pending[t] else s.slots[s.pending[t].0] in s'.lost;
  }

  lemma PairStays<Slot>(s: State<Slot>, e: Event<Slot>, t: nat, u: nat)
    requires Enabled(s, e) && t in s.pending && u in s.pending && t != u && s.pending[t].0 == s.pending[u].0
    requires s.pending[t].1 != 0 && s.pending[u].1 != 0
    ensures Doomed(Next(s, e))
  {
    var s' := Next(s, e);
    assert t in s'.pending || u in s'.pending;
    assert t in s'.pending ==> s'.pending[t] == s.pending[t];
    assert u in s'.pending ==> s'.pending[u] == s.pending[u];
  }

  lemma DoomedStays<Slot>(s: State<Slot>, e: Event<Slot>)
    requires Inv(s) && Doomed(s) && Enabled(s, e)
    ensures Doomed(Next(s, e))
  {
    if t :| t in s.pending && s.slots[s.pending[t].0] != 0 {
      FilledStays(s, e, t);
    } else if t, u :| t in s.pending && u in s.pending && t != u && s.pending[t].0 == s.pending[u].0 {
      PairStays(s, e, t, u);
    }
  }

  lemma {:induction false} Fate<Slot>(s: State<Slot>, events: seq<Event<Slot>>)
    requires Inv(s) && Runs(s, events)
    ensures Inv(After(s, events))
    ensures Orderly(s) && NoSecond(s, events) ==> Orderly(After(s, events))
    ensures Doomed(s) || (Orderly(s) && !NoSecond(s, events)) ==> Doomed(After(s, events))
    decreases events
  {
    hide Inv, Orderly, Doomed;
    if events != [] {
      var e := events[0];
      StepKeepsInv(s, e);
      if Doomed(s) {
        DoomedStays(s, e);
      }
      if Orderly(s) {
        OrderlyStep(s, e);
      }
      Fate(Next(s, e), events[1..]);
    }
  }

  lemma OrderlyStep<Slot>(s: State<Slot>, e: Event<Slot>)
    requires Inv(s) && Orderly(s) && Enabled(s, e)
    ensures if Second(s, e) then Doomed(Next(s, e)) else Orderly(Next(s, e))
  {
    if Second(s, e) {
      var t :| t in s.pending && s.pending[t].0 == e.slot;
      assert Next(s, e).pending[t].0 == Next(s, e).pending[e.task].0;
    }
  }

  /** Whatever the interleaving, no zone is in two places; and when all calls are through, none has been
      lost if and only if no call began on a hole that another call was already filling. */
  lemma CreatesLoseNothingIff<Slot>(s: State<Slot>, events: seq<Event<Slot>>)
    requires Inv(s) && s.lost == {} && s.pending == map[] && Runs(s, events) && After(s, events).pending == map[]
    ensures Inv(After(s, events))
    ensures After(s, events).lost == {} <==> NoSecond(s, events)
  {
    Fate(s, events);
  }

  /** Two writers of one hole: both fetch a zone, the second store loses the first zone. */
  lemma RaceLoses()
    ensures var s := State(map[0 := 0], {}, map[], {});
            var events := [Begin(1, 0, 5), Begin(2, 0, 6), Finish(1), Finish(2)];
            Inv(s) && Runs(s, events) && After(s, events) == State(map[0 := 6], {5, 6}, map[], {5})
  {
    var s0: State<int> := State(map[0 := 0], {}, map[], {});
    var s1 := Next(s0, Begin(1, 0, 5));
    var s2 := Next(s1, Begin(2, 0, 6));
    var s3 := Next(s2, Finish(1));
    var s4 := Next(s3, Finish(2));
    assert s4 == State(map[0 := 6], {5, 6}, map[], {5});
    assert Runs(s4, []) && Runs(s3, [Finish(2)]) && Runs(s2, [Finish(1), Finish(2)]);
    assert [Begin(2, 0, 6), Finish(1), Finish(2)][1..] == [Finish(1), Finish(2)];
    assert Runs(s1, [Begin(2, 0, 6), Finish(1), Finish(2)]);
    assert [Begin(1, 0, 5), Begin(2, 0, 6), Finish(1), Finish(2)][1..] == [Begin(2, 0, 6), Finish(1), Finish(2)];
  }
}
