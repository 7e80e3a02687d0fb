// The reader and the writer of one pipe and the queue they both sleep on
// (linux-0.11/fs/pipe.c, iput in linux-0.11/fs/inode.c): nobody sleeps in vain.

module PipeSleep {
  import opened Blocks

  const CAPACITY := 4095

  datatype Who = Reader | Writer

  /** Outside read_pipe() or write_pipe(), inside with some bytes to go, or inside sleep_on(). */
  datatype Phase = Out | Going(left: nat) | Sleeping(left: nat)

  /**
   * data: the bytes in the pipe. wait: who sleeps on i_wait, last sleeper at the end. under: sleepers
   * that only wake when a woken one resumes. readers, writers: whether that end is still open.
   */
  datatype State = State(data: seq<byte>, reader: Phase, writer: Phase, wait: seq<Who>, under: seq<Who>,
                         readers: bool, writers: bool, written: seq<byte>, taken: seq<byte>)

  function PhaseOf(s: State, w: Who): Phase { if w == Reader then s.reader else s.writer }

  function WithPhase(s: State, w: Who, p: Phase): State { if w == Reader then s.(reader := p) else s.(writer := p) }

  /** wake_up(&inode->i_wait): the last sleeper runs again; those before it hang from it. */
  function WakeUp(s: State): State {
    if s.wait == [] then s
    else
      var top := s.wait[|s.wait| - 1];
      var t := WithPhase(s, top, match PhaseOf(s, top) case Sleeping(left) => Going(left) case p => p);
      t.(wait := [], under := s.under + s.wait[..|s.wait| - 1])
  }

  function SleepOn(s: State, w: Who, left: nat): State {
    WithPhase(s, w, Sleeping(left)).(wait := s.wait + [w])
  }

  /** One pass of the loop in read_pipe(), taking k bytes when there are any. */
  function ReadPass(s: State, k: nat): State
    requires s.reader.Going? && (s.reader.left > 0 && s.data != [] ==> 0 < k <= s.reader.left && k <= |s.data|)
  {
    var left := s.reader.left;
    if left == 0 then WakeUp(s).(reader := Out)
    else if s.data == [] then
      var t := WakeUp(s);
      if !s.writers then t.(reader := Out) else SleepOn(t, Reader, left)
    else s.(data := s.data[k..], taken := s.taken + s.data[..k], reader := Going(left - k))
  }

  /** One pass of the loop in write_pipe(), adding the bytes d when there is room. */
  function WritePass(s: State, d: seq<byte>): State
    requires s.writer.Going? && (s.writer.left > 0 && |s.data| < CAPACITY ==> 0 < |d| <= s.writer.left && |s.data| + |d| <= CAPACITY)
  {
    var left := s.writer.left;
    if left == 0 then WakeUp(s).(writer := Out)
    else if |s.data| >= CAPACITY then
      var t := WakeUp(s);
      if !s.readers then t.(writer := Out) else SleepOn(t, Writer, left)
    else s.(data := s.data + d, written := s.written + d, writer := Going(left - |d|))
  }

  datatype Step = BeginRead(count: nat) | BeginWrite(count: nat) | DoRead(k: nat) | DoWrite(d: seq<byte>) | CloseReader | CloseWriter

  ghost predicate Enabled(s: State, step: Step) {
    match step
    case BeginRead(_) => s.reader.Out? && s.readers
    case BeginWrite(_) => s.writer.Out? && s.writers
    case DoRead(k) => s.reader.Going? && (s.reader.left > 0 && s.data != [] ==> 0 < k <= s.reader.left && k <= |s.data|)
    case DoWrite(d) => s.writer.Going? && (s.writer.left > 0 && |s.data| < CAPACITY ==> 0 < |d| <= s.writer.left && |s.data| + |d| <= CAPACITY)
    case CloseReader => s.reader.Out? && s.readers
    case CloseWriter => s.writer.Out? && s.writers
  }

  /** Closing an end wakes the queue (iput on a pipe). */
  function Next(s: State, step: Step): State
    requires Enabled(s, step)
  {
    match step
    case BeginRead(count) => s.(reader := Going(count))
    case BeginWrite(count) => s.(writer := Going(count))
    case DoRead(k) => ReadPass(s, k)
    case DoWrite(d) => WritePass(s, d)
    case CloseReader => WakeUp(s).(readers := false)
    case CloseWriter => WakeUp(s).(writers := false)
  }

  ghost predicate Inv(s: State) {
    && s.written == s.taken + s.data && |s.data| <= CAPACITY
    && s.under == []
    && s.wait == (if s.reader.Sleeping? then [Reader] else if s.writer.Sleeping? then [Writer] else [])
    && !(s.reader.Sleeping? && s.writer.Sleeping?)
    && (s.reader.Sleeping? ==> s.writers && (s.data == [] || s.writer.Going?))
    && (s.writer.Sleeping? ==> s.readers && (|s.data| == CAPACITY || s.reader.Going?))
    && (!s.readers ==> s.reader.Out?) && (!s.writers ==> s.writer.Out?)
  }

  ghost predicate Start(s: State) {
    s.data == [] && s.reader.Out? && s.writer.Out? && s.wait == [] && s.under == [] && s.readers && s.writers && s.written == s.taken == []
  }

  function Awake(p: Phase): Phase { if p.Sleeping? then Going(p.left) else p }

  /** With at most one of the two asleep, wake_up() leaves nobody asleep and nobody hanging. */
  lemma WakeUpIs(s: State)
    requires Inv(s)
    ensures WakeUp(s) == s.(reader := Awake(s.reader), writer := Awake(s.writer), wait := [])
  {
    assert s.under + s.wait[..if s.wait == [] then 0 else |s.wait| - 1] == [];
  }

  lemma ReadKeeps(s: State, k: nat)
    requires Inv(s) && Enabled(s, DoRead(k))
    ensures Inv(ReadPass(s, k))
  {
    hide WakeUp;
    WakeUpIs(s);
    if s.reader.left > 0 && s.data != [] {
      assert s.data == s.data[..k] + s.data[k..];
      assert s.written == s.taken + s.data[..k] + s.data[k..];
    } else if s.reader.left > 0 {
      assert [] + [Reader] == [Reader];
    }
  }

  lemma WriteKeeps(s: State, d: seq<byte>)
    requires Inv(s) && Enabled(s, DoWrite(d))
    ensures Inv(WritePass(s, d))
  {
    hide WakeUp;
    WakeUpIs(s);
    if s.writer.left > 0 && |s.data| < CAPACITY {
      assert s.written + d == s.taken + (s.data + d);
    } else if s.writer.left > 0 {
      assert [] + [Writer] == [Writer];
    }
  }

  lemma StepKeeps(s: State, step: Step)
    requires Inv(s) && Enabled(s, step)
    ensures Inv(Next(s, step))
  {
    hide WakeUp, ReadPass, WritePass;
    match step
    case DoRead(k) => ReadKeeps(s, k);
    case DoWrite(d) => WriteKeeps(s, d);
    case _ => WakeUpIs(s);
  }

  ghost predicate CanRun(s: State, steps: seq<Step>)
    decreases |steps|
  {
    steps != [] ==> Enabled(s, steps[0]) && CanRun(Next(s, steps[0]), steps[1..])
  }

  ghost function After(s: State, steps: seq<Step>): State
    requires CanRun(s, steps)
    decreases |steps|
  {
    if steps == [] then s else After(Next(s, steps[0]), steps[1..])
  }

  lemma {:induction false} RunKeeps(s: State, steps: seq<Step>)
    requires Inv(s) && CanRun(s, steps)
    ensures Inv(After(s, steps))
    decreases |steps|
  {
    if steps != [] {
      StepKeeps(s, steps[0]);
      RunKeeps(Next(s, steps[0]), steps[1..]);
    }
  }

  /**
   * In every run: reader and writer are never both asleep, and whoever sleeps does so for a reason -
   * nothing to read or no room, with the other end open - or the other is at work and will wake it.
   */
  lemma NobodySleepsInVain(s: State, steps: seq<Step>)
    requires Start(s) && CanRun(s, steps)
    ensures var t := After(s, steps);
            && !(t.reader.Sleeping? && t.writer.Sleeping?)
            && (t.reader.Sleeping? && !t.writer.Going? ==> t.data == [] && t.writers)
            && (t.writer.Sleeping? && !t.reader.Going? ==> |t.data| == CAPACITY && t.readers)
            && t.written == t.taken + t.data && |t.data| <= CAPACITY
  {
    RunKeeps(s, steps);
  }

  /** Somewhere in the run the sleeper is made to go on. */
  ghost predicate WokenIn(s: State, steps: seq<Step>, w: Who)
    requires CanRun(s, steps)
    decreases |steps|
  {
    steps != [] && (PhaseOf(Next(s, steps[0]), w).Going? || WokenIn(Next(s, steps[0]), steps[1..], w))
  }

  function Other(w: Who): Who { if w == Reader then Writer else Reader }

  /** While one of the two sleeps and the other is at work, the only step there is is the next pass of the
      other; it wakes the sleeper or has fewer bytes to go. */
  lemma PassServes(s: State, step: Step, w: Who)
    requires Inv(s) && Enabled(s, step) && PhaseOf(s, w).Sleeping? && PhaseOf(s, Other(w)).Going?
    ensures var t := Next(s, step);
            || PhaseOf(t, w) == Going(PhaseOf(s, w).left)
            || (PhaseOf(t, w) == PhaseOf(s, w) && PhaseOf(t, Other(w)).Going? && PhaseOf(t, Other(w)).left < PhaseOf(s, Other(w)).left)
  {
    hide WakeUp;
    WakeUpIs(s);
  }

  /** In every run, a sleeper whose partner is at work is woken within as many steps as the partner has bytes
      to go, and one more. */
  lemma {:induction false} PartnerWakes(s: State, steps: seq<Step>, w: Who)
    requires Inv(s) && CanRun(s, steps) && PhaseOf(s, w).Sleeping? && PhaseOf(s, Other(w)).Going?
    requires |steps| > PhaseOf(s, Other(w)).left
    ensures WokenIn(s, steps, w)
    decreases |steps|
  {
    hide Inv, Next;
    var t := Next(s, steps[0]);
    PassServes(s, steps[0], w);
    StepKeeps(s, steps[0]);
    if !PhaseOf(t, w).Going? {
      PartnerWakes(t, steps[1..], w);
    }
  }

  /** What a pass of the reader comes to: bytes from the front if there are any; else the call ends when it
      has all it wants or no writer is left, and the reader sleeps otherwise. In the last two cases the
      writer, if it sleeps, goes on. */
  lemma ReadPassInFields(s: State, k: nat)
    requires Inv(s) && Enabled(s, DoRead(k))
    ensures var t, left := ReadPass(s, k), s.reader.left;
            && (left > 0 && s.data != [] ==>
                  t == s.(data := s.data[k..], taken := s.taken + s.data[..k], reader := Going(left - k)))
            && (left == 0 || s.data == [] ==> t.data == s.data && t.taken == s.taken && t.written == s.written)
            && (left == 0 || (s.data == [] && !s.writers) ==> t.reader == Out && t.wait == [])
            && (left > 0 && s.data == [] && s.writers ==> t.reader == Sleeping(left) && t.wait == [Reader])
            && ((left == 0 || s.data == []) && s.writer.Sleeping? ==> t.writer == Going(s.writer.left))
  {
    hide WakeUp;
    WakeUpIs(s);
    assert [] + [Reader] == [Reader];
  }

  /** And of the writer. */
  lemma WritePassInFields(s: State, d: seq<byte>)
    requires Inv(s) && Enabled(s, DoWrite(d))
    ensures var t, left := WritePass(s, d), s.writer.left;
            && (left > 0 && |s.data| < 4095 ==>
                  t == s.(data := s.data + d, written := s.written + d, writer := Going(left - |d|)))
            && (left == 0 || |s.data| == 4095 ==> t.data == s.data && t.taken == s.taken && t.written == s.written)
            && (left == 0 || (|s.data| == 4095 && !s.readers) ==> t.writer == Out && t.wait == [])
            && (left > 0 && |s.data| == 4095 && s.readers ==> t.writer == Sleeping(left) && t.wait == [Writer])
            && ((left == 0 || |s.data| == 4095) && s.reader.Sleeping? ==> t.reader == Going(s.reader.left))
  {
    hide WakeUp;
    WakeUpIs(s);
    assert [] + [Writer] == [Writer];
  }
}
