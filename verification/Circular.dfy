// A stretch of a circular buffer read as a sequence.

module Circular {
  import opened Blocks

  /** The index k places on from a, around a buffer of n cells. */
  function Wrap(a: int, n: int): int { if a < n then a else a - n }

  lemma WrapIs(a: int, n: int)
    requires 0 <= a < 2 * n
    ensures Wrap(a, n) == a % n
  {
    if a >= n {
      assert a == n + (a - n);
    }
  }

  /** The n cells from start on, around the end of s. */
  function Window<T>(s: seq<T>, start: int, n: int): (w: seq<T>)
    requires 0 <= start < |s| && 0 <= n <= |s|
    ensures |w| == n && forall i :: 0 <= i < n ==> w[i] == s[Wrap(start + i, |s|)]
  {
    seq(n, i requires 0 <= i < n => s[Wrap(start + i, |s|)])
  }

  /** Cells taken from the front, up to the end of the buffer. */
  lemma TakeFront<T>(s: seq<T>, start: int, n: int, k: int)
    requires 0 <= start < |s| && 0 <= k <= n <= |s| && start + k <= |s|
    ensures Window(s, start, n)[..k] == s[start..start + k]
    ensures Window(s, start, n)[k..] == Window(s, Wrap(start + k, |s|), n - k)
  {
  }

  /** A cell filled just behind the window extends it. */
  lemma PutBack<T>(s: seq<T>, start: int, n: int, x: T)
    requires 0 <= start < |s| && 0 <= n < |s|
    ensures var s' := s[Wrap(start + n, |s|) := x];
            Window(s', start, n + 1) == Window(s, start, n) + [x]
  {
  }

  /** A stretch of cells filled just behind the window, up to the end of the buffer at most. */
  lemma {:induction false} PutStretch<T>(s: seq<T>, start: int, n: int, d: seq<T>, s': seq<T>, from: int)
    requires 0 <= start < |s| && 0 <= n && n + |d| <= |s| && (n < |s| ==> from == Wrap(start + n, |s|))
    requires 0 <= from && from + |d| <= |s| && s' == s[..from] + d + s[from + |d|..]
    ensures |s'| == |s| && Window(s', start, n + |d|) == Window(s, start, n) + d
  {
    forall i | 0 <= i < n + |d|
      ensures Window(s', start, n + |d|)[i] == (Window(s, start, n) + d)[i]
    {
      var j := Wrap(start + i, |s|);
      assert i >= n ==> j == from + (i - n);
      assert i < n ==> j < from || j >= from + |d|;
    }
  }

  // ----- what passes through a buffer ----------------------------------

  /** The bytes one step puts in or takes out. */
  datatype Moved = In(bytes: seq<byte>) | Out(bytes: seq<byte>)

  function Ins(log: seq<Moved>): seq<byte> {
    if log == [] then []
    else Ins(log[..|log| - 1]) + if log[|log| - 1].In? then log[|log| - 1].bytes else []
  }

  function Outs(log: seq<Moved>): seq<byte> {
    if log == [] then []
    else Outs(log[..|log| - 1]) + if log[|log| - 1].Out? then log[|log| - 1].bytes else []
  }

  /** How much is in the buffer after these steps if there was `before` at first. */
  function Level(before: nat, log: seq<Moved>): int { before + |Ins(log)| - |Outs(log)| }

  lemma NoneMoved()
    ensures Ins([]) == Outs([]) == []
  {
  }

  lemma NextMoved(log: seq<Moved>, m: Moved)
    ensures Ins(log + [m]) == Ins(log) + if m.In? then m.bytes else []
    ensures Outs(log + [m]) == Outs(log) + if m.Out? then m.bytes else []
  {
    assert (log + [m])[..|log|] == log;
  }

  /** One more step keeps the balance: what was there and what came in is what went out and what is there. */
  lemma Balance(before: seq<byte>, log: seq<Moved>, m: Moved, now: seq<byte>, next: seq<byte>)
    requires before + Ins(log) == Outs(log) + now
    requires if m.In? then next == now + m.bytes else m.bytes + next == now
    ensures before + Ins(log + [m]) == Outs(log + [m]) + next
    ensures |now| == Level(|before|, log)
  {
    hide Ins, Outs;
    NextMoved(log, m);
    assert |before + Ins(log)| == |before| + |Ins(log)|;
    if m.In? {
      assert before + (Ins(log) + m.bytes) == (before + Ins(log)) + m.bytes;
      assert Outs(log) + (now + m.bytes) == (Outs(log) + now) + m.bytes;
    } else {
      assert Outs(log) + (m.bytes + next) == (Outs(log) + m.bytes) + next;
    }
  }
}
