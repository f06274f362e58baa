/**
 Undo when serialized states shrink. The delta buffer keeps its length, so a delta covers bytes behind both states;
 there it holds what an earlier delta left. This says when undo is still right.
 */
module RewindShrinking {
  import opened Bytes
  import opened Common
  import opened RewindHistory

  /** What earlier deltas left behind both states, if anything, is zero. */
  predicate CleanPush(s: State, x: Buffer) {
    forall i: nat :: Max(|s.current|, |x|) <= i < |s.deltaBuffer| ==> s.deltaBuffer[i] == 0
  }

  /** The stored delta is that of the two states exactly when the push is clean. */
  lemma CleanPushExactly(s: State, x: Buffer)
    requires s.Valid()
    ensures var d := Push(s, x).deltaBuffer;
            && |s.current| <= |d| && |x| <= |d|
            && (d == Delta(s.current, x, |d|) <==> CleanPush(s, x))
  {
    var d := Push(s, x).deltaBuffer;
    var size := Max(|s.current|, |x|);
    forall i: nat | i < |d|
      ensures d[i] == if i < size then ByteAt(s.current, i) ^ ByteAt(x, i) else s.deltaBuffer[i]
      ensures size <= i ==> ByteAt(s.current, i) ^ ByteAt(x, i) == 0
    {
    }
    if d == Delta(s.current, x, |d|) {
      forall i: nat | size <= i < |s.deltaBuffer|
        ensures s.deltaBuffer[i] == 0
      {
        assert d[i] == Delta(s.current, x, |d|)[i];
      }
    }
  }

  lemma XorCancels(a: Byte, b: Byte, d: Byte)
    ensures b ^ d == a <==> d == a ^ b
  {
  }

  /** A delta undoes the step to `after` exactly when it is the delta of that step. */
  lemma UndoesExactly(before: Buffer, after: Buffer, delta: Buffer, current: Buffer)
    requires |before| <= |delta| && |after| <= |delta| <= |current|
    requires current == Padded(after, |current|)
    ensures Delta(current, delta, |delta|) + current[|delta|..] == Padded(before, |current|)
            <==> delta == Delta(before, after, |delta|)
  {
    if delta == Delta(before, after, |delta|) {
      UndoBytes(before, after, delta, current);
    }
    if Delta(current, delta, |delta|) + current[|delta|..] == Padded(before, |current|) {
      OnlyItsDelta(before, after, delta, current);
    }
  }

  lemma OnlyItsDelta(before: Buffer, after: Buffer, delta: Buffer, current: Buffer)
    requires |before| <= |delta| && |after| <= |delta| <= |current|
    requires current == Padded(after, |current|)
    requires Delta(current, delta, |delta|) + current[|delta|..] == Padded(before, |current|)
    ensures delta == Delta(before, after, |delta|)
  {
    forall i: nat | i < |delta|
      ensures delta[i] == ByteAt(before, i) ^ ByteAt(after, i)
    {
      var undone := Delta(current, delta, |delta|) + current[|delta|..];
      assert undone[i] == ByteAt(after, i) ^ delta[i] == ByteAt(before, i);
      XorCancels(ByteAt(before, i), ByteAt(after, i), delta[i]);
    }
  }

  lemma PopUndoesExactly(s: State, before: Buffer, after: Buffer)
    requires s.Valid() && s.count > 0 && s.PopInBounds()
    requires var d := s.Window()[s.count - 1]; |before| <= |d| && |after| <= |d| <= |s.current|
    requires s.current == Padded(after, |s.current|)
    ensures var d := s.Window()[s.count - 1];
            (Pop(s).current == Padded(before, |s.current|) <==> d == Delta(before, after, |d|))
  {
    UndoesExactly(before, after, s.Window()[s.count - 1], s.current);
  }

  /**
   Whenever the delta of a push is undone, in bounds and from the pushed state, the state before comes back
   exactly when the push was clean.
   */
  lemma UndoneExactlyWhenClean(s: State, x: Buffer, later: State)
    requires s.Valid() && later.Valid() && later.count > 0 && later.PopInBounds()
    requires later.Window()[later.count - 1] == Push(s, x).deltaBuffer
    requires |x| <= |later.current| && later.current == Padded(x, |later.current|)
    ensures |s.current| <= |later.current|
    ensures Pop(later).current == Padded(s.current, |later.current|) <==> CleanPush(s, x)
  {
    CleanPushExactly(s, x);
    PopUndoesExactly(later, s.current, x);
  }

  // ----- Whole runs -----

  /** The deltas `w` lead from each state of `h` to the one after it, whatever their lengths. */
  ghost predicate Linked(w: seq<Buffer>, h: History) {
    && |w| == |h.past|
    && forall i: nat :: i < |w| ==>
         && |h.past[i]| <= |w[i]| && |Successor(h, i)| <= |w[i]|
         && w[i] == Delta(h.past[i], Successor(h, i), |w[i]|)
  }

  /** `s` holds `h`: like `Represents`, but the delta buffer may be longer than the current buffer. */
  ghost predicate Holds(s: State, h: History) {
    && s.Valid()
    && Linked(s.Window(), h)
    && |h.current| <= |s.current| && s.current == Padded(h.current, |s.current|)
  }

  lemma RepresentsHolds(s: State, h: History)
    requires Represents(s, h)
    ensures Holds(s, h)
  {
  }

  lemma LinkNext(w: seq<Buffer>, h: History, x: Buffer, d: Buffer)
    requires Linked(w, h) && |h.current| <= |d| && |x| <= |d| && d == Delta(h.current, x, |d|)
    ensures Linked(w + [d], History(x, h.past + [h.current]))
  {
    var g := History(x, h.past + [h.current]);
    assert forall i: nat :: i < |w| ==> Successor(g, i) == Successor(h, i);
  }

  lemma LinkDropsFirst(w: seq<Buffer>, h: History)
    requires Linked(w, h) && w != []
    ensures Linked(w[1..], History(h.current, h.past[1..]))
  {
    var g := History(h.current, h.past[1..]);
    assert forall i: nat :: i < |w| - 1 ==> Successor(g, i) == Successor(h, i + 1);
  }

  lemma LinkDropsLast(w: seq<Buffer>, h: History)
    requires Linked(w, h) && w != []
    ensures Linked(w[..|w| - 1], HistoryPop(h))
  {
    var g := HistoryPop(h);
    assert forall i: nat :: i < |w| - 1 ==> Successor(g, i) == Successor(h, i);
  }

  lemma LinkPush(w: seq<Buffer>, h: History, x: Buffer, d: Buffer, capacity: nat)
    requires Linked(w, h) && |h.current| <= |d| && |x| <= |d| && d == Delta(h.current, x, |d|)
    requires |w| <= capacity
    ensures Linked(LastN(w + [d], capacity), HistoryPush(h, x, capacity))
  {
    LinkNext(w, h, x, d);
    if |w| == capacity {
      LinkDropsFirst(w + [d], History(x, h.past + [h.current]));
    }
  }

  lemma PaddingKeepsDelta(a: Buffer, n: nat, x: Buffer, size: nat)
    requires |a| <= n
    ensures Delta(Padded(a, n), x, size) == Delta(a, x, size)
  {
    forall i: nat | i < size
      ensures ByteAt(Padded(a, n), i) == ByteAt(a, i)
    {
    }
  }

  lemma CleanPushHolds(s: State, h: History, x: Buffer)
    requires Holds(s, h) && CleanPush(s, x)
    ensures Holds(Push(s, x), HistoryPush(h, x, |s.ring|))
  {
    var d := Push(s, x).deltaBuffer;
    PushKeepsValid(s, x);
    CleanPushExactly(s, x);
    PaddingKeepsDelta(h.current, |s.current|, x, |d|);
    LinkPush(s.Window(), h, x, d, |s.ring|);
  }

  lemma PopHolds(s: State, h: History)
    requires Holds(s, h) && s.PopInBounds()
    ensures Holds(Pop(s), HistoryPop(h))
  {
    if s.count > 0 {
      PopKeepsValid(s);
      UndoBytes(h.past[s.count - 1], h.current, s.Window()[s.count - 1], s.current);
      LinkDropsLast(s.Window(), h);
    }
  }

  lemma ResetHolds(s: State)
    requires s.Valid()
    ensures Holds(Reset(s), EMPTY_HISTORY)
  {
  }

  /** Every push of the run is clean. */
  predicate CleanRun(s: State, ops: seq<Op>)
    requires s.RingOk() && RunInBounds(s, ops)
    decreases |ops|
  {
    ops == [] || ((ops[0].OpPush? ==> CleanPush(s, ops[0].state)) && CleanRun(Step(s, ops[0]), ops[1..]))
  }

  /** Whatever lengths are pushed, a run in bounds whose pushes are clean is a run of the bounded undo history. */
  lemma {:induction false} CleanRunsHold(s: State, h: History, ops: seq<Op>)
    requires Holds(s, h) && RunInBounds(s, ops) && CleanRun(s, ops)
    ensures Holds(Run(s, ops), HistoryRun(h, ops, |s.ring|))
    decreases |ops|
  {
    if ops != [] {
      match ops[0] {
        case OpPush(x) => CleanPushHolds(s, h, x);
        case OpPop => PopHolds(s, h);
        case OpReset => ResetHolds(s);
      }
      CleanRunsHold(Step(s, ops[0]), HistoryStep(h, ops[0], |s.ring|), ops[1..]);
    }
  }

  lemma StalePushBreaks(s: State, h: History, x: Buffer)
    requires Holds(s, h) && !CleanPush(s, x)
    ensures !Holds(Push(s, x), HistoryPush(h, x, |s.ring|))
  {
    var d, g := Push(s, x).deltaBuffer, HistoryPush(h, x, |s.ring|);
    PushKeepsValid(s, x);
    CleanPushExactly(s, x);
    PaddingKeepsDelta(h.current, |s.current|, x, |d|);
    var last := Push(s, x).count - 1;
    assert Push(s, x).Window()[last] == d != Delta(h.current, x, |d|);
    if |g.past| == last + 1 {
      assert g.past[last] == h.current && Successor(g, last) == x;
    }
  }

  /** The buffer holds the undo history after every step of the run. */
  ghost predicate HoldsThroughout(s: State, h: History, ops: seq<Op>)
    requires s.RingOk() && RunInBounds(s, ops)
    decreases |ops|
  {
    && Holds(s, h)
    && (ops == [] || HoldsThroughout(Step(s, ops[0]), HistoryStep(h, ops[0], |s.ring|), ops[1..]))
  }

  /** A run in bounds keeps to the undo history if and only if all its pushes are clean. */
  lemma {:induction false} CleanRunsExactly(s: State, h: History, ops: seq<Op>)
    requires Holds(s, h) && RunInBounds(s, ops)
    ensures HoldsThroughout(s, h, ops) <==> CleanRun(s, ops)
    decreases |ops|
  {
    if ops != [] {
      match ops[0] {
        case OpPush(x) =>
          if CleanPush(s, x) {
            CleanPushHolds(s, h, x);
          } else {
            StalePushBreaks(s, h, x);
          }
        case OpPop => PopHolds(s, h);
        case OpReset => ResetHolds(s);
      }
      if Holds(Step(s, ops[0]), HistoryStep(h, ops[0], |s.ring|)) {
        CleanRunsExactly(Step(s, ops[0]), HistoryStep(h, ops[0], |s.ring|), ops[1..]);
      }
    }
  }

  /** States that do not shrink leave nothing behind them. */
  lemma {:induction false} NonShrinkingIsClean(s: State, h: History, ops: seq<Op>)
    requires Represents(s, h) && NonShrinking(ops, |s.deltaBuffer|)
    ensures RunInBounds(s, ops) && CleanRun(s, ops)
    decreases |ops|
  {
    if ops != [] {
      match ops[0] {
        case OpPush(x) => PushRepresents(s, h, x);
        case OpPop => PopRepresents(s, h);
        case OpReset => ResetRepresents(s);
      }
      NonShrinkingIsClean(Step(s, ops[0]), HistoryStep(h, ops[0], |s.ring|), ops[1..]);
    }
  }

  /** Last in, first out, for states of any lengths whose deltas are clean and undone in bounds. */
  lemma CleanUndoIsLifo(s: State, h: History, xs: seq<Buffer>, n: nat)
    requires Holds(s, h) && n <= Min(|xs|, |s.ring|)
    requires var ops := Pushes(xs) + Pops(n); RunInBounds(s, ops) && CleanRun(s, ops)
    ensures var r := Run(s, Pushes(xs) + Pops(n));
            var back := ([h.current] + xs)[|xs| - n];
            |back| <= |r.current| && r.current == Padded(back, |r.current|)
  {
    CleanRunsHold(s, h, Pushes(xs) + Pops(n));
    HistoryIsLifo(h, xs, n, |s.ring|);
  }

  // ----- A run that goes wrong -----

  lemma PushShows(s: State, x: Buffer, d: Buffer)
    requires s.Valid() && s.count < |s.ring|
    requires d == Delta(s.current, x, Max(|s.current|, |x|))
                  + s.deltaBuffer[Min(Max(|s.current|, |x|), |s.deltaBuffer|)..]
    ensures var r := Push(s, x);
            r.Valid() && r.current == x && r.deltaBuffer == d && r.count == s.count + 1
            && r.Window() == s.Window() + [d]
  {
    PushKeepsValid(s, x);
  }

  /** The third delta still holds the end of the first. */
  lemma StaleDeltas(capacity: nat) returns (s: State)
    requires capacity >= 4
    ensures s == Push(Push(Push(Push(Initial(capacity), [1, 2, 3]), [4]), [5]), [6, 7, 8])
    ensures s.Valid() && s.current == [6, 7, 8] && s.Window() == [[1, 2, 3], [5, 2, 3], [1, 2, 3], [3, 7, 8]]
  {
    s := Initial(capacity);
    PushShows(s, [1, 2, 3], [1, 2, 3]);
    s := Push(s, [1, 2, 3]);
    PushShows(s, [4], [5, 2, 3]);
    s := Push(s, [4]);
    PushShows(s, [5], [1, 2, 3]);
    s := Push(s, [5]);
    PushShows(s, [6, 7, 8], [3, 7, 8]);
    s := Push(s, [6, 7, 8]);
  }

  lemma PopShows(s: State, current: Buffer)
    requires s.Valid() && s.count > 0 && s.PopInBounds()
    requires var d := s.Window()[s.count - 1]; current == Delta(s.current, d, |d|) + s.current[|d|..]
    ensures var r := Pop(s);
            r.Valid() && r.current == current && r.count == s.count - 1 && r.Window() == s.Window()[..r.count]
  {
    PopKeepsValid(s);
  }

  /** Three bytes, one, one, and three again: three undos in bounds give the first state with its end lost. */
  lemma WrongStateRestored(capacity: nat)
    requires capacity >= 4
    ensures var s := Push(Push(Push(Push(Initial(capacity), [1, 2, 3]), [4]), [5]), [6, 7, 8]);
            && s.PopInBounds() && Pop(s).PopInBounds() && Pop(Pop(s)).PopInBounds()
            && Pop(Pop(Pop(s))).current == [1, 0, 0]
  {
    var s := StaleDeltas(capacity);
    PopShows(s, [5, 0, 0]);
    PopShows(Pop(s), [4, 2, 3]);
    PopShows(Pop(Pop(s)), [1, 0, 0]);
  }
}
