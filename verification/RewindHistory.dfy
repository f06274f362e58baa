/**
 The rewind buffer as a value, the undo history it is meant to be, and the proof that a run of the
 one is a run of the other.
 */
module RewindHistory {
  import opened Bytes
  import opened Common

  /** Everything a RewindBuffer keeps between two critical sections, with the deltas uncompressed. */
  datatype State = State(
    current: Buffer,      // the last serialized state, which the next push is compared with
    next: Buffer,         // the buffer the next push fills
    deltaBuffer: Buffer,  // only ever grows between resets
    maxSize: nat,         // largest serialized state ever
    ring: seq<Buffer>,    // deltas
    writePos: nat,
    count: nat,
    total: nat)
  {
    /** Position in the ring of the `i`-th oldest delta. */
    function Slot(i: nat): int
      requires i < count
    {
      var p := writePos - count + i;
      if p < 0 then p + |ring| else p
    }

    predicate RingOk() {
      writePos < |ring| && count <= |ring| && count <= total
    }

    /** The deltas that can be undone, oldest first. */
    function Window(): (w: seq<Buffer>)
      requires RingOk()
      ensures |w| == count
    {
      seq(count, i requires 0 <= i < count => ring[Slot(i)])
    }

    /** What every sequence of operations keeps, whatever the lengths of the pushed states. */
    ghost predicate Valid() {
      && RingOk()
      && |current| <= |deltaBuffer| <= maxSize
      && forall i: nat :: i < count ==> |ring[Slot(i)]| <= |deltaBuffer|
    }

    /** Whether undoing the newest delta stays inside the current buffer. */
    predicate PopInBounds()
      requires RingOk()
    {
      count > 0 ==> |Window()[count - 1]| <= |current|
    }
  }

  function Initial(capacity: nat): State
    requires capacity > 0
  {
    State([], [], [], 0, seq(capacity, i => []), 0, 0, 0)
  }

  /** Serialize `x` into the next buffer, flip, and store the delta to the previous state. */
  function Push(s: State, x: Buffer): (r: State)
    requires s.RingOk()
    ensures r.RingOk() && |r.ring| == |s.ring|
  {
    var maxSize := Max(|s.current|, |x|);
    var delta := Delta(s.current, x, maxSize) + s.deltaBuffer[Min(maxSize, |s.deltaBuffer|)..];
    State(x, s.current, delta, Max(s.maxSize, maxSize),
          s.ring[s.writePos := delta],
          if s.writePos + 1 == |s.ring| then 0 else s.writePos + 1,
          if s.count < |s.ring| then s.count + 1 else s.count,
          s.total + 1)
  }

  /** Undo the newest delta in place; nothing happens when there is none. */
  function Pop(s: State): (r: State)
    requires s.RingOk() && s.PopInBounds()
    ensures r.RingOk() && |r.ring| == |s.ring|
  {
    if s.count == 0 then s else
    var writePos := if s.writePos == 0 then |s.ring| - 1 else s.writePos - 1;
    var delta := s.ring[writePos];
    assert delta == s.Window()[s.count - 1];
    State(Delta(s.current, delta, |delta|) + s.current[|delta|..], delta, s.deltaBuffer, s.maxSize,
          s.ring, writePos, s.count - 1, s.total - 1)
  }

  /** Forget every state; the write position and the largest size survive. */
  function Reset(s: State): (r: State)
    requires s.RingOk()
    ensures r.RingOk() && |r.ring| == |s.ring|
  {
    State([], [], [], s.maxSize, seq(|s.ring|, i => []), s.writePos, 0, 0)
  }

  lemma PushKeepsValid(s: State, x: Buffer)
    requires s.Valid()
    ensures Push(s, x).Valid()
    ensures |Push(s, x).deltaBuffer| == Max(|s.deltaBuffer|, |x|)
    ensures Push(s, x).Window() == LastN(s.Window() + [Push(s, x).deltaBuffer], |s.ring|)
  {
    var r := Push(s, x);
    forall i: nat | i < r.count
      ensures r.Window()[i] == LastN(s.Window() + [r.deltaBuffer], |s.ring|)[i]
      ensures |r.ring[r.Slot(i)]| <= |r.deltaBuffer|
    {
      var j := if s.count < |s.ring| then i else i + 1;
      if j < s.count {
        assert r.Slot(i) == s.Slot(j) != s.writePos;
      } else {
        assert r.Slot(i) == s.writePos;
      }
    }
  }

  lemma PopKeepsValid(s: State)
    requires s.Valid() && s.PopInBounds()
    ensures Pop(s).Valid()
    ensures s.count > 0 ==> Pop(s).Window() == s.Window()[..s.count - 1]
  {
    if s.count > 0 {
      var r := Pop(s);
      forall i: nat | i < r.count
        ensures r.Slot(i) == s.Slot(i)
      {
      }
    }
  }

  lemma ResetKeepsValid(s: State)
    requires s.Valid()
    ensures Reset(s).Valid()
  {
  }

  // ----- The history a user expects -----

  /** The state shown now, and the states that can still be gone back to, newest last. */
  datatype History = History(current: Buffer, past: seq<Buffer>)

  function HistoryPush(h: History, x: Buffer, capacity: nat): History {
    History(x, LastN(h.past + [h.current], capacity))
  }

  function HistoryPop(h: History): History {
    if h.past == [] then h else History(h.past[|h.past| - 1], h.past[..|h.past| - 1])
  }

  const EMPTY_HISTORY := History([], [])

  /** The state that followed `h.past[i]`. */
  function Successor(h: History, i: nat): Buffer
    requires i < |h.past|
  {
    if i + 1 < |h.past| then h.past[i + 1] else h.current
  }

  /** The chain of deltas `w` leads from each state of `h` to the one after it. */
  ghost predicate Chained(w: seq<Buffer>, h: History, size: nat) {
    && |w| == |h.past|
    && |h.current| <= size
    && forall i: nat :: i < |w| ==>
         && |h.past[i]| <= |w[i]| <= size
         && |Successor(h, i)| <= |w[i]|
         && w[i] == Delta(h.past[i], Successor(h, i), |w[i]|)
  }

  /** `s` represents `h`: the current buffer is the current state up to zeros at its end. */
  ghost predicate Represents(s: State, h: History) {
    && s.Valid()
    && |s.deltaBuffer| == |s.current|
    && Chained(s.Window(), h, |s.current|)
    && s.current == Padded(h.current, |s.current|)
  }

  lemma InitialRepresents(capacity: nat)
    requires capacity > 0
    ensures Represents(Initial(capacity), EMPTY_HISTORY)
  {
  }

  lemma ResetRepresents(s: State)
    requires s.Valid()
    ensures Represents(Reset(s), EMPTY_HISTORY)
  {
  }

  /** The delta of a push that does not shrink: stale bytes and padding play no part. */
  lemma PushedDelta(s: State, h: History, x: Buffer)
    requires Represents(s, h) && |s.deltaBuffer| <= |x|
    ensures Push(s, x).deltaBuffer == Delta(h.current, x, |x|)
  {
    forall i: nat | i < |x|
      ensures ByteAt(s.current, i) == ByteAt(h.current, i)
    {
    }
  }

  /** A new state adds a link to the chain. */
  lemma ChainExtends(w: seq<Buffer>, h: History, size: nat, x: Buffer)
    requires Chained(w, h, size) && size <= |x|
    ensures Chained(w + [Delta(h.current, x, |x|)], History(x, h.past + [h.current]), |x|)
  {
    var g := History(x, h.past + [h.current]);
    assert forall i: nat :: i < |w| ==> Successor(g, i) == Successor(h, i);
  }

  /** Forgetting the oldest state removes the first link. */
  lemma ChainDropsFirst(w: seq<Buffer>, h: History, size: nat)
    requires Chained(w, h, size) && w != []
    ensures Chained(w[1..], History(h.current, h.past[1..]), size)
  {
    var g := History(h.current, h.past[1..]);
    assert forall i: nat :: i < |w| - 1 ==> Successor(g, i) == Successor(h, i + 1);
  }

  /** Going back to the newest past state removes the last link. */
  lemma ChainDropsLast(w: seq<Buffer>, h: History, size: nat)
    requires Chained(w, h, size) && w != []
    ensures Chained(w[..|w| - 1], HistoryPop(h), size)
  {
    var g := HistoryPop(h);
    assert forall i: nat :: i < |w| - 1 ==> Successor(g, i) == Successor(h, i);
  }

  lemma ChainPush(w: seq<Buffer>, h: History, size: nat, x: Buffer, capacity: nat)
    requires Chained(w, h, size) && size <= |x| && |w| <= capacity
    ensures Chained(LastN(w + [Delta(h.current, x, |x|)], capacity), HistoryPush(h, x, capacity), |x|)
  {
    ChainExtends(w, h, size, x);
    if |w| == capacity {
      ChainDropsFirst(w + [Delta(h.current, x, |x|)], History(x, h.past + [h.current]), |x|);
    }
  }

  lemma PushRepresents(s: State, h: History, x: Buffer)
    requires Represents(s, h) && |s.deltaBuffer| <= |x|
    ensures Represents(Push(s, x), HistoryPush(h, x, |s.ring|))
    ensures |Push(s, x).deltaBuffer| == |x|
  {
    PushKeepsValid(s, x);
    PushedDelta(s, h, x);
    ChainPush(s.Window(), h, |s.current|, x, |s.ring|);
  }

  /** Undoing the newest delta gives back the state before it, whatever its length was. */
  lemma PopRepresents(s: State, h: History)
    requires Represents(s, h)
    ensures s.PopInBounds() && Represents(Pop(s), HistoryPop(h))
    ensures |Pop(s).current| == |s.current|
  {
    if s.count > 0 {
      PopKeepsValid(s);
      UndoneBytes(s, h);
      ChainDropsLast(s.Window(), h, |s.current|);
    }
  }

  /** XOR-ing the newest delta into the current buffer turns it into the state before. */
  lemma UndoneBytes(s: State, h: History)
    requires Represents(s, h) && s.count > 0
    ensures s.PopInBounds()
    ensures Pop(s).current == Padded(h.past[s.count - 1], |s.current|)
  {
    UndoBytes(h.past[s.count - 1], h.current, s.Window()[s.count - 1], s.current);
  }

  lemma UndoBytes(before: Buffer, after: Buffer, delta: Buffer, current: Buffer)
    requires |before| <= |delta| && |after| <= |delta| <= |current|
    requires delta == Delta(before, after, |delta|) && current == Padded(after, |current|)
    ensures Delta(current, delta, |delta|) + current[|delta|..] == Padded(before, |current|)
  {
    forall i: nat | i < |delta|
      ensures ByteAt(current, i) ^ ByteAt(delta, i) == ByteAt(before, i)
    {
      XorUndo(ByteAt(before, i), ByteAt(after, i));
    }
  }

  // ----- Runs -----

  datatype Op = OpPush(state: Buffer) | OpPop | OpReset

  predicate StepInBounds(s: State, op: Op)
    requires s.RingOk()
  {
    op.OpPop? ==> s.PopInBounds()
  }

  function Step(s: State, op: Op): (r: State)
    requires s.RingOk() && StepInBounds(s, op)
    ensures r.RingOk() && |r.ring| == |s.ring|
  {
    match op
    case OpPush(x) => Push(s, x)
    case OpPop => Pop(s)
    case OpReset => Reset(s)
  }

  function HistoryStep(h: History, op: Op, capacity: nat): History {
    match op
    case OpPush(x) => HistoryPush(h, x, capacity)
    case OpPop => HistoryPop(h)
    case OpReset => EMPTY_HISTORY
  }

  predicate RunInBounds(s: State, ops: seq<Op>)
    requires s.RingOk()
    decreases |ops|
  {
    ops == [] || (StepInBounds(s, ops[0]) && RunInBounds(Step(s, ops[0]), ops[1..]))
  }

  function Run(s: State, ops: seq<Op>): (r: State)
    requires s.RingOk() && RunInBounds(s, ops)
    ensures r.RingOk() && |r.ring| == |s.ring|
    decreases |ops|
  {
    if ops == [] then s else Run(Step(s, ops[0]), ops[1..])
  }

  function HistoryRun(h: History, ops: seq<Op>, capacity: nat): History
    decreases |ops|
  {
    if ops == [] then h else HistoryRun(HistoryStep(h, ops[0], capacity), ops[1..], capacity)
  }

  /**
   Whatever the lengths pushed, every delta that can be undone fits in `maxSize` bytes, so a decompression
   buffer of that size always suffices, even though a reset empties the delta buffer and keeps `maxSize`.
   */
  lemma {:induction false} RunKeepsValid(s: State, ops: seq<Op>)
    requires s.Valid() && RunInBounds(s, ops)
    ensures var r := Run(s, ops);
            && r.Valid() && s.maxSize <= r.maxSize
            && forall i: nat :: i < r.count ==> |r.Window()[i]| <= r.maxSize
    decreases |ops|
  {
    if ops != [] {
      match ops[0] {
        case OpPush(x) => PushKeepsValid(s, x);
        case OpPop => PopKeepsValid(s);
        case OpReset => ResetKeepsValid(s);
      }
      RunKeepsValid(Step(s, ops[0]), ops[1..]);
    }
  }

  /** Between two resets no pushed state is shorter than an earlier one, `size` being the longest so far. */
  predicate NonShrinking(ops: seq<Op>, size: nat) {
    ops == [] || match ops[0]
                 case OpPush(x) => size <= |x| && NonShrinking(ops[1..], |x|)
                 case OpPop => NonShrinking(ops[1..], size)
                 case OpReset => NonShrinking(ops[1..], 0)
  }

  /** Every run that does not shrink its states is a run of the bounded undo history. */
  lemma {:induction false} RunRepresents(s: State, h: History, ops: seq<Op>)
    requires Represents(s, h) && NonShrinking(ops, |s.deltaBuffer|)
    ensures RunInBounds(s, ops)
    ensures Represents(Run(s, ops), HistoryRun(h, ops, |s.ring|))
    decreases |ops|
  {
    if ops != [] {
      match ops[0] {
        case OpPush(x) => PushRepresents(s, h, x);
        case OpPop => PopRepresents(s, h);
        case OpReset => ResetRepresents(s);
      }
      RunRepresents(Step(s, ops[0]), HistoryStep(h, ops[0], |s.ring|), ops[1..]);
    }
  }

  lemma RunFromStart(capacity: nat, ops: seq<Op>)
    requires capacity > 0 && NonShrinking(ops, 0)
    ensures RunInBounds(Initial(capacity), ops)
    ensures Represents(Run(Initial(capacity), ops), HistoryRun(EMPTY_HISTORY, ops, capacity))
  {
    InitialRepresents(capacity);
    RunRepresents(Initial(capacity), EMPTY_HISTORY, ops);
  }

  /** No step of the run, and no undo right after one of its pushes, leaves the current buffer. */
  predicate UndoAlwaysInBounds(s: State, ops: seq<Op>)
    requires s.RingOk()
    decreases |ops|
  {
    ops != [] ==>
      && StepInBounds(s, ops[0])
      && (ops[0].OpPush? ==> Step(s, ops[0]).PopInBounds())
      && UndoAlwaysInBounds(Step(s, ops[0]), ops[1..])
  }

  /** A state just pushed can be undone exactly when it is not shorter than the delta buffer already is. */
  lemma UndoablePush(s: State, x: Buffer)
    requires s.Valid()
    ensures Push(s, x).PopInBounds() <==> |s.deltaBuffer| <= |x|
  {
    PushKeepsValid(s, x);
    var r := Push(s, x);
    assert r.Window()[r.count - 1] == r.deltaBuffer;
  }

  /** States may vary in size only upwards: exactly then every push can be undone. */
  lemma {:induction false} NonShrinkingIsExact(s: State, h: History, ops: seq<Op>)
    requires Represents(s, h)
    ensures NonShrinking(ops, |s.deltaBuffer|) <==> UndoAlwaysInBounds(s, ops)
    decreases |ops|
  {
    if ops != [] {
      match ops[0]
      case OpPush(x) =>
        UndoablePush(s, x);
        if |s.deltaBuffer| <= |x| {
          PushRepresents(s, h, x);
          NonShrinkingIsExact(Push(s, x), HistoryPush(h, x, |s.ring|), ops[1..]);
        }
      case OpPop =>
        PopRepresents(s, h);
        NonShrinkingIsExact(Pop(s), HistoryPop(h), ops[1..]);
      case OpReset =>
        ResetRepresents(s);
        NonShrinkingIsExact(Reset(s), EMPTY_HISTORY, ops[1..]);
    }
  }

  /** Two bytes, then one byte: the undo of the second push needs two bytes of a one-byte buffer. */
  lemma ShrinkingStateCannotBeUndone(capacity: nat)
    requires capacity > 0
    ensures !Push(Push(Initial(capacity), [1, 2]), [3]).PopInBounds()
  {
    InitialRepresents(capacity);
    PushKeepsValid(Initial(capacity), [1, 2]);
    UndoablePush(Push(Initial(capacity), [1, 2]), [3]);
  }

  // ----- What the history promises -----

  function Pushes(xs: seq<Buffer>): (ops: seq<Op>)
    ensures |ops| == |xs|
  {
    seq(|xs|, i requires 0 <= i < |xs| => OpPush(xs[i]))
  }

  function Pops(n: nat): (ops: seq<Op>)
    ensures |ops| == n
  {
    seq(n, i => OpPop)
  }

  lemma {:induction false} HistoryOfPushes(h: History, xs: seq<Buffer>, capacity: nat)
    requires |h.past| <= capacity
    ensures HistoryRun(h, Pushes(xs), capacity)
         == History(([h.current] + xs)[|xs|], LastN(h.past + ([h.current] + xs)[..|xs|], capacity))
    decreases |xs|
  {
    if xs == [] {
      assert h.past + ([h.current] + xs)[..0] == h.past;
    } else {
      assert Pushes(xs)[1..] == Pushes(xs[1..]);
      HistoryOfPushes(HistoryPush(h, xs[0], capacity), xs[1..], capacity);
      PastAfterPush(h.past, h.current, xs, capacity);
    }
  }

  lemma PastAfterPush(past: seq<Buffer>, current: Buffer, xs: seq<Buffer>, capacity: nat)
    requires xs != []
    ensures LastN(LastN(past + [current], capacity) + ([xs[0]] + xs[1..])[..|xs| - 1], capacity)
         == LastN(past + ([current] + xs)[..|xs|], capacity)
    ensures ([xs[0]] + xs[1..])[|xs| - 1] == ([current] + xs)[|xs|]
  {
    var rest := ([xs[0]] + xs[1..])[..|xs| - 1];
    LastNOfLastN(past + [current], rest, capacity);
    assert past + [current] + rest == past + ([current] + xs)[..|xs|];
  }

  lemma {:induction false} HistoryOfPops(h: History, n: nat, capacity: nat)
    requires n <= |h.past|
    ensures var all := h.past + [h.current];
            HistoryRun(h, Pops(n), capacity) == History(all[|h.past| - n], h.past[..|h.past| - n])
    decreases n
  {
    if n == 0 {
      assert h.past[..|h.past|] == h.past;
    } else {
      assert Pops(n)[1..] == Pops(n - 1);
      HistoryOfPops(HistoryPop(h), n - 1, capacity);
    }
  }

  lemma {:induction false} RunConcat(h: History, a: seq<Op>, b: seq<Op>, capacity: nat)
    ensures HistoryRun(h, a + b, capacity) == HistoryRun(HistoryRun(h, a, capacity), b, capacity)
    decreases |a|
  {
    if a == [] {
      assert a + b == b;
    } else {
      assert (a + b)[1..] == a[1..] + b;
      RunConcat(HistoryStep(h, a[0], capacity), a[1..], b, capacity);
    }
  }

  lemma {:induction false} PopsNeverShrink(ops: seq<Op>, n: nat, size: nat)
    requires NonShrinking(ops, size)
    ensures NonShrinking(ops + Pops(n), size)
    decreases |ops|, n
  {
    if ops != [] {
      assert (ops + Pops(n))[1..] == ops[1..] + Pops(n);
      var size' := match ops[0] case OpPush(x) => |x| case OpPop => size case OpReset => 0;
      PopsNeverShrink(ops[1..], n, size');
    } else if n > 0 {
      assert ops + Pops(n) == Pops(n) && Pops(n)[1..] == [] + Pops(n - 1);
      PopsNeverShrink([], n - 1, size);
    }
  }

  /**
   Last in, first out: after any run and `xs` more pushes, the last `capacity` of them can be undone
   one by one, each undo giving back the state before, and the rest of the history is untouched.
   */
  lemma UndoIsLifo(s: State, h: History, xs: seq<Buffer>, n: nat)
    requires Represents(s, h) && NonShrinking(Pushes(xs), |s.deltaBuffer|)
    requires n <= Min(|xs|, |s.ring|)
    ensures var ops := Pushes(xs) + Pops(n);
            RunInBounds(s, ops) &&
            var r := Run(s, ops);
            var back := ([h.current] + xs)[|xs| - n];
            && |back| <= |r.current| && r.current == Padded(back, |r.current|)
            && r.count == Min(|h.past| + |xs|, |s.ring|) - n
  {
    PopsNeverShrink(Pushes(xs), n, |s.deltaBuffer|);
    RunRepresents(s, h, Pushes(xs) + Pops(n));
    HistoryIsLifo(h, xs, n, |s.ring|);
  }

  lemma {:induction false} RunStaysWithin(s: State, h: History, ops: seq<Op>, size: nat)
    requires Represents(s, h) && NonShrinking(ops, |s.deltaBuffer|) && |s.deltaBuffer| <= size
    requires forall op :: op in ops && op.OpPush? ==> |op.state| <= size
    ensures RunInBounds(s, ops) && |Run(s, ops).current| <= size
    decreases |ops|
  {
    if ops != [] {
      match ops[0] {
        case OpPush(x) => PushRepresents(s, h, x);
        case OpPop => PopRepresents(s, h);
        case OpReset => ResetRepresents(s);
      }
      RunStaysWithin(Step(s, ops[0]), HistoryStep(h, ops[0], |s.ring|), ops[1..], size);
    }
  }

  lemma {:induction false} EqualSizesDoNotShrink(xs: seq<Buffer>, longest: nat, size: nat)
    requires longest <= size && forall x :: x in xs ==> |x| == size
    ensures NonShrinking(Pushes(xs), longest)
    decreases |xs|
  {
    if xs != [] {
      assert Pushes(xs)[1..] == Pushes(xs[1..]);
      EqualSizesDoNotShrink(xs[1..], size, size);
    }
  }

  /** States of one size come back exactly. */
  lemma EqualSizesComeBack(s: State, h: History, xs: seq<Buffer>, n: nat, size: nat)
    requires Represents(s, h) && |s.deltaBuffer| <= size && forall x :: x in xs ==> |x| == size
    requires n < |xs| && n <= |s.ring|
    ensures var ops := Pushes(xs) + Pops(n);
            RunInBounds(s, ops) && Run(s, ops).current == xs[|xs| - 1 - n]
  {
    EqualSizesDoNotShrink(xs, |s.deltaBuffer|, size);
    UndoIsLifo(s, h, xs, n);
    EqualSizesStayWithin(s, h, xs, n, size);
    assert ([h.current] + xs)[|xs| - n] == xs[|xs| - 1 - n];
  }

  lemma EqualSizesStayWithin(s: State, h: History, xs: seq<Buffer>, n: nat, size: nat)
    requires Represents(s, h) && |s.deltaBuffer| <= size && forall x :: x in xs ==> |x| == size
    ensures var ops := Pushes(xs) + Pops(n);
            RunInBounds(s, ops) && |Run(s, ops).current| <= size
  {
    EqualSizesDoNotShrink(xs, |s.deltaBuffer|, size);
    PopsNeverShrink(Pushes(xs), n, |s.deltaBuffer|);
    RunStaysWithin(s, h, Pushes(xs) + Pops(n), size);
  }

  lemma HistoryIsLifo(h: History, xs: seq<Buffer>, n: nat, capacity: nat)
    requires |h.past| <= capacity && n <= Min(|xs|, capacity)
    ensures var r := HistoryRun(h, Pushes(xs) + Pops(n), capacity);
            && r.current == ([h.current] + xs)[|xs| - n]
            && |r.past| == Min(|h.past| + |xs|, capacity) - n
  {
    RunConcat(h, Pushes(xs), Pops(n), capacity);
    HistoryOfPushes(h, xs, capacity);
    var g := HistoryRun(h, Pushes(xs), capacity);
    HistoryOfPops(g, n, capacity);
    assert (g.past + [g.current])[|g.past| - n] == ([h.current] + xs)[|xs| - n];
  }
}
