/**
 The rewind buffer between its two threads: the fields change in steps inside the critical sections of
 PopState, ProcThread and Reset, and every interleaving amounts to pushes, pops and resets one after the other.
 */
module RewindThreads {
  import opened Bytes
  import opened Common
  import opened RewindHistory
  import opened SaveStateVersion
  import opened XorLoop
  import T = RewindHandshake

  datatype Config = Config(
    byteOrder: ByteOrder,  // of the host
    threads: T.State,
    buffer: State,
    nextState: Buffer,
    taken: bool,           // PopState has taken a delta off the ring
    // history
    written: seq<Buffer>,  // what NextState was after each write
    ops: seq<Op>)          // pushes, pops and resets in the order in which they released the lock

  const NOTHING_SAVED: Buffer := []

  function Start(byteOrder: ByteOrder, capacity: nat): Config
    requires capacity > 0
  {
    Config(byteOrder, T.INITIAL, Initial(capacity), NOTHING_SAVED, false, [], [])
  }

  /** An action of a thread, the state it saves, and whether it is the end of a Reset. */
  datatype Move = Move(action: T.Action, state: Buffer, reset: bool)

  // ----- Halves of the critical sections -----

  /** Takes the newest delta off the ring into the next buffer. */
  function TakeNewest(s: State): (r: State)
    requires s.RingOk()
    ensures r.RingOk()
  {
    if s.count == 0 then s else
    var writePos := if s.writePos == 0 then |s.ring| - 1 else s.writePos - 1;
    s.(next := s.ring[writePos], writePos := writePos, count := s.count - 1, total := s.total - 1)
  }

  /** XORs the next buffer into the current one. */
  function XorNext(s: State): State
    requires |s.next| <= |s.current|
  {
    s.(current := Delta(s.current, s.next, |s.next|) + s.current[|s.next|..])
  }

  /** Fills the next buffer and flips the buffers. */
  function Flipped(s: State, x: Buffer): State { s.(current := x, next := s.current) }

  /** Stores the delta between the two buffers. */
  function WithDelta(s: State): (r: State)
    requires s.RingOk()
    ensures r.RingOk()
  {
    Push(s.(current := s.next), s.current)
  }

  lemma HalvesMakeWholes(s: State, x: Buffer)
    requires s.RingOk()
    ensures WithDelta(Flipped(s, x)) == Push(s, x)
    ensures s.count > 0 ==> (|TakeNewest(s).next| <= |s.current| <==> s.PopInBounds())
    ensures s.count > 0 && s.PopInBounds() ==> XorNext(TakeNewest(s)) == Pop(s)
  {
    if s.count > 0 {
      assert TakeNewest(s).next == s.Window()[s.count - 1];
    }
  }

  // ----- Moves -----

  /** PopState reports whether it took a delta; a delta longer than the current buffer is undefined behaviour. */
  predicate CanMove(c: Config, m: Move) {
    && T.Enabled(c.threads, m.action)
    && (m.action.EndPop? ==>
          m.action.restored == c.taken && (c.taken ==> |c.buffer.next| <= |c.buffer.current|))
  }

  /** The operation that a move completes. */
  function Completes(c: Config, m: Move): seq<Op> {
    match m.action
    case Process => [OpPush(c.buffer.current)]
    case EndPop(_) => [OpPop]
    case OtherUnlock => if m.reset then [OpReset] else []
    case _ => []
  }

  function BufferAfter(c: Config, m: Move): (r: State)
    requires c.buffer.RingOk() && CanMove(c, m)
    ensures r.RingOk()
  {
    match m.action
    case BeginPop => TakeNewest(c.buffer)
    case EndPop(restored) => if restored then XorNext(c.buffer) else c.buffer
    case Serialize => Flipped(c.buffer, c.nextState)
    case Process => WithDelta(c.buffer)
    case OtherUnlock => if m.reset then Reset(c.buffer) else c.buffer
    case _ => c.buffer
  }

  function NextStateAfter(c: Config, m: Move): Buffer
    requires c.buffer.RingOk() && CanMove(c, m)
  {
    if m.action == T.Save then m.state
    else if m.action == T.EndPop(true) then Loaded(c.byteOrder, c.nextState, XorNext(c.buffer).current)
    else c.nextState
  }

  function Next(c: Config, m: Move): (r: Config)
    requires c.buffer.RingOk() && CanMove(c, m)
    ensures r.buffer.RingOk()
  {
    var nextState := NextStateAfter(c, m);
    Config(c.byteOrder, T.Next(c.threads, m.action), BufferAfter(c, m), nextState,
           if m.action == T.BeginPop then c.buffer.count > 0 else if m.action.EndPop? then false else c.taken,
           if T.WritesNextState(m.action) then c.written + [nextState] else c.written,
           c.ops + Completes(c, m))
  }

  predicate Possible(c: Config, run: seq<Move>)
    requires c.buffer.RingOk()
    decreases |run|
  {
    run == [] || (CanMove(c, run[0]) && Possible(Next(c, run[0]), run[1..]))
  }

  function After(c: Config, run: seq<Move>): (r: Config)
    requires c.buffer.RingOk() && Possible(c, run)
    ensures r.buffer.RingOk()
    decreases |run|
  {
    if run == [] then c else After(Next(c, run[0]), run[1..])
  }

  // ----- Critical sections are atomic -----

  /** The buffer as it is while the holder of the lock is at work, when it was `s` before. */
  predicate Midway(c: Config, s: State)
    requires s.RingOk()
  {
    if c.threads.worker in {T.Notifying, T.Processing} then c.buffer == Flipped(s, c.buffer.current)
    else if c.threads.emulator == T.Popping then c.buffer == TakeNewest(s) && c.taken == (s.count > 0)
    else c.buffer == s
  }

  /** Up to the section under way, the buffer is what the completed operations make of `start`. */
  ghost predicate Atomic(c: Config, start: State)
    requires start.RingOk()
  {
    T.Invariant(c.threads) && RunInBounds(start, c.ops) && Midway(c, Run(start, c.ops))
  }

  lemma PassIsAtomic(c: Config, s: State, m: Move)
    requires T.Control(c.threads) && s.RingOk() && c.buffer.RingOk() && Midway(c, s) && CanMove(c, m)
    requires m.action == T.Process
    ensures RunInBounds(s, Completes(c, m)) && Midway(Next(c, m), Run(s, Completes(c, m)))
  {
    HalvesMakeWholes(s, c.buffer.current);
    OneStep(s, OpPush(c.buffer.current));
  }

  lemma PopIsAtomic(c: Config, s: State, m: Move)
    requires T.Control(c.threads) && s.RingOk() && c.buffer.RingOk() && Midway(c, s) && CanMove(c, m)
    requires m.action.EndPop?
    ensures m.action.restored <==> s.count > 0
    ensures RunInBounds(s, Completes(c, m)) && Midway(Next(c, m), Run(s, Completes(c, m)))
    ensures m.action.restored ==> XorNext(c.buffer) == Pop(s)
  {
    HalvesMakeWholes(s, s.current);
    OneStep(s, OpPop);
  }

  /** A move completes its operation on the buffer as it was before the section, or changes nothing outside. */
  lemma MoveIsAtomic(c: Config, s: State, m: Move)
    requires T.Control(c.threads) && s.RingOk() && c.buffer.RingOk() && Midway(c, s) && CanMove(c, m)
    ensures RunInBounds(s, Completes(c, m)) && Midway(Next(c, m), Run(s, Completes(c, m)))
  {
    match m.action
    case Process => PassIsAtomic(c, s, m);
    case EndPop(_) => PopIsAtomic(c, s, m);
    case OtherUnlock => OneStep(s, OpReset);
    case _ =>
  }

  lemma OneStep(s: State, op: Op)
    requires s.RingOk() && StepInBounds(s, op)
    ensures RunInBounds(s, [op]) && Run(s, [op]) == Step(s, op)
  {
    assert [op][1..] == [];
  }

  lemma {:induction false} RunJoins(s: State, a: seq<Op>, b: seq<Op>)
    requires s.RingOk() && RunInBounds(s, a) && RunInBounds(Run(s, a), b)
    ensures RunInBounds(s, a + b) && Run(s, a + b) == Run(Run(s, a), b)
    decreases |a|
  {
    if a == [] {
      assert a + b == b;
    } else {
      assert (a + b)[1..] == a[1..] + b;
      RunJoins(Step(s, a[0]), a[1..], b);
    }
  }

  lemma NextIsAtomic(c: Config, start: State, m: Move)
    requires start.RingOk() && c.buffer.RingOk() && Atomic(c, start) && CanMove(c, m)
    ensures Atomic(Next(c, m), start)
  {
    T.NextKeepsInvariant(c.threads, m.action);
    MoveIsAtomic(c, Run(start, c.ops), m);
    RunJoins(start, c.ops, Completes(c, m));
  }

  /**
   Whatever the interleaving, whenever nobody holds the lock the buffer is what the completed pushes, pops and
   resets make of it one after the other, in the order of the lock, each in bounds.
   */
  lemma {:induction false} CriticalSectionsAreAtomic(c: Config, start: State, run: seq<Move>)
    requires start.RingOk() && c.buffer.RingOk() && Atomic(c, start) && Possible(c, run)
    ensures var r := After(c, run);
            && Atomic(r, start)
            && (r.threads.lock == T.Nobody ==> r.buffer == Run(start, r.ops))
    decreases |run|
  {
    if run != [] {
      NextIsAtomic(c, start, run[0]);
      CriticalSectionsAreAtomic(Next(c, run[0]), start, run[1..]);
    }
  }

  // ----- The undo history of a run -----

  /** The emulator is between a save and the request for it. */
  predicate HandingOver(t: T.State) { t.emulator in {T.Saved, T.Woken, T.Consumed} }

  /** What NextState is now will be pushed unless it is written again. */
  predicate Pending(t: T.State) {
    HandingOver(t) || T.Outstanding(t)
  }

  /**
   The longest state that may still be pushed or is already in the buffer, given that it was `size`; a reset
   leaves only a pending one.
   */
  function LongestAfter(c: Config, m: Move, size: nat): nat {
    if m.action == T.Save then |m.state|
    else if m.action == T.OtherUnlock && m.reset then (if Pending(c.threads) then |c.nextState| else 0)
    else size
  }

  /** Between two resets no state that the run saves is shorter than one saved before. */
  predicate SavesGrow(c: Config, run: seq<Move>, size: nat)
    requires c.buffer.RingOk() && Possible(c, run)
    decreases |run|
  {
    run == [] || ((run[0].action == T.Save ==> size <= |run[0].state|)
                  && SavesGrow(Next(c, run[0]), run[1..], LongestAfter(c, run[0], size)))
  }

  /** What is in the buffer or on its way into it fits in `size`, and what is pushed later is not shorter. */
  predicate Sized(c: Config, size: nat) {
    && |c.buffer.deltaBuffer| <= size
    && (Pending(c.threads) ==> |c.buffer.deltaBuffer| <= |c.nextState| <= size)
    && (c.threads.worker in {T.Notifying, T.Processing} ==>
          && |c.buffer.deltaBuffer| <= |c.buffer.current| <= size
          && (Pending(c.threads) ==> |c.buffer.current| <= |c.nextState|))
  }

  /** The operations completed so far are those of the undo history `h`. */
  ghost predicate Tracks(c: Config, start: State, h: History, size: nat)
    requires start.RingOk()
  {
    Atomic(c, start) && Represents(Run(start, c.ops), HistoryRun(h, c.ops, |start.ring|)) && Sized(c, size)
  }

  lemma HistoryStepped(s: State, h: History, op: Op, capacity: nat)
    requires Represents(s, h) && |s.ring| == capacity
    requires op.OpPush? ==> |s.deltaBuffer| <= |op.state|
    ensures StepInBounds(s, op) && RunInBounds(s, [op])
    ensures Represents(Run(s, [op]), HistoryRun(h, [op], capacity))
    ensures |Run(s, [op]).deltaBuffer| == match op case OpPush(x) => |x| case OpPop => |s.deltaBuffer| case OpReset => 0
  {
    match op {
      case OpPush(x) => PushRepresents(s, h, x);
      case OpPop => PopRepresents(s, h);
      case OpReset => ResetRepresents(s);
    }
    OneStep(s, op);
    assert [op][1..] == [];
  }

  /** A pop whose delta fits can always finish. */
  lemma PopsFit(c: Config, start: State, h: History, m: Move, size: nat)
    requires start.RingOk() && c.buffer.RingOk() && Tracks(c, start, h, size)
    requires T.Enabled(c.threads, m.action)
    requires m.action.EndPop? ==> m.action.restored == c.taken
    ensures CanMove(c, m)
  {
    if m.action.EndPop? {
      var s := Run(start, c.ops);
      PopRepresents(s, HistoryRun(h, c.ops, |start.ring|));
      HalvesMakeWholes(s, s.current);
    }
  }

  lemma RunTracks(start: State, h: History, ops: seq<Op>, more: seq<Op>)
    requires start.RingOk() && RunInBounds(start, ops) && |more| <= 1
    requires Represents(Run(start, ops), HistoryRun(h, ops, |start.ring|))
    requires more != [] && more[0].OpPush? ==> |Run(start, ops).deltaBuffer| <= |more[0].state|
    ensures RunInBounds(start, ops + more)
    ensures Represents(Run(start, ops + more), HistoryRun(h, ops + more, |start.ring|))
  {
    if more == [] {
      assert ops + more == ops;
    } else {
      assert more == [more[0]];
      HistoryStepped(Run(start, ops), HistoryRun(h, ops, |start.ring|), more[0], |start.ring|);
      RunJoins(start, ops, more);
      RunConcat(h, ops, more, |start.ring|);
    }
  }

  lemma NextTracks(c: Config, start: State, h: History, m: Move, size: nat)
    requires start.RingOk() && c.buffer.RingOk() && Tracks(c, start, h, size) && CanMove(c, m)
    requires m.action == T.Save ==> size <= |m.state|
    ensures Tracks(Next(c, m), start, h, LongestAfter(c, m, size))
  {
    assert c.buffer.deltaBuffer == Run(start, c.ops).deltaBuffer;
    RunTracks(start, h, c.ops, Completes(c, m));
    NextIsAtomic(c, start, m);
    NextIsSized(c, Run(start, c.ops), m, size);
  }

  lemma NextIsSized(c: Config, s: State, m: Move, size: nat)
    requires T.Control(c.threads) && s.RingOk() && c.buffer.RingOk() && Midway(c, s) && CanMove(c, m)
    requires |s.current| == |s.deltaBuffer| && Sized(c, size)
    requires m.action == T.Save ==> size <= |m.state|
    ensures Sized(Next(c, m), LongestAfter(c, m, size))
  {
  }

  /**
   When saves do not shrink between resets, every run of the two threads and other users of the lock is a run
   of the bounded undo history: whenever nobody holds the lock, the buffer represents what the completed
   operations make of it.
   */
  lemma {:induction false} RunsAreHistories(c: Config, start: State, h: History, run: seq<Move>, size: nat)
    requires start.RingOk() && c.buffer.RingOk() && Tracks(c, start, h, size)
    requires Possible(c, run) && SavesGrow(c, run, size)
    ensures var r := After(c, run);
            r.threads.lock == T.Nobody ==> Represents(r.buffer, HistoryRun(h, r.ops, |start.ring|))
    decreases |run|
  {
    if run != [] {
      NextTracks(c, start, h, run[0], size);
      RunsAreHistories(Next(c, run[0]), start, h, run[1..], LongestAfter(c, run[0], size));
    }
  }

  // ----- What is pushed -----

  /** NextState after write `n`. */
  function WriteOf(c: Config, n: nat): Buffer {
    if 0 < n <= |c.written| then c.written[n - 1] else NOTHING_SAVED
  }

  /** The states pushed by `ops`, in order. */
  function Pushed(ops: seq<Op>): seq<Buffer> {
    if ops == [] then [] else
    var last := ops[|ops| - 1];
    Pushed(ops[..|ops| - 1]) + (if last.OpPush? then [last.state] else [])
  }

  /** Writes and passes of the worker are numbered as the threads number them. */
  ghost predicate Recorded(c: Config) {
    && |c.written| == c.threads.writes && c.nextState == WriteOf(c, c.threads.writes)
    && |Pushed(c.ops)| == c.threads.frames <= |c.threads.serialized|
    && (forall i :: 0 <= i < c.threads.frames ==> Pushed(c.ops)[i] == WriteOf(c, c.threads.serialized[i]))
    && (c.threads.worker in {T.Notifying, T.Processing} ==>
          && c.threads.frames < |c.threads.serialized|
          && c.buffer.current == WriteOf(c, c.threads.serialized[c.threads.frames]))
  }

  lemma PushedNext(ops: seq<Op>, op: Op)
    ensures Pushed(ops + [op]) == Pushed(ops) + (if op.OpPush? then [op.state] else [])
  {
    assert (ops + [op])[..|ops|] == ops;
  }

  lemma WriteIsRecorded(c: Config, m: Move)
    requires T.Invariant(c.threads) && c.buffer.RingOk() && CanMove(c, m) && Recorded(c)
    requires T.WritesNextState(m.action)
    ensures Recorded(Next(c, m))
  {
    PushedNext(c.ops, OpPop);
    var r := Next(c, m);
    assert Pushed(r.ops) == Pushed(c.ops) by {
      assert c.ops + [] == c.ops;
    }
    assert forall n: nat :: n <= |c.written| ==> WriteOf(r, n) == WriteOf(c, n);
  }

  lemma PassIsRecorded(c: Config, m: Move)
    requires T.Control(c.threads) && c.buffer.RingOk() && CanMove(c, m) && Recorded(c)
    requires m.action == T.Process
    ensures Recorded(Next(c, m))
  {
    PushedNext(c.ops, OpPush(c.buffer.current));
    var r := Next(c, m);
    assert r.written == c.written && r.threads.serialized == c.threads.serialized;
    assert forall n: nat :: WriteOf(r, n) == WriteOf(c, n);
  }

  lemma QuietIsRecorded(c: Config, m: Move)
    requires T.Control(c.threads) && c.buffer.RingOk() && CanMove(c, m) && Recorded(c)
    requires !T.WritesNextState(m.action) && m.action != T.Process
    ensures Recorded(Next(c, m))
  {
    PushedNext(c.ops, OpPop);
    PushedNext(c.ops, OpReset);
    var r := Next(c, m);
    assert Pushed(r.ops) == Pushed(c.ops) by {
      assert c.ops + [] == c.ops;
    }
    assert forall n: nat :: WriteOf(r, n) == WriteOf(c, n);
  }

  lemma NextIsRecorded(c: Config, m: Move)
    requires T.Invariant(c.threads) && c.buffer.RingOk() && CanMove(c, m) && Recorded(c)
    ensures Recorded(Next(c, m))
  {
    if T.WritesNextState(m.action) {
      WriteIsRecorded(c, m);
    } else if m.action == T.Process {
      PassIsRecorded(c, m);
    } else {
      QuietIsRecorded(c, m);
    }
  }

  function Actions(run: seq<Move>): (actions: seq<T.Action>)
    ensures |actions| == |run|
  {
    seq(|run|, i requires 0 <= i < |run| => run[i].action)
  }

  /** A run of both threads on the buffer is a run of the handshake, and records what it does. */
  lemma {:induction false} ThreadsOfRun(c: Config, run: seq<Move>)
    requires c.buffer.RingOk() && T.Invariant(c.threads) && Recorded(c) && Possible(c, run)
    ensures T.Possible(c.threads, Actions(run)) && T.After(c.threads, Actions(run)) == After(c, run).threads
    ensures Recorded(After(c, run))
    decreases |run|
  {
    if run != [] {
      NextIsRecorded(c, run[0]);
      T.NextKeepsInvariant(c.threads, run[0].action);
      ThreadsOfRun(Next(c, run[0]), run[1..]);
      assert Actions(run)[1..] == Actions(run[1..]);
    }
  }

  /** The first passes of the worker pushed the states that NextState was when the first requests were made. */
  ghost predicate PushesRequested(c: Config) {
    && |Pushed(c.ops)| == c.threads.frames <= |c.threads.requested|
    && forall i :: 0 <= i < c.threads.frames ==> Pushed(c.ops)[i] == WriteOf(c, c.threads.requested[i])
  }

  lemma FaithfulPushes(c: Config)
    requires T.Invariant(c.threads) && T.Faithful(c.threads) && Recorded(c)
    ensures PushesRequested(c)
  {
  }

  lemma StartIsRecorded(byteOrder: ByteOrder, capacity: nat)
    requires capacity > 0
    ensures Recorded(Start(byteOrder, capacity)) && T.Invariant(T.INITIAL) && T.Faithful(T.INITIAL)
  {
  }

  /**
   From the start on, when NextState is only written while stateProcessed is set, the worker pushes exactly
   the states it was asked to push, each once and in order.
   */
  lemma GuardedRunsPushWhatWasRequested(byteOrder: ByteOrder, capacity: nat, run: seq<Move>)
    requires capacity > 0 && Possible(Start(byteOrder, capacity), run) && T.Guarded(T.INITIAL, Actions(run))
    ensures PushesRequested(After(Start(byteOrder, capacity), run))
  {
    StartIsRecorded(byteOrder, capacity);
    ThreadsOfRun(Start(byteOrder, capacity), run);
    T.EveryRunKeepsInvariant(T.INITIAL, Actions(run));
    T.GuardedRunsAreFaithful(T.INITIAL, Actions(run));
    FaithfulPushes(After(Start(byteOrder, capacity), run));
  }

  // ----- What is saved -----

  /** The states that a run saves, in order. */
  function SavedBy(run: seq<Move>): seq<Buffer> {
    if run == [] then []
    else (if run[0].action == T.Save then [run[0].state] else []) + SavedBy(run[1..])
  }

  /** The states that NextState was when the requests were made, and the one that waits for its request. */
  function Requested(c: Config): seq<Buffer> {
    seq(|c.threads.requested|, i requires 0 <= i < |c.threads.requested| => WriteOf(c, c.threads.requested[i]))
    + (if HandingOver(c.threads) then [WriteOf(c, |c.written|)] else [])
  }

  lemma SaveIsRequested(c: Config, m: Move)
    requires T.Invariant(c.threads) && c.buffer.RingOk() && CanMove(c, m) && Recorded(c) && m.action == T.Save
    ensures Requested(Next(c, m)) == Requested(c) + [m.state]
  {
    var r := Next(c, m);
    assert r.written == c.written + [m.state];
    assert forall n: nat :: n <= |c.written| ==> WriteOf(r, n) == WriteOf(c, n);
  }

  lemma PopIsNotRequested(c: Config, m: Move)
    requires T.Invariant(c.threads) && c.buffer.RingOk() && CanMove(c, m) && Recorded(c) && m.action == T.EndPop(true)
    ensures Requested(Next(c, m)) == Requested(c)
  {
    var r := Next(c, m);
    assert forall n: nat :: n <= |c.written| ==> WriteOf(r, n) == WriteOf(c, n);
  }

  lemma RequestIsRequested(c: Config, m: Move)
    requires c.buffer.RingOk() && CanMove(c, m) && Recorded(c) && m.action == T.Request
    ensures Requested(Next(c, m)) == Requested(c)
  {
    var r := Next(c, m);
    assert r.written == c.written && r.threads.requested == c.threads.requested + [|c.written|];
  }

  lemma QuietRequestsNothing(c: Config, m: Move)
    requires c.buffer.RingOk() && CanMove(c, m) && !T.WritesNextState(m.action) && m.action != T.Request
    ensures Requested(Next(c, m)) == Requested(c)
  {
    var r := Next(c, m);
    assert r.written == c.written && r.threads.requested == c.threads.requested;
    assert HandingOver(r.threads) == HandingOver(c.threads);
  }

  lemma NextIsRequested(c: Config, m: Move)
    requires T.Invariant(c.threads) && c.buffer.RingOk() && CanMove(c, m) && Recorded(c)
    ensures Requested(Next(c, m)) == Requested(c) + (if m.action == T.Save then [m.state] else [])
  {
    if m.action == T.Save {
      SaveIsRequested(c, m);
    } else if m.action == T.EndPop(true) {
      PopIsNotRequested(c, m);
    } else if m.action == T.Request {
      RequestIsRequested(c, m);
    } else {
      QuietRequestsNothing(c, m);
    }
  }

  lemma SavedNext(saved: seq<Buffer>, run: seq<Move>)
    requires run != []
    ensures (saved + (if run[0].action == T.Save then [run[0].state] else [])) + SavedBy(run[1..])
         == saved + SavedBy(run)
  {
    Associate(saved, if run[0].action == T.Save then [run[0].state] else [], SavedBy(run[1..]));
  }

  /** The requests are for the saves, one each and in order, whatever pops write in between. */
  lemma {:induction false} RequestsFollowSaves(c: Config, run: seq<Move>, saved: seq<Buffer>)
    requires c.buffer.RingOk() && T.Invariant(c.threads) && Recorded(c) && Possible(c, run)
    requires saved == Requested(c)
    ensures Requested(After(c, run)) == saved + SavedBy(run)
    decreases |run|
  {
    if run != [] {
      NextIsRequested(c, run[0]);
      NextIsRecorded(c, run[0]);
      T.NextKeepsInvariant(c.threads, run[0].action);
      RequestsFollowSaves(Next(c, run[0]), run[1..], saved + (if run[0].action == T.Save then [run[0].state] else []));
      SavedNext(saved, run);
    }
  }

  lemma PushedAreRequested(c: Config)
    requires T.Control(c.threads) && PushesRequested(c)
    ensures Pushed(c.ops) <= Requested(c) && |Requested(c)| <= |Pushed(c.ops)| + 3
  {
    var pushed := Pushed(c.ops);
    assert forall i :: 0 <= i < |pushed| ==> pushed[i] == Requested(c)[i];
  }

  /**
   From the start on, when NextState is only written while stateProcessed is set: the pushes are the states that
   the emulator saved, in order, each once; at most the last three are still on their way.
   */
  lemma GuardedRunsPushWhatWasSaved(byteOrder: ByteOrder, capacity: nat, run: seq<Move>)
    requires capacity > 0 && Possible(Start(byteOrder, capacity), run) && T.Guarded(T.INITIAL, Actions(run))
    ensures var pushed := Pushed(After(Start(byteOrder, capacity), run).ops);
            pushed <= SavedBy(run) && |SavedBy(run)| <= |pushed| + 3
  {
    GuardedRunsPushWhatWasRequested(byteOrder, capacity, run);
    StartRequests(byteOrder, capacity, run);
    PushedAreRequested(After(Start(byteOrder, capacity), run));
  }

  lemma StartRequests(byteOrder: ByteOrder, capacity: nat, run: seq<Move>)
    requires capacity > 0 && Possible(Start(byteOrder, capacity), run)
    ensures var r := After(Start(byteOrder, capacity), run);
            T.Control(r.threads) && Requested(r) == SavedBy(run)
  {
    StartIsRecorded(byteOrder, capacity);
    NothingRequested(byteOrder, capacity);
    RequestsOfRun(Start(byteOrder, capacity), run, []);
  }

  lemma NothingRequested(byteOrder: ByteOrder, capacity: nat)
    requires capacity > 0
    ensures Requested(Start(byteOrder, capacity)) == []
  {
  }

  lemma RequestsOfRun(c: Config, run: seq<Move>, requested: seq<Buffer>)
    requires c.buffer.RingOk() && T.Invariant(c.threads) && Recorded(c) && Possible(c, run)
    requires requested == Requested(c)
    ensures T.Control(After(c, run).threads) && Requested(After(c, run)) == requested + SavedBy(run)
    ensures requested == [] ==> Requested(After(c, run)) == SavedBy(run)
  {
    RequestsFollowSaves(c, run, requested);
    ThreadsOfRun(c, run);
    T.EveryRunKeepsInvariant(c.threads, Actions(run));
    assert requested == [] ==> requested + SavedBy(run) == SavedBy(run);
  }

  // ----- What is done -----

  datatype Kind = APush | APop | AReset

  function Kinds(ops: seq<Op>): (kinds: seq<Kind>)
    ensures |kinds| == |ops|
  {
    seq(|ops|, i requires 0 <= i < |ops| =>
      match ops[i] case OpPush(_) => APush case OpPop => APop case OpReset => AReset)
  }

  /** The operations that a run finishes. */
  function FinishedBy(run: seq<Move>): seq<Kind> {
    if run == [] then [] else
    (match run[0].action
     case Process => [APush]
     case EndPop(_) => [APop]
     case OtherUnlock => if run[0].reset then [AReset] else []
     case _ => []) + FinishedBy(run[1..])
  }

  /** Each pass of the worker ends in a push, each PopState in a pop, each Reset in a reset, and nothing else does. */
  lemma {:induction false} RunsFinishOperations(c: Config, run: seq<Move>)
    requires c.buffer.RingOk() && Possible(c, run)
    ensures Kinds(After(c, run).ops) == Kinds(c.ops) + FinishedBy(run)
    decreases |run|
  {
    if run != [] {
      RunsFinishOperations(Next(c, run[0]), run[1..]);
      MovesFinishOperations(c, run[0]);
    }
  }

  lemma MovesFinishOperations(c: Config, m: Move)
    requires c.buffer.RingOk() && CanMove(c, m)
    ensures Kinds(Next(c, m).ops) == Kinds(c.ops) + FinishedBy([m])
  {
  }

  // ----- Going back -----

  lemma {:induction false} HistoryBounded(h: History, ops: seq<Op>, capacity: nat)
    requires |h.past| <= capacity
    ensures |HistoryRun(h, ops, capacity).past| <= capacity
    decreases |ops|
  {
    if ops != [] {
      HistoryBounded(HistoryStep(h, ops[0], capacity), ops[1..], capacity);
    }
  }

  /** Between two critical sections, with no operation completed yet, any history the buffer represents is tracked. */
  lemma QuietTracks(c: Config, h: History, size: nat)
    requires T.Invariant(c.threads) && c.threads.lock == T.Nobody && c.ops == []
    requires Represents(c.buffer, h) && |c.buffer.deltaBuffer| <= size
    requires Pending(c.threads) ==> |c.buffer.deltaBuffer| <= |c.nextState| <= size
    ensures Tracks(c, c.buffer, h, size)
  {
  }

  lemma StartTracks(byteOrder: ByteOrder, capacity: nat)
    requires capacity > 0
    ensures Tracks(Start(byteOrder, capacity), Initial(capacity), EMPTY_HISTORY, 0)
  {
    InitialRepresents(capacity);
    StartIsRecorded(byteOrder, capacity);
    QuietTracks(Start(byteOrder, capacity), EMPTY_HISTORY, 0);
  }

  /**
   When saves do not shrink between resets, then in every run from the start the buffer is, whenever nobody holds
   the lock, the undo history of the operations completed.
   */
  lemma RunsFromStartAreHistories(byteOrder: ByteOrder, capacity: nat, run: seq<Move>)
    requires capacity > 0 && Possible(Start(byteOrder, capacity), run) && SavesGrow(Start(byteOrder, capacity), run, 0)
    ensures var r := After(Start(byteOrder, capacity), run);
            r.threads.lock == T.Nobody ==> Represents(r.buffer, HistoryRun(EMPTY_HISTORY, r.ops, capacity))
  {
    StartTracks(byteOrder, capacity);
    RunsAreHistories(Start(byteOrder, capacity), Initial(capacity), EMPTY_HISTORY, run, 0);
  }

  /** So `n` pops go back `n` of the pushes just before them, whatever came earlier and whoever else ran. */
  lemma PopsGoBack(byteOrder: ByteOrder, capacity: nat, run: seq<Move>, earlier: seq<Op>, xs: seq<Buffer>, n: nat)
    requires capacity > 0 && Possible(Start(byteOrder, capacity), run) && SavesGrow(Start(byteOrder, capacity), run, 0)
    requires n < |xs| && n <= capacity
    requires var r := After(Start(byteOrder, capacity), run);
             r.threads.lock == T.Nobody && r.ops == earlier + (Pushes(xs) + Pops(n))
    ensures var r := After(Start(byteOrder, capacity), run).buffer;
            var back := xs[|xs| - 1 - n];
            |back| <= |r.current| && r.current == Padded(back, |r.current|)
  {
    RunsFromStartAreHistories(byteOrder, capacity, run);
    HistoryGoesBack(earlier, xs, n, capacity);
  }

  lemma HistoryGoesBack(earlier: seq<Op>, xs: seq<Buffer>, n: nat, capacity: nat)
    requires n < |xs| && n <= capacity
    ensures HistoryRun(EMPTY_HISTORY, earlier + (Pushes(xs) + Pops(n)), capacity).current == xs[|xs| - 1 - n]
  {
    RunConcat(EMPTY_HISTORY, earlier, Pushes(xs) + Pops(n), capacity);
    HistoryBounded(EMPTY_HISTORY, earlier, capacity);
    HistoryIsLifo(HistoryRun(EMPTY_HISTORY, earlier, capacity), xs, n, capacity);
  }

  lemma {:induction false} OneMoreMove(c: Config, run: seq<Move>, m: Move, size: nat)
    requires c.buffer.RingOk() && Possible(c, run) && CanMove(After(c, run), m)
    requires SavesGrow(c, run, size) && m.action != T.Save
    ensures Possible(c, run + [m]) && After(c, run + [m]) == Next(After(c, run), m)
    ensures SavesGrow(c, run + [m], size)
    decreases |run|
  {
    if run == [] {
      assert [m][1..] == [] && run + [m] == [m];
    } else {
      assert (run + [m])[1..] == run[1..] + [m];
      OneMoreMove(Next(c, run[0]), run[1..], m, LongestAfter(c, run[0], size));
    }
  }

  /** And when the state gone back to has a readable version, the last of these pops leaves it in NextState. */
  lemma PopsRestoreNextState(byteOrder: ByteOrder, capacity: nat, run: seq<Move>, pop: Move,
                             earlier: seq<Op>, xs: seq<Buffer>, n: nat)
    requires capacity > 0 && Possible(Start(byteOrder, capacity), run)
    requires SavesGrow(Start(byteOrder, capacity), run, 0)
    requires pop.action == T.EndPop(true) && CanMove(After(Start(byteOrder, capacity), run), pop)
    requires n < |xs| && n <= capacity && Readable(byteOrder, xs[|xs| - 1 - n])
    requires Next(After(Start(byteOrder, capacity), run), pop).ops == earlier + (Pushes(xs) + Pops(n))
    ensures var state := Next(After(Start(byteOrder, capacity), run), pop).nextState;
            var back := xs[|xs| - 1 - n];
            |back| <= |state| && state == Padded(back, |state|)
  {
    var c := After(Start(byteOrder, capacity), run);
    OneMoreMove(Start(byteOrder, capacity), run, pop, 0);
    SameByteOrder(Start(byteOrder, capacity), run);
    PopsGoBack(byteOrder, capacity, run + [pop], earlier, xs, n);
    PopLoads(c, pop, xs[|xs| - 1 - n]);
  }

  lemma PopLoads(c: Config, pop: Move, back: Buffer)
    requires c.buffer.RingOk() && pop.action == T.EndPop(true) && CanMove(c, pop) && Readable(c.byteOrder, back)
    requires var current := Next(c, pop).buffer.current; |back| <= |current| && current == Padded(back, |current|)
    ensures Next(c, pop).nextState == Next(c, pop).buffer.current
  {
    LoadedExactly(c.byteOrder, c.nextState, XorNext(c.buffer).current);
  }

  lemma {:induction false} SameByteOrder(c: Config, run: seq<Move>)
    requires c.buffer.RingOk() && Possible(c, run)
    ensures After(c, run).byteOrder == c.byteOrder
    decreases |run|
  {
    if run != [] {
      SameByteOrder(Next(c, run[0]), run[1..]);
    }
  }
}
