/**
 The emulator thread and the rewind worker between one Start and one Stop, as a state machine over the
 atomic actions of RewindBuffer::ProcessState, RewindBuffer::ProcThread, RewindBuffer::PopState and the
 rewind part of App::EmulatorThread. Events are flags that stay set until they are reset.
 */
module RewindHandshake {

  /** Where the emulator thread is. */
  datatype EmulatorPc =
    | Idle       // running frames
    | Saved      // NextState saved, about to wait for stateProcessed
    | Woken      // about to reset stateProcessed
    | Consumed   // about to set nextState
    | Popping    // in PopState, holding the lock

  /** Where the worker thread is. */
  datatype WorkerPc =
    | Waiting     // for nextState
    | Signaled    // about to reset nextState
    | Locking     // about to take the lock
    | Serializing // about to serialize NextState
    | Notifying   // about to set stateProcessed
    | Processing  // computing the delta; the lock is released at the end

  datatype Holder = Nobody | Emulator | Worker | Other

  datatype State = State(
    emulator: EmulatorPc,
    worker: WorkerPc,
    nextState: bool,
    stateProcessed: bool,
    lock: Holder,
    // history: writes to NextState are numbered 1, 2, 3, ...
    writes: nat,
    requested: seq<nat>,  // for each ProcessState, the write it asks to be pushed
    serialized: seq<nat>, // for each pass of the worker, the write it found in NextState
    frames: nat)          // passes completed

  const INITIAL := State(Idle, Waiting, false, true, Nobody, 0, [], [], 0)

  datatype Action =
    | Save | AwaitProcessed | ResetProcessed | Request
    | BeginPop | EndPop(restored: bool)
    | AwaitNext | ResetNext | TakeLock | Serialize | Notify | Process
    | OtherLock | OtherUnlock

  predicate Enabled(s: State, a: Action) {
    match a
    case Save => s.emulator == Idle
    case AwaitProcessed => s.emulator == Saved && s.stateProcessed
    case ResetProcessed => s.emulator == Woken
    case Request => s.emulator == Consumed
    case BeginPop => s.emulator == Idle && s.lock == Nobody
    case EndPop(_) => s.emulator == Popping
    case AwaitNext => s.worker == Waiting && s.nextState
    case ResetNext => s.worker == Signaled
    case TakeLock => s.worker == Locking && s.lock == Nobody
    case Serialize => s.worker == Serializing
    case Notify => s.worker == Notifying
    case Process => s.worker == Processing
    case OtherLock => s.lock == Nobody
    case OtherUnlock => s.lock == Other
  }

  function Next(s: State, a: Action): State {
    match a
    case Save => s.(emulator := Saved, writes := s.writes + 1)
    case AwaitProcessed => s.(emulator := Woken)
    case ResetProcessed => s.(emulator := Consumed, stateProcessed := false)
    case Request => s.(emulator := Idle, nextState := true, requested := s.requested + [s.writes])
    case BeginPop => s.(emulator := Popping, lock := Emulator)
    case EndPop(restored) =>
      s.(emulator := Idle, lock := Nobody, writes := if restored then s.writes + 1 else s.writes)
    case AwaitNext => s.(worker := Signaled)
    case ResetNext => s.(worker := Locking, nextState := false)
    case TakeLock => s.(worker := Serializing, lock := Worker)
    case Serialize => s.(worker := Notifying, serialized := s.serialized + [s.writes])
    case Notify => s.(worker := Processing, stateProcessed := true)
    case Process => s.(worker := Waiting, lock := Nobody, frames := s.frames + 1)
    case OtherLock => s.(lock := Other)
    case OtherUnlock => s.(lock := Nobody)
  }

  predicate Possible(s: State, run: seq<Action>)
    decreases |run|
  {
    run == [] || (Enabled(s, run[0]) && Possible(Next(s, run[0]), run[1..]))
  }

  function After(s: State, run: seq<Action>): State
    decreases |run|
  {
    if run == [] then s else After(Next(s, run[0]), run[1..])
  }

  function One(b: bool): nat { if b then 1 else 0 }

  /** A state was handed over and has not been serialized yet. */
  predicate Outstanding(s: State) {
    s.nextState || s.worker == Locking || s.worker == Serializing
  }

  /** The right to hand over a state exists exactly once. */
  predicate SingleToken(s: State) {
    One(s.stateProcessed) + One(s.emulator == Consumed) + One(s.nextState)
    + One(s.worker in {Locking, Serializing, Notifying}) == 1
  }

  /** Program counters, events, the lock and the number of frames agree with each other. */
  predicate Control(s: State) {
    && SingleToken(s)
    && (s.emulator == Woken ==> s.stateProcessed)
    && (s.worker == Signaled ==> s.nextState)
    && (s.lock == Emulator <==> s.emulator == Popping)
    && (s.lock == Worker <==> s.worker in {Serializing, Notifying, Processing})
    // every request is serialized once, in order, and every serialized state is processed once
    && |s.requested| == |s.serialized| + One(Outstanding(s))
    && |s.serialized| == s.frames + One(s.worker in {Notifying, Processing})
  }

  /** What is serialized is the requested write or a later one, but never later than the next request. */
  ghost predicate Ordered(s: State) {
    && (forall i :: 0 <= i < |s.requested| ==> s.requested[i] <= s.writes)
    && (forall i :: 0 <= i < |s.serialized| ==> i < |s.requested| && s.requested[i] <= s.serialized[i] <= s.writes)
    && (forall i :: 0 <= i < |s.serialized| && i + 1 < |s.requested| ==> s.serialized[i] <= s.requested[i + 1])
  }

  ghost predicate Invariant(s: State) { Control(s) && Ordered(s) }

  lemma NextKeepsControl(s: State, a: Action)
    requires Control(s) && Enabled(s, a)
    ensures Control(Next(s, a))
  {
  }

  lemma NextKeepsOrder(s: State, a: Action)
    requires Control(s) && Ordered(s) && Enabled(s, a)
    ensures Ordered(Next(s, a))
  {
    if a == Serialize {
      SerializeKeepsOrder(s);
    } else if a == Request {
      RequestKeepsOrder(s);
    } else {
      assert Next(s, a).requested == s.requested && Next(s, a).serialized == s.serialized;
    }
  }

  lemma SerializeKeepsOrder(s: State)
    requires Control(s) && Ordered(s) && Enabled(s, Serialize)
    ensures Ordered(Next(s, Serialize))
  {
  }

  lemma RequestKeepsOrder(s: State)
    requires Control(s) && Ordered(s) && Enabled(s, Request)
    ensures Ordered(Next(s, Request))
  {
  }

  lemma NextKeepsInvariant(s: State, a: Action)
    requires Invariant(s) && Enabled(s, a)
    ensures Invariant(Next(s, a))
  {
    NextKeepsControl(s, a);
    NextKeepsOrder(s, a);
  }

  /** What holds throughout every interleaving of pushes, pops and other users of the lock. */
  lemma {:induction false} EveryRunKeepsInvariant(s: State, run: seq<Action>)
    requires Invariant(s) && Possible(s, run)
    ensures Invariant(After(s, run))
    decreases |run|
  {
    if run != [] {
      NextKeepsInvariant(s, run[0]);
      EveryRunKeepsInvariant(Next(s, run[0]), run[1..]);
    }
  }

  /** In particular in every state a run can reach from the start. */
  lemma ReachableStatesKeepInvariant(run: seq<Action>)
    requires Possible(INITIAL, run)
    ensures Invariant(After(INITIAL, run))
  {
    EveryRunKeepsInvariant(INITIAL, run);
  }

  // ----- Nobody waits forever -----

  predicate ByWorker(a: Action) {
    a in {AwaitNext, ResetNext, TakeLock, Serialize, Notify, Process}
  }

  predicate ByEmulator(a: Action) {
    a in {Save, AwaitProcessed, ResetProcessed, Request, BeginPop} || a.EndPop?
  }

  /**
   A thread is blocked only while the other one, or the holder of the lock, can go on: an emulator waiting
   for stateProcessed has a worker that can step or a lock to be released, and a worker that cannot step
   waits for the lock or for an emulator that has nothing outstanding.
   */
  lemma NoDeadlock(s: State)
    requires Invariant(s)
    ensures (s.emulator == Saved && !s.stateProcessed ==>
              (exists a :: ByWorker(a) && Enabled(s, a)) || Enabled(s, OtherUnlock))
    ensures (forall a :: ByWorker(a) ==> !Enabled(s, a)) ==>
              || Enabled(s, OtherUnlock) || Enabled(s, EndPop(true))
              || (!Outstanding(s) && exists a :: ByEmulator(a) && Enabled(s, a))
  {
    var w := match s.worker
             case Waiting => AwaitNext case Signaled => ResetNext case Locking => TakeLock
             case Serializing => Serialize case Notifying => Notify case Processing => Process;
    var e := match s.emulator
             case Idle => Save case Saved => AwaitProcessed case Woken => ResetProcessed
             case Consumed => Request case Popping => EndPop(true);
    assert ByWorker(w) && ByEmulator(e);
    assert Enabled(s, w) || s.worker == Waiting || s.worker == Locking;
    assert Enabled(s, e) || (s.emulator == Saved && !s.stateProcessed);
  }

  /** Worker actions still needed until the outstanding request is serialized. */
  function Distance(s: State): nat {
    match s.worker
    case Notifying => 6
    case Processing => 5
    case Waiting => 4
    case Signaled => 3
    case Locking => 2
    case Serializing => 1
  }

  function WorkerActions(run: seq<Action>): nat {
    if run == [] then 0 else One(ByWorker(run[0])) + WorkerActions(run[1..])
  }

  /** No request is lost: four actions of the worker (five while it still processes a frame) serve it. */
  lemma {:induction false} RequestIsServed(s: State, run: seq<Action>)
    requires Invariant(s) && Outstanding(s) && Possible(s, run)
    requires Distance(s) <= WorkerActions(run)
    ensures |s.requested| <= |After(s, run).serialized|
    decreases |run|
  {
    if run != [] {
      var s' := Next(s, run[0]);
      NextKeepsInvariant(s, run[0]);
      if Outstanding(s') {
        RequestIsServed(s', run[1..]);
      } else {
        SerializedGrows(s', run[1..]);
      }
    }
  }

  /** Nor is it pushed late: two actions more, and the worker has processed it. */
  lemma {:induction false} RequestIsProcessed(s: State, run: seq<Action>)
    requires Invariant(s) && Outstanding(s) && Possible(s, run)
    requires Distance(s) + 2 <= WorkerActions(run)
    ensures |s.requested| <= After(s, run).frames
    decreases |run|
  {
    if run != [] {
      var s' := Next(s, run[0]);
      NextKeepsInvariant(s, run[0]);
      if Outstanding(s') {
        RequestIsProcessed(s', run[1..]);
      } else {
        SerializedIsProcessed(s', run[1..]);
      }
    }
  }

  /** Actions the worker needs to finish the frame it has serialized. */
  function Unfinished(s: State): nat {
    match s.worker
    case Notifying => 2
    case Processing => 1
    case _ => 0
  }

  lemma {:induction false} SerializedIsProcessed(s: State, run: seq<Action>)
    requires Invariant(s) && Possible(s, run) && Unfinished(s) <= WorkerActions(run)
    ensures |s.serialized| <= After(s, run).frames
    decreases |run|
  {
    if Unfinished(s) == 0 {
      FramesGrow(s, run);
    } else {
      NextKeepsInvariant(s, run[0]);
      SerializedIsProcessed(Next(s, run[0]), run[1..]);
    }
  }

  lemma {:induction false} FramesGrow(s: State, run: seq<Action>)
    ensures s.frames <= After(s, run).frames
    decreases |run|
  {
    if run != [] {
      FramesGrow(Next(s, run[0]), run[1..]);
    }
  }

  lemma {:induction false} SerializedGrows(s: State, run: seq<Action>)
    ensures s.serialized <= After(s, run).serialized
    decreases |run|
  {
    if run != [] {
      SerializedGrows(Next(s, run[0]), run[1..]);
    }
  }

  // ----- Which state gets serialized -----

  /** Every request so far got, or will get unless NextState is written again, the state it asked for. */
  ghost predicate Faithful(s: State) {
    && (forall i :: 0 <= i < |s.serialized| && i < |s.requested| ==> s.serialized[i] == s.requested[i])
    && (Outstanding(s) && s.requested != [] ==> s.requested[|s.requested| - 1] == s.writes)
  }

  predicate WritesNextState(a: Action) {
    a == Save || a == EndPop(true)
  }

  /** Some action of the run writes NextState while a request is outstanding. */
  predicate Overwrites(s: State, run: seq<Action>)
    decreases |run|
  {
    run != [] && ((WritesNextState(run[0]) && Outstanding(s)) || Overwrites(Next(s, run[0]), run[1..]))
  }

  lemma FaithfulStep(s: State, a: Action)
    requires Invariant(s) && Enabled(s, a)
    ensures Faithful(Next(s, a)) <==> Faithful(s) && !(WritesNextState(a) && Outstanding(s))
  {
    if a == Serialize {
      FaithfulSerialize(s);
    } else if a == Request {
      FaithfulRequest(s);
    } else if WritesNextState(a) {
      FaithfulWrite(s, a);
    } else {
      FaithfulQuiet(s, a);
    }
  }

  lemma FaithfulWrite(s: State, a: Action)
    requires Invariant(s) && Enabled(s, a) && WritesNextState(a)
    ensures Faithful(Next(s, a)) <==> Faithful(s) && !Outstanding(s)
  {
    var r := Next(s, a);
    assert r.requested == s.requested && r.serialized == s.serialized && Outstanding(r) == Outstanding(s);
    assert Outstanding(s) ==> s.requested[|s.requested| - 1] < r.writes;
  }

  lemma FaithfulQuiet(s: State, a: Action)
    requires Invariant(s) && Enabled(s, a)
    requires a != Serialize && a != Request && !WritesNextState(a)
    ensures Faithful(Next(s, a)) <==> Faithful(s)
  {
    var r := Next(s, a);
    assert r.requested == s.requested && r.serialized == s.serialized && r.writes == s.writes;
    assert Outstanding(r) == Outstanding(s);
  }

  lemma FaithfulSerialize(s: State)
    requires Invariant(s) && Enabled(s, Serialize)
    ensures Faithful(Next(s, Serialize)) <==> Faithful(s)
  {
    var n := |s.serialized|;
    var longer := Next(s, Serialize).serialized;
    assert longer[n] == s.writes && |s.requested| == n + 1;
    assert forall i :: 0 <= i < n ==> longer[i] == s.serialized[i];
  }

  lemma FaithfulRequest(s: State)
    requires Invariant(s) && Enabled(s, Request)
    ensures Faithful(Next(s, Request)) <==> Faithful(s)
  {
    var n := |s.serialized|;
    var longer := Next(s, Request).requested;
    assert longer[n] == s.writes && |s.requested| == n;
    assert forall i :: 0 <= i < n ==> longer[i] == s.requested[i];
  }

  /**
   The worker pushes exactly the states it was asked to push if and only if no save and no successful pop
   happens between a hand-over and its serialization.
   */
  lemma {:induction false} FaithfulExactlyWhenNotOverwritten(s: State, run: seq<Action>)
    requires Invariant(s) && Faithful(s) && Possible(s, run)
    ensures Faithful(After(s, run)) <==> !Overwrites(s, run)
    decreases |run|
  {
    if run != [] {
      FaithfulStep(s, run[0]);
      NextKeepsInvariant(s, run[0]);
      if Faithful(Next(s, run[0])) {
        FaithfulExactlyWhenNotOverwritten(Next(s, run[0]), run[1..]);
      } else {
        UnfaithfulForever(Next(s, run[0]), run[1..]);
      }
    }
  }

  lemma {:induction false} UnfaithfulForever(s: State, run: seq<Action>)
    requires Invariant(s) && !Faithful(s) && Possible(s, run)
    ensures !Faithful(After(s, run))
    decreases |run|
  {
    if run != [] {
      FaithfulStep(s, run[0]);
      NextKeepsInvariant(s, run[0]);
      UnfaithfulForever(Next(s, run[0]), run[1..]);
    }
  }

  // ----- What the emulator can check -----

  /**
   To the emulator thread, between its calls or in PopState, a request is outstanding exactly while
   stateProcessed is not set, except for the moment in which the worker is about to set it.
   */
  lemma OutstandingIsVisible(s: State)
    requires Invariant(s) && s.emulator in {Idle, Popping}
    ensures Outstanding(s) <==> !s.stateProcessed && s.worker != Notifying
    ensures s.emulator == Popping ==> s.worker != Notifying
  {
  }

  /** NextState is only written while stateProcessed is set. */
  predicate Guarded(s: State, run: seq<Action>)
    decreases |run|
  {
    run != [] ==>
      && (WritesNextState(run[0]) ==> s.stateProcessed)
      && Guarded(Next(s, run[0]), run[1..])
  }

  /** With that guard before every save and every restoring pop, the worker pushes what it was asked to push. */
  lemma {:induction false} GuardedRunsAreFaithful(s: State, run: seq<Action>)
    requires Invariant(s) && Faithful(s) && Possible(s, run) && Guarded(s, run)
    ensures !Overwrites(s, run) && Faithful(After(s, run))
    decreases |run|
  {
    if run != [] {
      if WritesNextState(run[0]) {
        OutstandingIsVisible(s);
      }
      FaithfulStep(s, run[0]);
      NextKeepsInvariant(s, run[0]);
      GuardedRunsAreFaithful(Next(s, run[0]), run[1..]);
    }
  }

  /** Waiting for the guard is safe: until it holds, the worker or the holder of the lock can go on. */
  lemma GuardComes(s: State)
    requires Invariant(s) && s.emulator == Idle && !s.stateProcessed
    ensures (exists a :: ByWorker(a) && Enabled(s, a)) || Enabled(s, OtherUnlock)
  {
    assert s.worker != Waiting || s.nextState;
    NoDeadlock(s.(emulator := Saved));
    forall a | ByWorker(a) && Enabled(s.(emulator := Saved), a)
      ensures Enabled(s, a)
    {
    }
  }

  lemma Go(s: State, run: seq<Action>, a: Action, rest: seq<Action>)
    requires run == [a] + rest && Enabled(s, a)
    ensures Possible(s, run) == Possible(Next(s, a), rest)
    ensures After(s, run) == After(Next(s, a), rest)
  {
    assert run[1..] == rest;
  }

  const PROCESS_STATE := [AwaitProcessed, ResetProcessed, Request]
  const PASS := [AwaitNext, ResetNext, TakeLock, Serialize, Notify, Process]

  /** ProcessState asks for the state NextState holds now. */
  lemma RunProcessState(s: State)
    requires s.emulator == Saved && s.stateProcessed
    ensures Possible(s, PROCESS_STATE)
    ensures After(s, PROCESS_STATE) == s.(emulator := Idle, stateProcessed := false, nextState := true,
                                          requested := s.requested + [s.writes])
  {
    Go(s, PROCESS_STATE, AwaitProcessed, PROCESS_STATE[1..]);
    Go(After(s, [AwaitProcessed]), PROCESS_STATE[1..], ResetProcessed, [Request]);
  }

  /** One pass of the worker pushes what NextState holds when the pass serializes it. */
  lemma RunPass(s: State)
    requires s.worker == Waiting && s.nextState && s.lock == Nobody
    ensures Possible(s, PASS)
    ensures After(s, PASS) == s.(nextState := false, stateProcessed := true,
                                 serialized := s.serialized + [s.writes], frames := s.frames + 1)
  {
    var s1 := Next(s, AwaitNext);
    var s2 := Next(s1, ResetNext);
    var s3 := Next(s2, TakeLock);
    var s4 := Next(s3, Serialize);
    Go(s, PASS, AwaitNext, PASS[1..]);
    Go(s1, PASS[1..], ResetNext, PASS[2..]);
    Go(s2, PASS[2..], TakeLock, PASS[3..]);
    Go(s3, PASS[3..], Serialize, PASS[4..]);
    Go(s4, PASS[4..], Notify, [Process]);
  }

  /** Emulator and worker are both between two frames. */
  predicate Quiet(s: State) {
    s.emulator == Idle && s.worker == Waiting && !s.nextState && s.stateProcessed && s.lock == Nobody
  }

  /** Hand over the saved state and let the worker push it. */
  lemma PushSaved(s: State) returns (run: seq<Action>)
    requires s.emulator == Saved && s.worker == Waiting && s.stateProcessed && s.lock == Nobody
    ensures Possible(s, run)
    ensures After(s, run) == s.(emulator := Idle, stateProcessed := true, nextState := false,
                                requested := s.requested + [s.writes],
                                serialized := s.serialized + [s.writes], frames := s.frames + 1)
  {
    RunProcessState(s);
    var s1 := After(s, PROCESS_STATE);
    RunPass(s1);
    run := Append(s, PROCESS_STATE, s1, PASS);
  }

  /** Save, hand over, and save again. */
  lemma SaveTwice(s: State) returns (run: seq<Action>)
    requires Quiet(s)
    ensures Possible(s, run)
    ensures After(s, run) == s.(emulator := Saved, stateProcessed := false, nextState := true, writes := s.writes + 2,
                                requested := s.requested + [s.writes + 1])
  {
    var s1 := Next(s, Save);
    Go(s, [Save], Save, []);
    RunProcessState(s1);
    var s2 := After(s1, PROCESS_STATE);
    run := Append(s, [Save], s1, PROCESS_STATE);
    Go(s2, [Save], Save, []);
    run := Append(s, run, s2, [Save]);
  }

  /**
   SaveState comes before the wait, so the emulator can save its second frame before the worker has
   serialized the first: the first is then never pushed and the second is pushed twice.
   */
  lemma SecondSaveCanReplaceFirst(s: State) returns (run: seq<Action>)
    requires Quiet(s)
    ensures Possible(s, run)
    ensures After(s, run).requested == s.requested + [s.writes + 1, s.writes + 2]
    ensures After(s, run).serialized == s.serialized + [s.writes + 2, s.writes + 2]
  {
    var first := SaveTwice(s);
    var s1 := After(s, first);
    RunPass(s1);
    var s2 := After(s1, PASS);
    var second := PushSaved(s2);
    run := Append(s1, PASS, s2, second);
    run := Append(s, first, s1, run);
  }

  lemma Append(s: State, a: seq<Action>, middle: State, b: seq<Action>) returns (run: seq<Action>)
    requires Possible(s, a) && After(s, a) == middle && Possible(middle, b)
    ensures Possible(s, run) && After(s, run) == After(middle, b)
  {
    run := a + b;
    AfterConcat(s, a, b);
  }

  lemma {:induction false} AfterConcat(s: State, a: seq<Action>, b: seq<Action>)
    requires Possible(s, a) && Possible(After(s, a), b)
    ensures Possible(s, a + b) && After(s, a + b) == After(After(s, a), b)
    decreases |a|
  {
    if a == [] {
      assert a + b == b;
    } else {
      assert (a + b)[1..] == a[1..] + b;
      AfterConcat(Next(s, a[0]), a[1..], b);
    }
  }
}
