/**
 The way of audio frames through the web build: the bridge's ring, messages in flight to the audio thread, the
 worklet's ring, and the output. Each step is the contract of the method of AudioRings named beside it.
 */
module AudioPipeline {
  import opened AudioRings
  import opened Common

  type F = Frame<Sample>

  datatype Output = Played(frame: F) | Silence

  datatype Pipe = Pipe(
    ring: seq<F>,           // AudioBridge.Contents
    inFlight: seq<seq<F>>,  // messages posted and not delivered yet
    queue: seq<F>,          // AudioWorklet.Contents before scaling
    input: seq<F>,          // history: every frame the emulator produced
    output: seq<Output>)    // history: every frame of every output block

  const EMPTY := Pipe([], [], [], [], [])

  datatype Action =
    | Produce(frame: F)      // AudioBridge.OnAudioSample
    | Pump(maxFrames: nat)   // AudioBridge.ReadAudio, posting what it returns
    | Deliver                // AudioWorklet.OnMessage
    | Play(length: nat)      // AudioWorklet.Process

  function Block(queue: seq<F>, length: nat): (out: seq<Output>)
    ensures |out| == length
  {
    seq(length, k requires 0 <= k => if k < |queue| then Played(queue[k]) else Silence)
  }

  function Next(p: Pipe, a: Action): Pipe {
    match a
    case Produce(f) => p.(ring := LastN(p.ring + [f], BRIDGE_FRAMES), input := p.input + [f])
    case Pump(max) =>
      var n := Min(max, |p.ring|);
      p.(ring := p.ring[n..], inFlight := p.inFlight + [p.ring[..n]])
    case Deliver =>
      if p.inFlight == [] then p
      else p.(inFlight := p.inFlight[1..], queue := LastN(p.queue + p.inFlight[0], WORKLET_FRAMES))
    case Play(length) =>
      p.(queue := p.queue[Min(length, |p.queue|)..], output := p.output + Block(p.queue, length))
  }

  function After(p: Pipe, run: seq<Action>): Pipe
    decreases |run|
  {
    if run == [] then p else After(Next(p, run[0]), run[1..])
  }

  /** The action makes one of the two rings drop frames. */
  predicate Overflow(p: Pipe, a: Action) {
    match a
    case Produce(_) => |p.ring| >= BRIDGE_FRAMES
    case Deliver => p.inFlight != [] && |p.queue| + |p.inFlight[0]| > WORKLET_FRAMES
    case _ => false
  }

  predicate Overflows(p: Pipe, run: seq<Action>)
    decreases |run|
  {
    run != [] && (Overflow(p, run[0]) || Overflows(Next(p, run[0]), run[1..]))
  }

  // ----- Frames on their way, oldest first -----

  function Flat(chunks: seq<seq<F>>): seq<F> {
    if chunks == [] then [] else chunks[0] + Flat(chunks[1..])
  }

  /** The output without the padding. */
  function Audible(output: seq<Output>): seq<F> {
    if output == [] then []
    else Audible(output[..|output| - 1]) +
         (match output[|output| - 1] case Played(f) => [f] case Silence => [])
  }

  function Kept(p: Pipe): seq<F> {
    Audible(p.output) + p.queue + Flat(p.inFlight) + p.ring
  }

  lemma {:induction false} FlatAppend(chunks: seq<seq<F>>, chunk: seq<F>)
    ensures Flat(chunks + [chunk]) == Flat(chunks) + chunk
  {
    if chunks == [] {
      assert chunks + [chunk] == [chunk] && Flat([chunk]) == chunk + Flat([]);
    } else {
      assert (chunks + [chunk])[1..] == chunks[1..] + [chunk];
      FlatAppend(chunks[1..], chunk);
    }
  }

  lemma {:induction false} AudibleBlock(output: seq<Output>, queue: seq<F>, length: nat)
    ensures Audible(output + Block(queue, length)) == Audible(output) + queue[..Min(length, |queue|)]
  {
    if length == 0 {
      assert output + Block(queue, length) == output;
    } else {
      var longer := output + Block(queue, length);
      assert longer[..|longer| - 1] == output + Block(queue, length - 1);
      AudibleBlock(output, queue, length - 1);
    }
  }

  // ----- In-order subsequences -----

  /** `a` is what `b` has at the increasing positions `f`. */
  ghost predicate Embeds(f: seq<nat>, a: seq<F>, b: seq<F>) {
    && |f| == |a|
    && (forall i, j :: 0 <= i < j < |f| ==> f[i] < f[j])
    && (forall i :: 0 <= i < |f| ==> f[i] < |b| && a[i] == b[f[i]])
  }

  ghost predicate Subsequence(a: seq<F>, b: seq<F>) {
    exists f: seq<nat> :: Embeds(f, a, b)
  }

  lemma SubsequenceAppend(a: seq<F>, b: seq<F>, x: F)
    requires Subsequence(a, b)
    ensures Subsequence(a + [x], b + [x])
  {
    var f: seq<nat> :| Embeds(f, a, b);
    assert Embeds(f + [|b|], a + [x], b + [x]);
  }

  lemma SubsequenceDrop(a: seq<F>, dropped: seq<F>, c: seq<F>, b: seq<F>)
    requires Subsequence(a + dropped + c, b)
    ensures Subsequence(a + c, b)
  {
    var f: seq<nat> :| Embeds(f, a + dropped + c, b);
    var g := f[..|a|] + f[|a| + |dropped|..];
    assert Embeds(g, a + c, b);
  }

  /** What a run of the pipeline keeps. */
  ghost predicate InOrder(p: Pipe) {
    Subsequence(Kept(p), p.input) && |Kept(p)| <= |p.input|
  }

  lemma KeptProduce(p: Pipe, f: F)
    requires InOrder(p)
    ensures var r := Next(p, Produce(f));
            && InOrder(r)
            && |r.input| - |Kept(r)| == |p.input| - |Kept(p)| + |p.ring| + 1 - |r.ring|
            && (|p.ring| < BRIDGE_FRAMES ==> Kept(r) == Kept(p) + [f])
  {
    var r := Next(p, Produce(f));
    SubsequenceAppend(Kept(p), p.input, f);
    var before := Audible(p.output) + p.queue + Flat(p.inFlight);
    var longer := p.ring + [f];
    var dropped := longer[..|longer| - |r.ring|];
    assert Kept(p) + [f] == before + dropped + r.ring;
    SubsequenceDrop(before, dropped, r.ring, r.input);
  }

  lemma KeptDeliver(p: Pipe)
    requires InOrder(p) && p.inFlight != []
    ensures var r := Next(p, Deliver);
            && InOrder(r)
            && |Kept(r)| <= |Kept(p)|
            && (if Overflow(p, Deliver) then |Kept(r)| < |Kept(p)| else Kept(r) == Kept(p))
  {
    DropOldest(Audible(p.output), p.queue, p.inFlight[0], Flat(p.inFlight[1..]), p.ring, p.input);
  }

  lemma DropOldest(heard: seq<F>, queue: seq<F>, chunk: seq<F>, flight: seq<F>, ring: seq<F>, b: seq<F>)
    requires Subsequence(heard + queue + (chunk + flight) + ring, b)
    ensures Subsequence(heard + LastN(queue + chunk, WORKLET_FRAMES) + flight + ring, b)
    ensures |queue| + |chunk| <= WORKLET_FRAMES ==>
      heard + LastN(queue + chunk, WORKLET_FRAMES) + flight + ring == heard + queue + (chunk + flight) + ring
  {
    var longer := queue + chunk;
    var kept := LastN(longer, WORKLET_FRAMES);
    var dropped := longer[..|longer| - |kept|];
    assert longer == dropped + kept;
    var tail := kept + (flight + ring);
    assert heard + queue + (chunk + flight) + ring == heard + dropped + tail by {
      Regroup(heard, queue, chunk, flight, ring);
      Regroup(heard, dropped, kept, flight, ring);
      assert heard + dropped + (kept + flight) + ring == heard + dropped + tail;
    }
    SubsequenceDrop(heard, dropped, tail, b);
    assert heard + kept + flight + ring == heard + tail;
  }

  lemma Regroup(a: seq<F>, b: seq<F>, c: seq<F>, d: seq<F>, e: seq<F>)
    ensures a + b + (c + d) + e == a + (b + c) + (d + e)
  {
  }

  lemma KeptPump(p: Pipe, max: nat)
    ensures Kept(Next(p, Pump(max))) == Kept(p)
  {
    var n := Min(max, |p.ring|);
    FlatAppend(p.inFlight, p.ring[..n]);
    assert p.ring == p.ring[..n] + p.ring[n..];
  }

  lemma KeptPlay(p: Pipe, length: nat)
    ensures Kept(Next(p, Play(length))) == Kept(p)
  {
    var n := Min(length, |p.queue|);
    AudibleBlock(p.output, p.queue, length);
    MoveSplit(Audible(p.output), p.queue, n);
  }

  lemma MoveSplit(a: seq<F>, b: seq<F>, n: nat)
    requires n <= |b|
    ensures a + b[..n] + b[n..] == a + b
  {
  }

  lemma NextKeeps(p: Pipe, a: Action)
    requires InOrder(p)
    ensures var r := Next(p, a);
            && InOrder(r)
            && (Overflow(p, a) || |Kept(p)| < |p.input| ==> |Kept(r)| < |r.input|)
            && (!Overflow(p, a) && Kept(p) == p.input ==> Kept(r) == r.input)
  {
    match a
    case Produce(f) => KeptProduce(p, f);
    case Pump(max) => KeptPump(p, max);
    case Deliver => if p.inFlight != [] { KeptDeliver(p); }
    case Play(length) => KeptPlay(p, length);
  }

  /**
   For every interleaving of production, messages and playback, the frames heard and the frames still on their
   way are an in-order subsequence of the frames produced.
   */
  lemma {:induction false} EveryRunStaysInOrder(p: Pipe, run: seq<Action>)
    requires InOrder(p)
    ensures InOrder(After(p, run))
    decreases |run|
  {
    if run != [] {
      NextKeeps(p, run[0]);
      EveryRunStaysInOrder(Next(p, run[0]), run[1..]);
    }
  }

  /** So is what is heard. */
  lemma HeardIsSubsequence(run: seq<Action>)
    ensures Subsequence(Audible(After(EMPTY, run).output), After(EMPTY, run).input)
  {
    EmptyInOrder();
    EveryRunStaysInOrder(EMPTY, run);
    var p := After(EMPTY, run);
    SubsequencePrefix(Audible(p.output), p.queue, Flat(p.inFlight), p.ring, p.input);
  }

  lemma SubsequencePrefix(a: seq<F>, b: seq<F>, c: seq<F>, d: seq<F>, whole: seq<F>)
    requires Subsequence(a + b + c + d, whole)
    ensures Subsequence(a, whole)
  {
    var rest := b + c + d;
    assert a + b + c + d == a + rest + [];
    SubsequenceDrop(a, rest, [], whole);
    assert a + [] == a;
  }

  lemma EmptyInOrder()
    ensures InOrder(EMPTY) && Kept(EMPTY) == EMPTY.input
  {
    assert Embeds([], Kept(EMPTY), EMPTY.input);
  }

  /** Nothing is lost if and only if neither ring ever overflows. */
  lemma {:induction false} LosslessExactly(p: Pipe, run: seq<Action>)
    requires InOrder(p) && Kept(p) == p.input
    ensures Kept(After(p, run)) == After(p, run).input <==> !Overflows(p, run)
    decreases |run|
  {
    if run != [] {
      NextKeeps(p, run[0]);
      if Overflow(p, run[0]) {
        LostForever(Next(p, run[0]), run[1..]);
      } else {
        LosslessExactly(Next(p, run[0]), run[1..]);
      }
    }
  }

  lemma {:induction false} LostForever(p: Pipe, run: seq<Action>)
    requires InOrder(p) && |Kept(p)| < |p.input|
    ensures |Kept(After(p, run))| < |After(p, run).input|
    decreases |run|
  {
    if run != [] {
      NextKeeps(p, run[0]);
      LostForever(Next(p, run[0]), run[1..]);
    }
  }

  // ----- What a run consists of -----

  function ProducedBy(run: seq<Action>): seq<F> {
    if run == [] then [] else (match run[0] case Produce(f) => [f] case _ => []) + ProducedBy(run[1..])
  }

  function PlayedBy(run: seq<Action>): nat {
    if run == [] then 0 else (match run[0] case Play(length) => length case _ => 0) + PlayedBy(run[1..])
  }

  /** The input is what the run produces, and every output block adds its length to the output. */
  lemma {:induction false} RunInputAndOutput(p: Pipe, run: seq<Action>)
    ensures After(p, run).input == p.input + ProducedBy(run)
    ensures |After(p, run).output| == |p.output| + PlayedBy(run)
    decreases |run|
  {
    if run != [] {
      RunInputAndOutput(Next(p, run[0]), run[1..]);
    }
  }

  lemma {:induction false} AfterBoth(p: Pipe, a: seq<Action>, b: seq<Action>)
    ensures After(p, a + b) == After(After(p, a), b)
    decreases |a|
  {
    if a == [] {
      assert a + b == b;
    } else {
      assert (a + b)[1..] == a[1..] + b;
      AfterBoth(Next(p, a[0]), a[1..], b);
    }
  }

  function Deliveries(n: nat): seq<Action> { if n == 0 then [] else [Deliver] + Deliveries(n - 1) }

  lemma {:induction false} DeliverAll(p: Pipe)
    requires |p.queue| + |Flat(p.inFlight)| <= WORKLET_FRAMES
    ensures After(p, Deliveries(|p.inFlight|)) == p.(inFlight := [], queue := p.queue + Flat(p.inFlight))
    decreases |p.inFlight|
  {
    var run := Deliveries(|p.inFlight|);
    if p.inFlight == [] {
      assert p.queue + Flat(p.inFlight) == p.queue;
    } else {
      var r := Next(p, Deliver);
      assert run[0] == Deliver && run[1..] == Deliveries(|r.inFlight|);
      assert r.queue + Flat(r.inFlight) == p.queue + Flat(p.inFlight);
      DeliverAll(r);
    }
  }

  /** Pumping, delivering and playing everything. */
  function Drain(p: Pipe, length: nat): seq<Action> {
    [Pump(|p.ring|)] + (Deliveries(|p.inFlight| + 1) + [Play(length)])
  }

  lemma Pumped(p: Pipe)
    ensures var r := Next(p, Pump(|p.ring|));
            && r == p.(ring := [], inFlight := p.inFlight + [p.ring])
            && Flat(r.inFlight) == Flat(p.inFlight) + p.ring && Kept(r) == Kept(p)
  {
    FlatAppend(p.inFlight, p.ring);
    assert p.ring[..|p.ring|] == p.ring;
    KeptPump(p, |p.ring|);
  }

  lemma Delivered(p: Pipe)
    requires |p.queue| + |Flat(p.inFlight)| <= WORKLET_FRAMES
    ensures var r := After(p, Deliveries(|p.inFlight|));
            && r == p.(inFlight := [], queue := p.queue + Flat(p.inFlight)) && Kept(r) == Kept(p)
  {
    DeliverAll(p);
    assert Audible(p.output) + (p.queue + Flat(p.inFlight)) + [] + p.ring
        == Audible(p.output) + p.queue + Flat(p.inFlight) + p.ring;
  }

  lemma PlayedOut(p: Pipe, length: nat)
    requires p.ring == [] && p.inFlight == [] && |p.queue| <= length
    ensures Audible(Next(p, Play(length)).output) == Kept(p)
  {
    KeptPlay(p, length);
    var r := Next(p, Play(length));
    assert Kept(r) == Audible(r.output) + [] + [] + [];
  }

  /** When nothing was lost so far and what is on its way fits in the worklet's ring, all of it can be heard. */
  lemma EverythingIsHeard(p: Pipe, length: nat)
    requires Kept(p) == p.input
    requires |p.queue| + |Flat(p.inFlight)| + |p.ring| <= Min(length, WORKLET_FRAMES)
    ensures Audible(After(p, Drain(p, length)).output) == p.input
  {
    Pumped(p);
    var pumped := Next(p, Pump(|p.ring|));
    Delivered(pumped);
    PlayedOut(After(pumped, Deliveries(|pumped.inFlight|)), length);
    AfterDrain(p, length);
  }

  lemma AfterDrain(p: Pipe, length: nat)
    ensures After(p, Drain(p, length))
         == Next(After(Next(p, Pump(|p.ring|)), Deliveries(|p.inFlight| + 1)), Play(length))
  {
    var pumped := Next(p, Pump(|p.ring|));
    AfterBoth(pumped, Deliveries(|p.inFlight| + 1), [Play(length)]);
    assert Drain(p, length)[1..] == Deliveries(|p.inFlight| + 1) + [Play(length)];
    assert [Play(length)][1..] == [];
  }

  /** Delivering a message to a worklet that holds the scaled queue leaves it holding the next scaled queue. */
  lemma WorkletHoldsQueue(p: Pipe)
    requires p.inFlight != []
    ensures LastN(Scaled(p.queue) + Scaled(FramesOf(Interleaved(p.inFlight[0]))), WORKLET_FRAMES)
         == Scaled(Next(p, Deliver).queue)
  {
    FramesOfInterleaved(p.inFlight[0]);
    assert Scaled(p.queue) + Scaled(p.inFlight[0]) == Scaled(p.queue + p.inFlight[0]);
  }
}
