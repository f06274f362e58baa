/** The two audio rings of the web build (ymir_web_bridge.cpp and ymir-web-audio-worklet.js). */
module AudioRings {
  import opened Common

  type Sample = n: int | -32768 <= n < 32768

  datatype Frame<T> = Frame(left: T, right: T)

  /** Frames as left and right samples in turns. */
  function Interleaved<T>(frames: seq<Frame<T>>): (s: seq<T>)
    ensures |s| == 2 * |frames|
  {
    seq(2 * |frames|, i requires 0 <= i < 2 * |frames| =>
      if i % 2 == 0 then frames[i / 2].left else frames[i / 2].right)
  }

  /** The frames of interleaved samples; a sample without a partner is ignored. */
  function FramesOf<T>(s: seq<T>): (frames: seq<Frame<T>>)
    ensures |frames| == |s| / 2
  {
    seq(|s| / 2, i requires 0 <= i < |s| / 2 => Frame(s[2 * i], s[2 * i + 1]))
  }

  /** Left and right never swap on the way through a message. */
  lemma FramesOfInterleaved<T>(frames: seq<Frame<T>>)
    ensures FramesOf(Interleaved(frames)) == frames
  {
    forall i | 0 <= i < |frames|
      ensures FramesOf(Interleaved(frames))[i] == frames[i]
    {
      assert (2 * i) / 2 == i && (2 * i) % 2 == 0 && (2 * i + 1) / 2 == i && (2 * i + 1) % 2 == 1;
    }
  }

  /** The left sample comes first. */
  lemma MessagesExactly<T>(frames: seq<Frame<T>>, s: seq<T>, i: nat)
    ensures i < |frames| ==>
      Interleaved(frames)[2 * i] == frames[i].left && Interleaved(frames)[2 * i + 1] == frames[i].right
    ensures i < |FramesOf(s)| ==> FramesOf(s)[i] == Frame(s[2 * i], s[2 * i + 1])
  {
    assert (2 * i) / 2 == i && (2 * i) % 2 == 0 && (2 * i + 1) / 2 == i && (2 * i + 1) % 2 == 1;
  }

  // ----- The bridge: one ring of interleaved samples -----

  const AUDIO_CAPACITY: nat := 131072
  const BRIDGE_FRAMES: nat := 65535

  /** A position of the ring after a move of less than a whole turn. */
  function Wrap(p: nat): (r: nat)
    requires p < 2 * AUDIO_CAPACITY
    ensures r < AUDIO_CAPACITY
  {
    if p < AUDIO_CAPACITY then p else p - AUDIO_CAPACITY
  }

  lemma WrapIsRemainder(p: nat)
    requires p < 2 * AUDIO_CAPACITY
    ensures p % AUDIO_CAPACITY == Wrap(p) && Wrap(p) % 2 == p % 2
  {
  }

  /** The `n` frames from an even position of the ring on. */
  function RingFrames(ring: seq<Sample>, readPos: nat, n: nat): (frames: seq<Frame<Sample>>)
    requires |ring| == AUDIO_CAPACITY && readPos < AUDIO_CAPACITY && n <= BRIDGE_FRAMES
    ensures |frames| == n
    ensures forall i :: 0 <= i < n ==>
      frames[i] == Frame(ring[Wrap(readPos + 2 * i)], ring[Wrap(readPos + 2 * i + 1)])
  {
    seq(n, i requires 0 <= i < n => Frame(ring[Wrap(readPos + 2 * i)], ring[Wrap(readPos + 2 * i + 1)]))
  }

  lemma RingAppend(ring: seq<Sample>, readPos: nat, n: nat, left: Sample, right: Sample)
    requires |ring| == AUDIO_CAPACITY && readPos < AUDIO_CAPACITY && readPos % 2 == 0 && n < BRIDGE_FRAMES
    ensures var w := Wrap(readPos + 2 * n);
            && w + 1 < AUDIO_CAPACITY
            && RingFrames(ring[w := left][w + 1 := right], readPos, n + 1)
               == RingFrames(ring, readPos, n) + [Frame(left, right)]
  {
    var w := Wrap(readPos + 2 * n);
    assert w % 2 == 0;
    forall i | 0 <= i < n
      ensures Wrap(readPos + 2 * i) != w && Wrap(readPos + 2 * i) != w + 1
      ensures Wrap(readPos + 2 * i + 1) != w && Wrap(readPos + 2 * i + 1) != w + 1
    {
    }
  }

  lemma RingDrop(ring: seq<Sample>, readPos: nat, n: nat, k: nat)
    requires |ring| == AUDIO_CAPACITY && readPos < AUDIO_CAPACITY && k <= n <= BRIDGE_FRAMES
    ensures RingFrames(ring, Wrap(readPos + 2 * k), n - k) == RingFrames(ring, readPos, n)[k..]
  {
  }

  /** How many frames lie between two positions. */
  function RingSize(readPos: nat, writePos: nat): nat
    requires readPos < AUDIO_CAPACITY && writePos < AUDIO_CAPACITY
  {
    (if readPos <= writePos then writePos - readPos else writePos + AUDIO_CAPACITY - readPos) / 2
  }

  lemma RingSizeIs(readPos: nat, n: nat)
    requires readPos < AUDIO_CAPACITY && n <= BRIDGE_FRAMES
    ensures RingSize(readPos, Wrap(readPos + 2 * n)) == n
  {
  }

  /** The write position after one more frame meets the read position exactly when the ring was full. */
  lemma NextWritePos(readPos: nat, n: nat)
    requires readPos < AUDIO_CAPACITY && readPos % 2 == 0 && n <= BRIDGE_FRAMES
    ensures var next := (Wrap(readPos + 2 * n) + 2) % AUDIO_CAPACITY;
            && (next == readPos <==> n == BRIDGE_FRAMES)
            && (n < BRIDGE_FRAMES ==> next == Wrap(readPos + 2 * (n + 1)))
            && (n == BRIDGE_FRAMES ==> next == Wrap(Wrap(readPos + 2) + 2 * n))
  {
  }

  /** Skipping some of the `n` frames leaves the others. */
  lemma AfterSkip(ring: seq<Sample>, readPos: nat, writePos: nat, n: nat, frames: nat)
    requires |ring| == AUDIO_CAPACITY && readPos < AUDIO_CAPACITY && readPos % 2 == 0 && frames <= n <= BRIDGE_FRAMES
    requires writePos == Wrap(readPos + 2 * n)
    ensures var pos := (readPos + frames * 2) % AUDIO_CAPACITY;
            && pos % 2 == 0 && RingSize(pos, writePos) == n - frames
            && RingFrames(ring, pos, n - frames) == RingFrames(ring, readPos, n)[frames..]
  {
    WrapIsRemainder(readPos + 2 * frames);
    RingDrop(ring, readPos, n, frames);
    RingSizeIs(Wrap(readPos + 2 * frames), n - frames);
  }

  lemma InterleavedRing(ring: seq<Sample>, readPos: nat, n: nat, taken: nat, i: nat)
    requires |ring| == AUDIO_CAPACITY && readPos < AUDIO_CAPACITY && i < 2 * taken <= 2 * n <= 2 * BRIDGE_FRAMES
    ensures Interleaved(RingFrames(ring, readPos, n)[..taken])[i] == ring[Wrap(readPos + i)]
  {
    assert i == if i % 2 == 0 then 2 * (i / 2) else 2 * (i / 2) + 1;
  }

  class AudioBridge {
    const audioBuf: array<Sample>
    var audioReadPos: nat
    var audioWritePos: nat

    /** Positions always point at a left sample. */
    ghost predicate Valid()
      reads this
    {
      && audioBuf.Length == AUDIO_CAPACITY
      && audioReadPos < AUDIO_CAPACITY && audioReadPos % 2 == 0
      && audioWritePos < AUDIO_CAPACITY && audioWritePos % 2 == 0
    }

    ghost function Size(): (n: nat)
      requires Valid()
      reads this
      ensures n <= BRIDGE_FRAMES && audioWritePos == Wrap(audioReadPos + 2 * n)
    {
      RingSize(audioReadPos, audioWritePos)
    }

    /** The frames waiting, oldest first. */
    ghost function Contents(): (c: seq<Frame<Sample>>)
      requires Valid()
      reads this, audioBuf
      ensures |c| == Size()
    {
      RingFrames(audioBuf[..], audioReadPos, Size())
    }

    constructor ()
      ensures Valid() && fresh(audioBuf) && Contents() == []
    {
      audioBuf := new Sample[AUDIO_CAPACITY](_ => 0);
      audioReadPos, audioWritePos := 0, 0;
    }

    /** Queues a frame, dropping the oldest one when the ring is full. */
    method OnAudioSample(left: Sample, right: Sample)
      requires Valid()
      modifies this, audioBuf
      ensures Valid()
      ensures Contents() == LastN(old(Contents()) + [Frame(left, right)], BRIDGE_FRAMES)
    {
      ghost var n := Size();
      NextWritePos(audioReadPos, n);
      var next := (audioWritePos + 2) % AUDIO_CAPACITY;
      if next == audioReadPos {
        // Buffer full
        SkipFrames(1);
        n := n - 1;
      }
      StoreFrame(n, left, right, next);
    }

    /** Writes a frame behind the `n` frames waiting. */
    method StoreFrame(ghost n: nat, left: Sample, right: Sample, next: nat)
      requires audioBuf.Length == AUDIO_CAPACITY
      requires audioReadPos < AUDIO_CAPACITY && audioReadPos % 2 == 0 && n < BRIDGE_FRAMES
      requires audioWritePos == Wrap(audioReadPos + 2 * n) && next == Wrap(audioReadPos + 2 * (n + 1))
      modifies this`audioWritePos, audioBuf
      ensures Valid()
      ensures Contents() == old(RingFrames(audioBuf[..], audioReadPos, n)) + [Frame(left, right)]
    {
      RingAppend(audioBuf[..], audioReadPos, n, left, right);
      RingSizeIs(audioReadPos, n + 1);
      WrapIsRemainder(audioReadPos + 2 * n);
      WrapIsRemainder(audioReadPos + 2 * (n + 1));
      audioBuf[audioWritePos] := left;
      audioBuf[(audioWritePos + 1) % AUDIO_CAPACITY] := right;
      audioWritePos := next;
    }

    function AudioAvailable(): (frames: nat)
      requires Valid()
      reads this, audioBuf
      ensures frames == |Contents()|
    {
      (audioWritePos + AUDIO_CAPACITY - audioReadPos) % AUDIO_CAPACITY / 2
    }

    method CopyFrames(frames: nat) returns (audioOut: seq<Sample>)
      requires Valid() && frames <= Size()
      ensures audioOut == Interleaved(Contents()[..frames])
    {
      ghost var taken := Interleaved(Contents()[..frames]);
      audioOut := [];
      var i := 0;
      while i < frames * 2
        invariant 0 <= i <= frames * 2
        invariant audioOut == taken[..i]
      {
        InterleavedRing(audioBuf[..], audioReadPos, Size(), frames, i);
        WrapIsRemainder(audioReadPos + i);
        TakeNext(taken, i);
        audioOut := audioOut + [audioBuf[(audioReadPos + i) % AUDIO_CAPACITY]];
        i := i + 1;
      }
    }

    /** Takes up to `maxFrames` of the oldest frames, interleaved. */
    method ReadAudio(maxFrames: nat) returns (audioOut: seq<Sample>)
      requires Valid()
      modifies this
      ensures Valid()
      ensures var n := Min(maxFrames, |old(Contents())|);
              audioOut == Interleaved(old(Contents())[..n]) && Contents() == old(Contents())[n..]
    {
      var frames := Min(maxFrames, AudioAvailable());
      audioOut := CopyFrames(frames);
      SkipFrames(frames);
    }

    method SkipFrames(frames: nat)
      requires Valid() && frames <= Size()
      modifies this`audioReadPos
      ensures Valid() && Contents() == old(Contents())[frames..]
    {
      AfterSkip(audioBuf[..], audioReadPos, audioWritePos, Size(), frames);
      audioReadPos := (audioReadPos + frames * 2) % AUDIO_CAPACITY;
    }
  }

  // ----- The worklet: a ring for each channel -----

  const WORKLET_FRAMES: nat := 44100

  function ToReal(s: Sample): real { s as real / 32768.0 }

  function Scaled(frames: seq<Frame<Sample>>): (r: seq<Frame<real>>)
    ensures |r| == |frames|
  {
    seq(|frames|, i requires 0 <= i < |frames| => Frame(ToReal(frames[i].left), ToReal(frames[i].right)))
  }

  /** 16-bit samples become numbers from -1 to less than 1. */
  lemma ScaledExactly(frames: seq<Frame<Sample>>, i: nat)
    requires i < |frames|
    ensures var f := Scaled(frames)[i];
            && f.left * 32768.0 == frames[i].left as real && f.right * 32768.0 == frames[i].right as real
            && -1.0 <= f.left < 1.0 && -1.0 <= f.right < 1.0
  {
  }

  /** Position of the frame `i` places after `readPos`. */
  function Slot(readPos: nat, i: nat): (p: nat)
    requires readPos < WORKLET_FRAMES && i <= WORKLET_FRAMES
    ensures p < WORKLET_FRAMES
  {
    if readPos + i < WORKLET_FRAMES then readPos + i else readPos + i - WORKLET_FRAMES
  }

  lemma SlotIsRemainder(readPos: nat, i: nat)
    requires readPos < WORKLET_FRAMES && i <= WORKLET_FRAMES
    ensures (readPos + i) % WORKLET_FRAMES == Slot(readPos, i)
  {
  }

  function PlanarFrames(left: seq<real>, right: seq<real>, readPos: nat, n: nat): (frames: seq<Frame<real>>)
    requires |left| == |right| == WORKLET_FRAMES && readPos < WORKLET_FRAMES && n <= WORKLET_FRAMES
    ensures |frames| == n
    ensures forall i :: 0 <= i < n ==> frames[i] == Frame(left[Slot(readPos, i)], right[Slot(readPos, i)])
  {
    seq(n, i requires 0 <= i < n => Frame(left[Slot(readPos, i)], right[Slot(readPos, i)]))
  }

  lemma PlanarAppend(left: seq<real>, right: seq<real>, readPos: nat, n: nat, l: real, r: real)
    requires |left| == |right| == WORKLET_FRAMES && readPos < WORKLET_FRAMES && n < WORKLET_FRAMES
    ensures var w := Slot(readPos, n);
            PlanarFrames(left[w := l], right[w := r], readPos, n + 1)
            == PlanarFrames(left, right, readPos, n) + [Frame(l, r)]
  {
    forall i | 0 <= i < n
      ensures Slot(readPos, i) != Slot(readPos, n)
    {
    }
  }

  lemma PlanarDrop(left: seq<real>, right: seq<real>, readPos: nat, n: nat)
    requires |left| == |right| == WORKLET_FRAMES && readPos < WORKLET_FRAMES && 0 < n <= WORKLET_FRAMES
    ensures PlanarFrames(left, right, Slot(readPos, 1), n - 1) == PlanarFrames(left, right, readPos, n)[1..]
  {
    forall i | 0 <= i < n - 1
      ensures Slot(Slot(readPos, 1), i) == Slot(readPos, i + 1)
    {
    }
  }

  const SILENCE := Frame(0.0, 0.0)

  /** The `k`-th frame heard of a queue that is played to its end and beyond. */
  function Heard(queue: seq<Frame<real>>, k: nat): Frame<real> { if k < |queue| then queue[k] else SILENCE }

  /** What the left output channel gets from a frame; with a single channel the right sample is written last. */
  function LeftOutput(f: Frame<real>, stereo: bool): real { if stereo then f.left else f.right }

  /** The first `n` samples of both channels are the frames of the queue in order, then silence. */
  predicate Plays(l: seq<real>, r: seq<real>, queue: seq<Frame<real>>, n: nat, stereo: bool) {
    && n <= |l| && n <= |r|
    && forall k :: 0 <= k < n ==> l[k] == LeftOutput(Heard(queue, k), stereo) && r[k] == Heard(queue, k).right
  }

  lemma PlaysNext(l: seq<real>, r: seq<real>, queue: seq<Frame<real>>, n: nat, stereo: bool)
    requires Plays(l, r, queue, n, stereo) && n < |l| && n < |r|
    ensures Plays(l[n := LeftOutput(Heard(queue, n), stereo)], r[n := Heard(queue, n).right], queue, n + 1, stereo)
  {
  }

  /** What is left of a queue after `k` frames. */
  function Rest(queue: seq<Frame<real>>, k: nat): seq<Frame<real>> { queue[Min(k, |queue|)..] }

  lemma RestStep(queue: seq<Frame<real>>, k: nat)
    ensures Rest(Rest(queue, k), 1) == Rest(queue, k + 1)
    ensures Heard(Rest(queue, k), 0) == Heard(queue, k)
  {
  }

  /** The queue after the first `k` frames of a message. */
  function Queued(queue: seq<Frame<real>>, frames: seq<Frame<real>>, k: nat): seq<Frame<real>>
    requires k <= |frames|
  {
    LastN(queue + frames[..k], WORKLET_FRAMES)
  }

  lemma QueueNext(queue: seq<Frame<real>>, frames: seq<Frame<real>>, k: nat)
    requires k < |frames|
    ensures LastN(Queued(queue, frames, k) + [frames[k]], WORKLET_FRAMES) == Queued(queue, frames, k + 1)
  {
    LastNOfLastN(queue + frames[..k], [frames[k]], WORKLET_FRAMES);
    assert queue + frames[..k] + [frames[k]] == queue + frames[..k + 1];
  }

  /** Writes one output frame, the left channel first. */
  method WriteFrame(l: array<real>, r: array<real>, i: nat, f: Frame<real>)
    requires i < l.Length == r.Length
    modifies l, r
    ensures l[..] == old(l[..])[i := LeftOutput(f, l != r)]
    ensures r[..] == old(r[..])[i := f.right]
  {
    l[i] := f.left;
    r[i] := f.right;
  }

  class AudioWorklet {
    const left: array<real>
    const right: array<real>
    var readPos: nat
    var writePos: nat
    var count: nat

    ghost predicate Valid()
      reads this
    {
      && left != right && left.Length == right.Length == WORKLET_FRAMES
      && readPos < WORKLET_FRAMES && count <= WORKLET_FRAMES
      && writePos == Slot(readPos, count)
    }

    /** The frames waiting, oldest first. */
    ghost function Contents(): (c: seq<Frame<real>>)
      requires Valid()
      reads this, left, right
      ensures |c| == count
    {
      PlanarFrames(left[..], right[..], readPos, count)
    }

    constructor ()
      ensures Valid() && fresh(left) && fresh(right) && Contents() == []
    {
      left := new real[WORKLET_FRAMES](_ => 0.0);
      right := new real[WORKLET_FRAMES](_ => 0.0);
      readPos, writePos, count := 0, 0, 0;
    }

    method DropOldest()
      requires Valid() && count > 0
      modifies `readPos, `count
      ensures Valid() && Contents() == old(Contents())[1..]
    {
      PlanarDrop(left[..], right[..], readPos, count);
      SlotIsRemainder(readPos, 1);
      readPos := (readPos + 1) % WORKLET_FRAMES;
      count := count - 1;
    }

    method Append(l: real, r: real)
      requires Valid() && count < WORKLET_FRAMES
      modifies `writePos, `count, left, right
      ensures Valid() && Contents() == old(Contents()) + [Frame(l, r)]
    {
      PlanarAppend(left[..], right[..], readPos, count, l, r);
      left[writePos] := l;
      right[writePos] := r;
      writePos := (writePos + 1) % WORKLET_FRAMES;
      count := count + 1;
    }

    /** The body of the message loop: queues a frame, dropping the oldest one when the ring is full. */
    method Enqueue(l: real, r: real)
      requires Valid()
      modifies this, left, right
      ensures Valid()
      ensures Contents() == LastN(old(Contents()) + [Frame(l, r)], WORKLET_FRAMES)
    {
      if count >= WORKLET_FRAMES {
        DropOldest();
      }
      Append(l, r);
    }

    method OnMessage(s: seq<Sample>)
      requires Valid()
      modifies this, left, right
      ensures Valid()
      ensures Contents() == LastN(old(Contents()) + Scaled(FramesOf(s)), WORKLET_FRAMES)
    {
      var i := 0;
      ghost var queue, frames, k := Contents(), Scaled(FramesOf(s)), 0;
      while i + 1 < |s|
        invariant 0 <= i == 2 * k <= |s|
        invariant Valid() && Contents() == Queued(queue, frames, k)
      {
        QueueNext(queue, frames, k);
        assert frames[k] == Frame(ToReal(s[i]), ToReal(s[i + 1]));
        Enqueue(ToReal(s[i]), ToReal(s[i + 1]));
        i, k := i + 2, k + 1;
      }
      assert frames[..k] == frames;
    }

    /** The body of the output loop: plays the oldest frame, or silence when there is none. */
    method PlayFrame(l: array<real>, r: array<real>, i: nat)
      requires Valid() && i < l.Length == r.Length
      requires l != left && l != right && r != left && r != right
      modifies this, l, r
      ensures Valid() && Contents() == Rest(old(Contents()), 1)
      ensures l[..] == old(l[..])[i := LeftOutput(Heard(old(Contents()), 0), l != r)]
      ensures r[..] == old(r[..])[i := Heard(old(Contents()), 0).right]
    {
      if count > 0 {
        assert Slot(readPos, 0) == readPos;
        WriteFrame(l, r, i, Frame(left[readPos], right[readPos]));
        DropOldest();
      } else {
        WriteFrame(l, r, i, SILENCE);
      }
    }

    /**
     Fills one block of output with waiting frames, then zeros. With one output channel `l` and `r` are the
     same array, which ends up with the right samples.
     */
    method Process(l: array<real>, r: array<real>)
      requires Valid() && l.Length == r.Length
      requires l != left && l != right && r != left && r != right
      modifies this, l, r
      ensures Valid()
      ensures Contents() == old(Contents())[Min(l.Length, |old(Contents())|)..]
      ensures forall k :: 0 <= k < l.Length ==>
        r[k] == if k < |old(Contents())| then old(Contents())[k].right else 0.0
      ensures l != r ==> forall k :: 0 <= k < l.Length ==>
        l[k] == if k < |old(Contents())| then old(Contents())[k].left else 0.0
    {
      var i := 0;
      ghost var queue, stereo, lv, rv := Contents(), l != r, l[..], r[..];
      ghost var rest := queue;
      while i < l.Length
        invariant 0 <= i <= l.Length
        invariant Valid() && Contents() == rest
        invariant l[..] == lv && r[..] == rv
        invariant rest == Rest(queue, i) && Plays(lv, rv, queue, i, stereo)
      {
        RestStep(queue, i);
        PlaysNext(lv, rv, queue, i, stereo);
        PlayFrame(l, r, i);
        lv, rv := lv[i := LeftOutput(Heard(rest, 0), stereo)], rv[i := Heard(rest, 0).right];
        rest := Rest(rest, 1);
        i := i + 1;
      }
    }
  }
}
