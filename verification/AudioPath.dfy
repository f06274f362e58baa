/** The bridge, the main thread's audio pump and the worklet together: a run of the pipeline (web/shell/main.js). */
module AudioPath {
  import opened AudioRings
  import opened AudioPipeline
  import opened Common

  class AudioPath {
    const bridge: AudioBridge
    const worklet: AudioWorklet
    var messages: seq<seq<Sample>>  // posted to the worklet's port, not delivered yet

    ghost var pipe: Pipe

    ghost predicate Valid()
      reads this, bridge, bridge.audioBuf, worklet, worklet.left, worklet.right
    {
      && bridge.Valid() && worklet.Valid()
      && bridge.Contents() == pipe.ring
      && worklet.Contents() == Scaled(pipe.queue)
      && messages == Posted(pipe.inFlight)
    }

    constructor ()
      ensures Valid() && pipe == EMPTY
      ensures fresh(bridge) && fresh(bridge.audioBuf) && fresh(worklet) && fresh(worklet.left) && fresh(worklet.right)
    {
      bridge := new AudioBridge();
      worklet := new AudioWorklet();
      messages, pipe := [], EMPTY;
    }

    method Produce(left: Sample, right: Sample)
      requires Valid()
      modifies this, bridge, bridge.audioBuf
      ensures Valid() && pipe == Next(old(pipe), Action.Produce(Frame(left, right)))
      ensures bridge.Contents() == LastN(old(bridge.Contents()) + [Frame(left, right)], 65535)
    {
      bridge.OnAudioSample(left, right);
      pipe := Next(pipe, Action.Produce(Frame(left, right)));
    }

    /** Posts everything the bridge holds, if anything. */
    method PumpAudio()
      requires Valid()
      modifies this, bridge
      ensures Valid()
      ensures pipe == if |old(pipe).ring| > 0 then Next(old(pipe), Pump(|old(pipe).ring|)) else old(pipe)
      ensures bridge.Contents() == []
      ensures messages == if old(bridge.Contents()) == [] then old(messages)
                          else old(messages) + [Interleaved(old(bridge.Contents()))]
    {
      var avail := bridge.AudioAvailable();
      if avail > 0 {
        var s := bridge.ReadAudio(avail);
        messages := messages + [s];
        PostedAppend(pipe.inFlight, pipe.ring);
        assert pipe.ring[..avail] == pipe.ring;
        pipe := Next(pipe, Pump(avail));
      }
    }

    /** The port hands the oldest message to the worklet. */
    method Deliver()
      requires Valid() && messages != []
      modifies this, worklet, worklet.left, worklet.right
      ensures Valid() && pipe == Next(old(pipe), Action.Deliver)
      ensures messages == old(messages)[1..]
      ensures worklet.Contents() == LastN(old(worklet.Contents()) + Scaled(FramesOf(old(messages)[0])), 44100)
    {
      WorkletHoldsQueue(pipe);
      worklet.OnMessage(messages[0]);
      messages := messages[1..];
      pipe := Next(pipe, Action.Deliver);
    }

    method Play(l: array<real>, r: array<real>)
      requires Valid() && l.Length == r.Length
      requires {l, r} !! {worklet.left, worklet.right}
      modifies this, worklet, l, r
      ensures Valid() && pipe == Next(old(pipe), Action.Play(l.Length))
      ensures worklet.Contents() == old(worklet.Contents())[Min(l.Length, |old(worklet.Contents())|)..]
      ensures forall k :: 0 <= k < l.Length ==>
        r[k] == if k < |old(worklet.Contents())| then old(worklet.Contents())[k].right else 0.0
      ensures l != r ==> forall k :: 0 <= k < l.Length ==>
        l[k] == if k < |old(worklet.Contents())| then old(worklet.Contents())[k].left else 0.0
    {
      ScaledRest(pipe.queue, l.Length);
      worklet.Process(l, r);
      pipe := Next(pipe, Action.Play(l.Length));
    }
  }

  /** Chunks of frames as the messages that carry them. */
  function Posted(chunks: seq<seq<F>>): (messages: seq<seq<Sample>>)
    ensures |messages| == |chunks|
  {
    seq(|chunks|, i requires 0 <= i < |chunks| => Interleaved(chunks[i]))
  }

  lemma PostedAppend(chunks: seq<seq<F>>, chunk: seq<F>)
    ensures Posted(chunks + [chunk]) == Posted(chunks) + [Interleaved(chunk)]
  {
  }

  lemma ScaledRest(queue: seq<F>, n: nat)
    ensures Scaled(queue)[Min(n, |queue|)..] == Scaled(queue[Min(n, |queue|)..])
  {
  }
}
