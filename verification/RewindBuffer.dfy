/** The rewind buffer (rewind_buffer.hpp and rewind_buffer.cpp). */
module RewindBuffer {
  import opened Bytes
  import opened Common
  import opened SaveStateVersion
  import opened XorLoop
  import H = RewindHistory

  /** A block compressor; decompression is given the size of its output buffer. */
  datatype Codec = Codec(compress: Buffer -> Buffer, decompress: (Buffer, nat) -> Option<Buffer>)

  /** Decompressing a compressed block into a large enough buffer gives the block back. */
  ghost predicate RoundTrips(codec: Codec) {
    forall b: Buffer, size: nat :: |b| <= size ==> codec.decompress(codec.compress(b), size) == Some(b)
  }

  /** `blocks` holds the compressed form of every delta of `s` that can be undone. */
  ghost predicate Encoded(codec: Codec, blocks: seq<Buffer>, s: H.State) {
    && s.RingOk() && |blocks| == |s.ring|
    && forall i: nat :: i < s.count ==> blocks[s.Slot(i)] == codec.compress(s.ring[s.Slot(i)])
  }

  /** The block before the write position decompresses to the newest delta. */
  lemma DecodeNewest(codec: Codec, blocks: seq<Buffer>, s: H.State)
    requires RoundTrips(codec) && s.Valid() && Encoded(codec, blocks, s)
    requires s.count > 0 && s.PopInBounds()
    ensures var r := H.Pop(s);
            && Encoded(codec, blocks, r)
            && codec.decompress(blocks[r.writePos], s.maxSize) == Some(r.next)
  {
    var r := H.Pop(s);
    assert r.writePos == s.Slot(s.count - 1);
    forall i: nat | i < r.count
      ensures r.Slot(i) == s.Slot(i)
    {
    }
  }

  /** Storing the compressed delta keeps the blocks in step with the deltas. */
  lemma EncodeNewest(codec: Codec, blocks: seq<Buffer>, s: H.State, x: Buffer)
    requires s.Valid() && Encoded(codec, blocks, s)
    ensures var r := H.Push(s, x);
            Encoded(codec, blocks[s.writePos := codec.compress(r.deltaBuffer)], r)
  {
    var r := H.Push(s, x);
    forall i: nat | i < r.count
      ensures r.Slot(i) == s.writePos || exists j: nat :: j < s.count && r.Slot(i) == s.Slot(j) != s.writePos
    {
      var j := if s.count < |s.ring| then i else i + 1;
      if j < s.count {
        assert r.Slot(i) == s.Slot(j);
      }
    }
  }

  const CAPACITY: nat := 60 * 60

  /** `vector::resize`: elements kept as far as they fit, zeros after them. */
  method Resize(a: array<Byte>, size: nat) returns (r: array<Byte>)
    ensures fresh(r) && r.Length == size
    ensures r[..Min(a.Length, size)] == a[..Min(a.Length, size)]
  {
    r := new Byte[size](_ => 0);
    forall i | 0 <= i < Min(a.Length, size) { r[i] := a[i]; }
  }

  /** A vector with the given elements. */
  method Vector(s: Buffer) returns (r: array<Byte>)
    ensures fresh(r) && r[..] == s
  {
    r := new Byte[|s|](i requires 0 <= i < |s| => s[i]);
  }

  /** The XOR of two buffers is that of their common part followed by the tail of the larger one. */
  lemma TailOfLarger(b0: Buffer, b1: Buffer)
    ensures var min, max := Min(|b0|, |b1|), Max(|b0|, |b1|);
            Delta(b0, b1, max) == Delta(b0, b1, min) + (if |b0| == max then b0[min..] else b1[min..])
  {
    if |b1| <= |b0| {
      DeltaTail(b0, b1);
    } else {
      DeltaTail(b1, b0);
      DeltaCommutes(b0, b1, |b0|);
      DeltaCommutes(b0, b1, |b1|);
    }
  }

  lemma NextSlot(pos: nat, size: nat)
    requires pos < size
    ensures (pos + 1) % size == if pos + 1 == size then 0 else pos + 1
  {
  }

  /** What copying the tail of `from` behind a new head makes of a buffer. */
  lemma TailCopied(head: Buffer, before: Buffer, from: Buffer)
    requires |head| <= |from| <= |before|
    ensures var half := head + before[|head|..];
            half[..|head|] + from[|head|..] + half[|from|..] == (head + from[|head|..]) + before[|from|..]
  {
  }

  class RewindBuffer {
    const codec: Codec
    const byteOrder: ByteOrder  // of the host

    var nextState: Buffer       // serialized form of NextState

    var buffer0: array<Byte>
    var buffer1: array<Byte>
    var bufferFlip: bool        // whether buffer1 is the next buffer and buffer0 the current one
    var deltaBuffer: array<Byte>
    var maxBufferSize: nat

    const deltas: array<Buffer> // compressed
    var deltaWritePos: nat
    var deltaCount: nat
    var totalDeltaCount: nat

    ghost var plain: seq<Buffer> // the deltas before compression

    ghost function Repr(): set<object>
      reads this
    {
      {this, deltas, buffer0, buffer1, deltaBuffer}
    }

    function Current(): array<Byte>
      reads this
    {
      if bufferFlip then buffer0 else buffer1
    }

    function Next(): array<Byte>
      reads this
    {
      if bufferFlip then buffer1 else buffer0
    }

    ghost function View(): H.State
      reads this, buffer0, buffer1, deltaBuffer
    {
      H.State(Current()[..], Next()[..], deltaBuffer[..], maxBufferSize, plain,
              deltaWritePos, deltaCount, totalDeltaCount)
    }

    ghost predicate Valid()
      reads Repr()
    {
      && buffer0 != buffer1 && deltaBuffer != buffer0 && deltaBuffer != buffer1
      && (deltas as object) !in {buffer0 as object, buffer1, deltaBuffer}
      && RoundTrips(codec)
      && deltas.Length == CAPACITY
      && View().Valid()
      && Encoded(codec, deltas[..], View())
    }

    constructor (codec: Codec, byteOrder: ByteOrder)
      requires RoundTrips(codec)
      ensures Valid() && fresh(Repr())
      ensures View() == H.Initial(CAPACITY)
    {
      this.codec, this.byteOrder := codec, byteOrder;
      nextState := [];
      buffer0, buffer1, bufferFlip := new Byte[0], new Byte[0], false;
      deltaBuffer, maxBufferSize := new Byte[0], 0;
      deltas := new Buffer[CAPACITY](_ => []);
      deltaWritePos, deltaCount, totalDeltaCount := 0, 0, 0;
      plain := seq(CAPACITY, i => []);
    }

    method Reset()
      requires Valid()
      modifies Repr()
      ensures Valid() && fresh(Repr() - old(Repr()))
      ensures View() == H.Reset(old(View()))
      ensures nextState == old(nextState)
      ensures deltaCount == totalDeltaCount == buffer0.Length == buffer1.Length == deltaBuffer.Length == 0
      ensures maxBufferSize == old(maxBufferSize) && deltaWritePos == old(deltaWritePos)
    {
      H.ResetKeepsValid(View());
      buffer0, buffer1 := new Byte[0], new Byte[0];
      deltaBuffer := new Byte[0];
      ClearDeltas();
      deltaCount, totalDeltaCount := 0, 0;
      plain := seq(CAPACITY, i => []);
    }

    method ClearDeltas()
      modifies deltas
      ensures deltas[..] == seq(deltas.Length, i => [])
    {
      for i := 0 to deltas.Length
        invariant deltas[..i] == seq(i, i => [])
      {
        deltas[i] := [];
      }
    }

    /** XORs the first `n` bytes of the next buffer into the current buffer, which is both input and output. */
    method XorIntoCurrent(n: nat)
      requires buffer0 != buffer1 && n <= Current().Length && n <= Next().Length
      modifies Current()
      ensures Current()[..] == old(Delta(Current()[..], Next()[..], n) + Current()[n..])
    {
      DeltaCommutes(Current()[..], Next()[..], n);
      XorInto(byteOrder, Current(), buffer0, buffer1, n);
    }

    /** Takes the newest delta off the ring and decompresses it into the next buffer, without flipping. */
    method TakeDelta()
      requires Valid() && View().PopInBounds() && deltaCount > 0
      modifies this
      ensures unchanged(`deltaBuffer) && unchanged(`nextState)
      ensures Current() == old(Current()) && fresh(Next())
      ensures View() == H.Pop(old(View())).(current := old(View()).current)
    {
      ghost var before := View();
      DecodeNewest(codec, deltas[..], before);
      deltaCount, totalDeltaCount := deltaCount - 1, totalDeltaCount - 1;
      deltaWritePos := if deltaWritePos == 0 then deltas.Length - 1 else deltaWritePos - 1;
      var decompressed := codec.decompress(deltas[deltaWritePos], maxBufferSize);
      var buffer := Vector(decompressed.value);
      if bufferFlip { buffer1 := buffer; } else { buffer0 := buffer; }
    }

    /** Undoes the newest delta in place and loads the restored state into `nextState`. */
    method PopState() returns (popped: bool)
      requires Valid() && View().PopInBounds()
      modifies Repr()
      ensures Valid() && fresh(Repr() - old(Repr()))
      ensures popped <==> old(deltaCount) > 0
      ensures popped ==> deltaCount == old(deltaCount) - 1 && totalDeltaCount == old(totalDeltaCount) - 1
      ensures View() == H.Pop(old(View()))
      ensures nextState == if popped then Loaded(byteOrder, old(nextState), View().current) else old(nextState)
    {
      if deltaCount == 0 {
        return false;
      }
      ghost var before, blocks := View(), deltas[..];
      H.PopKeepsValid(before);
      DecodeNewest(codec, blocks, before);
      TakeDelta();
      XorIntoCurrent(Next().Length);
      assert deltas[..] == blocks && View() == H.Pop(before);
      nextState := Loaded(byteOrder, nextState, Current()[..]);
      return true;
    }

    /** Serializes `nextState` into the next buffer, which becomes the current one. */
    method Serialize()
      modifies this
      ensures bufferFlip == !old(bufferFlip)
      ensures fresh(Current()) && Current()[..] == nextState && Next() == old(Current())
      ensures unchanged(`deltaBuffer) && unchanged(`nextState) && unchanged(`maxBufferSize) && unchanged(`plain)
      ensures unchanged(`deltaWritePos) && unchanged(`deltaCount) && unchanged(`totalDeltaCount)
    {
      GetBuffer();
      var buffer := Vector(nextState);
      if bufferFlip { buffer0 := buffer; } else { buffer1 := buffer; }
    }

    /** One pass of the worker thread's loop under the lock: serializes `nextState` and stores its delta. */
    method ProcessNextState()
      requires Valid()
      modifies Repr()
      ensures Valid() && fresh(Repr() - old(Repr()))
      ensures View() == H.Push(old(View()), nextState)
      ensures nextState == old(nextState) == Current()[..]
      ensures deltaCount == Min(old(deltaCount) + 1, 3600) && totalDeltaCount == old(totalDeltaCount) + 1
    {
      ghost var before, blocks := View(), deltas[..];
      H.PushKeepsValid(before, nextState);
      EncodeNewest(codec, blocks, before, nextState);
      Serialize();
      assert deltas[..] == blocks && View() == before.(current := nextState, next := before.current);
      ProcessFrame();
    }

    /** Clears the next buffer and flips the buffers. */
    method GetBuffer()
      modifies this
      ensures bufferFlip == !old(bufferFlip)
      ensures fresh(Current()) && Current().Length == 0 && Next() == old(Current())
      ensures unchanged(`deltaBuffer) && unchanged(`nextState) && unchanged(`maxBufferSize) && unchanged(`plain)
      ensures unchanged(`deltaWritePos) && unchanged(`deltaCount) && unchanged(`totalDeltaCount)
    {
      if bufferFlip { buffer1 := new Byte[0]; } else { buffer0 := new Byte[0]; }
      bufferFlip := !bufferFlip;
    }

    /** Fills the delta buffer with the XOR of both buffers, the shorter one continued with zeros. */
    method ComputeDelta()
      requires buffer0 != buffer1 && deltaBuffer != buffer0 && deltaBuffer != buffer1
      modifies this`deltaBuffer, deltaBuffer
      ensures deltaBuffer == old(deltaBuffer) || fresh(deltaBuffer)
      ensures var size := Max(buffer0.Length, buffer1.Length);
              deltaBuffer[..] == Delta(buffer0[..], buffer1[..], size)
                                 + old(deltaBuffer[Min(size, deltaBuffer.Length)..])
    {
      var maxSize := Max(buffer0.Length, buffer1.Length);
      if deltaBuffer.Length < maxSize {
        deltaBuffer := Resize(deltaBuffer, maxSize);
      }
      XorBuffers();
    }

    /** Overwrites the start of the delta buffer, which is large enough. */
    method XorBuffers()
      requires buffer0 != buffer1 && deltaBuffer != buffer0 && deltaBuffer != buffer1
      requires Max(buffer0.Length, buffer1.Length) <= deltaBuffer.Length
      modifies deltaBuffer
      ensures var size := Max(buffer0.Length, buffer1.Length);
              deltaBuffer[..] == Delta(buffer0[..], buffer1[..], size) + old(deltaBuffer[size..])
    {
      var maxSize, minSize := Max(buffer0.Length, buffer1.Length), Min(buffer0.Length, buffer1.Length);
      ghost var before := deltaBuffer[..];
      XorInto(byteOrder, deltaBuffer, buffer0, buffer1, minSize);
      TailOfLarger(buffer0[..], buffer1[..]);
      TailCopied(Delta(buffer0[..], buffer1[..], minSize), before, buffer0[..]);
      TailCopied(Delta(buffer0[..], buffer1[..], minSize), before, buffer1[..]);

      // Copy the tail from the larger buffer, which is a XOR with zeros
      if minSize < maxSize {
        if buffer0.Length == maxSize {
          CopyTail(buffer0, minSize, maxSize);
        } else {
          CopyTail(buffer1, minSize, maxSize);
        }
      }
    }

    method CopyTail(from: array<Byte>, lo: nat, hi: nat)
      requires lo <= hi <= from.Length && hi <= deltaBuffer.Length && from != deltaBuffer
      modifies deltaBuffer
      ensures deltaBuffer[..] == old(deltaBuffer[..lo]) + from[lo..hi] + old(deltaBuffer[hi..])
    {
      forall i | lo <= i < hi { deltaBuffer[i] := from[i]; }
    }

    /** Computes, compresses and stores the delta between the two buffers. */
    method ProcessFrame()
      requires buffer0 != buffer1 && deltaBuffer != buffer0 && deltaBuffer != buffer1
      requires (deltas as object) !in {buffer0 as object, buffer1, deltaBuffer}
      requires |plain| == deltas.Length && View().RingOk()
      modifies this, deltaBuffer, deltas
      ensures unchanged(`buffer0) && unchanged(`buffer1) && unchanged(`bufferFlip) && unchanged(`nextState)
      ensures deltaBuffer == old(deltaBuffer) || fresh(deltaBuffer)
      ensures View() == H.Push(old(View().(current := Next()[..])), Current()[..])
      ensures deltas[..] == old(deltas[..])[old(deltaWritePos) := codec.compress(deltaBuffer[..])]
    {
      ghost var before, blocks := View().(current := Next()[..]), deltas[..];
      ComputeDelta();
      DeltaCommutes(buffer0[..], buffer1[..], Max(buffer0.Length, buffer1.Length));
      assert deltaBuffer[..] == H.Push(before, Current()[..]).deltaBuffer;
      assert deltas[..] == blocks;
      StoreDelta();
      maxBufferSize := Max(maxBufferSize, Max(buffer0.Length, buffer1.Length));
    }

    /** Compresses the delta buffer into the ring. */
    method StoreDelta()
      requires deltaWritePos < |plain| == deltas.Length
      requires (deltas as object) !in {buffer0 as object, buffer1, deltaBuffer}
      modifies `deltaWritePos, `deltaCount, `totalDeltaCount, `plain, deltas
      ensures deltas[..] == old(deltas[..])[old(deltaWritePos) := codec.compress(deltaBuffer[..])]
      ensures plain == old(plain)[old(deltaWritePos) := deltaBuffer[..]]
      ensures deltaWritePos == if old(deltaWritePos) + 1 == deltas.Length then 0 else old(deltaWritePos) + 1
      ensures deltaCount == if old(deltaCount) < deltas.Length then old(deltaCount) + 1 else old(deltaCount)
      ensures totalDeltaCount == old(totalDeltaCount) + 1
      ensures deltaBuffer[..] == old(deltaBuffer[..])
      ensures buffer0[..] == old(buffer0[..]) && buffer1[..] == old(buffer1[..])
    {
      NextSlot(deltaWritePos, deltas.Length);
      plain := plain[deltaWritePos := deltaBuffer[..]];
      deltas[deltaWritePos] := codec.compress(deltaBuffer[..]);
      deltaWritePos := (deltaWritePos + 1) % deltas.Length;
      if deltaCount < deltas.Length {
        deltaCount := deltaCount + 1;
      }
      totalDeltaCount := totalDeltaCount + 1;
    }
  }
}
