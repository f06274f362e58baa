/** Loading the CD audio ring of old save states into the smaller ring of new ones (cereal_savestate.hpp). */
module CddaMigration {
  import opened Common

  type Sample = bv8

  const TWO_32: nat := 0x1_0000_0000

  /** 32-bit unsigned wrap-around. */
  function U32(n: int): nat { n % TWO_32 }

  /** Bytes the migration takes a ring of `size` bytes to hold; equal positions mean full when `ready`, else empty. */
  function Held(size: nat, readPos: nat, writePos: nat, ready: bool): nat
    requires readPos < size && writePos < size
  {
    if readPos < writePos then writePos - readPos
    else if writePos < readPos then writePos + size - readPos
    else if ready then size
    else 0
  }

  /** The contents of a ring as the migration sees them, oldest byte first. */
  function Contents(ring: seq<Sample>, readPos: nat, writePos: nat, ready: bool): (c: seq<Sample>)
    requires readPos < |ring| && writePos < |ring|
    ensures |c| == Held(|ring|, readPos, writePos, ready)
  {
    if readPos < writePos then ring[readPos..writePos]
    else if writePos < readPos || ready then ring[readPos..] + ring[..writePos]
    else []
  }

  /** Byte by byte: from the read position on, around the end, a full turn when equal positions mean full. */
  lemma ContentsExactly(ring: seq<Sample>, readPos: nat, writePos: nat, ready: bool)
    requires readPos < |ring| && writePos < |ring|
    ensures var c := Contents(ring, readPos, writePos, ready);
            && (readPos == writePos ==> |c| == if ready then |ring| else 0)
            && (readPos != writePos ==>
                  0 < |c| < |ring| && (readPos + |c| == writePos || readPos + |c| == writePos + |ring|))
            && forall i :: 0 <= i < |c| ==>
                 c[i] == ring[if readPos + i < |ring| then readPos + i else readPos + i - |ring|]
  {
  }

  datatype Positions = Illegal | Positions(readPos: nat, writePos: nat)

  method CopyN(source: seq<Sample>, target: array<Sample>, at: nat)
    requires at + |source| <= target.Length
    modifies target
    ensures target[..] == old(target[..at]) + source + old(target[at + |source|..])
  {
    forall i | 0 <= i < |source| { target[at + i] := source[i]; }
  }

  /** Moving the read position forward leaves the newest bytes. */
  lemma SkipOldest(ring: seq<Sample>, readPos: nat, writePos: nat, ready: bool, n: nat)
    requires readPos < |ring| && writePos < |ring| && 0 < n < Held(|ring|, readPos, writePos, ready)
    ensures var skipped := readPos + Held(|ring|, readPos, writePos, ready) - n;
            var pos := if skipped >= |ring| then skipped - |ring| else skipped;
            && pos != writePos
            && Contents(ring, pos, writePos, ready) == LastN(Contents(ring, readPos, writePos, ready), n)
  {
    var skip := Held(|ring|, readPos, writePos, ready) - n;
    if writePos <= readPos {
      SkipWrapped(ring, readPos, writePos, skip);
    }
  }

  lemma SkipWrapped(ring: seq<Sample>, readPos: nat, writePos: nat, skip: nat)
    requires writePos <= readPos < |ring| && skip <= |ring| - readPos + writePos
    ensures (ring[readPos..] + ring[..writePos])[skip..]
         == if readPos + skip < |ring| then ring[readPos + skip..] + ring[..writePos]
            else ring[readPos + skip - |ring|..writePos]
  {
  }

  /** The 32-bit difference of two positions, with the size added back when it wrapped around. */
  lemma WrappedDistance(writePos: nat, readPos: nat, size: nat)
    requires writePos < size && readPos < size && 2 * size < TWO_32
    ensures readPos <= writePos ==> U32(writePos - readPos) == writePos - readPos
    ensures writePos < readPos ==> U32(U32(writePos - readPos) + size) == writePos - readPos + size
  {
  }

  /** How many bytes a ring holds, in 32-bit arithmetic. */
  method Count(readPos: nat, writePos: nat, size: nat, ready: bool) returns (count: nat)
    requires readPos < size && writePos < size && 2 * size < TWO_32
    ensures count == Held(size, readPos, writePos, ready)
  {
    WrappedDistance(writePos, readPos, size);
    count := U32(writePos - readPos);
    if writePos < readPos {
      count := U32(count + size);
    } else if writePos == readPos && ready {
      count := size;
    }
  }

  /** Drops the oldest bytes that do not fit in `size`; what is left is never a full old ring. */
  method SkipExcess(ring: seq<Sample>, oldReadPos: nat, writePos: nat, ready: bool, size: nat)
    returns (readPos: nat)
    requires oldReadPos < |ring| && writePos < |ring| && 0 < size < |ring| && 2 * |ring| < TWO_32
    ensures readPos < |ring| && !(readPos == writePos && ready)
    ensures Contents(ring, readPos, writePos, ready) == LastN(Contents(ring, oldReadPos, writePos, ready), size)
  {
    readPos := oldReadPos;
    var count := Count(readPos, writePos, |ring|, ready);
    if count > size {
      SkipOldest(ring, readPos, writePos, ready, size);
      readPos := readPos + (count - size);
      if readPos >= |ring| {
        readPos := readPos - |ring|;
      }
    }
  }

  function NewWritePos(count: nat, size: nat): nat {
    if count >= size then count - size else count
  }

  lemma WrapOnce(n: nat, size: nat)
    requires n <= size && 0 < size
    ensures n % size == NewWritePos(n, size)
  {
  }

  lemma TwoParts(a: seq<Sample>, b: seq<Sample>, before: seq<Sample>)
    requires |a| + |b| <= |before|
    ensures before[..0] + a + before[|a|..] == a + before[|a|..]
    ensures var half := a + before[|a|..];
            half[..|a|] + b + half[|a| + |b|..] == (a + b) + before[|a + b|..]
  {
  }

  /** Copies the two parts of a ring that wraps around. */
  method CopyWrapped(ring: seq<Sample>, readPos: nat, writePos: nat, target: array<Sample>)
    requires writePos < readPos < |ring| && |ring| - readPos + writePos <= target.Length
    modifies target
    ensures var c := ring[readPos..] + ring[..writePos]; target[..] == c + old(target[|c|..])
  {
    TwoParts(ring[readPos..], ring[..writePos], target[..]);
    CopyN(ring[readPos..], target, 0);
    CopyN(ring[..writePos], target, |ring| - readPos);
  }

  /** Copies what a ring holds to the start of the new ring; returns the new write position. */
  method CopyContents(ring: seq<Sample>, readPos: nat, writePos: nat, ready: bool, target: array<Sample>)
    returns (newWritePos: nat)
    requires readPos < |ring| && writePos < |ring| && 2 * |ring| < TWO_32
    requires !(readPos == writePos && ready)
    requires Held(|ring|, readPos, writePos, ready) <= target.Length && 0 < target.Length
    modifies target
    ensures var kept := Contents(ring, readPos, writePos, ready);
            && newWritePos == |kept| % target.Length
            && target[..] == kept + (if kept == [] then seq(target.Length, i => 0) else old(target[|kept|..]))
  {
    WrapOnce(Held(|ring|, readPos, writePos, ready), target.Length);
    WrappedDistance(writePos, readPos, |ring|);
    if writePos < readPos {
      CopyWrapped(ring, readPos, writePos, target);
      newWritePos := NewWritePos(U32(U32(writePos - readPos) + |ring|), target.Length);
    } else if writePos > readPos {
      CopyN(ring[readPos..writePos], target, 0);
      newWritePos := NewWritePos(writePos - readPos, target.Length);
    } else if ready {
      // Buffer is full: it cannot be, the new ring being smaller
      assert false;
    } else {
      forall i | 0 <= i < target.Length { target[i] := 0; }
      newWritePos := 0;
    }
  }

  /**
   Moves the newest bytes of the old ring (`OLD_SIZE` bytes in the program) to the start of the new one
   (`NEW_SIZE` bytes). `Illegal` stands for the exception; nothing is written then.
   */
  method Migrate(oldRing: seq<Sample>, oldReadPos: nat, writePos: nat, ready: bool, newRing: array<Sample>)
    returns (r: Positions)
    requires 0 < newRing.Length < |oldRing| && 2 * |oldRing| < TWO_32
    modifies newRing
    ensures r == Illegal <==> oldReadPos >= |oldRing| || writePos >= |oldRing|
    ensures r == Illegal ==> newRing[..] == old(newRing[..])
    ensures r != Illegal ==>
      var kept := LastN(Contents(oldRing, oldReadPos, writePos, ready), newRing.Length);
      && r == Positions(0, |kept| % newRing.Length)
      && newRing[..] == kept + (if kept == [] then seq(newRing.Length, i => 0) else old(newRing[|kept|..]))
  {
    if oldReadPos >= |oldRing| || writePos >= |oldRing| {
      return Illegal;
    }
    var readPos := SkipExcess(oldRing, oldReadPos, writePos, ready, newRing.Length);
    var newWritePos := CopyContents(oldRing, readPos, writePos, ready, newRing);
    r := Positions(0, newWritePos);
  }

  // ----- What is played -----

  /** The bytes waiting in a ring as the SCSP sees them: equal positions always mean empty. */
  function Waiting(ring: seq<Sample>, readPos: nat, writePos: nat): seq<Sample>
    requires readPos < |ring| && writePos < |ring|
  {
    Contents(ring, readPos, writePos, false)
  }

  /** The bytes the SCSP plays before it runs dry. */
  function Playable(ring: seq<Sample>, readPos: nat, writePos: nat, ready: bool): seq<Sample>
    requires readPos < |ring| && writePos < |ring|
  {
    if ready then Waiting(ring, readPos, writePos) else []
  }

  /**
   To the SCSP the new ring holds the newest bytes of the old one exactly when they do not fill it, whether or
   not `ready` is set; when they do, it is empty.
   */
  lemma MigrationKeepsNewestExactly(oldRing: seq<Sample>, readPos: nat, writePos: nat, ready: bool,
                                    newRing: seq<Sample>)
    requires 0 < |newRing| < |oldRing| && readPos < |oldRing| && writePos < |oldRing|
    requires LastN(Contents(oldRing, readPos, writePos, ready), |newRing|) <= newRing
    ensures var kept := LastN(Contents(oldRing, readPos, writePos, ready), |newRing|);
            var waiting := Waiting(newRing, 0, |kept| % |newRing|);
            && (waiting == kept <==> Held(|oldRing|, readPos, writePos, ready) < |newRing|)
            && (waiting == kept || waiting == [])
  {
    var kept := LastN(Contents(oldRing, readPos, writePos, ready), |newRing|);
    WrapOnce(|kept|, |newRing|);
    assert kept == newRing[0..|kept|];
  }

  const OLD_SIZE: nat := 2048 * 75
  const NEW_SIZE: nat := 2352 * 15

  /** With the program's sizes: `NEW_SIZE` bytes held while the ring is played are all lost. */
  lemma FullRingPlaysNothing(oldRing: seq<Sample>, newRing: seq<Sample>)
    requires |oldRing| == OLD_SIZE && |newRing| == NEW_SIZE && newRing == oldRing[..NEW_SIZE]
    ensures var kept := LastN(Contents(oldRing, 0, NEW_SIZE, true), NEW_SIZE);
            && kept == newRing
            && Playable(newRing, 0, |kept| % NEW_SIZE, true) == []
  {
  }

  /** Bytes of one stereo sample. */
  const FRAME: nat := 4

  const SILENCE: seq<Sample> := [0, 0, 0, 0]

  lemma NextPos(readPos: nat, size: nat)
    requires readPos < size && readPos % FRAME == size % FRAME == 0
    ensures var next := (readPos + FRAME) % size;
            && readPos + FRAME <= size && next < size && next % FRAME == 0
            && next == if readPos + FRAME == size then 0 else readPos + FRAME
  {
    FrameFits(readPos, size);
    if readPos + FRAME == size {
      RemainderIs(readPos + FRAME, size, 1, 0);
    } else {
      RemainderIs(readPos + FRAME, size, 0, readPos + FRAME);
    }
  }

  lemma FrameFits(readPos: nat, size: nat)
    requires readPos < size && readPos % FRAME == size % FRAME == 0
    ensures readPos + FRAME <= size && (readPos + FRAME) % FRAME == 0
  {
  }

  /** What the SCSP plays in `n` samples while nothing is written: an empty ring gives silence and clears `ready`. */
  function Played(ring: seq<Sample>, readPos: nat, writePos: nat, ready: bool, n: nat): seq<Sample>
    requires readPos < |ring| && readPos % FRAME == |ring| % FRAME == 0
    decreases n
  {
    if n == 0 then []
    else if ready && readPos != writePos then
      NextPos(readPos, |ring|);
      ring[readPos..readPos + FRAME] + Played(ring, (readPos + FRAME) % |ring|, writePos, true, n - 1)
    else SILENCE + Played(ring, readPos, writePos, false, n - 1)
  }

  /** The first `n` samples of `bytes` continued with silence. */
  function Heard(bytes: seq<Sample>, n: nat): seq<Sample>
    decreases n
  {
    if n == 0 then []
    else if FRAME <= |bytes| then bytes[..FRAME] + Heard(bytes[FRAME..], n - 1)
    else SILENCE + Heard(bytes, n - 1)
  }

  /** Byte by byte. */
  lemma {:induction false} HeardExactly(bytes: seq<Sample>, n: nat)
    requires |bytes| % FRAME == 0
    ensures |Heard(bytes, n)| == 4 * n
    ensures forall i :: 0 <= i < 4 * n ==> Heard(bytes, n)[i] == if i < |bytes| then bytes[i] else 0
    decreases n
  {
    if n > 0 {
      HeardExactly(if FRAME <= |bytes| then bytes[FRAME..] else bytes, n - 1);
    }
  }

  /** The SCSP plays what is waiting, in order, and then silence. */
  lemma {:induction false} PlaysWaiting(ring: seq<Sample>, readPos: nat, writePos: nat, ready: bool, n: nat)
    requires readPos < |ring| && writePos < |ring|
    requires readPos % FRAME == writePos % FRAME == |ring| % FRAME == 0
    ensures Played(ring, readPos, writePos, ready, n) == Heard(Playable(ring, readPos, writePos, ready), n)
    decreases n
  {
    if n > 0 {
      if ready && readPos != writePos {
        PlaysOne(ring, readPos, writePos);
        PlaysWaiting(ring, (readPos + FRAME) % |ring|, writePos, true, n - 1);
      } else {
        PlaysWaiting(ring, readPos, writePos, false, n - 1);
      }
    }
  }

  lemma PlaysOne(ring: seq<Sample>, readPos: nat, writePos: nat)
    requires readPos < |ring| && writePos < |ring| && readPos != writePos
    requires readPos % FRAME == writePos % FRAME == |ring| % FRAME == 0
    ensures var next := (readPos + FRAME) % |ring|;
            && readPos + FRAME <= |ring| && next % FRAME == 0
            && FRAME <= |Waiting(ring, readPos, writePos)|
            && Waiting(ring, readPos, writePos)[..FRAME] == ring[readPos..readPos + FRAME]
            && Waiting(ring, readPos, writePos)[FRAME..] == Waiting(ring, next, writePos)
  {
    NextPos(readPos, |ring|);
  }

  /** After the migration the SCSP plays the newest bytes of the old ring, or, when they fill the new one, nothing. */
  lemma MigratedRingPlays(oldRing: seq<Sample>, readPos: nat, writePos: nat, ready: bool, newRing: seq<Sample>, n: nat)
    requires 0 < |newRing| < |oldRing| && readPos < |oldRing| && writePos < |oldRing|
    requires readPos % FRAME == writePos % FRAME == |oldRing| % FRAME == |newRing| % FRAME == 0
    requires LastN(Contents(oldRing, readPos, writePos, ready), |newRing|) <= newRing
    ensures var kept := LastN(Contents(oldRing, readPos, writePos, ready), |newRing|);
            Played(newRing, 0, |kept| % |newRing|, ready, n)
            == Heard(if ready && Held(|oldRing|, readPos, writePos, ready) < |newRing| then kept else [], n)
  {
    var kept := LastN(Contents(oldRing, readPos, writePos, ready), |newRing|);
    MigrationKeepsNewestExactly(oldRing, readPos, writePos, ready, newRing);
    KeptAligned(|oldRing|, readPos, writePos, ready, |newRing|);
    PlaysWaiting(newRing, 0, |kept| % |newRing|, ready, n);
  }

  /** Whole samples stay whole. */
  lemma KeptAligned(oldSize: nat, readPos: nat, writePos: nat, ready: bool, newSize: nat)
    requires readPos < oldSize && writePos < oldSize && 0 < newSize
    requires readPos % FRAME == writePos % FRAME == oldSize % FRAME == newSize % FRAME == 0
    ensures var kept := Min(Held(oldSize, readPos, writePos, ready), newSize);
            kept % newSize < newSize && kept % newSize % FRAME == 0
  {
    var held := Held(oldSize, readPos, writePos, ready);
    assert held % FRAME == 0;
    WrapOnce(Min(held, newSize), newSize);
  }
}
