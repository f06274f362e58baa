/** Undo of whole save states: the history of rewind_buffer.cpp seen through the archives. */
module RewindSnapshots {
  import opened Bytes
  import opened Common
  import opened RewindHistory
  import opened RewindShrinking
  import opened SaveStateVersion
  import opened VectorArchive
  import opened XorLoop

  /** A save state: the values its serializer passes to the archive, the version first. */
  type Snapshot = seq<Buffer>

  function Serialized(snapshots: seq<Snapshot>): (r: seq<Buffer>)
    ensures |r| == |snapshots|
  {
    seq(|snapshots|, i requires 0 <= i < |snapshots| => SaveAll(snapshots[i]))
  }

  /** Zeros after the end of a save state are never read. */
  lemma LoadPadded(values: Snapshot, n: nat)
    requires |SaveAll(values)| <= n
    ensures LoadAll(Padded(SaveAll(values), n), 0, Sizes(values)) == Some((values, |SaveAll(values)|))
  {
    var zeros := Padded(SaveAll(values), n)[|SaveAll(values)|..];
    LoadAllSaved([], values, zeros);
    assert [] + SaveAll(values) + zeros == Padded(SaveAll(values), n);
    assert [] + SaveAll(values) == SaveAll(values);
  }

  /** Undoing `n` of the last pushed save states loads the one pushed just before them, value for value. */
  lemma CleanUndoLoadsSnapshot(s: State, h: History, snapshots: seq<Snapshot>, n: nat)
    requires Holds(s, h) && n <= |s.ring| && n < |snapshots|
    requires var ops := Pushes(Serialized(snapshots)) + Pops(n); RunInBounds(s, ops) && CleanRun(s, ops)
    ensures var wanted := snapshots[|snapshots| - 1 - n];
            LoadAll(Run(s, Pushes(Serialized(snapshots)) + Pops(n)).current, 0, Sizes(wanted))
            == Some((wanted, |SaveAll(wanted)|))
  {
    CleanUndoIsLifo(s, h, Serialized(snapshots), n);
    SerializedBefore(h.current, snapshots, n);
    LoadPadded(snapshots[|snapshots| - 1 - n], |Run(s, Pushes(Serialized(snapshots)) + Pops(n)).current|);
  }

  lemma SerializedBefore(current: Buffer, snapshots: seq<Snapshot>, n: nat)
    requires n < |snapshots|
    ensures ([current] + Serialized(snapshots))[|snapshots| - n] == SaveAll(snapshots[|snapshots| - 1 - n])
  {
  }

  /** NextState then holds what was restored, when the state starts with a version the serializer accepts. */
  lemma RestoredSnapshotIsRead(order: ByteOrder, nextState: Buffer, s: State, h: History, snapshots: seq<Snapshot>,
                               n: nat)
    requires Holds(s, h) && n <= |s.ring| && n < |snapshots|
    requires var ops := Pushes(Serialized(snapshots)) + Pops(n); RunInBounds(s, ops) && CleanRun(s, ops)
    requires var wanted := snapshots[|snapshots| - 1 - n];
             wanted != [] && |wanted[0]| == 4 && Readable(order, wanted[0])
    ensures var restored := Run(s, Pushes(Serialized(snapshots)) + Pops(n)).current;
            Loaded(order, nextState, restored) == restored
  {
    CleanUndoIsLifo(s, h, Serialized(snapshots), n);
    SerializedBefore(h.current, snapshots, n);
    VersionRestored(order, snapshots[|snapshots| - 1 - n], Run(s, Pushes(Serialized(snapshots)) + Pops(n)).current);
    LoadedExactly(order, nextState, Run(s, Pushes(Serialized(snapshots)) + Pops(n)).current);
  }

  lemma VersionRestored(order: ByteOrder, wanted: Snapshot, restored: Buffer)
    requires wanted != [] && |wanted[0]| == 4 && Readable(order, wanted[0])
    requires |SaveAll(wanted)| <= |restored| && restored == Padded(SaveAll(wanted), |restored|)
    ensures Readable(order, restored)
  {
    assert SaveAll(wanted)[..4] == wanted[0];
    assert forall i :: 0 <= i < 4 ==> restored[i] == wanted[0][i];
  }

  /** In particular when save states do not shrink, even though the one loaded may be smaller than those undone. */
  lemma UndoLoadsSnapshot(s: State, h: History, snapshots: seq<Snapshot>, n: nat)
    requires Represents(s, h) && NonShrinking(Pushes(Serialized(snapshots)), |s.deltaBuffer|)
    requires n <= |s.ring| && n < |snapshots|
    ensures var ops := Pushes(Serialized(snapshots)) + Pops(n);
            && RunInBounds(s, ops)
            && var wanted := snapshots[|snapshots| - 1 - n];
               LoadAll(Run(s, ops).current, 0, Sizes(wanted)) == Some((wanted, |SaveAll(wanted)|))
  {
    PopsNeverShrink(Pushes(Serialized(snapshots)), n, |s.deltaBuffer|);
    NonShrinkingIsClean(s, h, Pushes(Serialized(snapshots)) + Pops(n));
    CleanUndoLoadsSnapshot(s, h, snapshots, n);
  }

  /**
   Undoing the very first push after a reset leaves a buffer of zeros of that push's length, whose version
   is zero: the serializer ignores it and NextState stays what it was.
   */
  lemma UndoingTheFirstPushIsIgnored(s: State, x: Buffer, order: ByteOrder, nextState: Buffer)
    requires s.Valid()
    ensures var one := Push(Reset(s), x);
            && one.PopInBounds()
            && |Pop(one).current| == |x|
            && Loaded(order, nextState, Pop(one).current) == nextState
            && Pop(one).count == 0
  {
    FirstPushUndone(s, x);
    ZerosAreIgnored(order, nextState, Pop(Push(Reset(s), x)).current);
  }

  lemma FirstPushUndone(s: State, x: Buffer)
    requires s.Valid()
    ensures var one := Push(Reset(s), x);
            one.PopInBounds() && Pop(one).current == Padded([], |x|) && Pop(one).count == 0
  {
    ResetRepresents(s);
    PushRepresents(Reset(s), EMPTY_HISTORY, x);
    PopRepresents(Push(Reset(s), x), HistoryPush(EMPTY_HISTORY, x, |s.ring|));
  }
}
