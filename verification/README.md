# Ymir: verified models of the rewind buffer, the line stepper and their companions

This project models the self-contained, stateful and arithmetic parts of Ymir's desktop frontend and web shell in
Dafny and proves what they are for. `dafny verify dfyconfig.toml` checks everything.

| file | models |
|---|---|
| `RewindHistory.dfy`, `RewindShrinking.dfy`, `RewindBuffer.dfy`, `XorLoop.dfy`, `Bytes.dfy` | the rewind buffer: a ring of compressed XOR deltas undone in place |
| `RewindHandshake.dfy` | the two-event handshake between the emulator thread and the rewind worker |
| `RewindThreads.dfy` | the handshake and the rewind buffer together, interleaved inside the critical sections |
| `VectorArchive.dfy`, `SaveStateVersion.dfy`, `RewindSnapshots.dfy` | the byte-vector archives, the version rule of save states, and undo of whole save states |
| `LineStepper.dfy`, `LineStepperProofs.dfy`, `LineStepperTheorems.dfy` | the random-access line stepper |
| `CddaMigration.dfy` | moving the CD audio ring of old save states into the new, smaller one |
| `Unzip.dfy`, `ZipArchive.dfy` | the ZIP directory reader, and archives as PKWARE's APPNOTE.TXT lays them out |
| `AudioRings.dfy`, `AudioPipeline.dfy`, `AudioPath.dfy` | the bridge's and the worklet's audio rings, and the way of frames through both |
| `PlayerIndices.dfy` | player indices of gamepads over runs of added and removed events |
| `LineFramer.dfy` | splitting the debug protocol's stream into lines |
| `TraceRing.dfy` | the tracers' ring buffer with wrapping 64-bit indices |
| `Common.dfy` | options, bounded queues, quotient and remainder |

## How the pieces fit

Each class has the fields of the original and methods in its form (loops, arrays updated in place, aliasing buffers).
A method's contract equates the new `View()` or `Contents()` with a function of the old one; the theorems are lemmas
about that function.

**Rewind buffer.** Three levels: `RewindBuffer.RewindBuffer` (arrays, word-at-a-time XOR loops whose output is one of
their inputs, compressed blocks), `RewindHistory.State` (the same as a value, deltas uncompressed), and
`RewindHistory.History` (the undo stack a user expects). Every method is proved equal to a step of the second level,
and every run of the second level to a run of the third. The compressor is a parameter, any pair of functions of which
decompression into a large enough buffer undoes compression. `RewindThreads` puts the second level under the actions of
the two threads of `RewindHandshake`, with the buffer changing in halves while the lock is held: every interleaving is
a run of pushes, pops and resets in the order of the lock, and so a run of the third level.

**Line stepper.** `Seek` is SetStep with C's truncating division; `Stepped` is the simple form, one pixel at a time.
Both are tied to the closed form `At`, whose row is the pixel nearest to the ideal line.

## Where the code and its documentation differ

The models follow the code. The lemma named proves exactly when the promise holds.

- `ymir/CHANGELOG.md` line 393 says the size of the rewound state may vary. Growing between two resets is fine,
  because save states are read from the front and the padding is never read (`UndoLoadsSnapshot`). Shrinking is not:
  a push shorter than the delta buffer makes PopState work past the end of the current buffer when it is undone at
  once (`NonShrinkingIsExact`, `ShrinkingStateCannotBeUndone`); after longer pushes the undo is in bounds, but can
  restore a wrong state, because the whole delta buffer is stored and its end may come from an earlier delta
  (`WrongStateRestored`). It restores the right one exactly when that end is zero (`UndoneExactlyWhenClean`,
  `CleanRunsExactly`).
- `rewind_buffer.hpp` line 58 asks for NextState to be filled before ProcessState. The emulator fills it for the
  next frame before it waits for the previous one, so a state can be replaced before it is serialized and the next
  one pushed twice (`SecondSaveCanReplaceFirst`); `FaithfulExactlyWhenNotOverwritten` says when the pushed states are
  the requested ones. Writing NextState only while stateProcessed is set is enough (`GuardedRunsAreFaithful`), and
  waiting for that cannot block forever (`GuardComes`).
- SetStep is documented for any step. C's division rounds toward zero, so a seek back finds the right pixel only in
  the cases of `BackwardSeekExactly`; forward seeks, the only ones made, always do.
- With antialiasing, lines drawn in opposite directions differ at every tie (`AntialiasedReversal`), as from (0,0) to
  (2,1) at its middle (`ReversedTieMisses`); without, never (`ReversalSymmetry`).
- `cereal_savestate.hpp` line 918 says the new CD audio ring has 2352 * 25 bytes; it has 2352 * 15
  (`savestate_scsp.hpp` line 20). The loader takes equal positions of a ready ring to mean full, the SCSP always takes
  them to mean empty. So when the old ring holds at least 35280 bytes, the migrated ring is full for the loader and
  empty for the SCSP, ready or not, and every byte is lost (`MigrationKeepsNewestExactly`, `FullRingPlaysNothing`).
- A gamepad reported as added twice loses its first index, and the next new gamepad can share an index with it
  (`ConnectExactly`, `RepeatedAddSharesIndex`).
- `ring_buffer.hpp` accepts any size; reads are right exactly for sizes that divide 2^64 (`SizeExactly`).
- The bridge's ring is described as holding 65536 stereo frames; it holds at most 65535 (`OnAudioSample`).
- The end-of-directory search trusts the last signature in the file, so an archive comment that contains one hides
  the directory (`EndRecordFoundExactly`); with an empty end record in the comment there are no files at all
  (`CommentHidesFiles`).

## Model

| member | source | states |
|---|---|---|
| XorLoop.XorInto | ymir/apps/ymir-sdl3/src/app/rewind_buffer.cpp:94-101 | the word loop and its byte tail give the bytewise XOR of the inputs as they were, for every length, the rest untouched, also when the output is one of the inputs |
| XorLoop.WordXor | ymir/apps/ymir-sdl3/src/app/rewind_buffer.cpp:156-159 | XOR of two native-endian words is the XOR of their eight bytes, in either byte order |
| XorLoop.WriteRead | ymir/apps/ymir-sdl3/src/app/rewind_buffer.cpp:96-98 | writing a word read from memory gives the same bytes back, in either byte order |
| XorLoop.ByteOrdersExactly | ymir/apps/ymir-sdl3/src/app/rewind_buffer.cpp:96-98 | the first byte read is the least significant one on little-endian hosts and the most significant one on others |
| RewindBuffer.TailOfLarger | ymir/apps/ymir-sdl3/src/app/rewind_buffer.cpp:165-173 | XOR up to the shorter buffer and a copy of the longer one's tail is the XOR of the zero-continued buffers |
| RewindBuffer.RewindBuffer.constructor | ymir/apps/ymir-sdl3/src/app/rewind_buffer.cpp:15-17 | a new buffer is the initial state of the history model with 3600 slots |
| RewindBuffer.RewindBuffer.Reset | ymir/apps/ymir-sdl3/src/app/rewind_buffer.cpp:26-41 | is the model's reset: buffers, deltas and counts gone, write position and largest size kept |
| RewindBuffer.RewindBuffer.PopState | ymir/apps/ymir-sdl3/src/app/rewind_buffer.cpp:61-108 | is the model's pop; reports whether there was a delta, and then both counts are one less; NextState is what `LoadedExactly` says the restored buffer leaves in it, and is untouched when there was no delta |
| RewindBuffer.RewindBuffer.ProcessNextState | ymir/apps/ymir-sdl3/src/app/rewind_buffer.cpp:119-129 | one pass of the worker is the model's push of NextState; the stored count grows up to 3600, the total always |
| RewindBuffer.RewindBuffer.GetBuffer | ymir/apps/ymir-sdl3/src/app/rewind_buffer.cpp:136-141 | flips the buffers: the current one becomes next, an empty one current |
| RewindBuffer.RewindBuffer.ProcessFrame | ymir/apps/ymir-sdl3/src/app/rewind_buffer.cpp:143-194 | stores the compressed delta of both buffers in the slot at the write position and is otherwise the model's push |
| RewindBuffer.DecodeNewest | ymir/apps/ymir-sdl3/src/app/rewind_buffer.cpp:79-87 | the block before the write position decompresses, within the largest size ever, to the newest delta, whatever the compressor |
| RewindBuffer.EncodeNewest | ymir/apps/ymir-sdl3/src/app/rewind_buffer.cpp:180-191 | overwriting the slot at the write position keeps every block that can still be undone |
| RewindHistory.RunKeepsValid | ymir/apps/ymir-sdl3/src/app/rewind_buffer.cpp:26-41 | over any run of pushes of any length, pops and resets, every stored delta fits in the decompression buffer, positions and counts stay in range and the total count never falls below the stored one |
| RewindHistory.PushKeepsValid | ymir/apps/ymir-sdl3/src/app/rewind_buffer.cpp:180-193 | the deltas that can be undone are the last ones pushed, the oldest dropped at capacity |
| RewindHistory.PopKeepsValid | ymir/apps/ymir-sdl3/src/app/rewind_buffer.cpp:69-76 | a pop removes exactly the newest of the deltas that can be undone |
| RewindHistory.UndoBytes | ymir/apps/ymir-sdl3/src/app/rewind_buffer.cpp:89-101 | undoing a delta in place turns a state, padded with zeros, into the one before, padded to the same length |
| RewindHistory.RunRepresents | ymir/apps/ymir-sdl3/src/app/rewind_buffer.cpp:61-194 | every interleaving of pushes, pops and resets whose states do not shrink between resets is a run of the bounded undo history, every access in bounds |
| RewindHistory.RunFromStart | ymir/apps/ymir-sdl3/src/app/rewind_buffer.cpp:15-17 | so is every such run of a new rewind buffer, from the empty history |
| RewindHistory.UndoablePush | ymir/apps/ymir-sdl3/src/app/rewind_buffer.cpp:145-149 | a push can be undone in bounds if and only if it is at least as long as the delta buffer was |
| RewindHistory.NonShrinkingIsExact | ymir/apps/ymir-sdl3/src/app/rewind_buffer.cpp:79-101 | over whole runs, every push can be undone at once and in bounds if and only if states never shrink between resets |
| RewindHistory.ShrinkingStateCannotBeUndone | ymir/apps/ymir-sdl3/src/app/rewind_buffer.cpp:94-101 | two bytes then one byte is a run whose undo leaves the buffer |
| RewindHistory.UndoIsLifo | ymir/apps/ymir-sdl3/src/app/rewind_buffer.cpp:61-108 | from any state that represents a history, after any pushes that do not shrink, the last min(pushes, capacity) of them are undone in reverse order, each undo giving the state before with zeros up to the buffer's length, and the count says how many undos remain |
| RewindHistory.EqualSizesComeBack | ymir/apps/ymir-sdl3/src/app/rewind_buffer.cpp:61-108 | states of one size come back exactly, without padding |
| RewindShrinking.CleanPushExactly | ymir/apps/ymir-sdl3/src/app/rewind_buffer.cpp:145-190 | the stored delta, which is the whole delta buffer, is that of the two states if and only if what earlier deltas left behind them is zero |
| RewindShrinking.UndoneExactlyWhenClean | ymir/apps/ymir-sdl3/src/app/rewind_buffer.cpp:79-101 | whenever a push of any length is undone in bounds, the state before comes back if and only if the push was clean in that sense |
| RewindShrinking.CleanRunsExactly | ymir/apps/ymir-sdl3/src/app/rewind_buffer.cpp:61-194 | a run in bounds, with states of any lengths, keeps to the bounded undo history at every step if and only if all its pushes are clean |
| RewindShrinking.CleanUndoIsLifo | ymir/apps/ymir-sdl3/src/app/rewind_buffer.cpp:61-108 | in such runs the last pushes are undone in reverse order |
| RewindShrinking.WrongStateRestored | ymir/apps/ymir-sdl3/src/app/rewind_buffer.cpp:176-190 | three bytes, one, one and three again: three undos in bounds give [1, 0, 0] for [1, 2, 3] |
| RewindHandshake.EveryRunKeepsInvariant | ymir/apps/ymir-sdl3/src/app/rewind_buffer.hpp:48-52 | over every interleaving with pops and other lock users there is one hand-over token, every request is serialized once and in order, every serialized state processed once, and what is serialized is the requested state or a later one but never later than the next request |
| RewindHandshake.ReachableStatesKeepInvariant | ymir/apps/ymir-sdl3/src/app/rewind_buffer.hpp:64-70 | in particular from the initial events, of which only stateProcessed is set |
| RewindHandshake.NoDeadlock | ymir/apps/ymir-sdl3/src/app/rewind_buffer.cpp:110-130 | a blocked emulator has a worker that can step or a lock to be released; a blocked worker waits for the lock or has nothing to do |
| RewindHandshake.RequestIsServed | ymir/apps/ymir-sdl3/src/app/rewind_buffer.cpp:113-125 | in every run an outstanding request is serialized after a bounded number of worker actions: no wakeup is lost |
| RewindHandshake.RequestIsProcessed | ymir/apps/ymir-sdl3/src/app/rewind_buffer.cpp:113-129 | two worker actions later its frame has been processed too |
| RewindHandshake.FaithfulExactlyWhenNotOverwritten | ymir/apps/ymir-sdl3/src/app/app.cpp:3445-3448 | the worker pushes exactly the requested states if and only if no save and no successful pop falls between a hand-over and its serialization |
| RewindHandshake.OutstandingIsVisible | ymir/apps/ymir-sdl3/src/app/rewind_buffer.hpp:64-65 | to the emulator thread a request is outstanding exactly while stateProcessed is not set, but for the moment before the worker sets it |
| RewindHandshake.GuardedRunsAreFaithful | ymir/apps/ymir-sdl3/src/app/app.cpp:3446-3447 | when saves and restoring pops only happen while stateProcessed is set, every run pushes exactly the requested states |
| RewindHandshake.GuardComes | ymir/apps/ymir-sdl3/src/app/rewind_buffer.hpp:48-52 | an emulator that waited for stateProcessed before saving would always have a worker that can step or a lock to be released |
| RewindHandshake.SecondSaveCanReplaceFirst | ymir/apps/ymir-sdl3/src/app/app.cpp:3446-3447 | from every quiet state there is a run in which one saved state is never pushed and the next is pushed twice |
| RewindThreads.PopIsAtomic | ymir/apps/ymir-sdl3/src/app/rewind_buffer.cpp:61-108 | a pop between other threads' actions reports a delta exactly when there was one, and its two halves make the model's pop |
| RewindThreads.CriticalSectionsAreAtomic | ymir/apps/ymir-sdl3/src/app/rewind_buffer.cpp:110-130 | whatever the interleaving of both threads' actions and of resets, whenever nobody holds the lock the buffer is what the completed pushes, pops and resets make of it one after the other in the order of the lock |
| RewindThreads.PopsFit | ymir/apps/ymir-sdl3/src/app/rewind_buffer.cpp:83-101 | when saves do not shrink between resets, no pop under way reaches past the current buffer |
| RewindThreads.RunsAreHistories | ymir/apps/ymir-sdl3/src/app/app.cpp:3429-3448 | when saves do not shrink between resets, whenever nobody holds the lock the buffer is the bounded undo history of the completed operations |
| RewindThreads.RunsFromStartAreHistories | ymir/apps/ymir-sdl3/src/app/rewind_buffer.hpp:64-83 | so it is in every run from the start |
| RewindThreads.GuardedRunsPushWhatWasRequested | ymir/apps/ymir-sdl3/src/app/app.cpp:3446-3447 | from the start, with NextState written only while stateProcessed is set, the pushes are the bytes NextState held at each request, each once and in order |
| RewindThreads.RequestsFollowSaves | ymir/apps/ymir-sdl3/src/app/app.cpp:3445-3448 | over every run the requests are for the states the emulator saved, one each and in order, whatever pops write in between |
| RewindThreads.GuardedRunsPushWhatWasSaved | ymir/apps/ymir-sdl3/src/app/app.cpp:3445-3448 | so under that guard the pushes are the saved states in order, each once; at most the last three are still on their way |
| RewindThreads.RunsFinishOperations | ymir/apps/ymir-sdl3/src/app/rewind_buffer.cpp:26-130 | each pass of the worker ends in one push, each PopState in one pop, each Reset in one reset, in the order in which they end |
| RewindThreads.PopsGoBack | ymir/apps/ymir-sdl3/src/app/app.cpp:3431-3438 | in every such run, pops completed after pushes go back that many of them, whatever came earlier and whoever ran in between |
| RewindThreads.PopsRestoreNextState | ymir/apps/ymir-sdl3/src/app/app.cpp:3431-3433 | and the last of these pops leaves the state gone back to in NextState when its version is readable |
| VectorArchive.OutputArchive.SaveBinary | ymir/apps/ymir-sdl3/src/serdes/cereal_archive_vector.hpp:20-22 | appends the bytes |
| VectorArchive.OutputArchive.SaveValues | ymir/apps/ymir-sdl3/src/serdes/cereal_archive_vector.hpp:57-61 | saving values one by one appends the bytes that the loading theorems read back |
| VectorArchive.InputArchive.LoadBinary | ymir/apps/ymir-sdl3/src/serdes/cereal_archive_vector.hpp:38-47 | gives the next bytes and advances, or fails without moving |
| VectorArchive.LoadAllSaved | ymir/apps/ymir-sdl3/src/serdes/cereal_archive_vector.hpp:20-47 | a list of values comes back unchanged from anywhere in a vector, with the position behind it |
| VectorArchive.LoadAllFails | ymir/apps/ymir-sdl3/src/serdes/cereal_archive_vector.hpp:39-43 | loading fails if and only if fewer bytes are left than the sizes add up to |
| RewindSnapshots.UndoLoadsSnapshot | ymir/apps/ymir-sdl3/src/app/rewind_buffer.cpp:103-105 | when serialized sizes do not shrink, undoing n pushes loads the save state pushed before them, value for value, also when it was smaller |
| RewindSnapshots.CleanUndoLoadsSnapshot | ymir/apps/ymir-sdl3/src/app/rewind_buffer.cpp:103-105 | so it does for save states of any serialized sizes when the undos are in bounds and the pushes clean |
| RewindSnapshots.RestoredSnapshotIsRead | ymir/apps/ymir-sdl3/src/app/rewind_buffer.cpp:103-105 | after the pops NextState holds what was restored, for every save state whose version the serializer accepts |
| SaveStateVersion.LoadedExactly | ymir/apps/ymir-sdl3/src/serdes/cereal_savestate.hpp:1753-1761 | a buffer is read if and only if its first four bytes, in the byte order of the host, are a version from 1 to 14; any other leaves the state as it was |
| RewindSnapshots.UndoingTheFirstPushIsIgnored | ymir/apps/ymir-sdl3/src/serdes/cereal_savestate.hpp:1753-1761 | undoing the first push after a reset gives zeros of its length, which the root serializer ignores as version 0, so NextState stays what it was |
| LineStepper.AltLineStepper.constructor | ymir/apps/ymir-sandbox/src/sandbox_vdp1_poly.cpp:19-77 | the fields describe the line between the coordinates, one step before its first pixel |
| LineStepper.AltLineStepper.SetStep | ymir/apps/ymir-sandbox/src/sandbox_vdp1_poly.cpp:95-116 | moves the cursor by the one-division seek, for forward and backward steps |
| LineStepperProofs.RowIsNearest | ymir/apps/ymir-sandbox/src/sandbox_vdp1_poly.cpp:53-60 | a row is that of step k if and only if it is within half a pixel of the ideal line, ties as `PixelsExactly` says |
| LineStepperProofs.SteppedIsAt | ymir/apps/ymir-sandbox/src/sandbox_vdp1_poly.cpp:95-116 | stepping one pixel at a time reaches the closed form |
| LineStepperProofs.SeekLands | ymir/apps/ymir-sandbox/src/sandbox_vdp1_poly.cpp:98-115 | from any cursor on its lattice a seek lands on the sought step, on the row rounded down when ahead and rounded up when behind |
| LineStepperProofs.ForwardSeek | ymir/apps/ymir-sandbox/src/sandbox_vdp1_poly.cpp:95-116 | a seek that does not go back reaches what unit stepping reaches, with the accumulator in (target, target + den] |
| LineStepperProofs.SeeksRefineStepping | ymir/apps/ymir-sandbox/src/sandbox_vdp1_poly.cpp:95-116 | any non-decreasing sequence of seeks equals one seek to the last step and unit stepping to it |
| LineStepperProofs.BackwardSeekExactly | ymir/apps/ymir-sandbox/src/sandbox_vdp1_poly.cpp:111-114 | a seek back is right if and only if the row does not change or the division is exact |
| LineStepperProofs.BackwardSeekMisses | ymir/apps/ymir-sandbox/src/sandbox_vdp1_poly.cpp:111-114 | on the line from (0,0) to (3,2) the seek from the end back to the start misses |
| LineStepperProofs.Endpoints | ymir/apps/ymir-sandbox/src/sandbox_vdp1_poly.cpp:23-36 | step 0 is the start point and step Length() the end point |
| LineStepperProofs.Connected | ymir/apps/ymir-sandbox/src/sandbox_vdp1_poly.cpp:104-115 | consecutive pixels touch, and are two apart in grid distance exactly when the row moves |
| LineStepperProofs.HalfPixel | ymir/apps/ymir-sandbox/src/sandbox_vdp1_poly.cpp:53-60 | every pixel is within half a pixel of the ideal line in the minor axis |
| LineStepperTheorems.PixelsExactly | ymir/apps/ymir-sandbox/src/sandbox_vdp1_poly.cpp:53-60 | counted from the end with the smaller major coordinate, or from the start of an antialiased line, every row is the ideal one rounded to the nearest, halves down |
| LineStepperTheorems.TiesExactly | ymir/apps/ymir-sandbox/src/sandbox_vdp1_poly.cpp:56-59 | half way between two pixels, the one toward that end is taken |
| LineStepperTheorems.SeekPastEnd | ymir/apps/ymir-sandbox/src/sandbox_vdp1_poly.cpp:98-101 | a seek to or past the last step ends at the end point |
| LineStepperTheorems.ReversalSymmetry | ymir/apps/ymir-sandbox/src/sandbox_vdp1_poly.cpp:56-59 | without antialiasing the reverse line visits the same pixels in reverse, for all endpoints |
| LineStepperTheorems.AntialiasedReversal | ymir/apps/ymir-sandbox/src/sandbox_vdp1_poly.cpp:65-67 | with antialiasing it does so at a step if and only if the ideal line does not pass half way between two pixels there |
| LineStepperTheorems.ReversedTieMisses | ymir/apps/ymir-sandbox/src/sandbox_vdp1_poly.cpp:65-67 | the antialiased line from (0,0) to (2,1) has a tie in its middle, and its reverse misses that pixel |
| LineStepperTheorems.AATestExactly | ymir/apps/ymir-sandbox/src/sandbox_vdp1_poly.cpp:119-121 | at every step after the first the one-comparison test holds if and only if the last unit step moved the minor coordinate; at the first it does not |
| LineStepperTheorems.AntialiasedLineIsConnected | ymir/apps/ymir-sandbox/src/sandbox_vdp1_poly.cpp:68-75 | the antialiasing pixel shares an edge with the previous and the current pixel, so the line is 4-connected |
| LineStepperTheorems.AAPixelExactly | ymir/apps/ymir-sandbox/src/sandbox_vdp1_poly.cpp:68-75 | the antialiasing pixel is one row back when both coordinates run the same way, else one column back |
| LineStepperTheorems.AACorner | ymir/apps/ymir-sandbox/src/sandbox_vdp1_poly.cpp:68-75 | so a diagonal step is filled in the new column and the old row, or in the old column and the new row |
| LineStepperTheorems.StepsToInverts | ymir/apps/ymir-sandbox/src/sandbox_vdp1_poly.cpp:81-91 | StepsToTarget gives back the step of every pixel and of every antialiasing pixel |
| LineStepperTheorems.StepsToAligns | ymir/apps/ymir-sandbox/src/sandbox_vdp1_poly.cpp:79-91 | in both flavours a target within the span is met in the major coordinate by the pixel, or the antialiasing pixel, of the step found; any other is sent past the end |
| LineStepperTheorems.TargetSeeksAreForward | ymir/apps/ymir-sandbox/src/sandbox_vdp1_poly.cpp:676-685 | the two seeks made for a target never go back |
| LineStepperTheorems.ShortLinesFit | ymir/apps/ymir-sandbox/src/sandbox_vdp1_poly.cpp:53-60 | on lines of up to 32767 steps, which covers coordinates in [-8192, 8191], every intermediate value of the constructor and of a forward seek fits in 32 bits |
| LineStepperTheorems.SafeSpanExactly | ymir/apps/ymir-sandbox/src/sandbox_vdp1_poly.cpp:98-112 | 32767 is exact: for every longer span some line's first seek overflows |
| CddaMigration.Count | ymir/apps/ymir-sdl3/src/serdes/cereal_savestate.hpp:941-946 | the wrapping 32-bit difference gives the number of bytes held |
| CddaMigration.ContentsExactly | ymir/apps/ymir-sdl3/src/serdes/cereal_savestate.hpp:941-946 | what a ring holds, byte by byte: from the read position around to the write position, all of it when equal positions mean full |
| CddaMigration.SkipExcess | ymir/apps/ymir-sdl3/src/serdes/cereal_savestate.hpp:947-953 | leaves the newest bytes that fit and never a full old ring |
| CddaMigration.CopyContents | ymir/apps/ymir-sdl3/src/serdes/cereal_savestate.hpp:955-985 | copies what the ring holds to the front, in order and in bounds, the rest untouched, or clears an empty ring; the full-buffer branch is never taken |
| CddaMigration.Migrate | ymir/apps/ymir-sdl3/src/serdes/cereal_savestate.hpp:936-985 | keeps exactly the newest min(count, new size) bytes in order from position 0 with the write position their number modulo the new size; fails without writing exactly for illegal positions |
| CddaMigration.MigrationKeepsNewestExactly | ymir/libs/ymir-core/src/ymir/hw/scsp/scsp.cpp:1053-1062 | to the SCSP, which takes equal positions to mean empty, the new ring holds the newest bytes if and only if the old one held fewer than fill it, whether ready or not, and otherwise nothing |
| CddaMigration.FullRingPlaysNothing | ymir/apps/ymir-sdl3/src/serdes/cereal_savestate.hpp:932-985 | with the program's sizes, 35280 bytes held by a ready ring fill the new one, of which nothing is played |
| CddaMigration.HeardExactly | ymir/libs/ymir-core/src/ymir/hw/scsp/scsp.cpp:1053-1062 | playing is heard byte by byte as the bytes, then zeros |
| CddaMigration.PlaysWaiting | ymir/libs/ymir-core/src/ymir/hw/scsp/scsp.cpp:1053-1062 | sample by sample the SCSP plays what is waiting, in order, and then silence |
| CddaMigration.MigratedRingPlays | ymir/libs/ymir-core/src/ymir/hw/scsp/scsp.cpp:1053-1062 | so after the migration it plays the newest bytes, then silence; or only silence when they fill the ring |
| Unzip.FindEOCD | web/shell/tiny-unzip.js:8-14 | finds the last signature in the window where an end record can start, and nothing exactly when the window holds none |
| Unzip.NoEndRecordRefused | web/shell/tiny-unzip.js:8-14 | without a signature in that window unzipping fails with the error for it |
| Unzip.Zip64Refused | web/shell/tiny-unzip.js:37-39 | archives with the Zip64 markers are refused |
| Unzip.NumbersExactly | web/shell/tiny-unzip.js:4-7 | numbers are little-endian, bytes past the end count as zero |
| Unzip.BaseNameExactly | web/shell/tiny-unzip.js:56 | the base name is what stands behind the last slash or backslash, or the whole path |
| Unzip.EndsWithSlashExactly | web/shell/tiny-unzip.js:55 | directories are the names that end in a slash |
| Unzip.AddEntry | web/shell/tiny-unzip.js:45-75 | one turn of the loop does what `AddExactly` says |
| Unzip.AddExactly | web/shell/tiny-unzip.js:45-75 | the checks of an entry in their order, each with its error; stored data is taken as it is, deflated data inflated, any other method refused |
| Unzip.FirstErrorWins | web/shell/tiny-unzip.js:44-76 | the first entry that cannot be added ends the unzipping with its error |
| Unzip.YmirUnzip | web/shell/tiny-unzip.js:33-79 | is the function the archive theorems are about |
| ZipArchive.EntryReads | web/shell/tiny-unzip.js:45-66 | a directory entry and local record laid out per the standard are read back field by field, and the next entry is found behind it |
| ZipArchive.SignatureBytes | web/shell/tiny-unzip.js:11 | the signatures are the bytes the standard spells |
| ZipArchive.BaseNamesExactly | web/shell/tiny-unzip.js:55-57 | the keys of the result are exactly the base names of the decoded names |
| ZipArchive.DirectoryReads | web/shell/tiny-unzip.js:44-54 | every entry of a directory is found to be what it describes, in order |
| ZipArchive.EndRecordFoundExactly | web/shell/tiny-unzip.js:8-14 | an end record with a comment of legal length is found if and only if no other signature stands behind it, as in every comment-free archive |
| ZipArchive.CommentHidesFiles | web/shell/tiny-unzip.js:33-79 | an archive whose comment is itself an empty end record unzips to the error that there are no files |
| ZipArchive.UnzipReadsArchive | web/shell/tiny-unzip.js:33-79 | unzipping any such archive, stored or deflated, gives the files its entries describe, or the error of the first bad one |
| ZipArchive.StoredArchiveUnzips | web/shell/tiny-unzip.js:55-78 | an archive of stored files unzips if and only if it has a file and base names are distinct, and then to exactly the map from base name to contents |
| ZipArchive.StoredFileIsFound | web/shell/tiny-unzip.js:55-73 | a file stored as `dir/base`, `dir\base` or `base` is found under `base` with its contents |
| ZipArchive.UnzipBuilt | web/shell/tiny-unzip.js:33-79 | round trip: an archive written front to back from entries unzips to their files |
| AudioRings.AudioBridge.OnAudioSample | web/bridge/ymir_web_bridge.cpp:63-72 | queues a frame, dropping the oldest at 65535 frames; positions stay even |
| AudioRings.AudioBridge.AudioAvailable | web/bridge/ymir_web_bridge.cpp:252-256 | is the number of frames waiting |
| AudioRings.AudioBridge.ReadAudio | web/bridge/ymir_web_bridge.cpp:259-267 | takes the oldest frames, interleaved left first |
| AudioRings.AudioWorklet.OnMessage | web/shell/ymir-web-audio-worklet.js:15-28 | queues a message's frames, scaled, dropping the oldest beyond 44100; a sample without a partner is ignored |
| AudioRings.AudioWorklet.Process | web/shell/ymir-web-audio-worklet.js:31-47 | plays the waiting frames in order, then silence: left samples on the left, right on the right; with one channel the right samples |
| AudioRings.FramesOfInterleaved | web/shell/ymir-web-audio-worklet.js:16-24 | frames survive the interleaved message: left and right never swap |
| AudioRings.MessagesExactly | web/shell/ymir-web-audio-worklet.js:16-24 | in a message the left sample of each frame comes first |
| AudioRings.ScaledExactly | web/shell/ymir-web-audio-worklet.js:23-24 | samples are divided by 32768, which gives numbers from -1 to less than 1 |
| AudioPipeline.EveryRunStaysInOrder | web/shell/main.js:76-84 | over every interleaving of production, pumping, delivery and playback, the frames heard and underway are an in-order subsequence of the frames produced |
| AudioPipeline.HeardIsSubsequence | web/shell/ymir-web-audio-worklet.js:31-47 | so is the output without its padding |
| AudioPipeline.LosslessExactly | web/bridge/ymir_web_bridge.cpp:65-68 | nothing is lost if and only if neither ring ever overflows |
| AudioPipeline.EverythingIsHeard | web/shell/main.js:76-84 | what is not lost and fits in the worklet is heard: pumping, delivering and playing out gives the whole input |
| AudioPipeline.RunInputAndOutput | web/shell/ymir-web-audio-worklet.js:31-47 | the input is what the run produced, and every block adds its length to the output |
| AudioPipeline.WorkletHoldsQueue | web/shell/ymir-web-audio-worklet.js:15-28 | the worklet's ring is the pipeline's queue, scaled |
| AudioPath.AudioPath.Produce | web/bridge/ymir_web_bridge.cpp:63-72 | with the real rings, an audio callback is a step of the pipeline and queues its frame |
| AudioPath.AudioPath.PumpAudio | web/shell/main.js:76-84 | posting all waiting audio is a step of the pipeline that empties the bridge into one message, or nothing when none waits |
| AudioPath.AudioPath.Deliver | web/shell/ymir-web-audio-worklet.js:15-28 | so is the delivery of the oldest message, whose frames the worklet queues |
| AudioPath.AudioPath.Play | web/shell/ymir-web-audio-worklet.js:31-47 | so is an output block, which takes the oldest frames and plays left and right apart, then silence |
| PlayerIndices.PlayerIndexMap.AssignPlayerIndex | ymir/apps/ymir-sdl3/src/app/app.cpp:1214-1225 | gives the identifier the first free index, or else the number of assigned ones |
| PlayerIndices.PlayerIndexMap.GetOrAssignPlayerIndex | ymir/apps/ymir-sdl3/src/app/app.cpp:1207-1212 | keeps the index of a known identifier and changes nothing, else assigns |
| PlayerIndices.PlayerIndexMap.ReleasePlayerIndex | ymir/apps/ymir-sdl3/src/app/app.cpp:1227-1232 | frees the identifier's index, or -1 when it has none |
| PlayerIndices.GamepadEvents.OnAdded | ymir/apps/ymir-sdl3/src/app/app.cpp:1500-1511 | an added gamepad is open and has an index, the others keep theirs; nothing happens when it cannot be opened |
| PlayerIndices.GamepadEvents.OnRemoved | ymir/apps/ymir-sdl3/src/app/app.cpp:1512-1524 | a removed gamepad is neither open nor indexed and its index is free, the others keep theirs; nothing happens when it is not open |
| PlayerIndices.EveryRunPartitions | ymir/apps/ymir-sdl3/src/app/app.cpp:1198-1237 | from any such state, over every run of fresh adds and guarded removes indices are pairwise distinct, and assigned and free ones divide 0 to peak - 1 between them |
| PlayerIndices.RunsFromNoPadsPartition | ymir/apps/ymir-sdl3/src/app/app.cpp:1239-1243 | over every list of events that adds no open gamepad: open are those added and not removed since, their indices are pairwise distinct, and assigned and free ones divide 0 to peak - 1 between them, peak being the most gamepads open at once |
| PlayerIndices.NewIndexIsSmallestUnused | ymir/apps/ymir-sdl3/src/app/app.cpp:1216-1222 | a new gamepad gets the smallest index not in use |
| PlayerIndices.AddedGetsSmallestUnused | ymir/apps/ymir-sdl3/src/app/app.cpp:1500-1511 | after an added event the new gamepad has the smallest index no open one had, and the others keep theirs |
| PlayerIndices.ConnectExactly | ymir/apps/ymir-sdl3/src/app/app.cpp:1500-1511 | an added event keeps the partition if and only if its identifier is not open |
| PlayerIndices.DisconnectExactly | ymir/apps/ymir-sdl3/src/app/app.cpp:1512-1524 | releasing keeps it if and only if the identifier is open, so the guard is needed |
| PlayerIndices.RepeatedAddSharesIndex | ymir/apps/ymir-sdl3/src/app/app.cpp:1214-1225 | after a repeated add two gamepads share index 1 |
| LineFramer.LineFramer.Push | ymir/libs/ymir-dbg-commons/include/protocol/line_framer.hpp:26-54 | after any chunks the callbacks made are those of splitting the whole stream at once |
| LineFramer.LineFramer.EmitLine | ymir/libs/ymir-dbg-commons/include/protocol/line_framer.hpp:57-64 | reports the buffered line unless it is empty or was too long |
| LineFramer.SplitPlain | ymir/libs/ymir-dbg-commons/include/protocol/line_framer.hpp:26-54 | text without terminators is one segment |
| LineFramer.SplitAt | ymir/libs/ymir-dbg-commons/include/protocol/line_framer.hpp:29-40 | every CR and every LF separates what is before it from what is after it |
| LineFramer.ReportsTerminate | ymir/libs/ymir-dbg-commons/include/protocol/line_framer.hpp:57-64 | a terminator adds a line exactly for a last segment of 1 to 1 MiB characters |
| LineFramer.ReportsExtend | ymir/libs/ymir-dbg-commons/include/protocol/line_framer.hpp:42-52 | another character adds an error exactly when it makes the segment too long, so once per segment |
| TraceRing.RingBuffer.Write | ymir/apps/ymir-sdl3/src/util/ring_buffer.hpp:15-24 | appends the value to the last elements kept, the oldest dropped when full |
| TraceRing.RingBuffer.Emplace | ymir/apps/ymir-sdl3/src/util/ring_buffer.hpp:49-58 | the same with the entry's old value, and says which entry it is |
| TraceRing.RingBuffer.Clear | ymir/apps/ymir-sdl3/src/util/ring_buffer.hpp:11-13 | empties the ring, leaving the write position in place |
| TraceRing.RingBuffer.ReadsAreContents | ymir/apps/ymir-sdl3/src/util/ring_buffer.hpp:34-47 | for sizes dividing 2^64 Read, ReadReverse and GetLast are the elements from the oldest and the newest on |
| TraceRing.ReadPositionExactly | ymir/apps/ymir-sdl3/src/util/ring_buffer.hpp:34-37 | a read looks in the right place if and only if nothing wraps below zero or the size divides 2^64 |
| TraceRing.ReverseReadAgrees | ymir/apps/ymir-sdl3/src/util/ring_buffer.hpp:39-42 | ReadReverse(i) looks where Read(Count - 1 - i) does, for every size |
| TraceRing.SizeExactly | ymir/apps/ymir-sdl3/src/util/ring_buffer.hpp:34-42 | all reads of all rings of a size are right if and only if the size divides 2^64 |
| TraceRing.PowersOfTwoAreRight | ymir/apps/ymir-sdl3/src/app/debug/scu_tracer.hpp:57-60 | powers of two, the sizes in use, are right |

## Left out

- RewindBuffer.RewindBuffer.PopState: requires the newest delta to fit in the current buffer; what C++ does when it does not is undefined and not modelled. `UndoablePush` and `NonShrinkingIsExact` say when a push can be undone at once. NextState is the buffer it was read from, zeros at its end included; the exception for a buffer too short for a version, or of a later version, leaves it unchanged.
- RewindHistory.UndoIsLifo: pushes that do not shrink; `CleanUndoIsLifo` covers the others as far as their undo is in bounds and right. The padding is the code's, which never shortens the current buffer.
- RewindSnapshots.UndoLoadsSnapshot: the same condition on the serialized sizes, the others being covered by `CleanUndoLoadsSnapshot`; values are loaded with the sizes they were saved with, and how cereal derives the sizes is not modelled.
- RewindBuffer.RewindBuffer.ProcessNextState: NextState is its serialized bytes; the fields of a save state are opaque.
- RewindHandshake.EveryRunKeepsInvariant: covers one Start-to-Stop run; events left set by Stop, restarts and unsynchronized reads of the running flag are not modelled, and a read of NextState during a write is taken as atomic.
- RewindThreads.CriticalSectionsAreAtomic: a pop changes the buffer in two steps, a pass of the worker in two, a reset in one; a pop that would leave the current buffer ends the run. Resets come from any thread that holds the lock.
- Vectors: reallocation and spare capacity are not modelled; a resized vector is a new array with the kept elements.
- LZ4: any compressor with the round-trip property; block sizes, the acceleration factor and failures are not modelled.
- Unzip.YmirUnzip: decoding names and inflating data are parameters, awaiting them is not modelled, and the file counter is the emptiness of the result map.
- CddaMigration.MigratedRingPlays: positions are multiples of the four bytes of a sample, as the SCSP keeps them; what arrives while the ring is played is left out.
- LineStepper.AltLineStepper.StepsToTarget: requires the antialiasing flavour to be asked of antialiased lines only, whose offsets are the only ones initialized. The masked X() and Y() accessors are left out.
- LineStepperTheorems.ShortLinesFit: forward seeks only; backward seeks are not made by the program.
- AudioRings.AudioWorklet.OnMessage: samples are real numbers; division by 32768 is exact in single precision.
- AudioPipeline: the emulator loop's throttling and the video path, which only choose when actions happen; every order of actions is covered.
- LineFramer.LineFramer.Push: callbacks are recorded in order; what they do, including calling back into the framer, is not modelled.
- The emulator core, the other versioned serializers, settings, windows and dialogs: long field lists or foreign code with no property across functions.
