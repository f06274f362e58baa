/** Version numbers of save states, and what reading one leaves in its target (cereal_savestate.hpp). */
module SaveStateVersion {
  import opened Bytes
  import opened XorLoop

  const VERSION_SIZE: nat := 4
  const CURRENT_VERSION: nat := 14

  /** What the root serializer does with a version number. */
  datatype Verdict = Ignored | Rejected | Accepted

  function CheckVersion(version: nat): Verdict {
    if version == 0 then Ignored else if version > CURRENT_VERSION then Rejected else Accepted
  }

  /** The number whose digits in base 256 are `b`, the least significant one first. */
  function Number(b: Buffer): nat {
    if b == [] then 0 else (b[0] as nat) + 256 * Number(b[1..])
  }

  /** The version is stored in front, in the host's byte order. */
  function VersionOf(order: ByteOrder, buffer: Buffer): nat
    requires VERSION_SIZE <= |buffer|
  {
    match order
    case LittleEndian => Number(buffer[..VERSION_SIZE])
    case BigEndian => Number([buffer[3], buffer[2], buffer[1], buffer[0]])
  }

  /** What a save state is after `buffer` was read into it: nothing changes unless the version is accepted. */
  function Loaded(order: ByteOrder, state: Buffer, buffer: Buffer): Buffer {
    if VERSION_SIZE <= |buffer| && CheckVersion(VersionOf(order, buffer)) == Accepted then buffer else state
  }

  lemma {:induction false} NumberOfZeros(b: Buffer)
    requires forall i :: 0 <= i < |b| ==> b[i] == 0
    ensures Number(b) == 0
    decreases |b|
  {
    if b != [] {
      NumberOfZeros(b[1..]);
    }
  }

  /** Reading zeros changes nothing. */
  lemma ZerosAreIgnored(order: ByteOrder, state: Buffer, buffer: Buffer)
    requires forall i :: 0 <= i < |buffer| ==> buffer[i] == 0
    ensures Loaded(order, state, buffer) == state
  {
    if VERSION_SIZE <= |buffer| {
      NumberOfZeros(buffer[..VERSION_SIZE]);
      NumberOfZeros([buffer[3], buffer[2], buffer[1], buffer[0]]);
    }
  }

  /** The first four bytes are a number from 1 to 14 in the host's byte order. */
  predicate Readable(order: ByteOrder, buffer: Buffer) {
    4 <= |buffer| &&
    var b0, b1, b2, b3 := buffer[0] as nat, buffer[1] as nat, buffer[2] as nat, buffer[3] as nat;
    1 <= (if order == LittleEndian then b0 + 0x100 * b1 + 0x1_0000 * b2 + 0x100_0000 * b3
          else b3 + 0x100 * b2 + 0x1_0000 * b1 + 0x100_0000 * b0) <= 14
  }

  /** States of version 1 to 14 are read, no others. */
  lemma LoadedExactly(order: ByteOrder, state: Buffer, buffer: Buffer)
    ensures Loaded(order, state, buffer) == if Readable(order, buffer) then buffer else state
  {
    if 4 <= |buffer| {
      FourDigits(buffer[..4]);
      FourDigits([buffer[3], buffer[2], buffer[1], buffer[0]]);
    }
  }

  lemma FourDigits(b: Buffer)
    requires |b| == 4
    ensures Number(b) == (b[0] as nat) + 0x100 * (b[1] as nat) + 0x1_0000 * (b[2] as nat) + 0x100_0000 * (b[3] as nat)
  {
    var b1 := b[1..];
    var b2 := b1[1..];
    var b3 := b2[1..];
    assert b3[1..] == [] && Number(b3) == b[3] as nat;
    assert Number(b2) == (b[2] as nat) + 256 * Number(b3);
    assert Number(b1) == (b[1] as nat) + 256 * Number(b2);
  }
}
