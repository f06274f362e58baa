/** Byte buffers, and buffers read as if followed by endless zeros. */
module Bytes {
  import opened Common

  type Byte = bv8
  type Buffer = seq<Byte>

  /** Byte `i` of `s` continued with zeros. */
  function ByteAt(s: Buffer, i: nat): Byte { if i < |s| then s[i] else 0 }

  /** `s` followed by zeros up to length `n`. */
  function Padded(s: Buffer, n: nat): (r: Buffer)
    requires |s| <= n
    ensures |r| == n && s <= r
    ensures forall i: nat :: i < n ==> r[i] == ByteAt(s, i)
  {
    s + seq(n - |s|, i => 0)
  }

  /** The XOR of the first `n` bytes of two zero-continued buffers. */
  function Delta(a: Buffer, b: Buffer, n: nat): (d: Buffer)
    ensures |d| == n
    ensures forall i: nat :: i < n ==> d[i] == ByteAt(a, i) ^ ByteAt(b, i)
  {
    seq(n, i requires 0 <= i => ByteAt(a, i) ^ ByteAt(b, i))
  }

  /** XOR-ing a byte twice with the same value restores it. */
  lemma XorUndo(x: Byte, y: Byte)
    ensures (x ^ y) ^ y == x
    ensures (y ^ x) ^ y == x
    ensures y ^ (x ^ y) == x
    ensures y ^ (y ^ x) == x
  {
  }

  lemma XorCommutes(x: Byte, y: Byte)
    ensures x ^ y == y ^ x
  {
  }

  lemma DeltaCommutes(a: Buffer, b: Buffer, n: nat)
    ensures Delta(a, b, n) == Delta(b, a, n)
  {
    forall i: nat | i < n
      ensures Delta(a, b, n)[i] == Delta(b, a, n)[i]
    {
      XorCommutes(ByteAt(a, i), ByteAt(b, i));
    }
  }

  /** Beyond the shorter buffer the XOR is the rest of the longer one. */
  lemma DeltaTail(longer: Buffer, shorter: Buffer)
    requires |shorter| <= |longer|
    ensures Delta(longer, shorter, |shorter|) + longer[|shorter|..] == Delta(longer, shorter, |longer|)
  {
    forall i: nat | i < |longer|
      ensures (Delta(longer, shorter, |shorter|) + longer[|shorter|..])[i] == Delta(longer, shorter, |longer|)[i]
    {
      assert ByteAt(longer, i) ^ 0 == ByteAt(longer, i);
    }
  }
}
