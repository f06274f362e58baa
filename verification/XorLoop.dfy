/** The word-at-a-time XOR loops of the rewind buffer (rewind_buffer.cpp). */
module XorLoop {
  import opened Bytes

  const WORD: nat := 8

  datatype ByteOrder = LittleEndian | BigEndian

  /** The bytes of a word from the most to the least significant one, for either byte order in memory. */
  function MostSignificantFirst(order: ByteOrder, b: Buffer): (r: Buffer)
    requires |b| == WORD
    ensures |r| == WORD
  {
    match order
    case BigEndian => b
    case LittleEndian => [b[7], b[6], b[5], b[4], b[3], b[2], b[1], b[0]]
  }

  function Join(a: Byte, b: Byte, c: Byte, d: Byte, e: Byte, f: Byte, g: Byte, h: Byte): bv64 {
    ((a as bv64) << 56) | ((b as bv64) << 48) | ((c as bv64) << 40) | ((d as bv64) << 32)
    | ((e as bv64) << 24) | ((f as bv64) << 16) | ((g as bv64) << 8) | (h as bv64)
  }

  /** Reads a 64-bit word in the host's byte order. */
  function ReadNE(order: ByteOrder, b: Buffer): bv64
    requires |b| == WORD
  {
    var m := MostSignificantFirst(order, b);
    Join(m[0], m[1], m[2], m[3], m[4], m[5], m[6], m[7])
  }

  /** The bytes of a word, most significant first. */
  function Split(w: bv64): (b: Buffer)
    ensures |b| == WORD
  {
    [((w >> 56) & 0xFF) as Byte, ((w >> 48) & 0xFF) as Byte, ((w >> 40) & 0xFF) as Byte, ((w >> 32) & 0xFF) as Byte,
     ((w >> 24) & 0xFF) as Byte, ((w >> 16) & 0xFF) as Byte, ((w >> 8) & 0xFF) as Byte, (w & 0xFF) as Byte]
  }

  /** The bytes a 64-bit word occupies in memory. */
  function WordBytes(order: ByteOrder, w: bv64): (b: Buffer)
    ensures |b| == WORD
  {
    MostSignificantFirst(order, Split(w))
  }

  lemma JoinXor(a: Byte, b: Byte, c: Byte, d: Byte, e: Byte, f: Byte, g: Byte, h: Byte,
                a': Byte, b': Byte, c': Byte, d': Byte, e': Byte, f': Byte, g': Byte, h': Byte)
    ensures Join(a, b, c, d, e, f, g, h) ^ Join(a', b', c', d', e', f', g', h')
         == Join(a ^ a', b ^ b', c ^ c', d ^ d', e ^ e', f ^ f', g ^ g', h ^ h')
  {
  }

  lemma JoinBytes(a: Byte, b: Byte, c: Byte, d: Byte, e: Byte, f: Byte, g: Byte, h: Byte)
    ensures var w := Join(a, b, c, d, e, f, g, h);
            && ((w >> 56) & 0xFF) as Byte == a && ((w >> 48) & 0xFF) as Byte == b
            && ((w >> 40) & 0xFF) as Byte == c && ((w >> 32) & 0xFF) as Byte == d
            && ((w >> 24) & 0xFF) as Byte == e && ((w >> 16) & 0xFF) as Byte == f
            && ((w >> 8) & 0xFF) as Byte == g && (w & 0xFF) as Byte == h
  {
  }

  lemma SplitJoin(a: Byte, b: Byte, c: Byte, d: Byte, e: Byte, f: Byte, g: Byte, h: Byte)
    ensures Split(Join(a, b, c, d, e, f, g, h)) == [a, b, c, d, e, f, g, h]
  {
    JoinBytes(a, b, c, d, e, f, g, h);
  }

  lemma SplitOfRead(order: ByteOrder, b: Buffer)
    requires |b| == WORD
    ensures Split(ReadNE(order, b)) == MostSignificantFirst(order, b)
  {
    var m := MostSignificantFirst(order, b);
    SplitJoin(m[0], m[1], m[2], m[3], m[4], m[5], m[6], m[7]);
  }

  /** The first byte in memory is the least significant one on little-endian hosts, the most significant on others. */
  lemma ByteOrdersExactly(b: Buffer)
    requires |b| == WORD
    ensures Split(ReadNE(LittleEndian, b)) == [b[7], b[6], b[5], b[4], b[3], b[2], b[1], b[0]]
    ensures Split(ReadNE(BigEndian, b)) == b
  {
    SplitOfRead(LittleEndian, b);
    SplitOfRead(BigEndian, b);
  }

  lemma FirstByteOrder(order: ByteOrder, b: Buffer)
    requires |b| == WORD
    ensures MostSignificantFirst(order, MostSignificantFirst(order, b)) == b
  {
  }

  /** Writing a word gives back the bytes it was read from. */
  lemma WriteRead(order: ByteOrder, b: Buffer)
    requires |b| == WORD
    ensures WordBytes(order, ReadNE(order, b)) == b
  {
    SplitOfRead(order, b);
    FirstByteOrder(order, b);
  }

  lemma FirstAt(order: ByteOrder, b: Buffer, k: nat)
    requires |b| == WORD && k < WORD
    ensures MostSignificantFirst(order, b)[k] == b[if order == BigEndian then k else WORD - 1 - k]
  {
  }

  lemma FirstXorAt(order: ByteOrder, a: Buffer, b: Buffer, k: nat)
    requires |a| == |b| == WORD && k < WORD
    ensures MostSignificantFirst(order, Delta(a, b, WORD))[k]
         == MostSignificantFirst(order, a)[k] ^ MostSignificantFirst(order, b)[k]
  {
    FirstAt(order, a, k);
    FirstAt(order, b, k);
    FirstAt(order, Delta(a, b, WORD), k);
  }

  lemma ReadXor(order: ByteOrder, a: Buffer, b: Buffer)
    requires |a| == |b| == WORD
    ensures ReadNE(order, a) ^ ReadNE(order, b) == ReadNE(order, Delta(a, b, WORD))
  {
    var m, m' := MostSignificantFirst(order, a), MostSignificantFirst(order, b);
    forall k | 0 <= k < WORD
      ensures MostSignificantFirst(order, Delta(a, b, WORD))[k] == m[k] ^ m'[k]
    {
      FirstXorAt(order, a, b, k);
    }
    JoinXor(m[0], m[1], m[2], m[3], m[4], m[5], m[6], m[7], m'[0], m'[1], m'[2], m'[3], m'[4], m'[5], m'[6], m'[7]);
  }

  /** A word-wide XOR is eight byte-wide XORs, in either byte order. */
  lemma WordXor(order: ByteOrder, a: Buffer, b: Buffer)
    requires |a| == |b| == WORD
    ensures WordBytes(order, ReadNE(order, a) ^ ReadNE(order, b)) == Delta(a, b, WORD)
  {
    ReadXor(order, a, b);
    WriteRead(order, Delta(a, b, WORD));
  }

  method WriteNE(order: ByteOrder, out: array<Byte>, i: nat, w: bv64)
    requires i + WORD <= out.Length
    modifies out
    ensures forall k :: i <= k < i + WORD ==> out[k] == WordBytes(order, w)[k - i]
    ensures forall k :: 0 <= k < out.Length && !(i <= k < i + WORD) ==> out[k] == old(out[k])
  {
    var b := WordBytes(order, w);
    forall k | i <= k < i + WORD { out[k] := b[k - i]; }
  }

  /** One pass of the word loop: eight bytes of `out` become the XOR of the inputs' bytes. */
  method XorWord(order: ByteOrder, out: array<Byte>, b0: array<Byte>, b1: array<Byte>, i: nat)
    requires i + WORD <= out.Length && i + WORD <= b0.Length && i + WORD <= b1.Length
    modifies out
    ensures forall k :: i <= k < i + WORD ==> out[k] == old(b0[k]) ^ old(b1[k])
    ensures forall k :: 0 <= k < out.Length && !(i <= k < i + WORD) ==> out[k] == old(out[k])
  {
    var w0, w1 := b0[i..i + WORD], b1[i..i + WORD];
    WordXor(order, w0, w1);
    WriteNE(order, out, i, ReadNE(order, w0) ^ ReadNE(order, w1));
  }

  /** Sets the first `n` bytes of `out` to the XOR of the two inputs; `out` may be one of the inputs. */
  method XorInto(order: ByteOrder, out: array<Byte>, b0: array<Byte>, b1: array<Byte>, n: nat)
    requires n <= out.Length && n <= b0.Length && n <= b1.Length
    modifies out
    ensures out[..] == old(Delta(b0[..], b1[..], n) + out[n..])
  {
    var i := 0;
    while i + WORD < n
      invariant i <= n
      invariant forall k :: 0 <= k < i ==> out[k] == old(b0[k]) ^ old(b1[k])
      invariant forall k :: i <= k < out.Length ==> out[k] == old(out[k])
      invariant forall k :: i <= k < b0.Length ==> b0[k] == old(b0[k])
      invariant forall k :: i <= k < b1.Length ==> b1[k] == old(b1[k])
    {
      XorWord(order, out, b0, b1, i);
      i := i + WORD;
    }
    while i < n
      invariant i <= n
      invariant forall k :: 0 <= k < i ==> out[k] == old(b0[k]) ^ old(b1[k])
      invariant forall k :: i <= k < out.Length ==> out[k] == old(out[k])
      invariant forall k :: i <= k < b0.Length ==> b0[k] == old(b0[k])
      invariant forall k :: i <= k < b1.Length ==> b1[k] == old(b1[k])
    {
      out[i] := b0[i] ^ b1[i];
      i := i + 1;
    }
  }
}
