/** The tracers' ring buffer, indexed with wrapping 64-bit arithmetic (ring_buffer.hpp). */
module TraceRing {
  import opened Common

  const TWO_64: nat := 0x1_0000_0000_0000_0000

  /** Unsigned 64-bit arithmetic. */
  function U64(n: int): nat { n % TWO_64 }

  /** Where the program looks for the element `offset` from the oldest one. */
  function ReadPosition(writePos: nat, count: nat, offset: nat, size: nat): (pos: nat)
    requires size > 0
    ensures pos < size
  {
    U64(writePos - count + offset) % size
  }

  /** Where it looks for the element `offset` from the newest one. */
  function ReverseReadPosition(writePos: nat, offset: nat, size: nat): (pos: nat)
    requires size > 0
    ensures pos < size
  {
    U64(writePos - 1 - offset) % size
  }

  /** Where element `offset` from the oldest one is. */
  function Slot(writePos: nat, count: nat, offset: nat, size: nat): (pos: nat)
    requires writePos < size && offset < count <= size
    ensures pos < size
  {
    var p := writePos - count + offset;
    if p < 0 then p + size else p
  }

  class RingBuffer<T(0)> {
    const entries: array<T>
    var writePos: nat
    var count: nat

    ghost predicate Valid()
      reads this
    {
      writePos < entries.Length && count <= entries.Length
    }

    /** The elements kept, oldest first. */
    ghost function Contents(): (c: seq<T>)
      requires Valid()
      reads this, entries
      ensures |c| == count
    {
      seq(count, i requires 0 <= i < count reads this, entries requires Valid() =>
        entries[Slot(writePos, count, i, entries.Length)])
    }

    constructor (size: nat)
      requires size > 0
      ensures Valid() && fresh(entries) && entries.Length == size && Contents() == []
    {
      entries := new T[size];
      writePos, count := 0, 0;
    }

    method Clear()
      requires Valid()
      modifies this
      ensures Valid() && Contents() == [] && writePos == old(writePos)
    {
      count := 0;
    }

    /** Moves the write position past the entry it is at. */
    method Advance()
      requires Valid()
      modifies this
      ensures Valid()
      ensures Contents() == LastN(old(Contents()) + [entries[old(writePos)]], entries.Length)
    {
      ghost var before, newest := Contents(), entries[writePos];
      ghost var drop := if count < entries.Length then 0 else 1;
      writePos := writePos + 1;
      if writePos >= entries.Length {
        writePos := 0;
      }
      if count < entries.Length {
        count := count + 1;
      }
      assert forall i :: 0 <= i < count ==> Contents()[i] == (before + [newest])[i + drop];
    }

    method Write(value: T)
      requires Valid()
      modifies this, entries
      ensures Valid()
      ensures Contents() == LastN(old(Contents()) + [value], entries.Length)
    {
      ghost var before := Contents();
      entries[writePos] := value;
      if count == entries.Length {
        assert Contents()[1..] == before[1..];
      } else {
        assert Contents() == before;
      }
      Advance();
    }

    /** Makes room for an element, which starts with what its entry held; `index` is the entry to fill. */
    method Emplace() returns (index: nat)
      requires Valid()
      modifies this
      ensures Valid() && index == old(writePos)
      ensures Contents() == LastN(old(Contents()) + [entries[index]], entries.Length)
    {
      index := writePos;
      Advance();
    }

    function Read(offset: nat): T
      requires Valid()
      reads this, entries
    {
      entries[ReadPosition(writePos, count, offset, entries.Length)]
    }

    function ReadReverse(offset: nat): T
      requires Valid()
      reads this, entries
    {
      entries[ReverseReadPosition(writePos, offset, entries.Length)]
    }

    function GetLast(): T
      requires Valid()
      reads this, entries
    {
      entries[U64(writePos - 1) % entries.Length]
    }

    /** In a ring whose size divides 2^64 the reads are those of the sequence of the last elements written. */
    lemma ReadsAreContents(offset: nat)
      requires Valid() && offset < count && TWO_64 % entries.Length == 0
      ensures Read(offset) == Contents()[offset]
      ensures ReadReverse(offset) == Contents()[count - 1 - offset]
      ensures GetLast() == Contents()[count - 1]
    {
      SizesDividing(entries.Length);
      ReadPositionExactly(writePos, count, offset, entries.Length);
      ReverseReadAgrees(writePos, count, offset, entries.Length);
      ReadPositionExactly(writePos, count, count - 1 - offset, entries.Length);
      ReverseReadAgrees(writePos, count, 0, entries.Length);
      ReadPositionExactly(writePos, count, count - 1, entries.Length);
    }
  }

  lemma SizesDividing(size: nat)
    requires size > 0 && TWO_64 % size == 0
    ensures size <= TWO_64
  {
    if size > TWO_64 {
      RemainderIs(TWO_64, size, 0, TWO_64);
    }
  }

  // ----- When the wrapping arithmetic is right -----

  /** Adding `m` keeps a remainder exactly when `n` divides `m`. */
  lemma ShiftExactly(a: nat, m: nat, n: nat)
    requires a < n
    ensures (a + m) % n == a <==> m % n == 0
  {
    var q, r := m / n, m % n;
    if a + r < n {
      RemainderIs(a + m, n, q, a + r);
    } else {
      assert n * (q + 1) == n * q + n;
      RemainderIs(a + m, n, q + 1, a + r - n);
    }
  }

  /** A read looks in the right place exactly when nothing wraps below zero or the size divides 2^64. */
  lemma ReadPositionExactly(writePos: nat, count: nat, offset: nat, size: nat)
    requires writePos < size <= TWO_64 && offset < count <= size
    ensures ReadPosition(writePos, count, offset, size) == Slot(writePos, count, offset, size)
            <==> count <= writePos + offset || TWO_64 % size == 0
  {
    var p := writePos - count + offset;
    if p < 0 {
      RemainderIs(p, TWO_64, -1, p + TWO_64);
      ShiftExactly(p + size, TWO_64 - size, size);
      ShiftExactly(0, TWO_64 - size, size);
      RemainderIs(TWO_64, size, TWO_64 / size, TWO_64 % size);
      var q := (TWO_64 - size) / size;
      assert size * (q + 1) == size * q + size;
      RemainderIs(TWO_64, size, q + 1, (TWO_64 - size) % size);
    } else {
      RemainderIs(p, TWO_64, 0, p);
      RemainderIs(p, size, 0, p);
    }
  }

  /** The reverse read of `i` is the read of `count - 1 - i`, right or wrong, for every size. */
  lemma ReverseReadAgrees(writePos: nat, count: nat, offset: nat, size: nat)
    requires size > 0 && offset < count
    ensures ReverseReadPosition(writePos, offset, size) == ReadPosition(writePos, count, count - 1 - offset, size)
  {
    assert writePos - count + (count - 1 - offset) == writePos - 1 - offset;
  }

  /** Every read of every ring of a size is right if and only if the size divides 2^64. */
  lemma SizeExactly(size: nat)
    requires 0 < size <= TWO_64
    ensures TWO_64 % size == 0 <==>
            forall writePos: nat, count: nat, offset: nat :: writePos < size && offset < count <= size ==>
              ReadPosition(writePos, count, offset, size) == Slot(writePos, count, offset, size)
  {
    if TWO_64 % size == 0 {
      forall writePos: nat, count: nat, offset: nat | writePos < size && offset < count <= size
        ensures ReadPosition(writePos, count, offset, size) == Slot(writePos, count, offset, size)
      {
        ReadPositionExactly(writePos, count, offset, size);
      }
    } else {
      ReadPositionExactly(0, 1, 0, size);
    }
  }

  function Pow2(k: nat): nat { if k == 0 then 1 else 2 * Pow2(k - 1) }

  lemma {:induction false} Pow2Divides(k: nat, n: nat)
    requires k <= n
    ensures Pow2(k) > 0 && Pow2(n) % Pow2(k) == 0
    decreases n
  {
    if n == k {
      Pow2Positive(k);
      RemainderIs(Pow2(k), Pow2(k), 1, 0);
    } else {
      Pow2Divides(k, n - 1);
      var q := Pow2(n - 1) / Pow2(k);
      assert Pow2(k) * (2 * q) == 2 * (Pow2(k) * q);
      RemainderIs(Pow2(n), Pow2(k), 2 * q, 0);
    }
  }

  lemma {:induction false} Pow2Positive(k: nat)
    ensures Pow2(k) > 0
  {
    if k > 0 {
      Pow2Positive(k - 1);
    }
  }

  lemma {:induction false} Pow2Sum(a: nat, b: nat)
    ensures Pow2(a + b) == Pow2(a) * Pow2(b)
  {
    if a > 0 {
      Pow2Sum(a - 1, b);
      assert Pow2(a + b) == 2 * Pow2(a - 1 + b);
    }
  }

  lemma Pow2Of64(n: nat)
    requires n == 64
    ensures Pow2(n) == TWO_64
  {
    var a, b, c := n / 8, n / 4, n / 2;
    assert Pow2(a) == 256;
    Pow2Sum(a, a);
    assert Pow2(b) == 0x1_0000;
    Pow2Sum(b, b);
    assert Pow2(c) == 0x1_0000_0000;
    Pow2Sum(c, c);
  }

  /** Powers of two, which all tracers use, are right sizes. */
  lemma PowersOfTwoAreRight(k: nat)
    requires k <= 64
    ensures 0 < Pow2(k) && TWO_64 % Pow2(k) == 0
  {
    var n := 64;
    Pow2Of64(n);
    Pow2Divides(k, n);
  }
}
