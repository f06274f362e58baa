/** Binary archives over byte vectors (cereal_archive_vector.hpp). */
module VectorArchive {
  import opened Bytes
  import opened Common

  class OutputArchive {
    var vector: Buffer

    constructor (vector: Buffer)
      ensures this.vector == vector
    {
      this.vector := vector;
    }

    method SaveBinary(data: Buffer)
      modifies this
      ensures vector == old(vector) + data
    {
      vector := vector + data;
    }

    /** Saves a list of values, as a serializer does. */
    method SaveValues(values: seq<Buffer>)
      modifies this
      ensures vector == old(vector) + SaveAll(values)
    {
      for i := 0 to |values|
        invariant vector + SaveAll(values[i..]) == old(vector) + SaveAll(values)
      {
        assert values[i..][1..] == values[i + 1..];
        SaveBinary(values[i]);
      }
    }
  }

  /** What one read at `pos` gives: the bytes and the new position, or nothing when too few are left. */
  function Load(vector: Buffer, pos: nat, size: nat): Option<(Buffer, nat)>
    requires pos <= |vector|
  {
    if size <= |vector| - pos then Some((vector[pos..pos + size], pos + size)) else None
  }

  class InputArchive {
    const vector: Buffer
    var pos: nat

    ghost predicate Valid()
      reads this
    {
      pos <= |vector|
    }

    constructor (vector: Buffer)
      ensures Valid() && this.vector == vector && pos == 0
    {
      this.vector, pos := vector, 0;
    }

    /** `None` stands for the exception; the position does not move then. */
    method LoadBinary(size: nat) returns (data: Option<Buffer>)
      requires Valid()
      modifies this
      ensures Valid()
      ensures match Load(vector, old(pos), size)
              case Some((d, p)) => data == Some(d) && pos == p
              case None => data == None && pos == old(pos)
    {
      var readSize := Min(size, |vector| - pos);
      if readSize != size {
        return None;
      }
      data := Some(vector[pos..pos + readSize]);
      pos := pos + readSize;
    }
  }

  /** The bytes of a list of values saved one after the other. */
  function SaveAll(values: seq<Buffer>): Buffer {
    if values == [] then [] else values[0] + SaveAll(values[1..])
  }

  function Sizes(values: seq<Buffer>): (sizes: seq<nat>)
    ensures |sizes| == |values|
  {
    seq(|values|, i requires 0 <= i < |values| => |values[i]|)
  }

  /** Loads values of the given sizes; fails when one of the reads does. */
  function LoadAll(vector: Buffer, pos: nat, sizes: seq<nat>): Option<(seq<Buffer>, nat)>
    requires pos <= |vector|
    decreases |sizes|
  {
    if sizes == [] then Some(([], pos)) else
    match Load(vector, pos, sizes[0])
    case None => None
    case Some((first, next)) =>
      match LoadAll(vector, next, sizes[1..])
      case None => None
      case Some((rest, end)) => Some(([first] + rest, end))
  }

  lemma LoadNext(before: Buffer, v: Buffer, after: Buffer)
    ensures Load(before + v + after, |before|, |v|) == Some((v, |before + v|))
  {
  }

  /** Saved values come back unchanged from wherever they are in a vector, with the position behind them. */
  lemma {:induction false} LoadAllSaved(before: Buffer, values: seq<Buffer>, after: Buffer)
    ensures LoadAll(before + SaveAll(values) + after, |before|, Sizes(values))
         == Some((values, |before + SaveAll(values)|))
    decreases |values|
  {
    if values == [] {
      assert before + SaveAll(values) == before;
    } else {
      var v, rest := values[0], values[1..];
      LoadAllSaved(before + v, rest, after);
      LoadNext(before, v, SaveAll(rest) + after);
      Regroup(before, v, SaveAll(rest), after);
      assert Sizes(values)[1..] == Sizes(rest);
      assert [v] + rest == values;
    }
  }

  lemma Regroup(a: Buffer, b: Buffer, c: Buffer, d: Buffer)
    ensures a + (b + c) + d == a + b + c + d == a + b + (c + d)
  {
  }

  function Total(sizes: seq<nat>): nat {
    if sizes == [] then 0 else sizes[0] + Total(sizes[1..])
  }

  /** Loading fails exactly when the vector is too short for all the sizes together. */
  lemma {:induction false} LoadAllFails(vector: Buffer, pos: nat, sizes: seq<nat>)
    requires pos <= |vector|
    ensures LoadAll(vector, pos, sizes) == None <==> |vector| - pos < Total(sizes)
    decreases |sizes|
  {
    if sizes != [] && sizes[0] <= |vector| - pos {
      LoadAllFails(vector, pos + sizes[0], sizes[1..]);
    }
  }
}
