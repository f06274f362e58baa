/** Splitting the debug protocol's byte stream into lines (line_framer.hpp). */
module LineFramer {
  import opened Common

  const MAX_LINE_LENGTH: nat := 1024 * 1024

  datatype Callback = OnLine(line: string) | OnLineTooLong

  // ----- The one-shot splitter -----

  predicate IsTerminator(c: char) { c == '\r' || c == '\n' }

  function Last(segments: seq<string>): string
    requires segments != []
  {
    segments[|segments| - 1]
  }

  /** The segments with `c` put before the first one. */
  function Prepend(c: char, segments: seq<string>): (r: seq<string>)
    requires segments != []
    ensures |r| == |segments|
  {
    [[c] + segments[0]] + segments[1..]
  }

  /** The segments with `c` put after the last one. */
  function Extend(segments: seq<string>, c: char): (r: seq<string>)
    requires segments != []
    ensures |r| == |segments|
  {
    segments[..|segments| - 1] + [Last(segments) + [c]]
  }

  /** The segments between terminators; the last one is not terminated yet. */
  function Split(s: string): (segments: seq<string>)
    ensures segments != []
  {
    if s == [] then [""]
    else if IsTerminator(s[0]) then [""] + Split(s[1..])
    else Prepend(s[0], Split(s[1..]))
  }

  /** What a segment leads to: too long ones to one error, others to a line once they end, unless empty. */
  function Report(segment: string, terminated: bool): seq<Callback> {
    if |segment| > MAX_LINE_LENGTH then [OnLineTooLong]
    else if terminated && segment != "" then [OnLine(segment)]
    else []
  }

  function Reports(segments: seq<string>): seq<Callback>
    requires segments != []
  {
    if |segments| == 1 then Report(segments[0], false)
    else Report(segments[0], true) + Reports(segments[1..])
  }

  /** A text without terminators is one segment. */
  lemma {:induction false} SplitPlain(s: string)
    requires forall i :: 0 <= i < |s| ==> s[i] != '\r' && s[i] != '\n'
    ensures Split(s) == [s]
  {
    if s != [] {
      SplitPlain(s[1..]);
      assert [s[0]] + s[1..] == s;
    }
  }

  /** A terminator separates what is before it from what is after it. */
  lemma {:induction false} SplitAt(a: string, c: char, b: string)
    requires c == '\r' || c == '\n'
    ensures Split(a + [c] + b) == Split(a) + Split(b)
  {
    var s := a + [c] + b;
    if a == [] {
      assert s[1..] == b;
    } else {
      assert s[1..] == a[1..] + [c] + b;
      SplitAt(a[1..], c, b);
    }
  }

  // ----- One more character -----

  lemma PrependExtend(a: char, segments: seq<string>, c: char)
    requires segments != []
    ensures Extend(Prepend(a, segments), c) == Prepend(a, Extend(segments, c))
    ensures Extend([""] + segments, c) == [""] + Extend(segments, c)
  {
    if |segments| == 1 {
      assert [a] + (segments[0] + [c]) == [a] + segments[0] + [c];
    }
  }

  lemma {:induction false} SplitAppend(s: string, c: char)
    ensures Split(s + [c]) == if IsTerminator(c) then Split(s) + [""] else Extend(Split(s), c)
  {
    if s == [] {
      assert s + [c] == [c] && [c][1..] == [];
      assert [c] + "" == [c] == "" + [c];
    } else {
      assert (s + [c])[1..] == s[1..] + [c];
      SplitAppend(s[1..], c);
      PrependExtend(s[0], Split(s[1..]), c);
    }
  }

  /** A terminator reports the last segment as a line unless it is empty or was too long. */
  lemma {:induction false} ReportsTerminate(segments: seq<string>)
    requires segments != []
    ensures Reports(segments + [""])
         == Reports(segments) + (if 0 < |Last(segments)| <= 0x10_0000 then [OnLine(Last(segments))] else [])
    decreases |segments|
  {
    assert (segments + [""])[1..] == segments[1..] + [""];
    if |segments| > 1 {
      ReportsTerminate(segments[1..]);
    }
  }

  /** Any other character reports an error exactly when it makes the last segment too long. */
  lemma {:induction false} ReportsExtend(segments: seq<string>, c: char)
    requires segments != []
    ensures Reports(Extend(segments, c))
         == Reports(segments) + (if |Last(segments)| == 0x10_0000 then [OnLineTooLong] else [])
    decreases |segments|
  {
    if |segments| > 1 {
      assert Extend(segments, c)[1..] == Extend(segments[1..], c);
      ReportsExtend(segments[1..], c);
    }
  }

  lemma LastAfterCarriageReturn(s: string)
    requires s != [] && s[|s| - 1] == '\r'
    ensures Last(Split(s)) == ""
  {
    assert s == s[..|s| - 1] + ['\r'];
    SplitAppend(s[..|s| - 1], '\r');
  }

  lemma PushedNext(before: string, data: string, i: nat)
    requires i < |data|
    ensures before + data[..i] + [data[i]] == before + data[..i + 1]
  {
    TakeNext(data, i);
  }

  // ----- The framer -----

  class LineFramer {
    var buffer: string
    var droppingOversizedLine: bool
    var lastWasCarriageReturn: bool
    var callbacks: seq<Callback>  // the callbacks made so far

    ghost var stream: string      // the characters pushed so far

    /** Whatever the chunks were, the callbacks are those of splitting the whole stream at once. */
    ghost predicate Valid()
      reads this
    {
      && callbacks == Reports(Split(stream))
      && (lastWasCarriageReturn <==> stream != [] && stream[|stream| - 1] == '\r')
      && BufferOk()
    }

    /** The buffer is the last segment, cut off at the maximum length. */
    ghost predicate BufferOk()
      reads this
    {
      var last := Last(Split(stream));
      && (droppingOversizedLine <==> |last| > MAX_LINE_LENGTH)
      && buffer == if |last| > MAX_LINE_LENGTH then last[..MAX_LINE_LENGTH] else last
    }

    constructor ()
      ensures Valid() && stream == "" && callbacks == []
    {
      buffer, droppingOversizedLine, lastWasCarriageReturn := "", false, false;
      callbacks, stream := [], "";
    }

    method Push(data: array<char>, length: nat)
      requires Valid() && length <= data.Length
      modifies this
      ensures Valid() && stream == old(stream) + data[..length]
    {
      var i := 0;
      while i < length
        invariant i <= length
        invariant Valid() && stream == old(stream) + data[..i]
      {
        PushedNext(old(stream), data[..], i);
        PushChar(data[i]);
        i := i + 1;
      }
    }

    /** The body of Push's loop. */
    method PushChar(c: char)
      requires Valid()
      modifies this
      ensures Valid() && stream == old(stream) + [c]
    {
      ghost var segments := Split(stream);
      SplitAppend(stream, c);
      ReportsTerminate(segments);
      ReportsExtend(segments, c);
      if lastWasCarriageReturn {
        LastAfterCarriageReturn(stream);
      }
      ghost var pushed := stream + [c];
      if c == '\r' {
        EmitLine();
        lastWasCarriageReturn := true;
      } else if c == '\n' {
        if !lastWasCarriageReturn {
          EmitLine();
        }
        lastWasCarriageReturn := false;
      } else {
        lastWasCarriageReturn := false;
        if droppingOversizedLine {
          // drain the oversized line
        } else if |buffer| >= MAX_LINE_LENGTH {
          callbacks := callbacks + [OnLineTooLong];
          droppingOversizedLine := true;
        } else {
          buffer := buffer + [c];
        }
      }
      stream := pushed;
    }

    method EmitLine()
      modifies this
      ensures stream == old(stream) && lastWasCarriageReturn == old(lastWasCarriageReturn)
      ensures buffer == "" && !droppingOversizedLine
      ensures callbacks == old(callbacks) +
                           (if old(droppingOversizedLine) || old(buffer) == "" then [] else [OnLine(old(buffer))])
    {
      if droppingOversizedLine {
        droppingOversizedLine := false;
      } else if buffer != "" {
        callbacks := callbacks + [OnLine(buffer)];
      }
      buffer := "";
    }
  }
}
