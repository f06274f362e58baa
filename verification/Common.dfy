/** Shared types and small facts. */
module Common {

  datatype Option<+T> = None | Some(value: T)

  function Max(a: nat, b: nat): nat { if a < b then b else a }

  function Min(a: nat, b: nat): nat { if a < b then a else b }

  /** The last `n` elements, or all of them when there are fewer: what a queue that drops its oldest keeps. */
  function LastN<T>(s: seq<T>, n: nat): (r: seq<T>)
    ensures |r| == Min(|s|, n)
  {
    if |s| <= n then s else s[|s| - n..]
  }

  /** Dropping from the front early or late leaves the same last elements. */
  lemma LastNOfLastN<T>(a: seq<T>, b: seq<T>, n: nat)
    ensures LastN(LastN(a, n) + b, n) == LastN(a + b, n)
  {
  }

  lemma Associate<T>(a: seq<T>, b: seq<T>, c: seq<T>)
    ensures a + b + c == a + (b + c)
  {
  }

  lemma TakeNext<T>(s: seq<T>, i: nat)
    requires i < |s|
    ensures s[..i] + [s[i]] == s[..i + 1]
  {
  }

  /** Some element of a set. */
  lemma Member<T>(s: set<T>) returns (x: T)
    requires s != {}
    ensures x in s
  {
    x :| x in s;
  }

  // ----- Division -----

  lemma AtLeastOnce(d: int, n: int)
    requires d > 0
    ensures n >= 1 ==> d * n >= d
  {
  }

  /** Quotient and remainder are unique. */
  lemma RemainderIs(a: int, d: int, q: int, r: int)
    requires d > 0 && a == d * q + r && 0 <= r < d
    ensures a / d == q && a % d == r
  {
    var p := a / d;
    assert d * (p - q) == d * p - d * q && d * (q - p) == d * q - d * p;
    AtLeastOnce(d, p - q);
    AtLeastOnce(d, q - p);
  }
}
