/** Random access, accuracy, symmetry and antialiasing of the line stepper. */
module LineStepperProofs {
  import opened Common
  import opened LineStepper

  // ----- Integer division -----

  function Ceil(a: int, d: int): int
    requires d > 0
  {
    -(-a / d)
  }

  lemma FloorIs(a: int, d: int, q: int)
    requires d > 0 && d * q <= a < d * q + d
    ensures a / d == q
  {
    RemainderIs(a, d, q, a - d * q);
  }

  lemma FloorExactly(a: int, d: int, q: int)
    requires d > 0
    ensures 0 <= a - d * q < d <==> q == a / d
  {
    if 0 <= a - d * q < d {
      FloorIs(a, d, q);
    }
  }

  lemma FloorShift(a: int, d: int, r: int)
    requires d > 0
    ensures (a - d * r) / d == a / d - r
  {
    var q := a / d;
    assert d * (q - r) == d * q - d * r;
    FloorIs(a - d * r, d, q - r);
  }

  /** Truncating the distance to `a` from a multiple of `d` rounds `a` down from below and up from above. */
  lemma TruncShift(a: int, d: int, r: int)
    requires d > 0
    ensures TruncDiv(a - d * r, d) + r == if d * r <= a then a / d else Ceil(a, d)
  {
    FloorShift(a, d, r);
    FloorShift(-a, d, -r);
    assert d * -r == -(d * r);
  }

  // ----- Rows -----

  /** Rounding the ideal minor coordinate of step `k` is a division of this by `Den`. */
  function Numerator(l: Line, k: int): int {
    l.Num() * k + l.Major() - 1 + l.TieBump()
  }

  /** Minor steps made when step `k` is reached. */
  function Row(l: Line, k: int): int {
    if l.Major() == 0 then 0 else Numerator(l, k) / l.Den()
  }

  /** The cursor at step `k`. */
  function At(l: Line, k: nat): Cursor { Lattice(l, k, Row(l, k)) }

  /** The accumulator at step `k` is where it has to be: in (target, target + den]. */
  predicate InWindow(l: Line, c: Cursor) {
    l.Target() < c.accum <= l.Target() + l.Den()
  }

  lemma RowExactly(l: Line, k: nat, row: int)
    requires l.Major() > 0
    ensures 0 <= Numerator(l, k) - l.Den() * row < l.Den() <==> row == Row(l, k)
  {
    FloorExactly(Numerator(l, k), l.Den(), row);
  }

  lemma RowUnique(l: Line, k: nat, row: int)
    requires l.Major() > 0
    ensures InWindow(l, Lattice(l, k, row)) <==> row == Row(l, k)
  {
    RowExactly(l, k, row);
    AccumIs(l, k, row);
  }

  lemma AccumIs(l: Line, k: nat, row: int)
    ensures Lattice(l, k, row).accum == l.Target() + l.Den() - (Numerator(l, k) - l.Den() * row)
  {
  }

  /** Twice the distance, in units of 1 / Major, from the ideal line at step `k` to `row`. */
  function Deviation(l: Line, k: nat, row: int): int {
    2 * (l.Major() * row) - 2 * (l.Minor() * k)
  }

  /** Within half a pixel of the ideal line; exactly half only on the side the direction prefers. */
  predicate Nearest(l: Line, k: nat, row: int) {
    && Abs(Deviation(l, k, row)) <= l.Major()
    && (l.TieBump() == 0 ==> Deviation(l, k, row) < l.Major())
    && (l.TieBump() == 1 ==> 0 < Deviation(l, k, row) + l.Major())
  }

  lemma HalfAway(major: nat, bump: nat, deviation: int)
    requires major > 0 && bump <= 1
    ensures 0 <= major - 1 + bump - deviation < 2 * major
            <==> && Abs(deviation) <= major
                 && (bump == 0 ==> deviation < major)
                 && (bump == 1 ==> 0 < deviation + major)
  {
  }

  /** The row of step `k` is the nearest pixel to the ideal line, ties decided by the direction. */
  lemma RowIsNearest(l: Line, k: nat, row: int)
    requires l.Major() > 0
    ensures Nearest(l, k, row) <==> row == Row(l, k)
  {
    RowExactly(l, k, row);
    DeviationInDivisor(l, k, row);
    HalfAway(l.Major(), l.TieBump(), Deviation(l, k, row));
  }

  lemma DeviationInDivisor(l: Line, k: nat, row: int)
    ensures Numerator(l, k) - l.Den() * row == l.Major() - 1 + l.TieBump() - Deviation(l, k, row)
  {
  }

  lemma FirstRow(l: Line)
    ensures Row(l, 0) == 0
  {
    if l.Major() > 0 {
      RowIsNearest(l, 0, 0);
    }
  }

  lemma LastRow(l: Line)
    ensures Row(l, l.Major()) == l.Minor()
  {
    if l.Major() > 0 {
      assert Deviation(l, l.Major(), l.Minor()) == 0;
      RowIsNearest(l, l.Major(), l.Minor());
    }
  }

  lemma NextRow(l: Line, k: nat)
    ensures Row(l, k) <= Row(l, k + 1) <= Row(l, k) + 1
    ensures l.Major() > 0 ==>
      (Row(l, k + 1) == Row(l, k) + 1 <==> At(l, k).accum - l.Num() <= l.Target())
  {
    if l.Major() > 0 {
      var q := Row(l, k);
      RowUnique(l, k, q);
      RowUnique(l, k + 1, if At(l, k).accum - l.Num() <= l.Target() then q + 1 else q);
      NextAccum(l, k, q);
    }
  }

  lemma NextAccum(l: Line, k: nat, row: int)
    ensures Lattice(l, k + 1, row).accum == Lattice(l, k, row).accum - l.Num()
    ensures Lattice(l, k + 1, row + 1).accum == Lattice(l, k, row).accum - l.Num() + l.Den()
  {
  }

  // ----- Random access refines unit stepping -----

  /** Stepping one pixel at a time reaches the closed form. */
  lemma {:induction false} SteppedIsAt(l: Line, k: nat)
    ensures Stepped(l, k) == At(l, k)
  {
    if k == 0 {
      FirstStep(l);
    } else {
      SteppedIsAt(l, k - 1);
      NextStep(l, k - 1);
    }
  }

  lemma FirstStep(l: Line)
    ensures UnitStep(l, Start(l)) == At(l, 0)
  {
    FirstRow(l);
  }

  lemma NextStep(l: Line, k: nat)
    ensures UnitStep(l, At(l, k)) == At(l, k + 1)
  {
    NextRow(l, k);
    LatticeStep(l, k, Row(l, k));
  }

  lemma LatticeStep(l: Line, k: nat, row: int)
    ensures var c, d := Lattice(l, k, row), Lattice(l, k + 1, row);
            && d == Cursor(c.x + l.XMajInc(), c.y + l.YMajInc(), c.accum - l.Num(), c.step + 1)
            && Lattice(l, k + 1, row + 1)
               == Cursor(d.x + l.XMinInc(), d.y + l.YMinInc(), d.accum + l.Den(), d.step)
  {
  }

  function Clamped(l: Line, step: nat): nat { if step < l.Major() then step else l.Major() }

  /** The row a seek to step `k` lands on when the cursor is on row `row`: rounded up when it has to go back. */
  function SoughtRow(l: Line, k: nat, row: int): int {
    if l.Major() == 0 || l.Den() * row <= Numerator(l, k) then Row(l, k) else Ceil(Numerator(l, k), l.Den())
  }

  lemma LatticeMove(l: Line, j: int, row: int, k: int, count: int)
    requires -1 <= j && -1 <= k
    ensures var c := Lattice(l, j, row);
            Lattice(l, k, row + count)
            == Cursor(c.x + l.XMajInc() * (k - j) + l.XMinInc() * count,
                      c.y + l.YMajInc() * (k - j) + l.YMinInc() * count,
                      c.accum - l.Num() * (k - j) + l.Den() * count, k + 1)
  {
  }

  /** One division: wherever on its lattice the cursor is, a seek lands on the sought step and row. */
  lemma SeekLands(l: Line, j: int, row: int, step: nat)
    requires -1 <= j && (l.Major() == 0 ==> row == 0)
    ensures var k := Clamped(l, step);
            k != j ==> Seek(l, Lattice(l, j, row), step) == Lattice(l, k, SoughtRow(l, k, row))
  {
    var k := Clamped(l, step);
    if k != j {
      var count := SoughtRow(l, k, row) - row;
      LatticeMove(l, j, row, k, 0);
      LatticeMove(l, j, row, k, count);
      if l.Major() > 0 {
        TruncShift(Numerator(l, k), l.Den(), row);
        assert l.Target() - Lattice(l, k, row).accum + l.Den() == Numerator(l, k) - l.Den() * row;
      }
    }
  }

  lemma {:induction false} RowsGrow(l: Line, j: nat, k: nat)
    requires j <= k
    ensures Row(l, j) <= Row(l, k)
    decreases k - j
  {
    if j < k {
      NextRow(l, j);
      RowsGrow(l, j + 1, k);
    }
  }

  /** The cursors a stepper has while it only seeks forward: before the line, or at a step of it. */
  ghost predicate OnLine(l: Line, c: Cursor) {
    c == Start(l) || (1 <= c.step <= l.Major() + 1 && c == Stepped(l, c.step - 1))
  }

  lemma ForwardLands(l: Line, j: int, row: int, step: nat)
    requires var k := Clamped(l, step);
             && -1 <= j <= k
             && (l.Major() == 0 ==> row == 0)
             && (l.Major() > 0 ==> l.Den() * row <= Numerator(l, k))
             && (j == k ==> row == Row(l, k))
    ensures Seek(l, Lattice(l, j, row), step) == At(l, Clamped(l, step))
  {
    SeekLands(l, j, row, step);
  }

  lemma ForwardFromStart(l: Line, step: nat)
    ensures Seek(l, Start(l), step) == At(l, Clamped(l, step))
  {
    ForwardLands(l, -1, 0, step);
  }

  lemma ForwardFromStep(l: Line, j: nat, step: nat)
    requires j <= Clamped(l, step)
    ensures Seek(l, At(l, j), step) == At(l, Clamped(l, step))
  {
    RowsGrow(l, j, Clamped(l, step));
    if l.Major() > 0 {
      RowTimesDen(l, Clamped(l, step), Row(l, j));
    }
    ForwardLands(l, j, Row(l, j), step);
  }

  /** A seek that does not go back reaches what stepping one pixel at a time reaches. */
  lemma ForwardSeek(l: Line, c: Cursor, step: nat)
    requires OnLine(l, c) && c.step <= Clamped(l, step) + 1
    ensures Seek(l, c, step) == Stepped(l, Clamped(l, step))
    ensures l.Major() > 0 ==> InWindow(l, Seek(l, c, step))
  {
    var k := Clamped(l, step);
    SteppedIsAt(l, k);
    if l.Major() > 0 {
      RowUnique(l, k, Row(l, k));
    }
    if c == Start(l) {
      ForwardFromStart(l, step);
    } else {
      SteppedIsAt(l, c.step - 1);
      ForwardFromStep(l, c.step - 1, step);
    }
  }

  lemma RowTimesDen(l: Line, k: nat, row: int)
    requires l.Major() > 0 && row <= Row(l, k)
    ensures l.Den() * row <= Numerator(l, k)
  {
    assert l.Den() * Row(l, k) <= Numerator(l, k);
    assert l.Den() * row <= l.Den() * Row(l, k);
  }

  function Seeks(l: Line, c: Cursor, steps: seq<nat>): Cursor
    decreases |steps|
  {
    if steps == [] then c else Seeks(l, Seek(l, c, steps[0]), steps[1..])
  }

  predicate NonDecreasing(steps: seq<nat>) {
    forall i, j :: 0 <= i < j < |steps| ==> steps[i] <= steps[j]
  }

  /**
   Any non-decreasing sequence of SetStep calls on a new stepper ends where one call to the last step, or
   stepping one pixel at a time, ends.
   */
  lemma {:induction false} SeeksRefineStepping(l: Line, c: Cursor, steps: seq<nat>)
    requires steps != [] && NonDecreasing(steps)
    requires OnLine(l, c) && c.step <= Clamped(l, steps[0]) + 1
    ensures Seeks(l, c, steps) == Stepped(l, Clamped(l, steps[|steps| - 1]))
         == Seek(l, Start(l), steps[|steps| - 1])
    decreases |steps|
  {
    ForwardSeek(l, c, steps[0]);
    ForwardSeek(l, Start(l), steps[|steps| - 1]);
    if |steps| > 1 {
      SeeksRefineStepping(l, Seek(l, c, steps[0]), steps[1..]);
    }
  }

  lemma SoughtExactly(l: Line, k: nat, row: int)
    requires l.Major() > 0
    ensures SoughtRow(l, k, row) == Row(l, k) <==> row <= Row(l, k) || Numerator(l, k) % l.Den() == 0
  {
    CeilFloor(Numerator(l, k), l.Den());
    if row <= Row(l, k) {
      RowTimesDen(l, k, row);
    } else {
      assert l.Den() * (row - Row(l, k)) == l.Den() * row - l.Den() * Row(l, k);
      AtLeastOnce(l.Den(), row - Row(l, k));
    }
  }

  lemma BackwardSeek(l: Line, j: nat, k: nat)
    requires k < j <= l.Major()
    ensures Seek(l, Stepped(l, j), k) == Lattice(l, k, SoughtRow(l, k, Row(l, j)))
  {
    SteppedIsAt(l, j);
    SeekLands(l, j, Row(l, j), k);
  }

  /**
   C division rounds the wrong way for a seek back: it still finds the right pixel exactly when the row does
   not change, or when the sought step is one where rounding up and down agree.
   */
  lemma BackwardSeekExactly(l: Line, j: nat, k: nat)
    requires k < j <= l.Major()
    ensures Seek(l, Stepped(l, j), k) == Stepped(l, k)
            <==> Row(l, k) == Row(l, j) || Numerator(l, k) % l.Den() == 0
  {
    BackwardSeek(l, j, k);
    SteppedIsAt(l, k);
    RowsGrow(l, k, j);
    SoughtExactly(l, k, Row(l, j));
    LatticeInjective(l, k, SoughtRow(l, k, Row(l, j)), Row(l, k));
  }

  lemma CeilFloor(a: int, d: int)
    requires d > 0
    ensures Ceil(a, d) == a / d <==> a % d == 0
  {
    var q := a / d;
    assert a == d * q + a % d;
    if a % d == 0 {
      assert d * -q == -a;
      FloorIs(-a, d, -q);
    } else {
      assert d * (-q - 1) == -(d * q) - d;
      FloorIs(-a, d, -q - 1);
    }
  }

  lemma LatticeInjective(l: Line, k: nat, row: int, row': int)
    requires l.Major() > 0
    ensures Lattice(l, k, row) == Lattice(l, k, row') <==> row == row'
  {
    assert l.Den() * row - l.Den() * row' == l.Den() * (row - row');
    AtLeastOnce(l.Den(), row - row');
    AtLeastOnce(l.Den(), row' - row);
  }

  const SAMPLE := Line(Coord(0, 0), Coord(3, 2), false)

  lemma SampleRows(l: Line, end: nat)
    requires l == SAMPLE && end == 3
    ensures l.Major() == end && Row(l, end) == 2 && Row(l, 0) == 0 && Numerator(l, 0) % l.Den() == 2
  {
    assert l.Minor() == 2 && Numerator(l, end) == 14 && Numerator(l, 0) == 2;
  }

  /** Going back from the end of this line to its start misses. */
  lemma BackwardSeekMisses(l: Line, end: nat)
    requires l == SAMPLE && end == 3
    ensures Seek(l, Stepped(l, end), 0) != Stepped(l, 0)
  {
    SampleRows(l, end);
    BackwardSeekExactly(l, end, 0);
  }

  // ----- Where the pixels are -----

  function Pixel(l: Line, k: nat): Coord { Stepped(l, k).Pixel() }

  /** The ends of the line are its ends, and neighbouring steps touch at least at a corner. */
  lemma Endpoints(l: Line)
    ensures Pixel(l, 0) == l.from && Pixel(l, l.Major()) == l.to
  {
    SteppedIsAt(l, 0);
    FirstRow(l);
    SteppedIsAt(l, l.Major());
    LastRow(l);
    SignedSpan(l.Dx());
    SignedSpan(l.Dy());
  }

  lemma SignedSpan(n: int)
    ensures Sign(n) * Abs(n) == n
  {
  }

  function Distance(a: Coord, b: Coord): nat { Abs(a.x - b.x) + Abs(a.y - b.y) }

  predicate Touch(a: Coord, b: Coord) { Abs(a.x - b.x) <= 1 && Abs(a.y - b.y) <= 1 && a != b }

  lemma Connected(l: Line, k: nat)
    requires k < l.Major()
    ensures Touch(Pixel(l, k), Pixel(l, k + 1))
    ensures Distance(Pixel(l, k), Pixel(l, k + 1)) == 1 + Row(l, k + 1) - Row(l, k)
  {
    StepMoves(l, k);
  }

  lemma StepMoves(l: Line, k: nat)
    requires k < l.Major()
    ensures var moved := Row(l, k + 1) - Row(l, k);
            && 0 <= moved <= 1
            && Pixel(l, k + 1) == Coord(Pixel(l, k).x + l.XMajInc() + l.XMinInc() * moved,
                                        Pixel(l, k).y + l.YMajInc() + l.YMinInc() * moved)
  {
    SteppedIsAt(l, k);
    SteppedIsAt(l, k + 1);
    NextRow(l, k);
    LatticeMove(l, k, Row(l, k), k + 1, Row(l, k + 1) - Row(l, k));
  }

  function MajorOffset(l: Line, p: Coord): int { if l.XMajor() then p.x - l.from.x else p.y - l.from.y }
  function MinorOffset(l: Line, p: Coord): int { if l.XMajor() then p.y - l.from.y else p.x - l.from.x }

  lemma Offsets(l: Line, k: nat)
    ensures MajorOffset(l, Pixel(l, k)) == Sign(l.MajorDelta()) * k
    ensures MinorOffset(l, Pixel(l, k)) == Sign(l.MinorDelta()) * Row(l, k)
  {
    SteppedIsAt(l, k);
  }

  /** In the minor axis every pixel is within half a pixel of the ideal line through both ends. */
  lemma HalfPixel(l: Line, k: nat)
    requires k <= l.Major()
    ensures var major, minor := MajorOffset(l, Pixel(l, k)), MinorOffset(l, Pixel(l, k));
            && Abs(major) == k
            && Abs(2 * (minor * l.MajorDelta() - major * l.MinorDelta())) <= l.Major()
  {
    Offsets(l, k);
    SignedDeviation(l.MajorDelta(), l.MinorDelta(), k, Row(l, k));
    assert l.Major() > 0 ==> Nearest(l, k, Row(l, k)) by {
      if l.Major() > 0 {
        RowIsNearest(l, k, Row(l, k));
      }
    }
  }

  lemma SignedDeviation(major: int, minor: int, k: nat, row: int)
    ensures Abs(2 * (Sign(minor) * row * major - Sign(major) * k * minor))
         == Abs(2 * (Abs(major) * row) - 2 * (Abs(minor) * k))
  {
    SignedProduct(Sign(minor), row, major);
    SignedProduct(Sign(major), k, minor);
  }

  lemma SignedProduct(s: int, n: int, m: int)
    requires s == 1 || s == -1
    ensures s * n * m == if s == Sign(m) then Abs(m) * n else -(Abs(m) * n)
  {
  }
}
