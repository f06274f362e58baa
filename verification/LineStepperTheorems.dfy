/** Symmetry, antialiasing, seeking to a pixel and 32-bit range of the line stepper. */
module LineStepperTheorems {
  import opened Common
  import opened LineStepper
  import opened LineStepperProofs

  // ----- Which pixel, exactly -----

  /**
   Every pixel, and the side ties go to: counted from one end of the line, the row is the ideal minor coordinate
   rounded to the nearest pixel, halves down. That end is the start of an antialiased line, and of any other line
   the end with the smaller major coordinate, which a line and its reverse have in common.
   */
  lemma PixelsExactly(l: Line, k: nat)
    requires l.from != l.to && k <= l.Major()
    ensures var p := Pixel(l, k);
            var w, h := Abs(l.to.x - l.from.x), Abs(l.to.y - l.from.y);
            var low := if l.antiAlias then l.from
                       else if w >= h then (if l.from.x < l.to.x then l.from else l.to)
                       else (if l.from.y < l.to.y then l.from else l.to);
            var along, across := if w >= h then Abs(p.x - low.x) else Abs(p.y - low.y),
                                 if w >= h then Abs(p.y - low.y) else Abs(p.x - low.x);
            var major, minor := if w >= h then w else h, if w >= h then h else w;
            -major <= 2 * (major * across) - 2 * (minor * along) < major
  {
    RowRounds(l, k);
    FromEnds(l, k);
  }

  /** The row rounds halves down, counted from the end that `TieBump` chooses. */
  lemma RowRounds(l: Line, k: nat)
    requires l.Major() > 0 && k <= l.Major()
    ensures var major: int, minor: int, row := l.Major(), l.Minor(), Row(l, k);
            && 0 <= row <= minor
            && (if l.TieBump() == 0 then -major <= 2 * (major * row) - 2 * (minor * k) < major
                else -major <= 2 * (major * (minor - row)) - 2 * (minor * (major - k)) < major)
  {
    FirstRow(l);
    LastRow(l);
    RowsGrow(l, 0, k);
    RowsGrow(l, k, l.Major());
    RowIsNearest(l, k, Row(l, k));
    CrossProduct(l.Major(), l.Minor(), k, Row(l, k));
  }

  /** How far a pixel is from both ends of the line. */
  lemma FromEnds(l: Line, k: nat)
    requires k <= l.Major() && 0 <= Row(l, k) <= l.Minor()
    ensures var p := Pixel(l, k);
            && Abs(MajorOffset(l, p)) == k && Abs(MinorOffset(l, p)) == Row(l, k)
            && Abs(MajorOffset(l, p) - l.MajorDelta()) == l.Major() - k
            && Abs(MinorOffset(l, p) - l.MinorDelta()) == l.Minor() - Row(l, k)
  {
    Offsets(l, k);
    FromEitherEnd(l.MajorDelta(), k);
    FromEitherEnd(l.MinorDelta(), Row(l, k));
  }

  /** Distances of a pixel from both ends of a span. */
  lemma FromEitherEnd(span: int, n: int)
    requires 0 <= n <= Abs(span)
    ensures Abs(Sign(span) * n) == n && Abs(Sign(span) * n - span) == Abs(span) - n
  {
  }

  /** Half way between two pixels the one toward that end is taken. */
  lemma TiesExactly(l: Line, k: nat)
    requires IsTie(l, k)
    ensures Deviation(l, k, Row(l, k))
         == if !l.antiAlias && l.MajorDelta() < 0 then l.Major() else -(l.Major() as int)
  {
    var q := Quotient(l.Num() * k, l.Den(), l.Major());
    TieDividend(l, k, q);
    TieAbove(l, k, q);
    RowIsNearest(l, k, q);
    RowIsNearest(l, k, q + 1);
  }

  lemma TieAbove(l: Line, k: nat, row: int)
    ensures Deviation(l, k, row + 1) == Deviation(l, k, row) + 2 * l.Major()
  {
  }

  // ----- Drawing a line backwards -----

  lemma ReversedSpans(l: Line)
    ensures var r := l.Reversed();
            && r.Major() == l.Major() && r.Minor() == l.Minor() && r.XMajor() == l.XMajor()
            && r.MajorDelta() == -l.MajorDelta() && r.MinorDelta() == -l.MinorDelta()
  {
  }

  lemma CrossProduct(a: int, b: int, k: int, row: int)
    ensures 2 * (a * (b - row)) - 2 * (b * (a - k)) == -(2 * (a * row) - 2 * (b * k))
  {
    assert a * (b - row) == a * b - a * row && b * (a - k) == a * b - b * k;
  }

  lemma DeviationReversed(l: Line, k: nat, row: int)
    requires k <= l.Major()
    ensures Deviation(l.Reversed(), l.Major() - k, l.Minor() - row) == -Deviation(l, k, row)
  {
    ReversedSpans(l);
    CrossProduct(l.Major(), l.Minor(), k, row);
  }

  /** Without antialiasing the rows of a line and its reverse add up to the minor span at every step. */
  lemma RowsReversed(l: Line, k: nat)
    requires k <= l.Major() && !l.antiAlias
    ensures Row(l.Reversed(), l.Major() - k) == l.Minor() - Row(l, k)
  {
    if l.Major() > 0 {
      RowIsNearest(l, k, Row(l, k));
      DeviationReversed(l, k, Row(l, k));
      RowIsNearest(l.Reversed(), l.Major() - k, l.Minor() - Row(l, k));
    }
  }

  lemma SignReversed(n: int, k: int)
    ensures n != 0 || k == Abs(n) ==> n + Sign(-n) * (Abs(n) - k) == Sign(n) * k
  {
  }

  lemma FlatRow(l: Line, k: nat)
    requires l.Minor() == 0
    ensures Row(l, k) == 0
  {
    if l.Major() > 0 {
      assert Deviation(l, k, 0) == 0;
      RowIsNearest(l, k, 0);
    }
  }

  lemma SamePixel(l: Line, p: Coord, q: Coord)
    ensures p == q <==> MajorOffset(l, p) == MajorOffset(l, q) && MinorOffset(l, p) == MinorOffset(l, q)
  {
  }

  /** Where a pixel of the reverse line is, seen from the start of the line. */
  lemma ReversedOffsets(l: Line, k: nat)
    ensures var p := Pixel(l.Reversed(), k);
            && MajorOffset(l, p) == l.MajorDelta() + Sign(-l.MajorDelta()) * k
            && MinorOffset(l, p) == l.MinorDelta() + Sign(-l.MinorDelta()) * Row(l.Reversed(), k)
  {
    ReversedSpans(l);
    Offsets(l.Reversed(), k);
  }

  /** The pixels of step `k` and of the reverse line's step `Major - k` coincide exactly when the rows fit. */
  lemma PixelsReversed(l: Line, k: nat)
    requires k <= l.Major()
    ensures Pixel(l.Reversed(), l.Major() - k) == Pixel(l, k)
            <==> Row(l.Reversed(), l.Major() - k) == l.Minor() - Row(l, k)
  {
    var r := l.Reversed();
    var row := l.Minor() - Row(r, l.Major() - k);
    SamePixel(l, Pixel(r, l.Major() - k), Pixel(l, k));
    Offsets(l, k);
    ReversedOffsets(l, l.Major() - k);
    SignReversed(l.MajorDelta(), k);
    if l.Minor() == 0 {
      ReversedSpans(l);
      FlatRow(l, k);
      FlatRow(r, l.Major() - k);
    }
    SignReversed(l.MinorDelta(), row);
    SameSignedRow(Sign(l.MinorDelta()), row, Row(l, k));
  }

  lemma SameSignedRow(s: int, a: int, b: int)
    requires s == 1 || s == -1
    ensures s * a == s * b <==> a == b
  {
  }

  /** Without antialiasing a line drawn backwards visits the same pixels, for all endpoints. */
  lemma ReversalSymmetry(l: Line, k: nat)
    requires k <= l.Major() && !l.antiAlias
    ensures Pixel(l.Reversed(), l.Major() - k) == Pixel(l, k)
  {
    RowsReversed(l, k);
    PixelsReversed(l, k);
  }

  /** The ideal line passes exactly half way between two pixels. */
  predicate IsTie(l: Line, k: nat) {
    l.Major() > 0 && l.Num() * k % l.Den() == l.Major()
  }

  lemma TieDeviation(l: Line, k: nat)
    requires l.Major() > 0 && l.TieBump() == 0
    ensures IsTie(l, k) <==> Deviation(l, k, Row(l, k)) == -(l.Major() as int)
  {
    if IsTie(l, k) {
      TieRow(l, k);
    }
    if Deviation(l, k, Row(l, k)) == -(l.Major() as int) {
      TieDividend(l, k, Row(l, k));
      RemainderIs(l.Num() * k, l.Den(), Row(l, k), l.Major());
    }
  }

  lemma Quotient(a: int, d: int, r: int) returns (q: int)
    requires d > 0 && a % d == r
    ensures a == d * q + r
  {
    q := a / d;
  }

  lemma TieRow(l: Line, k: nat)
    requires IsTie(l, k) && l.TieBump() == 0
    ensures Deviation(l, k, Row(l, k)) == -(l.Major() as int)
  {
    var q := Quotient(l.Num() * k, l.Den(), l.Major());
    TieDividend(l, k, q);
    RowIsNearest(l, k, q);
  }

  lemma TieDividend(l: Line, k: nat, row: int)
    ensures l.Num() * k == l.Den() * row + l.Major() <==> Deviation(l, k, row) == -(l.Major() as int)
  {
  }

  /** With antialiasing the target is not bumped, and the reverse line differs at exactly the ties. */
  lemma AntialiasedReversal(l: Line, k: nat)
    requires k <= l.Major() && l.antiAlias
    ensures Pixel(l.Reversed(), l.Major() - k) == Pixel(l, k) <==> !IsTie(l, k)
  {
    PixelsReversed(l, k);
    if l.Major() > 0 {
      TieDeviation(l, k);
      RowIsNearest(l, k, Row(l, k));
      DeviationReversed(l, k, Row(l, k));
      RowIsNearest(l.Reversed(), l.Major() - k, l.Minor() - Row(l, k));
    }
  }

  const TIED := Line(Coord(0, 0), Coord(2, 1), true)

  /** The middle of this line is a tie, and its reverse misses that pixel. */
  lemma ReversedTieMisses(l: Line, middle: nat)
    requires l == TIED && middle == 1
    ensures middle <= l.Major() && Pixel(l.Reversed(), l.Major() - middle) != Pixel(l, middle)
  {
    assert l.Major() == 2 && l.Num() * middle == 2 && l.Den() == 4;
    AntialiasedReversal(l, middle);
  }

  // ----- Antialiasing -----

  /** The O(1) test is right at every step: it holds exactly when the last step was diagonal. */
  lemma AATestExactly(l: Line, k: nat)
    requires l.antiAlias && k < l.Major()
    ensures !AANeeded(l, Stepped(l, 0))
    ensures AANeeded(l, Stepped(l, k + 1)) <==> Row(l, k + 1) == Row(l, k) + 1
  {
    SteppedIsAt(l, k);
    SteppedIsAt(l, k + 1);
    NextRow(l, k);
    var moved := Row(l, k + 1) - Row(l, k);
    LatticeMove(l, k, Row(l, k), k + 1, moved);
    assert At(l, k + 1).accum == At(l, k).accum - l.Num() + (if moved == 1 then l.Den() else 0);
    RowUnique(l, k, Row(l, k));
  }

  /**
   The antialiased line is 4-connected: the extra pixel is drawn exactly at the diagonal steps, next to both
   the previous and the current pixel, and without it these two are next to each other.
   */
  lemma AntialiasedLineIsConnected(l: Line, k: nat)
    requires l.antiAlias && k < l.Major()
    ensures var p, c := Pixel(l, k), Stepped(l, k + 1);
            if AANeeded(l, c)
            then Distance(p, AAPixel(l, c)) == 1 && Distance(AAPixel(l, c), c.Pixel()) == 1
            else Distance(p, c.Pixel()) == 1
  {
    AATestExactly(l, k);
    StepMoves(l, k);
  }

  /** Where the antialiasing pixel is, seen from any cursor. */
  lemma AAPixelExactly(l: Line, c: Cursor)
    requires l.antiAlias
    ensures AAPixel(l, c) == if (l.from.x > l.to.x) == (l.from.y > l.to.y)
                             then Coord(c.x, if l.to.y >= l.from.y then c.y - 1 else c.y + 1)
                             else Coord(if l.to.x >= l.from.x then c.x - 1 else c.x + 1, c.y)
  {
  }

  /**
   Which corner of a diagonal step is filled: in the new column and the old row when both coordinates run the
   same way, in the old column and the new row when they do not.
   */
  lemma AACorner(l: Line, k: nat)
    requires l.antiAlias && k < l.Major() && AANeeded(l, Stepped(l, k + 1))
    ensures var p, c := Pixel(l, k), Pixel(l, k + 1);
            AAPixel(l, Stepped(l, k + 1)) == if (l.from.x > l.to.x) == (l.from.y > l.to.y)
                                             then Coord(c.x, p.y) else Coord(p.x, c.y)
  {
    AATestExactly(l, k);
    StepMoves(l, k);
    AAPixelExactly(l, Stepped(l, k + 1));
  }

  /** Seeking to or past the last step ends at the end of the line. */
  lemma SeekPastEnd(l: Line, step: nat)
    requires l.Major() <= step
    ensures Seek(l, Start(l), step).Pixel() == l.to
  {
    ForwardSeek(l, Start(l), step);
    Endpoints(l);
  }

  // ----- From pixels back to steps -----

  /** StepsToTarget undoes SetStep, for the line's pixels and for its antialiasing pixels. */
  lemma StepsToInverts(l: Line, k: nat)
    requires k <= l.Major()
    ensures StepsTo(l, Pixel(l, k), false) == k
    ensures StepsTo(l, AAPixel(l, Stepped(l, k)), true) == k
  {
    SteppedIsAt(l, k);
    SignSquared(l.Dx(), k);
    SignSquared(l.Dy(), k);
  }

  lemma SignSquared(n: int, k: int)
    ensures Sign(n) * k * Sign(n) == k
  {
  }

  /** The pixel drawn at step `k`, or its antialiasing pixel. */
  function Drawn(l: Line, k: nat, aa: bool): Coord {
    if aa then AAPixel(l, Stepped(l, k)) else Pixel(l, k)
  }

  /** How far the antialiasing pixel is shifted along the line. */
  function AAMajor(l: Line, aa: bool): int {
    if !aa then 0 else if l.XMajor() then l.AAInc().x else l.AAInc().y
  }

  /**
   In both flavours, a target on the span of the pixels drawn is met in the major coordinate by the pixel of
   the step found; any other target is sent past the end.
   */
  lemma StepsToAligns(l: Line, target: Coord, aa: bool)
    requires aa ==> l.antiAlias
    ensures var k := StepsTo(l, target, aa);
            var w, h := Abs(l.to.x - l.from.x), Abs(l.to.y - l.from.y);
            var dx := target.x - l.from.x - (if aa then l.AAInc().x else 0);
            var dy := target.y - l.from.y - (if aa then l.AAInc().y else 0);
            if w >= h
            then if 0 <= (if l.to.x >= l.from.x then dx else -dx) <= w
                 then k <= w && Drawn(l, k, aa).x == target.x else k == w + 1
            else if 0 <= (if l.to.y >= l.from.y then dy else -dy) <= h
                 then k <= h && Drawn(l, k, aa).y == target.y else k == h + 1
  {
    var k := StepsTo(l, target, aa);
    var d := MajorOffset(l, target) - AAMajor(l, aa);
    StepsToSpan(l, target, aa);
    if k <= l.Major() {
      Offsets(l, k);
      SignSquared(l.MajorDelta(), d);
      DrawnOffset(l, k, aa);
    }
  }

  /** Only the major coordinate counts. */
  lemma StepsToSpan(l: Line, target: Coord, aa: bool)
    ensures var d := (MajorOffset(l, target) - AAMajor(l, aa)) * Sign(l.MajorDelta());
            StepsTo(l, target, aa) == if 0 <= d <= l.Major() then d else l.Major() + 1
  {
  }

  lemma DrawnOffset(l: Line, k: nat, aa: bool)
    ensures MajorOffset(l, Drawn(l, k, aa)) == MajorOffset(l, Pixel(l, k)) + AAMajor(l, aa)
  {
  }

  /** The two seeks made for a target, the second for its antialiasing pixel, never go back. */
  lemma TargetSeeksAreForward(l: Line, target: Coord)
    requires l.antiAlias && StepsTo(l, target, false) <= l.Major()
    ensures StepsTo(l, target, false) <= StepsTo(l, target, true) <= StepsTo(l, target, false) + 1
  {
    AAShift(l, target.x - l.from.x, l.AAInc().x, l.XMajInc());
    AAShift(l, target.y - l.from.y, l.AAInc().y, l.YMajInc());
    SignSquared(l.Dx(), 1);
    SignSquared(l.Dy(), 1);
  }

  lemma AAShift(l: Line, d: int, inc: int, maj: int)
    ensures (d - inc) * maj == d * maj - inc * maj
  {
  }

  // ----- 32-bit range -----

  const INT_MAX := 0x7FFF_FFFF
  const COORD_MAX := 0x4000_0000
  const SPAN_MAX := 32767

  predicate Fits(n: int) { -INT_MAX - 1 <= n <= INT_MAX }

  predicate Within(p: Coord) { Abs(p.x) <= COORD_MAX && Abs(p.y) <= COORD_MAX }

  /** Every value the constructor computes fits in a signed 32-bit integer. */
  predicate ConstructorFits(l: Line) {
    && Fits(l.Dx()) && Fits(l.Dy()) && Fits(l.Major() + 1)
    && Fits(l.Num()) && Fits(l.Den()) && Fits(l.Major() + 1 + l.Num())
    && Fits(Start(l).x) && Fits(Start(l).y) && Fits(Start(l).accum)
  }

  /** Every value SetStep computes while it moves along the line does. */
  predicate MoveFits(l: Line, c: Cursor, stepDelta: int) {
    && Fits(stepDelta) && Fits(l.Num() * stepDelta) && Fits(c.accum - l.Num() * stepDelta)
    && Fits(c.x + l.XMajInc() * stepDelta) && Fits(c.y + l.YMajInc() * stepDelta)
  }

  /** And every value it computes while it moves across, from `x`, `y` and `accum`. */
  predicate CountFits(l: Line, x: int, y: int, accum: int)
    requires l.Den() > 0
  {
    var count := TruncDiv(l.Target() - accum + l.Den(), l.Den());
    && Fits(l.Target() - accum) && Fits(l.Target() - accum + l.Den())
    && Fits(l.Den() * count) && Fits(accum + l.Den() * count)
    && Fits(l.XMinInc() * count) && Fits(l.YMinInc() * count)
    && Fits(x + l.XMinInc() * count) && Fits(y + l.YMinInc() * count)
  }

  predicate SeekFits(l: Line, c: Cursor, step: nat) {
    var stepDelta := Clamped(l, step) + 1 - c.step;
    && MoveFits(l, c, stepDelta)
    && (l.Den() != 0 ==>
          CountFits(l, c.x + l.XMajInc() * stepDelta, c.y + l.YMajInc() * stepDelta, c.accum - l.Num() * stepDelta))
  }

  lemma ProductBound(a: int, b: int, m: int, n: int)
    requires 0 <= a <= m && 0 <= b <= n
    ensures 0 <= a * b <= m * n
  {
    assert a * b <= m * b <= m * n;
  }

  lemma UnitBound(s: int, n: int)
    requires -1 <= s <= 1
    ensures Abs(s * n) <= Abs(n)
  {
  }

  /** A cursor of a short line: near its start, with a small accumulator. */
  predicate Tame(l: Line, c: Cursor) {
    && Abs(c.x - l.from.x) <= SPAN_MAX && Abs(c.y - l.from.y) <= SPAN_MAX
    && l.Target() < c.accum <= l.Target() + l.Major() + 1 + l.Den()
    && 0 <= c.step
  }

  lemma CursorsAreTame(l: Line, c: Cursor)
    requires OnLine(l, c) && 0 < l.Major() <= SPAN_MAX
    ensures Tame(l, c)
  {
    if c != Start(l) {
      var k := c.step - 1;
      SteppedIsAt(l, k);
      RowUnique(l, k, Row(l, k));
      FirstRow(l);
      LastRow(l);
      RowsGrow(l, 0, k);
      RowsGrow(l, k, l.Major());
      Offsets(l, k);
      UnitBound(Sign(l.MajorDelta()), k);
      UnitBound(Sign(l.MinorDelta()), Row(l, k));
    }
  }

  lemma TameSeekFits(l: Line, c: Cursor, step: nat)
    requires 0 < l.Major() <= SPAN_MAX && Within(l.from) && Tame(l, c)
    requires 0 <= Clamped(l, step) + 1 - c.step
    ensures SeekFits(l, c, step)
  {
    var stepDelta := Clamped(l, step) + 1 - c.step;
    ProductBound(l.Num(), stepDelta, 2 * SPAN_MAX, SPAN_MAX + 1);
    UnitBound(l.XMajInc(), stepDelta);
    UnitBound(l.YMajInc(), stepDelta);
    TameCountFits(l, c, stepDelta, c.x + l.XMajInc() * stepDelta, c.y + l.YMajInc() * stepDelta, l.Num() * stepDelta);
  }

  lemma TameCountFits(l: Line, c: Cursor, stepDelta: nat, x: int, y: int, taken: nat)
    requires 0 < l.Major() <= SPAN_MAX && Tame(l, c)
    requires taken == l.Num() * stepDelta <= 2 * SPAN_MAX * (SPAN_MAX + 1) && stepDelta <= SPAN_MAX + 1
    requires Abs(x) <= COORD_MAX + 3 * SPAN_MAX && Abs(y) <= COORD_MAX + 3 * SPAN_MAX
    ensures CountFits(l, x, y, c.accum - taken)
  {
    var n := l.Target() - (c.accum - taken) + l.Den();
    var count := TruncDiv(n, l.Den());
    CountBound(n, l.Den(), l.Num(), stepDelta);
    UnitBound(l.XMinInc(), count);
    UnitBound(l.YMinInc(), count);
  }

  lemma CountBound(n: int, d: int, num: nat, stepDelta: nat)
    requires 0 < d <= 2 * SPAN_MAX && num <= d && stepDelta <= SPAN_MAX + 1
    requires -d <= n < num * stepDelta + d
    ensures var count := TruncDiv(n, d);
            && -1 <= count <= stepDelta + 1
            && -d <= d * count <= if n > 0 then n else 0
  {
    if n >= 0 {
      ProductBound(num, stepDelta, d, stepDelta);
      QuotientBound(n, d, stepDelta + 1);
    } else {
      FloorIs(-n, d, if n == -d then 1 else 0);
    }
  }

  lemma QuotientBound(n: nat, d: nat, m: nat)
    requires 0 < d && n < d * m
    ensures 0 <= n / d < m && d * (n / d) <= n
  {
    var q := n / d;
    assert n == d * q + n % d;
    assert d * (q - m) == d * q - d * m;
    AtLeastOnce(d, q - m);
    assert q == m ==> d * q == d * m;
  }

  /** On a line of at most 32767 steps nothing overflows, neither in the constructor nor in a forward seek. */
  lemma ShortLinesFit(l: Line, c: Cursor, step: nat)
    requires l.Major() <= SPAN_MAX && Within(l.from) && Within(l.to)
    requires OnLine(l, c) && c.step <= Clamped(l, step) + 1
    ensures ConstructorFits(l) && SeekFits(l, c, step)
  {
    if l.Major() > 0 {
      CursorsAreTame(l, c);
      TameSeekFits(l, c, step);
    }
  }

  lemma DiagonalOverflows(l: Line, span: nat)
    requires span > SPAN_MAX && l == Line(Coord(0, 0), Coord(span, span), false)
    ensures !MoveFits(l, Start(l), span + 1)
  {
    ProductBound(2 * (SPAN_MAX + 1), SPAN_MAX + 2, 2 * span, span + 1);
  }

  /** The longest safe span is exact: for every longer one there is a line whose first seek overflows. */
  lemma SafeSpanExactly(span: nat)
    requires span <= COORD_MAX
    ensures span <= SPAN_MAX <==>
            forall l: Line, step: nat :: Within(l.from) && Within(l.to) && l.Major() == span
                                         ==> SeekFits(l, Start(l), step)
  {
    if span <= SPAN_MAX {
      forall l: Line, step: nat | Within(l.from) && Within(l.to) && l.Major() == span
        ensures SeekFits(l, Start(l), step)
      {
        ShortLinesFit(l, Start(l), step);
      }
    } else {
      var l := Line(Coord(0, 0), Coord(span, span), false);
      DiagonalOverflows(l, span);
      assert !SeekFits(l, Start(l), span);
    }
  }
}
