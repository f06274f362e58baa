/** The random-access line stepper (AltLineStepper in sandbox_vdp1_poly.cpp). */
module LineStepper {

  datatype Coord = Coord(x: int, y: int)

  function Abs(n: int): nat { if n < 0 then -n else n }

  function Sign(n: int): int { if n >= 0 then 1 else -1 }

  /** C's division, which truncates toward zero. */
  function TruncDiv(a: int, b: int): int
    requires b > 0
  {
    if a >= 0 then a / b else -(-a / b)
  }

  /** A line to draw, with the constants the stepper derives from it. */
  datatype Line = Line(from: Coord, to: Coord, antiAlias: bool) {
    function Dx(): int { to.x - from.x }
    function Dy(): int { to.y - from.y }

    predicate XMajor() { Abs(Dx()) >= Abs(Dy()) }

    function MajorDelta(): int { if XMajor() then Dx() else Dy() }
    function MinorDelta(): int { if XMajor() then Dy() else Dx() }

    /** The longer span, which is the number of the last step. */
    function Major(): nat { Abs(MajorDelta()) }
    function Minor(): (n: nat)
      ensures n <= Major()
    {
      Abs(MinorDelta())
    }

    function XMajInc(): int { if XMajor() then Sign(Dx()) else 0 }
    function YMajInc(): int { if XMajor() then 0 else Sign(Dy()) }
    function XMinInc(): int { if XMajor() then 0 else Sign(Dx()) }
    function YMinInc(): int { if XMajor() then Sign(Dy()) else 0 }

    function Num(): nat { 2 * Minor() }
    function Den(): nat { 2 * Major() }

    /** One for lines without antialiasing whose major coordinate decreases. */
    function TieBump(): nat { if !antiAlias && MajorDelta() < 0 then 1 else 0 }
    function Target(): int { if antiAlias then -1 else TieBump() }

    predicate SameSign() { (from.x > to.x) == (from.y > to.y) }

    /** Offset of the antialiasing pixel. */
    function AAInc(): Coord {
      if !antiAlias then Coord(0, 0)
      else if XMajor() then (if SameSign() then Coord(0, -YMinInc()) else Coord(-XMajInc(), 0))
      else (if SameSign() then Coord(0, -YMajInc()) else Coord(-XMinInc(), 0))
    }

    function Reversed(): Line { Line(to, from, antiAlias) }
  }

  /** The fields of the stepper that move. `step` is one more than the step it is at, zero before the first. */
  datatype Cursor = Cursor(x: int, y: int, accum: int, step: nat) {
    function Pixel(): Coord { Coord(x, y) }
  }

  /** The cursor at major step `k` (-1 before the line) after `row` minor steps. */
  function Lattice(l: Line, k: int, row: int): Cursor
    requires -1 <= k
  {
    Cursor(l.from.x + l.XMajInc() * k + l.XMinInc() * row,
           l.from.y + l.YMajInc() * k + l.YMinInc() * row,
           l.Target() + l.Major() + 1 - l.TieBump() - l.Num() * k + l.Den() * row,
           k + 1)
  }

  function Start(l: Line): Cursor { Lattice(l, -1, 0) }

  // ----- The simple form: one pixel at a time -----

  /** One major step; a minor one too when the accumulator reaches the target. */
  function UnitStep(l: Line, c: Cursor): Cursor {
    var accum := c.accum - l.Num();
    if l.Den() != 0 && accum <= l.Target()
    then Cursor(c.x + l.XMajInc() + l.XMinInc(), c.y + l.YMajInc() + l.YMinInc(), accum + l.Den(), c.step + 1)
    else Cursor(c.x + l.XMajInc(), c.y + l.YMajInc(), accum, c.step + 1)
  }

  /** The cursor after stepping from before the line to step `k` one pixel at a time. */
  function Stepped(l: Line, k: nat): Cursor {
    UnitStep(l, if k == 0 then Start(l) else Stepped(l, k - 1))
  }

  // ----- The fast form: one division -----

  /** What SetStep makes of the cursor. */
  function Seek(l: Line, c: Cursor, step: nat): Cursor {
    var s := if step < l.Major() then step else l.Major();
    var stepDelta := s + 1 - c.step;
    if stepDelta == 0 then c else
    var accum := c.accum - l.Num() * stepDelta;
    var count := if l.Den() == 0 then 0 else TruncDiv(l.Target() - accum + l.Den(), l.Den());
    Cursor(c.x + l.XMajInc() * stepDelta + l.XMinInc() * count,
           c.y + l.YMajInc() * stepDelta + l.YMinInc() * count,
           accum + l.Den() * count,
           s + 1)
  }

  /** One comparison tells whether the step just made moved the minor coordinate. */
  predicate AANeeded(l: Line, c: Cursor) {
    l.antiAlias && c.step > 1 && c.accum - l.Den() + l.Num() > l.Target()
  }

  function AAPixel(l: Line, c: Cursor): Coord { Coord(c.x + l.AAInc().x, c.y + l.AAInc().y) }

  /** Steps from the start of the line to the major coordinate of the target, one past the last off the line. */
  function StepsTo(l: Line, target: Coord, aa: bool): nat {
    var dx := (target.x - l.from.x - (if aa then l.AAInc().x else 0)) * l.XMajInc();
    var dy := (target.y - l.from.y - (if aa then l.AAInc().y else 0)) * l.YMajInc();
    if 0 <= dx + dy <= l.Major() then dx + dy else l.Major() + 1
  }

  class AltLineStepper {
    ghost const line: Line

    var num: int
    var den: int
    var accum: int
    var accumTarget: int
    var xMajInc: int
    var yMajInc: int
    var xMinInc: int
    var yMinInc: int
    var x: int
    var y: int
    var xStart: int
    var yStart: int
    var dmaj: nat
    var step: nat
    var length: nat
    var aaXInc: int
    var aaYInc: int
    var antiAlias: bool

    ghost predicate Valid()
      reads this
    {
      && num == line.Num() && den == line.Den() && accumTarget == line.Target()
      && xMajInc == line.XMajInc() && yMajInc == line.YMajInc()
      && xMinInc == line.XMinInc() && yMinInc == line.YMinInc()
      && Coord(xStart, yStart) == line.from
      && dmaj == line.Major() && length == dmaj + 1
      && antiAlias == line.antiAlias && Coord(aaXInc, aaYInc) == line.AAInc()
    }

    ghost function View(): Cursor
      reads this
    {
      Cursor(x, y, accum, step)
    }

    constructor (coord1: Coord, coord2: Coord, antiAlias: bool)
      ensures Valid() && line == Line(coord1, coord2, antiAlias)
      ensures View() == Start(line)
    {
      var Coord(x1, y1) := coord1;
      var Coord(x2, y2) := coord2;
      var dx, dy := x2 - x1, y2 - y1;
      var adx, ady := Abs(dx), Abs(dy);
      xStart, yStart := x1, y1;
      dmaj := if adx > ady then adx else ady;
      length := (if adx > ady then adx else ady) + 1;
      step := 0;

      var xMajor := adx >= ady;
      var incX, incY := Sign(dx), Sign(dy);
      if xMajor {
        xMajInc, yMajInc, xMinInc, yMinInc := incX, 0, 0, incY;
      } else {
        xMajInc, yMajInc, xMinInc, yMinInc := 0, incY, incX, 0;
        dx, dy := dy, dx;
        adx, ady := ady, adx;
      }
      num, den := 2 * ady, 2 * adx;
      var a, target := adx + 1, 0;
      if !antiAlias && dx < 0 {
        target := target + 1;
      }
      a := a + 2 * ady;

      x := x1 - (if xMajor then incX else 0);
      y := y1 - (if xMajor then 0 else incY);

      aaXInc, aaYInc := 0, 0;
      if antiAlias {
        a, target := a - 1, target - 1;
        var samesign := (x1 > x2) == (y1 > y2);
        aaXInc := if samesign then 0 else -incX;
        aaYInc := if samesign then -incY else 0;
      }
      accum, accumTarget := a, target;
      this.antiAlias := antiAlias;
      line := Line(coord1, coord2, antiAlias);
    }

    method SetStep(target: nat)
      requires Valid()
      modifies this
      ensures Valid()
      ensures View() == Seek(line, old(View()), target)
    {
      var s := if target < dmaj then target else dmaj;
      var stepDelta := s + 1 - step;
      if stepDelta == 0 {
        return;
      }
      step := s + 1;
      x := x + xMajInc * stepDelta;
      y := y + yMajInc * stepDelta;
      accum := accum - num * stepDelta;
      if den != 0 {
        var count := TruncDiv(accumTarget - accum + den, den);
        accum := accum + den * count;
        x := x + xMinInc * count;
        y := y + yMinInc * count;
      }
    }

    predicate NeedsAA(): (b: bool)
      requires Valid()
      reads this
      ensures b == AANeeded(line, View())
    {
      antiAlias && step > 1 && accum - den + num > accumTarget
    }

    function AACoord(): (c: Coord)
      requires Valid()
      reads this
      ensures c == AAPixel(line, View())
    {
      Coord(x + aaXInc, y + aaYInc)
    }

    function StepsToTarget(target: Coord, aa: bool): (steps: nat)
      requires Valid() && (aa ==> antiAlias)
      reads this
      ensures steps == StepsTo(line, target, aa)
    {
      var dx := (target.x - xStart - (if aa then aaXInc else 0)) * xMajInc;
      var dy := (target.y - yStart - (if aa then aaYInc else 0)) * yMajInc;
      var delta := dx + dy;
      if delta < 0 || delta >= length then length else delta
    }
  }
}
