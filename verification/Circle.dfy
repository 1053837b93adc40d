/** Model of the circle outline of the TFT driver (src/ssd1289.c, tft32_drawCircle).

    A pixel is lit by a window of one pixel followed by one colour word; the display is the
    set of lit pixels. */
module Circle {

  datatype Point = Point(x: int, y: int)

  function Abs(a: int): nat { if a < 0 then -a else a }

  function Near(a: int, b: int): nat { if Abs(a) <= Abs(b) then Abs(a) else Abs(b) }

  function Far(a: int, b: int): nat { if Abs(a) <= Abs(b) then Abs(b) else Abs(a) }

  /** b is the integer nearest to the square root of n. */
  predicate NearestRoot(n: int, b: nat)
  {
    (b == 0 || b * b - b < n) && n <= b * b + b
  }

  /** The ideal raster circle of radius r about the origin: the longer coordinate is the
      rounded ordinate that the exact circle has over the shorter one. */
  predicate OnCircle(r: nat, dx: int, dy: int)
  {
    var a, b := Near(dx, dy), Far(dx, dy);
    NearestRoot(r * r - a * a, b)
  }

  /** The raster points whose shorter coordinate has been reached by column x. */
  predicate DrawnUpTo(r: nat, x: nat, dx: int, dy: int)
  {
    OnCircle(r, dx, dy) && Near(dx, dy) <= x
  }

  lemma SquareMonotone(a: nat, b: nat)
    requires a <= b
    ensures a * a <= b * b
    ensures a < b ==> a * a + a <= b * b - b
  {
    if a < b {
      var e := b - a - 1;
      var gap := e * (2 * a + 1 + e);
      assert gap >= 0;
      calc {
        b * b - b;
        (a + 1 + e) * (a + 1 + e) - (a + 1 + e);
        a * a + a + gap;
      }
    }
  }

  /** Rounding is a function: there is at most one nearest root. */
  lemma NearestRootUnique(n: int, b: nat, c: nat)
    requires NearestRoot(n, b) && NearestRoot(n, c)
    ensures b == c
  {
    if b < c { SquareMonotone(b, c); }
    if c < b { SquareMonotone(c, b); }
  }

  /** The exact set of points the loop adds in one column: the eight images of (x, y). */
  predicate Octants(x: nat, y: nat, dx: int, dy: int)
  {
    (Abs(dx) == x && Abs(dy) == y) || (Abs(dx) == y && Abs(dy) == x)
  }

  /** The raster circle is closed under the eight symmetries of the square. */
  lemma EightSymmetries(r: nat, dx: int, dy: int)
    ensures OnCircle(r, dx, dy) <==> OnCircle(r, -dx, dy)
    ensures OnCircle(r, dx, dy) <==> OnCircle(r, dx, -dy)
    ensures OnCircle(r, dx, dy) <==> OnCircle(r, dy, dx)
  {
  }

  /** Column x meets the raster circle in exactly the eight images of (x, y). */
  lemma ColumnIsOctants(r: nat, x: nat, y: nat, dx: int, dy: int)
    requires x <= y && NearestRoot(r * r - x * x, y)
    ensures OnCircle(r, dx, dy) && Near(dx, dy) == x <==> Octants(x, y, dx, dy)
  {
    if OnCircle(r, dx, dy) && Near(dx, dy) == x {
      NearestRootUnique(r * r - x * x, y, Far(dx, dy));
    }
  }

  /** Past the diagonal there is nothing left to draw. */
  lemma NothingPastDiagonal(r: nat, x: nat, y: nat, dx: int, dy: int)
    requires y <= x && r * r - x * x <= y * y + y
    requires OnCircle(r, dx, dy)
    ensures Near(dx, dy) <= x
    ensures y < x ==> Near(dx, dy) < x
  {
    var a, b := Near(dx, dy), Far(dx, dy);
    if x <= a && y < a {
      SquareMonotone(x, a);
      SquareMonotone(a, b);
      SquareMonotone(y, b);
    }
  }

  /** The five local variables of the loop. */
  datatype Walk = Walk(x: int, y: int, f: int, ddFx: int, ddFy: int)

  function Start(radius: int): Walk { Walk(0, radius, 1 - radius, 1, -2 * radius) }

  /** One iteration: drop a row when the decision variable is not negative, then move right. */
  function Advance(w: Walk): Walk
  {
    var v := if w.f >= 0 then w.(y := w.y - 1, ddFy := w.ddFy + 2, f := w.f + w.ddFy + 2) else w;
    v.(x := v.x + 1, ddFx := v.ddFx + 2, f := v.f + v.ddFx + 2)
  }

  /** What every iteration keeps: the three incremental quantities have their closed forms, the
      current point is at most half a row off the exact circle (|D| <= y), and it is the rounded
      point until the diagonal is crossed. */
  predicate Midpoint(r: nat, w: Walk)
  {
    && 0 <= w.x <= w.y + 1 && 0 <= w.y <= r
    && w.f == (w.x + 1) * (w.x + 1) + w.y * w.y - w.y - r * r
    && w.ddFx == 2 * w.x + 1 && w.ddFy == -2 * w.y
    && -w.y <= w.x * w.x + w.y * w.y - r * r <= w.y
    && (w.x <= w.y ==> NearestRoot(r * r - w.x * w.x, w.y))
  }

  /** Every quantity fits in a signed 32-bit word. */
  predicate Fits(w: Walk)
  {
    && -0x8000_0000 <= w.f < 0x8000_0000
    && -0x8000_0000 <= w.ddFx < 0x8000_0000
    && -0x8000_0000 <= w.ddFy < 0x8000_0000
  }

  lemma MidpointStart(r: nat)
    ensures Midpoint(r, Start(r))
  {
    assert r * r >= 0;
  }

  lemma NextSquare(a: int)
    ensures (a + 1) * (a + 1) == a * a + 2 * a + 1
  {
  }

  /** Dropping no row is right exactly when the decision variable is negative. */
  lemma StayInRow(r: nat, w: Walk)
    requires Midpoint(r, w) && w.x < w.y && w.f < 0
    ensures Midpoint(r, Advance(w))
  {
    NextSquare(w.x);
    NextSquare(w.x + 1);
  }

  lemma DropRow(r: nat, w: Walk)
    requires Midpoint(r, w) && w.x < w.y && w.f >= 0
    ensures Midpoint(r, Advance(w))
  {
    NextSquare(w.x);
    NextSquare(w.x + 1);
    NextSquare(w.y - 1);
  }

  /** One iteration keeps the invariant, moves one column and at most one row, and if it is the
      last one it stops on the diagonal or one column past it. */
  lemma MidpointStep(r: nat, w: Walk)
    requires Midpoint(r, w) && w.x < w.y
    ensures var v := Advance(w);
            && Midpoint(r, v)
            && v.x == w.x + 1 && w.y - 1 <= v.y <= w.y
            && (v.x >= v.y ==> v.x - v.y in {0, 1})
  {
    if w.f < 0 { StayInRow(r, w); } else { DropRow(r, w); }
  }

  lemma MidpointFits(r: nat, w: Walk)
    requires r <= 0x4000_0000 && Midpoint(r, w)
    ensures Fits(w)
  {
    assert (w.x + 1) * (w.x + 1) == w.x * w.x + 2 * w.x + 1;
  }

  /** One iteration draws the next column of the raster circle and nothing else. */
  lemma StepDraws(r: nat, w: Walk, dx: int, dy: int)
    requires Midpoint(r, w) && w.x < w.y && Midpoint(r, Advance(w))
    ensures var v := Advance(w);
            DrawnUpTo(r, v.x, dx, dy) <==> DrawnUpTo(r, w.x, dx, dy) || Octants(v.x, v.y, dx, dy)
  {
    var v := Advance(w);
    if v.x <= v.y {
      ColumnIsOctants(r, v.x, v.y, dx, dy);
    } else {
      // The diagonal was crossed: the new point is the mirror image of the previous one.
      ColumnIsOctants(r, w.x, w.y, dx, dy);
      if OnCircle(r, dx, dy) { NothingPastDiagonal(r, v.x, v.y, dx, dy); }
    }
  }

  /** The pixels lit since base are those of the raster circle about (x, y) up to a column. */
  ghost predicate Drawn(base: set<Point>, lit: set<Point>, x: int, y: int, r: nat, column: nat)
  {
    forall p :: p in lit <==> p in base || DrawnUpTo(r, column, p.x - x, p.y - y)
  }

  lemma DrawnFirst(base: set<Point>, lit: set<Point>, x: int, y: int, r: nat)
    requires lit == base + Axes(x, y, r)
    ensures Drawn(base, lit, x, y, r, 0)
  {
    forall p: Point ensures p in lit <==> p in base || DrawnUpTo(r, 0, p.x - x, p.y - y) {
      ColumnIsOctants(r, 0, r, p.x - x, p.y - y);
    }
  }

  lemma DrawnNext(base: set<Point>, before: set<Point>, lit: set<Point>, x: int, y: int, r: nat, w: Walk)
    requires Midpoint(r, w) && w.x < w.y && Midpoint(r, Advance(w))
    requires Drawn(base, before, x, y, r, w.x)
    requires forall p :: p in lit <==> p in before || Octants(w.x + 1, Advance(w).y, p.x - x, p.y - y)
    ensures Drawn(base, lit, x, y, r, w.x + 1)
  {
    forall p: Point ensures p in lit <==> p in base || DrawnUpTo(r, w.x + 1, p.x - x, p.y - y) {
      StepDraws(r, w, p.x - x, p.y - y);
    }
  }

  lemma DrawnAll(base: set<Point>, lit: set<Point>, x: int, y: int, r: nat, w: Walk)
    requires Midpoint(r, w) && w.x >= w.y && Drawn(base, lit, x, y, r, w.x)
    ensures forall p :: p in lit <==> p in base || OnCircle(r, p.x - x, p.y - y)
  {
    forall p: Point ensures p in lit <==> p in base || OnCircle(r, p.x - x, p.y - y) {
      if OnCircle(r, p.x - x, p.y - y) { NothingPastDiagonal(r, w.x, w.y, p.x - x, p.y - y); }
    }
  }

  /** What the loop keeps for a radius that is not negative. Stated for all v that are w, so that the
      verifier meets the squares only where Midpoint is asked for. */
  ghost predicate Sweeping(base: set<Point>, lit: set<Point>, x: int, y: int, r: nat, w: Walk)
  {
    forall v {:trigger Midpoint(r, v)} ::
      v == w ==> Midpoint(r, v) && Fits(v) && Drawn(base, lit, x, y, r, v.x)
  }

  lemma SweepStart(base: set<Point>, lit: set<Point>, x: int, y: int, r: nat)
    requires r <= 0x4000_0000 && lit == base + Axes(x, y, r)
    ensures Sweeping(base, lit, x, y, r, Start(r))
  {
    MidpointStart(r);
    MidpointFits(r, Start(r));
    DrawnFirst(base, lit, x, y, r);
  }

  lemma SweepStep(base: set<Point>, before: set<Point>, lit: set<Point>, x: int, y: int, r: nat, w: Walk)
    requires r <= 0x4000_0000 && Sweeping(base, before, x, y, r, w) && 0 <= w.x < w.y && Advance(w).y >= 0
    requires forall p :: p in lit <==> p in before || Octants(w.x + 1, Advance(w).y, p.x - x, p.y - y)
    ensures Sweeping(base, lit, x, y, r, Advance(w))
  {
    MidpointStep(r, w);
    MidpointFits(r, Advance(w));
    DrawnNext(base, before, lit, x, y, r, w);
  }

  lemma SweepEnd(base: set<Point>, lit: set<Point>, x: int, y: int, r: nat, w: Walk)
    requires Sweeping(base, lit, x, y, r, w) && w.x >= w.y
    ensures forall p :: p in lit <==> p in base || OnCircle(r, p.x - x, p.y - y)
  {
    assert Midpoint(r, w);
    DrawnAll(base, lit, x, y, r, w);
  }

  lemma RowLeft(base: set<Point>, before: set<Point>, x: int, y: int, r: nat, w: Walk)
    requires Sweeping(base, before, x, y, r, w) && w.x < w.y
    ensures w.x >= 0 && Advance(w).y >= 0
  {
    MidpointStep(r, w);
  }

  /** The four axis points, drawn before the loop. */
  function Axes(x: int, y: int, radius: int): set<Point>
  {
    {Point(x, y + radius), Point(x, y - radius), Point(x + radius, y), Point(x - radius, y)}
  }

  class Display {
    var lit: set<Point>

    constructor () ensures lit == {} { lit := {}; }

    method Plot(x: int, y: int)
      modifies this
      ensures lit == old(lit) + {Point(x, y)}
    {
      lit := lit + {Point(x, y)};
    }

    /** The eight writes of one loop iteration. */
    method PlotOctants(x: int, y: int, x1: nat, y1: nat)
      modifies this
      ensures forall p :: p in lit <==> p in old(lit) || Octants(x1, y1, p.x - x, p.y - y)
    {
      Plot(x + x1, y + y1);
      Plot(x - x1, y + y1);
      Plot(x + x1, y - y1);
      Plot(x - x1, y - y1);
      Plot(x + y1, y + x1);
      Plot(x - y1, y + x1);
      Plot(x + y1, y - x1);
      Plot(x - y1, y - x1);
    }

    /** The four writes before the loop. */
    method PlotAxes(x: int, y: int, radius: int)
      modifies this
      ensures lit == old(lit) + Axes(x, y, radius)
    {
      Plot(x, y + radius);
      Plot(x, y - radius);
      Plot(x + radius, y);
      Plot(x - radius, y);
    }

    /** Lights exactly the ideal raster circle for every radius whose double fits in 32 bits; a
        negative radius never enters the loop and lights its four axis points only. */
    method DrawCircle(x: int, y: int, radius: int)
      requires -0x4000_0000 < radius <= 0x4000_0000
      modifies this
      ensures radius >= 0 ==>
                forall p :: p in lit <==> p in old(lit) || OnCircle(radius, p.x - x, p.y - y)
      ensures radius < 0 ==> lit == old(lit) + Axes(x, y, radius)
    {
      var f := 1 - radius;
      var ddFx := 1;
      var ddFy := -2 * radius;
      var x1, y1 := 0, radius;
      PlotAxes(x, y, radius);
      if radius >= 0 {
        SweepStart(old(lit), lit, x, y, radius);
      }
      ghost var axes := lit;
      while x1 < y1
        invariant radius < 0 ==> y1 == radius && x1 == 0 && lit == axes
        invariant radius >= 0 ==> Sweeping(old(lit), lit, x, y, radius, Walk(x1, y1, f, ddFx, ddFy))
        decreases y1 - x1
      {
        ghost var w, before := Walk(x1, y1, f, ddFx, ddFy), lit;
        if f >= 0 {
          y1 := y1 - 1;
          ddFy := ddFy + 2;
          f := f + ddFy;
        }
        x1 := x1 + 1;
        ddFx := ddFx + 2;
        f := f + ddFx;
        assert Walk(x1, y1, f, ddFx, ddFy) == Advance(w);
        RowLeft(old(lit), before, x, y, radius, w);
        PlotOctants(x, y, x1, y1);
        SweepStep(old(lit), before, lit, x, y, radius, w);
      }
      if radius >= 0 {
        SweepEnd(old(lit), lit, x, y, radius, Walk(x1, y1, f, ddFx, ddFy));
      }
    }
  }
}
