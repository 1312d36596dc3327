/** The canvas's integer rasterisers, as the points they plot.
    None of these loops reads the canvas, so the canvas draws a shape by
    computing its points here and writing them in the same order. */
module Raster {
  /** A point of the raster, in surface coordinates (may lie outside it). */
  datatype Point = Point(x: int, y: int)

  function Abs(n: int): (m: nat)
    ensures m == n || m == -n
  {
    if n < 0 then -n else n
  }

  /** `n / 2` on i32: the quotient truncated towards zero. */
  function HalfTowardZero(n: int): (h: int)
    ensures 2 * h == n || 2 * h == n - 1 || 2 * h == n + 1
    ensures n >= 0 ==> 0 <= 2 * h <= n
    ensures n <= 0 ==> n <= 2 * h <= 0
  {
    if n >= 0 then n / 2 else -((-n) / 2)
  }

  /** Inside the bounding box of two corners. */
  predicate InBox(p: Point, x1: int, y1: int, x2: int, y2: int)
  {
    (if x1 <= x2 then x1 <= p.x <= x2 else x2 <= p.x <= x1) &&
    (if y1 <= y2 then y1 <= p.y <= y2 else y2 <= p.y <= y1)
  }

  /** Neighbouring in the 8-connected sense and not the same pixel. */
  predicate Adjacent(p: Point, q: Point)
  {
    p != q && Abs(q.x - p.x) <= 1 && Abs(q.y - p.y) <= 1
  }

  lemma MulAtLeast(a: nat, b: nat)
    requires b >= 1
    ensures a * b >= a
  {
  }

  /** The points `line` plots, in order: Bresenham's loop with the error
      term started at half the major extent and compared doubled. */
  method LinePoints(x1: int, y1: int, x2: int, y2: int) returns (pts: seq<Point>)
    ensures |pts| >= 1 && pts[0] == Point(x1, y1) && pts[|pts| - 1] == Point(x2, y2)
    ensures forall k :: 0 <= k < |pts| - 1 ==> pts[k] != Point(x2, y2)
    ensures forall k :: 0 <= k < |pts| - 1 ==> Adjacent(pts[k], pts[k + 1])
    ensures forall k :: 0 <= k < |pts| ==> InBox(pts[k], x1, y1, x2, y2)
    ensures Abs(x2 - x1) + 1 <= |pts| && Abs(y2 - y1) + 1 <= |pts|
    ensures |pts| <= Abs(x2 - x1) + Abs(y2 - y1) + 1
    ensures y1 == y2 ==> pts == Row(x1, x2, y1)
  {
    var x, y := x1, y1;
    var dx := if x1 > x2 then x1 - x2 else x2 - x1;
    var dy := if y1 > y2 then y1 - y2 else y2 - y1;
    var sx := if x1 < x2 then 1 else -1;
    var sy := if y1 < y2 then 1 else -1;
    var err := HalfTowardZero(if dx > dy then dx else -dy);
    // i and j count the steps taken along x and y; p and q are i * dy and j * dx
    ghost var i, j, p, q := 0, 0, 0, 0;
    pts := [Point(x, y)];
    while !(x == x2 && y == y2)
      invariant LineState(x1, y1, x2, y2, dx, dy, sx, sy, x, y, err, i, j, p, q)
      invariant Plotted(pts, x1, y1, x2, y2, x, y, i, j, sx, dy == 0)
      decreases dx - i + dy - j
    {
      ghost var x0, y0, i0, j0 := x, y, i, j;
      x, y, err, i, j, p, q := LineStep(x1, y1, x2, y2, dx, dy, sx, sy, x, y, err, i, j, p, q);
      PlottedGrows(pts, x1, y1, x2, y2, x0, y0, i0, j0, x, y, i, j, sx, dy == 0);
      pts := pts + [Point(x, y)];
    }
    LineDone(pts, x1, y1, x2, y2, dx, dy, sx, sy, err, i, j, p, q);
  }

  /** When the loop reaches (x2, y2) the points plotted so far are the line. */
  lemma LineDone(pts: seq<Point>, x1: int, y1: int, x2: int, y2: int, dx: int, dy: int, sx: int, sy: int,
                 err: int, i: int, j: int, p: int, q: int)
    requires LineState(x1, y1, x2, y2, dx, dy, sx, sy, x2, y2, err, i, j, p, q)
    requires Plotted(pts, x1, y1, x2, y2, x2, y2, i, j, sx, dy == 0)
    ensures |pts| >= 1 && pts[0] == Point(x1, y1) && pts[|pts| - 1] == Point(x2, y2)
    ensures forall k :: 0 <= k < |pts| - 1 ==> pts[k] != Point(x2, y2)
    ensures forall k :: 0 <= k < |pts| - 1 ==> Adjacent(pts[k], pts[k + 1])
    ensures forall k :: 0 <= k < |pts| ==> InBox(pts[k], x1, y1, x2, y2)
    ensures Abs(x2 - x1) + 1 <= |pts| && Abs(y2 - y1) + 1 <= |pts|
    ensures |pts| <= Abs(x2 - x1) + Abs(y2 - y1) + 1
    ensures y1 == y2 ==> pts == Row(x1, x2, y1)
  {
    if dy == 0 {
      RowSoFarIsRow(pts, x1, x2, y1, sx);
    }
  }

  /** The points a line has plotted so far, up to (x, y) after i steps along
      x and j along y; on a flat line (one row) they are the row so far. */
  predicate Plotted(pts: seq<Point>, x1: int, y1: int, x2: int, y2: int,
                    x: int, y: int, i: int, j: int, sx: int, flat: bool)
  {
    LineSoFar(pts, x1, y1, x2, y2) && pts[|pts| - 1] == Point(x, y) &&
    i + 1 <= |pts| && j + 1 <= |pts| <= i + j + 1 &&
    (flat ==> RowSoFar(pts, x1, y1, sx))
  }

  lemma PlottedGrows(pts: seq<Point>, x1: int, y1: int, x2: int, y2: int,
                     x: int, y: int, i: int, j: int, nx: int, ny: int, ni: int, nj: int,
                     sx: int, flat: bool)
    requires Plotted(pts, x1, y1, x2, y2, x, y, i, j, sx, flat) && Point(x, y) != Point(x2, y2)
    requires Adjacent(Point(x, y), Point(nx, ny)) && InBox(Point(nx, ny), x1, y1, x2, y2)
    requires i <= ni <= i + 1 && j <= nj <= j + 1 && i + j < ni + nj
    requires flat ==> ny == y && nx == x + sx
    ensures Plotted(pts + [Point(nx, ny)], x1, y1, x2, y2, nx, ny, ni, nj, sx, flat)
  {
    LineGrows(pts, Point(nx, ny), x1, y1, x2, y2);
  }

  /** The k-th point plotted so far is k columns from x1 in direction sx. */
  predicate RowSoFar(pts: seq<Point>, x1: int, y: int, sx: int)
  {
    forall k :: 0 <= k < |pts| ==> pts[k] == Point(if sx == 1 then x1 + k else x1 - k, y)
  }

  lemma {:induction false} RowSoFarIsRow(pts: seq<Point>, x1: int, x2: int, y: int, sx: int)
    requires RowSoFar(pts, x1, y, sx) && |pts| == Abs(x2 - x1) + 1
    requires sx == (if x1 < x2 then 1 else -1)
    ensures pts == Row(x1, x2, y)
    decreases |pts|
  {
    if x1 != x2 {
      var front := pts[..|pts| - 1];
      RowSoFarIsRow(front, x1, x2 - sx, y, if x1 < x2 - sx then 1 else -1);
    }
  }

  /** Where the line loop stands after i steps along x and j along y. */
  predicate LineState(x1: int, y1: int, x2: int, y2: int, dx: int, dy: int, sx: int, sy: int,
                      x: int, y: int, err: int, i: int, j: int, p: int, q: int)
  {
    dx == Abs(x2 - x1) && dy == Abs(y2 - y1) &&
    sx == (if x1 < x2 then 1 else -1) && sy == (if y1 < y2 then 1 else -1) &&
    0 <= i <= dx && 0 <= j <= dy &&
    (sx == 1 ==> x == x1 + i) && (sx == -1 ==> x == x1 - i) &&
    (sy == 1 ==> y == y1 + j) && (sy == -1 ==> y == y1 - j) &&
    p == Times(i, dy) && q == Times(j, dx) &&
    err == HalfTowardZero(if dx > dy then dx else -dy) - p + q
  }

  /** One pass of the line loop: move along x, along y or both, to a
      neighbour inside the bounding box. */
  method LineStep(x1: int, y1: int, x2: int, y2: int, dx: int, dy: int, sx: int, sy: int,
                  x: int, y: int, err: int, ghost i: int, ghost j: int, ghost p: int, ghost q: int)
    returns (nx: int, ny: int, nerr: int, ghost ni: int, ghost nj: int, ghost np: int, ghost nq: int)
    requires LineState(x1, y1, x2, y2, dx, dy, sx, sy, x, y, err, i, j, p, q)
    requires !(x == x2 && y == y2)
    ensures LineState(x1, y1, x2, y2, dx, dy, sx, sy, nx, ny, nerr, ni, nj, np, nq)
    ensures Adjacent(Point(x, y), Point(nx, ny)) && InBox(Point(nx, ny), x1, y1, x2, y2)
    ensures i <= ni <= i + 1 && j <= nj <= j + 1 && i + j < ni + nj
    ensures dy == 0 ==> ny == y && nx == x + sx
  {
    var errTolerance := 2 * err;
    BresenhamStep(dx, dy, HalfTowardZero(if dx > dy then dx else -dy), i, j, p, q, err);
    nx, ny, nerr, ni, nj, np, nq := x, y, err, i, j, p, q;
    if errTolerance > -dx {
      nerr := nerr - dy;
      nx := nx + sx;
      ni, np := ni + 1, np + dy;
    }
    if errTolerance < dy {
      nerr := nerr + dx;
      ny := ny + sy;
      nj, nq := nj + 1, nq + dx;
    }
  }

  /** The points of a line plotted so far start at the first endpoint, have
      not yet reached the second before the last point, move to a neighbour
      each step and stay in the bounding box. */
  predicate LineSoFar(pts: seq<Point>, x1: int, y1: int, x2: int, y2: int)
  {
    |pts| >= 1 && pts[0] == Point(x1, y1) &&
    (forall k :: 0 <= k < |pts| - 1 ==> pts[k] != Point(x2, y2)) &&
    (forall k :: 0 <= k < |pts| - 1 ==> Adjacent(pts[k], pts[k + 1])) &&
    (forall k :: 0 <= k < |pts| ==> InBox(pts[k], x1, y1, x2, y2))
  }

  lemma LineGrows(pts: seq<Point>, s: Point, x1: int, y1: int, x2: int, y2: int)
    requires LineSoFar(pts, x1, y1, x2, y2) && pts[|pts| - 1] != Point(x2, y2)
    requires Adjacent(pts[|pts| - 1], s) && InBox(s, x1, y1, x2, y2)
    ensures LineSoFar(pts + [s], x1, y1, x2, y2)
  {
  }

  /** The arithmetic of one Bresenham step: the error term never lets a
      coordinate move past its endpoint, and some coordinate always moves
      until both are reached. */
  lemma BresenhamStep(dx: int, dy: int, e0: int, i: int, j: int, p: int, q: int, err: int)
    requires 0 <= i <= dx && 0 <= j <= dy && !(i == dx && j == dy)
    requires e0 == HalfTowardZero(if dx > dy then dx else -dy)
    requires p == Times(i, dy) && q == Times(j, dx) && err == e0 - p + q
    ensures i == dx ==> 2 * err <= -dx
    ensures j == dy ==> 2 * err >= dy
    ensures 2 * err > -dx || 2 * err < dy
    ensures dy == 0 ==> 2 * err > -dx
  {
    TimesIsProduct(i, dy);
    TimesIsProduct(j, dx);
    if i == dx {
      ProductGap(dx, dy, j);
    }
    if j == dy {
      ProductGap(dy, dx, i);
    }
  }

  /** n * b as repeated addition, so that the line loop's invariants stay
      linear. */
  function Times(n: nat, b: int): int
  {
    if n == 0 then 0 else Times(n - 1, b) + b
  }

  lemma {:induction false} TimesIsProduct(n: nat, b: int)
    ensures Times(n, b) == n * b
  {
    if n > 0 {
      TimesIsProduct(n - 1, b);
    }
  }

  /** a * b - c * a >= a when c < b. */
  lemma ProductGap(a: int, b: int, c: int)
    requires 0 <= a && 0 <= c < b
    ensures a * b - c * a >= a
  {
    assert a * b - c * a == a * (b - c);
    MulAtLeast(a, b - c);
  }

  /** The offsets (x, y) the outline branch of `circle` plots, one per pass
      of its loop; each pass plots the eight symmetric images of its offset. */
  method MidpointSteps(radius: nat) returns (steps: seq<Point>)
    requires radius > 0
    ensures |steps| >= 1 && steps[0] == Point(radius, 0)
    ensures forall k :: 0 <= k < |steps| ==> steps[k].y == k && steps[k].y <= steps[k].x <= radius
    ensures forall k :: 0 <= k < |steps| - 1 ==> StepDown(steps[k], steps[k + 1])
    ensures forall k :: 0 <= k < |steps| ==> InsideOutline(steps[k], radius)
    ensures steps[|steps| - 1].x <= steps[|steps| - 1].y + 1
  {
    var x: int, y: int, err: int := radius, 0, 0;
    steps := [];
    while x >= y
      invariant 0 <= y <= x + 2 && x <= radius && |steps| == y
      invariant OutlineError(radius, x, y, err)
      invariant x >= y ==> InsideOutline(Point(x, y), radius)
      invariant y == 0 ==> x == radius
      invariant y > 0 ==> steps[0] == Point(radius, 0) && StepDown(steps[y - 1], Point(x, y))
      invariant OutlineSoFar(steps, radius)
      decreases x - y + 1
    {
      OutlineGrows(steps, Point(x, y), radius);
      steps := steps + [Point(x, y)];
      x, y, err := OutlinePass(radius, x, y, err);
    }
  }

  /** The rest of one pass of the outline loop once its eight points are
      plotted: y moves up a row and x moves in when the error term says the
      next offset would fall outside. */
  method OutlinePass(radius: int, x: int, y: int, err: int) returns (nx: int, ny: int, nerr: int)
    requires 0 <= y <= x <= radius
    requires OutlineError(radius, x, y, err) && InsideOutline(Point(x, y), radius)
    ensures ny == y + 1 && StepDown(Point(x, y), Point(nx, ny))
    ensures OutlineError(radius, nx, ny, nerr) && (nx >= ny ==> InsideOutline(Point(nx, ny), radius))
  {
    MidpointStep(radius, x, y, err);
    nx, ny, nerr := x, y + 1, err;
    nerr := nerr + 1 + 2 * ny;
    if 2 * (nerr - nx) + 1 > 0 {
      nx := nx - 1;
      nerr := nerr + 1 - 2 * nx;
    }
  }

  /** What the outline loop has produced so far satisfies the postcondition
      of `MidpointSteps`. */
  predicate OutlineSoFar(steps: seq<Point>, radius: int)
  {
    (forall k :: 0 <= k < |steps| ==> steps[k].y == k && steps[k].y <= steps[k].x <= radius) &&
    (forall k :: 0 <= k < |steps| - 1 ==> StepDown(steps[k], steps[k + 1])) &&
    (forall k :: 0 <= k < |steps| ==> InsideOutline(steps[k], radius))
  }

  lemma OutlineGrows(steps: seq<Point>, s: Point, radius: int)
    requires OutlineSoFar(steps, radius)
    requires s.y == |steps| && s.y <= s.x <= radius && InsideOutline(s, radius)
    requires |steps| > 0 ==> StepDown(steps[|steps| - 1], s)
    ensures OutlineSoFar(steps + [s], radius)
  {
  }

  /** Consecutive outline offsets: x stays or drops by one. */
  predicate StepDown(a: Point, b: Point)
  {
    a.x - 1 <= b.x <= a.x
  }

  /** An outline offset lies inside radius + 1/2 in the sense the loop keeps:
      x^2 + y^2 <= r^2 + x - 1. */
  predicate InsideOutline(s: Point, r: int)
  {
    s.x * s.x + s.y * s.y <= r * r + s.x - 1
  }

  /** The outline loop's error term: x^2 + y^2 - r^2 + 2y + 2(r - x). */
  predicate OutlineError(r: int, x: int, y: int, err: int)
  {
    err == x * x + y * y - r * r + 2 * y + 2 * (r - x)
  }

  /** One step of the outline loop keeps its error term and keeps the offset
      it will plot next inside the outline. */
  lemma MidpointStep(r: int, x: int, y: int, err: int)
    requires 0 <= y <= x <= r
    requires OutlineError(r, x, y, err) && InsideOutline(Point(x, y), r)
    ensures var y1 := y + 1; var e1 := err + 1 + 2 * y1;
      if 2 * (e1 - x) + 1 > 0 then
        var x2 := x - 1;
        OutlineError(r, x2, y1, e1 + 1 - 2 * x2) && (x2 >= y1 ==> InsideOutline(Point(x2, y1), r))
      else
        OutlineError(r, x, y1, e1) && InsideOutline(Point(x, y1), r)
  {
    var y1 := y + 1;
    var e1 := err + 1 + 2 * y1;
    assert y1 * y1 == y * y + 2 * y + 1;
    assert (x - 1) * (x - 1) == x * x - 2 * x + 1;
  }

  /** One step of the filled loop keeps its error term equal to
      x^2 + y^2 - R^2 - R, negative while the loop goes on. */
  lemma FilledStep(r: int, x: int, y: int, err: int)
    requires 0 <= y <= x <= r
    requires err == x * x + y * y - r * r - r && err < 0
    ensures var y1 := y + 1; var e1 := err + y + y1;
      if e1 >= 0 then
        var x2 := x - 1; var e2 := e1 - x - x2;
        e2 == x2 * x2 + y1 * y1 - r * r - r && (x2 >= y1 ==> e2 < 0)
      else
        e1 == x * x + y1 * y1 - r * r - r
  {
    assert (y + 1) * (y + 1) == y * y + 2 * y + 1;
    assert (x - 1) * (x - 1) == x * x - 2 * x + 1;
  }

  /** The (x, y) arguments of the `line4points` calls the filled branch of
      `circle` makes for a negative radius of magnitude `radius`. */
  method FilledSteps(radius: nat) returns (calls: seq<Point>)
    requires radius > 0
    ensures |calls| >= 1 && calls[0] == Point(radius, 0)
    ensures forall k :: 0 <= k < |calls| ==>
      0 <= calls[k].x <= radius && 0 <= calls[k].y <= radius
    ensures forall k :: 0 <= k < |calls| ==>
      calls[k].x * calls[k].x + calls[k].y * calls[k].y < radius * radius + radius
    ensures Abs(calls[|calls| - 1].x - calls[|calls| - 1].y) <= 1
  {
    var x: int, y: int, err: int := radius, 0, -(radius as int);
    calls := [];
    while x >= y
      invariant 0 <= y <= x + 2 && x <= radius
      invariant err == x * x + y * y - radius * radius - radius
      invariant x >= y ==> err < 0
      invariant y == 0 ==> x == radius && calls == []
      invariant y > 0 ==> |calls| >= 1 && calls[0] == Point(radius, 0)
      invariant forall k :: 0 <= k < |calls| ==>
        0 <= calls[k].x <= radius && 0 <= calls[k].y <= radius
      invariant forall k :: 0 <= k < |calls| ==>
        calls[k].x * calls[k].x + calls[k].y * calls[k].y < radius * radius + radius
      invariant y > 0 && x < y ==> Abs(calls[|calls| - 1].x - calls[|calls| - 1].y) <= 1
      decreases x - y + 1
    {
      var lastY := y;
      FilledStep(radius, x, y, err);
      err := err + y;
      y := y + 1;
      err := err + y;
      calls := calls + [Point(x, lastY)];
      if err >= 0 {
        if x != lastY {
          calls := calls + [Point(lastY, x)];
        }
        err := err - x;
        x := x - 1;
        err := err - x;
      }
    }
  }

  /** The eight points the outline loop plots for one offset, in its order. */
  function Octants(x0: int, y0: int, s: Point): (pts: seq<Point>)
  {
    [Point(x0 - s.x, y0 + s.y), Point(x0 + s.x, y0 + s.y),
     Point(x0 - s.y, y0 + s.x), Point(x0 + s.y, y0 + s.x),
     Point(x0 - s.x, y0 - s.y), Point(x0 + s.x, y0 - s.y),
     Point(x0 - s.y, y0 - s.x), Point(x0 + s.y, y0 - s.x)]
  }

  /** All points of an outline, one group of eight per offset. */
  function OutlinePoints(x0: int, y0: int, steps: seq<Point>): (pts: seq<Point>)
    ensures |pts| == 8 * |steps|
  {
    if steps == [] then [] else OutlinePoints(x0, y0, steps[..|steps| - 1]) + Octants(x0, y0, steps[|steps| - 1])
  }

  /** Within `radius` of the centre on both axes, and inside the circle of
      radius `radius + 1/2` (squared distance below radius^2 + radius). */
  predicate NearDisc(p: Point, x0: int, y0: int, radius: nat)
  {
    Abs(p.x - x0) <= radius && Abs(p.y - y0) <= radius &&
    (p.x - x0) * (p.x - x0) + (p.y - y0) * (p.y - y0) < radius * radius + radius
  }

  /** The outline's groups are 8-fold symmetric images of one offset each,
      in the order of the offsets. */
  lemma {:induction false} OutlineGroups(x0: int, y0: int, steps: seq<Point>)
    ensures forall k :: 0 <= k < |steps| ==>
      OutlinePoints(x0, y0, steps)[8 * k..8 * k + 8] == Octants(x0, y0, steps[k])
    decreases |steps|
  {
    if steps != [] {
      var front := steps[..|steps| - 1];
      OutlineGroups(x0, y0, front);
      var pts := OutlinePoints(x0, y0, steps);
      forall k | 0 <= k < |front|
        ensures pts[8 * k..8 * k + 8] == Octants(x0, y0, steps[k])
      {
        assert pts[8 * k..8 * k + 8] == OutlinePoints(x0, y0, front)[8 * k..8 * k + 8];
      }
    }
  }

  /** Every point the outline plots lies near the disc. */
  lemma {:induction false} OutlineNearDisc(x0: int, y0: int, radius: nat, steps: seq<Point>)
    requires forall k :: 0 <= k < |steps| ==> 0 <= steps[k].y <= steps[k].x <= radius
    requires forall k :: 0 <= k < |steps| ==> InsideOutline(steps[k], radius)
    ensures forall q :: 0 <= q < |OutlinePoints(x0, y0, steps)| ==>
      NearDisc(OutlinePoints(x0, y0, steps)[q], x0, y0, radius)
    decreases |steps|
  {
    if steps != [] {
      var front := steps[..|steps| - 1];
      var s := steps[|steps| - 1];
      OutlineNearDisc(x0, y0, radius, front);
      OctantsNearDisc(x0, y0, radius, s);
      var pts := OutlinePoints(x0, y0, steps);
      var head := OutlinePoints(x0, y0, front);
      forall q | 0 <= q < |pts|
        ensures NearDisc(pts[q], x0, y0, radius)
      {
        if q < |head| {
          assert pts[q] == head[q];
        } else {
          assert pts[q] in Octants(x0, y0, s);
        }
      }
    }
  }

  lemma OctantsNearDisc(x0: int, y0: int, radius: nat, s: Point)
    requires 0 <= s.y <= s.x <= radius
    requires InsideOutline(s, radius)
    ensures forall p :: p in Octants(x0, y0, s) ==> NearDisc(p, x0, y0, radius)
  {
    assert (-s.x) * (-s.x) == s.x * s.x && (-s.y) * (-s.y) == s.y * s.y;
  }

  /** The horizontal run of points from column xa to column xb on row y,
      in that order: what `line` plots when both ends share a row. */
  function Row(xa: int, xb: int, y: int): (pts: seq<Point>)
    ensures |pts| == Abs(xb - xa) + 1
    ensures pts[0] == Point(xa, y) && pts[|pts| - 1] == Point(xb, y)
    decreases Abs(xb - xa)
  {
    if xa == xb then [Point(xa, y)]
    else Row(xa, if xa < xb then xb - 1 else xb + 1, y) + [Point(xb, y)]
  }

  /** Every point of a row lies between its ends. */
  lemma {:induction false} RowInBox(xa: int, xb: int, y: int)
    ensures forall k :: 0 <= k < |Row(xa, xb, y)| ==> InBox(Row(xa, xb, y)[k], xa, y, xb, y)
    decreases Abs(xb - xa)
  {
    if xa != xb {
      var xc := if xa < xb then xb - 1 else xb + 1;
      RowInBox(xa, xc, y);
      var pts := Row(xa, xb, y);
      forall k | 0 <= k < |pts|
        ensures InBox(pts[k], xa, y, xb, y)
      {
        if k < |pts| - 1 {
          assert pts[k] == Row(xa, xc, y)[k];
        }
      }
    }
  }

  /** The points `line4points(x0, y0, s.x, s.y)` plots: the span from
      x0 - s.x to x0 + s.x on row y0 + s.y and, unless s.y is 0, its mirror
      on row y0 - s.y. */
  function SpanPair(x0: int, y0: int, s: Point): seq<Point>
  {
    if s.y == 0 then Row(x0 - s.x, s.x + x0, y0 + s.y)
    else Row(x0 - s.x, s.x + x0, y0 + s.y) + Row(x0 - s.x, s.x + x0, y0 - s.y)
  }

  /** A span pair is one row, or two mirrored rows. */
  lemma SpanPairRows(x0: int, y0: int, s: Point)
    ensures s.y == 0 ==> SpanPair(x0, y0, s) == Row(x0 - s.x, s.x + x0, y0 + s.y)
    ensures s.y != 0 ==> SpanPair(x0, y0, s) == Row(x0 - s.x, s.x + x0, y0 + s.y) + Row(x0 - s.x, s.x + x0, y0 - s.y)
  {
  }

  /** The points the filled branch of `circle` plots: the spans of its
      `line4points` calls, in order. */
  function FilledPoints(x0: int, y0: int, calls: seq<Point>): seq<Point>
  {
    if calls == [] then [] else FilledPoints(x0, y0, calls[..|calls| - 1]) + SpanPair(x0, y0, calls[|calls| - 1])
  }

  /** Every point of the spans of calls that satisfy the filled loop's bounds
      lies near the disc. */
  lemma {:induction false} FilledNearDisc(x0: int, y0: int, radius: nat, calls: seq<Point>)
    requires forall k :: 0 <= k < |calls| ==> 0 <= calls[k].x <= radius && 0 <= calls[k].y <= radius
    requires forall k :: 0 <= k < |calls| ==>
      calls[k].x * calls[k].x + calls[k].y * calls[k].y < radius * radius + radius
    ensures forall q :: 0 <= q < |FilledPoints(x0, y0, calls)| ==>
      NearDisc(FilledPoints(x0, y0, calls)[q], x0, y0, radius)
    decreases |calls|
  {
    if calls != [] {
      var front := calls[..|calls| - 1];
      var c := calls[|calls| - 1];
      FilledNearDisc(x0, y0, radius, front);
      SpanPairNearDisc(x0, y0, radius, c);
      var pts := FilledPoints(x0, y0, calls);
      var head := FilledPoints(x0, y0, front);
      forall q | 0 <= q < |pts|
        ensures NearDisc(pts[q], x0, y0, radius)
      {
        if q < |head| {
          assert pts[q] == head[q];
        } else {
          assert pts[q] == SpanPair(x0, y0, c)[q - |head|];
        }
      }
    }
  }

  /** The spans of one in-bound call lie near the disc. */
  lemma SpanPairNearDisc(x0: int, y0: int, radius: nat, c: Point)
    requires 0 <= c.x <= radius && 0 <= c.y <= radius
    requires c.x * c.x + c.y * c.y < radius * radius + radius
    ensures forall q :: 0 <= q < |SpanPair(x0, y0, c)| ==> NearDisc(SpanPair(x0, y0, c)[q], x0, y0, radius)
  {
    var upper := Row(x0 - c.x, c.x + x0, y0 + c.y);
    var lower := Row(x0 - c.x, c.x + x0, y0 - c.y);
    RowNearDisc(x0, y0, radius, c, x0 - c.x, c.x + x0, y0 + c.y);
    RowNearDisc(x0, y0, radius, c, x0 - c.x, c.x + x0, y0 - c.y);
    SpanPairRows(x0, y0, c);
    var pts := SpanPair(x0, y0, c);
    forall q | 0 <= q < |pts|
      ensures NearDisc(pts[q], x0, y0, radius)
    {
      if q >= |upper| {
        assert pts[q] == lower[q - |upper|];
      }
    }
  }

  /** The span from xa = x0 - c.x to xb = x0 + c.x of one in-bound call,
      on row y0 + c.y or y0 - c.y, lies near the disc. */
  lemma RowNearDisc(x0: int, y0: int, radius: nat, c: Point, xa: int, xb: int, y: int)
    requires 0 <= c.x <= radius && 0 <= c.y <= radius
    requires c.x * c.x + c.y * c.y < radius * radius + radius
    requires xa == x0 - c.x && xb == x0 + c.x && Abs(y - y0) == c.y
    ensures forall q :: 0 <= q < |Row(xa, xb, y)| ==> NearDisc(Row(xa, xb, y)[q], x0, y0, radius)
  {
    var row := Row(xa, xb, y);
    RowInBox(xa, xb, y);
    forall q | 0 <= q < |row|
      ensures NearDisc(row[q], x0, y0, radius)
    {
      assert InBox(row[q], xa, y, xb, y);
      SpanPointNearDisc(x0, y0, radius, c, row[q]);
    }
  }

  /** A point on a span of a filled circle lies near the disc. */
  lemma SpanPointNearDisc(x0: int, y0: int, radius: nat, c: Point, p: Point)
    requires 0 <= c.x <= radius && 0 <= c.y <= radius
    requires c.x * c.x + c.y * c.y < radius * radius + radius
    requires Abs(p.x - x0) <= c.x && Abs(p.y - y0) == c.y
    ensures NearDisc(p, x0, y0, radius)
  {
    var dx, dy := p.x - x0, p.y - y0;
    assert dx * dx == Abs(dx) * Abs(dx);
    assert dy * dy == c.y * c.y;
    SquareLe(Abs(dx), c.x);
  }

  lemma SquareLe(a: nat, b: nat)
    requires a <= b
    ensures a * a <= b * b
  {
    MulLe(a, b, a);
    MulLe(a, b, b);
  }

  lemma MulLe(a: nat, b: nat, c: nat)
    requires a <= b
    ensures a * c <= b * c
  {
  }
}
