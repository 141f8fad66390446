/** shapes.rs: Bresenham's loop in 32-bit arithmetic, and the rectangle drawn with it. */
module LineDrawing {
  import opened Words
  import opened Raster

  /**
   After i columns, j rows and k points: d = j * a - i * b says how far the point is off the ideal
   line, in units of one pixel over the line's longer extent, and stays within half a pixel.
   */
  ghost predicate OnLine(a: int, b: int, i: int, j: int, d: int, err: int, k: int) {
    && err == d + a - b
    && (a >= b ==> i == k && (a > 0 ==> -a < 2 * d <= a) && (a == 0 ==> j == 0))
    && (a < b ==> j == k && -b <= 2 * d < b)
  }

  lemma Offset(a: int, b: int, i: int, j: int)
    ensures (j + 1) * a - i * b == (j * a - i * b) + a
    ensures j * a - (i + 1) * b == (j * a - i * b) - b
    ensures (j + 1) * a - (i + 1) * b == (j * a - i * b) + a - b
  {
  }

  /** The two tests of the loop body move to the next point of the line. */
  lemma StepStaysOnLine(a: int, b: int, i: int, j: int, d: int, err: int, k: int)
    requires 0 <= a && 0 <= b && 0 <= k && (k < a || k < b)
    requires OnLine(a, b, i, j, d, err, k)
    ensures var di, dj := if 2 * err >= -b then 1 else 0, if 2 * err <= a then 1 else 0;
      var off := (if dj == 1 then a else 0) - (if di == 1 then b else 0);
      OnLine(a, b, i + di, j + dj, d + off, err + off, k + 1)
  {
  }

  /** q is p * b / a rounded, so it lies between 0 and b when p lies between 0 and a. */
  lemma Between(a: int, b: int, p: int, q: int)
    requires a > 0 && b >= 0 && 0 <= p <= a && -a <= 2 * (q * a - p * b) <= a
    ensures 0 <= q <= b
  {
    Grows(0, p, b);
    Grows(p, a, b);
    Grows(q, -1, a);
    Grows(b + 1, q, a);
    assert (b + 1) * a == b * a + a;
  }

  lemma OnLineBounds(a: int, b: int, i: int, j: int, d: int, err: int, k: int)
    requires 0 <= k && 0 <= a && 0 <= b && (k <= a || k <= b)
    requires OnLine(a, b, i, j, d, err, k) && d == j * a - i * b
    ensures -3 * Max(a, b) <= 2 * err <= 3 * Max(a, b)
    ensures 0 <= i <= a && 0 <= j <= b
  {
    if a >= b && a > 0 {
      Between(a, b, i, j);
    } else if b > a {
      assert i * b - j * a == -d;
      Between(b, a, j, i);
    }
  }

  /** The offset singles out the point: it is the ideal point, rounded. */
  lemma OnLineIsRounded(a: int, b: int, i: int, j: int, d: int, err: int, k: int)
    requires 0 <= a && 0 <= b && 0 <= k
    requires OnLine(a, b, i, j, d, err, k) && d == j * a - i * b
    ensures i == Columns(a, b, k) && j == Rows(a, b, k)
  {
    if a >= b && a > 0 {
      assert 2 * k * b == 2 * (i * b);
      RoundedIs(a, i * b, j);
    } else if b > a {
      assert 2 * k * a == 2 * (j * a);
      assert i * b - j * a == -d;
      RoundedIs(b, j * a, i);
    }
  }

  /** Coordinates on the way from one i32 endpoint to the other are i32s. */
  lemma OnTheWay(from: I32, to: I32, i: int)
    requires 0 <= i <= Abs(to - from)
    ensures -0x8000_0000 <= from + Sign(from, to) * i <= 0x7FFF_FFFF
  {
  }

  lemma OneStep(from: int, to: int, i: int)
    ensures from + Sign(from, to) * (i + 1) == from + Sign(from, to) * i + Sign(from, to)
  {
  }

  lemma NextPoint(a: int, b: int, i: int, j: int, d: int, err: int, k: int)
    requires 0 <= a && 0 <= b && 0 <= k && (k < a || k < b)
    requires OnLine(a, b, i, j, d, err, k) && d == j * a - i * b
    ensures var di, dj := if 2 * err >= -b then 1 else 0, if 2 * err <= a then 1 else 0;
      var off := (if dj == 1 then a else 0) - (if di == 1 then b else 0);
      && OnLine(a, b, i + di, j + dj, d + off, err + off, k + 1)
      && d + off == (j + dj) * a - (i + di) * b
      && i + di <= a && j + dj <= b && -3 * Max(a, b) <= 2 * (err + off) <= 3 * Max(a, b)
  {
    StepStaysOnLine(a, b, i, j, d, err, k);
    Offset(a, b, i, j);
    var di, dj := if 2 * err >= -b then 1 else 0, if 2 * err <= a then 1 else 0;
    var off := (if dj == 1 then a else 0) - (if di == 1 then b else 0);
    OnLineBounds(a, b, i + di, j + dj, d + off, err + off, k + 1);
  }

  lemma OnePoint(x0: int, y0: int, x1: int, y1: int, k: nat)
    ensures Points(x0, y0, x1, y1, k + 1) == Points(x0, y0, x1, y1, k) + [PointAt(x0, y0, x1, y1, k)]
  {
  }

  /** Where the loop stands after i columns, j rows and k points, in terms of its own variables. */
  ghost predicate Tracks(x0: int, y0: int, x1: int, y1: int, x: int, y: int, err: int, i: int, j: int, d: int, k: int) {
    var a, b := Abs(x1 - x0), Abs(y1 - y0);
    && OnLine(a, b, i, j, d, err, k) && d == j * a - i * b
    && x == x0 + Sign(x0, x1) * i && y == y0 + Sign(y0, y1) * j
  }

  lemma TracksStart(x0: int, y0: int, x1: int, y1: int)
    ensures Tracks(x0, y0, x1, y1, x0, y0, Abs(x1 - x0) - Abs(y1 - y0), 0, 0, 0, 0)
    ensures Points(x0, y0, x1, y1, 0) == []
  {
  }

  lemma TracksPoint(x0: int, y0: int, x1: int, y1: int, x: int, y: int, err: int, i: int, j: int, d: int, k: nat)
    requires Tracks(x0, y0, x1, y1, x, y, err, i, j, d, k)
    ensures (x, y) == PointAt(x0, y0, x1, y1, k)
  {
    OnLineIsRounded(Abs(x1 - x0), Abs(y1 - y0), i, j, d, err, k);
    hide OnLine;
    hide Columns;
    hide Rows;
  }

  /** One turn of the loop on values: where it leads, and that it leads nowhere an i32 cannot go. */
  lemma TracksNext(x0: I32, y0: I32, x1: I32, y1: I32, x: I32, y: I32, err: int, i: int, j: int, d: int, k: int,
                   a: int, b: int)
    returns (right: int, down: int)
    requires Tracks(x0, y0, x1, y1, x, y, err, i, j, d, k)
    requires a == Abs(x1 - x0) && b == Abs(y1 - y0) && 0 <= k && (k < a || k < b)
    ensures right == (if 2 * err >= -b then 1 else 0) && down == (if 2 * err <= a then 1 else 0)
    ensures -3 * Max(a, b) <= 2 * err <= 3 * Max(a, b)
    ensures var x' := if right == 1 then x + Sign(x0, x1) else x;
      var y' := if down == 1 then y + Sign(y0, y1) else y;
      var off := (if down == 1 then a else 0) - (if right == 1 then b else 0);
      && Tracks(x0, y0, x1, y1, x', y', err + off, i + right, j + down, d + off, k + 1)
      && -0x8000_0000 <= x' <= 0x7FFF_FFFF && -0x8000_0000 <= y' <= 0x7FFF_FFFF
  {
    right, down := if 2 * err >= -b then 1 else 0, if 2 * err <= a then 1 else 0;
    OnLineBounds(a, b, i, j, d, err, k);
    NextPoint(a, b, i, j, d, err, k);
    hide OnLine;
    OneStep(x0, x1, i);
    OneStep(y0, y1, j);
    if right == 1 { OnTheWay(x0, x1, i + 1); }
    if down == 1 { OnTheWay(y0, y1, j + 1); }
  }

  class Display {
    /** The points plotted so far, in order. */
    var plotted: seq<Point>

    constructor ()
      ensures plotted == []
    {
      plotted := [];
    }

    method DrawPixel(x: I32, y: I32)
      modifies this
      ensures plotted == old(plotted) + [(x, y)]
    {
      plotted := plotted + [(x, y)];
    }

    /** The loop body of draw_line, after the endpoint test. */
    static method Advance(x0: I32, y0: I32, x1: I32, y1: I32, x: I32, y: I32, err: I32,
                          dx: I32, dy: I32, sx: I32, sy: I32, ghost i: int, ghost j: int, ghost d: int, ghost k: int)
      returns (x': I32, y': I32, err': I32, ghost i': int, ghost j': int, ghost d': int)
      requires dx == Abs(x1 - x0) <= MAX_EXTENT && dy == -(Abs(y1 - y0) as int) >= -MAX_EXTENT
      requires sx == Sign(x0, x1) && sy == Sign(y0, y1)
      requires 0 <= k && (k < dx || k < -dy)
      requires Tracks(x0, y0, x1, y1, x, y, err, i, j, d, k)
      ensures Tracks(x0, y0, x1, y1, x', y', err', i', j', d', k + 1)
    {
      ghost var right, down := TracksNext(x0, y0, x1, y1, x, y, err, i, j, d, k, dx, -dy);
      hide Tracks;
      x', y', err', i', j', d' := x, y, err, i, j, d;
      var e2: I32 := 2 * err;
      if e2 >= dy {
        err' := err' + dy;
        x' := x' + sx;
        i', d' := i' + 1, d' + dy;
      }
      if e2 <= dx {
        err' := err' + dx;
        y' := y' + sy;
        j', d' := j' + 1, d' + dx;
      }
    }

    /**
     draw_line: plots exactly the points of Raster.Line, so it ends; every variable below is an i32,
     so no sum or product overflows for endpoints up to MAX_EXTENT apart.
     */
    method DrawLine(x0: I32, y0: I32, x1: I32, y1: I32)
      requires Abs(x1 - x0) <= MAX_EXTENT && Abs(y1 - y0) <= MAX_EXTENT
      modifies this
      ensures plotted == old(plotted) + Line(x0, y0, x1, y1)
    {
      var dx: I32 := Abs(x1 - x0);
      var dy: I32 := -(Abs(y1 - y0) as int);
      var sx: I32 := if x0 < x1 then 1 else -1;
      var sy: I32 := if y0 < y1 then 1 else -1;
      var err: I32 := dx + dy;
      var x: I32, y: I32 := x0, y0;
      ghost var i: int, j: int, d: int, k: int := 0, 0, 0, 0;
      ghost var steps := Max(dx, -dy);
      assert Line(x0, y0, x1, y1) == Points(x0, y0, x1, y1, steps + 1);
      TracksStart(x0, y0, x1, y1);
      hide Tracks;
      hide Points;
      hide PointAt;
      hide Sign;
      hide Line;
      while true
        invariant 0 <= k <= steps && Tracks(x0, y0, x1, y1, x, y, err, i, j, d, k)
        invariant plotted == old(plotted) + Points(x0, y0, x1, y1, k)
        decreases steps - k
      {
        TracksPoint(x0, y0, x1, y1, x, y, err, i, j, d, k);
        DrawPixel(x, y);
        OnePoint(x0, y0, x1, y1, k);
        Endpoints(x0, y0, x1, y1, k);
        if x == x1 && y == y1 {
          break;
        }
        x, y, err, i, j, d := Advance(x0, y0, x1, y1, x, y, err, dx, dy, sx, sy, i, j, d, k);
        k := k + 1;
      }
    }

    /** draw_rect. */
    method DrawRect(x: I32, y: I32, width: Word, height: Word)
      requires width <= MAX_EXTENT && height <= MAX_EXTENT
      requires -0x8000_0000 <= x + width - 1 && x + width <= 0x7FFF_FFFF
      requires -0x8000_0000 <= y + height - 1 && y + height <= 0x7FFF_FFFF
      modifies this
      ensures plotted == old(plotted) + RectPoints(x, y, width, height)
    {
      hide Line;
      var right: I32 := x + width - 1;
      var bottom: I32 := y + height - 1;
      DrawLine(x, y, right, y);
      DrawLine(x, bottom, right, bottom);
      DrawLine(x, y, x, bottom);
      DrawLine(right, y, right, bottom);
    }
  }
}
