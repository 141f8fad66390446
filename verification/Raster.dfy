/**
 Line drawing. The k-th of max(a, b) + 1 points of a line with a columns and b rows to cross is the
 ideal line's k-th point rounded to the nearest pixel; draw_line is proved to plot exactly these.
 */
module Raster {
  /** Up to this extent twice the error term fits an i32; it is above 2^29. */
  const MAX_EXTENT := 0x2AAA_AAAA

  type Point = (int, int)

  function Abs(x: int): nat {
    if x < 0 then -x else x
  }

  function Max(a: nat, b: nat): nat {
    if a >= b then a else b
  }

  /** 1 towards larger coordinates, and -1 otherwise, even when there is nowhere to go. */
  function Sign(from: int, to: int): int {
    if from < to then 1 else -1
  }

  // ---------- The ideal line, rounded ----------

  /** Columns crossed by the k-th point. */
  function Columns(a: nat, b: nat, k: nat): nat {
    if a >= b then k else (2 * k * a + b) / (2 * b)
  }

  /** Rows crossed by the k-th point. */
  function Rows(a: nat, b: nat, k: nat): nat {
    if a < b then k else if a == 0 then 0 else (2 * k * b + a) / (2 * a)
  }

  function PointAt(x0: int, y0: int, x1: int, y1: int, k: nat): Point {
    var a, b := Abs(x1 - x0), Abs(y1 - y0);
    (x0 + Sign(x0, x1) * Columns(a, b, k), y0 + Sign(y0, y1) * Rows(a, b, k))
  }

  function Points(x0: int, y0: int, x1: int, y1: int, n: nat): (ps: seq<Point>)
    ensures |ps| == n
  {
    seq(n, k requires 0 <= k < n => PointAt(x0, y0, x1, y1, k))
  }

  function Line(x0: int, y0: int, x1: int, y1: int): seq<Point> {
    Points(x0, y0, x1, y1, Max(Abs(x1 - x0), Abs(y1 - y0)) + 1)
  }

  // ---------- Nearest-pixel arithmetic ----------

  lemma Grows(p: int, q: int, m: int)
    requires 0 <= m
    ensures p <= q ==> p * m <= q * m
  {
  }

  lemma FloorBounds(num: int, den: int)
    requires den > 0
    ensures num / den * den <= num < (num / den + 1) * den
  {
    assert num == num / den * den + num % den;
  }

  lemma FloorIs(num: int, den: int, q: int)
    requires den > 0 && q * den <= num < (q + 1) * den
    ensures num / den == q
  {
    var r := num / den;
    FloorBounds(num, den);
    Grows(r + 1, q, den);
    Grows(q + 1, r, den);
  }

  /** The offset from the ideal line, in units of 1/a, is what rounding leaves over. */
  lemma RoundedIs(a: int, p: int, q: int)
    requires a > 0 && -a < 2 * (q * a - p) <= a
    ensures (2 * p + a) / (2 * a) == q
  {
    assert q * (2 * a) == 2 * (q * a) && (q + 1) * (2 * a) == 2 * (q * a) + 2 * a;
    FloorIs(2 * p + a, 2 * a, q);
  }

  lemma RoundedOffset(a: int, p: int)
    requires a > 0
    ensures var q := (2 * p + a) / (2 * a);
      -a < 2 * (q * a - p) <= a
  {
    var q := (2 * p + a) / (2 * a);
    FloorBounds(2 * p + a, 2 * a);
    assert q * (2 * a) == 2 * (q * a) && (q + 1) * (2 * a) == 2 * (q * a) + 2 * a;
  }

  /** Every plotted point is within half a pixel of the ideal line. */
  lemma HalfPixel(a: nat, b: nat, k: nat)
    requires k <= Max(a, b)
    ensures 2 * Abs(Rows(a, b, k) * a - Columns(a, b, k) * b) <= Max(a, b)
  {
    if a >= b && a > 0 {
      RoundedOffset(a, k * b);
      assert 2 * k * b == 2 * (k * b);
    } else if b > a {
      RoundedOffset(b, k * a);
      assert 2 * k * a == 2 * (k * a);
    }
  }

  // ---------- Shape of the line ----------

  lemma DivMonotone(p: int, q: int, den: int)
    requires den > 0 && p <= q <= p + den
    ensures p / den <= q / den <= p / den + 1
  {
    FloorBounds(p, den);
    FloorBounds(q, den);
    var i, j := p / den, q / den;
    Grows(j + 1, i, den);
    Grows(i + 2, j, den);
    assert (i + 2) * den == (i + 1) * den + den;
  }

  /** Each step crosses one column or one row or both, never more. */
  lemma Connected(a: nat, b: nat, k: nat)
    requires k < Max(a, b)
    ensures Columns(a, b, k) <= Columns(a, b, k + 1) <= Columns(a, b, k) + 1
    ensures Rows(a, b, k) <= Rows(a, b, k + 1) <= Rows(a, b, k) + 1
    ensures (Columns(a, b, k + 1), Rows(a, b, k + 1)) != (Columns(a, b, k), Rows(a, b, k))
  {
    if a >= b {
      assert 2 * (k + 1) * b + a == 2 * k * b + a + 2 * b;
      DivMonotone(2 * k * b + a, 2 * (k + 1) * b + a, 2 * a);
    } else {
      assert 2 * (k + 1) * a + b == 2 * k * a + b + 2 * a;
      DivMonotone(2 * k * a + b, 2 * (k + 1) * a + b, 2 * b);
    }
  }

  lemma CrossedNone(a: nat, b: nat)
    ensures Columns(a, b, 0) == 0 && Rows(a, b, 0) == 0
  {
    if a >= b && a > 0 {
      FloorIs(a, 2 * a, 0);
    } else if b > a {
      FloorIs(b, 2 * b, 0);
    }
  }

  lemma CrossedAll(a: nat, b: nat)
    ensures Columns(a, b, Max(a, b)) == a && Rows(a, b, Max(a, b)) == b
  {
    if a >= b && a > 0 {
      assert 2 * a * b == 2 * (a * b);
      RoundedIs(a, a * b, b);
    } else if b > a {
      assert 2 * b * a == 2 * (b * a);
      RoundedIs(b, b * a, a);
    }
  }

  /** The line starts at the first endpoint and reaches the second with its last point, not before. */
  lemma Endpoints(x0: int, y0: int, x1: int, y1: int, k: nat)
    requires k <= Max(Abs(x1 - x0), Abs(y1 - y0))
    ensures PointAt(x0, y0, x1, y1, 0) == (x0, y0)
    ensures PointAt(x0, y0, x1, y1, k) == (x1, y1) <==> k == Max(Abs(x1 - x0), Abs(y1 - y0))
  {
    var a, b := Abs(x1 - x0), Abs(y1 - y0);
    CrossedNone(a, b);
    CrossedAll(a, b);
  }

  // ---------- Rectangles ----------

  /** draw_rect's four lines: top, bottom, left, right. */
  function RectPoints(x: int, y: int, w: int, h: int): seq<Point> {
    Line(x, y, x + w - 1, y) + Line(x, y + h - 1, x + w - 1, y + h - 1)
    + Line(x, y, x, y + h - 1) + Line(x + w - 1, y, x + w - 1, y + h - 1)
  }

  ghost predicate OnOutline(x: int, y: int, w: int, h: int, p: Point) {
    && x <= p.0 < x + w && y <= p.1 < y + h
    && (p.0 == x || p.0 == x + w - 1 || p.1 == y || p.1 == y + h - 1)
  }

  lemma HorizontalLine(x0: int, x1: int, y: int, p: Point)
    requires x0 <= x1
    ensures p in Line(x0, y, x1, y) <==> x0 <= p.0 <= x1 && p.1 == y
  {
    var ps := Line(x0, y, x1, y);
    forall k | 0 <= k < |ps| ensures ps[k] == (x0 + k, y) {
      if x0 < x1 { FloorIs(x1 - x0, 2 * (x1 - x0), 0); }
    }
    if x0 <= p.0 <= x1 && p.1 == y { assert ps[p.0 - x0] == p; }
  }

  lemma VerticalLine(x: int, y0: int, y1: int, p: Point)
    requires y0 <= y1
    ensures p in Line(x, y0, x, y1) <==> y0 <= p.1 <= y1 && p.0 == x
  {
    var ps := Line(x, y0, x, y1);
    forall k | 0 <= k < |ps| ensures ps[k] == (x, y0 + k) {
      if y0 < y1 { FloorIs(y1 - y0, 2 * (y1 - y0), 0); }
    }
    if y0 <= p.1 <= y1 && p.0 == x { assert ps[p.1 - y0] == p; }
  }

  /** An empty rectangle has no outline, but its corner is plotted all the same. */
  lemma EmptyRectPlots(x: int, y: int, w: nat, h: nat)
    requires w == 0 || h == 0
    ensures (x, y) in RectPoints(x, y, w, h) && !OnOutline(x, y, w, h, (x, y))
  {
    var ps := Line(x, y, x + w - 1, y);
    CrossedNone(Abs(w - 1), 0);
    assert ps[0] == (x, y);
  }

  /** draw_rect plots exactly the outline for every rectangle that is not empty, and for no other. */
  lemma RectIsOutline(x: int, y: int, w: nat, h: nat)
    ensures (forall p: Point :: p in RectPoints(x, y, w, h) <==> OnOutline(x, y, w, h, p)) <==> w > 0 && h > 0
  {
    if w == 0 || h == 0 {
      EmptyRectPlots(x, y, w, h);
    } else {
      forall p: Point ensures p in RectPoints(x, y, w, h) <==> OnOutline(x, y, w, h, p) {
        HorizontalLine(x, x + w - 1, y, p);
        HorizontalLine(x, x + w - 1, y + h - 1, p);
        VerticalLine(x, y, y + h - 1, p);
        VerticalLine(x + w - 1, y, y + h - 1, p);
      }
    }
  }
}
