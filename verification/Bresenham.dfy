/** bline.c: Bresenham's line, with an integer error term. */
module Bresenham {

  type Point = (int, int)

  function Abs(n: int): nat { if n < 0 then -n else n }

  function Sign(from: int, to: int): int { if to < from then -1 else 1 }

  // ----- The ideal line

  /** After k of `major` steps along one axis of a line that rises by `minor` along the other, j is
      within half a step of the ideal height k * minor / major; of two as near, it is the greater. */
  predicate Nearest(major: int, minor: int, k: int, j: int) {
    -major <= 2 * (k * minor - j * major) < major
  }

  lemma Within(major: int, a: int, b: int)
    requires 0 < major && -major < a * major - b * major < major
    ensures a == b
  {
    assert a * major - b * major == (a - b) * major;
    if a > b {
      AtLeastOne(a - b, major);
    } else if a < b {
      AtLeastOne(b - a, major);
    }
  }

  lemma AtLeastOne(n: int, m: int)
    requires n >= 1 && m > 0
    ensures n * m >= m && -n * m <= -m
  {
    assert n * m == (n - 1) * m + m;
    assert (n - 1) * m >= 0;
    assert -n * m == -(n * m);
  }

  /** There is only one nearest height. */
  lemma NearestIsUnique(major: int, minor: int, k: int, i: int, j: int)
    requires Nearest(major, minor, k, i) && Nearest(major, minor, k, j)
    ensures i == j
  {
    Within(major, i, j);
  }

  /** It is the quotient of integers that rounds the ideal height. */
  lemma NearestIsRounded(major: int, minor: int, k: int)
    requires 0 < major
    ensures Nearest(major, minor, k, (2 * (k * minor) + major) / (2 * major))
  {
    var n, d := 2 * (k * minor) + major, 2 * major;
    assert n == (n / d) * d + n % d;
    assert (n / d) * d == 2 * ((n / d) * major);
  }

  lemma NearestAtEnds(major: int, minor: int, j: int)
    requires 0 < major
    ensures Nearest(major, minor, 0, j) ==> j == 0
    ensures Nearest(major, minor, major, j) ==> j == minor
  {
    if Nearest(major, minor, 0, j) { Within(major, j, 0); }
    if Nearest(major, minor, major, j) {
      assert major * minor == minor * major;
      Within(major, j, minor);
    }
  }

  /** From one step to the next the nearest height stays or grows by one. */
  lemma NearestAdvances(major: int, minor: int, k: int, i: int, j: int)
    requires 0 <= minor <= major && Nearest(major, minor, k, i) && Nearest(major, minor, k + 1, j)
    ensures i <= j <= i + 1
  {
    assert (k + 1) * minor == k * minor + minor;
    assert (i - j) * major == i * major - j * major;
    assert (j - i - 1) * major == j * major - i * major - major;
    if j < i {
      AtLeastOne(i - j, major);
    } else if j > i + 1 {
      AtLeastOne(j - i - 1, major);
    }
  }

  /** Seen from the other end, the line passes the same point, unless the ideal height is half way
      between two. */
  lemma NearestFromOtherEnd(major: int, minor: int, k: int, i: int, j: int)
    requires Nearest(major, minor, k, i) && Nearest(major, minor, major - k, j)
    ensures i + j == minor <==> 2 * (k * minor - i * major) != -major
  {
    assert (major - k) * minor == major * minor - k * minor;
    assert (minor - i) * major == minor * major - i * major;
    if 2 * (k * minor - i * major) != -major {
      NearestIsUnique(major, minor, major - k, minor - i, j);
    }
  }

  // ----- The points of a line

  predicate Steep(x1: int, y1: int, x2: int, y2: int) {
    Abs(x2 - x1) <= Abs(y2 - y1)
  }

  function Major(x1: int, y1: int, x2: int, y2: int): nat {
    if Steep(x1, y1, x2, y2) then Abs(y2 - y1) else Abs(x2 - x1)
  }

  function Minor(x1: int, y1: int, x2: int, y2: int): nat {
    if Steep(x1, y1, x2, y2) then Abs(x2 - x1) else Abs(y2 - y1)
  }

  /** The point k steps along the longer axis and j along the other. */
  function PointAt(x1: int, y1: int, x2: int, y2: int, k: int, j: int): Point {
    if Steep(x1, y1, x2, y2) then (x1 + j * Sign(x1, x2), y1 + k * Sign(y1, y2))
    else (x1 + k * Sign(x1, x2), y1 + j * Sign(y1, y2))
  }

  /** `rise` has the nearest height for each of its steps. */
  ghost predicate Rises(major: nat, minor: nat, rise: seq<int>) {
    forall k :: 0 <= k < |rise| && major > 0 ==> Nearest(major, minor, k, rise[k])
  }

  ghost predicate Traces(points: seq<Point>, x1: int, y1: int, x2: int, y2: int, rise: seq<int>) {
    && |points| == |rise| && Rises(Major(x1, y1, x2, y2), Minor(x1, y1, x2, y2), rise)
    && (forall k :: 0 <= k < |points| ==> points[k] == PointAt(x1, y1, x2, y2, k, rise[k]))
    && (|rise| > 0 ==> rise[0] == 0)
  }

  /** The points are those of the line: as many as the longer axis has steps and one more, each
      within half a step of the ideal line. */
  ghost predicate IsLine(points: seq<Point>, x1: int, y1: int, x2: int, y2: int) {
    |points| == Major(x1, y1, x2, y2) + 1 && exists rise :: Traces(points, x1, y1, x2, y2, rise)
  }

  predicate Adjacent(p: Point, q: Point) {
    p != q && Abs(p.0 - q.0) <= 1 && Abs(p.1 - q.1) <= 1
  }

  lemma TimesSign(j: int, from: int, to: int)
    ensures j * Sign(from, to) == if to < from then -j else j
  {}

  /** A line starts and ends where it should, and each point touches the next. */
  lemma LineIsConnected(points: seq<Point>, x1: int, y1: int, x2: int, y2: int)
    requires IsLine(points, x1, y1, x2, y2)
    ensures points[0] == (x1, y1) && points[|points| - 1] == (x2, y2)
    ensures forall k :: 0 <= k < |points| - 1 ==> Adjacent(points[k], points[k + 1])
  {
    var rise :| Traces(points, x1, y1, x2, y2, rise);
    var major, minor := Major(x1, y1, x2, y2), Minor(x1, y1, x2, y2);
    TimesSign(minor, x1, x2);
    TimesSign(minor, y1, y2);
    TimesSign(major, x1, x2);
    TimesSign(major, y1, y2);
    if major > 0 { NearestAtEnds(major, minor, rise[major]); }
    forall k | 0 <= k < major ensures Adjacent(points[k], points[k + 1]) {
      NearestAdvances(major, minor, k, rise[k], rise[k + 1]);
      assert (k + 1) * Sign(x1, x2) == k * Sign(x1, x2) + Sign(x1, x2);
      assert (k + 1) * Sign(y1, y2) == k * Sign(y1, y2) + Sign(y1, y2);
      TimesSign(rise[k], x1, x2);
      TimesSign(rise[k], y1, y2);
      TimesSign(rise[k + 1], x1, x2);
      TimesSign(rise[k + 1], y1, y2);
    }
  }

  /** There is only one line from one point to another. */
  lemma LineIsUnique(points: seq<Point>, points': seq<Point>, x1: int, y1: int, x2: int, y2: int)
    requires IsLine(points, x1, y1, x2, y2) && IsLine(points', x1, y1, x2, y2)
    ensures points == points'
  {
    var rise :| Traces(points, x1, y1, x2, y2, rise);
    var rise' :| Traces(points', x1, y1, x2, y2, rise');
    var major, minor := Major(x1, y1, x2, y2), Minor(x1, y1, x2, y2);
    forall k | 0 <= k <= major ensures points[k] == points'[k] {
      if major > 0 { NearestIsUnique(major, minor, k, rise[k], rise'[k]); }
    }
  }

  // ----- The loops

  /** The error term after k steps along the longer axis and j along the other. */
  ghost predicate ErrorIs(e: int, major: int, minor: int, k: int, j: int) {
    e == 2 * (k + 1) * minor - (2 * j + 1) * major && 2 * minor - 2 * major <= e < 2 * minor
  }

  lemma ErrorStart(major: int, minor: int)
    requires 0 <= minor <= major && 0 < major
    ensures ErrorIs(2 * minor - major, major, minor, 0, 0)
  {}

  /** The test of the error term's sign keeps it in its range, and the height the nearest. */
  lemma ErrorStep(e: int, major: int, minor: int, k: int, j: int)
    requires 0 <= minor <= major && ErrorIs(e, major, minor, k, j)
    ensures ErrorIs(if e >= 0 then e + 2 * (minor - major) else e + 2 * minor, major, minor, k + 1,
                    if e >= 0 then j + 1 else j)
  {
    assert 2 * (k + 2) * minor == 2 * (k + 1) * minor + 2 * minor;
    assert (2 * (j + 1) + 1) * major == (2 * j + 1) * major + 2 * major;
  }

  lemma ErrorIsNearest(e: int, major: int, minor: int, k: int, j: int)
    requires ErrorIs(e, major, minor, k, j)
    ensures Nearest(major, minor, k, j)
  {
    assert 2 * (k + 1) * minor == 2 * (k * minor) + 2 * minor;
    assert (2 * j + 1) * major == 2 * (j * major) + major;
  }

  /** One more point. */
  lemma Advance(points: seq<Point>, rise: seq<int>, x1: int, y1: int, x2: int, y2: int, i: nat, j: int, e: int)
    requires |points| == |rise| == i + 1 && Traces(points, x1, y1, x2, y2, rise)
    requires rise[i] <= j <= rise[i] + 1
    requires ErrorIs(e, Major(x1, y1, x2, y2), Minor(x1, y1, x2, y2), i + 1, j)
    ensures Traces(points + [PointAt(x1, y1, x2, y2, i + 1, j)], x1, y1, x2, y2, rise + [j])
    ensures var p, q := points[i], PointAt(x1, y1, x2, y2, i + 1, j);
      if Steep(x1, y1, x2, y2) then
        q == (if j == rise[i] then p.0 else p.0 + Sign(x1, x2), p.1 + Sign(y1, y2))
      else q == (p.0 + Sign(x1, x2), if j == rise[i] then p.1 else p.1 + Sign(y1, y2))
  {
    ErrorIsNearest(e, Major(x1, y1, x2, y2), Minor(x1, y1, x2, y2), i + 1, j);
    assert (i + 1) * Sign(x1, x2) == i * Sign(x1, x2) + Sign(x1, x2);
    assert (i + 1) * Sign(y1, y2) == i * Sign(y1, y2) + Sign(y1, y2);
    assert (rise[i] + 1) * Sign(x1, x2) == rise[i] * Sign(x1, x2) + Sign(x1, x2);
    assert (rise[i] + 1) * Sign(y1, y2) == rise[i] * Sign(y1, y2) + Sign(y1, y2);
  }

  /** The loop for lines that are not steep. */
  method AlongX(x1: int, y1: int, x2: int, y2: int, dx: int, dy: int, incx: int, incy: int)
    returns (points: seq<Point>)
    requires dx == Abs(x2 - x1) > dy == Abs(y2 - y1) && incx == Sign(x1, x2) && incy == Sign(y1, y2)
    ensures IsLine(points, x1, y1, x2, y2)
  {
    var x, y := x1, y1;
    points := [(x, y)];
    ghost var rise := [0];
    var e, inc1, inc2 := 2 * dy - dx, 2 * (dy - dx), 2 * dy;
    ErrorStart(dx, dy);
    for i := 0 to dx
      invariant |points| == |rise| == i + 1 && points[i] == (x, y)
      invariant ErrorIs(e, dx, dy, i, rise[i]) && Traces(points, x1, y1, x2, y2, rise)
    {
      ErrorStep(e, dx, dy, i, rise[i]);
      ghost var j := if e >= 0 then rise[i] + 1 else rise[i];
      if e >= 0 {
        y := y + incy;
        e := e + inc1;
      } else {
        e := e + inc2;
      }
      x := x + incx;
      Advance(points, rise, x1, y1, x2, y2, i, j, e);
      points, rise := points + [(x, y)], rise + [j];
    }
    assert Traces(points, x1, y1, x2, y2, rise);
  }

  /** The loop for steep lines. */
  method AlongY(x1: int, y1: int, x2: int, y2: int, dx: int, dy: int, incx: int, incy: int)
    returns (points: seq<Point>)
    requires dx == Abs(x2 - x1) <= dy == Abs(y2 - y1) && incx == Sign(x1, x2) && incy == Sign(y1, y2)
    ensures IsLine(points, x1, y1, x2, y2)
  {
    var x, y := x1, y1;
    points := [(x, y)];
    ghost var rise := [0];
    var e, inc1, inc2 := 2 * dx - dy, 2 * (dx - dy), 2 * dx;
    if dy > 0 { ErrorStart(dy, dx); }
    for i := 0 to dy
      invariant |points| == |rise| == i + 1 && points[i] == (x, y)
      invariant (dy > 0 ==> ErrorIs(e, dy, dx, i, rise[i])) && Traces(points, x1, y1, x2, y2, rise)
    {
      ErrorStep(e, dy, dx, i, rise[i]);
      ghost var j := if e >= 0 then rise[i] + 1 else rise[i];
      if e >= 0 {
        x := x + incx;
        e := e + inc1;
      } else {
        e := e + inc2;
      }
      y := y + incy;
      Advance(points, rise, x1, y1, x2, y2, i, j, e);
      points, rise := points + [(x, y)], rise + [j];
    }
    assert Traces(points, x1, y1, x2, y2, rise);
  }

  /** bline, with the points it plots in order. */
  method Line(x1: int, y1: int, x2: int, y2: int) returns (points: seq<Point>)
    ensures IsLine(points, x1, y1, x2, y2)
  {
    var dx := x2 - x1;
    if dx < 0 { dx := -dx; }
    var dy := y2 - y1;
    if dy < 0 { dy := -dy; }
    var incx, incy := if x2 < x1 then -1 else 1, if y2 < y1 then -1 else 1;
    if dx > dy {
      points := AlongX(x1, y1, x2, y2, dx, dy, incx, incy);
    } else {
      points := AlongY(x1, y1, x2, y2, dx, dy, incx, incy);
    }
  }

  // ----- From the other end

  lemma PointFromOtherEnd(x1: int, y1: int, x2: int, y2: int, k: int, j: int)
    ensures PointAt(x2, y2, x1, y1, Major(x1, y1, x2, y2) - k, Minor(x1, y1, x2, y2) - j)
            == PointAt(x1, y1, x2, y2, k, j)
      || (Minor(x1, y1, x2, y2) == 0 && j != 0) || Major(x1, y1, x2, y2) == 0
  {
    var major, minor := Major(x1, y1, x2, y2), Minor(x1, y1, x2, y2);
    TimesSign(j, x1, x2);
    TimesSign(j, y1, y2);
    TimesSign(k, x1, x2);
    TimesSign(k, y1, y2);
    TimesSign(minor - j, x2, x1);
    TimesSign(minor - j, y2, y1);
    TimesSign(major - k, x2, x1);
    TimesSign(major - k, y2, y1);
  }

  /** The ideal height after k steps is half way between two just if doubling it and adding one
      gives an even number. */
  lemma HalfWay(major: int, minor: int, k: int, j: int)
    requires 0 < major && Nearest(major, minor, k, j)
    ensures 2 * (k * minor - j * major) == -major <==> (2 * (k * minor) + major) % (2 * major) == 0
  {
    var n, d := 2 * (k * minor) + major, 2 * major;
    NearestIsRounded(major, minor, k);
    NearestIsUnique(major, minor, k, j, n / d);
    assert n == (n / d) * d + n % d;
    assert (n / d) * d == 2 * ((n / d) * major);
  }

  lemma StepsFromOtherEnd(x1: int, y1: int, x2: int, y2: int, k: nat, i: int, j: int)
    requires var major, minor := Major(x1, y1, x2, y2), Minor(x1, y1, x2, y2);
      0 < major && Nearest(major, minor, k, i) && Nearest(major, minor, major - k, j)
    ensures var major, minor := Major(x1, y1, x2, y2), Minor(x1, y1, x2, y2);
      PointAt(x2, y2, x1, y1, major - k, j) == PointAt(x1, y1, x2, y2, k, i)
      <==> (2 * (k * minor) + major) % (2 * major) != 0
  {
    var major, minor := Major(x1, y1, x2, y2), Minor(x1, y1, x2, y2);
    NearestFromOtherEnd(major, minor, k, i, j);
    HalfWay(major, minor, k, i);
    if minor == 0 {
      FlatStays(major, k, i);
      FlatStays(major, major - k, j);
    }
    PointFromOtherEnd(x1, y1, x2, y2, k, i);
    TimesSign(minor - i, x2, x1);
    TimesSign(minor - i, y2, y1);
    TimesSign(j, x2, x1);
    TimesSign(j, y2, y1);
  }

  /** Drawn from the other end, the line has the same point for step k, unless the ideal line passes
      half way between two. */
  lemma LineFromOtherEnd(points: seq<Point>, points': seq<Point>, x1: int, y1: int, x2: int, y2: int, k: nat)
    requires IsLine(points, x1, y1, x2, y2) && IsLine(points', x2, y2, x1, y1) && k < |points|
    ensures var major, minor := Major(x1, y1, x2, y2), Minor(x1, y1, x2, y2);
      points'[major - k] == points[k] <==> major == 0 || (2 * (k * minor) + major) % (2 * major) != 0
  {
    var major := Major(x1, y1, x2, y2);
    var rise :| Traces(points, x1, y1, x2, y2, rise);
    var rise' :| Traces(points', x2, y2, x1, y1, rise');
    if major > 0 { StepsFromOtherEnd(x1, y1, x2, y2, k, rise[k], rise'[major - k]); }
  }

  /** Such a line, two steps by one: the middle point is another one on the way back. */
  method ThereAndBack() returns (there: seq<Point>, back: seq<Point>)
    ensures there == [(0, 0), (1, 1), (2, 1)] && back == [(2, 1), (1, 0), (0, 0)]
  {
    there := Line(0, 0, 2, 1);
    back := Line(2, 1, 0, 0);
    ghost var rise :| Traces(there, 0, 0, 2, 1, rise);
    ghost var fall :| Traces(back, 2, 1, 0, 0, fall);
    assert Nearest(2, 1, 1, rise[1]) && Nearest(2, 1, 1, fall[1]);
    assert Nearest(2, 1, 2, rise[2]) && Nearest(2, 1, 2, fall[2]);
  }

  lemma FlatStays(major: int, k: int, j: int)
    requires 0 < major && Nearest(major, 0, k, j)
    ensures j == 0
  {
    assert k * 0 == 0;
    Within(major, j, 0);
  }
}
