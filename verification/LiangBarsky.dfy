/** liang-barsky.c: clipping a segment to a window by narrowing a range of its parameter. */
module LiangBarsky {
  import opened Reals

  const TINY := 0.000001

  /** is_zero */
  predicate IsZero(v: real) {
    -TINY < v < TINY
  }

  /** struct liang_barsky_clip_window */
  datatype Window = Window(x1: real, y1: real, x2: real, y2: real)

  predicate PointInside(c: Window, x: real, y: real) {
    c.x1 <= x <= c.x2 && c.y1 <= y <= c.y2
  }

  function At(p: real, d: real, t: real): real {
    p + t * d
  }

  // ----- One bound

  /** What clipT asks of a parameter t: to be on the right side of the bound; and if the segment
      hardly moves across the bound, that its start is strictly inside. */
  predicate Passes(num: real, denom: real, t: real) {
    if IsZero(denom) then num < 0.0 else t * denom >= num
  }

  lemma Quotient(num: real, denom: real, t: real)
    requires denom != 0.0
    ensures denom > 0.0 ==> (t * denom >= num <==> t >= num / denom)
    ensures denom < 0.0 ==> (t * denom >= num <==> t <= num / denom)
  {
    var q := num / denom;
    assert q * denom == num;
    assert (t - q) * denom == t * denom - num;
    SignOfProduct(t - q, denom);
    SignOfProduct(q - t, denom);
    assert (q - t) * denom == -((t - q) * denom);
  }

  /** clipT: the range [tE, tL] is cut down to the parameters that pass; 0 if there are none. */
  method ClipT(num: real, denom: real, tE: real, tL: real) returns (ok: bool, tE': real, tL': real)
    requires tE <= tL
    ensures ok <==> exists t :: tE <= t <= tL && Passes(num, denom, t)
    ensures ok ==> tE <= tE' <= tL' <= tL
    ensures ok ==> forall t :: tE <= t <= tL ==> (Passes(num, denom, t) <==> tE' <= t <= tL')
  {
    tE', tL' := tE, tL;
    if IsZero(denom) {
      ok := num < 0.0;
      assert Passes(num, denom, tE) == ok;
      return;
    }
    var t := num / denom;
    forall u ensures Passes(num, denom, u) <==> if denom > 0.0 then u >= t else u <= t {
      Quotient(num, denom, u);
    }
    if denom > 0.0 {
      if t > tL { return false, tE', tL'; }
      if t > tE { tE' := t; }
    } else {
      if t < tE { return false, tE', tL'; }
      if t < tL { tL' := t; }
    }
    assert Passes(num, denom, tE');
    ok := true;
  }

  // ----- All four bounds

  /** A segment, from one end to the other. */
  datatype Ends = Ends(x1: real, y1: real, x2: real, y2: real)

  function XAt(e: Ends, t: real): real { At(e.x1, e.x2 - e.x1, t) }
  function YAt(e: Ends, t: real): real { At(e.y1, e.y2 - e.y1, t) }

  /** Parameter t passes both bounds of one coordinate that starts at p and moves by d. */
  predicate PassesAxis(lo: real, hi: real, p: real, d: real, t: real) {
    Passes(lo - p, d, t) && Passes(p - hi, -d, t)
  }

  predicate PassesAll(c: Window, e: Ends, t: real) {
    PassesAxis(c.x1, c.x2, e.x1, e.x2 - e.x1, t) && PassesAxis(c.y1, c.y2, e.y1, e.y2 - e.y1, t)
  }

  /** A segment hardly longer than a point, that starts in the window, is left as it is. */
  predicate IsDot(c: Window, e: Ends) {
    IsZero(e.x2 - e.x1) && IsZero(e.y2 - e.y1) && PointInside(c, e.x1, e.y1)
  }

  /** What clip_line keeps of a segment is the part between parameters tE and tL. */
  ghost predicate KeptPart(e: Ends, e': Ends, tE: real, tL: real) {
    e' == Ends(XAt(e, tE), YAt(e, tE), XAt(e, tL), YAt(e, tL))
  }

  /** The four coordinates that the caller lends. */
  class Segment {
    var x1: real
    var y1: real
    var x2: real
    var y2: real

    constructor (x1: real, y1: real, x2: real, y2: real)
      ensures Value() == Ends(x1, y1, x2, y2)
    {
      this.x1, this.y1, this.x2, this.y2 := x1, y1, x2, y2;
    }

    ghost function Value(): Ends
      reads this
    {
      Ends(x1, y1, x2, y2)
    }

    /** clip_line, for all inputs: unless the segment is as good as a point, it is kept if and only
        if a parameter in [0, 1] passes, and the parameters of what is kept are those that pass. */
    method ClipLine(c: Window) returns (ret: int, ghost tE: real, ghost tL: real)
      modifies this
      ensures ret == 0 || ret == 1
      ensures ret == 0 ==> Value() == old(Value())
      ensures old(IsDot(c, Value())) ==> ret == 1 && Value() == old(Value())
      ensures !old(IsDot(c, Value())) ==> (ret == 1 <==> exists t :: 0.0 <= t <= 1.0 && PassesAll(c, old(Value()), t))
      ensures ret == 1 ==> 0.0 <= tE <= tL <= 1.0 && KeptPart(old(Value()), Value(), tE, tL)
      ensures old(IsDot(c, Value())) ==> tE == 0.0 && tL == 1.0
      ensures ret == 1 && !old(IsDot(c, Value())) ==>
        forall t :: 0.0 <= t <= 1.0 ==> (PassesAll(c, old(Value()), t) <==> tE <= t <= tL)
      ensures FairSegment(old(Value())) ==> FairlyClipped(c, old(Value()), ret, tE, tL)
      ensures ret == 1 ==> (KeptInside(c, old(Value()), tE, tL) <==> PointInside(c, x2, y2))
    {
      ghost var e := Value();
      var dx, dy := x2 - x1, y2 - y1;
      tE, tL := 0.0, 1.0;
      AtEnds(x1, dx);
      AtEnds(y1, dy);
      assert KeptPart(e, e, 0.0, 1.0);
      if IsZero(dx) && IsZero(dy) && PointInside(c, x1, y1) {
        if FairSegment(e) { FairIsExact(c, e, 1, tE, tL); }
        KeptInsideIff(c, e, tE, tL);
        return 1, tE, tL;
      }
      var ok, e1, l1 := ClipRange(c, x1, y1, dx, dy);
      if !ok {
        if FairSegment(e) { FairIsExact(c, e, 0, tE, tL); }
        return 0, tE, tL;
      }
      tE, tL := e1, l1;
      assert PassesAll(c, e, tE);
      if FairSegment(e) { FairIsExact(c, e, 1, tE, tL); }
      KeptInsideIff(c, e, tE, tL);
      Keep(dx, dy, e1, l1);
      ret := 1;
    }

    /** The end is moved first: both ends move along the segment as it was. */
    method Keep(dx: real, dy: real, tE: real, tL: real)
      requires dx == x2 - x1 && dy == y2 - y1 && 0.0 <= tE <= tL <= 1.0
      modifies this
      ensures KeptPart(old(Value()), Value(), tE, tL)
    {
      AtEnds(x1, dx);
      AtEnds(y1, dy);
      if tL < 1.0 {
        x2 := x1 + tL * dx;
        y2 := y1 + tL * dy;
      }
      if tE > 0.0 {
        x1 := x1 + tE * dx;
        y1 := y1 + tE * dy;
      }
    }
  }

  lemma AtEnds(p: real, d: real)
    ensures At(p, d, 0.0) == p && At(p, d, 1.0) == p + d
  {}

  /** The four calls of clipT, each made only if those before it succeeded. */
  method ClipRange(c: Window, x: real, y: real, dx: real, dy: real) returns (ok: bool, tE: real, tL: real)
    ensures ok ==> 0.0 <= tE <= tL <= 1.0
    ensures ok ==> forall t :: 0.0 <= t <= 1.0 ==>
      (PassesAxis(c.x1, c.x2, x, dx, t) && PassesAxis(c.y1, c.y2, y, dy, t) <==> tE <= t <= tL)
    ensures !ok ==> forall t :: 0.0 <= t <= 1.0 ==>
      !(PassesAxis(c.x1, c.x2, x, dx, t) && PassesAxis(c.y1, c.y2, y, dy, t))
  {
    tE, tL := 0.0, 1.0;
    ok, tE, tL := ClipT(c.x1 - x, dx, tE, tL);
    if !ok { return; }
    ok, tE, tL := ClipT(x - c.x2, -dx, tE, tL);
    if !ok { return; }
    ok, tE, tL := ClipT(c.y1 - y, dy, tE, tL);
    if !ok { return; }
    ok, tE, tL := ClipT(y - c.y2, -dy, tE, tL);
  }

  // ----- What passing means in the window

  /** A coordinate that does not move, or moves by no less than the tolerance. */
  predicate Fair(d: real) {
    d == 0.0 || !IsZero(d)
  }

  predicate FairSegment(e: Ends) {
    Fair(e.x2 - e.x1) && Fair(e.y2 - e.y1)
  }

  lemma FairAxis(lo: real, hi: real, p: real, d: real, t: real)
    requires Fair(d)
    ensures PassesAxis(lo, hi, p, d, t) ==> lo <= At(p, d, t) <= hi
    ensures lo < At(p, d, t) < hi ==> PassesAxis(lo, hi, p, d, t)
    ensures d != 0.0 ==> (PassesAxis(lo, hi, p, d, t) <==> lo <= At(p, d, t) <= hi)
    ensures d == 0.0 ==> (PassesAxis(lo, hi, p, d, t) <==> lo < p < hi)
  {
    assert t * -d == -(t * d);
  }

  lemma FairDot(c: Window, e: Ends, t: real)
    requires FairSegment(e) && IsDot(c, e)
    ensures PointInside(c, XAt(e, t), YAt(e, t))
  {
    assert XAt(e, t) == e.x1 && YAt(e, t) == e.y1;
  }

  /** Some point of the segment is in the window, borders included. */
  ghost predicate Visible(c: Window, e: Ends) {
    exists t :: 0.0 <= t <= 1.0 && PointInside(c, XAt(e, t), YAt(e, t))
  }

  /** The segment is parallel to a side of the window and on that side's line. */
  predicate AlongBorder(c: Window, e: Ends) {
    || (e.x2 == e.x1 && (e.x1 == c.x1 || e.x1 == c.x2))
    || (e.y2 == e.y1 && (e.y1 == c.y1 || e.y1 == c.y2))
  }

  /** Along a border nothing passes; otherwise what passes is what is in the window. */
  lemma FairPasses(c: Window, e: Ends, t: real)
    requires FairSegment(e)
    ensures PassesAll(c, e, t) <==> PointInside(c, XAt(e, t), YAt(e, t)) && !AlongBorder(c, e)
  {
    FairAxis(c.x1, c.x2, e.x1, e.x2 - e.x1, t);
    FairAxis(c.y1, c.y2, e.y1, e.y2 - e.y1, t);
  }

  /** For fair segments: clip_line keeps one if and only if some point of it is in the window, save
      that it rejects one along a border, unless that is a point; and of one that it keeps, it
      keeps exactly the points in the window. */
  ghost predicate FairlyClipped(c: Window, e: Ends, ret: int, tE: real, tL: real) {
    && (ret == 1 <==> Visible(c, e) && (IsDot(c, e) || !AlongBorder(c, e)))
    && (ret == 1 ==>
          forall t :: 0.0 <= t <= 1.0 ==> (PointInside(c, XAt(e, t), YAt(e, t)) <==> tE <= t <= tL))
  }

  lemma FairIsExact(c: Window, e: Ends, ret: int, tE: real, tL: real)
    requires FairSegment(e)
    requires IsDot(c, e) ==> ret == 1 && tE == 0.0 && tL == 1.0
    requires !IsDot(c, e) ==> (ret == 1 <==> exists t :: 0.0 <= t <= 1.0 && PassesAll(c, e, t))
    requires ret == 1 && !IsDot(c, e) ==> forall t :: 0.0 <= t <= 1.0 ==> (PassesAll(c, e, t) <==> tE <= t <= tL)
    ensures FairlyClipped(c, e, ret, tE, tL)
  {
    if IsDot(c, e) {
      forall t ensures PointInside(c, XAt(e, t), YAt(e, t)) { FairDot(c, e, t); }
      assert PointInside(c, XAt(e, 0.0), YAt(e, 0.0));
    } else {
      forall t ensures PassesAll(c, e, t) <==> PointInside(c, XAt(e, t), YAt(e, t)) && !AlongBorder(c, e) {
        FairPasses(c, e, t);
      }
      if ret == 1 {
        var u :| 0.0 <= u <= 1.0 && PassesAll(c, e, u);
        assert PointInside(c, XAt(e, u), YAt(e, u));
      }
    }
  }

  /** A segment along a side of the window, all of it visible, of which no parameter passes. */
  lemma BorderIsRejected()
    ensures var c, e := Window(0.0, 0.0, 1.0, 1.0), Ends(0.0, 0.25, 0.0, 0.75);
      && FairSegment(e) && !IsDot(c, e) && (forall t :: !PassesAll(c, e, t))
      && (forall t :: 0.0 <= t <= 1.0 ==> PointInside(c, XAt(e, t), YAt(e, t)))
  {
    var c, e := Window(0.0, 0.0, 1.0, 1.0), Ends(0.0, 0.25, 0.0, 0.75);
    forall t ensures !PassesAll(c, e, t) { FairPasses(c, e, t); }
  }

  // ----- A coordinate that moves by less than the tolerance

  /** The test of a coordinate is right: where it passes, the coordinate is in range, and where it
      does not, not strictly so. */
  ghost predicate AxisIsRight(lo: real, hi: real, p: real, d: real) {
    forall t :: 0.0 <= t <= 1.0 ==>
      if PassesAxis(lo, hi, p, d, t) then lo <= At(p, d, t) <= hi else !(lo < At(p, d, t) < hi)
  }

  /** That is so if and only if the end agrees with the start: it is in the range too, or on the
      same side of it. */
  lemma TinyAxisIsRightIff(lo: real, hi: real, p: real, d: real)
    requires IsZero(d) && lo < hi
    ensures AxisIsRight(lo, hi, p, d) <==>
      if lo < p < hi then lo <= p + d <= hi else (p <= lo && p + d <= lo) || (p >= hi && p + d >= hi)
  {
    assert forall t :: PassesAxis(lo, hi, p, d, t) <==> lo < p < hi;
    AtEnds(p, d);
    assert At(p, d, 1.0) == p + d && (lo < p < hi <==> PassesAxis(lo, hi, p, d, 1.0));
    forall t | 0.0 <= t <= 1.0 ensures (p <= At(p, d, t) <= p + d) || (p + d <= At(p, d, t) <= p) {
      AtIsBetween(p, d, t);
    }
    if !(lo < p < hi) && !((p <= lo && p + d <= lo) || (p >= hi && p + d >= hi)) {
      var q := if p <= lo then (if p + d < hi then (lo + p + d) / 2.0 else (lo + hi) / 2.0)
               else if p + d > lo then (hi + p + d) / 2.0 else (lo + hi) / 2.0;
      var t := (q - p) / d;
      Reaches(p, d, q);
      assert lo < At(p, d, t) < hi && !PassesAxis(lo, hi, p, d, t);
    }
  }

  /** Every point kept is in the window. */
  ghost predicate KeptInside(c: Window, e: Ends, tE: real, tL: real) {
    forall t :: tE <= t <= tL ==> PointInside(c, XAt(e, t), YAt(e, t))
  }

  lemma KeptAxis(lo: real, hi: real, p: real, d: real, t: real, tL: real)
    requires 0.0 <= t <= tL <= 1.0 && lo <= At(p, d, tL) <= hi
    requires PassesAxis(lo, hi, p, d, t) || lo <= p <= hi
    ensures lo <= At(p, d, t) <= hi
  {
    if Fair(d) && PassesAxis(lo, hi, p, d, t) {
      FairAxis(lo, hi, p, d, t);
    } else {
      SignOfProduct(t, d);
      SignOfProduct(tL - t, d);
      assert (tL - t) * d == tL * d - t * d;
    }
  }

  /** For all segments, whatever they move by: all that is kept is in the window if and only if its
      new end is. */
  lemma KeptInsideIff(c: Window, e: Ends, tE: real, tL: real)
    requires 0.0 <= tE <= tL <= 1.0
    requires IsDot(c, e) || forall t :: tE <= t <= tL ==> PassesAll(c, e, t)
    ensures KeptInside(c, e, tE, tL) <==> PointInside(c, XAt(e, tL), YAt(e, tL))
  {
    if PointInside(c, XAt(e, tL), YAt(e, tL)) {
      assert c.x1 <= At(e.x1, e.x2 - e.x1, tL) <= c.x2 && c.y1 <= At(e.y1, e.y2 - e.y1, tL) <= c.y2;
      forall t | tE <= t <= tL ensures PointInside(c, XAt(e, t), YAt(e, t)) {
        assert IsDot(c, e) || PassesAll(c, e, t);
        KeptAxis(c.x1, c.x2, e.x1, e.x2 - e.x1, t, tL);
        KeptAxis(c.y1, c.y2, e.y1, e.y2 - e.y1, t, tL);
      }
    }
  }

  lemma AtIsBetween(p: real, d: real, t: real)
    requires 0.0 <= t <= 1.0
    ensures (p <= At(p, d, t) <= p + d) || (p + d <= At(p, d, t) <= p)
  {
    SignOfProduct(t, d);
    SignOfProduct(1.0 - t, d);
    assert (1.0 - t) * d == d - t * d;
  }

  lemma Reaches(p: real, d: real, q: real)
    requires d != 0.0 && (p <= q <= p + d || p + d <= q <= p)
    ensures 0.0 <= (q - p) / d <= 1.0 && At(p, d, (q - p) / d) == q
  {
    var t := (q - p) / d;
    assert t * d == q - p;
    assert (t - 1.0) * d == q - p - d;
    assert (0.0 - t) * d == p - q;
    SignOfProduct(t - 1.0, d);
    SignOfProduct(0.0 - t, d);
  }

  /** A segment of this kind of which a point outside the window is kept. */
  lemma TinyGoesWrong()
    ensures var c, e := Window(0.0, 0.0, 1.0, 1.0), Ends(0.9999998, 0.25, 1.0000003, 0.75);
      PassesAll(c, e, 1.0) && !IsDot(c, e) && !PointInside(c, XAt(e, 1.0), YAt(e, 1.0))
  {}
}
