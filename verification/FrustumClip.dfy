/** clip_line of entity.c: cutting a segment in homogeneous coordinates to the frustum
    |x|, |y|, |z| <= w, one plane after the other. */
module FrustumClip {
  import opened Reals

  const ZERO_TOLERANCE := 0.000001

  /** Component k of a struct mat41; component 3 is w. */
  datatype Vec4 = Vec4(x: real, y: real, z: real, w: real)

  function Component(v: Vec4, k: nat): real {
    if k == 0 then v.x else if k == 1 then v.y else v.z
  }

  /** How far v is inside plane number p: planes 0, 2 and 4 bound a component by w from above, and
      1, 3 and 5 by -w from below. */
  function Depth(p: nat, v: Vec4): real {
    if p % 2 == 0 then v.w - Component(v, p / 2) else v.w + Component(v, p / 2)
  }

  /** Inside the first n planes. */
  predicate InsideFirst(n: nat, v: Vec4) {
    forall p :: 0 <= p < n ==> Depth(p, v) >= 0.0
  }

  predicate Inside(v: Vec4) {
    -v.w <= v.x <= v.w && -v.w <= v.y <= v.w && -v.w <= v.z <= v.w
  }

  lemma InsideIsAllPlanes(v: Vec4)
    ensures Inside(v) <==> InsideFirst(6, v)
  {
    assert Depth(0, v) == v.w - v.x && Depth(1, v) == v.w + v.x && Depth(2, v) == v.w - v.y
        && Depth(3, v) == v.w + v.y && Depth(4, v) == v.w - v.z && Depth(5, v) == v.w + v.z;
    assert InsideFirst(6, v) ==>
        Depth(0, v) >= 0.0 && Depth(1, v) >= 0.0 && Depth(2, v) >= 0.0
        && Depth(3, v) >= 0.0 && Depth(4, v) >= 0.0 && Depth(5, v) >= 0.0;
    if Inside(v) {
      forall p | 0 <= p < 6 ensures Depth(p, v) >= 0.0 {}
    }
  }

  function Mix(a: real, b: real, t: real): real {
    t * b + (1.0 - t) * a
  }

  /** mat41_lerp: the point at parameter t of the line through u and v. */
  function Lerp(u: Vec4, v: Vec4, t: real): Vec4 {
    Vec4(Mix(u.x, v.x, t), Mix(u.y, v.y, t), Mix(u.z, v.z, t), Mix(u.w, v.w, t))
  }

  // ----- The line, and the depth along it

  lemma LerpEnds(u: Vec4, v: Vec4)
    ensures Lerp(u, v, 0.0) == u && Lerp(u, v, 1.0) == v
  {}

  lemma MixOfMixes(a: real, b: real, s: real, s': real, t: real)
    ensures Mix(Mix(a, b, s), Mix(a, b, s'), t) == Mix(a, b, s + t * (s' - s))
  {
    calc {
      Mix(Mix(a, b, s), Mix(a, b, s'), t);
      t * (s' * b + (1.0 - s') * a) + (1.0 - t) * (s * b + (1.0 - s) * a);
      (s + t * (s' - s)) * b + (1.0 - (s + t * (s' - s))) * a;
      Mix(a, b, s + t * (s' - s));
    }
  }

  /** A point between points of a line is a point of the line. */
  lemma LerpOfLerps(u: Vec4, v: Vec4, s: real, s': real, t: real)
    ensures Lerp(Lerp(u, v, s), Lerp(u, v, s'), t) == Lerp(u, v, s + t * (s' - s))
  {
    MixOfMixes(u.x, v.x, s, s', t);
    MixOfMixes(u.y, v.y, s, s', t);
    MixOfMixes(u.z, v.z, s, s', t);
    MixOfMixes(u.w, v.w, s, s', t);
  }

  /** The depth changes at a constant rate along the line. */
  lemma DepthAlong(p: nat, u: Vec4, v: Vec4, s: real)
    ensures Depth(p, Lerp(u, v, s)) == Mix(Depth(p, u), Depth(p, v), s)
  {}

  lemma MixSlope(a: real, b: real, s: real, s': real)
    ensures Mix(a, b, s') - Mix(a, b, s) == (s' - s) * (b - a)
  {}

  /** Between two points inside a plane all points are inside, and between two outside all are
      outside. */
  lemma Between(p: nat, u: Vec4, v: Vec4, s: real, s0: real, s1: real)
    requires s0 <= s <= s1
    ensures Depth(p, Lerp(u, v, s0)) >= 0.0 && Depth(p, Lerp(u, v, s1)) >= 0.0 ==> Depth(p, Lerp(u, v, s)) >= 0.0
    ensures Depth(p, Lerp(u, v, s0)) < 0.0 && Depth(p, Lerp(u, v, s1)) < 0.0 ==> Depth(p, Lerp(u, v, s)) < 0.0
  {
    DepthAlong(p, u, v, s0);
    DepthAlong(p, u, v, s);
    DepthAlong(p, u, v, s1);
    MixBetween(Depth(p, u), Depth(p, v), s, s0, s1);
  }

  lemma MixBetween(a: real, b: real, s: real, s0: real, s1: real)
    requires s0 <= s <= s1
    ensures Mix(a, b, s0) >= 0.0 && Mix(a, b, s1) >= 0.0 ==> Mix(a, b, s) >= 0.0
    ensures Mix(a, b, s0) < 0.0 && Mix(a, b, s1) < 0.0 ==> Mix(a, b, s) < 0.0
  {
    MixSlope(a, b, s0, s);
    MixSlope(a, b, s, s1);
    Middle(Mix(a, b, s0), Mix(a, b, s), Mix(a, b, s1), s - s0, s1 - s, b - a);
  }

  lemma Middle(d0: real, d: real, d1: real, a: real, b: real, rate: real)
    requires a >= 0.0 && b >= 0.0 && d - d0 == a * rate && d1 - d == b * rate
    ensures d0 >= 0.0 && d1 >= 0.0 ==> d >= 0.0
    ensures d0 < 0.0 && d1 < 0.0 ==> d < 0.0
  {
    SignOfProduct(a, rate);
    SignOfProduct(b, rate);
  }

  // ----- Where the line meets a plane

  /** clip_line_pos: the parameter where the segment meets component = w, or -1. */
  function ClipLinePos(x0: real, w0: real, x1: real, w1: real): real {
    var denominator := w0 - w1 - x0 + x1;
    if Abs(denominator) < ZERO_TOLERANCE then -1.0
    else
      var t := (w0 - x0) / denominator;
      if 0.0 <= t <= 1.0 then t else -1.0
  }

  /** clip_line_neg: the same for component = -w. */
  function ClipLineNeg(x0: real, w0: real, x1: real, w1: real): real {
    var denominator := w0 - w1 + x0 - x1;
    if Abs(denominator) < ZERO_TOLERANCE then -1.0
    else
      var t := (w0 + x0) / denominator;
      if 0.0 <= t <= 1.0 then t else -1.0
  }

  function ClippingFunc(p: nat, u: Vec4, v: Vec4): real {
    if p % 2 == 0 then ClipLinePos(Component(u, p / 2), u.w, Component(v, p / 2), v.w)
    else ClipLineNeg(Component(u, p / 2), u.w, Component(v, p / 2), v.w)
  }

  /** is_outside_pos and is_outside_neg. */
  predicate IsOutside(p: nat, v: Vec4) {
    if p % 2 == 0 then Component(v, p / 2) > v.w else Component(v, p / 2) < -v.w
  }

  lemma OutsideIsDepth(p: nat, v: Vec4)
    ensures IsOutside(p, v) <==> Depth(p, v) < 0.0
  {}

  /** One end is outside, the other is not, and the depths differ by less than the tolerance. */
  predicate Shallow(p: nat, u: Vec4, v: Vec4) {
    IsOutside(p, u) != IsOutside(p, v) && Abs(Depth(p, u) - Depth(p, v)) < ZERO_TOLERANCE
  }

  lemma Ratio(d0: real, d1: real)
    requires d0 < 0.0 <= d1
    ensures 0.0 < d0 / (d0 - d1) <= 1.0 && Mix(d0, d1, d0 / (d0 - d1)) == 0.0
  {
    var t := d0 / (d0 - d1);
    assert t * (d0 - d1) == d0;
    assert t * (d1 - d0) == -d0;
    Fraction(t, d1 - d0, -d0);
  }

  lemma Fraction(t: real, whole: real, part: real)
    requires 0.0 < part <= whole && t * whole == part
    ensures 0.0 < t <= 1.0
  {
    assert (t - 1.0) * whole == part - whole;
    assert whole * t == part;
    if t > 1.0 {
      SignOfProduct(t - 1.0, whole);
    } else if t <= 0.0 {
      SignOfProduct(whole, t);
    }
  }

  /** For an outside end u and another v the parameter is that of the plane, in (0, 1], unless the
      cut is shallow: then it is -1. */
  lemma ClippingFinds(p: nat, u: Vec4, v: Vec4)
    requires IsOutside(p, u) && !IsOutside(p, v)
    ensures var t := ClippingFunc(p, u, v);
      if Shallow(p, u, v) then t == -1.0 else 0.0 < t <= 1.0 && Depth(p, Lerp(u, v, t)) == 0.0
  {
    var d0, d1 := Depth(p, u), Depth(p, v);
    if !Shallow(p, u, v) {
      Ratio(d0, d1);
      DepthAlong(p, u, v, d0 / (d0 - d1));
      assert ClippingFunc(p, u, v) == d0 / (d0 - d1);
    }
  }

  // ----- One plane

  /** The ends after a plane that does not have both of them outside. */
  function Cut(p: nat, u: Vec4, v: Vec4): (Vec4, Vec4) {
    CutAt(IsOutside(p, u), IsOutside(p, v), ClippingFunc(p, u, v), ClippingFunc(p, v, u), u, v)
  }

  /** The ends when the one that is outside moves towards the other by a part of the way. */
  function CutAt(out0: bool, out1: bool, t0: real, t1: real, u: Vec4, v: Vec4): (Vec4, Vec4) {
    if out0 && !out1 then (Lerp(u, v, t0), v)
    else if !out0 && out1 then (u, Lerp(v, u, t1))
    else (u, v)
  }

  /** A cut leaves both ends inside the plane if and only if it is not shallow. */
  lemma CutIsInside(p: nat, u: Vec4, v: Vec4)
    requires !(IsOutside(p, u) && IsOutside(p, v))
    ensures (Depth(p, Cut(p, u, v).0) >= 0.0 && Depth(p, Cut(p, u, v).1) >= 0.0) <==> !Shallow(p, u, v)
  {
    OutsideIsDepth(p, u);
    OutsideIsDepth(p, v);
    if IsOutside(p, u) && !IsOutside(p, v) {
      ClippingFinds(p, u, v);
      DepthAlong(p, u, v, -1.0);
    } else if !IsOutside(p, u) && IsOutside(p, v) {
      ClippingFinds(p, v, u);
      DepthAlong(p, v, u, -1.0);
    }
  }

  /** The ends are points s0 and s1 of the segment from a to b, in that order, and no point of it
      inside the first n planes is left out. */
  ghost predicate Covers(a: Vec4, b: Vec4, u: Vec4, v: Vec4, s0: real, s1: real, n: nat) {
    && u == Lerp(a, b, s0) && v == Lerp(a, b, s1) && s0 <= s1
    && (forall s :: 0.0 <= s <= 1.0 && InsideFirst(n, Lerp(a, b, s)) ==> s0 <= s <= s1)
  }

  /** The ends are on the segment and inside the first n planes. */
  ghost predicate Tight(u: Vec4, v: Vec4, s0: real, s1: real, n: nat) {
    0.0 <= s0 && s1 <= 1.0 && InsideFirst(n, u) && InsideFirst(n, v)
  }

  /** Where the cut moves the two parameters. */
  function CutParameters(p: nat, u: Vec4, v: Vec4, s0: real, s1: real): (real, real) {
    MoveAt(IsOutside(p, u), IsOutside(p, v), ClippingFunc(p, u, v), ClippingFunc(p, v, u), s0, s1)
  }

  function MoveAt(out0: bool, out1: bool, t0: real, t1: real, s0: real, s1: real): (real, real) {
    if out0 && !out1 then (s0 + t0 * (s1 - s0), s1)
    else if !out0 && out1 then (s0, s1 + t1 * (s0 - s1))
    else (s0, s1)
  }

  lemma LerpAgain(a: Vec4, b: Vec4, u: Vec4, v: Vec4, s0: real, s1: real, t: real)
    requires u == Lerp(a, b, s0) && v == Lerp(a, b, s1)
    ensures Lerp(u, v, t) == Lerp(a, b, s0 + t * (s1 - s0))
  {
    LerpOfLerps(a, b, s0, s1, t);
  }

  /** A parameter moved by part of the way stays between, and the other way goes beyond. */
  lemma MovedParameter(s0: real, s1: real, t: real, s: real)
    requires s0 <= s1 && s == s0 + t * (s1 - s0)
    ensures 0.0 < t <= 1.0 ==> s0 <= s <= s1
    ensures t == -1.0 ==> s <= s0
  {
    if 0.0 < t <= 1.0 {
      SignOfProduct(t, s1 - s0);
      SignOfProduct(1.0 - t, s1 - s0);
      assert (1.0 - t) * (s1 - s0) == (s1 - s0) - t * (s1 - s0);
    }
  }

  lemma MovedBack(s0: real, s1: real, t: real, s: real)
    requires s0 <= s1 && s == s1 + t * (s0 - s1)
    ensures 0.0 < t <= 1.0 ==> s0 <= s <= s1
    ensures t == -1.0 ==> s1 <= s
  {
    assert t * (s0 - s1) == -(t * (s1 - s0));
    MovedParameter(s0, s1, t, s1 + s0 - s);
  }

  /** Between a root and a point with a negative value, all values are negative. */
  lemma BeyondRoot(a: real, b: real, root: real, out: real, s: real)
    requires Mix(a, b, root) == 0.0 && Mix(a, b, out) < 0.0
    requires out <= s < root || root < s <= out
    ensures Mix(a, b, s) < 0.0
  {
    MixSlope(a, b, out, root);
    MixSlope(a, b, s, root);
    SameSign(root - out, root - s, b - a, Mix(a, b, out), Mix(a, b, s));
  }

  lemma SameSign(x: real, y: real, rate: real, d: real, e: real)
    requires -d == x * rate && -e == y * rate && d < 0.0
    requires 0.0 < y <= x || x <= y < 0.0
    ensures e < 0.0
  {
    if y > 0.0 {
      if rate <= 0.0 { SignOfProduct(x, rate); }
      SignOfProduct(y, rate);
    } else {
      assert (-x) * (-rate) == x * rate && (-y) * (-rate) == y * rate;
      if rate >= 0.0 { SignOfProduct(-x, -rate); }
      SignOfProduct(-y, -rate);
    }
  }

  lemma PointBeyond(p: nat, a: Vec4, b: Vec4, root: real, out: real, s: real)
    requires Depth(p, Lerp(a, b, root)) == 0.0 && Depth(p, Lerp(a, b, out)) < 0.0
    requires out <= s < root || root < s <= out
    ensures Depth(p, Lerp(a, b, s)) < 0.0
  {
    DepthAlong(p, a, b, root);
    DepthAlong(p, a, b, out);
    DepthAlong(p, a, b, s);
    BeyondRoot(Depth(p, a), Depth(p, b), root, out, s);
  }

  /** An end moved to parameter s, to the plane or away from the other end, leaves out no point. */
  lemma CoversOneMore(p: nat, a: Vec4, b: Vec4, u: Vec4, v: Vec4, s0: real, s1: real, s0': real, s1': real)
    requires Covers(a, b, u, v, s0, s1, p) && s0' <= s1'
    requires s0' <= s0 || (Depth(p, u) < 0.0 && Depth(p, Lerp(a, b, s0')) == 0.0)
    requires s1 <= s1' || (Depth(p, v) < 0.0 && Depth(p, Lerp(a, b, s1')) == 0.0)
    ensures Covers(a, b, Lerp(a, b, s0'), Lerp(a, b, s1'), s0', s1', p + 1)
  {
    forall s | 0.0 <= s <= 1.0 && InsideFirst(p + 1, Lerp(a, b, s)) ensures s0' <= s <= s1' {
      assert Depth(p, Lerp(a, b, s)) >= 0.0;
      assert InsideFirst(p, Lerp(a, b, s));
      if s < s0' { PointBeyond(p, a, b, s0', s0, s); }
      if s > s1' { PointBeyond(p, a, b, s1', s1, s); }
    }
  }

  lemma InsideBetween(n: nat, a: Vec4, b: Vec4, s: real, s0: real, s1: real)
    requires InsideFirst(n, Lerp(a, b, s0)) && InsideFirst(n, Lerp(a, b, s1)) && s0 <= s <= s1
    ensures InsideFirst(n, Lerp(a, b, s))
  {
    forall p | 0 <= p < n ensures Depth(p, Lerp(a, b, s)) >= 0.0 {
      Between(p, a, b, s, s0, s1);
    }
  }

  lemma TightOneMore(p: nat, a: Vec4, b: Vec4, u: Vec4, v: Vec4, s0: real, s1: real, s0': real, s1': real)
    requires Covers(a, b, u, v, s0, s1, p) && Tight(u, v, s0, s1, p) && s0 <= s0' <= s1 && s0 <= s1' <= s1
    requires Depth(p, Lerp(a, b, s0')) >= 0.0 && Depth(p, Lerp(a, b, s1')) >= 0.0
    ensures Tight(Lerp(a, b, s0'), Lerp(a, b, s1'), s0', s1', p + 1)
  {
    InsideBetween(p, a, b, s0', s0, s1);
    InsideBetween(p, a, b, s1', s0, s1);
  }

  lemma LeftStep(p: nat, a: Vec4, b: Vec4, u: Vec4, v: Vec4, s0: real, s1: real, t: real)
    requires Covers(a, b, u, v, s0, s1, p) && Depth(p, u) < 0.0 <= Depth(p, v)
    requires t == -1.0 || (0.0 < t <= 1.0 && Depth(p, Lerp(u, v, t)) == 0.0)
    ensures Covers(a, b, Lerp(u, v, t), v, s0 + t * (s1 - s0), s1, p + 1)
    ensures Tight(u, v, s0, s1, p) && t != -1.0 ==> Tight(Lerp(u, v, t), v, s0 + t * (s1 - s0), s1, p + 1)
  {
    var s := s0 + t * (s1 - s0);
    LerpAgain(a, b, u, v, s0, s1, t);
    MovedParameter(s0, s1, t, s);
    CoversOneMore(p, a, b, u, v, s0, s1, s, s1);
    if Tight(u, v, s0, s1, p) && t != -1.0 { TightOneMore(p, a, b, u, v, s0, s1, s, s1); }
  }

  lemma RightStep(p: nat, a: Vec4, b: Vec4, u: Vec4, v: Vec4, s0: real, s1: real, t: real)
    requires Covers(a, b, u, v, s0, s1, p) && Depth(p, v) < 0.0 <= Depth(p, u)
    requires t == -1.0 || (0.0 < t <= 1.0 && Depth(p, Lerp(v, u, t)) == 0.0)
    ensures Covers(a, b, u, Lerp(v, u, t), s0, s1 + t * (s0 - s1), p + 1)
    ensures Tight(u, v, s0, s1, p) && t != -1.0 ==> Tight(u, Lerp(v, u, t), s0, s1 + t * (s0 - s1), p + 1)
  {
    var s := s1 + t * (s0 - s1);
    LerpAgain(a, b, v, u, s1, s0, t);
    MovedBack(s0, s1, t, s);
    CoversOneMore(p, a, b, u, v, s0, s1, s0, s);
    if Tight(u, v, s0, s1, p) && t != -1.0 { TightOneMore(p, a, b, u, v, s0, s1, s0, s); }
  }

  /** t is the right clipping parameter for the ends u and v. */
  predicate GoodParameter(p: nat, u: Vec4, v: Vec4, t: real, shallow: bool) {
    if shallow then t == -1.0 else 0.0 < t <= 1.0 && Depth(p, Lerp(u, v, t)) == 0.0
  }

  lemma CutStepAt(p: nat, a: Vec4, b: Vec4, u: Vec4, v: Vec4, s0: real, s1: real,
                  out0: bool, out1: bool, t0: real, t1: real, shallow: bool)
    requires Covers(a, b, u, v, s0, s1, p)
    requires out0 == (Depth(p, u) < 0.0) && out1 == (Depth(p, v) < 0.0) && !(out0 && out1)
    requires out0 ==> GoodParameter(p, u, v, t0, shallow)
    requires out1 ==> GoodParameter(p, v, u, t1, shallow)
    ensures var c, s := CutAt(out0, out1, t0, t1, u, v), MoveAt(out0, out1, t0, t1, s0, s1);
      && Covers(a, b, c.0, c.1, s.0, s.1, p + 1)
      && (Tight(u, v, s0, s1, p) && !shallow ==> Tight(c.0, c.1, s.0, s.1, p + 1))
  {
    if out0 {
      LeftStep(p, a, b, u, v, s0, s1, t0);
    } else if out1 {
      RightStep(p, a, b, u, v, s0, s1, t1);
    } else {
      CoversOneMore(p, a, b, u, v, s0, s1, s0, s1);
    }
  }

  /** One plane's work keeps the cover, and if the cut is not shallow, keeps it tight. */
  lemma CutStep(p: nat, a: Vec4, b: Vec4, u: Vec4, v: Vec4, s0: real, s1: real)
    requires Covers(a, b, u, v, s0, s1, p) && !(IsOutside(p, u) && IsOutside(p, v))
    ensures var c, s := Cut(p, u, v), CutParameters(p, u, v, s0, s1);
      && Covers(a, b, c.0, c.1, s.0, s.1, p + 1)
      && (Tight(u, v, s0, s1, p) && !Shallow(p, u, v) ==> Tight(c.0, c.1, s.0, s.1, p + 1))
  {
    GoodCut(p, u, v);
    GoodCut(p, v, u);
    CutStepAt(p, a, b, u, v, s0, s1, IsOutside(p, u), IsOutside(p, v),
              ClippingFunc(p, u, v), ClippingFunc(p, v, u), Shallow(p, u, v));
  }

  lemma GoodCut(p: nat, u: Vec4, v: Vec4)
    ensures IsOutside(p, u) == (Depth(p, u) < 0.0) && Shallow(p, u, v) == Shallow(p, v, u)
    ensures IsOutside(p, u) && !IsOutside(p, v) ==> GoodParameter(p, u, v, ClippingFunc(p, u, v), Shallow(p, u, v))
  {
    OutsideIsDepth(p, u);
    if IsOutside(p, u) && !IsOutside(p, v) { ClippingFinds(p, u, v); }
  }

  /** If both ends are outside one plane, no point of the segment is inside all. */
  lemma RejectIsRight(p: nat, a: Vec4, b: Vec4, u: Vec4, v: Vec4, s0: real, s1: real, s: real)
    requires p < 6 && Covers(a, b, u, v, s0, s1, p) && IsOutside(p, u) && IsOutside(p, v) && 0.0 <= s <= 1.0
    ensures !Inside(Lerp(a, b, s))
  {
    OutsideIsDepth(p, u);
    OutsideIsDepth(p, v);
    InsideIsAllPlanes(Lerp(a, b, s));
    if InsideFirst(6, Lerp(a, b, s)) {
      assert InsideFirst(p, Lerp(a, b, s));
      Between(p, a, b, s, s0, s1);
    }
  }

  // ----- All planes

  /** The ends before plane n, if no plane up to there has both of them outside. */
  function Ends(a: Vec4, b: Vec4, n: nat): (Vec4, Vec4) {
    if n == 0 then (a, b) else Cut(n - 1, Ends(a, b, n - 1).0, Ends(a, b, n - 1).1)
  }

  /** No cut of the run is shallow. */
  predicate NoShallowCut(a: Vec4, b: Vec4) {
    forall p :: 0 <= p < 6 ==> !Shallow(p, Ends(a, b, p).0, Ends(a, b, p).1)
  }

  /** struct mat41. */
  class Mat41 {
    var m: Vec4
    constructor (m: Vec4) ensures this.m == m { this.m := m; }
  }

  /** The loop's work for one plane. */
  method ClipToPlane(plane: nat, vtx0: Mat41, vtx1: Mat41, isOutside0: bool, isOutside1: bool)
    requires isOutside0 == IsOutside(plane, vtx0.m) && isOutside1 == IsOutside(plane, vtx1.m)
    modifies vtx0, vtx1
    ensures (vtx0.m, vtx1.m) == Cut(plane, old(vtx0.m), old(vtx1.m))
  {
    if isOutside0 && !isOutside1 {
      var t := ClippingFunc(plane, vtx0.m, vtx1.m);
      vtx0.m := Lerp(vtx0.m, vtx1.m, t);
    } else if !isOutside0 && isOutside1 {
      var t := ClippingFunc(plane, vtx1.m, vtx0.m);
      vtx1.m := Lerp(vtx1.m, vtx0.m, t);
    }
  }

  /** Between parameters s0 and s1 are exactly the points of the segment that are inside. */
  ghost predicate KeptExactly(a: Vec4, b: Vec4, s0: real, s1: real) {
    forall s :: s0 <= s <= s1 <==> 0.0 <= s <= 1.0 && Inside(Lerp(a, b, s))
  }

  /** clip_line. A return of 1 means that no point of the segment is inside, and a return of 0 that
      none inside is left out. The points kept are exactly those inside if and only if both new ends
      are such points; and they are if no cut was shallow. */
  method ClipLine(vtx0: Mat41, vtx1: Mat41) returns (ret: int, ghost s0: real, ghost s1: real)
    modifies vtx0, vtx1
    ensures ret == 0 || ret == 1
    ensures ret == 1 ==> forall s :: 0.0 <= s <= 1.0 ==> !Inside(Lerp(old(vtx0.m), old(vtx1.m), s))
    ensures ret == 0 ==> (vtx0.m, vtx1.m) == Ends(old(vtx0.m), old(vtx1.m), 6)
    ensures ret == 0 ==> Covers(old(vtx0.m), old(vtx1.m), vtx0.m, vtx1.m, s0, s1, 6)
    ensures ret == 0 ==> (KeptExactly(old(vtx0.m), old(vtx1.m), s0, s1)
                          <==> 0.0 <= s0 && s1 <= 1.0 && Inside(vtx0.m) && Inside(vtx1.m))
    ensures ret == 0 && NoShallowCut(old(vtx0.m), old(vtx1.m)) ==>
      KeptExactly(old(vtx0.m), old(vtx1.m), s0, s1)
  {
    ghost var a, b := vtx0.m, vtx1.m;
    LerpEnds(a, b);
    s0, s1 := 0.0, 1.0;
    for plane := 0 to 6
      invariant (vtx0.m, vtx1.m) == Ends(a, b, plane)
      invariant Covers(a, b, vtx0.m, vtx1.m, s0, s1, plane)
      invariant NoShallowCut(a, b) ==> Tight(vtx0.m, vtx1.m, s0, s1, plane)
    {
      var isOutside0, isOutside1 := IsOutside(plane, vtx0.m), IsOutside(plane, vtx1.m);
      if isOutside0 && isOutside1 {
        forall s | 0.0 <= s <= 1.0 ensures !Inside(Lerp(a, b, s)) {
          RejectIsRight(plane, a, b, vtx0.m, vtx1.m, s0, s1, s);
        }
        return 1, s0, s1;
      }
      CutStep(plane, a, b, vtx0.m, vtx1.m, s0, s1);
      ghost var moved := CutParameters(plane, vtx0.m, vtx1.m, s0, s1);
      ClipToPlane(plane, vtx0, vtx1, isOutside0, isOutside1);
      s0, s1 := moved.0, moved.1;
    }
    ret := 0;
    KeptIsInside(a, b, vtx0.m, vtx1.m, s0, s1);
  }

  lemma KeptIsInside(a: Vec4, b: Vec4, u: Vec4, v: Vec4, s0: real, s1: real)
    requires Covers(a, b, u, v, s0, s1, 6)
    ensures Tight(u, v, s0, s1, 6) <==> 0.0 <= s0 && s1 <= 1.0 && Inside(u) && Inside(v)
    ensures Tight(u, v, s0, s1, 6) <==> KeptExactly(a, b, s0, s1)
  {
    InsideIsAllPlanes(u);
    InsideIsAllPlanes(v);
    forall s | Tight(u, v, s0, s1, 6)
      ensures s0 <= s <= s1 <==> 0.0 <= s <= 1.0 && Inside(Lerp(a, b, s))
    {
      InsideIsAllPlanes(Lerp(a, b, s));
      if s0 <= s <= s1 { InsideBetween(6, a, b, s, s0, s1); }
    }
    assert KeptExactly(a, b, s0, s1) ==> s0 <= s0 <= s1 && s0 <= s1 <= s1;
  }

  /** Why the condition is needed: a segment that starts just outside and ends on the plane is kept,
      with the start moved farther out, where the other planes leave it. */
  lemma ShallowCutGoesWrong()
    ensures var a, b, c := Vec4(1.0000005, 0.0, 0.0, 1.0), Vec4(1.0, 0.0, 0.0, 1.0), Vec4(1.000001, 0.0, 0.0, 1.0);
      && Cut(0, a, b) == (c, b) && !Inside(c)
      && forall p :: 1 <= p < 6 ==> !IsOutside(p, c) && !IsOutside(p, b) && Cut(p, c, b) == (c, b)
  {}
}
