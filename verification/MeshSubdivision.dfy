/** The geometry of mesh_fracture.c: how a hull triangle is cut across its longest edge, the
    leaves that the cutting leaves behind, and what they keep of the triangle they came from.
    Arithmetic is over the reals. */
module MeshSubdivision {
  import opened MeshCuts

  // ----- Where an edge is cut

  /** Rounding to the nearest integer, halves to the even one. */
  function Round(x: real): int {
    var f := x.Floor;
    var r := x - f as real;
    if r < 0.5 || (r == 0.5 && f % 2 == 0) then f else f + 1
  }

  datatype Grid = Grid(x: int, y: int, z: int)

  function Quantise(a: Vec): Grid {
    Grid(Round(a.x * 4096.0), Round(a.y * 4096.0), Round(a.z * 4096.0))
  }

  /** The end that sorts second is given first. */
  predicate Swapped(qa: Grid, qb: Grid) {
    qa.x > qb.x || (qa.x == qb.x && (qa.y > qb.y || (qa.y == qb.y && qa.z > qb.z)))
  }

  function Word(i: int): bv32 { (i % 0x1_0000_0000) as bv32 }

  function Hash3(x: bv32, y: bv32, z: bv32, seed: bv32): bv32 {
    var h := seed * 0x9e3779b1;
    var h := h ^ (x * 0x85ebca6b);
    var h := (h << 13) | (h >> 19);
    var h := h ^ (y * 0xc2b2ae35);
    var h := (h << 17) | (h >> 15);
    var h := h ^ (z * 0x27d4eb2f);
    var h := h ^ (h >> 16);
    var h := h * 0x7feb352d;
    var h := h ^ (h >> 15);
    var h := h * 0x846ca68b;
    h ^ (h >> 16)
  }

  /** The hash of an edge, from its end that sorts first. */
  function EdgeHash(seed: bv32): (Grid, Grid) -> nat {
    (q: Grid, r: Grid) =>
      Hash3(Word(q.x) ^ Word(r.x * 31), Word(q.y) ^ Word(r.y * 37), Word(q.z) ^ Word(r.z * 41),
            seed) as nat
  }

  /** What the cutting of a hull goes by: the square of the longest edge to leave, and the hash. */
  datatype Cutting = Cutting(maxEdge2: real, hash: (Grid, Grid) -> nat) {

    /** How far along from the end that sorts first an edge is cut: 0.3 to 0.7 of the way. */
    function SortedRatio(q: Grid, r: Grid): (f: real)
      ensures 0.3 <= f <= 0.7
    {
      0.3 + 0.4 * (hash(q, r) % 0x1_0000) as real / 65535.0
    }

    /** split_ratio, turned by the caller to run from the end given first. */
    function Ratio(a: Vec, b: Vec): (f: real)
      ensures 0.3 <= f <= 0.7
    {
      var qa, qb := Quantise(a), Quantise(b);
      Oriented(qa, qb, SortedRatio(qa, qb), SortedRatio(qb, qa))
    }

    function CutPoint(a: Vec, b: Vec): Vec {
      a.Toward(b, Ratio(a, b))
    }

    function CutFraction(t: Tri): (f: real)
      ensures 0.3 <= f <= 0.7
    {
      var i := LongestEdge(t);
      Ratio(t.p.At(i), t.p.At(Next(i)))
    }

    /** split_triangle: the half that keeps the edge's first end. */
    function FirstHalf(t: Tri): Tri {
      Cutoff(t, Next(LongestEdge(t)), LongestEdge(t), CutFraction(t))
    }

    /** And the half that keeps its second end. */
    function SecondHalf(t: Tri): Tri {
      Cutoff(t, LongestEdge(t), LongestEdge(t), CutFraction(t))
    }

    predicate Small(t: Tri) {
      Edge2(t, LongestEdge(t)) <= maxEdge2
    }

    function AsCutter(): Cutter {
      Cutter((t: Tri) => Small(t), (t: Tri) => LongestEdge(t), (t: Tri) => CutFraction(t),
             (t: Tri) => FirstHalf(t), (t: Tri) => SecondHalf(t))
    }
  }

  function Oriented(qa: Grid, qb: Grid, forward: real, backward: real): real {
    if Swapped(qa, qb) then 1.0 - backward else forward
  }

  lemma OrientedReversed(qa: Grid, qb: Grid, forward: real, backward: real)
    requires qa != qb
    ensures Oriented(qb, qa, backward, forward) == 1.0 - Oriented(qa, qb, forward, backward)
  {}

  lemma TowardReversed(a: Vec, b: Vec, f: real)
    ensures a.Toward(b, f) == b.Toward(a, 1.0 - f)
  {}

  /** The triangles either side of a shared edge cut it at the same point, if its ends do not
      round to the same grid point. */
  lemma SharedEdgeCutAlike(C: Cutting, a: Vec, b: Vec)
    requires Quantise(a) != Quantise(b)
    ensures C.CutPoint(a, b) == C.CutPoint(b, a)
  {
    var qa, qb := Quantise(a), Quantise(b);
    OrientedReversed(qa, qb, C.SortedRatio(qa, qb), C.SortedRatio(qb, qa));
    TowardReversed(a, b, C.Ratio(a, b));
  }

  lemma NotHalfWay(h: int)
    ensures 0.3 + 0.4 * h as real / 65535.0 != 0.5
  {
    assert 2 * h != 65535;
    assert (2 * h) as real != 65535.0;
  }

  /** No edge is cut in the middle: the hash would have to be 32767.5. */
  lemma NeverInTheMiddle(C: Cutting, a: Vec, b: Vec)
    ensures C.Ratio(a, b) != 0.5
  {
    var qa, qb := Quantise(a), Quantise(b);
    NotHalfWay(C.hash(qa, qb) % 0x1_0000);
    NotHalfWay(C.hash(qb, qa) % 0x1_0000);
  }

  /** When both ends round to the same grid point the two sides measure the same ratio from
      opposite ends, so they agree only about an edge without length. */
  lemma IndistinctEndsCutAlike(C: Cutting, a: Vec, b: Vec)
    requires Quantise(a) == Quantise(b)
    ensures C.CutPoint(a, b) == C.CutPoint(b, a) <==> a == b
  {
    var f := C.Ratio(a, b);
    assert C.Ratio(b, a) == f;
    NeverInTheMiddle(C, a, b);
    TowardReversed(b, a, f);
    TowardBothWays(a, b, f);
  }

  /** A short edge along the x axis, cut at two places. */
  lemma TinyEdgeCutTwice(C: Cutting)
    ensures var a, b := Vec(0.0, 0.0, 0.0), Vec(0.0001, 0.0, 0.0);
      C.CutPoint(a, b) != C.CutPoint(b, a)
  {
    IndistinctEndsCutAlike(C, Vec(0.0, 0.0, 0.0), Vec(0.0001, 0.0, 0.0));
  }

  lemma TowardBothWays(a: Vec, b: Vec, f: real)
    ensures a.Toward(b, f) == a.Toward(b, 1.0 - f) <==> a == b || f == 0.5
  {
    var d := b.Minus(a);
    Scaled(d.x, f);
    Scaled(d.y, f);
    Scaled(d.z, f);
    var p, q := a.Toward(b, f), a.Toward(b, 1.0 - f);
    assert p.x == q.x <==> f * d.x == (1.0 - f) * d.x;
    assert p.y == q.y <==> f * d.y == (1.0 - f) * d.y;
    assert p.z == q.z <==> f * d.z == (1.0 - f) * d.z;
    assert a == b <==> d == Vec(0.0, 0.0, 0.0);
  }

  lemma Scaled(d: real, f: real)
    ensures f * d == (1.0 - f) * d <==> d == 0.0 || f == 0.5
  {
    assert f * d - (1.0 - f) * d == (2.0 * f - 1.0) * d;
  }

  // ----- Cutting a triangle in two, again and again

  function Edge2(t: Tri, i: Corner): real { Dist2(t.p.At(i), t.p.At(Next(i))) }

  /** The first of the longest edges. */
  function LongestEdge(t: Tri): (i: Corner)
    ensures forall j: Corner :: Edge2(t, j) <= Edge2(t, i)
    ensures forall j: Corner :: j < i ==> Edge2(t, j) < Edge2(t, i)
  {
    var i := if Edge2(t, 1) > Edge2(t, 0) then 1 else 0;
    if Edge2(t, 2) > Edge2(t, i) then 2 else i
  }

  /** t with corner k moved onto the point a fraction f along the edge from corner i. */
  function Cutoff(t: Tri, k: Corner, i: Corner, f: real): Tri {
    var j := Next(i);
    t.(p := t.p.Put(k, t.p.At(i).Toward(t.p.At(j), f)),
       n := t.n.Put(k, t.n.At(i).Toward(t.n.At(j), f)),
       uv := t.uv.Put(k, t.uv.At(i).Toward(t.uv.At(j), f)))
  }

  /** Every leaf has all its edges within the limit, or it was reached by 25 cuts. */
  lemma LeavesAreFine(C: Cutting, t: Tri, k: nat)
    requires k < C.AsCutter().Tree(t, 0).Size()
    ensures var tree := C.AsCutter().Tree(t, 0);
      || (tree.CutsTo(k) < MAX_DEPTH
          && forall i: Corner :: Edge2(tree.Leaves()[k], i) <= C.maxEdge2)
      || tree.CutsTo(k) == MAX_DEPTH
  {
    LeavesAreSmall(C.AsCutter(), t, 0, k);
    var l := C.AsCutter().Tree(t, 0).Leaves()[k];
    assert C.AsCutter().small(l) == C.Small(l);
  }

  // ----- What the leaves keep of the triangle

  /** Twice a triangle's area, along its normal. */
  function VectorArea(p: Triple<Vec>): Vec { p.b.Minus(p.a).Cross(p.c.Minus(p.a)) }

  function Centroid(p: Triple<Vec>): Vec {
    Vec((p.a.x + p.b.x + p.c.x) / 3.0, (p.a.y + p.b.y + p.c.y) / 3.0,
        (p.a.z + p.b.z + p.c.z) / 3.0)
  }

  /** The area that the C code computes: half the length of the vector area. */
  ghost predicate IsArea(area: Triple<Vec> -> real) {
    && NeverNegative(area)
    && forall p :: 4.0 * (area(p) * area(p)) == VectorArea(p).Dot(VectorArea(p))
  }

  ghost predicate NeverNegative(area: Triple<Vec> -> real) {
    forall p :: area(p) >= 0.0
  }

  // The vector area and the centroid do not depend on which corner comes first, so that a cut
  // of any edge is a cut of the first one.

  lemma Rotate(a: Vec, b: Vec, c: Vec)
    ensures VectorArea(Triple(a, b, c)) == VectorArea(Triple(b, c, a))
    ensures Centroid(Triple(a, b, c)) == Centroid(Triple(b, c, a))
  {
    var d, e := b.Minus(a), c.Minus(a);
    RotateCross(d, e);
    assert c.Minus(b) == e.Minus(d) && a.Minus(b) == d.Times(-1.0);
  }

  lemma RotateCross(d: Vec, e: Vec)
    ensures d.Cross(e) == e.Minus(d).Cross(d.Times(-1.0))
  {
    RotateTerm(d.y, d.z, e.y, e.z);
    RotateTerm(d.z, d.x, e.z, e.x);
    RotateTerm(d.x, d.y, e.x, e.y);
  }

  lemma RotateTerm(a: real, b: real, c: real, d: real)
    ensures a * d - b * c == (c - a) * (-1.0 * b) - (d - b) * (-1.0 * a)
  {}

  lemma CutFirstEdge(a: Vec, b: Vec, c: Vec, f: real)
    ensures VectorArea(Triple(a, a.Toward(b, f), c)) == VectorArea(Triple(a, b, c)).Times(f)
    ensures VectorArea(Triple(a.Toward(b, f), b, c)) == VectorArea(Triple(a, b, c)).Times(1.0 - f)
    ensures Centroid(Triple(a, a.Toward(b, f), c)).Times(f)
              .Plus(Centroid(Triple(a.Toward(b, f), b, c)).Times(1.0 - f))
            == Centroid(Triple(a, b, c))
  {
    CutSides(a, b, c, f);
    var d, e := b.Minus(a), c.Minus(a);
    CrossTimes(d, e, f);
    CrossShear(d, e, 1.0 - f, -f);
    CutCentroid(a, b, c, a.Toward(b, f), f);
  }

  lemma CutSides(a: Vec, b: Vec, c: Vec, f: real)
    ensures var d, e, m := b.Minus(a), c.Minus(a), a.Toward(b, f);
      m.Minus(a) == d.Times(f) && b.Minus(m) == d.Times(1.0 - f) && c.Minus(m) == e.Plus(d.Times(-f))
  {}

  lemma CutCentroid(a: Vec, b: Vec, c: Vec, m: Vec, f: real)
    requires m == a.Toward(b, f)
    ensures Centroid(Triple(a, m, c)).Times(f).Plus(Centroid(Triple(m, b, c)).Times(1.0 - f))
            == Centroid(Triple(a, b, c))
  {
    CutMean(a.x, b.x, c.x, m.x, f);
    CutMean(a.y, b.y, c.y, m.y, f);
    CutMean(a.z, b.z, c.z, m.z, f);
    MeanParts(Centroid(Triple(a, m, c)), Centroid(Triple(m, b, c)), Centroid(Triple(a, b, c)), f);
  }

  lemma MeanParts(u: Vec, v: Vec, w: Vec, f: real)
    requires f * u.x + (1.0 - f) * v.x == w.x && f * u.y + (1.0 - f) * v.y == w.y
    requires f * u.z + (1.0 - f) * v.z == w.z
    ensures u.Times(f).Plus(v.Times(1.0 - f)) == w
  {}

  lemma CutMean(a: real, b: real, c: real, m: real, f: real)
    requires m == a + f * (b - a)
    ensures f * ((a + m + c) / 3.0) + (1.0 - f) * ((m + b + c) / 3.0) == (a + b + c) / 3.0
  {}

  lemma CrossTimes(d: Vec, e: Vec, f: real)
    ensures d.Times(f).Cross(e) == d.Cross(e).Times(f)
  {
    var u := d.Times(f);
    Scale(d.y, d.z, e.y, e.z, f, u.y, u.z);
    Scale(d.z, d.x, e.z, e.x, f, u.z, u.x);
    Scale(d.x, d.y, e.x, e.y, f, u.x, u.y);
    CrossParts(u, e, d.Cross(e), f);
  }

  lemma Scale(a: real, b: real, c: real, d: real, f: real, fa: real, fb: real)
    requires fa == f * a && fb == f * b
    ensures Wedge(fa, fb, c, d) == f * Wedge(a, b, c, d)
  {
    assert (f * a) * d == f * (a * d) && (f * b) * c == f * (b * c);
  }

  lemma CrossShear(d: Vec, e: Vec, f: real, g: real)
    ensures d.Times(f).Cross(e.Plus(d.Times(g))) == d.Cross(e).Times(f)
  {
    var u, v := d.Times(f), e.Plus(d.Times(g));
    Shear(d.y, d.z, e.y, e.z, f, g, u.y, u.z, v.y, v.z);
    Shear(d.z, d.x, e.z, e.x, f, g, u.z, u.x, v.z, v.x);
    Shear(d.x, d.y, e.x, e.y, f, g, u.x, u.y, v.x, v.y);
    CrossParts(u, v, d.Cross(e), f);
  }

  lemma CrossParts(u: Vec, v: Vec, w: Vec, f: real)
    requires Wedge(u.y, u.z, v.y, v.z) == f * w.x && Wedge(u.z, u.x, v.z, v.x) == f * w.y
    requires Wedge(u.x, u.y, v.x, v.y) == f * w.z
    ensures u.Cross(v) == w.Times(f)
  {}

  lemma Shear(a: real, b: real, c: real, d: real, f: real, g: real, fa: real, fb: real, ga: real, gb: real)
    requires fa == f * a && fb == f * b && ga == c + g * a && gb == d + g * b
    ensures Wedge(fa, fb, ga, gb) == f * Wedge(a, b, c, d)
  {
    assert (f * a) * (d + g * b) == f * (a * d) + (f * a) * (g * b);
    assert (f * b) * (c + g * a) == f * (b * c) + (f * b) * (g * a);
    assert (f * a) * (g * b) == (f * b) * (g * a);
  }

  /** The halves' shares of the vector area, and how their centroids average, whichever edge
      is cut. */
  lemma HalvesShare(C: Cutting, t: Tri)
    ensures Divides(t.p, C.FirstHalf(t).p, C.SecondHalf(t).p, C.CutFraction(t))
  {
    var i := LongestEdge(t);
    var a, b, c := t.p.At(i), t.p.At(Next(i)), t.p.At(Next(Next(i)));
    var m := a.Toward(b, C.CutFraction(t));
    Turn(t.p, i);
    Turn(C.FirstHalf(t).p, i);
    Turn(C.SecondHalf(t).p, i);
    CutFirstEdge(a, b, c, C.CutFraction(t));
  }

  lemma Turn(p: Triple<Vec>, i: Corner)
    ensures var q := Triple(p.At(i), p.At(Next(i)), p.At(Next(Next(i))));
      VectorArea(q) == VectorArea(p) && Centroid(q) == Centroid(p)
  {
    Rotate(p.a, p.b, p.c);
    Rotate(p.b, p.c, p.a);
  }

  lemma SameRoot(x: real, y: real)
    requires x >= 0.0 && y >= 0.0 && x * x == y * y
    ensures x == y
  {
    if x < y { Larger(x, y); } else if y < x { Larger(y, x); }
  }

  lemma Larger(x: real, y: real)
    requires 0.0 <= x < y
    ensures x * x < y * y
  {
    var d := y - x;
    assert y * y == x * x + x * d + d * y;
    assert x * d >= 0.0 && d * y > 0.0;
  }

  /** A part f of the vector area is a part f of the area. */
  lemma ShareOfArea(p: Triple<Vec>, q: Triple<Vec>, f: real, area: Triple<Vec> -> real)
    requires IsArea(area) && f >= 0.0 && VectorArea(q) == VectorArea(p).Times(f)
    ensures area(q) == f * area(p)
  {
    var v := VectorArea(p);
    TimesDot(v, v.Times(f), f);
    TimesDot(v, v, f);
    assert v.Dot(v.Times(f)) == v.Times(f).Dot(v);
    assert f * (f * v.Dot(v)) == (f * f) * v.Dot(v);
    assert 4.0 * (area(q) * area(q)) == (f * f) * (4.0 * (area(p) * area(p)));
    assert (f * area(p)) * (f * area(p)) == (f * f) * (area(p) * area(p));
    SameRoot(area(q), f * area(p));
  }

  /** p is divided into a and b in the ratio f to 1 - f. */
  ghost predicate Divides(p: Triple<Vec>, a: Triple<Vec>, b: Triple<Vec>, f: real) {
    && 0.0 <= f <= 1.0
    && VectorArea(a) == VectorArea(p).Times(f)
    && VectorArea(b) == VectorArea(p).Times(1.0 - f)
    && Centroid(a).Times(f).Plus(Centroid(b).Times(1.0 - f)) == Centroid(p)
  }

  lemma DividesArea(p: Triple<Vec>, a: Triple<Vec>, b: Triple<Vec>, f: real,
                    area: Triple<Vec> -> real)
    requires IsArea(area) && Divides(p, a, b, f)
    ensures area(a) == f * area(p) && area(b) == (1.0 - f) * area(p)
    ensures area(p) == area(a) + area(b)
  {
    ShareOfArea(p, a, f, area);
    ShareOfArea(p, b, 1.0 - f, area);
  }

  function Moment(p: Triple<Vec>, area: Triple<Vec> -> real, along: Vec): real {
    area(p) * Centroid(p).Dot(along)
  }

  lemma DividesMoment(p: Triple<Vec>, a: Triple<Vec>, b: Triple<Vec>, f: real,
                      area: Triple<Vec> -> real, along: Vec)
    requires IsArea(area) && Divides(p, a, b, f)
    ensures Moment(p, area, along) == Moment(a, area, along) + Moment(b, area, along)
  {
    DividesArea(p, a, b, f, area);
    AverageDot(Centroid(a), Centroid(b), f, along);
    Weighted(area(p), f, Centroid(a).Dot(along), Centroid(b).Dot(along), Centroid(p).Dot(along),
             area(a), area(b));
  }

  // The three measures of a triangle.

  function AreaMeasure(area: Triple<Vec> -> real): Tri -> real {
    (t: Tri) => area(t.p)
  }

  function VectorMeasure(along: Vec): Tri -> real {
    (t: Tri) => VectorArea(t.p).Dot(along)
  }

  function MomentMeasure(area: Triple<Vec> -> real, along: Vec): Tri -> real {
    (t: Tri) => Moment(t.p, area, along)
  }

  lemma AreaAdditive(C: Cutting, area: Triple<Vec> -> real)
    requires IsArea(area)
    ensures Additive(C.AsCutter(), AreaMeasure(area))
  {
    forall u: Tri ensures area(u.p) == area(C.FirstHalf(u).p) + area(C.SecondHalf(u).p) {
      HalvesShare(C, u);
      DividesArea(u.p, C.FirstHalf(u).p, C.SecondHalf(u).p, C.CutFraction(u), area);
    }
  }

  /** The areas of the leaves add up to the triangle's. */
  lemma LeafAreas(C: Cutting, t: Tri, depth: nat, area: Triple<Vec> -> real)
    requires IsArea(area)
    ensures Sum(C.AsCutter().Tree(t, depth).Leaves(), AreaMeasure(area)) == area(t.p)
  {
    AreaAdditive(C, area);
    LeavesAddUp(C.AsCutter(), t, depth, AreaMeasure(area));
  }

  /** The vector areas of the leaves add up to the triangle's, along every direction. */
  lemma LeafVectorAreas(C: Cutting, t: Tri, depth: nat, along: Vec)
    ensures Sum(C.AsCutter().Tree(t, depth).Leaves(), VectorMeasure(along))
            == VectorArea(t.p).Dot(along)
  {
    var f := VectorMeasure(along);
    forall u ensures f(u) == f(C.FirstHalf(u)) + f(C.SecondHalf(u)) {
      HalvesShare(C, u);
      Shares(VectorArea(u.p), along, C.CutFraction(u));
    }
    LeavesAddUp(C.AsCutter(), t, depth, f);
  }

  lemma Shares(v: Vec, along: Vec, f: real)
    ensures v.Times(f).Dot(along) + v.Times(1.0 - f).Dot(along) == v.Dot(along)
  {
    TimesDot(v, along, f);
    TimesDot(v, along, 1.0 - f);
  }

  lemma TimesDot(v: Vec, w: Vec, f: real)
    ensures v.Times(f).Dot(w) == f * v.Dot(w)
  {}

  /** The area-weighted centroids of the leaves add up to the triangle's, along every direction. */
  lemma LeafMoments(C: Cutting, t: Tri, depth: nat, area: Triple<Vec> -> real, along: Vec)
    requires IsArea(area)
    ensures Sum(C.AsCutter().Tree(t, depth).Leaves(), MomentMeasure(area, along))
            == Moment(t.p, area, along)
  {
    var f := MomentMeasure(area, along);
    forall u ensures f(u) == f(C.FirstHalf(u)) + f(C.SecondHalf(u)) {
      HalvesShare(C, u);
      DividesMoment(u.p, C.FirstHalf(u).p, C.SecondHalf(u).p, C.CutFraction(u), area, along);
    }
    LeavesAddUp(C.AsCutter(), t, depth, f);
  }

  lemma AverageDot(a: Vec, b: Vec, f: real, along: Vec)
    ensures a.Times(f).Plus(b.Times(1.0 - f)).Dot(along)
            == f * a.Dot(along) + (1.0 - f) * b.Dot(along)
  {}

  lemma Weighted(x: real, f: real, a: real, b: real, mean: real, u: real, v: real)
    requires mean == f * a + (1.0 - f) * b && u == f * x && v == (1.0 - f) * x
    ensures x * mean == u * a + v * b
  {}
}
