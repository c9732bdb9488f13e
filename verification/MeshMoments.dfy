/** Area moments in mesh_fracture.c: middles of triangles, weighted by area. Cutting a triangle up,
    sharing the leaves out to cells and putting the core back together all keep them, so that
    every piece balances about its offset. */
module MeshMoments {
  import opened MeshCuts
  import opened MeshSubdivision
  import opened MeshCoalescing
  import opened MeshCore

  /** Coordinate number i. */
  function Along(v: Vec, i: Corner): real { if i == 0 then v.x else if i == 1 then v.y else v.z }

  /** What a triangle adds to the moment along axis i, whatever was written on it. */
  function AreaWeight(area: Triple<Vec> -> real, i: Corner): Tri -> real {
    (t: Tri) => area(t.p) * Along(Centroid(t.p), i)
  }

  /** What a triangle adds to the moment of one cell, by the area written on it. */
  function CellWeight(cell: int, i: Corner): Tri -> real {
    (t: Tri) => if t.cell == cell then t.area * Along(Centroid(t.p), i) else 0.0
  }

  /** The moment of the first n triangles. */
  function AreaMoment(s: seq<Tri>, n: nat, area: Triple<Vec> -> real): Vec
    requires n <= |s|
  {
    Vec(SumTo(s, n, AreaWeight(area, 0)), SumTo(s, n, AreaWeight(area, 1)), SumTo(s, n, AreaWeight(area, 2)))
  }

  /** The area-weighted sum of the centroids of one cell. */
  function CellMoment(s: seq<Tri>, n: nat, cell: int): Vec
    requires n <= |s|
  {
    Vec(SumTo(s, n, CellWeight(cell, 0)), SumTo(s, n, CellWeight(cell, 1)), SumTo(s, n, CellWeight(cell, 2)))
  }

  // ----- Cutting

  /** A cut divides area and weight between the two halves. */
  ghost predicate Balances(C: Cutter, area: Triple<Vec> -> real, w: Tri -> real) {
    forall t :: BalancedAt(C, area, w, t)
  }

  ghost predicate BalancedAt(C: Cutter, area: Triple<Vec> -> real, w: Tri -> real, t: Tri) {
    && area(t.p) == area(C.First(t).p) + area(C.Second(t).p)
    && w(t) == w(C.First(t)) + w(C.Second(t))
  }

  /** Along every axis. */
  ghost predicate AllBalance(C: Cutter, area: Triple<Vec> -> real) {
    forall i: Corner :: Balances(C, area, AreaWeight(area, i))
  }

  lemma BalancesAdditive(C: Cutter, area: Triple<Vec> -> real, w: Tri -> real)
    requires Balances(C, area, w)
    ensures Additive(C, AreaMeasure(area)) && Additive(C, w)
  {
    forall t: Tri
      ensures area(t.p) == area(C.First(t).p) + area(C.Second(t).p) && w(t) == w(C.First(t)) + w(C.Second(t))
    {
      assert BalancedAt(C, area, w, t);
    }
  }

  lemma AverageAlong(p: Vec, a: Vec, b: Vec, f: real, i: Corner)
    requires a.Times(f).Plus(b.Times(1.0 - f)) == p
    ensures Along(p, i) == f * Along(a, i) + (1.0 - f) * Along(b, i)
  {}

  lemma SharedWeight(p: Vec, a: Vec, b: Vec, f: real, x: real, u: real, v: real, i: Corner)
    requires a.Times(f).Plus(b.Times(1.0 - f)) == p && u == f * x && v == (1.0 - f) * x
    ensures x * Along(p, i) == u * Along(a, i) + v * Along(b, i)
  {
    AverageAlong(p, a, b, f, i);
    Weighted(x, f, Along(a, i), Along(b, i), Along(p, i), u, v);
  }

  ghost predicate SharesOut(area: Triple<Vec> -> real, p: Triple<Vec>, a: Triple<Vec>, b: Triple<Vec>, f: real) {
    && area(p) == area(a) + area(b)
    && area(a) == f * area(p) && area(b) == (1.0 - f) * area(p)
    && Centroid(a).Times(f).Plus(Centroid(b).Times(1.0 - f)) == Centroid(p)
  }

  lemma HalvesShareOut(C: Cutting, t: Tri, area: Triple<Vec> -> real)
    requires IsArea(area)
    ensures SharesOut(area, t.p, C.FirstHalf(t).p, C.SecondHalf(t).p, C.CutFraction(t))
  {
    HalvesShare(C, t);
    DividesArea(t.p, C.FirstHalf(t).p, C.SecondHalf(t).p, C.CutFraction(t), area);
  }

  lemma HalvesBalance(C: Cutter, t: Tri, f: real, area: Triple<Vec> -> real, i: Corner)
    requires SharesOut(area, t.p, C.First(t).p, C.Second(t).p, f)
    ensures BalancedAt(C, area, AreaWeight(area, i), t)
  {
    var a, b := C.First(t).p, C.Second(t).p;
    SharedWeight(Centroid(t.p), Centroid(a), Centroid(b), f, area(t.p), area(a), area(b), i);
  }

  /** The cuts of the C code leave halves that balance about the triangle's middle. */
  lemma CutsBalance(C: Cutting, area: Triple<Vec> -> real)
    requires IsArea(area)
    ensures AllBalance(C.AsCutter(), area)
  {
    forall i: Corner ensures Balances(C.AsCutter(), area, AreaWeight(area, i)) {
      forall t ensures BalancedAt(C.AsCutter(), area, AreaWeight(area, i), t) {
        HalvesShareOut(C, t, area);
        HalvesBalance(C.AsCutter(), t, C.CutFraction(t), area, i);
      }
    }
  }

  /** The leaves of a hull have its area and balance about its middle. */
  lemma LeavesBalance(C: Cutter, src: seq<Tri>, area: Triple<Vec> -> real)
    requires AllBalance(C, area)
    ensures var leaves := AllLeaves(C, src, |src|);
      && Sum(leaves, AreaMeasure(area)) == Sum(src, AreaMeasure(area))
      && AreaMoment(leaves, |leaves|, area) == AreaMoment(src, |src|, area)
  {
    var leaves := AllLeaves(C, src, |src|);
    forall i: Corner
      ensures Sum(leaves, AreaMeasure(area)) == Sum(src, AreaMeasure(area))
      ensures Sum(leaves, AreaWeight(area, i)) == Sum(src, AreaWeight(area, i))
    {
      BalancesAdditive(C, area, AreaWeight(area, i));
      AllLeavesAddUp(C, src, |src|, AreaMeasure(area));
      AllLeavesAddUp(C, src, |src|, AreaWeight(area, i));
    }
    assert Sum(leaves, AreaWeight(area, 0)) == Sum(src, AreaWeight(area, 0));
  }

  // ----- Putting the core together

  ghost predicate AreasWritten(s: seq<Tri>, area: Triple<Vec> -> real) {
    forall k :: 0 <= k < |s| ==> s[k].area == area(s[k].p)
  }

  /** u stands for t in the core: the same positions, and the area of t. */
  predicate StandsFor(u: Tri, t: Tri, area: Triple<Vec> -> real) {
    u.cell == 0 && u.p == t.p && u.area == area(t.p)
  }

  /** g weighs triangles as they are in the core, w as they were cut. */
  ghost predicate WeighsCore(g: Tri -> real, w: Tri -> real, area: Triple<Vec> -> real) {
    && (forall u, t :: StandsFor(u, t, area) ==> g(u) == w(t))
    && (forall u: Tri :: u.cell != 0 ==> g(u) == 0.0)
  }

  lemma CellWeighsCore(area: Triple<Vec> -> real, i: Corner)
    ensures WeighsCore(CellWeight(0, i), AreaWeight(area, i), area)
  {}

  /** The weight of what a walk puts on the core. */
  function Weight(patches: seq<Patch>, g: Tri -> real): real {
    SumTo(Tris(patches), |patches|, g)
  }

  lemma WeightOne(p: Patch, g: Tri -> real)
    ensures Weight([p], g) == g(p.tri)
  {
    TrisOne(p);
    SumOne(p.tri, g);
  }

  lemma WeightConcat(a: seq<Patch>, b: seq<Patch>, g: Tri -> real)
    ensures Weight(a + b, g) == Weight(a, g) + Weight(b, g)
  {
    TrisConcat(a, b);
    SumConcat(Tris(a), Tris(b), |a| + |b|, g);
  }

  lemma SingleWeight(w: Walked, g: Tri -> real)
    requires w.single && |w.patches| == 1
    ensures Weight(w.patches, g) == g(w.patches[0].tri)
  {
    assert w.patches == [w.patches[0]];
    WeightOne(w.patches[0], g);
  }

  ghost predicate SingleStands(w: Walked, t: Tri, area: Triple<Vec> -> real) {
    w.single ==> |w.patches| == 1 && StandsFor(w.patches[0].tri, t, area)
  }

  lemma CombineWeight(c: Cuts, at: nat, a: Walked, b: Walked, M: Merging, u: Tri, v: Tri,
                      g: Tri -> real, w: Tri -> real, area: Triple<Vec> -> real)
    requires c.Cut? && SingleStands(a, u, area) && SingleStands(b, v, area)
    requires area(c.t.p) == area(u.p) + area(v.p) && w(c.t) == w(u) + w(v)
    requires WeighsCore(g, w, area)
    ensures SingleStands(Combine(c, at, a, b, M), c.t, area)
    ensures Weight(Combine(c, at, a, b, M).patches, g) == Weight(a.patches, g) + Weight(b.patches, g)
  {
    var r := Combine(c, at, a, b, M);
    if r.single {
      SingleWeight(a, g);
      SingleWeight(b, g);
      SingleWeight(r, g);
      assert StandsFor(r.patches[0].tri, c.t, area);
    } else {
      WeightConcat(a.patches, b.patches, g);
    }
  }

  /** The walk puts on the core what the leaves of c weigh. */
  predicate AddsWeight(s: seq<Tri>, at: nat, c: Cuts, M: Merging, g: Tri -> real)
    requires at + c.Size() <= |s|
  {
    SumTo(s, at + c.Size(), g) == SumTo(s, at, g) + Weight(Walk(s, at, c, M).patches, g)
  }

  /** And if that is one triangle, it has the area of t. */
  ghost predicate Weighs(s: seq<Tri>, at: nat, c: Cuts, M: Merging, g: Tri -> real, t: Tri,
                         area: Triple<Vec> -> real)
    requires at + c.Size() <= |s|
  {
    AddsWeight(s, at, c, M, g) && SingleStands(Walk(s, at, c, M), t, area)
  }

  lemma LeafWeighs(s: seq<Tri>, at: nat, c: Cuts, M: Merging, g: Tri -> real, w: Tri -> real,
                   area: Triple<Vec> -> real)
    requires Holds(s, at, c) && c.Leaf? && WeighsCore(g, w, area) && AreasWritten(s, area)
    ensures Weighs(s, at, c, M, g, c.t, area)
  {
    if s[at].cell == 0 {
      WeightOne(Patch(s[at], c, at, at + 1), g);
    }
  }

  lemma CutWeighs(s: seq<Tri>, at: nat, c: Cuts, M: Merging, u: Tri, v: Tri,
                  g: Tri -> real, w: Tri -> real, area: Triple<Vec> -> real)
    requires c.Cut? && at + c.Size() <= |s| && WeighsCore(g, w, area)
    requires area(c.t.p) == area(u.p) + area(v.p) && w(c.t) == w(u) + w(v)
    requires Weighs(s, at, c.first, M, g, u, area)
    requires Weighs(s, at + c.first.Size(), c.second, M, g, v, area)
    ensures Weighs(s, at, c, M, g, c.t, area)
  {
    var a, b := Walk(s, at, c.first, M), Walk(s, at + c.first.Size(), c.second, M);
    CombineWeight(c, at, a, b, M, u, v, g, w, area);
  }

  /** The walk puts on the core the weight that the tree's leaves have in cell 0. */
  lemma {:induction false} WalkWeighs(C: Cutter, t: Tri, depth: nat, s: seq<Tri>, at: nat, M: Merging,
                                      g: Tri -> real, w: Tri -> real, area: Triple<Vec> -> real)
    requires Balances(C, area, w) && WeighsCore(g, w, area)
    requires AreasWritten(s, area) && Holds(s, at, C.Tree(t, depth))
    ensures Weighs(s, at, C.Tree(t, depth), M, g, t, area)
    decreases MAX_DEPTH - depth
  {
    var c := C.Tree(t, depth);
    if C.IsLeaf(t, depth) {
      LeafWeighs(s, at, c, M, g, w, area);
    } else {
      assert BalancedAt(C, area, w, t);
      WalkWeighs(C, C.First(t), depth + 1, s, at, M, g, w, area);
      WalkWeighs(C, C.Second(t), depth + 1, s, at + c.first.Size(), M, g, w, area);
      CutWeighs(s, at, c, M, C.First(t), C.Second(t), g, w, area);
    }
  }

  /** The core put together weighs what its leaves did. */
  lemma {:induction false} CoreKeepsWeight(C: Cutter, src: seq<Tri>, s: seq<Tri>, n: nat, M: Merging,
                                           g: Tri -> real, w: Tri -> real, area: Triple<Vec> -> real)
    requires Balances(C, area, w) && WeighsCore(g, w, area)
    requires AreasWritten(s, area) && SameShapes(s, AllLeaves(C, src, |src|))
    requires n <= |src| && Start(C, src, n) <= |s|
    ensures Weight(CorePatches(C, src, s, n, M), g) == SumTo(s, Start(C, src, n), g)
  {
    if n > 0 {
      CoreKeepsWeight(C, src, s, n - 1, M, g, w, area);
      LeavesFound(C, src, s, n - 1);
      WalkWeighs(C, src[n - 1], 0, s, Start(C, src, n - 1), M, g, w, area);
      TreeJoinsCore(C, src, s, n, M, g);
    }
  }

  lemma TreeJoinsCore(C: Cutter, src: seq<Tri>, s: seq<Tri>, n: nat, M: Merging, g: Tri -> real)
    requires 0 < n <= |src| && Start(C, src, n) <= |s|
    requires AddsWeight(s, Start(C, src, n - 1), TreeOf(C, src, n - 1), M, g)
    requires Weight(CorePatches(C, src, s, n - 1, M), g) == SumTo(s, Start(C, src, n - 1), g)
    ensures Weight(CorePatches(C, src, s, n, M), g) == SumTo(s, Start(C, src, n), g)
  {
    var start, tree := Start(C, src, n - 1), TreeOf(C, src, n - 1);
    WeightConcat(CorePatches(C, src, s, n - 1, M), Walk(s, start, tree, M).patches, g);
  }

  lemma LeavesFound(C: Cutter, src: seq<Tri>, s: seq<Tri>, n: nat)
    requires SameShapes(s, AllLeaves(C, src, |src|)) && n < |src|
    ensures Holds(s, Start(C, src, n), TreeOf(C, src, n))
  {
    assert s[..Start(C, src, |src|)] == s;
    InLockStep(C, src, s, |src|, n);
  }

  /** So it balances where they did. */
  lemma CoreKeepsMoment(C: Cutter, src: seq<Tri>, s: seq<Tri>, M: Merging, area: Triple<Vec> -> real)
    requires AllBalance(C, area)
    requires AreasWritten(s, area) && SameShapes(s, AllLeaves(C, src, |src|))
    ensures var core := Tris(CorePatches(C, src, s, |src|, M));
      CellMoment(core, |core|, 0) == CellMoment(s, |s|, 0)
  {
    forall i: Corner
      ensures Weight(CorePatches(C, src, s, |src|, M), CellWeight(0, i)) == SumTo(s, |s|, CellWeight(0, i))
    {
      CellWeighsCore(area, i);
      CoreKeepsWeight(C, src, s, |src|, M, CellWeight(0, i), AreaWeight(area, i), area);
    }
  }

  // ----- Sharing the leaves out

  /** The first n cells together. */
  function CellsMoment(s: seq<Tri>, hi: nat, n: nat): Vec
    requires hi <= |s|
  {
    Vec(CellsWeight(s, hi, n, 0), CellsWeight(s, hi, n, 1), CellsWeight(s, hi, n, 2))
  }

  function CellsWeight(s: seq<Tri>, hi: nat, n: nat, i: Corner): real
    requires hi <= |s|
  {
    if n == 0 then 0.0 else CellsWeight(s, hi, n - 1, i) + SumTo(s, hi, CellWeight(n - 1, i))
  }

  lemma {:induction false} CellsWeightNone(s: seq<Tri>, n: nat, i: Corner)
    ensures CellsWeight(s, 0, n, i) == 0.0
  {
    if n > 0 { CellsWeightNone(s, n - 1, i); }
  }

  /** The weight of t if its cell is one of the first n. */
  function WeightBelow(t: Tri, n: nat, i: Corner): real {
    if 0 <= t.cell < n then t.area * Along(Centroid(t.p), i) else 0.0
  }

  lemma {:induction false} CellsWeightStep(s: seq<Tri>, hi: nat, n: nat, i: Corner)
    requires 0 < hi <= |s|
    ensures CellsWeight(s, hi, n, i) == CellsWeight(s, hi - 1, n, i) + WeightBelow(s[hi - 1], n, i)
  {
    if n > 0 {
      CellsWeightStep(s, hi, n - 1, i);
      assert CellWeight(n - 1, i)(s[hi - 1]) + WeightBelow(s[hi - 1], n - 1, i) == WeightBelow(s[hi - 1], n, i);
    }
  }

  lemma {:induction false} CellsShare(s: seq<Tri>, hi: nat, n: nat, area: Triple<Vec> -> real, i: Corner)
    requires AreasWritten(s, area) && hi <= |s| && forall k :: 0 <= k < |s| ==> 0 <= s[k].cell < n
    ensures CellsWeight(s, hi, n, i) == SumTo(s, hi, AreaWeight(area, i))
  {
    if hi == 0 {
      CellsWeightNone(s, n, i);
    } else {
      CellsWeightStep(s, hi, n, i);
      CellsShare(s, hi - 1, n, area, i);
    }
  }

  /** The cells divide the moment of the leaves between them. */
  lemma CellsBalance(s: seq<Tri>, n: nat, area: Triple<Vec> -> real)
    requires AreasWritten(s, area) && forall k :: 0 <= k < |s| ==> 0 <= s[k].cell < n
    ensures CellsMoment(s, |s|, n) == AreaMoment(s, |s|, area)
  {
    CellsShare(s, |s|, n, area, 0);
    CellsShare(s, |s|, n, area, 1);
    CellsShare(s, |s|, n, area, 2);
  }

  lemma {:induction false} EmptyCellWeight(s: seq<Tri>, hi: nat, cell: int, i: Corner)
    requires hi <= |s| && (forall k :: 0 <= k < |s| ==> s[k].area >= 0.0)
    ensures CellArea(s, 0, hi, cell) >= 0.0
    ensures CellArea(s, 0, hi, cell) == 0.0 ==> SumTo(s, hi, CellWeight(cell, i)) == 0.0
  {
    if hi > 0 {
      EmptyCellWeight(s, hi - 1, cell, i);
      if s[hi - 1].area == 0.0 { Nothing(Along(Centroid(s[hi - 1].p), i)); }
    }
  }

  lemma Nothing(x: real)
    ensures 0.0 * x == 0.0
  {}

  /** A cell without area has no moment. */
  lemma EmptyCellMoment(s: seq<Tri>, cell: int)
    requires forall k :: 0 <= k < |s| ==> s[k].area >= 0.0
    ensures CellArea(s, 0, |s|, cell) >= 0.0
    ensures CellArea(s, 0, |s|, cell) == 0.0 ==> CellMoment(s, |s|, cell) == Vec(0.0, 0.0, 0.0)
  {
    EmptyCellWeight(s, |s|, cell, 0);
    EmptyCellWeight(s, |s|, cell, 1);
    EmptyCellWeight(s, |s|, cell, 2);
  }

  lemma {:induction false} SameWeight(s: seq<Tri>, r: seq<Tri>, n: nat, area: Triple<Vec> -> real, i: Corner)
    requires n <= |s| == |r| && forall k :: 0 <= k < |s| ==> s[k].p == r[k].p
    ensures SumTo(s, n, AreaWeight(area, i)) == SumTo(r, n, AreaWeight(area, i))
  {
    if n > 0 { SameWeight(s, r, n - 1, area, i); }
  }

  /** What is written on triangles does not change their moment. */
  lemma SameMoment(s: seq<Tri>, r: seq<Tri>, area: Triple<Vec> -> real)
    requires |s| == |r| && forall k :: 0 <= k < |s| ==> s[k].p == r[k].p
    ensures AreaMoment(s, |s|, area) == AreaMoment(r, |r|, area)
  {
    SameWeight(s, r, |s|, area, 0);
    SameWeight(s, r, |s|, area, 1);
    SameWeight(s, r, |s|, area, 2);
  }
}
