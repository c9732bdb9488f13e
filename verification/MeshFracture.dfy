/** mesh_fracture(): break a hull into its core and the pieces torn off it. The pieces have the
    area of the hull between them, and balance about its middle. */
module MeshFracture {
  import opened Wrappers

  import opened MeshCuts
  import opened MeshSubdivision
  import opened MeshCoalescing
  import opened MeshCells
  import opened MeshCore
  import opened MeshMoments

  /** What is taken from floating point and noise: a triangle's area, the point that a centroid is
      torn to, and the distance from a corner to the nearest tear of its cell, given the seeds and
      the core's weight. */
  datatype Measures = Measures(
    area: Triple<Vec> -> real,
    tear: Vec -> Vec,
    distance: (seq<Vec>, real, int, Vec, Vec) -> real)
  {
    function Area(p: Triple<Vec>): real { area(p) }
    function Tear(c: Vec): Vec { tear(c) }

    function Distance(seeds: seq<Vec>, w: real, cell: int, p: Vec, n: Vec): real {
      distance(seeds, w, cell, p, n)
    }

    function CoreGauge(seeds: seq<Vec>, w: real): Gauge {
      Gauge((p: Vec, n: Vec) => Distance(seeds, w, 0, p, n))
    }
  }

  /** The area of the first n triangles. */
  function HullArea(s: seq<Tri>, n: nat, H: Measures): real
    requires n <= |s|
  {
    SumTo(s, n, AreaMeasure(H.area))
  }

  function TotalArea(s: seq<Tri>, n: nat): real
    requires n <= |s|
  {
    if n == 0 then 0.0 else TotalArea(s, n - 1) + s[n - 1].area
  }

  // ----- Measuring the leaves

  function MeasuredLeaf(t: Tri, H: Measures): Tri {
    t.(area := H.Area(t.p), centroid := H.Tear(Centroid(t.p)))
  }

  ghost predicate LeavesMeasured(s: seq<Tri>, was: seq<Tri>, H: Measures) {
    |s| == |was| && forall i :: 0 <= i < |s| ==> s[i] == MeasuredLeaf(was[i], H)
  }

  method MeasureLeaves(s: Soup, H: Measures) returns (total: real, moment: Vec)
    modifies s
    ensures LeavesMeasured(s.t, old(s.t), H)
    ensures total == HullArea(old(s.t), |old(s.t)|, H)
    ensures moment == AreaMoment(old(s.t), |old(s.t)|, H.area)
  {
    total, moment := 0.0, Vec(0.0, 0.0, 0.0);
    for i := 0 to |s.t|
      invariant |s.t| == |old(s.t)|
      invariant forall k :: i <= k < |s.t| ==> s.t[k] == old(s.t)[k]
      invariant forall k :: 0 <= k < i ==> s.t[k] == MeasuredLeaf(old(s.t)[k], H)
      invariant total == HullArea(old(s.t), i, H) && moment == AreaMoment(old(s.t), i, H.area)
    {
      var t := s.t[i];
      var area := H.Area(t.p);
      moment := moment.Plus(Centroid(t.p).Times(area));
      total := total + area;
      s.t := s.t[i := MeasuredLeaf(t, H)];
    }
  }

  // ----- The seeds

  /** A debris seed: the torn centroid of the leaf under `pick`, when the leaves' areas are laid
      end to end. */
  ghost predicate UnderPick(s: seq<Tri>, pick: real, k: nat) {
    && k < |s|
    && (k > 0 ==> TotalArea(s, k) < pick)
    && (k == |s| - 1 || pick <= TotalArea(s, k + 1))
  }

  method PickLeaf(s: seq<Tri>, pick: real) returns (k: nat)
    requires s != []
    ensures UnderPick(s, pick, k)
  {
    k := 0;
    var left := pick;
    while k < |s| - 1 && left > s[k].area
      invariant k < |s| && left == pick - TotalArea(s, k)
      invariant k > 0 ==> TotalArea(s, k) < pick
    {
      left := left - s[k].area;
      k := k + 1;
    }
  }

  ghost predicate DebrisSeed(s: seq<Tri>, pick: real, seed: Vec) {
    exists k: nat :: UnderPick(s, pick, k) && seed == s[k].centroid
  }

  ghost predicate SeedsPlaced(seeds: seq<Vec>, s: seq<Tri>, middle: Vec, picks: seq<real>) {
    && 0 < |seeds| <= |picks| && seeds[0] == middle
    && forall i :: 0 < i < |seeds| ==> DebrisSeed(s, picks[i], seeds[i])
  }

  method PlaceSeeds(s: seq<Tri>, middle: Vec, picks: seq<real>, npieces: nat)
    returns (seeds: seq<Vec>)
    requires s != [] && 0 < npieces <= |picks|
    ensures |seeds| == npieces && SeedsPlaced(seeds, s, middle, picks)
  {
    seeds := [middle];
    for i := 1 to npieces
      invariant |seeds| == i && SeedsPlaced(seeds, s, middle, picks)
    {
      var k := PickLeaf(s, picks[i]);
      assert DebrisSeed(s, picks[i], s[k].centroid);
      seeds := seeds + [s[k].centroid];
    }
  }

  // ----- Tear distances

  function EdgesOf(t: Tri, H: Measures, seeds: seq<Vec>, w: real): Triple<real> {
    Triple(H.Distance(seeds, w, t.cell, t.p.a, t.n.a), H.Distance(seeds, w, t.cell, t.p.b, t.n.b),
           H.Distance(seeds, w, t.cell, t.p.c, t.n.c))
  }

  ghost predicate EdgesMeasured(s: seq<Tri>, was: seq<Tri>, H: Measures, seeds: seq<Vec>, w: real) {
    && |s| == |was|
    && forall i :: 0 <= i < |s| ==> s[i] == was[i].(edge := EdgesOf(was[i], H, seeds, w))
  }

  method MeasureEdges(s: Soup, H: Measures, seeds: seq<Vec>, w: real)
    modifies s
    ensures EdgesMeasured(s.t, old(s.t), H, seeds, w)
  {
    for i := 0 to |s.t|
      invariant |s.t| == |old(s.t)|
      invariant forall k :: i <= k < |s.t| ==> s.t[k] == old(s.t)[k]
      invariant forall k :: 0 <= k < i ==>
                  s.t[k] == old(s.t)[k].(edge := EdgesOf(old(s.t)[k], H, seeds, w))
    {
      s.t := s.t[i := s.t[i].(edge := EdgesOf(s.t[i], H, seeds, w))];
    }
  }

  // ----- The pieces

  datatype Piece = Piece(cell: int, offset: Vec, area: real) {
    function Moment(): Vec { offset.Times(area) }
  }

  lemma Shared(x: real, k: real)
    requires k > 0.0
    ensures k * (x / k) == x
  {}

  /** The piece whose triangles have this area and moment between them. */
  function PieceWith(cell: int, moment: Vec, total: real): (piece: Piece)
    requires total > 0.0
    ensures piece.cell == cell && piece.area == total && piece.Moment() == moment
  {
    Shared(moment.x, total);
    Shared(moment.y, total);
    Shared(moment.z, total);
    Piece(cell, Vec(moment.x / total, moment.y / total, moment.z / total), total)
  }

  lemma CellMomentStep(s: seq<Tri>, i: nat, cell: int)
    requires i < |s|
    ensures CellMoment(s, i + 1, cell)
            == if s[i].cell != cell then CellMoment(s, i, cell)
               else CellMoment(s, i, cell).Plus(Centroid(s[i].p).Times(s[i].area))
  {}

  /** build_piece: nothing for a cell without area; otherwise its area and the middle that its
      triangles balance about. */
  method BuildPiece(s: seq<Tri>, cell: int) returns (piece: Option<Piece>)
    ensures piece == None <==> CellArea(s, 0, |s|, cell) <= 0.0
    ensures piece != None ==>
              && piece.value.cell == cell && piece.value.area == CellArea(s, 0, |s|, cell)
              && piece.value.Moment() == CellMoment(s, |s|, cell)
  {
    var total, moment, n := 0.0, Vec(0.0, 0.0, 0.0), 0;
    for i := 0 to |s|
      invariant total == CellArea(s, 0, i, cell) && moment == CellMoment(s, i, cell)
      invariant 0 <= n && (n == 0 ==> total == 0.0)
    {
      var t := s[i];
      CellMomentStep(s, i, cell);
      if t.cell != cell { continue; }
      n := n + 1;
      moment := moment.Plus(Centroid(t.p).Times(t.area));
      total := total + t.area;
    }
    if n == 0 || total <= 0.0 { return None; }
    piece := Some(PieceWith(cell, moment, total));
  }

  function PiecesArea(pieces: seq<Piece>, n: nat): real
    requires n <= |pieces|
  {
    if n == 0 then 0.0 else PiecesArea(pieces, n - 1) + pieces[n - 1].area
  }

  function PiecesWeight(pieces: seq<Piece>, n: nat, i: Corner): real
    requires n <= |pieces|
  {
    if n == 0 then 0.0 else PiecesWeight(pieces, n - 1, i) + Along(pieces[n - 1].Moment(), i)
  }

  function PiecesMoment(pieces: seq<Piece>, n: nat): Vec
    requires n <= |pieces|
  {
    Vec(PiecesWeight(pieces, n, 0), PiecesWeight(pieces, n, 1), PiecesWeight(pieces, n, 2))
  }

  /** The first n cells together. */
  function CellsArea(s: seq<Tri>, hi: nat, n: nat): real
    requires hi <= |s|
  {
    if n == 0 then 0.0 else CellsArea(s, hi, n - 1) + CellArea(s, 0, hi, n - 1)
  }

  lemma {:induction false} CellsAreaStep(s: seq<Tri>, hi: nat, n: nat)
    requires 0 < hi <= |s|
    ensures CellsArea(s, hi, n)
            == CellsArea(s, hi - 1, n) + if 0 <= s[hi - 1].cell < n then s[hi - 1].area else 0.0
  {
    if n > 0 { CellsAreaStep(s, hi, n - 1); }
  }

  lemma CellsAreaNone(s: seq<Tri>, n: nat)
    ensures CellsArea(s, 0, n) == 0.0
  {}

  /** The cells divide the triangles between them. */
  lemma {:induction false} CellsAddUp(s: seq<Tri>, hi: nat, n: nat)
    requires hi <= |s| && forall i :: 0 <= i < |s| ==> 0 <= s[i].cell < n
    ensures CellsArea(s, hi, n) == TotalArea(s, hi)
  {
    if hi == 0 {
      CellsAreaNone(s, n);
    } else {
      CellsAreaStep(s, hi, n);
      CellsAddUp(s, hi - 1, n);
    }
  }

  lemma {:induction false} CellAreaNonnegative(s: seq<Tri>, hi: nat, cell: int)
    requires hi <= |s| && forall i :: 0 <= i < |s| ==> s[i].area >= 0.0
    ensures CellArea(s, 0, hi, cell) >= 0.0
  {
    if hi > 0 { CellAreaNonnegative(s, hi - 1, cell); }
  }

  /** The piece has the area of its cell, and its offset is where the cell balances. */
  ghost predicate PieceOf(piece: Piece, s: seq<Tri>) {
    && piece.area == CellArea(s, 0, |s|, piece.cell) > 0.0
    && piece.Moment() == CellMoment(s, |s|, piece.cell)
  }

  /** The pieces that the cells 0..n leave: the core first, and none of them empty. */
  ghost predicate Pieces(pieces: seq<Piece>, s: seq<Tri>, n: nat) {
    && |pieces| <= n && PiecesArea(pieces, |pieces|) == CellsArea(s, |s|, n)
    && PiecesMoment(pieces, |pieces|) == CellsMoment(s, |s|, n)
    && (forall i :: 0 <= i < |pieces| ==> 0 <= pieces[i].cell < n && PieceOf(pieces[i], s))
    && (forall i, j :: 0 <= i < j < |pieces| ==> pieces[i].cell < pieces[j].cell)
    && (n > 0 ==> pieces != [] && pieces[0].cell == 0)
  }

  function Added(pieces: seq<Piece>, piece: Option<Piece>): seq<Piece> {
    if piece == None then pieces else pieces + [piece.value]
  }

  lemma PiecesSum(pieces: seq<Piece>, s: seq<Tri>, n: nat, piece: Option<Piece>)
    requires PiecesArea(pieces, |pieces|) == CellsArea(s, |s|, n)
    requires PiecesMoment(pieces, |pieces|) == CellsMoment(s, |s|, n)
    requires forall i :: 0 <= i < |s| ==> s[i].area >= 0.0
    requires piece == None ==> CellArea(s, 0, |s|, n) <= 0.0
    requires piece != None ==> piece.value.cell == n && PieceOf(piece.value, s)
    ensures var after := Added(pieces, piece);
      && PiecesArea(after, |after|) == CellsArea(s, |s|, n + 1)
      && PiecesMoment(after, |after|) == CellsMoment(s, |s|, n + 1)
  {
    if piece == None {
      EmptyCellMoment(s, n);
    } else {
      PieceAppended(pieces, piece.value);
    }
  }

  lemma PiecesStep(pieces: seq<Piece>, s: seq<Tri>, n: nat, piece: Option<Piece>)
    requires Pieces(pieces, s, n) && forall i :: 0 <= i < |s| ==> s[i].area >= 0.0
    requires piece == None <==> CellArea(s, 0, |s|, n) <= 0.0
    requires piece != None ==> piece.value.cell == n && PieceOf(piece.value, s)
    requires n == 0 ==> piece != None
    ensures Pieces(Added(pieces, piece), s, n + 1)
  {
    PiecesSum(pieces, s, n, piece);
  }

  lemma PieceAppended(pieces: seq<Piece>, piece: Piece)
    ensures var after := pieces + [piece];
      && PiecesArea(after, |after|) == PiecesArea(pieces, |pieces|) + piece.area
      && forall i :: PiecesWeight(after, |after|, i)
                     == PiecesWeight(pieces, |pieces|, i) + Along(piece.Moment(), i)
  {
    var after := pieces + [piece];
    PiecesPrefix(pieces, after, |pieces|);
    assert after[|after| - 1] == piece;
  }

  lemma {:induction false} PiecesPrefix(a: seq<Piece>, b: seq<Piece>, n: nat)
    requires n <= |a| <= |b| && forall i :: 0 <= i < n ==> a[i] == b[i]
    ensures PiecesArea(a, n) == PiecesArea(b, n)
    ensures forall k :: PiecesWeight(a, n, k) == PiecesWeight(b, n, k)
  {
    if n > 0 { PiecesPrefix(a, b, n - 1); }
  }

  /** The core put back together: it has the area and the balance of its leaves. */
  ghost predicate CoreOf(core: seq<Tri>, s: seq<Tri>) {
    && CoreArea(core) == CellArea(s, 0, |s|, 0)
    && CellMoment(core, |core|, 0) == CellMoment(s, |s|, 0)
  }

  /** One pass of the loop at the end of mesh_fracture(): piece number i, if its cell has area. The
      core is built from the soup put back together, every other piece from the leaves. */
  method AddPiece(core: seq<Tri>, s: seq<Tri>, i: nat, pieces: seq<Piece>) returns (more: seq<Piece>)
    requires Pieces(pieces, s, i) && CoreOf(core, s)
    requires forall k :: 0 <= k < |s| ==> s[k].area >= 0.0
    ensures more == [] ==> i == 0 && CellArea(s, 0, |s|, 0) == 0.0
    ensures more != [] ==> Pieces(more, s, i + 1)
  {
    CellAreaNonnegative(s, |s|, i);
    var piece := BuildPiece(if i == 0 then core else s, i);
    if piece == None && i == 0 { return []; }
    PiecesStep(pieces, s, i, piece);
    more := Added(pieces, piece);
  }

  /** No core, no pieces. */
  method BuildPieces(core: seq<Tri>, s: seq<Tri>, npieces: nat) returns (pieces: seq<Piece>)
    requires npieces > 0 && CoreOf(core, s)
    requires forall i :: 0 <= i < |s| ==> s[i].area >= 0.0
    ensures pieces == [] <==> CellArea(s, 0, |s|, 0) == 0.0
    ensures pieces != [] ==> Pieces(pieces, s, npieces)
  {
    pieces := [];
    for i := 0 to npieces
      invariant Pieces(pieces, s, i)
    {
      pieces := AddPiece(core, s, i, pieces);
      if pieces == [] { return; }
    }
    CoreHasArea(pieces, s, npieces);
  }

  lemma CoreHasArea(pieces: seq<Piece>, s: seq<Tri>, n: nat)
    requires Pieces(pieces, s, n) && n > 0
    ensures pieces != [] && CellArea(s, 0, |s|, 0) > 0.0
  {
    assert PieceOf(pieces[0], s);
  }

  // ----- The whole

  /** What the leaves are in the end: cut from the hull, measured, labelled and measured again. */
  ghost predicate Finished(s: seq<Tri>, leaves: seq<Tri>, H: Measures, seeds: seq<Vec>, w: real) {
    && |s| == |leaves|
    && forall i :: 0 <= i < |s| ==>
         && SameShape(s[i], leaves[i])
         && s[i].area == H.Area(leaves[i].p)
         && s[i].centroid == H.Tear(Centroid(leaves[i].p))
         && IsCell(s[i].centroid, seeds, w, s[i].cell)
         && s[i].edge == EdgesOf(s[i], H, seeds, w)
  }

  lemma Finishes(leaves: seq<Tri>, a: seq<Tri>, b: seq<Tri>, s: seq<Tri>, H: Measures,
                 seeds: seq<Vec>, w: real)
    requires LeavesMeasured(a, leaves, H) && Assigned(b, a, seeds, w)
    requires EdgesMeasured(s, b, H, seeds, w)
    ensures Finished(s, leaves, H, seeds, w)
  {
    forall i | 0 <= i < |s|
      ensures SameShape(s[i], leaves[i]) && s[i].area == H.Area(leaves[i].p)
      ensures s[i].centroid == H.Tear(Centroid(leaves[i].p))
      ensures IsCell(s[i].centroid, seeds, w, s[i].cell)
      ensures s[i].edge == EdgesOf(s[i], H, seeds, w)
    {
      assert a[i] == MeasuredLeaf(leaves[i], H);
      assert b[i] == a[i].(cell := b[i].cell) && IsCell(a[i].centroid, seeds, w, b[i].cell);
      assert s[i] == b[i].(edge := EdgesOf(b[i], H, seeds, w));
    }
  }

  lemma FinishedReady(C: Cutter, src: seq<Tri>, s: seq<Tri>, H: Measures, seeds: seq<Vec>, w: real)
    requires Finished(s, AllLeaves(C, src, |src|), H, seeds, w)
    requires forall n :: 0 <= n < |src| ==> WellCut(TreeOf(C, src, n))
    ensures Ready(C, src, s, H.CoreGauge(seeds, w))
  {
    forall i | 0 <= i < |s| && s[i].cell == 0
      ensures s[i].edge == H.CoreGauge(seeds, w).Edges(s[i])
    {
      assert s[i].edge == EdgesOf(s[i], H, seeds, w);
    }
  }

  lemma FinishedWritten(s: seq<Tri>, leaves: seq<Tri>, H: Measures, seeds: seq<Vec>, w: real)
    requires Finished(s, leaves, H, seeds, w)
    ensures AreasWritten(s, H.area) && SameShapes(s, leaves)
    ensures AreaMoment(s, |s|, H.area) == AreaMoment(leaves, |leaves|, H.area)
  {
    SameMoment(s, leaves, H.area);
  }

  /** The areas written on the leaves add up to the area of the hull. */
  lemma FinishedArea(s: seq<Tri>, leaves: seq<Tri>, H: Measures, seeds: seq<Vec>, w: real)
    requires NeverNegative(H.area) && Finished(s, leaves, H, seeds, w)
    ensures TotalArea(s, |s|) == HullArea(leaves, |leaves|, H)
    ensures forall i :: 0 <= i < |s| ==> s[i].area >= 0.0
    ensures forall i :: 0 <= i < |s| ==> 0 <= s[i].cell < |seeds|
  {
    forall i | 0 <= i < |s| ensures s[i].area >= 0.0 && 0 <= s[i].cell < |seeds| {
      assert s[i].area == H.Area(leaves[i].p) && IsCell(s[i].centroid, seeds, w, s[i].cell);
    }
    WrittenArea(s, leaves, H, |s|);
  }

  lemma {:induction false} WrittenArea(s: seq<Tri>, leaves: seq<Tri>, H: Measures, n: nat)
    requires n <= |s| == |leaves| && forall i :: 0 <= i < |s| ==> s[i].area == H.Area(leaves[i].p)
    ensures TotalArea(s, n) == HullArea(leaves, n, H)
  {
    if n > 0 { WrittenArea(s, leaves, H, n - 1); }
  }

  datatype Params = Params(npieces: nat, coreFraction: real, grain: real, seed: bv32)

  /** The leaves when they had been measured and when the pieces were built, and the rest of the
      state then. */
  datatype Run = Run(measured: seq<Tri>, s: seq<Tri>, seeds: seq<Vec>, weight: real, lo: real, hi: real)

  function CuttingOf(P: Params, radius: real): Cutting {
    Cutting(P.grain * radius * P.grain * radius, EdgeHash(P.seed))
  }

  function MergingOf(radius: real): Merging {
    CoreMerging(0.025 * radius, 0.165 * radius, 0.015 * radius)
  }

  /** Weigh the core and label every leaf, given the leaves measured and the seeds placed. */
  method LabelFor(s: Soup, goal: real, radius: real, seeds: seq<Vec>, H: Measures,
                  ghost leaves: seq<Tri>)
    returns (ghost run: Run)
    requires LeavesMeasured(s.t, leaves, H) && seeds != []
    modifies s
    ensures run.seeds == seeds && run.measured == old(s.t) && run.s == s.t
    ensures Finished(run.s, leaves, H, seeds, run.weight)
    ensures Bracketed(run.measured, seeds, goal, radius, run.lo, run.hi, 40)
    ensures run.weight == run.lo || run.weight == run.hi
  {
    ghost var measured := s.t;
    var weight, lo, hi := Bisect(s, seeds, goal, radius);
    ghost var assigned' := s.t;
    MeasureEdges(s, H, seeds, weight);
    Finishes(leaves, measured, assigned', s.t, H, seeds, weight);
    run := Run(measured, s.t, seeds, weight, lo, hi);
  }

  /** Measure the leaves in s and, if there is anything to break, place the seeds. `picks` are the
      random numbers drawn for the debris seeds, number i for piece i, times the hull's area. */
  method MeasureAndSeed(s: Soup, npieces: nat, H: Measures, picks: seq<real>)
    returns (total: real, seeds: seq<Vec>)
    requires s.t != [] && 0 < npieces <= |picks|
    modifies s
    ensures LeavesMeasured(s.t, old(s.t), H) && total == HullArea(old(s.t), |old(s.t)|, H)
    ensures total > 0.0 ==>
              |seeds| == npieces && SeedsPlaced(seeds, s.t, HullMiddle(old(s.t), H), picks)
  {
    var moment;
    total, moment := MeasureLeaves(s, H);
    if total <= 0.0 { return total, []; }
    var middle := Vec(moment.x / total, moment.y / total, moment.z / total);
    seeds := PlaceSeeds(s.t, middle, picks, npieces);
  }

  function HullMiddle(hull: seq<Tri>, H: Measures): Vec
    requires HullArea(hull, |hull|, H) > 0.0
  {
    var moment, total := AreaMoment(hull, |hull|, H.area), HullArea(hull, |hull|, H);
    Vec(moment.x / total, moment.y / total, moment.z / total)
  }

  ghost predicate Labelled(leaves: seq<Tri>, goal: real, radius: real, npieces: nat, H: Measures,
                           run: Run)
  {
    && |run.seeds| == npieces
    && LeavesMeasured(run.measured, leaves, H)
    && Finished(run.s, leaves, H, run.seeds, run.weight)
    && Bracketed(run.measured, run.seeds, goal, radius, run.lo, run.hi, 40)
    && (run.weight == run.lo || run.weight == run.hi)
  }

  /** The state before the pieces are built: leaves cut from the hull, labelled for the seeds that
      the draws give and the weight that the bisection finds. */
  ghost predicate Shattered(C: Cutter, src: seq<Tri>, radius: real, P: Params, H: Measures,
                            picks: seq<real>, run: Run)
    requires HullArea(src, |src|, H) > 0.0
  {
    && HullArea(AllLeaves(C, src, |src|), Start(C, src, |src|), H) == HullArea(src, |src|, H)
    && Labelled(AllLeaves(C, src, |src|), Goal(P, HullArea(src, |src|, H)), radius, Count(P), H, run)
    && SeedsPlaced(run.seeds, run.measured, HullMiddle(src, H), picks)
  }

  /** What breaking the hull into pieces comes to, when there are any. */
  ghost predicate Fractured(C: Cutter, M: Merging, src: seq<Tri>, radius: real, P: Params,
                            H: Measures, picks: seq<real>, pieces: seq<Piece>, run: Run)
  {
    && HullArea(src, |src|, H) > 0.0
    && Shattered(C, src, radius, P, H, picks, run)
    && CoreOf(Tris(CorePatches(C, src, run.s, |src|, M)), run.s)
    && Pieces(pieces, run.s, Count(P))
    && PiecesArea(pieces, |pieces|) == HullArea(src, |src|, H)
    && PiecesMoment(pieces, |pieces|) == AreaMoment(src, |src|, H.area)
  }

  function Goal(P: Params, total: real): real { P.coreFraction * total }

  function Count(P: Params): nat { if P.npieces < 2 then 2 else P.npieces }

  /** Cut the hull up, and measure, seed, weigh and label its leaves, if it has any area. */
  method Shatter(C: Cutter, src: seq<Tri>, radius: real, P: Params, H: Measures, picks: seq<real>)
    returns (s: Soup, some: bool, ghost run: Run)
    requires NeverNegative(H.area) && AllBalance(C, H.area) && |picks| >= Count(P)
    ensures fresh(s) && (some <==> HullArea(src, |src|, H) > 0.0)
    ensures some ==> s.t == run.s && Shattered(C, src, radius, P, H, picks, run)
  {
    s := SubdivideAll(C, src);
    run := Run([], [], [], 0.0, 0.0, 0.0);
    if src == [] { return s, false, run; }
    ghost var leaves := s.t;
    LeavesBalance(C, src, H.area);
    StartMonotone(C, src, 1, |src|);
    var total, seeds := MeasureAndSeed(s, Count(P), H, picks);
    some := total > 0.0;
    if some { run := LabelFor(s, Goal(P, total), radius, seeds, H, leaves); }
  }

  method FractureWith(C: Cutter, M: Merging, src: seq<Tri>, radius: real, P: Params, H: Measures,
                      picks: seq<real>)
    returns (pieces: seq<Piece>, ghost run: Run)
    requires NeverNegative(H.area) && AllBalance(C, H.area) && |picks| >= Count(P)
    ensures HullArea(src, |src|, H) > 0.0 ==> Shattered(C, src, radius, P, H, picks, run)
    ensures pieces != [] ==> Fractured(C, M, src, radius, P, H, picks, pieces, run)
    ensures pieces == [] <==>
              HullArea(src, |src|, H) <= 0.0 || CellArea(run.s, 0, |run.s|, 0) == 0.0
  {
    var s, some;
    s, some, run := Shatter(C, src, radius, P, H, picks);
    if !some { return [], run; }
    var core, _ := CoalesceCore(C, src, s, M);
    ShatteredAddsUp(C, M, src, radius, P, H, picks, run);
    pieces := BuildPieces(core.t, s.t, Count(P));
  }

  /** What the leaves have when the pieces are built from them: between them the area of the hull
      and its balance; and the core, put back together, its leaves' share of both. */
  lemma ShatteredAddsUp(C: Cutter, M: Merging, src: seq<Tri>, radius: real, P: Params, H: Measures,
                        picks: seq<real>, run: Run)
    requires NeverNegative(H.area) && AllBalance(C, H.area)
    requires HullArea(src, |src|, H) > 0.0 && Shattered(C, src, radius, P, H, picks, run)
    ensures forall i :: 0 <= i < |run.s| ==> run.s[i].area >= 0.0
    ensures CellsArea(run.s, |run.s|, Count(P)) == HullArea(src, |src|, H)
    ensures CellsMoment(run.s, |run.s|, Count(P)) == AreaMoment(src, |src|, H.area)
    ensures CoreOf(Tris(CorePatches(C, src, run.s, |src|, M)), run.s)
  {
    var leaves := AllLeaves(C, src, |src|);
    FinishedArea(run.s, leaves, H, run.seeds, run.weight);
    FinishedWritten(run.s, leaves, H, run.seeds, run.weight);
    LeavesBalance(C, src, H.area);
    CellsAddUp(run.s, |run.s|, Count(P));
    CellsBalance(run.s, Count(P), H.area);
    CoreKeepsArea(C, src, run.s, |src|, M);
    CoreKeepsMoment(C, src, run.s, M, H.area);
  }

  /** mesh_fracture(). A hull with area is always cut up, labelled and seeded as Shattered says;
      pieces come of it unless the core is left without area. */
  method Fracture(src: seq<Tri>, radius: real, P: Params, H: Measures, picks: seq<real>)
    returns (pieces: seq<Piece>, ghost run: Run)
    requires IsArea(H.area) && |picks| >= Count(P)
    ensures HullArea(src, |src|, H) > 0.0 ==>
              Shattered(CuttingOf(P, radius).AsCutter(), src, radius, P, H, picks, run)
    ensures pieces != [] ==>
              Fractured(CuttingOf(P, radius).AsCutter(), MergingOf(radius), src, radius, P, H, picks,
                        pieces, run)
    ensures pieces == [] <==>
              HullArea(src, |src|, H) <= 0.0 || CellArea(run.s, 0, |run.s|, 0) == 0.0
  {
    CutsBalance(CuttingOf(P, radius), H.area);
    pieces, run := FractureWith(CuttingOf(P, radius).AsCutter(), MergingOf(radius), src, radius, P, H,
                                picks);
  }

  /** Of every fractured hull: each core triangle is one that came up in the cutting, with the
      tear distances measured at its corners, and together they are the greatest such triangles
      that the glow and the scorch allow. */
  lemma CoreOfFractured(C: Cutting, M: Merging, src: seq<Tri>, radius: real, P: Params,
                        H: Measures, picks: seq<real>, pieces: seq<Piece>, run: Run)
    requires Fractured(C.AsCutter(), M, src, radius, P, H, picks, pieces, run)
    ensures Ready(C.AsCutter(), src, run.s, H.CoreGauge(run.seeds, run.weight))
    ensures Nodes(CorePatches(C.AsCutter(), src, run.s, |src|, M))
            == AllCoreNodes(C.AsCutter(), src, run.s, |src|, M, H.CoreGauge(run.seeds, run.weight))
  {
    TreesWellCut(C, src);
    FinishedReady(C.AsCutter(), src, run.s, H, run.seeds, run.weight);
    CoreIsGreatest(C.AsCutter(), src, run.s, |src|, M, H.CoreGauge(run.seeds, run.weight));
  }

  lemma TreesWellCut(C: Cutting, src: seq<Tri>)
    ensures forall n :: 0 <= n < |src| ==> WellCut(TreeOf(C.AsCutter(), src, n))
  {
    forall n | 0 <= n < |src| ensures WellCut(TreeOf(C.AsCutter(), src, n)) {
      TreeIsWellCut(C, src[n], 0);
    }
  }
}
