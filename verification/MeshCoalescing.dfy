/** coalesce_core_subdivide: the second walk over the cuts of mesh_fracture.c. It consumes the
    leaves that the first walk left, in order, and puts the core back together out of as few
    triangles as the tear's glow and scorch allow. */
module MeshCoalescing {
  import opened Reals

  import opened MeshCuts

  /** When triangles may be merged, going by their corners' distances to the tear: whether a
      triangle is clear of the tear's glow; and whether the distance runs straight enough across
      a cut, given it at the cut edge's ends e0 and e1, at the opposite corner e2, and at mid,
      the point a fraction f along the edge where it was cut. */
  datatype Merging = Merging(
    clear: Triple<real> -> bool,
    straight: (real, real, real, real, real) -> bool)
  {
    predicate Clear(edge: Triple<real>) { clear(edge) }

    predicate Straight(e0: real, e1: real, e2: real, mid: real, f: real) {
      straight(e0, e1, e2, mid, f)
    }

    predicate MayMerge(i: Corner, f: real, ta: Tri, tb: Tri) {
      Straight(ta.edge.At(i), tb.edge.At(Next(i)), ta.edge.At(Next(Next(i))),
               ta.edge.At(Next(i)), f)
    }
  }

  /** The C code's rule. Below glow_limit nothing is merged; past scorch_limit merging is free; in
      between, only where the distance is linear to within scorch_tol. */
  function CoreMerging(glow: real, scorch: real, tolerance: real): Merging {
    Merging((e: Triple<real>) => e.a >= glow && e.b >= glow && e.c >= glow,
            (e0: real, e1: real, e2: real, mid: real, f: real) =>
              || (e0 >= scorch && e1 >= scorch && e2 >= scorch && mid >= scorch)
              || Abs(mid - (e0 + f * (e1 - e0))) <= tolerance)
  }

  /** The parent t, with what its halves ta and tb were found to have. */
  function Merged(t: Tri, i: Corner, ta: Tri, tb: Tri): Tri {
    t.(cell := 0, area := ta.area + tb.area, edge := ta.edge.Put(Next(i), tb.edge.At(Next(i))))
  }

  /** One triangle of the core, the part of the tree it stands for, and its leaves lo..hi. */
  datatype Patch = Patch(tri: Tri, node: Cuts, lo: nat, hi: nat)

  datatype Walked = Walked(patches: seq<Patch>, single: bool)

  /** What the walk over the cuts c puts on the core, when its leaves start at s[at]. */
  function Walk(s: seq<Tri>, at: nat, c: Cuts, M: Merging): (w: Walked)
    requires at + c.Size() <= |s|
    ensures w.single ==> |w.patches| == 1
    decreases c
  {
    match c
    case Leaf(_) =>
      if s[at].cell != 0 then Walked([], false)
      else Walked([Patch(s[at], c, at, at + 1)], M.Clear(s[at].edge))
    case Cut(_, _, _, first, second) =>
      Combine(c, at, Walk(s, at, first, M), Walk(s, at + first.Size(), second, M), M)
  }

  /** What the two halves put on the core, or the one triangle that replaces it. */
  function Combine(c: Cuts, at: nat, a: Walked, b: Walked, M: Merging): (w: Walked)
    requires c.Cut?
    requires (a.single ==> |a.patches| == 1) && (b.single ==> |b.patches| == 1)
    ensures w.single ==> |w.patches| == 1
  {
    if a.single && b.single
      && M.MayMerge(c.longest, c.fraction, a.patches[0].tri, b.patches[0].tri)
    then
      var merged := Merged(c.t, c.longest, a.patches[0].tri, b.patches[0].tri);
      Walked([Patch(merged, c, at, at + c.Size())], true)
    else Walked(a.patches + b.patches, false)
  }

  function Tris(patches: seq<Patch>): (r: seq<Tri>)
    ensures |r| == |patches|
  {
    TrisTo(patches, |patches|)
  }

  function TrisTo(patches: seq<Patch>, n: nat): (r: seq<Tri>)
    requires n <= |patches|
    ensures |r| == n
  {
    if n == 0 then [] else TrisTo(patches, n - 1) + [patches[n - 1].tri]
  }

  lemma {:induction false} TrisConcat(a: seq<Patch>, b: seq<Patch>)
    ensures Tris(a + b) == Tris(a) + Tris(b)
  {
    TrisToConcat(a, b, |a| + |b|);
  }

  lemma {:induction false} TrisToConcat(a: seq<Patch>, b: seq<Patch>, n: nat)
    requires n <= |a| + |b|
    ensures TrisTo(a + b, n) == if n <= |a| then TrisTo(a, n) else Tris(a) + TrisTo(b, n - |a|)
  {
    if n > 0 { TrisToConcat(a, b, n - 1); }
  }

  lemma TrisOne(p: Patch)
    ensures Tris([p]) == [p.tri]
  {
    assert TrisTo([p], 0) == [];
  }

  lemma SingleTris(w: Walked)
    requires w.single && |w.patches| == 1
    ensures Tris(w.patches) == [w.patches[0].tri]
  {
    assert w.patches == [w.patches[0]];
    TrisOne(w.patches[0]);
  }

  /** The C function returns 1 for collapsed = true and 0 for false; `next` is *leaf_idx. */
  method Coalesce(core: Soup, s: Soup, leafIdx: nat, C: Cutter, t: Tri, depth: nat, M: Merging)
    returns (collapsed: bool, next: nat)
    requires core != s && leafIdx + C.Tree(t, depth).Size() <= |s.t|
    modifies core
    ensures next == leafIdx + C.Tree(t, depth).Size()
    ensures core.t == old(core.t) + Tris(Walk(s.t, leafIdx, C.Tree(t, depth), M).patches)
    ensures collapsed == Walk(s.t, leafIdx, C.Tree(t, depth), M).single
    decreases MAX_DEPTH - depth, 1
  {
    ghost var tree := C.Tree(t, depth);
    if C.IsLeaf(t, depth) {
      collapsed, next := CoalesceLeaf(core, s.t, leafIdx, M, tree);
    } else {
      collapsed, next := CoalesceCut(core, s, leafIdx, C, t, depth, M);
    }
  }

  method CoalesceLeaf(core: Soup, s: seq<Tri>, leafIdx: nat, M: Merging, ghost c: Cuts)
    returns (collapsed: bool, next: nat)
    requires leafIdx < |s| && c.Leaf?
    modifies core
    ensures next == leafIdx + 1
    ensures core.t == old(core.t) + Tris(Walk(s, leafIdx, c, M).patches)
    ensures collapsed == Walk(s, leafIdx, c, M).single
  {
    var leaf := s[leafIdx];
    next := leafIdx + 1;
    if leaf.cell != 0 { return false, next; }
    TrisOne(Patch(leaf, c, leafIdx, leafIdx + 1));
    core.Add(leaf);
    collapsed := M.Clear(leaf.edge);
  }

  method CoalesceCut(core: Soup, s: Soup, leafIdx: nat, C: Cutter, t: Tri, depth: nat, M: Merging)
    returns (collapsed: bool, next: nat)
    requires core != s && leafIdx + C.Tree(t, depth).Size() <= |s.t| && !C.IsLeaf(t, depth)
    modifies core
    ensures next == leafIdx + C.Tree(t, depth).Size()
    ensures core.t == old(core.t) + Tris(Walk(s.t, leafIdx, C.Tree(t, depth), M).patches)
    ensures collapsed == Walk(s.t, leafIdx, C.Tree(t, depth), M).single
    decreases MAX_DEPTH - depth, 0
  {
    var mark := |core.t|;
    ghost var was, tree := core.t, C.Tree(t, depth);
    ghost var a := Walk(s.t, leafIdx, tree.first, M);
    ghost var b := Walk(s.t, leafIdx + tree.first.Size(), tree.second, M);
    var ca, cb;
    ca, next := Coalesce(core, s, leafIdx, C, C.First(t), depth + 1, M);
    cb, next := Coalesce(core, s, next, C, C.Second(t), depth + 1, M);
    collapsed := Merge(core, mark, t, C.Longest(t), C.Fraction(t), ca && cb, M, was, tree, leafIdx, a, b);
  }

  /** The last lines of the C function: the two triangles above the mark become one, if they are
      all that the halves left and may be merged. */
  method Merge(core: Soup, mark: nat, t: Tri, i: Corner, f: real, both: bool, M: Merging,
               ghost was: seq<Tri>, ghost c: Cuts, ghost at: nat, ghost a: Walked, ghost b: Walked)
    returns (collapsed: bool)
    requires c.Cut? && c.t == t && c.longest == i && c.fraction == f
    requires (a.single ==> |a.patches| == 1) && (b.single ==> |b.patches| == 1)
    requires mark == |was| && core.t == was + Tris(a.patches) + Tris(b.patches)
    requires both == (a.single && b.single)
    modifies core
    ensures core.t == was + Tris(Combine(c, at, a, b, M).patches)
    ensures collapsed == Combine(c, at, a, b, M).single
  {
    StackCombined(was, core.t, c, at, a, b, M);
    collapsed := both && M.MayMerge(i, f, core.t[mark], core.t[mark + 1]);
    if collapsed {
      var merged := Merged(t, i, core.t[mark], core.t[mark + 1]);
      core.t := core.t[..mark];
      core.Add(merged);
    }
  }

  /** The core after both halves: when both are single, the two triangles above the mark are
      theirs. */
  lemma StackOfTwo(was: seq<Tri>, a: Walked, b: Walked)
    requires (a.single ==> |a.patches| == 1) && (b.single ==> |b.patches| == 1)
    ensures var t := was + Tris(a.patches) + Tris(b.patches);
      && t == was + Tris(a.patches + b.patches)
      && t[..|was|] == was
      && (a.single && b.single ==>
            |t| == |was| + 2
            && t[|was|] == a.patches[0].tri && t[|was| + 1] == b.patches[0].tri)
  {
    TrisConcat(a.patches, b.patches);
    if a.single { SingleTris(a); }
    if b.single { SingleTris(b); }
  }

  /** The core t after both halves, and after the merge if there is one. */
  lemma StackCombined(was: seq<Tri>, t: seq<Tri>, c: Cuts, at: nat, a: Walked, b: Walked, M: Merging)
    requires c.Cut? && t == was + Tris(a.patches) + Tris(b.patches)
    requires (a.single ==> |a.patches| == 1) && (b.single ==> |b.patches| == 1)
    ensures a.single && b.single ==> |t| == |was| + 2
    ensures var w, k := Combine(c, at, a, b, M), |was|;
      if a.single && b.single && M.MayMerge(c.longest, c.fraction, t[k], t[k + 1])
      then w.single && t[..k] + [Merged(c.t, c.longest, t[k], t[k + 1])] == was + Tris(w.patches)
      else !w.single && t == was + Tris(w.patches)
  {
    var w := Combine(c, at, a, b, M);
    StackOfTwo(was, a, b);
    if w.single { SingleTris(w); }
  }

  // ----- Every core leaf is covered once

  /** How many patches have leaf k among their leaves. */
  function Covers(patches: seq<Patch>, k: nat): nat {
    CoversTo(patches, |patches|, k)
  }

  function CoversTo(patches: seq<Patch>, n: nat, k: nat): nat
    requires n <= |patches|
  {
    if n == 0 then 0
    else
      var p := patches[n - 1];
      CoversTo(patches, n - 1, k) + if p.lo <= k < p.hi then 1 else 0
  }

  lemma {:induction false} CoversConcat(a: seq<Patch>, b: seq<Patch>, n: nat, k: nat)
    requires n <= |a| + |b|
    ensures CoversTo(a + b, n, k)
            == if n <= |a| then CoversTo(a, n, k) else Covers(a, k) + CoversTo(b, n - |a|, k)
  {
    if n > 0 { CoversConcat(a, b, n - 1, k); }
  }

  lemma CoversOne(p: Patch, k: nat)
    ensures Covers([p], k) == if p.lo <= k < p.hi then 1 else 0
  {
    assert CoversTo([p], 0, k) == 0;
  }

  lemma {:induction false} SingleSpansAll(s: seq<Tri>, at: nat, c: Cuts, M: Merging)
    requires at + c.Size() <= |s|
    ensures var w := Walk(s, at, c, M);
      w.single ==> w.patches[0].lo == at && w.patches[0].hi == at + c.Size()
  {
    match c case Leaf(_) => case Cut(_, _, _, _, _) =>
  }

  /** A leaf of the tree is in exactly one patch if it belongs to the core, else in none. */
  lemma {:induction false} WalkCovers(s: seq<Tri>, at: nat, c: Cuts, M: Merging, k: nat)
    requires at + c.Size() <= |s|
    ensures Covers(Walk(s, at, c, M).patches, k)
            == if at <= k < at + c.Size() && s[k].cell == 0 then 1 else 0
    decreases c
  {
    if c.Leaf? {
      LeafCovers(s, at, c, M, k);
    } else {
      WalkCovers(s, at, c.first, M, k);
      WalkCovers(s, at + c.first.Size(), c.second, M, k);
      CutCovers(s, at, c, M, k);
    }
  }

  lemma LeafCovers(s: seq<Tri>, at: nat, c: Cuts, M: Merging, k: nat)
    requires c.Leaf? && at < |s|
    ensures Covers(Walk(s, at, c, M).patches, k) == if k == at && s[k].cell == 0 then 1 else 0
  {
    if s[at].cell == 0 { CoversOne(Patch(s[at], c, at, at + 1), k); }
  }

  lemma CutCovers(s: seq<Tri>, at: nat, c: Cuts, M: Merging, k: nat)
    requires c.Cut? && at + c.Size() <= |s|
    ensures Covers(Walk(s, at, c, M).patches, k)
            == Covers(Walk(s, at, c.first, M).patches, k)
             + Covers(Walk(s, at + c.first.Size(), c.second, M).patches, k)
  {
    var mid := at + c.first.Size();
    SingleSpansAll(s, at, c.first, M);
    SingleSpansAll(s, mid, c.second, M);
    CombineCovers(c, at, Walk(s, at, c.first, M), Walk(s, mid, c.second, M), M, k);
  }

  lemma CombineCovers(c: Cuts, at: nat, a: Walked, b: Walked, M: Merging, k: nat)
    requires c.Cut?
    requires (a.single ==> |a.patches| == 1) && (b.single ==> |b.patches| == 1)
    requires a.single ==> a.patches[0].lo == at && a.patches[0].hi == at + c.first.Size()
    requires b.single ==> b.patches[0].lo == at + c.first.Size()
                          && b.patches[0].hi == at + c.Size()
    ensures Covers(Combine(c, at, a, b, M).patches, k) == Covers(a.patches, k) + Covers(b.patches, k)
  {
    var w := Combine(c, at, a, b, M);
    if w.single {
      assert a.patches == [a.patches[0]] && b.patches == [b.patches[0]];
      CoversOne(a.patches[0], k);
      CoversOne(b.patches[0], k);
      CoversOne(w.patches[0], k);
    } else {
      CoversConcat(a.patches, b.patches, |a.patches| + |b.patches|, k);
    }
  }

  // ----- Area

  /** The area of cell `cell` among s[lo..hi]; cell_area is this over all of s. */
  function CellArea(s: seq<Tri>, lo: nat, hi: nat, cell: int): real
    requires lo <= hi <= |s|
    decreases hi
  {
    if lo == hi then 0.0
    else CellArea(s, lo, hi - 1, cell) + if s[hi - 1].cell == cell then s[hi - 1].area else 0.0
  }

  lemma {:induction false} CellAreaSplit(s: seq<Tri>, lo: nat, mid: nat, hi: nat, cell: int)
    requires lo <= mid <= hi <= |s|
    ensures CellArea(s, lo, hi, cell) == CellArea(s, lo, mid, cell) + CellArea(s, mid, hi, cell)
    decreases hi
  {
    if mid < hi { CellAreaSplit(s, lo, mid, hi - 1, cell); }
  }

  lemma {:induction false} CellAreaConcat(a: seq<Tri>, b: seq<Tri>, n: nat, cell: int)
    requires n <= |a| + |b|
    ensures CellArea(a + b, 0, n, cell)
            == if n <= |a| then CellArea(a, 0, n, cell)
               else CellArea(a, 0, |a|, cell) + CellArea(b, 0, n - |a|, cell)
  {
    if n > 0 { CellAreaConcat(a, b, n - 1, cell); }
  }

  /** The core area of a list of triangles. */
  function CoreArea(s: seq<Tri>): real { CellArea(s, 0, |s|, 0) }

  lemma AreaOne(t: Tri)
    ensures CoreArea([t]) == if t.cell == 0 then t.area else 0.0
  {
    assert CellArea([t], 0, 0, 0) == 0.0;
  }

  /** The walk puts on the core as much area as the tree's leaves have in cell 0. */
  lemma {:induction false} WalkArea(s: seq<Tri>, at: nat, c: Cuts, M: Merging)
    requires at + c.Size() <= |s|
    ensures CoreArea(Tris(Walk(s, at, c, M).patches)) == CellArea(s, at, at + c.Size(), 0)
    decreases c
  {
    if c.Leaf? {
      LeafArea(s, at, c, M);
    } else {
      WalkArea(s, at, c.first, M);
      WalkArea(s, at + c.first.Size(), c.second, M);
      CutArea(s, at, c, M);
    }
  }

  lemma CutArea(s: seq<Tri>, at: nat, c: Cuts, M: Merging)
    requires c.Cut? && at + c.Size() <= |s|
    ensures CoreArea(Tris(Walk(s, at, c, M).patches))
            == CoreArea(Tris(Walk(s, at, c.first, M).patches))
             + CoreArea(Tris(Walk(s, at + c.first.Size(), c.second, M).patches))
    ensures CellArea(s, at, at + c.Size(), 0)
            == CellArea(s, at, at + c.first.Size(), 0)
             + CellArea(s, at + c.first.Size(), at + c.Size(), 0)
  {
    var mid := at + c.first.Size();
    SingleIsCore(s, at, c.first, M);
    SingleIsCore(s, mid, c.second, M);
    CombineArea(c, at, Walk(s, at, c.first, M), Walk(s, mid, c.second, M), M);
    CellAreaSplit(s, at, mid, at + c.Size(), 0);
  }

  lemma SingleIsCore(s: seq<Tri>, at: nat, c: Cuts, M: Merging)
    requires at + c.Size() <= |s|
    ensures Walk(s, at, c, M).single ==> Walk(s, at, c, M).patches[0].tri.cell == 0
  {}

  lemma LeafArea(s: seq<Tri>, at: nat, c: Cuts, M: Merging)
    requires c.Leaf? && at < |s|
    ensures CoreArea(Tris(Walk(s, at, c, M).patches)) == CellArea(s, at, at + 1, 0)
  {
    AreaOne(s[at]);
    if s[at].cell == 0 { TrisOne(Patch(s[at], c, at, at + 1)); }
  }

  lemma CombineArea(c: Cuts, at: nat, a: Walked, b: Walked, M: Merging)
    requires c.Cut?
    requires a.single ==> |a.patches| == 1 && a.patches[0].tri.cell == 0
    requires b.single ==> |b.patches| == 1 && b.patches[0].tri.cell == 0
    ensures CoreArea(Tris(Combine(c, at, a, b, M).patches))
            == CoreArea(Tris(a.patches)) + CoreArea(Tris(b.patches))
  {
    var w := Combine(c, at, a, b, M);
    if w.single {
      assert a.patches == [a.patches[0]] && b.patches == [b.patches[0]];
      MergedArea(c.t, c.longest, a.patches[0], b.patches[0], w.patches[0]);
    } else {
      TrisConcat(a.patches, b.patches);
      CellAreaConcat(Tris(a.patches), Tris(b.patches), |a.patches| + |b.patches|, 0);
    }
  }

  lemma MergedArea(t: Tri, i: Corner, a: Patch, b: Patch, p: Patch)
    requires p.tri == Merged(t, i, a.tri, b.tri) && a.tri.cell == 0 && b.tri.cell == 0
    ensures CoreArea(Tris([p])) == CoreArea(Tris([a])) + CoreArea(Tris([b]))
  {
    TrisOne(a);
    TrisOne(b);
    TrisOne(p);
    AreaOne(a.tri);
    AreaOne(b.tri);
    AreaOne(p.tri);
  }

  // ----- The shape of what is put on the core

  /** The leaves of c, with whatever was written on them since, are s[at..]. */
  ghost predicate Holds(s: seq<Tri>, at: nat, c: Cuts)
    decreases c
  {
    && at + c.Size() <= |s|
    && match c
       case Leaf(t) => SameShape(s[at], t)
       case Cut(_, _, _, first, second) =>
         Holds(s, at, first) && Holds(s, at + first.Size(), second)
  }

  lemma {:induction false} LeavesHold(s: seq<Tri>, at: nat, c: Cuts)
    requires at + c.Size() <= |s|
    requires forall k :: 0 <= k < c.Size() ==> SameShape(s[at + k], c.Leaves()[k])
    ensures Holds(s, at, c)
    decreases c
  {
    match c
    case Leaf(t) =>
      assert SameShape(s[at + 0], c.Leaves()[0]);
    case Cut(_, _, _, first, second) =>
      var n := first.Size();
      forall k | 0 <= k < n ensures SameShape(s[at + k], first.Leaves()[k]) {
        assert c.Leaves()[k] == first.Leaves()[k];
      }
      forall k | 0 <= k < second.Size() ensures SameShape(s[at + n + k], second.Leaves()[k]) {
        assert SameShape(s[at + (n + k)], c.Leaves()[n + k]);
        assert at + (n + k) == at + n + k;
      }
      LeavesHold(s, at, first);
      LeavesHold(s, at + n, second);
  }

  ghost predicate Subtree(n: Cuts, c: Cuts) {
    n == c || (c.Cut? && (Subtree(n, c.first) || Subtree(n, c.second)))
  }

  /** The patch has the shape of a triangle that came up in the cutting, whose leaves are the
      ones that the patch covers, and it belongs to the core. */
  ghost predicate Fits(s: seq<Tri>, c: Cuts, p: Patch) {
    && Subtree(p.node, c) && SameShape(p.tri, p.node.t)
    && p.hi == p.lo + p.node.Size() && Holds(s, p.lo, p.node)
    && p.tri.cell == 0
  }

  lemma {:induction false} WalkFits(s: seq<Tri>, at: nat, c: Cuts, M: Merging)
    requires Holds(s, at, c)
    ensures forall p :: p in Walk(s, at, c, M).patches ==> Fits(s, c, p)
    decreases c
  {
    match c
    case Leaf(_) =>
    case Cut(t, i, _, first, second) =>
      var mid := at + first.Size();
      WalkFits(s, at, first, M);
      WalkFits(s, mid, second, M);
      forall p | p in Walk(s, at, c, M).patches ensures Fits(s, c, p) {
        if p in Walk(s, at, first, M).patches {
          assert Fits(s, first, p);
        } else if p in Walk(s, mid, second, M).patches {
          assert Fits(s, second, p);
        }
      }
  }

  // ----- Tear distances, and when triangles are merged

  /** How far a point of the core with a given normal is from the nearest tear. */
  datatype Gauge = Gauge(distance: (Vec, Vec) -> real) {
    function At(t: Tri, k: Corner): real { distance(t.p.At(k), t.n.At(k)) }
    function Edges(t: Tri): Triple<real> { Triple(At(t, 0), At(t, 1), At(t, 2)) }
  }

  ghost predicate Measured(s: seq<Tri>, G: Gauge) {
    forall k :: 0 <= k < |s| && s[k].cell == 0 ==> s[k].edge == G.Edges(s[k])
  }

  predicate SameCorner(t: Tri, i: Corner, u: Tri, j: Corner) {
    t.p.At(i) == u.p.At(j) && t.n.At(i) == u.n.At(j)
  }

  /** The halves share the point where the edge is cut and keep the parent's other corners. */
  predicate WellCut(c: Cuts) {
    match c
    case Leaf(_) => true
    case Cut(t, i, _, first, second) =>
      && SameCorner(t, i, first.t, i)
      && SameCorner(t, Next(i), second.t, Next(i))
      && SameCorner(t, Next(Next(i)), first.t, Next(Next(i)))
      && SameCorner(t, Next(Next(i)), second.t, Next(Next(i)))
      && SameCorner(first.t, Next(i), second.t, i)
      && WellCut(first) && WellCut(second)
  }

  /** The triangle at the root of c may stand for all its leaves: they are core leaves clear of
      the glow, and across each cut the tear distance runs straight. Said of the distances
      themselves, without the walk. */
  predicate Collapses(s: seq<Tri>, at: nat, c: Cuts, M: Merging, G: Gauge)
    requires at + c.Size() <= |s|
    decreases c
  {
    match c
    case Leaf(t) => s[at].cell == 0 && M.Clear(G.Edges(t))
    case Cut(t, i, f, first, second) =>
      && Collapses(s, at, first, M, G)
      && Collapses(s, at + first.Size(), second, M, G)
      && M.Straight(G.At(t, i), G.At(t, Next(i)), G.At(t, Next(Next(i))), G.At(first.t, Next(i)),
                    f)
  }

  /** The greatest subtrees that collapse, and the core leaves that are in none. */
  function CoreNodes(s: seq<Tri>, at: nat, c: Cuts, M: Merging, G: Gauge): seq<Cuts>
    requires at + c.Size() <= |s|
    decreases c
  {
    if Collapses(s, at, c, M, G) then [c]
    else match c
      case Leaf(_) => if s[at].cell == 0 then [c] else []
      case Cut(_, _, _, first, second) =>
        CoreNodes(s, at, first, M, G) + CoreNodes(s, at + first.Size(), second, M, G)
  }

  function Nodes(patches: seq<Patch>): (r: seq<Cuts>)
    ensures |r| == |patches|
  {
    NodesTo(patches, |patches|)
  }

  function NodesTo(patches: seq<Patch>, n: nat): (r: seq<Cuts>)
    requires n <= |patches|
    ensures |r| == n
  {
    if n == 0 then [] else NodesTo(patches, n - 1) + [patches[n - 1].node]
  }

  /** A patch has the distances that were measured at its corners. */
  predicate Gauged(p: Patch, G: Gauge) {
    p.tri.p == p.node.t.p && p.tri.n == p.node.t.n && p.tri.edge == G.Edges(p.node.t)
  }

  lemma MergedGauged(t: Tri, i: Corner, first: Tri, second: Tri, a: Patch, b: Patch, G: Gauge)
    requires Gauged(a, G) && Gauged(b, G) && a.node.t == first && b.node.t == second
    requires SameCorner(t, i, first, i) && SameCorner(t, Next(i), second, Next(i))
    requires SameCorner(t, Next(Next(i)), first, Next(Next(i)))
    ensures Merged(t, i, a.tri, b.tri).edge == G.Edges(t)
  {
    assert i == 0 || i == 1 || i == 2;
  }

  ghost predicate AllGauged(patches: seq<Patch>, G: Gauge) {
    forall p :: p in patches ==> Gauged(p, G)
  }

  /** With the leaves measured, the walk's decisions are the ones that the distances ask for. */
  lemma {:induction false} WalkGauged(s: seq<Tri>, at: nat, c: Cuts, M: Merging, G: Gauge)
    requires Holds(s, at, c) && Measured(s, G) && WellCut(c)
    ensures var w := Walk(s, at, c, M);
      w.single == Collapses(s, at, c, M, G) && AllGauged(w.patches, G)
    decreases c
  {
    if c.Cut? {
      WalkGauged(s, at, c.first, M, G);
      WalkGauged(s, at + c.first.Size(), c.second, M, G);
      CutGauged(s, at, c, M, G);
    }
  }

  lemma CutGauged(s: seq<Tri>, at: nat, c: Cuts, M: Merging, G: Gauge)
    requires c.Cut? && at + c.Size() <= |s| && WellCut(c)
    requires var w := Walk(s, at, c.first, M);
      w.single == Collapses(s, at, c.first, M, G) && AllGauged(w.patches, G)
    requires var w := Walk(s, at + c.first.Size(), c.second, M);
      w.single == Collapses(s, at + c.first.Size(), c.second, M, G) && AllGauged(w.patches, G)
    ensures var w := Walk(s, at, c, M);
      w.single == Collapses(s, at, c, M, G) && AllGauged(w.patches, G)
  {
    var mid := at + c.first.Size();
    SingleIsRoot(s, at, c.first, M);
    SingleIsRoot(s, mid, c.second, M);
    CombineGauged(c, at, Walk(s, at, c.first, M), Walk(s, mid, c.second, M), M, G);
  }

  lemma CombineGauged(c: Cuts, at: nat, a: Walked, b: Walked, M: Merging, G: Gauge)
    requires c.Cut? && WellCut(c) && AllGauged(a.patches, G) && AllGauged(b.patches, G)
    requires a.single ==> |a.patches| == 1 && a.patches[0].node == c.first
    requires b.single ==> |b.patches| == 1 && b.patches[0].node == c.second
    ensures var w, i := Combine(c, at, a, b, M), c.longest;
      && AllGauged(w.patches, G)
      && w.single == (a.single && b.single
                      && M.Straight(G.At(c.t, i), G.At(c.t, Next(i)), G.At(c.t, Next(Next(i))),
                                    G.At(c.first.t, Next(i)), c.fraction))
  {
    var w := Combine(c, at, a, b, M);
    if a.single && b.single {
      var p, q := a.patches[0], b.patches[0];
      assert p in a.patches && q in b.patches;
      GaugedHalves(c, p, q, M, G);
      if w.single { MergedGauged(c.t, c.longest, c.first.t, c.second.t, p, q, G); }
    }
  }

  lemma SingleIsRoot(s: seq<Tri>, at: nat, c: Cuts, M: Merging)
    requires at + c.Size() <= |s|
    ensures Walk(s, at, c, M).single ==> Walk(s, at, c, M).patches[0].node == c
  {}

  /** What the walk looks at on the stack is what was measured at the parent's corners and at
      the point where it was cut. */
  lemma GaugedHalves(c: Cuts, a: Patch, b: Patch, M: Merging, G: Gauge)
    requires c.Cut? && WellCut(c) && Gauged(a, G) && Gauged(b, G)
    requires a.node == c.first && b.node == c.second
    ensures var i := c.longest;
      M.MayMerge(i, c.fraction, a.tri, b.tri)
      == M.Straight(G.At(c.t, i), G.At(c.t, Next(i)), G.At(c.t, Next(Next(i))),
                    G.At(c.first.t, Next(i)), c.fraction)
  {
    var i := c.longest;
    EdgesAt(G, c.first.t, i);
    EdgesAt(G, c.first.t, Next(i));
    EdgesAt(G, c.first.t, Next(Next(i)));
    EdgesAt(G, c.second.t, Next(i));
  }

  lemma EdgesAt(G: Gauge, t: Tri, k: Corner)
    ensures G.Edges(t).At(k) == G.At(t, k)
  {}

  lemma WalkCollapses(s: seq<Tri>, at: nat, c: Cuts, M: Merging, G: Gauge)
    requires Holds(s, at, c) && Measured(s, G) && WellCut(c)
    ensures Walk(s, at, c, M).single == Collapses(s, at, c, M, G)
  {
    WalkGauged(s, at, c, M, G);
  }

  /** The core is put together out of exactly the greatest subtrees that collapse. */
  lemma {:induction false} WalkNodes(s: seq<Tri>, at: nat, c: Cuts, M: Merging, G: Gauge)
    requires Holds(s, at, c) && Measured(s, G) && WellCut(c)
    ensures Nodes(Walk(s, at, c, M).patches) == CoreNodes(s, at, c, M, G)
    decreases c
  {
    WalkCollapses(s, at, c, M, G);
    if c.Leaf? {
      NodesOfLeaf(s, at, c, M, G);
    } else {
      WalkNodes(s, at, c.first, M, G);
      WalkNodes(s, at + c.first.Size(), c.second, M, G);
      NodesOfCut(s, at, c, M, G);
    }
  }

  lemma NodesOfLeaf(s: seq<Tri>, at: nat, c: Cuts, M: Merging, G: Gauge)
    requires c.Leaf? && at < |s| && Walk(s, at, c, M).single == Collapses(s, at, c, M, G)
    ensures Nodes(Walk(s, at, c, M).patches) == CoreNodes(s, at, c, M, G)
  {
    if s[at].cell == 0 { NodesOne(Patch(s[at], c, at, at + 1)); }
  }

  lemma NodesOfCut(s: seq<Tri>, at: nat, c: Cuts, M: Merging, G: Gauge)
    requires c.Cut? && at + c.Size() <= |s|
    requires Walk(s, at, c, M).single == Collapses(s, at, c, M, G)
    requires var mid := at + c.first.Size();
      && Nodes(Walk(s, at, c.first, M).patches) == CoreNodes(s, at, c.first, M, G)
      && Nodes(Walk(s, mid, c.second, M).patches) == CoreNodes(s, mid, c.second, M, G)
    ensures Nodes(Walk(s, at, c, M).patches) == CoreNodes(s, at, c, M, G)
  {
    CombineNodes(c, at, Walk(s, at, c.first, M), Walk(s, at + c.first.Size(), c.second, M), M);
  }

  lemma NodesOne(p: Patch)
    ensures Nodes([p]) == [p.node]
  {
    assert NodesTo([p], 0) == [];
  }

  lemma CombineNodes(c: Cuts, at: nat, a: Walked, b: Walked, M: Merging)
    requires c.Cut?
    requires (a.single ==> |a.patches| == 1) && (b.single ==> |b.patches| == 1)
    ensures var w := Combine(c, at, a, b, M);
      Nodes(w.patches) == if w.single then [c] else Nodes(a.patches) + Nodes(b.patches)
  {
    var w := Combine(c, at, a, b, M);
    if w.single {
      NodesOne(w.patches[0]);
    } else {
      NodesConcat(a.patches, b.patches);
    }
  }

  lemma {:induction false} NodesConcat(a: seq<Patch>, b: seq<Patch>)
    ensures Nodes(a + b) == Nodes(a) + Nodes(b)
  {
    NodesToConcat(a, b, |a| + |b|);
  }

  lemma {:induction false} NodesToConcat(a: seq<Patch>, b: seq<Patch>, n: nat)
    requires n <= |a| + |b|
    ensures NodesTo(a + b, n) == if n <= |a| then NodesTo(a, n) else Nodes(a) + NodesTo(b, n - |a|)
  {
    if n > 0 { NodesToConcat(a, b, n - 1); }
  }

  /** What a return of 1 stands for, by the C code's rule: one triangle, with the corners of the
      subtree's root, of the core, and no corner of it within the tear's glow. */
  ghost predicate Collapsed(t: Tri, root: Tri, glow: real) {
    SameShape(t, root) && t.cell == 0 && t.edge.a >= glow && t.edge.b >= glow && t.edge.c >= glow
  }

  lemma {:induction false} SingleIsClear(s: seq<Tri>, at: nat, c: Cuts, glow: real, scorch: real,
                                         tolerance: real)
    requires Holds(s, at, c)
    ensures var w := Walk(s, at, c, CoreMerging(glow, scorch, tolerance));
      w.single ==> Collapsed(w.patches[0].tri, c.t, glow)
    decreases c
  {
    if c.Cut? {
      SingleIsClear(s, at, c.first, glow, scorch, tolerance);
      SingleIsClear(s, at + c.first.Size(), c.second, glow, scorch, tolerance);
    }
  }

  /** coalesce_core_subdivide with the limits it is called with. If it returns 1 it has put one
      triangle on the core, and that may be merged further up. */
  method CoalesceWithin(core: Soup, s: Soup, leafIdx: nat, C: Cutter, t: Tri, depth: nat,
                        glow: real, scorch: real, tolerance: real)
    returns (collapsed: bool, next: nat)
    requires core != s && Holds(s.t, leafIdx, C.Tree(t, depth))
    modifies core
    ensures next == leafIdx + C.Tree(t, depth).Size() && |old(core.t)| <= |core.t|
    ensures core.t[..|old(core.t)|] == old(core.t)
    ensures collapsed ==> |core.t| == |old(core.t)| + 1 && Collapsed(core.t[|core.t| - 1], t, glow)
  {
    var M := CoreMerging(glow, scorch, tolerance);
    SingleIsClear(s.t, leafIdx, C.Tree(t, depth), glow, scorch, tolerance);
    ghost var w := Walk(s.t, leafIdx, C.Tree(t, depth), M);
    if w.single { SingleTris(w); }
    collapsed, next := Coalesce(core, s, leafIdx, C, t, depth, M);
  }
}
