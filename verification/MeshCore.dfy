/** The two walks of mesh_fracture.c over a whole hull: the leaves that subdividing all its
    triangles leaves, and the core put back together out of them. */
module MeshCore {
  import opened MeshCuts
  import opened MeshSubdivision
  import opened MeshCoalescing

  /** The tree of cuts of source triangle number n. */
  function TreeOf(C: Cutter, src: seq<Tri>, n: nat): Cuts
    requires n < |src|
  {
    C.Tree(src[n], 0)
  }

  /** How many leaves come before those of source triangle number n. */
  function Start(C: Cutter, src: seq<Tri>, n: nat): nat
    requires n <= |src|
  {
    if n == 0 then 0 else Start(C, src, n - 1) + TreeOf(C, src, n - 1).Size()
  }

  /** The leaves of the first n source triangles. */
  function AllLeaves(C: Cutter, src: seq<Tri>, n: nat): (s: seq<Tri>)
    requires n <= |src|
    ensures |s| == Start(C, src, n)
  {
    if n == 0 then [] else AllLeaves(C, src, n - 1) + TreeOf(C, src, n - 1).Leaves()
  }

  /** What cuts divide between the halves adds up over the leaves to what the hull has. */
  lemma {:induction false} AllLeavesAddUp(C: Cutter, src: seq<Tri>, n: nat, f: Tri -> real)
    requires Additive(C, f) && n <= |src|
    ensures Sum(AllLeaves(C, src, n), f) == SumTo(src, n, f)
  {
    if n > 0 {
      var a, b := AllLeaves(C, src, n - 1), TreeOf(C, src, n - 1).Leaves();
      AllLeavesAddUp(C, src, n - 1, f);
      LeavesAddUp(C, src[n - 1], 0, f);
      SumConcat(a, b, |a| + |b|, f);
    }
  }

  method SubdivideAll(C: Cutter, src: seq<Tri>) returns (s: Soup)
    ensures fresh(s) && s.t == AllLeaves(C, src, |src|)
  {
    s := new Soup();
    for i := 0 to |src|
      invariant s.t == AllLeaves(C, src, i)
    {
      Subdivide(s, C, src[i], 0);
    }
  }

  /** What the walk over the first n source triangles puts on the core. */
  function CorePatches(C: Cutter, src: seq<Tri>, s: seq<Tri>, n: nat, M: Merging): seq<Patch>
    requires n <= |src| && Start(C, src, n) <= |s|
  {
    if n == 0 then []
    else
      var tree := TreeOf(C, src, n - 1);
      CorePatches(C, src, s, n - 1, M) + Walk(s, Start(C, src, n - 1), tree, M).patches
  }

  /** coalesce_core. The leaves are used up exactly: the last leaf_idx is the number of leaves. */
  method CoalesceCore(C: Cutter, src: seq<Tri>, s: Soup, M: Merging)
    returns (core: Soup, leafIdx: nat)
    requires |s.t| == Start(C, src, |src|)
    ensures fresh(core) && leafIdx == |s.t|
    ensures core.t == Tris(CorePatches(C, src, s.t, |src|, M))
  {
    core := new Soup();
    leafIdx := 0;
    for i := 0 to |src|
      invariant fresh(core) && leafIdx == Start(C, src, i) <= |s.t|
      invariant core.t == Tris(CorePatches(C, src, s.t, i, M))
    {
      StartMonotone(C, src, i + 1, |src|);
      ghost var tree := TreeOf(C, src, i);
      TrisConcat(CorePatches(C, src, s.t, i, M), Walk(s.t, leafIdx, tree, M).patches);
      var _, next := Coalesce(core, s, leafIdx, C, src[i], 0, M);
      leafIdx := next;
    }
  }

  lemma {:induction false} StartMonotone(C: Cutter, src: seq<Tri>, m: nat, n: nat)
    requires m <= n <= |src|
    ensures Start(C, src, m) <= Start(C, src, n)
    decreases n
  {
    if m < n { StartMonotone(C, src, m, n - 1); }
  }

  /** s is the given leaves, in order, whatever was written on them since. */
  ghost predicate SameShapes(s: seq<Tri>, leaves: seq<Tri>) {
    |s| == |leaves| && forall i :: 0 <= i < |s| ==> SameShape(s[i], leaves[i])
  }

  /** The second walk finds the leaves of each tree where it looks for them. */
  lemma {:induction false} InLockStep(C: Cutter, src: seq<Tri>, s: seq<Tri>, n: nat, m: nat)
    requires m < n <= |src|
    requires Start(C, src, n) <= |s| && SameShapes(s[..Start(C, src, n)], AllLeaves(C, src, n))
    ensures Holds(s, Start(C, src, m), TreeOf(C, src, m))
    decreases n
  {
    var start, tree := Start(C, src, n - 1), TreeOf(C, src, n - 1);
    var leaves := AllLeaves(C, src, n);
    assert forall i :: 0 <= i < |leaves| ==> SameShape(s[..Start(C, src, n)][i], leaves[i]);
    if m == n - 1 {
      forall k | 0 <= k < tree.Size() ensures SameShape(s[start + k], tree.Leaves()[k]) {
        assert leaves[start + k] == tree.Leaves()[k];
      }
      LeavesHold(s, start, tree);
    } else {
      forall i | 0 <= i < start ensures SameShape(s[..start][i], AllLeaves(C, src, n - 1)[i]) {
        assert leaves[i] == AllLeaves(C, src, n - 1)[i];
      }
      InLockStep(C, src, s, n - 1, m);
    }
  }

  /** Every core leaf is under exactly one core triangle, and no other leaf is under any. */
  lemma {:induction false} CoreCovers(C: Cutter, src: seq<Tri>, s: seq<Tri>, n: nat, M: Merging,
                                      k: nat)
    requires n <= |src| && Start(C, src, n) <= |s|
    ensures Covers(CorePatches(C, src, s, n, M), k)
            == if k < Start(C, src, n) && s[k].cell == 0 then 1 else 0
  {
    if n > 0 {
      var start, tree := Start(C, src, n - 1), TreeOf(C, src, n - 1);
      CoreCovers(C, src, s, n - 1, M, k);
      WalkCovers(s, start, tree, M, k);
      var a, b := CorePatches(C, src, s, n - 1, M), Walk(s, start, tree, M).patches;
      CoversConcat(a, b, |a| + |b|, k);
    }
  }

  /** Putting the core together keeps its area. */
  lemma {:induction false} CoreKeepsArea(C: Cutter, src: seq<Tri>, s: seq<Tri>, n: nat, M: Merging)
    requires n <= |src| && Start(C, src, n) <= |s|
    ensures CoreArea(Tris(CorePatches(C, src, s, n, M))) == CellArea(s, 0, Start(C, src, n), 0)
  {
    if n > 0 {
      var start, tree := Start(C, src, n - 1), TreeOf(C, src, n - 1);
      CoreKeepsArea(C, src, s, n - 1, M);
      WalkArea(s, start, tree, M);
      CellAreaSplit(s, 0, start, start + tree.Size(), 0);
      var a, b := CorePatches(C, src, s, n - 1, M), Walk(s, start, tree, M).patches;
      TrisConcat(a, b);
      CellAreaConcat(Tris(a), Tris(b), |a| + |b|, 0);
    }
  }

  /** s holds the leaves of src, with the core's measured, and every tree is well cut. */
  ghost predicate Ready(C: Cutter, src: seq<Tri>, s: seq<Tri>, G: Gauge) {
    && SameShapes(s, AllLeaves(C, src, |src|)) && Measured(s, G)
    && forall n :: 0 <= n < |src| ==> WellCut(TreeOf(C, src, n))
  }

  lemma ReadyTree(C: Cutter, src: seq<Tri>, s: seq<Tri>, G: Gauge, n: nat)
    requires Ready(C, src, s, G) && n < |src|
    ensures Start(C, src, n) <= Start(C, src, n + 1) <= |s|
    ensures Holds(s, Start(C, src, n), TreeOf(C, src, n)) && WellCut(TreeOf(C, src, n))
  {
    StartMonotone(C, src, n + 1, |src|);
    assert s[..Start(C, src, |src|)] == s;
    InLockStep(C, src, s, |src|, n);
  }

  lemma PatchFits(s: seq<Tri>, at: nat, c: Cuts, M: Merging, G: Gauge, p: Patch)
    requires Holds(s, at, c) && Measured(s, G) && WellCut(c) && p in Walk(s, at, c, M).patches
    ensures Fits(s, c, p) && Gauged(p, G)
  {
    WalkFits(s, at, c, M);
    WalkGauged(s, at, c, M, G);
  }

  lemma OfSomeTree(C: Cutter, src: seq<Tri>, s: seq<Tri>, n: nat, M: Merging, p: Patch) returns (m: nat)
    requires n <= |src| && Start(C, src, n) <= |s| && p in CorePatches(C, src, s, n, M)
    ensures m < n && Start(C, src, m) + TreeOf(C, src, m).Size() <= |s|
    ensures p in Walk(s, Start(C, src, m), TreeOf(C, src, m), M).patches
    decreases n
  {
    if p in Walk(s, Start(C, src, n - 1), TreeOf(C, src, n - 1), M).patches {
      m := n - 1;
    } else {
      m := OfSomeTree(C, src, s, n - 1, M, p);
    }
  }

  /** Every core triangle came up in the cutting of some source triangle, and has the distances
      measured at its corners. */
  lemma CoreFits(C: Cutter, src: seq<Tri>, s: seq<Tri>, n: nat, M: Merging, G: Gauge, p: Patch)
    returns (m: nat)
    requires Ready(C, src, s, G) && n <= |src| && Start(C, src, n) <= |s|
    requires p in CorePatches(C, src, s, n, M)
    ensures m < n && Fits(s, TreeOf(C, src, m), p) && Gauged(p, G)
  {
    m := OfSomeTree(C, src, s, n, M, p);
    ReadyTree(C, src, s, G, m);
    PatchFits(s, Start(C, src, m), TreeOf(C, src, m), M, G, p);
  }

  /** The greatest subtrees that collapse, and the core leaves in none, over the whole hull. */
  function AllCoreNodes(C: Cutter, src: seq<Tri>, s: seq<Tri>, n: nat, M: Merging, G: Gauge)
    : seq<Cuts>
    requires n <= |src| && Start(C, src, n) <= |s|
  {
    if n == 0 then []
    else
      var tree := TreeOf(C, src, n - 1);
      AllCoreNodes(C, src, s, n - 1, M, G) + CoreNodes(s, Start(C, src, n - 1), tree, M, G)
  }

  /** The core is made of exactly those. */
  lemma {:induction false} CoreIsGreatest(C: Cutter, src: seq<Tri>, s: seq<Tri>, n: nat, M: Merging,
                                          G: Gauge)
    requires Ready(C, src, s, G) && n <= |src| && Start(C, src, n) <= |s|
    ensures Nodes(CorePatches(C, src, s, n, M)) == AllCoreNodes(C, src, s, n, M, G)
  {
    if n > 0 {
      var start, tree := Start(C, src, n - 1), TreeOf(C, src, n - 1);
      ReadyTree(C, src, s, G, n - 1);
      CoreIsGreatest(C, src, s, n - 1, M, G);
      WalkNodes(s, start, tree, M, G);
      NodesConcat(CorePatches(C, src, s, n - 1, M), Walk(s, start, tree, M).patches);
    }
  }

  // ----- The cutting of mesh_fracture.c is of the kind that the walks rely on

  lemma {:induction false} TreeIsWellCut(C: Cutting, t: Tri, depth: nat)
    ensures WellCut(C.AsCutter().Tree(t, depth)) && C.AsCutter().Tree(t, depth).t == t
    decreases MAX_DEPTH - depth
  {
    if !C.AsCutter().IsLeaf(t, depth) {
      TreeIsWellCut(C, C.FirstHalf(t), depth + 1);
      TreeIsWellCut(C, C.SecondHalf(t), depth + 1);
      HalvesMeet(C, t);
    }
  }

  lemma HalvesMeet(C: Cutting, t: Tri)
    ensures var i, a, b := LongestEdge(t), C.FirstHalf(t), C.SecondHalf(t);
      && SameCorner(t, i, a, i) && SameCorner(t, Next(i), b, Next(i))
      && SameCorner(t, Next(Next(i)), a, Next(Next(i)))
      && SameCorner(t, Next(Next(i)), b, Next(Next(i)))
      && SameCorner(a, Next(i), b, i)
  {}
}
