/** Which piece of the hull each small triangle goes to: the power cells of mesh_fracture.c, and
    the bisection that finds the core's weight. */
module MeshCells {
  import opened MeshCuts
  import opened MeshSubdivision
  import opened MeshCoalescing

  /** Distance to seed j, less the weight that only the core's seed has. */
  function Power(c: Vec, seeds: seq<Vec>, w: real, j: nat): real
    requires j < |seeds|
  {
    Dist2(c, seeds[j]) - if j == 0 then w else 0.0
  }

  /** Seed j is the nearest by power, and of equally near ones the first. */
  ghost predicate IsCell(c: Vec, seeds: seq<Vec>, w: real, j: int) {
    && 0 <= j < |seeds|
    && (forall k :: 0 <= k < |seeds| ==> Power(c, seeds, w, j) <= Power(c, seeds, w, k))
    && (forall k :: 0 <= k < j ==> Power(c, seeds, w, j) < Power(c, seeds, w, k))
  }

  ghost predicate InCore(c: Vec, seeds: seq<Vec>, w: real) {
    IsCell(c, seeds, w, 0)
  }

  lemma CellUnique(c: Vec, seeds: seq<Vec>, w: real, i: int, j: int)
    requires IsCell(c, seeds, w, i) && IsCell(c, seeds, w, j)
    ensures i == j
  {
    assert Power(c, seeds, w, i) == Power(c, seeds, w, j);
  }

  /** The core's cell only grows as its weight does. */
  lemma CoreGrows(c: Vec, seeds: seq<Vec>, w: real, v: real)
    requires InCore(c, seeds, w) && w <= v
    ensures InCore(c, seeds, v)
  {
    forall k | 0 <= k < |seeds| ensures Power(c, seeds, v, 0) <= Power(c, seeds, v, k) {
      assert Power(c, seeds, w, 0) <= Power(c, seeds, w, k);
    }
  }

  method NearestSeed(c: Vec, seeds: seq<Vec>, w: real) returns (cell: int)
    requires seeds != []
    ensures IsCell(c, seeds, w, cell)
  {
    var best := Dist2(c, seeds[0]) - w;
    cell := 0;
    for j := 1 to |seeds|
      invariant 0 <= cell < j && best == Power(c, seeds, w, cell)
      invariant forall k :: 0 <= k < j ==> best <= Power(c, seeds, w, k)
      invariant forall k :: 0 <= k < cell ==> best < Power(c, seeds, w, k)
    {
      var d := Dist2(c, seeds[j]);
      if d < best { best, cell := d, j; }
    }
  }

  /** The triangles of s, with their cells as `assign` labels them. */
  ghost predicate Assigned(s: seq<Tri>, was: seq<Tri>, seeds: seq<Vec>, w: real) {
    && |s| == |was|
    && forall i :: 0 <= i < |s| ==>
         s[i] == was[i].(cell := s[i].cell) && IsCell(was[i].centroid, seeds, w, s[i].cell)
  }

  method Assign(s: Soup, seeds: seq<Vec>, w: real)
    requires seeds != []
    modifies s
    ensures Assigned(s.t, old(s.t), seeds, w)
  {
    for i := 0 to |s.t|
      invariant |s.t| == |old(s.t)|
      invariant forall k :: i <= k < |s.t| ==> s.t[k] == old(s.t)[k]
      invariant Assigned(s.t[..i], old(s.t)[..i], seeds, w)
    {
      var cell := NearestSeed(s.t[i].centroid, seeds, w);
      ghost var before := s.t[..i];
      s.t := s.t[i := s.t[i].(cell := cell)];
      assert s.t[..i] == before;
    }
    assert s.t[..|s.t|] == s.t && old(s.t)[..|s.t|] == old(s.t);
  }

  /** The area that the core would have at weight w. */
  ghost function CoreAreaAt(s: seq<Tri>, n: nat, seeds: seq<Vec>, w: real): real
    requires n <= |s|
  {
    if n == 0 then 0.0
    else
      var t := s[n - 1];
      CoreAreaAt(s, n - 1, seeds, w) + if InCore(t.centroid, seeds, w) then t.area else 0.0
  }

  lemma {:induction false} CoreAreaGrows(s: seq<Tri>, n: nat, seeds: seq<Vec>, w: real, v: real)
    requires n <= |s| && w <= v && forall i :: 0 <= i < |s| ==> s[i].area >= 0.0
    ensures CoreAreaAt(s, n, seeds, w) <= CoreAreaAt(s, n, seeds, v)
  {
    if n > 0 {
      CoreAreaGrows(s, n - 1, seeds, w, v);
      if InCore(s[n - 1].centroid, seeds, w) { CoreGrows(s[n - 1].centroid, seeds, w, v); }
    }
  }

  lemma {:induction false} AssignedArea(s: seq<Tri>, was: seq<Tri>, seeds: seq<Vec>, w: real, n: nat)
    requires Assigned(s, was, seeds, w) && n <= |s|
    ensures CellArea(s, 0, n, 0) == CoreAreaAt(was, n, seeds, w)
  {
    if n > 0 {
      AssignedArea(s, was, seeds, w, n - 1);
      assert IsCell(was[n - 1].centroid, seeds, w, s[n - 1].cell);
      if InCore(was[n - 1].centroid, seeds, w) {
        CellUnique(was[n - 1].centroid, seeds, w, 0, s[n - 1].cell);
      }
    }
  }

  /** cell_area */
  method AreaOfCell(s: seq<Tri>, cell: int) returns (a: real)
    ensures a == CellArea(s, 0, |s|, cell)
  {
    a := 0.0;
    for i := 0 to |s|
      invariant a == CellArea(s, 0, i, cell)
    {
      if s[i].cell == cell { a := a + s[i].area; }
    }
  }

  // ----- The core's weight

  function Power2(n: nat): real {
    if n == 0 then 1.0 else 2.0 * Power2(n - 1)
  }

  ghost predicate Undershoots(s: seq<Tri>, seeds: seq<Vec>, target: real, w: real) {
    CoreAreaAt(s, |s|, seeds, w) < target
  }

  /** What the bisection knows after n halvings. */
  ghost predicate Bracketed(s: seq<Tri>, seeds: seq<Vec>, target: real, radius: real,
                            lo: real, hi: real, n: nat)
  {
    && (lo == -4.0 * radius * radius || Undershoots(s, seeds, target, lo))
    && (hi == 16.0 * radius * radius || !Undershoots(s, seeds, target, hi))
    && (hi - lo) * Power2(n) == 20.0 * radius * radius
  }

  /** s is `first` with other cells written on it. */
  ghost predicate Relabelled(s: seq<Tri>, first: seq<Tri>) {
    |s| == |first| && forall i :: 0 <= i < |s| ==> s[i] == first[i].(cell := s[i].cell)
  }

  lemma AssignedAgain(s: seq<Tri>, was: seq<Tri>, first: seq<Tri>, seeds: seq<Vec>, w: real)
    requires Relabelled(was, first) && Assigned(s, was, seeds, w)
    ensures Assigned(s, first, seeds, w) && Relabelled(s, first)
  {
    forall i | 0 <= i < |s|
      ensures s[i] == first[i].(cell := s[i].cell) && IsCell(first[i].centroid, seeds, w, s[i].cell)
    {
      assert s[i] == was[i].(cell := s[i].cell) && IsCell(was[i].centroid, seeds, w, s[i].cell);
      assert was[i] == first[i].(cell := was[i].cell);
    }
  }

  /** Label the triangles for a weight and see how much area the core gets. */
  method Probe(s: Soup, seeds: seq<Vec>, w: real, ghost first: seq<Tri>) returns (area: real)
    requires seeds != [] && Relabelled(s.t, first)
    modifies s
    ensures Assigned(s.t, first, seeds, w) && Relabelled(s.t, first)
    ensures area == CoreAreaAt(first, |first|, seeds, w)
  {
    ghost var before := s.t;
    Assign(s, seeds, w);
    AssignedAgain(s.t, before, first, seeds, w);
    AssignedArea(s.t, first, seeds, w, |s.t|);
    area := AreaOfCell(s.t, 0);
  }

  /** Forty halvings of the range of weights. The last weight tried is the one kept, so the core
      may be left on either side of its target. */
  method Bisect(s: Soup, seeds: seq<Vec>, target: real, radius: real)
    returns (weight: real, ghost lo: real, ghost hi: real)
    requires seeds != []
    modifies s
    ensures Bracketed(old(s.t), seeds, target, radius, lo, hi, 40)
    ensures weight == lo || weight == hi
    ensures Assigned(s.t, old(s.t), seeds, weight)
  {
    var low, high := -4.0 * radius * radius, 16.0 * radius * radius;
    weight := 0.0;
    for iter := 0 to 40
      invariant Bracketed(old(s.t), seeds, target, radius, low, high, iter)
      invariant Relabelled(s.t, old(s.t))
      invariant iter > 0 ==> weight == low || weight == high
    {
      weight := 0.5 * (low + high);
      var area := Probe(s, seeds, weight, old(s.t));
      BracketStep(old(s.t), seeds, target, radius, low, high, iter, weight);
      if area < target { low := weight; } else { high := weight; }
    }
    ghost var before := s.t;
    Assign(s, seeds, weight);
    AssignedAgain(s.t, before, old(s.t), seeds, weight);
    lo, hi := low, high;
  }

  lemma BracketStep(s: seq<Tri>, seeds: seq<Vec>, target: real, radius: real, lo: real, hi: real,
                    n: nat, mid: real)
    requires Bracketed(s, seeds, target, radius, lo, hi, n) && mid == 0.5 * (lo + hi)
    ensures if Undershoots(s, seeds, target, mid)
            then Bracketed(s, seeds, target, radius, mid, hi, n + 1)
            else Bracketed(s, seeds, target, radius, lo, mid, n + 1)
  {
    HalfRange(lo, hi, n);
  }

  lemma HalfRange(low: real, high: real, n: nat)
    ensures var mid := 0.5 * (low + high);
      && (mid - low) * Power2(n + 1) == (high - low) * Power2(n)
      && (high - mid) * Power2(n + 1) == (high - low) * Power2(n)
  {
    var mid, p := 0.5 * (low + high), Power2(n);
    assert mid - low == 0.5 * (high - low) && high - mid == 0.5 * (high - low);
    assert (0.5 * (high - low)) * (2.0 * p) == (high - low) * p;
  }

  /** Every weight up to lo undershoots and every weight from hi on reaches the target, once
      the bisection has moved that end. */
  lemma BracketHolds(s: seq<Tri>, seeds: seq<Vec>, target: real, radius: real, lo: real, hi: real,
                     n: nat, w: real)
    requires Bracketed(s, seeds, target, radius, lo, hi, n)
    requires forall i :: 0 <= i < |s| ==> s[i].area >= 0.0
    ensures w <= lo && lo != -4.0 * radius * radius ==> Undershoots(s, seeds, target, w)
    ensures w >= hi && hi != 16.0 * radius * radius ==> !Undershoots(s, seeds, target, w)
  {
    if w <= lo { CoreAreaGrows(s, |s|, seeds, w, lo); }
    if w >= hi { CoreAreaGrows(s, |s|, seeds, hi, w); }
  }
}
