/** The triangles of mesh_fracture.c and the recursion that cuts them up. What a cut does to the
    geometry is left open here; see MeshSubdivision. */
module MeshCuts {

  datatype Vec = Vec(x: real, y: real, z: real) {
    function Plus(b: Vec): Vec { Vec(x + b.x, y + b.y, z + b.z) }
    function Minus(b: Vec): Vec { Vec(x - b.x, y - b.y, z - b.z) }
    function Times(k: real): Vec { Vec(k * x, k * y, k * z) }
    function Dot(b: Vec): real { x * b.x + y * b.y + z * b.z }
    function Cross(b: Vec): Vec {
      Vec(Wedge(y, z, b.y, b.z), Wedge(z, x, b.z, b.x), Wedge(x, y, b.x, b.y))
    }
    function Toward(b: Vec, f: real): Vec { Plus(b.Minus(this).Times(f)) }
  }

  function Wedge(a: real, b: real, c: real, d: real): real { a * d - b * c }

  function Dist2(a: Vec, b: Vec): real { a.Minus(b).Dot(a.Minus(b)) }

  datatype UV = UV(u: real, v: real) {
    function Toward(b: UV, f: real): UV { UV(u + f * (b.u - u), v + f * (b.v - v)) }
  }

  type Corner = i: int | 0 <= i < 3

  function Next(i: Corner): Corner { (i + 1) % 3 }

  /** One value for each corner of a triangle. */
  datatype Triple<T> = Triple(a: T, b: T, c: T) {
    function At(i: Corner): T { if i == 0 then a else if i == 1 then b else c }

    function Put(i: Corner, x: T): Triple<T> {
      if i == 0 then Triple(x, b, c) else if i == 1 then Triple(a, x, c) else Triple(a, b, x)
    }
  }

  /** struct soup_tri: the corners' positions, normals and texture coordinates, and what later
      passes write. */
  datatype Tri = Tri(p: Triple<Vec>, n: Triple<Vec>, uv: Triple<UV>,
                     centroid: Vec, area: real, cell: int, edge: Triple<real>)

  /** Two triangles with the same corners, whatever else was written on them. */
  predicate SameShape(t: Tri, u: Tri) {
    t.p == u.p && t.n == u.n && t.uv == u.uv
  }

  const MAX_DEPTH: nat := 25

  /** How a triangle is cut in two, whatever the geometry: which triangles are small enough to
      leave, which edge is cut and how far along, and the two halves. */
  datatype Cutter = Cutter(
    small: Tri -> bool, longest: Tri -> Corner, fraction: Tri -> real,
    first: Tri -> Tri, second: Tri -> Tri)
  {
    predicate IsLeaf(t: Tri, depth: nat) { small(t) || depth > 24 }
    function Longest(t: Tri): Corner { longest(t) }
    function Fraction(t: Tri): real { fraction(t) }
    function First(t: Tri): Tri { first(t) }
    function Second(t: Tri): Tri { second(t) }

    /** The tree that the recursion from t walks; the C code never stores it. */
    function Tree(t: Tri, depth: nat): Cuts
      decreases MAX_DEPTH - depth
    {
      if IsLeaf(t, depth) then Leaf(t)
      else Cut(t, Longest(t), Fraction(t), Tree(First(t), depth + 1), Tree(Second(t), depth + 1))
    }
  }

  datatype Cuts =
    | Leaf(t: Tri)
    | Cut(t: Tri, longest: Corner, fraction: real, first: Cuts, second: Cuts)
  {
    /** How many triangles cutting leaves of t. */
    function Size(): (n: nat)
      ensures n > 0
    {
      match this
      case Leaf(_) => 1
      case Cut(_, _, _, first, second) => first.Size() + second.Size()
    }

    /** The triangles that cutting leaves of t, in the order it comes to them. */
    function Leaves(): (s: seq<Tri>)
      ensures |s| == Size()
    {
      match this
      case Leaf(t) => [t]
      case Cut(_, _, _, first, second) => first.Leaves() + second.Leaves()
    }

    /** How many cuts lead to leaf number k. */
    function CutsTo(k: nat): nat
      requires k < Size()
    {
      match this
      case Leaf(_) => 0
      case Cut(_, _, _, first, second) =>
        var n := first.Size();
        1 + if k < n then first.CutsTo(k) else second.CutsTo(k - n)
    }
  }

  /** A growing list of triangles. */
  class Soup {
    var t: seq<Tri>

    constructor ()
      ensures t == []
    {
      t := [];
    }

    method Add(x: Tri)
      modifies this
      ensures t == old(t) + [x]
    {
      t := t + [x];
    }
  }

  method Subdivide(s: Soup, C: Cutter, t: Tri, depth: nat)
    modifies s
    ensures s.t == old(s.t) + C.Tree(t, depth).Leaves()
    decreases MAX_DEPTH - depth
  {
    if C.IsLeaf(t, depth) {
      s.Add(t);
    } else {
      var a, b := C.First(t), C.Second(t);
      Subdivide(s, C, a, depth + 1);
      Subdivide(s, C, b, depth + 1);
    }
  }

  /** Every leaf is small, or it was reached by 25 cuts. */
  lemma {:induction false} LeavesAreSmall(C: Cutter, t: Tri, depth: nat, k: nat)
    requires depth <= MAX_DEPTH && k < C.Tree(t, depth).Size()
    ensures var cuts := C.Tree(t, depth).CutsTo(k);
      || (depth + cuts < MAX_DEPTH && C.small(C.Tree(t, depth).Leaves()[k]))
      || depth + cuts == MAX_DEPTH
    decreases MAX_DEPTH - depth
  {
    if !C.IsLeaf(t, depth) {
      var n := C.Tree(C.First(t), depth + 1).Size();
      if k < n {
        LeavesAreSmall(C, C.First(t), depth + 1, k);
      } else {
        LeavesAreSmall(C, C.Second(t), depth + 1, k - n);
      }
    }
  }

  // ----- Adding up over the leaves

  function Sum(s: seq<Tri>, f: Tri -> real): real { SumTo(s, |s|, f) }

  function SumTo(s: seq<Tri>, n: nat, f: Tri -> real): real
    requires n <= |s|
  {
    if n == 0 then 0.0 else SumTo(s, n - 1, f) + f(s[n - 1])
  }

  lemma {:induction false} SumConcat(s: seq<Tri>, r: seq<Tri>, n: nat, f: Tri -> real)
    requires n <= |s| + |r|
    ensures SumTo(s + r, n, f) == if n <= |s| then SumTo(s, n, f) else Sum(s, f) + SumTo(r, n - |s|, f)
  {
    if n > 0 { SumConcat(s, r, n - 1, f); }
  }

  lemma SumOne(t: Tri, f: Tri -> real)
    ensures Sum([t], f) == f(t)
  {
    assert SumTo([t], 0, f) == 0.0;
  }

  /** A measure of triangles that a cut divides between the two halves. */
  ghost predicate Additive(C: Cutter, f: Tri -> real) {
    forall t :: f(t) == f(C.First(t)) + f(C.Second(t))
  }

  lemma {:induction false} LeavesAddUp(C: Cutter, t: Tri, depth: nat, f: Tri -> real)
    requires Additive(C, f)
    ensures Sum(C.Tree(t, depth).Leaves(), f) == f(t)
    decreases MAX_DEPTH - depth
  {
    if C.IsLeaf(t, depth) {
      SumOne(t, f);
    } else {
      LeavesAddUp(C, C.First(t), depth + 1, f);
      LeavesAddUp(C, C.Second(t), depth + 1, f);
      var a, b := C.Tree(C.First(t), depth + 1).Leaves(), C.Tree(C.Second(t), depth + 1).Leaves();
      SumConcat(a, b, |a| + |b|, f);
    }
  }
}
