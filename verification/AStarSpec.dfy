/** What a_star.c searches for and what the search knows at each step, on values: paths and
    their costs, the invariant that every step of the search keeps, and what follows from it
    when the search stops. The imperative search in AStar.dfy is proved against these. */
module AStarSpec {
  import opened Lists

  /** An opaque node; the search only compares nodes for equality. */
  type Node = nat
  const NULL: Node := 0

  /** The arguments of one search, with the caller's three callbacks. */
  datatype Problem = Problem(
    start: Node, goal: Node,
    distance: (Node, Node) -> real,
    costEstimate: (Node, Node) -> real,
    nthNeighbor: (Node, nat) -> Node)
  {
    function Distance(u: Node, v: Node): real { distance(u, v) }

    function Heuristic(u: Node): real { costEstimate(u, goal) }

    function Nth(u: Node, i: nat): Node { nthNeighbor(u, i) }

    /** The iterator yields entry i of u's neighbours: it meets no NULL up to there. */
    ghost predicate Yields(u: Node, i: nat) {
      forall j: nat :: j <= i ==> Nth(u, j) != NULL
    }

    ghost predicate Edge(u: Node, v: Node) {
      exists i: nat :: Yields(u, i) && Nth(u, i) == v
    }

    /** A set that holds everything the search can meet, and neighbour lists that end. */
    ghost predicate Universe(nodes: set<Node>) {
      && start in nodes && NULL !in nodes
      && (forall u, v {:trigger Edge(u, v)} :: u in nodes && Edge(u, v) ==> v in nodes)
      && (forall u {:trigger ListEnds(u)} :: u in nodes ==> ListEnds(u))
    }

    ghost predicate ListEnds(u: Node) {
      exists i: nat :: Nth(u, i) == NULL
    }

    /** The estimate never falls by more than the distance to a neighbour. */
    ghost predicate Consistent(nodes: set<Node>) {
      forall u, v {:trigger Edge(u, v)} :: u in nodes && Edge(u, v) ==> Heuristic(u) <= Distance(u, v) + Heuristic(v)
    }

    ghost predicate StepAt(p: seq<Node>, k: int) {
      0 < k < |p| && Edge(p[k - 1], p[k])
    }

    ghost predicate IsPath(p: seq<Node>) {
      && p != []
      && p[0] == start
      && forall k :: 0 < k < |p| ==> StepAt(p, k)
    }

    ghost predicate IsPathTo(p: seq<Node>, v: Node) {
      IsPath(p) && p[|p| - 1] == v
    }

    function Cost(p: seq<Node>): real {
      if |p| <= 1 then 0.0
      else Cost(p[..|p| - 1]) + Distance(p[|p| - 2], p[|p| - 1])
    }
  }

  /** What the search knows: the two node sets, both score maps, the came-from map, and for
      each scored node the path that the came-from map spells out. */
  datatype Search = Search(
    open: set<Node>, closed: set<Node>,
    g: map<Node, real>, f: map<Node, real>,
    from: map<Node, Node>, trail: map<Node, seq<Node>>)

  /** The trail of v is a path of cost g[v] whose inner nodes are all closed. */
  ghost predicate GoodTrail(P: Problem, s: Search, v: Node)
    requires v in s.trail && v in s.g
  {
    var p := s.trail[v];
    && P.IsPathTo(p, v)
    && NoRepeats(p)
    && P.Cost(p) == s.g[v]
    && forall k :: 0 <= k < |p| - 1 ==> p[k] in s.closed
  }

  /** One came-from link: it points to a closed node, whose trail it extends. */
  ghost predicate GoodLink(P: Problem, s: Search, v: Node)
    requires v in s.from && v in s.trail
  {
    var u := s.from[v];
    && u in s.closed && u in s.trail && u != NULL
    && s.trail[v] == s.trail[u] + [v]
  }

  /** The sets and the domains of the maps fit together. */
  ghost predicate Shape(P: Problem, nodes: set<Node>, s: Search) {
    && s.open !! s.closed
    && s.open + s.closed <= nodes
    && s.g.Keys == s.f.Keys == s.trail.Keys == s.open + s.closed
    && P.start in s.open + s.closed
    && (P.start in s.closed || (s.open == {P.start} && s.closed == {}))
    && s.from.Keys == s.g.Keys - {P.start}
    && P.goal !in s.closed
  }

  /** The part of the invariant that holds for every heuristic. */
  ghost predicate Tracks(P: Problem, nodes: set<Node>, s: Search) {
    && Shape(P, nodes, s)
    && s.trail[P.start] == [P.start]
    && (forall v {:trigger GoodLink(P, s, v)} :: v in s.from ==> GoodLink(P, s, v))
    && (forall v {:trigger GoodTrail(P, s, v)} :: v in s.g ==> GoodTrail(P, s, v))
    && (forall v {:trigger s.f[v]} :: v in s.g ==> s.f[v] == s.g[v] + P.Heuristic(v))
  }

  /** Edge u-v has been looked at: v is scored, and no worse than through u when the
      heuristic is consistent. */
  ghost predicate Relaxed(P: Problem, nodes: set<Node>, s: Search, u: Node, v: Node)
    requires u in s.g
  {
    && v in s.open + s.closed && v in s.g
    && (P.Consistent(nodes) ==> s.g[v] <= s.g[u] + P.Distance(u, v))
  }

  ghost predicate AllRelaxed(P: Problem, nodes: set<Node>, s: Search, except: set<Node>)
    requires s.closed <= s.g.Keys
  {
    forall u, v {:trigger P.Edge(u, v)} :: u in s.closed && u !in except && P.Edge(u, v) ==> Relaxed(P, nodes, s, u, v)
  }

  /** The score of u is no more than the cost of any path from the start to u. */
  ghost predicate Shortest(P: Problem, s: Search, u: Node)
    requires u in s.g
  {
    forall q :: P.IsPathTo(q, u) ==> s.g[u] <= P.Cost(q)
  }

  ghost predicate ClosedShortest(P: Problem, nodes: set<Node>, s: Search)
    requires s.closed <= s.g.Keys
  {
    P.Consistent(nodes) ==> forall u :: u in s.closed ==> Shortest(P, s, u)
  }

  /** The invariant of the outer loop. */
  ghost predicate Inv(P: Problem, nodes: set<Node>, s: Search) {
    Tracks(P, nodes, s) && AllRelaxed(P, nodes, s, {}) && ClosedShortest(P, nodes, s)
  }

  /** The invariant of the inner loop, while the first n neighbours of c are done. */
  ghost predicate Expanding(P: Problem, nodes: set<Node>, s: Search, c: Node, n: nat) {
    && Tracks(P, nodes, s) && c in s.closed
    && AllRelaxed(P, nodes, s, {c}) && ClosedShortest(P, nodes, s)
    && forall i: nat :: i < n && P.Yields(c, i) ==> Relaxed(P, nodes, s, c, P.Nth(c, i))
  }

  // ----- Paths

  lemma CostStep(P: Problem, p: seq<Node>, v: Node)
    requires p != []
    ensures P.Cost(p + [v]) == P.Cost(p) + P.Distance(p[|p| - 1], v)
  {
    assert (p + [v])[..|p|] == p;
  }

  lemma PathStep(P: Problem, p: seq<Node>, u: Node, v: Node)
    requires P.IsPathTo(p, u) && P.Edge(u, v)
    ensures P.IsPathTo(p + [v], v) && P.Cost(p + [v]) == P.Cost(p) + P.Distance(u, v)
  {
    CostStep(P, p, v);
    forall k | 0 < k < |p + [v]| ensures P.StepAt(p + [v], k) {
      if k < |p| { assert P.StepAt(p, k); }
    }
  }

  lemma PathPrefix(P: Problem, q: seq<Node>)
    requires P.IsPath(q) && |q| > 1
    ensures P.IsPathTo(q[..|q| - 1], q[|q| - 2]) && P.Edge(q[|q| - 2], q[|q| - 1])
    ensures P.Cost(q) == P.Cost(q[..|q| - 1]) + P.Distance(q[|q| - 2], q[|q| - 1])
  {
    assert P.StepAt(q, |q| - 1);
    var p := q[..|q| - 1];
    forall k | 0 < k < |p| ensures P.StepAt(p, k) {
      assert P.StepAt(q, k);
    }
  }

  // ----- The start

  function Initial(P: Problem): Search {
    Search({P.start}, {}, map[P.start := 0.0], map[P.start := P.Heuristic(P.start)],
           map[], map[P.start := [P.start]])
  }

  lemma InitialInv(P: Problem, nodes: set<Node>)
    requires P.Universe(nodes)
    ensures Inv(P, nodes, Initial(P))
  {}

  // ----- Closing a node

  function Close(s: Search, c: Node): Search {
    s.(open := s.open - {c}, closed := s.closed + {c})
  }

  ghost predicate IsLowest(s: Search, c: Node)
    requires s.open <= s.f.Keys
  {
    c in s.open && forall v :: v in s.open ==> s.f[c] <= s.f[v]
  }

  /** Path q is accounted for: it ends in a closed node that the search scored no worse, or
      some open node's estimate is no more than the path's. */
  ghost predicate Accounted(P: Problem, s: Search, q: seq<Node>)
    requires q != [] && s.closed <= s.g.Keys && s.open <= s.f.Keys
  {
    var x := q[|q| - 1];
    || (x in s.closed && s.g[x] <= P.Cost(q))
    || (exists y :: y in s.open && s.f[y] <= P.Cost(q) + P.Heuristic(x))
  }

  lemma StartAccounted(P: Problem, nodes: set<Node>, s: Search)
    requires Tracks(P, nodes, s)
    ensures Accounted(P, s, [P.start])
  {
    assert GoodTrail(P, s, P.start);
  }

  lemma StepAccounted(P: Problem, nodes: set<Node>, s: Search, q: seq<Node>, u: Node, x: Node)
    requires Tracks(P, nodes, s) && P.Consistent(nodes) && u in nodes && P.Edge(u, x)
    requires q != [] && q[|q| - 1] == u && Accounted(P, s, q)
    requires u in s.closed ==> Relaxed(P, nodes, s, u, x)
    ensures Accounted(P, s, q + [x])
  {
    CostStep(P, q, x);
    assert P.Heuristic(u) <= P.Distance(u, x) + P.Heuristic(x);
    if u in s.closed && s.g[u] <= P.Cost(q) && x in s.open {
      assert s.f[x] <= P.Cost(q + [x]) + P.Heuristic(x);
    }
  }

  lemma {:induction false} Frontier(P: Problem, nodes: set<Node>, s: Search, q: seq<Node>)
    requires Inv(P, nodes, s) && P.Universe(nodes) && P.Consistent(nodes) && P.IsPath(q)
    ensures Accounted(P, s, q) && q[|q| - 1] in nodes
    decreases |q|
  {
    if |q| == 1 {
      StartAccounted(P, nodes, s);
      assert q == [P.start];
    } else {
      PathPrefix(P, q);
      var p, u, x := q[..|q| - 1], q[|q| - 2], q[|q| - 1];
      Frontier(P, nodes, s, p);
      assert u in s.closed ==> Relaxed(P, nodes, s, u, x);
      StepAccounted(P, nodes, s, p, u, x);
      assert p + [x] == q;
    }
  }

  /** An open node of lowest estimate already has its shortest score when it is closed. */
  lemma CloseIsShortest(P: Problem, nodes: set<Node>, s: Search, c: Node)
    requires Inv(P, nodes, s) && P.Universe(nodes) && P.Consistent(nodes) && IsLowest(s, c)
    ensures Shortest(P, s, c)
  {
    forall q | P.IsPathTo(q, c) ensures s.g[c] <= P.Cost(q) {
      Frontier(P, nodes, s, q);
    }
  }

  lemma CloseTracks(P: Problem, nodes: set<Node>, s: Search, c: Node)
    requires Tracks(P, nodes, s) && c in s.open && c != P.goal
    ensures Tracks(P, nodes, Close(s, c))
  {
    var s' := Close(s, c);
    assert s'.open + s'.closed == s.open + s.closed;
    forall v | v in s'.g ensures GoodTrail(P, s', v) {
      assert GoodTrail(P, s, v);
    }
    forall v | v in s'.from ensures GoodLink(P, s', v) {
      assert GoodLink(P, s, v);
    }
  }

  lemma CloseShortest(P: Problem, nodes: set<Node>, s: Search, c: Node)
    requires Inv(P, nodes, s) && P.Universe(nodes) && IsLowest(s, c)
    ensures ClosedShortest(P, nodes, Close(s, c))
  {
    if P.Consistent(nodes) {
      CloseIsShortest(P, nodes, s, c);
      forall u | u in Close(s, c).closed ensures Shortest(P, Close(s, c), u) {
        assert Shortest(P, s, u);
      }
    }
  }

  lemma CloseStep(P: Problem, nodes: set<Node>, s: Search, c: Node)
    requires Inv(P, nodes, s) && P.Universe(nodes) && IsLowest(s, c) && c != P.goal
    ensures Expanding(P, nodes, Close(s, c), c, 0)
  {
    CloseTracks(P, nodes, s, c);
    CloseShortest(P, nodes, s, c);
    forall u, v | u in Close(s, c).closed && u !in {c} && P.Edge(u, v)
      ensures Relaxed(P, nodes, Close(s, c), u, v)
    {
      assert Relaxed(P, nodes, s, u, v);
    }
  }

  // ----- Looking at a neighbour of the node just closed

  function Improve(P: Problem, s: Search, c: Node, v: Node): Search
    requires c in s.g && c in s.trail
  {
    var t := s.g[c] + P.Distance(c, v);
    Rescore(s, c, v, t, t + P.Heuristic(v))
  }

  function Rescore(s: Search, c: Node, v: Node, t: real, estimate: real): Search
    requires c in s.trail
  {
    s.(open := s.open + {v}, g := s.g[v := t], f := s.f[v := estimate],
       from := s.from[v := c], trail := s.trail[v := s.trail[c] + [v]])
  }

  lemma NewTrail(P: Problem, nodes: set<Node>, s: Search, c: Node, v: Node)
    requires Tracks(P, nodes, s) && c in s.closed && P.Edge(c, v) && v !in s.closed
    ensures GoodTrail(P, Improve(P, s, c, v), v)
  {
    assert GoodTrail(P, s, c);
    var p := s.trail[c];
    PathStep(P, p, c, v);
    assert forall k :: 0 <= k < |p| ==> p[k] in s.closed;
    AppendedOnce(p, v);
  }

  lemma ImproveTrails(P: Problem, nodes: set<Node>, s: Search, c: Node, v: Node, x: Node)
    requires Tracks(P, nodes, s) && c in s.closed && P.Edge(c, v) && v !in s.closed
    requires x in s.g || x == v
    ensures GoodTrail(P, Improve(P, s, c, v), x)
  {
    if x == v {
      NewTrail(P, nodes, s, c, v);
    } else {
      assert GoodTrail(P, s, x);
    }
  }

  lemma ImproveLinks(P: Problem, nodes: set<Node>, s: Search, c: Node, v: Node, x: Node)
    requires Tracks(P, nodes, s) && c in s.closed && v !in s.closed && c != NULL
    requires x in s.from || x == v
    ensures GoodLink(P, Improve(P, s, c, v), x)
  {
    if x != v { assert GoodLink(P, s, x); }
  }

  lemma ImproveShape(P: Problem, nodes: set<Node>, s: Search, c: Node, v: Node)
    requires Shape(P, nodes, s) && v in nodes && c in s.closed && v !in s.closed
    ensures Shape(P, nodes, Improve(P, s, c, v))
  {
    var s' := Improve(P, s, c, v);
    assert s'.open + s'.closed == s.open + s.closed + {v};
    assert s'.g.Keys == s.g.Keys + {v};
    assert s'.from.Keys == s.from.Keys + {v};
  }

  lemma ImproveTracks(P: Problem, nodes: set<Node>, s: Search, c: Node, v: Node)
    requires Tracks(P, nodes, s) && P.Universe(nodes)
    requires c in s.closed && P.Edge(c, v) && v !in s.closed
    ensures Tracks(P, nodes, Improve(P, s, c, v))
  {
    var s' := Improve(P, s, c, v);
    ImproveShape(P, nodes, s, c, v);
    forall x | x in s'.g ensures GoodTrail(P, s', x) {
      ImproveTrails(P, nodes, s, c, v, x);
    }
    forall x | x in s'.from ensures GoodLink(P, s', x) {
      ImproveLinks(P, nodes, s, c, v, x);
    }
  }

  lemma ImproveRelaxed(P: Problem, nodes: set<Node>, s: Search, c: Node, v: Node, u: Node, x: Node)
    requires Tracks(P, nodes, s) && c in s.closed && v !in s.closed && u in s.closed
    requires v in s.open ==> s.g[c] + P.Distance(c, v) < s.g[v]
    requires Relaxed(P, nodes, s, u, x)
    ensures Relaxed(P, nodes, Improve(P, s, c, v), u, x)
  {}

  lemma ImproveStep(P: Problem, nodes: set<Node>, s: Search, c: Node, n: nat)
    requires P.Universe(nodes) && Expanding(P, nodes, s, c, n) && P.Yields(c, n)
    requires P.Nth(c, n) !in s.closed
    requires P.Nth(c, n) in s.open ==>
               s.g[c] + P.Distance(c, P.Nth(c, n)) < s.g[P.Nth(c, n)]
    ensures Expanding(P, nodes, Improve(P, s, c, P.Nth(c, n)), c, n + 1)
  {
    var v := P.Nth(c, n);
    var s' := Improve(P, s, c, v);
    assert P.Edge(c, v);
    ImproveTracks(P, nodes, s, c, v);
    forall u, x | u in s'.closed && u !in {c} && P.Edge(u, x) ensures Relaxed(P, nodes, s', u, x) {
      ImproveRelaxed(P, nodes, s, c, v, u, x);
    }
    forall i: nat | i < n + 1 && P.Yields(c, i) ensures Relaxed(P, nodes, s', c, P.Nth(c, i)) {
      if i < n { ImproveRelaxed(P, nodes, s, c, v, c, P.Nth(c, i)); }
    }
    if P.Consistent(nodes) {
      forall u | u in s'.closed ensures Shortest(P, s', u) {
        assert Shortest(P, s, u);
      }
    }
  }

  /** A closed neighbour need not be reopened: it already has its shortest score. */
  lemma ClosedNeighbour(P: Problem, nodes: set<Node>, s: Search, c: Node, v: Node)
    requires Tracks(P, nodes, s) && ClosedShortest(P, nodes, s)
    requires c in s.closed && v in s.closed && P.Edge(c, v)
    ensures Relaxed(P, nodes, s, c, v)
  {
    assert GoodTrail(P, s, c);
    PathStep(P, s.trail[c], c, v);
    if P.Consistent(nodes) {
      assert Shortest(P, s, v);
    }
  }

  lemma SkipStep(P: Problem, nodes: set<Node>, s: Search, c: Node, n: nat)
    requires Expanding(P, nodes, s, c, n) && P.Yields(c, n)
    requires
      || P.Nth(c, n) in s.closed
      || (P.Nth(c, n) in s.open && s.g[c] + P.Distance(c, P.Nth(c, n)) >= s.g[P.Nth(c, n)])
    ensures Expanding(P, nodes, s, c, n + 1)
  {
    var v := P.Nth(c, n);
    assert P.Edge(c, v);
    if v in s.closed { ClosedNeighbour(P, nodes, s, c, v); }
  }

  lemma ExpandDone(P: Problem, nodes: set<Node>, s: Search, c: Node, n: nat)
    requires Expanding(P, nodes, s, c, n) && P.Nth(c, n) == NULL
    ensures Inv(P, nodes, s)
  {
    forall v | P.Edge(c, v) ensures Relaxed(P, nodes, s, c, v) {
      var i: nat :| P.Yields(c, i) && P.Nth(c, i) == v;
      assert i < n;
    }
  }

  // ----- The end

  ghost predicate Cheapest(P: Problem, p: seq<Node>) {
    forall q :: P.IsPathTo(q, P.goal) ==> P.Cost(p) <= P.Cost(q)
  }

  lemma NoRepeatsFit(p: seq<Node>, nodes: set<Node>)
    requires NoRepeats(p) && forall k :: 0 <= k < |p| ==> p[k] in nodes
    ensures |p| <= |nodes|
    decreases |p|
  {
    if p != [] {
      forall j, k | 0 <= j < k < |p| ensures p[j] != p[k] { Distinct(p, j, k); }
      NoRepeatsFit(p[..|p| - 1], nodes - {p[|p| - 1]});
    }
  }

  lemma TrailFits(P: Problem, nodes: set<Node>, s: Search, v: Node)
    requires Tracks(P, nodes, s) && v in s.g && NULL !in nodes
    ensures |s.trail[v]| <= |nodes| && NULL !in s.trail[v]
    ensures NoRepeats(s.trail[v]) && s.trail[v] != [] && s.trail[v][|s.trail[v]| - 1] == v
  {
    assert GoodTrail(P, s, v);
    var p := s.trail[v];
    forall k | 0 <= k < |p| ensures p[k] in nodes {
      if k < |p| - 1 { assert p[k] in s.closed; }
    }
    NoRepeatsFit(p, nodes);
  }

  /** When the goal is the lowest open node, its trail is a cheapest path. */
  lemma GoalIsCheapest(P: Problem, nodes: set<Node>, s: Search)
    requires Inv(P, nodes, s) && P.Universe(nodes) && IsLowest(s, P.goal)
    ensures P.IsPathTo(s.trail[P.goal], P.goal) && NoRepeats(s.trail[P.goal])
    ensures P.Cost(s.trail[P.goal]) == s.g[P.goal]
    ensures P.Consistent(nodes) ==> Cheapest(P, s.trail[P.goal])
  {
    assert GoodTrail(P, s, P.goal);
    if P.Consistent(nodes) { CloseIsShortest(P, nodes, s, P.goal); }
  }

  /** When nothing is open, every path from the start stays in the closed set, which never
      holds the goal. */
  lemma {:induction false} NoPathLeft(P: Problem, nodes: set<Node>, s: Search, q: seq<Node>)
    requires Inv(P, nodes, s) && s.open == {} && P.IsPath(q)
    ensures q[|q| - 1] in s.closed && q[|q| - 1] != P.goal
    decreases |q|
  {
    if |q| > 1 {
      PathPrefix(P, q);
      NoPathLeft(P, nodes, s, q[..|q| - 1]);
      assert Relaxed(P, nodes, s, q[|q| - 2], q[|q| - 1]);
    }
  }

  ghost predicate Linked(from: map<Node, Node>, u: Node, v: Node) {
    v in from && from[v] == u && u != NULL
  }

  /** Path p is what following the links back from its last node spells, read backwards. */
  ghost predicate Chain(from: map<Node, Node>, p: seq<Node>) {
    && p != [] && p[0] !in from
    && forall k :: 0 < k < |p| ==> Linked(from, p[k - 1], p[k])
  }

  /** The came-from links of v, read backwards from v, spell its trail and stop at the start. */
  lemma {:induction false} TrailLinks(P: Problem, nodes: set<Node>, s: Search, v: Node)
    requires Tracks(P, nodes, s) && v in s.g
    ensures Chain(s.from, s.trail[v])
    decreases |s.trail[v]|
  {
    assert GoodTrail(P, s, v);
    if v != P.start {
      assert GoodLink(P, s, v);
      var u := s.from[v];
      TrailLinks(P, nodes, s, u);
      assert GoodTrail(P, s, u);
      ChainStep(s.from, s.trail[u], u, v);
    }
  }

  lemma ChainStep(from: map<Node, Node>, p: seq<Node>, u: Node, v: Node)
    requires Chain(from, p) && p[|p| - 1] == u && Linked(from, u, v)
    ensures Chain(from, p + [v])
  {}
}
