/** The search of a_star.c, over its array-backed containers, proved against AStarSpec. */
module AStar {
  import opened Lists

  import opened AStarSpec
  import opened AStarTables

  /** Number i of s has the lowest score of all, and the ones after it have higher scores. */
  ghost predicate LastLowest(s: seq<Node>, score: map<Node, real>, i: nat) {
    && i < |s|
    && (forall k :: 0 <= k < |s| ==> s[k] in score)
    && (forall k :: 0 <= k < |s| ==> score[s[i]] <= score[s[k]])
    && (forall k :: i < k < |s| ==> score[s[i]] < score[s[k]])
  }

  /** The last of the candidates whose score is lowest, or NULL when there are none. */
  method LowestScore(candidates: NodeSet, scores: NodeTable<real>) returns (lowest: Node)
    requires candidates.Valid()
    requires candidates.Members() <= scores.Contents().Keys
    ensures lowest == NULL <==> candidates.nmembers == 0
    ensures lowest != NULL ==>
              && lowest in candidates.Members()
              && forall x :: x in candidates.Members() ==>
                   scores.Contents()[lowest] <= scores.Contents()[x]
    ensures lowest != NULL ==> exists i: nat ::
              && LastLowest(candidates.node[..candidates.nmembers], scores.Contents(), i)
              && candidates.node[i] == lowest
  {
    lowest := NULL;
    var lowestScore := 0.0;
    ghost var best := 0;
    ghost var s := candidates.node[..candidates.nmembers];
    Elements(s);
    for i := 0 to candidates.nmembers
      invariant i == 0 <==> lowest == NULL
      invariant i > 0 ==>
                  && LastLowest(s[..i], scores.Contents(), best) && s[best] == lowest
                  && lowestScore == scores.Contents()[lowest]
    {
      assert s[i] in s && s[..i + 1] == s[..i] + [s[i]];
      var score := scores.Get(candidates.node[i]);
      if lowest != NULL && score > lowestScore { continue; }
      lowest, lowestScore, best := candidates.node[i], score, i;
    }
    assert s[..candidates.nmembers] == s;
  }

  /** Follow the came-from links back from `current`. The C code writes the nodes into an array
      of maxnodes entries; `trail`, which those links spell, shows that they fit. */
  method ReconstructPath(cameFrom: NodeTable<Node>, current: Node, maxnodes: nat,
                         ghost trail: seq<Node>)
    returns (p: array<Node>, count: nat)
    requires cameFrom.Valid() && Chain(cameFrom.Contents(), trail) && |trail| <= maxnodes
    requires trail[|trail| - 1] == current && NULL !in trail
    ensures fresh(p) && p.Length == maxnodes && count == |trail|
    ensures forall i :: 0 <= i < count ==> p[i] == trail[count - 1 - i]
  {
    p := new Node[maxnodes](_ => NULL);
    p[0] := current;
    var i := 1;
    var x := cameFrom.GetOr(current, NULL);
    while x != NULL
      invariant 1 <= i <= |trail|
      invariant x == if i < |trail| then trail[|trail| - 1 - i] else NULL
      invariant cameFrom.Valid() && Chain(cameFrom.Contents(), trail)
      invariant forall k :: 0 <= k < i ==> p[k] == trail[|trail| - 1 - k]
      decreases |trail| - i
    {
      p[i] := x;
      i := i + 1;
      x := cameFrom.GetOr(x, NULL);
      assert i < |trail| ==> Linked(cameFrom.Contents(), trail[|trail| - 1 - i], trail[|trail| - i]);
    }
    count := i;
  }

  /** The five tables of one search. */
  class Workspace {
    const openset: NodeSet
    const closedset: NodeSet
    const cameFrom: NodeTable<Node>
    const gscore: NodeTable<real>
    const fscore: NodeTable<real>
    ghost var trail: map<Node, seq<Node>>

    /** Five tables that share no memory, with maxnodes entries each. */
    ghost predicate Apart(maxnodes: nat) {
      && openset != closedset && gscore != fscore
      && openset.maxmembers == closedset.maxmembers == cameFrom.nelements
         == gscore.nelements == fscore.nelements == maxnodes
    }

    ghost predicate Valid()
      reads this, openset, closedset
      reads cameFrom, gscore, fscore
    {
      && openset.Valid() && closedset.Valid()
      && cameFrom.Valid() && gscore.Valid() && fscore.Valid()
    }

    /** What the tables hold. */
    ghost function Knows(): Search
      requires Valid()
      reads this, openset, closedset, cameFrom, gscore, fscore
    {
      Search(openset.Members(), closedset.Members(), gscore.Contents(), fscore.Contents(),
             cameFrom.Contents(), trail)
    }

    /** No assertion can fire when v is entered. */
    ghost predicate HasRoom(v: Node, maxnodes: nat)
      requires openset.Valid()
      reads this, openset, cameFrom, gscore, fscore
    {
      && (v in openset.Members() || openset.nmembers < maxnodes)
      && (v in cameFrom.Contents() || Filled(cameFrom.slot) < maxnodes)
      && (v in gscore.Contents() || Filled(gscore.slot) < maxnodes)
      && (v in fscore.Contents() || Filled(fscore.slot) < maxnodes)
    }

    constructor (P: Problem, maxnodes: nat)
      requires P.start != NULL && maxnodes > 0
      ensures Apart(maxnodes) && Valid() && Knows() == Initial(P)
      ensures fresh(openset) && fresh(closedset)
      ensures fresh(cameFrom) && fresh(gscore)
      ensures fresh(fscore)
    {
      closedset := new NodeSet(maxnodes);
      openset := new NodeSet(maxnodes);
      cameFrom := new NodeTable<Node>(maxnodes, NULL);
      gscore := new NodeTable<real>(maxnodes, 0.0);
      fscore := new NodeTable<real>(maxnodes, 0.0);
      trail := map[P.start := [P.start]];
      new;
      Begin(P.start, P.Heuristic(P.start), maxnodes);
    }

    /** The start is open, at no cost. */
    method Begin(start: Node, heuristic: real, ghost maxnodes: nat)
      requires Apart(maxnodes) && openset.Valid() && gscore.Valid() && fscore.Valid()
      requires openset.nmembers < maxnodes && Filled(gscore.slot) < maxnodes && Filled(fscore.slot) < maxnodes
      requires start != NULL
      modifies openset, gscore, fscore
      ensures openset.Valid() && gscore.Valid() && fscore.Valid()
      ensures openset.Members() == old(openset.Members()) + {start}
      ensures gscore.Contents() == old(gscore.Contents())[start := 0.0]
      ensures fscore.Contents() == old(fscore.Contents())[start := heuristic]
    {
      openset.Add(start);
      SetScores(start, 0.0, heuristic, maxnodes);
    }

    /** Move the current node from the open set to the closed set. */
    method CloseNode(current: Node, ghost maxnodes: nat)
      requires Apart(maxnodes) && Valid() && current in Knows().open && current != NULL
      requires closedset.nmembers < maxnodes
      modifies openset, closedset
      ensures Valid() && Knows() == Close(old(Knows()), current)
    {
      openset.Remove(current);
      closedset.Add(current);
    }

    /** Come to `neighbor` through `current`, at the given score. */
    method Enter(current: Node, neighbor: Node, score: real, heuristic: real, ghost maxnodes: nat)
      requires Apart(maxnodes) && Valid() && neighbor != NULL
      requires current in trail && HasRoom(neighbor, maxnodes)
      modifies this, openset, cameFrom
      modifies gscore, fscore
      ensures Valid()
      ensures Knows() == Rescore(old(Knows()), current, neighbor, score, score + heuristic)
    {
      openset.Add(neighbor);
      cameFrom.Set(neighbor, current);
      SetScores(neighbor, score, heuristic, maxnodes);
      trail := trail[neighbor := trail[current] + [neighbor]];
    }

    method SetScores(v: Node, score: real, heuristic: real, ghost maxnodes: nat)
      requires gscore != fscore && gscore.nelements == fscore.nelements == maxnodes
      requires gscore.Valid() && fscore.Valid() && v != NULL
      requires v in gscore.Contents() || Filled(gscore.slot) < maxnodes
      requires v in fscore.Contents() || Filled(fscore.slot) < maxnodes
      modifies gscore, fscore
      ensures gscore.Valid() && fscore.Valid()
      ensures gscore.Contents() == old(gscore.Contents())[v := score]
      ensures fscore.Contents() == old(fscore.Contents())[v := score + heuristic]
    {
      gscore.Set(v, score);
      var g := gscore.Get(v);
      fscore.Set(v, g + heuristic);
    }

    /** Whether the neighbour loop passes over `neighbor`, and the score through `current`. */
    method Skips(P: Problem, current: Node, neighbor: Node) returns (skip: bool, tentative: real)
      requires Valid() && neighbor != NULL
      requires current in Knows().g && Knows().open <= Knows().g.Keys
      ensures skip == PassedOver(P, Knows(), current, neighbor)
      ensures !skip ==> tentative == Knows().g[current] + P.Distance(current, neighbor)
    {
      var closed := closedset.Contains(neighbor);
      if closed { return true, 0.0; }
      var score := gscore.Get(current);
      tentative := score + P.Distance(current, neighbor);
      var open := openset.Contains(neighbor);
      if !open { return false, tentative; }
      var known := gscore.Get(neighbor);
      return tentative >= known, tentative;
    }

    /** One pass of the neighbour loop. */
    method Visit(P: Problem, current: Node, neighbor: Node, ghost maxnodes: nat)
      requires Apart(maxnodes) && Valid() && neighbor != NULL
      requires current in Knows().g && current in trail && Knows().open <= Knows().g.Keys
      requires HasRoom(neighbor, maxnodes)
      modifies this, openset, cameFrom, gscore, fscore
      ensures Valid() && Knows() == Visited(P, old(Knows()), current, neighbor)
    {
      var skip, tentative := Skips(P, current, neighbor);
      if !skip {
        assert Visited(P, Knows(), current, neighbor)
            == Rescore(Knows(), current, neighbor, tentative, tentative + P.Heuristic(neighbor));
        Enter(current, neighbor, tentative, P.Heuristic(neighbor), maxnodes);
      }
    }
  }

  ghost predicate PassedOver(P: Problem, s: Search, current: Node, v: Node)
    requires current in s.g && s.open <= s.g.Keys
  {
    v in s.closed || (v in s.open && s.g[current] + P.Distance(current, v) >= s.g[v])
  }

  /** What one pass of the neighbour loop leaves of the knowledge s. */
  ghost function Visited(P: Problem, s: Search, current: Node, v: Node): Search
    requires current in s.g && current in s.trail && s.open <= s.g.Keys
  {
    if PassedOver(P, s, current, v) then s else Improve(P, s, current, v)
  }

  /** A node that is not scored yet finds room in every table. */
  lemma Room(P: Problem, w: Workspace, nodes: set<Node>, v: Node, maxnodes: nat)
    requires w.Valid() && Shape(P, nodes, w.Knows()) && v in nodes && |nodes| <= maxnodes
    ensures w.HasRoom(v, maxnodes)
    ensures v in w.closedset.Members() || w.closedset.nmembers < maxnodes
  {
    CountElements(w.openset.node[..w.openset.nmembers]);
    Fewer(w.openset.Members(), nodes, v);
    CountElements(w.closedset.node[..w.closedset.nmembers]);
    Fewer(w.closedset.Members(), nodes, v);
    RoomInTable(w.cameFrom.slot, nodes, v);
    RoomInTable(w.gscore.slot, nodes, v);
    RoomInTable(w.fscore.slot, nodes, v);
  }

  lemma RoomInTable<V>(s: seq<Slot<V>>, nodes: set<Node>, v: Node)
    requires OneSlotEach(s) && Bindings(s).Keys <= nodes && v in nodes
    ensures v in Bindings(s) || Filled(s) < |nodes|
  {
    CountBindings(s);
    assert |Bindings(s).Keys| == |Bindings(s)|;
    Fewer(Bindings(s).Keys, nodes, v);
  }

  lemma Fewer(a: set<Node>, b: set<Node>, v: Node)
    requires a <= b && v in b
    ensures v !in a ==> |a| < |b|
  {
    if v !in a {
      SubsetCount(a, b - {v});
    }
  }

  /** The inner loop: look at every neighbour of the node just closed. */
  method Expand(P: Problem, w: Workspace, current: Node, ghost nodes: set<Node>,
                ghost maxnodes: nat)
    requires w.Apart(maxnodes) && w.Valid() && P.Universe(nodes) && |nodes| <= maxnodes
    requires Expanding(P, nodes, w.Knows(), current, 0)
    modifies w, w.openset, w.cameFrom, w.gscore, w.fscore
    ensures w.Valid() && Inv(P, nodes, w.Knows()) && w.Knows().closed == old(w.Knows().closed)
  {
    assert P.ListEnds(current);
    ghost var last: nat :| P.Nth(current, last) == NULL;
    var n: nat := 0;
    var neighbor := P.Nth(current, n);
    while neighbor != NULL
      invariant w.Valid() && Expanding(P, nodes, w.Knows(), current, n)
      invariant w.Knows().closed == old(w.Knows().closed)
      invariant n <= last && neighbor == P.Nth(current, n)
      invariant forall j: nat :: j < n ==> P.Nth(current, j) != NULL
      decreases last - n
    {
      VisitStep(P, nodes, w.Knows(), current, n);
      Room(P, w, nodes, neighbor, maxnodes);
      w.Visit(P, current, neighbor, maxnodes);
      n := n + 1;
      neighbor := P.Nth(current, n);
    }
    ExpandDone(P, nodes, w.Knows(), current, n);
  }

  lemma VisitStep(P: Problem, nodes: set<Node>, s: Search, c: Node, n: nat)
    requires P.Universe(nodes) && Expanding(P, nodes, s, c, n)
    requires forall j: nat :: j <= n ==> P.Nth(c, j) != NULL
    ensures P.Nth(c, n) in nodes && Visited(P, s, c, P.Nth(c, n)).closed == s.closed
    ensures Expanding(P, nodes, Visited(P, s, c, P.Nth(c, n)), c, n + 1)
  {
    assert P.Yields(c, n);
    assert P.Edge(c, P.Nth(c, n));
    if PassedOver(P, s, c, P.Nth(c, n)) {
      SkipStep(P, nodes, s, c, n);
    } else {
      ImproveStep(P, nodes, s, c, n);
    }
  }

  /** Copy the reconstructed path into the result, start first. */
  method Reversed(answer: array<Node>, count: nat) returns (path: array<Node>)
    requires count <= answer.Length
    ensures path.Length == count
    ensures forall k :: 0 <= k < count ==> path[k] == answer[count - 1 - k]
  {
    path := new Node[count](_ => NULL);
    for i := 0 to count
      invariant forall k :: count - i <= k < count ==> path[k] == answer[count - 1 - k]
    {
      path[count - i - 1] := answer[i];
    }
  }

  method Answer(cameFrom: NodeTable<Node>, goal: Node, maxnodes: nat, ghost trail: seq<Node>)
    returns (path: array<Node>)
    requires cameFrom.Valid() && Chain(cameFrom.Contents(), trail) && |trail| <= maxnodes
    requires trail[|trail| - 1] == goal && NULL !in trail
    ensures path[..] == trail
  {
    var answer, count := ReconstructPath(cameFrom, goal, maxnodes, trail);
    path := Reversed(answer, count);
  }

  lemma FewerOpen(nodes: set<Node>, closed: set<Node>, v: Node)
    requires v in nodes && v !in closed
    ensures |nodes - (closed + {v})| < |nodes - closed|
  {
    assert nodes - (closed + {v}) == nodes - closed - {v};
  }

  /** One pass of the outer loop for a node other than the goal. */
  method CloseAndExpand(P: Problem, w: Workspace, current: Node, ghost nodes: set<Node>,
                        ghost maxnodes: nat)
    requires w.Apart(maxnodes) && w.Valid() && P.Universe(nodes) && |nodes| <= maxnodes
    requires Inv(P, nodes, w.Knows()) && IsLowest(w.Knows(), current) && current != P.goal
    modifies w, w.openset, w.closedset, w.cameFrom, w.gscore, w.fscore
    ensures w.Valid() && Inv(P, nodes, w.Knows())
    ensures w.Knows().closed == old(w.Knows().closed) + {current}
  {
    ghost var s := w.Knows();
    Room(P, w, nodes, current, maxnodes);
    w.CloseNode(current, maxnodes);
    CloseStep(P, nodes, s, current);
    Expand(P, w, current, nodes, maxnodes);
  }

  lemma NoneFound(P: Problem, nodes: set<Node>, s: Search)
    requires P.Universe(nodes) && Inv(P, nodes, s) && s.open == {}
    ensures !exists q :: P.IsPathTo(q, P.goal)
  {
    forall q | P.IsPathTo(q, P.goal) ensures false {
      NoPathLeft(P, nodes, s, q);
    }
  }

  /** The goal is the lowest: the path is made from its links. */
  method Arrive(P: Problem, w: Workspace, maxnodes: nat, ghost nodes: set<Node>) returns (path: array<Node>)
    requires w.Valid() && P.Universe(nodes) && |nodes| <= maxnodes
    requires Inv(P, nodes, w.Knows()) && IsLowest(w.Knows(), P.goal)
    ensures P.IsPathTo(path[..], P.goal) && NoRepeats(path[..]) && path.Length <= maxnodes
    ensures P.Consistent(nodes) ==> Cheapest(P, path[..])
  {
    GoalIsCheapest(P, nodes, w.Knows());
    TrailLinks(P, nodes, w.Knows(), P.goal);
    TrailFits(P, nodes, w.Knows(), P.goal);
    path := Answer(w.cameFrom, P.goal, maxnodes, w.Knows().trail[P.goal]);
  }

  /** a_star(): NULL when no path leads to the goal; otherwise a path without repeats that fits
      in maxnodes, and, when the heuristic is consistent, one of least cost. `nodes` is any set
      of at most maxnodes nodes that the search cannot leave. */
  method Run(P: Problem, maxnodes: nat, ghost nodes: set<Node>) returns (path: array?<Node>)
    requires P.Universe(nodes) && |nodes| <= maxnodes
    ensures path == null <==> !exists q :: P.IsPathTo(q, P.goal)
    ensures path != null ==>
              && P.IsPathTo(path[..], P.goal) && NoRepeats(path[..]) && path.Length <= maxnodes
              && (P.Consistent(nodes) ==> Cheapest(P, path[..]))
  {
    SubsetCount({P.start}, nodes);
    var w := new Workspace(P, maxnodes);
    InitialInv(P, nodes);
    while w.openset.nmembers != 0
      invariant w.Apart(maxnodes) && w.Valid()
      invariant fresh(w) && fresh(w.openset) && fresh(w.closedset)
      invariant fresh(w.cameFrom)
      invariant fresh(w.gscore) && fresh(w.fscore)
      invariant Inv(P, nodes, w.Knows())
      decreases |nodes - w.Knows().closed|
    {
      var current := LowestScore(w.openset, w.fscore);
      if current == P.goal {
        path := Arrive(P, w, maxnodes, nodes);
        return;
      }
      FewerOpen(nodes, w.Knows().closed, current);
      CloseAndExpand(P, w, current, nodes, maxnodes);
    }
    NoneFound(P, nodes, w.Knows());
    return null;
  }
}
