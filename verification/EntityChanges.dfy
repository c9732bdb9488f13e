/** What adding and re-parenting an entity does to the child lists of entity.c. */
module EntityChanges {
  import opened Lists

  import opened EntityLists
  import opened EntityDescent

  /** The entities in use, and those of them that have a parent. */
  ghost function InUse(used: seq<bool>): set<int> {
    set x | 0 <= x < |used| && used[x]
  }

  ghost function WithParent(parent: seq<int>, used: seq<bool>): set<int> {
    set x | 0 <= x < |used| && used[x] && x < |parent| && parent[x] >= 0
  }

  /** The lists are what the parents say, and the nodes in use are those in the lists. */
  ghost predicate WellFormed(t: Snapshot) {
    && t.Sized()
    && Shape(t.s, InUse(t.used), WithParent(t.s.parent, t.used))
    && (forall n :: 0 <= n < |t.nodeUsed| ==> (t.nodeUsed[n] <==> Listed(t.s, WithParent(t.s.parent, t.used), n)))
  }

  /** There are lists that make the arrays well formed. */
  ghost predicate CanBeWellFormed(t: Snapshot) {
    exists kids, link :: WellFormed(t.(s := t.s.(kids := kids, link := link)))
  }

  lemma ParentHasChild(t: Snapshot, c: int)
    requires WellFormed(t) && c in InUse(t.used)
    ensures 0 <= c < |t.s.parent|
    ensures t.s.parent[c] >= 0 ==> t.s.parent[c] in InUse(t.used) && InList(t.s, InUse(t.used), c)
  {
    if t.s.parent[c] >= 0 { assert InList(t.s, InUse(t.used), c); }
  }

  // ----- add_entity

  function Added(t: Snapshot, e: int): (t': Snapshot)
    requires t.Sized() && 0 <= e < |t.used|
    ensures t'.Sized()
  {
    t.(s := t.s.(parent := t.s.parent[e := -1], first := t.s.first[e := -1], kids := t.s.kids[e := []]),
       used := t.used[e := true])
  }

  lemma AddKeeps(t: Snapshot, e: int)
    requires WellFormed(t) && 0 <= e < |t.used| && !t.used[e]
    ensures WellFormed(Added(t, e))
    ensures InUse(Added(t, e).used) == InUse(t.used) + {e}
  {
    var t' := Added(t, e);
    var all, held := InUse(t.used), WithParent(t.s.parent, t.used);
    assert WithParent(t'.s.parent, t'.used) == held;
    forall q | q in InUse(t'.used) ensures OwnList(t'.s, held, q) {
      if q != e {
        assert OwnList(t.s, held, q);
        ChainElsewhere(t.s, t'.s, t.s.first[q], t.s.kids[q]);
      }
    }
    forall c | c in held ensures InList(t'.s, InUse(t'.used), c) {
      assert InList(t.s, all, c);
    }
  }

  // ----- update_entity_parent

  /** A free node is taken for the child. */
  function Scratched(t: Snapshot, n: int): (t': Snapshot)
    requires t.Sized() && 0 <= n < |t.nodeUsed|
    ensures t'.Sized()
  {
    t.(s := t.s.(next := t.s.next[n := -1], child := t.s.child[n := -1]), nodeUsed := t.nodeUsed[n := true])
  }

  lemma ScratchKeeps(t: Snapshot, n: int, all: set<int>, held: set<int>)
    requires t.Sized() && 0 <= n < |t.nodeUsed| && Shape(t.s, all, held) && !Listed(t.s, held, n)
    ensures Shape(Scratched(t, n).s, all, held) && !Listed(Scratched(t, n).s, held, n)
  {
    var s' := Scratched(t, n).s;
    forall q | q in all ensures OwnList(s', held, q) {
      assert OwnList(t.s, held, q);
      var list := t.s.kids[q];
      forall k | 0 <= k < |list| ensures Leads(s', list, k) {
        assert Leads(t.s, list, k) && list[k] in list;
      }
    }
    forall c | c in held ensures InList(s', all, c) && c >= 0 {
      assert InList(t.s, all, c);
    }
  }

  function Orphaned(t: Snapshot, c: int): (t': Snapshot)
    requires t.Sized() && 0 <= c < |t.s.parent|
    ensures t'.Sized()
  {
    t.(s := t.s.(parent := t.s.parent[c := -1]))
  }

  lemma OrphanKeeps(t: Snapshot, c: int, all: set<int>, held: set<int>)
    requires t.Sized() && 0 <= c < |t.s.parent| && Shape(t.s, all, held) && c !in held
    ensures Shape(Orphaned(t, c).s, all, held)
  {
    var s' := Orphaned(t, c).s;
    forall q | q in all ensures OwnList(s', held, q) {
      assert OwnList(t.s, held, q);
      ChainElsewhere(t.s, s', t.s.first[q], t.s.kids[q]);
    }
    forall x | x in held ensures InList(s', all, x) {
      assert InList(t.s, all, x);
    }
  }

  /** The child has left its old list, if it had a parent; n is the new node, if it gets one. */
  ghost function Moved(t: Snapshot, c: int, p: int, n: int): (t': Snapshot)
    requires t.Sized() && 0 <= c < |t.s.parent| && p < |t.s.parent|
    requires p >= 0 ==> 0 <= n < |t.nodeUsed|
    requires t.s.parent[c] >= 0 ==> CanUnhook(if p >= 0 then Scratched(t, n).s else t.s, c)
    ensures t'.Sized()
  {
    var t1 := if p >= 0 then Scratched(t, n) else t;
    var t2 := if t.s.parent[c] >= 0 then Unhook(t1, c) else t1;
    if p >= 0 then t2.(s := Pushed(t2.s, c, p, n)) else Orphaned(t2, c)
  }

  /** The lists when c goes from the list of one entity to the front of another's. */
  ghost function MovedKids(kids: seq<seq<int>>, c: int, from: int, to: int): seq<seq<int>>
    requires from >= 0 ==> from < |kids| && c in kids[from]
    requires to < |kids|
  {
    var kids1 := if from >= 0 then kids[from := Without(kids[from], c)] else kids;
    if to >= 0 then kids1[to := [c] + kids1[to]] else kids1
  }

  lemma MoveReady(t: Snapshot, c: int, p: int, n: int)
    requires WellFormed(t) && c in InUse(t.used) && (p >= 0 ==> p in InUse(t.used))
    requires p >= 0 ==> 0 <= n < |t.nodeUsed| && !t.nodeUsed[n]
    ensures 0 <= c < |t.s.parent| && p < |t.s.parent|
    ensures var all, held := InUse(t.used), WithParent(t.s.parent, t.used);
      var t1 := if p >= 0 then Scratched(t, n) else t;
      && Shape(t1.s, all, held)
      && (t.s.parent[c] >= 0 ==> c in held && HasNode(t.s, c) && CanUnhook(t1.s, c) && InList(t.s, all, c))
  {
    var all, held := InUse(t.used), WithParent(t.s.parent, t.used);
    if p >= 0 { ScratchKeeps(t, n, all, held); }
    var t1 := if p >= 0 then Scratched(t, n) else t;
    if t.s.parent[c] >= 0 {
      HeldHasNode(t.s, all, held, c);
      HeldHasNode(t1.s, all, held, c);
    }
  }

  lemma MoveKeepsShape(t: Snapshot, c: int, p: int, n: int)
    requires WellFormed(t) && c in InUse(t.used) && (p >= 0 ==> p in InUse(t.used))
    requires p >= 0 ==> 0 <= n < |t.nodeUsed| && !t.nodeUsed[n]
    requires 0 <= c < |t.s.parent| && p < |t.s.parent|
    requires t.s.parent[c] >= 0 ==> CanUnhook(if p >= 0 then Scratched(t, n).s else t.s, c)
    ensures var held' := WithParent(t.s.parent, t.used) - {c} + if p >= 0 then {c} else {};
      Shape(Moved(t, c, p, n).s, InUse(t.used), held')
  {
    var all, held := InUse(t.used), WithParent(t.s.parent, t.used);
    MoveReady(t, c, p, n);
    var t1 := if p >= 0 then Scratched(t, n) else t;
    if t.s.parent[c] >= 0 { UnlinkKeeps(t1.s, all, held, c); } else { assert held - {c} == held; }
    var t2 := if t.s.parent[c] >= 0 then Unhook(t1, c) else t1;
    if p >= 0 {
      PushKeeps(t2.s, all, held - {c}, c, p, n);
    } else {
      OrphanKeeps(t2, c, all, held - {c});
      assert held - {c} + {} == held - {c};
    }
  }

  /** A move's preconditions. */
  ghost predicate CanMove(t: Snapshot, c: int, p: int, n: int) {
    && WellFormed(t) && c in InUse(t.used) && (p >= 0 ==> p in InUse(t.used))
    && (p >= 0 ==> 0 <= n < |t.nodeUsed| && !t.nodeUsed[n])
    && 0 <= c < |t.s.parent| && p < |t.s.parent|
    && (t.s.parent[c] >= 0 ==> CanUnhook(if p >= 0 then Scratched(t, n).s else t.s, c))
  }

  lemma MovedArrays(t: Snapshot, c: int, p: int, n: int)
    requires CanMove(t, c, p, n)
    ensures t.s.parent[c] >= 0 ==> 0 <= t.s.link[c] < |t.nodeUsed| && c in t.s.kids[t.s.parent[c]]
    ensures var t' := Moved(t, c, p, n);
      && t'.used == t.used && t'.s.parent == t.s.parent[c := if p >= 0 then p else -1]
      && t'.s.child == (if p >= 0 then t.s.child[n := c] else t.s.child)
      && t'.s.link == (if p >= 0 then t.s.link[c := n] else t.s.link)
      && t'.nodeUsed == MovedNodes(t.nodeUsed, if p >= 0 then n else -1, if t.s.parent[c] >= 0 then t.s.link[c] else -1)
      && t'.s.kids == MovedKids(t.s.kids, c, t.s.parent[c], p)
  {}

  function MovedNodes(nodeUsed: seq<bool>, taken: int, left: int): seq<bool>
    requires taken < |nodeUsed| && left < |nodeUsed|
  {
    var with := if taken >= 0 then nodeUsed[taken := true] else nodeUsed;
    if left >= 0 then with[left := false] else with
  }

  lemma MoveKeepsNodes(t: Snapshot, c: int, p: int, n: int, m: int)
    requires CanMove(t, c, p, n) && 0 <= m < |t.nodeUsed|
    ensures var t' := Moved(t, c, p, n);
      t'.nodeUsed[m] <==> Listed(t'.s, WithParent(t'.s.parent, t'.used), m)
  {
    MoveReady(t, c, p, n);
    MovedArrays(t, c, p, n);
    var x := t.s.child[m];
    assert t.nodeUsed[m] <==> Listed(t.s, WithParent(t.s.parent, t.used), m);
  }

  lemma MovedHeld(parent: seq<int>, used: seq<bool>, c: int, p: int)
    requires c in InUse(used) && 0 <= c < |parent|
    ensures WithParent(parent[c := if p >= 0 then p else -1], used)
            == WithParent(parent, used) - {c} + if p >= 0 then {c} else {}
  {}

  /** update_entity_parent keeps lists and pool well formed, and moves c to the front of p's list. */
  lemma MoveKeeps(t: Snapshot, c: int, p: int, n: int)
    requires WellFormed(t) && c in InUse(t.used) && (p >= 0 ==> p in InUse(t.used))
    requires p >= 0 ==> 0 <= n < |t.nodeUsed| && !t.nodeUsed[n]
    ensures CanMove(t, c, p, n) && t.s.parent[c] < |t.s.parent|
    ensures t.s.parent[c] >= 0 ==> c in t.s.kids[t.s.parent[c]]
    ensures WellFormed(Moved(t, c, p, n))
    ensures Moved(t, c, p, n).s.kids == MovedKids(t.s.kids, c, t.s.parent[c], p)
  {
    MoveReady(t, c, p, n);
    var t' := Moved(t, c, p, n);
    MoveKeepsShape(t, c, p, n);
    MovedArrays(t, c, p, n);
    MovedHeld(t.s.parent, t.used, c, p);
    forall m | 0 <= m < |t'.nodeUsed|
      ensures t'.nodeUsed[m] <==> Listed(t'.s, WithParent(t'.s.parent, t'.used), m)
    {
      MoveKeepsNodes(t, c, p, n, m);
    }
  }

  // ----- Moving keeps the forest, or makes a cycle

  ghost predicate IsForest(t: Snapshot) {
    exists depth: seq<nat> :: Graded(t.s.parent, WithParent(t.s.parent, t.used), depth)
  }

  /** The subtree of c moves below p. */
  function Shifted(depth: seq<nat>, under: set<int>, shift: nat): seq<nat> {
    seq(|depth|, x requires 0 <= x < |depth| => depth[x] + if x in under then shift else 0)
  }

  lemma MoveKeepsForest(t: Snapshot, depth: seq<nat>, c: int, p: int, n: int)
    requires CanMove(t, c, p, n) && p >= 0 && Graded(t.s.parent, WithParent(t.s.parent, t.used), depth)
    requires !Below(t.s.parent, depth, p, c)
    ensures IsForest(Moved(t, c, p, n))
  {
    MovedArrays(t, c, p, n);
    var t' := Moved(t, c, p, n);
    var moving := set x | 0 <= x < |depth| && Below(t.s.parent, depth, x, c);
    var depth' := Shifted(depth, moving, depth[p] + 1);
    forall x | x in WithParent(t'.s.parent, t'.used) ensures Proper(t'.s.parent, depth', x) {
      if x != c { assert Proper(t.s.parent, depth, x); }
    }
    assert Graded(t'.s.parent, WithParent(t'.s.parent, t'.used), depth');
  }

  lemma {:induction false} AboveIsNoDeeper(t: Snapshot, depth: seq<nat>, depth': seq<nat>, parent': seq<int>,
                                           held': set<int>, x: int, c: int)
    requires WellFormed(t) && |depth| == |depth'| == |parent'| == |t.s.parent| && 0 <= c < |depth|
    requires Below(t.s.parent, depth, x, c) && x in InUse(t.used) && Graded(parent', held', depth')
    requires forall y | y in WithParent(t.s.parent, t.used) && y != c :: y in held' && parent'[y] == t.s.parent[y]
    ensures 0 <= x < |depth'| && depth'[c] <= depth'[x]
    decreases depth[x]
  {
    if x != c {
      assert InList(t.s, InUse(t.used), x) && Proper(parent', depth', x);
      AboveIsNoDeeper(t, depth, depth', parent', held', t.s.parent[x], c);
    }
  }

  lemma MoveMakesCycle(t: Snapshot, depth: seq<nat>, c: int, p: int, n: int)
    requires CanMove(t, c, p, n) && p >= 0 && |depth| == |t.s.parent| && Below(t.s.parent, depth, p, c)
    ensures !IsForest(Moved(t, c, p, n))
  {
    MovedArrays(t, c, p, n);
    var t' := Moved(t, c, p, n);
    var held' := WithParent(t'.s.parent, t'.used);
    assert c in held';
    forall depth': seq<nat> ensures !Graded(t'.s.parent, held', depth') {
      assert c in held' && Graded(t'.s.parent, held', depth') ==> Proper(t'.s.parent, depth', c);
      if Graded(t'.s.parent, held', depth') {
        AboveIsNoDeeper(t, depth, depth', t'.s.parent, held', p, c);
      }
    }
  }

  /** Giving an entity a parent keeps the forest if and only if the parent is not the entity, and
      not below it. */
  lemma ForestKeptIff(t: Snapshot, depth: seq<nat>, c: int, p: int, n: int)
    requires CanMove(t, c, p, n) && p >= 0 && Graded(t.s.parent, WithParent(t.s.parent, t.used), depth)
    ensures IsForest(Moved(t, c, p, n)) <==> !Below(t.s.parent, depth, p, c)
  {
    if Below(t.s.parent, depth, p, c) {
      MoveMakesCycle(t, depth, c, p, n);
    } else {
      MoveKeepsForest(t, depth, c, p, n);
    }
  }
}
