/** entity.c: entities, their parents, and the lists of their children, which are threaded through
    a pool of nodes. */
module EntityTree {
  import opened Lists

  import opened EntityLists
  import opened EntityDescent
  import opened EntityChanges
  import opened EntityRemoval

  /** snis_object_pool_alloc_obj: the lowest free object, or -1. */
  method LowestFree(pool: seq<bool>) returns (n: int)
    ensures n == -1 ==> forall i :: 0 <= i < |pool| ==> pool[i]
    ensures n != -1 ==> 0 <= n < |pool| && !pool[n] && forall i :: 0 <= i < n ==> pool[i]
  {
    for i := 0 to |pool|
      invariant forall j :: 0 <= j < i ==> pool[j]
    {
      if !pool[i] { return i; }
    }
    return -1;
  }

  /** struct entity_context, as far as parents and children go. */
  class Context {
    var parent: seq<int>       // entity_list[].parent
    var first: seq<int>        // entity_list[].entity_child_index
    var removing: seq<bool>    // entity_list[].being_removed
    var used: seq<bool>        // entity_pool
    var child: seq<int>        // entity_child_list[].child_entity_index
    var next: seq<int>         // entity_child_list[].next_entity_child_index
    var nodeUsed: seq<bool>    // entity_child_pool
    ghost var kids: seq<seq<int>>
    ghost var link: seq<int>
    ghost var nodeFrees: seq<nat>  // how often each node has been freed

    ghost function Now(): Links
      reads this
    {
      Links(parent, first, next, child, kids, link)
    }

    ghost function Snap(): Snapshot
      reads this
    {
      Snapshot(Now(), used, nodeUsed, nodeFrees)
    }

    ghost predicate Sized()
      reads this
    {
      Snap().Sized() && |removing| == |used|
    }

    ghost predicate Valid()
      reads this
    {
      Sized() && WellFormed(Snap()) && forall x :: 0 <= x < |removing| ==> !removing[x]
    }

    /** entity_context_new. */
    constructor (maxobjs: nat, maxchildren: nat)
      ensures Valid() && |used| == maxobjs && |nodeUsed| == maxchildren && InUse(used) == {}
    {
      parent, first := seq(maxobjs, _ => -1), seq(maxobjs, _ => 0);
      removing, used := seq(maxobjs, _ => false), seq(maxobjs, _ => false);
      child, next, nodeUsed := seq(maxchildren, _ => 0), seq(maxchildren, _ => 0), seq(maxchildren, _ => false);
      kids, link, nodeFrees := seq(maxobjs, _ => []), seq(maxobjs, _ => 0), seq(maxchildren, _ => 0);
    }

    /** add_entity: the new entity has no parent and no children. */
    method AddEntity() returns (e: int)
      requires Valid()
      modifies this
      ensures Valid() && e >= -1
      ensures e == -1 <==> forall i :: 0 <= i < |old(used)| ==> old(used)[i]
      ensures e == -1 ==> Snap() == old(Snap())
      ensures e != -1 ==> e < |old(used)| && !old(used)[e] && Snap() == Added(old(Snap()), e)
      ensures e != -1 ==> InUse(used) == InUse(old(used)) + {e}
    {
      e := LowestFree(used);
      if e >= 0 {
        AddKeeps(Snap(), e);
        used := used[e := true];
        parent, first, kids := parent[e := -1], first[e := -1], kids[e := []];
        removing := removing[e := false];
      }
    }

    /** snis_object_pool_free_object on entity_child_pool. */
    method FreeNode(n: int)
      requires Sized() && 0 <= n < |next|
      modifies `nodeUsed, `nodeFrees
      ensures nodeUsed == old(nodeUsed)[n := false]
      ensures nodeFrees == old(nodeFrees)[n := old(nodeFrees)[n] + 1]
    {
      nodeUsed := nodeUsed[n := false];
      nodeFrees := nodeFrees[n := nodeFrees[n] + 1];
    }

    /** The search in remove_child_from_parent: c's node and the one before it, or -1. */
    method FindChild(c: int, p: int) returns (n: int, last: int)
      requires Sized() && 0 <= p < |parent| && GoodList(Now(), p)
      ensures c in kids[p] <==> n >= 0
      ensures c in kids[p] ==> 0 <= c < |link| && n == link[c]
      ensures c in kids[p] ==> last == NodeBefore(Now(), kids[p], IndexOf(kids[p], c))
    {
      ghost var s := Now();
      ghost var list := kids[p];
      ghost var k := 0;
      n, last := first[p], -1;
      while n >= 0
        invariant k <= |list| && n == NodeAt(s, list, k) && c !in list[..k]
        invariant k < |list| ==> Leads(s, list, k)
        invariant last == NodeBefore(s, list, k)
        decreases |list| - k
      {
        if child[n] == c {
          FirstIs(list, k);
          return;
        }
        n, last := next[n], n;
        k := k + 1;
        assert k < |list| ==> Leads(s, list, k);
      }
    }

    /** remove_child_from_parent. Nothing happens if the child is not in the list. */
    method RemoveChildFromParent(c: int, p: int)
      requires Sized() && 0 <= c < |parent| && 0 <= p < |parent| && GoodList(Now(), p) && parent[c] == p
      modifies `first, `next, `nodeUsed, `kids, `nodeFrees
      ensures Sized()
      ensures c in old(kids)[p] ==> CanUnhook(old(Now()), c) && Snap() == Unhook(old(Snap()), c)
      ensures c !in old(kids)[p] ==> Snap() == old(Snap())
    {
      var n, last := FindChild(c, p);
      if n < 0 { return; }
      ghost var list, k := kids[p], IndexOf(kids[p], c);
      assert Leads(Now(), list, k);
      assert k > 0 ==> Leads(Now(), list, k - 1);
      if last == -1 {
        first := first[parent[c] := next[n]];
      } else {
        next := next[last := next[n]];
      }
      FreeNode(n);
      kids := kids[p := Without(list, c)];
    }

    /** One pass of the loop of remove_entity_children for e, for the child held by node `at`: what is
        left to do leads to the same end. */
    method RemoveChild(e: int, at: int, ghost fuel: nat, ghost steps: nat, ghost end: Outcome)
      returns (aborted: bool, n: int)
      requires Sized() && at >= 0 && KillList(Killer(removing, fuel), Snap(), at, steps, e) == end != Lost
      modifies `first, `next, `used, `nodeUsed, `kids, `nodeFrees
      ensures Sized() && steps > 0 && (aborted ==> end == Aborted)
      ensures !aborted ==> KillList(Killer(removing, fuel), Snap(), n, steps - 1, e) == end
      decreases fuel, 0
    {
      var c := child[at];
      if first[c] >= 0 {
        if c == e { return true, at; }
        aborted := RemoveEntityChildren(c, fuel - 1);
        if aborted { return true, at; }
      }
      aborted := false;
      n := FreeChild(c, at);
    }

    method FreeChild(c: int, at: int) returns (n: int)
      requires Sized() && 0 <= c < |used| && 0 <= at < |next|
      modifies `used, `nodeUsed, `nodeFrees
      ensures Sized() && n == next[at] && Snap() == FreeBoth(old(Snap()), c, at)
    {
      used := used[c := false];
      n := next[at];
      FreeNode(at);
    }

    /** remove_entity_children: its loop. */
    method RemoveChildList(e: int, start: int, ghost fuel: nat, ghost count: nat, ghost end: Outcome)
      returns (aborted: bool)
      requires Sized() && KillList(Killer(removing, fuel), Snap(), start, count, e) == end != Lost
      modifies `first, `next, `used, `nodeUsed, `kids, `nodeFrees
      ensures Sized() && if aborted then end == Aborted else end == Ended(Snap())
      decreases fuel, 1
    {
      var at := start;
      aborted := false;
      ghost var steps := count;
      ghost var kill := Killer(removing, fuel);
      while at >= 0
        invariant Sized() && KillList(kill, Snap(), at, steps, e) == end
        decreases steps
      {
        aborted, at := RemoveChild(e, at, fuel, steps, end);
        if aborted { return; }
        steps := steps - 1;
      }
    }

    /** The first lines of remove_entity_children: e leaves its parent's list, unless the parent is
        being removed too. */
    method LeaveParent(e: int)
      requires Sized() && 0 <= e < |parent| && parent[e] < |removing|
      requires Unlinks(parent, removing, e) ==> CanUnhook(Now(), e)
      modifies `first, `next, `nodeUsed, `kids, `nodeFrees
      ensures Sized()
      ensures Snap() == if Unlinks(parent, removing, e) then Unhook(old(Snap()), e) else old(Snap())
    {
      if parent[e] >= 0 && !removing[parent[e]] {
        RemoveChildFromParent(e, parent[e]);
      }
    }

    /** remove_entity_children. True stands for a call of abort(). */
    method RemoveEntityChildren(e: int, ghost fuel: nat) returns (aborted: bool)
      requires Sized() && Kill(Snap(), removing, e, fuel) != Lost
      modifies `first, `next, `used, `nodeUsed, `kids, `nodeFrees
      ensures Sized()
      ensures Kill(old(Snap()), removing, e, fuel) == if aborted then Aborted else Ended(Snap())
      decreases fuel, 2
    {
      var at := first[e];
      LeaveParent(e);
      ghost var end := KillList(Killer(removing, fuel), Snap(), at, |kids[e]|, e);
      aborted := RemoveChildList(e, at, fuel, |kids[e]|, end);
      if aborted { return; }
      first := first[e := -1];
      kids := kids[e := []];
    }

    /** remove_entity: what is below e goes with it, whatever cycles of parents there are, unless e is
        its own parent: then it aborts. The lists stay well formed, unless e has a parent and no
        children: then its node stays in the parent's list, which no longer is. */
    method RemoveEntity(e: int) returns (aborted: bool)
      requires Valid() && (e == -1 || e in InUse(used))
      modifies this
      ensures aborted <==> old(0 <= e < |parent| && parent[e] == e)
      ensures e == -1 ==> Snap() == old(Snap())
      ensures !aborted ==>
                var kept := old(e == -1 || (e < |first| == |parent| && (first[e] >= 0 || parent[e] < 0)));
                && (kept ==> Valid())
                && (kept && e != -1 ==> EntityRemoved(old(Snap()), Snap(), e))
                && (CanBeWellFormed(Snap()) <==> kept)
                && (!kept ==> Sized() && e < |old(used)|
                              && Snap() == old(Snap()).(used := old(used)[e := false]))
    {
      ghost var t := Snap();
      RemovedCanBe(t);
      if e == -1 { return false; }
      ParentHasChild(t, e);
      removing := removing[e := true];
      assert removing == OnlyRemoving(|used|, e);
      if parent[e] == e { ParentHasList(t, e); }
      if first[e] >= 0 {
        RemovalEndsIff(t, e);
        aborted := RemoveEntityChildren(e, Fuel(t, e));
        if aborted { return; }
        RemoveKeeps(t, Snap(), e);
      } else if parent[e] < 0 {
        RemoveLone(t, e);
      } else {
        Dangling(t, e);
      }
      aborted := false;
      Finish(e);
      if old(first[e] >= 0 || parent[e] < 0) { RemovedCanBe(Snap()); }
    }

    method Finish(e: int)
      requires Sized() && 0 <= e < |used| && removing == OnlyRemoving(|used|, e)
      modifies `removing, `used
      ensures Sized() && Snap() == old(Snap()).(used := old(used)[e := false])
      ensures forall x :: 0 <= x < |removing| ==> !removing[x]
    {
      removing := removing[e := false];
      used := used[e := false];
    }

    /** A free node is taken, and marked empty. */
    method TakeNode(n: int)
      requires Sized() && 0 <= n < |nodeUsed|
      modifies `next, `child, `nodeUsed
      ensures Sized() && Snap() == Scratched(old(Snap()), n)
    {
      nodeUsed := nodeUsed[n := true];
      next := next[n := -1];
      child := child[n := -1];
    }

    /** The node goes in front of the new parent's list. */
    method LinkChild(c: int, p: int, n: int)
      requires Sized() && 0 <= c < |parent| && 0 <= p < |parent| && 0 <= n < |next|
      modifies `parent, `first, `next, `child, `kids, `link
      ensures Sized() && Snap() == old(Snap()).(s := Pushed(old(Now()), c, p, n))
    {
      parent := parent[c := p];
      child := child[n := c];
      next := next[n := first[p]];
      first := first[p := n];
      kids, link := kids[p := [c] + kids[p]], link[c := n];
    }

    /** update_entity_parent; -1 is the NULL parent. Nothing happens if the parent is the same, or
        if there is no free node. */
    method UpdateParent(c: int, p: int)
      requires Valid() && c in InUse(used) && (p == -1 || p in InUse(used))
      modifies this
      ensures Valid() && used == old(used) && |nodeUsed| == |old(nodeUsed)|
      ensures 0 <= c < |parent| == |old(parent)| && p < |parent|
      ensures old(parent)[c] >= 0 ==> old(parent)[c] < |old(kids)| && c in old(kids)[old(parent)[c]]
      ensures var full := forall n :: 0 <= n < |old(nodeUsed)| ==> old(nodeUsed)[n];
        if p == old(parent)[c] || (p >= 0 && full) then Snap() == old(Snap())
        else p < |old(kids)| && parent == old(parent)[c := p] && kids == MovedKids(old(kids), c, old(parent)[c], p)
    {
      ghost var t := Snap();
      ParentHasChild(t, c);
      if parent[c] == p { return; }
      var n := -1;
      if p >= 0 {
        n := LowestFree(nodeUsed);
        if n < 0 { return; }
      }
      MoveKeeps(t, c, p, n);
      MovedArrays(t, c, p, n);
      if p >= 0 { TakeNode(n); }
      if parent[c] >= 0 { RemoveChildFromParent(c, parent[c]); }
      if p >= 0 {
        LinkChild(c, p, n);
      } else {
        parent := parent[c := p];
      }
      assert Snap() == Moved(t, c, p, n);
    }
  }

  // ----- Short histories

  /** A new context with two entities. */
  method Two(maxchildren: nat) returns (cx: Context, a: int, b: int)
    ensures fresh(cx) && cx.Valid() && |cx.used| == 2 && |cx.nodeUsed| == maxchildren
    ensures InUse(cx.used) == {a, b} && a != b
    ensures 0 <= a < |cx.parent| && 0 <= b < |cx.parent| && cx.parent[a] == cx.parent[b] == -1
    ensures WithParent(cx.parent, cx.used) == {}
  {
    cx := new Context(2, maxchildren);
    assert !cx.used[0] && !cx.used[1] by { assert 0 !in InUse(cx.used) && 1 !in InUse(cx.used); }
    a := cx.AddEntity();
    assert !cx.used[1 - a] by { assert 1 - a !in InUse(cx.used); }
    b := cx.AddEntity();
  }

  /** Not all of a list of nodes are taken if there are more nodes than entities with parents. */
  lemma FreeNodeLeft(t: Snapshot, x: int)
    requires WellFormed(t) && WithParent(t.s.parent, t.used) <= {x} && |t.nodeUsed| >= 2
    ensures !t.nodeUsed[0] || !t.nodeUsed[1]
  {}

  /** Two entities, each the other's parent. */
  method Cycle() returns (cx: Context, a: int, b: int)
    ensures fresh(cx) && cx.Valid() && |cx.used| == 2 && InUse(cx.used) == {a, b} && a != b
    ensures 0 <= a < |cx.parent| && 0 <= b < |cx.parent| && cx.parent[a] == b && cx.parent[b] == a
  {
    cx, a, b := Two(2);
    FreeNodeLeft(cx.Snap(), a);
    cx.UpdateParent(b, a);
    FreeNodeLeft(cx.Snap(), b);
    cx.UpdateParent(a, b);
  }

  /** Removing either removes both. */
  method RemoveFromCycle() returns (aborted: bool, left: seq<bool>)
    ensures !aborted && left == [false, false]
  {
    var cx, a, b := Cycle();
    ParentHasList(cx.Snap(), b);
    assert Climb(cx.parent, b, a, 1) == 1;
    assert Descendants(cx.parent, InUse(cx.used), a) == {b};
    aborted := cx.RemoveEntity(a);
    left := cx.used;
    assert a !in InUse(cx.used) && b !in InUse(cx.used);
  }

  /** An entity that is its own parent cannot be removed. */
  method RemoveOwnParent() returns (aborted: bool)
    ensures aborted
  {
    var cx, a, b := Two(2);
    FreeNodeLeft(cx.Snap(), a);
    cx.UpdateParent(a, a);
    aborted := cx.RemoveEntity(a);
  }

  /** After the removal of a child without children no lists make the arrays well formed. */
  method RemoveLeaf() returns (cx: Context)
    ensures cx.Sized() && !CanBeWellFormed(cx.Snap())
  {
    var a, b;
    cx, a, b := Two(2);
    FreeNodeLeft(cx.Snap(), a);
    cx.UpdateParent(b, a);
    if cx.first[b] >= 0 {
      ghost var c := ListHasChild(cx.Snap(), b);
    }
    var aborted := cx.RemoveEntity(b);
  }
}
