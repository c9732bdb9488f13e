/** What removing an entity does to the child lists of entity.c, whatever the parents are: also when
    the entity is below itself, or when there are cycles elsewhere. */
module EntityRemoval {
  import opened Lists

  import opened EntityLists
  import opened EntityDescent
  import opened EntityChanges

  // ----- The entity is cut off from its parent

  function OnlyRemoving(n: nat, e: int): seq<bool> {
    seq(n, x => x == e)
  }

  /** The first lines of remove_entity_children for the entity e that is removed. */
  ghost function CutOff(t: Snapshot, e: int): (t1: Snapshot)
    requires t.Sized()
    ensures t1.Sized()
  {
    if Unlinks(t.s.parent, OnlyRemoving(|t.used|, e), e) && CanUnhook(t.s, e) then Unhook(t, e) else t
  }

  /** The entities in lists then: an entity that is its own parent is not taken out of its own. */
  ghost function StillHeld(t: Snapshot, e: int): set<int> {
    WithParent(t.s.parent, t.used) - if 0 <= e < |t.s.parent| && t.s.parent[e] == e then {} else {e}
  }

  lemma DepthGrades(parent: seq<int>, held: set<int>, e: int)
    requires 0 <= e < |parent| && (e in held ==> parent[e] == e)
    ensures GradedBelow(parent, held, DepthTo(parent, e), e)
  {
    var depth := DepthTo(parent, e);
    forall c | c in held && c != e && 0 <= c < |parent| && Below(parent, depth, parent[c], e)
      ensures Proper(parent, depth, c)
    {
      BelowDescends(parent, depth, parent[c], e);
      StepUp(parent, c, e);
    }
  }

  lemma CutOffIsUnhooked(t: Snapshot, e: int)
    requires WellFormed(t) && e in InUse(t.used)
    ensures 0 <= e < |t.s.parent| && t.s.parent[e] < |t.used|
    ensures Unlinks(t.s.parent, OnlyRemoving(|t.used|, e), e) <==> t.s.parent[e] >= 0 && t.s.parent[e] != e
    ensures Unlinks(t.s.parent, OnlyRemoving(|t.used|, e), e) ==> CanUnhook(t.s, e)
    ensures Unhooked(t, CutOff(t, e), Unlinks(t.s.parent, OnlyRemoving(|t.used|, e), e),
                     WithParent(t.s.parent, t.used), e)
  {
    ParentHasChild(t, e);
    if t.s.parent[e] >= 0 {
      HeldHasNode(t.s, InUse(t.used), WithParent(t.s.parent, t.used), e);
      forall n | 0 <= n < |t.s.next| ensures Listed(t.s, {e}, n) <==> n == t.s.link[e] {}
    }
  }

  lemma CutOffShape(t: Snapshot, e: int)
    requires WellFormed(t) && e in InUse(t.used)
    ensures Shape(CutOff(t, e).s, InUse(t.used), StillHeld(t, e))
    ensures CutOff(t, e).s.parent == t.s.parent
  {
    CutOffIsUnhooked(t, e);
    var held := WithParent(t.s.parent, t.used);
    if Unlinks(t.s.parent, OnlyRemoving(|t.used|, e), e) {
      UnlinkKeeps(t.s, InUse(t.used), held, e);
    } else {
      assert StillHeld(t, e) == held;
    }
  }

  /** Cut off, e is the root of a tree of what is below it. */
  lemma CutOffStarts(t: Snapshot, e: int)
    requires WellFormed(t) && e in InUse(t.used)
    ensures Start(CutOff(t, e).s, DepthTo(t.s.parent, e), InUse(t.used), StillHeld(t, e), e)
  {
    CutOffShape(t, e);
    CutOffIsUnhooked(t, e);
    DepthGrades(t.s.parent, StillHeld(t, e), e);
  }

  lemma CutOffList(t: Snapshot, e: int)
    requires WellFormed(t) && e in InUse(t.used)
    ensures 0 <= e < |t.s.parent| && CutOff(t, e).s.kids[e] == t.s.kids[e]
    ensures t.s.first[e] == NodeAt(CutOff(t, e).s, t.s.kids[e], 0)
  {
    CutOffIsUnhooked(t, e);
    assert OwnList(t.s, WithParent(t.s.parent, t.used), e);
  }

  // ----- The run

  /** Calls enough for all that is below e. */
  ghost function Fuel(t: Snapshot, e: int): nat { Deepest(DepthTo(t.s.parent, e)) }

  /** The loop for e is as far as to child number k. */
  ghost predicate LoopAt(t: Snapshot, t2: Snapshot, e: int, k: nat)
    requires t.Sized()
  {
    AtStage(CutOff(t, e), t2, OnlyRemoving(|t.used|, e), DepthTo(t.s.parent, e), InUse(t.used), StillHeld(t, e), e, k)
  }

  lemma LoopBegins(t: Snapshot, e: int)
    requires WellFormed(t) && e in InUse(t.used)
    ensures LoopAt(t, CutOff(t, e), e, 0) && 0 <= e < |CutOff(t, e).s.kids|
  {
    var t1, depth, held1 := CutOff(t, e), DepthTo(t.s.parent, e), StillHeld(t, e);
    CutOffStarts(t, e);
    CutOffIsUnhooked(t, e);
    LoopStarts(t1, OnlyRemoving(|t.used|, e), depth, InUse(t.used), held1, e);
    assert AtChild(t1, t1, OnlyRemoving(|t.used|, e), depth, InUse(t.used), held1, InUse(t.used), held1, e, 0, []);
  }

  lemma CallsDoTheirs(t: Snapshot, e: int)
    requires WellFormed(t) && e in InUse(t.used)
    ensures Kills(Killer(OnlyRemoving(|t.used|, e), Fuel(t, e)), OnlyRemoving(|t.used|, e), DepthTo(t.s.parent, e),
                  InUse(t.used), e)
  {
    ParentHasChild(t, e);
    KillerKills(OnlyRemoving(|t.used|, e), DepthTo(t.s.parent, e), Fuel(t, e), InUse(t.used), e, Fuel(t, e));
  }

  lemma LoopWalks(t: Snapshot, e: int, kill: (Snapshot, int) -> Outcome) returns (t2: Snapshot)
    requires WellFormed(t) && e in InUse(t.used)
    requires Kills(kill, OnlyRemoving(|t.used|, e), DepthTo(t.s.parent, e), InUse(t.used), e)
    ensures t2.Sized() && 0 <= e < |CutOff(t, e).s.kids|
    ensures var t1 := CutOff(t, e); var list, turns := t1.s.kids[e], Turns(t1.s.kids[e], e);
      && LoopAt(t, t2, e, turns)
      && KillList(kill, t1, NodeAt(t1.s, list, 0), |list|, e)
         == KillList(kill, t2, NodeAt(t1.s, list, turns), |list| - turns, e)
  {
    LoopBegins(t, e);
    t2 := KillListRemoves(kill, CutOff(t, e), OnlyRemoving(|t.used|, e), DepthTo(t.s.parent, e), InUse(t.used),
                          StillHeld(t, e), e);
  }

  /** The loop comes from e's first child to e itself or to the end. */
  lemma LoopComes(t: Snapshot, e: int, kill: (Snapshot, int) -> Outcome) returns (t2: Snapshot)
    requires WellFormed(t) && e in InUse(t.used) && kill == Killer(OnlyRemoving(|t.used|, e), Fuel(t, e))
    ensures 0 <= e < |t.s.parent| && t2.Sized() && LoopAt(t, t2, e, Turns(t.s.kids[e], e))
    ensures var t1, list, turns := CutOff(t, e), t.s.kids[e], Turns(t.s.kids[e], e);
      KillList(kill, t1, NodeAt(t1.s, list, 0), |list|, e)
      == KillList(kill, t2, NodeAt(t1.s, list, turns), |list| - turns, e)
  {
    CallsDoTheirs(t, e);
    t2 := LoopWalks(t, e, kill);
    CutOffList(t, e);
  }

  /** A run of remove_entity_children for e is a run of its loop. */
  lemma KillIsLoop(t: Snapshot, e: int, fuel: nat)
    requires WellFormed(t) && e in InUse(t.used)
    ensures 0 <= e < |t.s.parent|
    ensures var removing, t1 := OnlyRemoving(|t.used|, e), CutOff(t, e);
      var r := KillList(Killer(removing, fuel), t1, NodeAt(t1.s, t.s.kids[e], 0), |t.s.kids[e]|, e);
      Kill(t, removing, e, fuel) == if r.Ended? then Ended(r.value.(s := Cleared(r.value.s, e))) else r
  {
    CutOffList(t, e);
    CutOffIsUnhooked(t, e);
  }

  /** At itself it aborts. */
  lemma AbortsAtItself(kill: (Snapshot, int) -> Outcome, t: Snapshot, e: int, t2: Snapshot)
    requires WellFormed(t) && e in InUse(t.used) && 0 <= e < |t.s.parent| && t.s.parent[e] == e
    requires t2.Sized() && LoopAt(t, t2, e, Turns(t.s.kids[e], e))
    ensures var list, turns := t.s.kids[e], Turns(t.s.kids[e], e);
      KillList(kill, t2, NodeAt(CutOff(t, e).s, list, turns), |list| - turns, e) == Aborted
  {
    var t1, depth, held1 := CutOff(t, e), DepthTo(t.s.parent, e), StillHeld(t, e);
    CutOffStarts(t, e);
    CutOffList(t, e);
    CutOffShape(t, e);
    AllTurns(t1.s, depth, InUse(t.used), held1, e);
    HeldHasNode(t1.s, InUse(t.used), held1, e);
    var turns := Turns(t.s.kids[e], e);
    var all2, held2, before :|
      AtChild(t1, t2, OnlyRemoving(|t.used|, e), depth, InUse(t.used), held1, all2, held2, e, turns, before);
    assert OwnList(t2.s, held2, e);
    ListStarts(t2.s, e);
  }

  /** What the loop for e leaves, if it comes to its end: nothing below e. */
  ghost predicate LoopRemoved(t1: Snapshot, t2: Snapshot, removing: seq<bool>, all: set<int>, held1: set<int>,
                              under: set<int>, e: int)
    requires t1.s.Sized() && t2.s.Sized() && 0 <= e < |t2.s.parent|
  {
    && t2.s.parent == t1.s.parent && t2.s.child == t1.s.child && t2.s.link == t1.s.link
    && |t2.s.next| == |t1.s.next|
    && Shape(t2.s, all - under, held1 - under) && t2.s.first[e] == -1 && t2.s.kids[e] == []
    && (forall q {:trigger SameKids(t1.s, t2.s, q)} :: q in all - under && q != e ==> SameKids(t1.s, t2.s, q))
    && Dropped(t1.used, t2.used, under)
    && Freed(t1.s, t1.nodeUsed, t2.nodeUsed, under)
    && Counted(t1.s, t1.nodeFrees, t2.nodeFrees, under, Again(t1.s, removing, under))
  }

  lemma LoopOver(t: Snapshot, e: int, t2: Snapshot)
    requires WellFormed(t) && e in InUse(t.used) && 0 <= e < |t.s.parent| && t.s.parent[e] != e
    requires t2.Sized() && LoopAt(t, t2, e, |t.s.kids[e]|)
    ensures e < |t2.s.parent|
    ensures LoopRemoved(CutOff(t, e), t2.(s := Cleared(t2.s, e)), OnlyRemoving(|t.used|, e), InUse(t.used),
                        StillHeld(t, e), Descendants(t.s.parent, InUse(t.used), e), e)
  {
    var t1, depth, held1 := CutOff(t, e), DepthTo(t.s.parent, e), StillHeld(t, e);
    var removing, all := OnlyRemoving(|t.used|, e), InUse(t.used);
    CutOffStarts(t, e);
    CutOffList(t, e);
    CutOffShape(t, e);
    UnderIsDescendants(t.s.parent, all, e);
    var all2, held2, before :| AtChild(t1, t2, removing, depth, all, held1, all2, held2, e, |t.s.kids[e]|, before);
    EmptyList(t2.s, t1.s, depth, all, held1, all2, held2, e, before);
    LoopBooks(t1, t2, removing, depth, all, held1, all2, held2, e, before);
  }

  ghost predicate ChildrenRemoved(t: Snapshot, t2: Snapshot, e: int)
    requires t.Sized() && t2.Sized()
  {
    && 0 <= e < |t2.s.parent|
    && LoopRemoved(CutOff(t, e), t2, OnlyRemoving(|t.used|, e), InUse(t.used), StillHeld(t, e),
                   Descendants(t.s.parent, InUse(t.used), e), e)
  }

  /** remove_entity_children for the entity e that is removed comes to its end, with nothing left below
      e, if and only if e is not its own parent; otherwise it aborts. There may be any cycles of
      parents, through e or not. */
  lemma RemovalEndsIff(t: Snapshot, e: int)
    requires WellFormed(t) && e in InUse(t.used)
    ensures 0 <= e < |t.s.parent|
    ensures var r := Kill(t, OnlyRemoving(|t.used|, e), e, Fuel(t, e));
      && (r.Ended? <==> t.s.parent[e] != e)
      && (r.Aborted? <==> t.s.parent[e] == e)
      && (r.Ended? ==> ChildrenRemoved(t, r.value, e))
  {
    var kill := Killer(OnlyRemoving(|t.used|, e), Fuel(t, e));
    var t2 := LoopComes(t, e, kill);
    KillIsLoop(t, e, Fuel(t, e));
    CutOffStarts(t, e);
    CutOffList(t, e);
    CutOffShape(t, e);
    AllTurns(CutOff(t, e).s, DepthTo(t.s.parent, e), InUse(t.used), StillHeld(t, e), e);
    if t.s.parent[e] == e {
      AbortsAtItself(kill, t, e, t2);
    } else {
      assert KillList(kill, t2, -1, 0, e) == Ended(t2);
      LoopOver(t, e, t2);
    }
  }

  // ----- remove_entity

  /** An entity without children and outside the lists can go. */
  lemma DropKeeps(s: Links, all: set<int>, held: set<int>, e: int)
    requires Shape(s, all, held) && e in all - held && Childless(s, e)
    ensures Shape(s, all - {e}, held)
  {
    forall q | q in all - {e} ensures OwnList(s, held, q) {}
    forall c | c in held ensures InList(s, all - {e}, c) {
      assert InList(s, all, c);
    }
  }

  /** e and everything below it are gone; the lists of the others are as before, but that e has
      left its parent's. The nodes in the lists below e, and e's own, are free, and were freed once,
      or once more if they held an entity that has children other than e and whose parent is not
      e. */
  ghost predicate EntityRemoved(t: Snapshot, t': Snapshot, e: int)
    requires t.Sized()
  {
    var all, held := InUse(t.used), WithParent(t.s.parent, t.used);
    var under := Descendants(t.s.parent, all, e);
    && WellFormed(t') && t'.s.parent == t.s.parent
    && |t'.used| == |t.used| && InUse(t'.used) == all - under - {e}
    && (forall p | p in InUse(t'.used) :: SameKids(t.s, t'.s, p) || LosesOne(t.s, t'.s, p, e))
    && Counted(t.s, t.nodeFrees, t'.nodeFrees, (under + {e}) * held, TwiceFreed(t.s, under, e))
  }

  predicate LosesOne(s: Links, s': Links, p: int, e: int) {
    0 <= p < |s.kids| == |s'.kids| && 0 <= e < |s.parent| && s.parent[e] == p && e in s.kids[p]
    && s'.kids[p] == Without(s.kids[p], e)
  }

  ghost function TwiceFreed(s: Links, under: set<int>, e: int): set<int> {
    set x | x in under && 0 <= x < |s.kids| && s.kids[x] != [] && s.kids[x] != [e]
            && x < |s.parent| && s.parent[x] != e
  }

  /** What is below e has a parent. */
  lemma DescendantsHeld(t: Snapshot, e: int)
    requires WellFormed(t) && e in InUse(t.used)
    ensures 0 <= e < |t.s.parent|
    ensures Descendants(t.s.parent, InUse(t.used), e) <= WithParent(t.s.parent, t.used)
  {
    forall x | x in Descendants(t.s.parent, InUse(t.used), e) ensures t.s.parent[x] >= 0 {
      StepUp(t.s.parent, x, e);
      assert t.s.parent[x] != e ==> exists n: nat :: Climb(t.s.parent, t.s.parent[x], e, n) >= 0;
    }
  }

  lemma RemovedSets(t: Snapshot, t2: Snapshot, e: int)
    requires WellFormed(t) && e in InUse(t.used) && t2.Sized() && e < |t.s.parent| && t.s.parent[e] != e
    requires ChildrenRemoved(t, t2, e)
    ensures var all, held := InUse(t.used), WithParent(t.s.parent, t.used);
      var under := Descendants(t.s.parent, all, e);
      && InUse(t2.used[e := false]) == all - under - {e}
      && WithParent(t.s.parent, t2.used[e := false]) == held - under - {e}
      && StillHeld(t, e) - under == held - under - {e}
      && t2.s.parent == t.s.parent && t2.s.child == t.s.child && t2.s.link == t.s.link
  {
    CutOffIsUnhooked(t, e);
  }

  lemma RemoveKeepsShape(t: Snapshot, t2: Snapshot, e: int)
    requires WellFormed(t) && e in InUse(t.used) && t2.Sized() && e < |t.s.parent| && t.s.parent[e] != e
    requires ChildrenRemoved(t, t2, e)
    ensures var all, held := InUse(t.used), WithParent(t.s.parent, t.used);
      var under := Descendants(t.s.parent, all, e);
      Shape(t2.s, all - under - {e}, held - under - {e})
  {
    RemovedSets(t, t2, e);
    var all, held := InUse(t.used), WithParent(t.s.parent, t.used);
    var under := Descendants(t.s.parent, all, e);
    DropKeeps(t2.s, all - under, held - under - {e}, e);
  }

  /** After the cut, the entities whose nodes are freed once more are those of TwiceFreed. */
  lemma AgainIsTwice(t: Snapshot, e: int)
    requires WellFormed(t) && e in InUse(t.used) && 0 <= e < |t.s.parent| && t.s.parent[e] != e
    ensures var under := Descendants(t.s.parent, InUse(t.used), e);
      Again(CutOff(t, e).s, OnlyRemoving(|t.used|, e), under) == TwiceFreed(t.s, under, e)
  {
    var under, removing := Descendants(t.s.parent, InUse(t.used), e), OnlyRemoving(|t.used|, e);
    var t1 := CutOff(t, e);
    DescendantsHeld(t, e);
    CutOffIsUnhooked(t, e);
    forall x | x in under
      ensures 0 <= x < |t.s.parent| && (Unlinks(t1.s.parent, removing, x) <==> t.s.parent[x] != e)
      ensures t1.s.kids[x] != [] <==> t.s.kids[x] != [] && t.s.kids[x] != [e]
    {
      ParentHasChild(t, x);
      CutOffKids(t, e, x);
    }
  }

  lemma CutOffKids(t: Snapshot, e: int, x: int)
    requires WellFormed(t) && e in InUse(t.used) && x in InUse(t.used) && t.s.parent[e] != e
    ensures 0 <= x < |CutOff(t, e).s.kids| == |t.s.kids|
    ensures CutOff(t, e).s.kids[x] != [] <==> t.s.kids[x] != [] && t.s.kids[x] != [e]
  {
    CutOffIsUnhooked(t, e);
    assert OwnList(t.s, WithParent(t.s.parent, t.used), x);
    if e in t.s.kids[x] {
      WithoutHas(t.s.kids[x], e);
      assert |t.s.kids[x]| == 1 ==> t.s.kids[x] == [e];
    }
  }

  lemma RemoveBooks(t: Snapshot, t2: Snapshot, e: int)
    requires WellFormed(t) && e in InUse(t.used) && t2.Sized() && e < |t.s.parent| && t.s.parent[e] != e
    requires ChildrenRemoved(t, t2, e)
    ensures var all, held := InUse(t.used), WithParent(t.s.parent, t.used);
      var under := Descendants(t.s.parent, all, e);
      && Counted(t.s, t.nodeFrees, t2.nodeFrees, (under + {e}) * held, TwiceFreed(t.s, under, e))
      && Freed(t.s, t.nodeUsed, t2.nodeUsed, (under + {e}) * held)
  {
    var all, held := InUse(t.used), WithParent(t.s.parent, t.used);
    var under, removing := Descendants(t.s.parent, all, e), OnlyRemoving(|t.used|, e);
    var t1 := CutOff(t, e);
    var unlinks := Unlinks(t.s.parent, removing, e);
    var mine := if unlinks then {e} else {};
    CutOffIsUnhooked(t, e);
    UnhookedBooks(t, t1, unlinks, held, e);
    AgainIsTwice(t, e);
    DescendantsHeld(t, e);
    var again := TwiceFreed(t.s, under, e);
    SameNodes(t1.s, t.s, t1.nodeUsed, t2.nodeUsed, under, t1.nodeFrees, t2.nodeFrees, under, again);
    JoinBooks(t.s, t, t1, t2, under, again, mine);
    assert (under + {e}) * held == under + mine;
    forall n | 0 <= n < |t.nodeFrees|
      ensures (if Listed(t.s, under, n) then 1 else 0) + (if Listed(t.s, again + mine, n) then 1 else 0)
            == (if Listed(t.s, under + mine, n) then 1 else 0) + (if Listed(t.s, again, n) then 1 else 0)
    {}
  }

  lemma RemoveKeepsLists(t: Snapshot, t2: Snapshot, e: int, p: int)
    requires WellFormed(t) && e in InUse(t.used) && t2.Sized() && e < |t.s.parent| && t.s.parent[e] != e
    requires ChildrenRemoved(t, t2, e)
    requires p in InUse(t.used) - Descendants(t.s.parent, InUse(t.used), e) - {e}
    ensures SameKids(t.s, t2.s, p) || LosesOne(t.s, t2.s, p, e)
  {
    CutOffIsUnhooked(t, e);
    assert SameKids(CutOff(t, e).s, t2.s, p);
  }

  /** remove_entity, after remove_entity_children has come to its end. */
  lemma RemoveKeeps(t: Snapshot, t2: Snapshot, e: int)
    requires WellFormed(t) && e in InUse(t.used) && t2.Sized() && e < |t.s.parent| && t.s.parent[e] != e
    requires ChildrenRemoved(t, t2, e)
    ensures |t2.used| == |t.used| && EntityRemoved(t, t2.(used := t2.used[e := false]), e)
  {
    var all, held := InUse(t.used), WithParent(t.s.parent, t.used);
    var under := Descendants(t.s.parent, all, e);
    var t' := t2.(used := t2.used[e := false]);
    RemovedSets(t, t2, e);
    RemoveKeepsShape(t, t2, e);
    RemoveBooks(t, t2, e);
    forall p | p in InUse(t'.used) ensures SameKids(t.s, t'.s, p) || LosesOne(t.s, t'.s, p, e) {
      RemoveKeepsLists(t, t2, e, p);
    }
    forall n | 0 <= n < |t'.nodeUsed| ensures t'.nodeUsed[n] <==> Listed(t'.s, held - under - {e}, n) {
      assert t.nodeUsed[n] <==> Listed(t.s, held, n);
    }
  }

  /** A childless entity whose parent is no entity's. */
  lemma RemoveLone(t: Snapshot, e: int)
    requires WellFormed(t) && e in InUse(t.used)
    requires 0 <= e < |t.s.parent| && t.s.parent[e] < 0 && t.s.first[e] < 0
    ensures EntityRemoved(t, t.(used := t.used[e := false]), e)
  {
    var all, held := InUse(t.used), WithParent(t.s.parent, t.used);
    var t' := t.(used := t.used[e := false]);
    CutOffStarts(t, e);
    CutOffIsUnhooked(t, e);
    assert StillHeld(t, e) == held;
    LeafIsAlone(t.s, DepthTo(t.s.parent, e), all, held, e);
    UnderIsDescendants(t.s.parent, all, e);
    DropKeeps(t.s, all, held, e);
    assert InUse(t'.used) == all - {e} && WithParent(t'.s.parent, t'.used) == held;
    forall p | p in InUse(t'.used) ensures SameKids(t.s, t'.s, p) {
      assert OwnList(t.s, held, p);
    }
    assert ({} + {e}) * held == {} && TwiceFreed(t.s, {}, e) == {};
  }

  /** A childless entity that has a parent: its node stays in the parent's list, and no lists at
      all make that well formed. */
  lemma Dangling(t: Snapshot, e: int)
    requires WellFormed(t) && e in WithParent(t.s.parent, t.used) && t.s.first[e] < 0
    ensures !CanBeWellFormed(t.(used := t.used[e := false]))
  {
    var all, held := InUse(t.used), WithParent(t.s.parent, t.used);
    var used' := t.used[e := false];
    assert InList(t.s, all, e) && OwnList(t.s, held, e);
    ListStarts(t.s, e);
    var p := t.s.parent[e];
    forall kids: seq<seq<int>>, link: seq<int>
      ensures !WellFormed(t.(s := t.s.(kids := kids, link := link), used := used'))
    {
      var s' := t.s.(kids := kids, link := link);
      if WellFormed(t.(s := s', used := used')) {
        assert OwnList(s', WithParent(t.s.parent, used'), p) && OwnList(t.s, held, p);
        ChainIsUnique(t.s, t.s.first[p], t.s.kids[p], s', kids[p]);
      }
    }
  }

  lemma RemovedCanBe(t: Snapshot)
    requires WellFormed(t)
    ensures CanBeWellFormed(t)
  {
    assert t.(s := t.s.(kids := t.s.kids, link := t.s.link)) == t;
  }

  /** An entity's parent has a list. */
  lemma ParentHasList(t: Snapshot, c: int)
    requires WellFormed(t) && c in WithParent(t.s.parent, t.used)
    ensures 0 <= t.s.parent[c] < |t.s.first| && t.s.first[t.s.parent[c]] >= 0
  {
    ParentHasChild(t, c);
    assert OwnList(t.s, WithParent(t.s.parent, t.used), t.s.parent[c]);
    ListStarts(t.s, t.s.parent[c]);
  }

  /** A list is of somebody's children. */
  lemma ListHasChild(t: Snapshot, p: int) returns (c: int)
    requires WellFormed(t) && p in InUse(t.used) && 0 <= p < |t.s.first| && t.s.first[p] >= 0
    ensures c in WithParent(t.s.parent, t.used) && 0 <= c < |t.s.parent| && t.s.parent[c] == p
  {
    assert OwnList(t.s, WithParent(t.s.parent, t.used), p);
    ListStarts(t.s, p);
    c := t.s.kids[p][0];
  }
}
