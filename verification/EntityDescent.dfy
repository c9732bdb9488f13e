/** Who is below whom when the parents form a forest, and the state of the child lists halfway
    through remove_entity_children of entity.c. */
module EntityDescent {
  import opened Lists

  import opened EntityLists

  /** x is deeper than its parent. */
  predicate Proper(parent: seq<int>, depth: seq<nat>, x: int) {
    0 <= x < |parent| == |depth| && 0 <= parent[x] < |parent| && depth[parent[x]] < depth[x]
  }

  /** The parents of the entities in lists form a forest: `depth` goes up from parent to child. */
  ghost predicate Graded(parent: seq<int>, held: set<int>, depth: seq<nat>) {
    |depth| == |parent| && forall c {:trigger Proper(parent, depth, c)} :: c in held ==> Proper(parent, depth, c)
  }

  ghost predicate Capped(depth: seq<nat>, all: set<int>, height: nat) {
    forall x <- all :: 0 <= x < |depth| && depth[x] <= height
  }

  /** x is e or below it. */
  ghost predicate Below(parent: seq<int>, depth: seq<nat>, x: int, e: int)
    requires |depth| == |parent|
    decreases if 0 <= x < |depth| then depth[x] else 0
  {
    || x == e
    || (0 <= x < |parent| && 0 <= parent[x] < |parent| && depth[parent[x]] < depth[x]
        && Below(parent, depth, parent[x], e))
  }

  /** The entities below e. */
  ghost function Under(parent: seq<int>, depth: seq<nat>, all: set<int>, e: int): set<int>
    requires |depth| == |parent|
  {
    set x | x in all && x != e && Below(parent, depth, x, e)
  }

  // ----- Descent, whatever the parents

  /** How many steps up from x lead to e, if n are enough; otherwise -1. */
  function Climb(parent: seq<int>, x: int, e: int, n: nat): (k: int)
    ensures -1 <= k <= n
    decreases n
  {
    if x == e then 0
    else if n == 0 || !(0 <= x < |parent|) then -1
    else
      var k := Climb(parent, parent[x], e, n - 1);
      if k < 0 then -1 else k + 1
  }

  /** x is e, or e is among x's parent, its parent, and so on. */
  ghost predicate Descends(parent: seq<int>, x: int, e: int) {
    exists n: nat :: Climb(parent, x, e, n) >= 0
  }

  ghost function Descendants(parent: seq<int>, all: set<int>, e: int): set<int> {
    set x | x in all && x != e && Descends(parent, x, e)
  }

  lemma {:induction false} ClimbMore(parent: seq<int>, x: int, e: int, m: nat, n: nat)
    requires Climb(parent, x, e, m) >= 0 && m <= n
    ensures Climb(parent, x, e, n) == Climb(parent, x, e, m)
    decreases n
  {
    if x != e { ClimbMore(parent, parent[x], e, m - 1, n - 1); }
  }

  /** The length of the way up to e. */
  ghost function StepsTo(parent: seq<int>, x: int, e: int): nat {
    if Descends(parent, x, e) then
      var n: nat :| Climb(parent, x, e, n) >= 0;
      Climb(parent, x, e, n)
    else 0
  }

  ghost function DepthTo(parent: seq<int>, e: int): (depth: seq<nat>)
    ensures |depth| == |parent|
    ensures forall x :: 0 <= x < |parent| ==> depth[x] == StepsTo(parent, x, e)
  {
    seq(|parent|, x => StepsTo(parent, x, e))
  }

  lemma StepsAre(parent: seq<int>, x: int, e: int, n: nat)
    requires Climb(parent, x, e, n) >= 0
    ensures Descends(parent, x, e) && StepsTo(parent, x, e) == Climb(parent, x, e, n)
  {
    forall m: nat | Climb(parent, x, e, m) >= 0 ensures Climb(parent, x, e, m) == Climb(parent, x, e, n) {
      if m <= n { ClimbMore(parent, x, e, m, n); } else { ClimbMore(parent, x, e, n, m); }
    }
  }

  lemma StepUp(parent: seq<int>, x: int, e: int)
    requires 0 <= x < |parent| && x != e
    ensures Descends(parent, x, e) <==> Descends(parent, parent[x], e)
    ensures Descends(parent, x, e) ==> StepsTo(parent, x, e) == StepsTo(parent, parent[x], e) + 1
  {
    if Descends(parent, x, e) {
      var n: nat :| Climb(parent, x, e, n) >= 0;
      assert Climb(parent, parent[x], e, n - 1) >= 0;
      StepsAre(parent, x, e, n);
      StepsAre(parent, parent[x], e, n - 1);
    }
    assert forall n: nat :: Climb(parent, parent[x], e, n) >= 0 ==> Climb(parent, x, e, n + 1) >= 0;
  }

  lemma {:induction false} BelowDescends(parent: seq<int>, depth: seq<nat>, x: int, e: int)
    requires |depth| == |parent| && Below(parent, depth, x, e)
    ensures Descends(parent, x, e)
    decreases if 0 <= x < |depth| then depth[x] else 0
  {
    if x == e {
      assert Climb(parent, x, e, 0) == 0;
    } else {
      BelowDescends(parent, depth, parent[x], e);
      StepUp(parent, x, e);
    }
  }

  lemma {:induction false} DescendsIsBelow(parent: seq<int>, x: int, e: int, n: nat)
    requires Climb(parent, x, e, n) >= 0 && 0 <= e < |parent|
    ensures Below(parent, DepthTo(parent, e), x, e)
    decreases n
  {
    if x != e {
      DescendsIsBelow(parent, parent[x], e, n - 1);
      StepsAre(parent, x, e, n);
      StepUp(parent, x, e);
    }
  }

  /** With depths counted from e, being below e is descending from it. */
  lemma UnderIsDescendants(parent: seq<int>, all: set<int>, e: int)
    requires 0 <= e < |parent|
    ensures Under(parent, DepthTo(parent, e), all, e) == Descendants(parent, all, e)
  {
    var depth := DepthTo(parent, e);
    forall x ensures Below(parent, depth, x, e) <==> Descends(parent, x, e) {
      if Below(parent, depth, x, e) { BelowDescends(parent, depth, x, e); }
      if Descends(parent, x, e) {
        var n: nat :| Climb(parent, x, e, n) >= 0;
        DescendsIsBelow(parent, x, e, n);
      }
    }
  }

  lemma {:induction false} BelowIsDeeper(parent: seq<int>, depth: seq<nat>, x: int, e: int)
    requires |depth| == |parent| && 0 <= x < |parent| && Below(parent, depth, x, e) && x != e
    ensures 0 <= e < |parent| && depth[e] < depth[x]
    decreases depth[x]
  {
    if parent[x] != e { BelowIsDeeper(parent, depth, parent[x], e); }
  }

  lemma {:induction false} BelowJoins(parent: seq<int>, depth: seq<nat>, x: int, c: int, e: int)
    requires |depth| == |parent| && 0 <= x < |parent| && Below(parent, depth, x, c) && Below(parent, depth, c, e)
    ensures Below(parent, depth, x, e)
    decreases depth[x]
  {
    if x != c { BelowJoins(parent, depth, parent[x], c, e); }
  }

  /** Nothing is below two children of one entity. */
  lemma {:induction false} BelowOneChild(parent: seq<int>, depth: seq<nat>, x: int, a: int, b: int)
    requires |depth| == |parent| && 0 <= x < |parent| && 0 <= a < |parent| && 0 <= b < |parent|
    requires parent[a] == parent[b] && 0 <= parent[a] < |parent|
    requires depth[parent[a]] < depth[a] && depth[parent[b]] < depth[b]
    requires Below(parent, depth, x, a) && Below(parent, depth, x, b)
    ensures a == b
    decreases depth[x]
  {
    if a != b {
      if x == a || x == b {
        var y := if x == a then b else a;
        if parent[x] != y { BelowIsDeeper(parent, depth, parent[x], y); }
      } else {
        BelowOneChild(parent, depth, parent[x], a, b);
      }
    }
  }

  /** Every entity of `all` below e is in a list. */
  ghost predicate Rooted(parent: seq<int>, depth: seq<nat>, all: set<int>, held: set<int>, e: int)
    requires |depth| == |parent|
  {
    forall x | x in Under(parent, depth, all, e) :: x in held
  }

  /** What is below e is below a child of e. */
  lemma {:induction false} UnderAChild(s: Links, depth: seq<nat>, all: set<int>, held: set<int>, e: int, x: int)
      returns (c: int)
    requires Shape(s, all, held) && |depth| == |s.parent| && e in all
    requires Rooted(s.parent, depth, all, held, e) && x in Under(s.parent, depth, all, e)
    ensures 0 <= e < |s.parent| && c in s.kids[e] && 0 <= c < |s.parent| && Below(s.parent, depth, x, c)
    decreases depth[x]
  {
    assert OwnList(s, held, e) && InList(s, all, x);
    assert x in held && s.parent[x] in all && x in s.kids[s.parent[x]];
    if s.parent[x] == e {
      c := x;
    } else {
      assert OwnList(s, held, s.parent[x]) && s.parent[x] in Under(s.parent, depth, all, e);
      c := UnderAChild(s, depth, all, held, e, s.parent[x]);
    }
  }

  // ----- Halfway through the children of e

  /** The first k children and what is below them. */
  ghost function Done(parent: seq<int>, depth: seq<nat>, all: set<int>, list: seq<int>, k: nat): (d: set<int>)
    requires |depth| == |parent| && k <= |list|
    ensures forall i :: 0 <= i < k ==> list[i] in d
  {
    if k == 0 then {}
    else Done(parent, depth, all, list, k - 1) + {list[k - 1]} + Under(parent, depth, all, list[k - 1])
  }

  lemma {:induction false} DoneIsBelow(parent: seq<int>, depth: seq<nat>, all: set<int>, list: seq<int>, k: nat, x: int)
      returns (i: nat)
    requires |depth| == |parent| && k <= |list| && x in Done(parent, depth, all, list, k)
    ensures i < k && Below(parent, depth, x, list[i])
  {
    if x == list[k - 1] || x in Under(parent, depth, all, list[k - 1]) {
      i := k - 1;
    } else {
      i := DoneIsBelow(parent, depth, all, list, k - 1, x);
    }
  }

  predicate IsChildOf(s: Links, x: int, e: int) {
    0 <= x < |s.parent| && s.parent[x] == e
  }

  /** After k of the children in `list`: what is below them has left the lists, but for children
      of e that had no list of their own or were not unlinked, whose nodes are still there. */
  ghost predicate Halfway(s: Links, s0: Links, depth: seq<nat>, all0: set<int>, held0: set<int>,
                          all: set<int>, held: set<int>, e: int, k: nat, before: seq<int>)
    requires |depth| == |s0.parent| == |s0.kids| && 0 <= e < |s0.kids| && k <= |s0.kids[e]|
  {
    var list := s0.kids[e];
    var done := Done(s0.parent, depth, all0, list, k);
    && Shape(s, all, held) && e in all
    && s.parent == s0.parent && s.child == s0.child && s.link == s0.link
    && all0 - done <= all <= all0 && held0 - done <= held <= held0
    && (forall x {:trigger Childless(s, x)} :: x in all && x in done ==> Childless(s, x))
    && (forall x {:trigger IsChildOf(s, x, e)} :: x in held && x in done ==> IsChildOf(s, x, e))
    && s.kids[e] == before + list[k..]
    && (forall c <- before :: c in done)
    && (forall p {:trigger SameKids(s0, s, p)} :: p in all && p !in done && p != e ==> SameKids(s0, s, p))
  }

  /** `depth` goes up from parent to child below e, and at e itself unless e is its own parent. Nothing
      is asked of other entities. */
  ghost predicate GradedBelow(parent: seq<int>, held: set<int>, depth: seq<nat>, e: int) {
    && |depth| == |parent|
    && (forall c {:trigger Proper(parent, depth, c)} ::
          c in held && c != e && 0 <= c < |parent| && Below(parent, depth, parent[c], e) ==>
            Proper(parent, depth, c))
    && (e in held && 0 <= e < |parent| && parent[e] != e ==> Proper(parent, depth, e))
  }

  /** What holds when the loop over the children of e starts, e itself being in no list, or left in
      the list of an entity that is being removed. */
  ghost predicate Start(s0: Links, depth: seq<nat>, all0: set<int>, held0: set<int>, e: int) {
    && Shape(s0, all0, held0) && GradedBelow(s0.parent, held0, depth, e)
    && e in all0 && 0 <= e < |s0.parent| && Rooted(s0.parent, depth, all0, held0, e)
  }

  /** How many children come before e in its own list: all of them, unless e is its own parent. */
  function Turns(list: seq<int>, e: int): (n: nat)
    ensures n <= |list|
  {
    var k := IndexOf(list, e);
    if 0 <= k < |list| then k else |list|
  }

  lemma AllTurns(s0: Links, depth: seq<nat>, all0: set<int>, held0: set<int>, e: int)
    requires Start(s0, depth, all0, held0, e)
    ensures s0.parent[e] != e ==> Turns(s0.kids[e], e) == |s0.kids[e]|
    ensures s0.parent[e] == e && e in held0 ==>
              e in s0.kids[e] && Turns(s0.kids[e], e) < |s0.kids[e]| && s0.kids[e][Turns(s0.kids[e], e)] == e
  {
    assert OwnList(s0, held0, e);
    assert e in held0 ==> InList(s0, all0, e);
  }

  lemma ListIsHeld(s0: Links, depth: seq<nat>, all0: set<int>, held0: set<int>, e: int, i: nat)
    requires Start(s0, depth, all0, held0, e) && i < Turns(s0.kids[e], e)
    ensures var c := s0.kids[e][i]; c in held0 && 0 <= c < |s0.parent| && s0.parent[c] == e && depth[e] < depth[c]
    ensures Below(s0.parent, depth, s0.kids[e][i], e)
  {
    assert OwnList(s0, held0, e) && Proper(s0.parent, depth, s0.kids[e][i]) && s0.kids[e][i] in s0.kids[e];
  }

  /** The subtree of the next child is untouched. */
  lemma NextUntouched(s0: Links, depth: seq<nat>, all0: set<int>, held0: set<int>, e: int, k: nat, x: int)
    requires Start(s0, depth, all0, held0, e) && k < Turns(s0.kids[e], e)
    requires 0 <= x < |s0.parent| && Below(s0.parent, depth, x, s0.kids[e][k])
    ensures x !in Done(s0.parent, depth, all0, s0.kids[e], k) && x != e && Below(s0.parent, depth, x, e)
  {
    var list := s0.kids[e];
    ListIsHeld(s0, depth, all0, held0, e, k);
    BelowJoins(s0.parent, depth, x, list[k], e);
    if x != list[k] { BelowIsDeeper(s0.parent, depth, x, list[k]); }
    assert OwnList(s0, held0, e);
    if x in Done(s0.parent, depth, all0, list, k) {
      var i := DoneIsBelow(s0.parent, depth, all0, list, k, x);
      ListIsHeld(s0, depth, all0, held0, e, i);
      BelowOneChild(s0.parent, depth, x, list[i], list[k]);
      Distinct(list, i, k);
    }
  }

  lemma SameUnder(s0: Links, depth: seq<nat>, all0: set<int>, held0: set<int>, all: set<int>, e: int, k: nat)
    requires Start(s0, depth, all0, held0, e) && k < Turns(s0.kids[e], e)
    requires all0 - Done(s0.parent, depth, all0, s0.kids[e], k) <= all <= all0
    ensures Under(s0.parent, depth, all, s0.kids[e][k]) == Under(s0.parent, depth, all0, s0.kids[e][k])
  {
    forall x | x in Under(s0.parent, depth, all0, s0.kids[e][k]) ensures x in all {
      assert OwnList(s0, held0, x);
      NextUntouched(s0, depth, all0, held0, e, k, x);
    }
  }

  /** The next child can be removed in the same way. */
  lemma NextReady(s: Links, s0: Links, depth: seq<nat>, all0: set<int>, held0: set<int>,
                  all: set<int>, held: set<int>, e: int, k: nat, before: seq<int>)
    requires Start(s0, depth, all0, held0, e) && k < Turns(s0.kids[e], e)
    requires Halfway(s, s0, depth, all0, held0, all, held, e, k, before)
    ensures var c := s0.kids[e][k];
      && c in held && c in all && 0 <= c < |s.parent| && s.parent[c] == e && c in s.kids[e] && c !in before
      && s.kids[c] == s0.kids[c] && Start(s, depth, all, held, c) && HasNode(s, c)
      && Under(s.parent, depth, all, c) == Under(s0.parent, depth, all0, c)
      && s.next[s.link[c]] == NodeAt(s, s0.kids[e], k + 1)
  {
    var list := s0.kids[e];
    var c := list[k];
    ListIsHeld(s0, depth, all0, held0, e, k);
    NextUntouched(s0, depth, all0, held0, e, k, c);
    SameUnder(s0, depth, all0, held0, all, e, k);
    assert list[k..][0] == c && s.kids[e][|before|] == c;
    assert OwnList(s, held, e) && Leads(s, s.kids[e], |before|);
    assert NodeAt(s, s.kids[e], |before| + 1) == NodeAt(s, list, k + 1) by {
      if k + 1 < |list| { assert s.kids[e][|before| + 1] == list[k + 1]; }
    }
    forall x | x in Under(s.parent, depth, all, c) ensures x in held {
      NextUntouched(s0, depth, all0, held0, e, k, x);
    }
    ChildGraded(s0.parent, held0, held, depth, e, c);
    assert OwnList(s, held, c) && SameKids(s0, s, c);
  }

  lemma ChildGraded(parent: seq<int>, held0: set<int>, held: set<int>, depth: seq<nat>, e: int, c: int)
    requires GradedBelow(parent, held0, depth, e) && held <= held0
    requires 0 <= e < |parent| && Proper(parent, depth, c) && parent[c] == e
    ensures GradedBelow(parent, held, depth, c)
  {
    forall x | x in held && x != c && 0 <= x < |parent| && Below(parent, depth, parent[x], c)
      ensures Proper(parent, depth, x)
    {
      if x != e {
        BelowIfIn(parent, depth, parent[x], c, e);
      } else if parent[e] == e {
        NotBelowOwnChild(parent, depth, e, c);
      } else if parent[e] != c {
        BelowIsDeeper(parent, depth, parent[e], c);
      }
    }
  }

  lemma BelowIfIn(parent: seq<int>, depth: seq<nat>, x: int, c: int, e: int)
    requires |depth| == |parent| && 0 <= c < |parent| && Below(parent, depth, x, c) && Below(parent, depth, c, e)
    ensures Below(parent, depth, x, e)
  {
    if x != c { BelowJoins(parent, depth, x, c, e); }
  }

  lemma ListStarts(s: Links, c: int)
    requires s.Sized() && GoodList(s, c)
    ensures s.kids[c] != [] <==> s.first[c] >= 0
  {
    if s.kids[c] != [] { assert Leads(s, s.kids[c], 0); }
  }

  /** A child without a list: nothing in the lists is below it. */
  lemma LeafIsAlone(s: Links, depth: seq<nat>, all: set<int>, held: set<int>, c: int)
    requires Start(s, depth, all, held, c) && s.first[c] < 0
    ensures s.kids[c] == [] && Under(s.parent, depth, all, c) == {}
  {
    assert OwnList(s, held, c);
    ListStarts(s, c);
    if x :| x in Under(s.parent, depth, all, c) {
      var y := UnderAChild(s, depth, all, held, c, x);
    }
  }

  lemma LeafStep(s: Links, s0: Links, depth: seq<nat>, all0: set<int>, held0: set<int>,
                 all: set<int>, held: set<int>, e: int, k: nat, before: seq<int>)
    requires Start(s0, depth, all0, held0, e) && k < Turns(s0.kids[e], e)
    requires Halfway(s, s0, depth, all0, held0, all, held, e, k, before)
    requires var c := s0.kids[e][k]; Start(s, depth, all, held, c) && s.first[c] < 0
    ensures Halfway(s, s0, depth, all0, held0, all, held, e, k + 1, before + [s0.kids[e][k]])
  {
    var list := s0.kids[e];
    NextReady(s, s0, depth, all0, held0, all, held, e, k, before);
    LeafIsAlone(s, depth, all, held, list[k]);
    assert before + list[k..] == (before + [list[k]]) + list[k + 1..];
  }

  /** What a call of remove_entity_children for child c of e leaves of the lists. */
  ghost predicate Removed(s: Links, s': Links, depth: seq<nat>, all: set<int>, held: set<int>,
                          e: int, c: int, unlinked: bool)
    requires |depth| == |s.parent| == |s.kids| && 0 <= e < |s.parent| && 0 <= c < |s.parent| && c in s.kids[e]
  {
    var under := Under(s.parent, depth, all, c);
    && s'.parent == s.parent && s'.child == s.child && s'.link == s.link
    && Shape(s', all - under, held - under - if unlinked then {c} else {})
    && s'.kids[c] == []
    && s'.kids[e] == (if unlinked then Without(s.kids[e], c) else s.kids[e])
    && (forall p {:trigger SameKids(s, s', p)} :: p in all - under && p != c && p != e ==> SameKids(s, s', p))
  }

  lemma NextInList(list: seq<int>, k: nat, before: seq<int>, kids: seq<int>)
    requires k < |list| && kids == before + list[k..] && NoRepeats(kids)
    ensures list[k] in kids && Without(kids, list[k]) == before + list[k + 1..]
    ensures kids == (before + [list[k]]) + list[k + 1..]
  {
    assert kids[|before|] == list[k];
    Distinct(kids, IndexOf(kids, list[k]), |before|);
    assert IndexOf(kids, list[k]) == |before|;
  }

  lemma DeepStep(s: Links, s': Links, s0: Links, depth: seq<nat>, all0: set<int>, held0: set<int>,
                 all: set<int>, held: set<int>, e: int, k: nat, before: seq<int>, unlinked: bool)
    requires Start(s0, depth, all0, held0, e) && k < Turns(s0.kids[e], e)
    requires Halfway(s, s0, depth, all0, held0, all, held, e, k, before)
    requires 0 <= s0.kids[e][k] < |s.parent| && s0.kids[e][k] in s.kids[e]
    requires Removed(s, s', depth, all, held, e, s0.kids[e][k], unlinked)
    ensures var c, under := s0.kids[e][k], Under(s.parent, depth, all, s0.kids[e][k]);
      Halfway(s', s0, depth, all0, held0, all - under, held - under - if unlinked then {c} else {}, e, k + 1,
              if unlinked then before else before + [c])
  {
    var list := s0.kids[e];
    var c := list[k];
    var done, done' := Done(s0.parent, depth, all0, list, k), Done(s0.parent, depth, all0, list, k + 1);
    var under := Under(s.parent, depth, all, c);
    NextSets(s0, depth, all0, held0, all, e, k);
    assert OwnList(s, held, e);
    NextInList(list, k, before, s.kids[e]);
    var all', held' := all - under, held - under - if unlinked then {c} else {};
    LeftOver(all0, all, all', done, under, c);
    LeftOver(held0, held, held', done, under, c);
    forall x | x in held' && x in done' ensures IsChildOf(s', x, e) {
      assert IsChildOf(s, x, e) || x == c;
    }
    forall x | x in all' && x in done' ensures Childless(s', x) {
      DeepEmpty(s, s', s0, depth, all0, held0, all, held, e, k, before, unlinked, x);
    }
    forall p | p in all' && p !in done' && p != e ensures SameKids(s0, s', p) {
      assert SameKids(s0, s, p) && SameKids(s, s', p);
    }
  }

  lemma NextSets(s0: Links, depth: seq<nat>, all0: set<int>, held0: set<int>, all: set<int>, e: int, k: nat)
    requires Start(s0, depth, all0, held0, e) && k < Turns(s0.kids[e], e)
    requires all0 - Done(s0.parent, depth, all0, s0.kids[e], k) <= all <= all0
    ensures var c, under := s0.kids[e][k], Under(s0.parent, depth, all, s0.kids[e][k]);
      && Done(s0.parent, depth, all0, s0.kids[e], k + 1) == Done(s0.parent, depth, all0, s0.kids[e], k) + {c} + under
      && e !in under && e != c && 0 <= c < |s0.parent| && s0.parent[c] == e && c !in under
  {
    var c := s0.kids[e][k];
    ListIsHeld(s0, depth, all0, held0, e, k);
    SameUnder(s0, depth, all0, held0, all, e, k);
    NextUntouched(s0, depth, all0, held0, e, k, c);
    if e in Under(s0.parent, depth, all, c) { NextUntouched(s0, depth, all0, held0, e, k, e); }
  }

  lemma LeftOver(start: set<int>, now: set<int>, now': set<int>, done: set<int>, under: set<int>, c: int)
    requires start - done <= now <= start && now - under - {c} <= now' <= now - under
    ensures start - (done + {c} + under) <= now' <= start
    ensures forall x | x in now' && x in done + {c} + under :: x in now && (x in done || x == c)
  {}

  lemma DeepEmpty(s: Links, s': Links, s0: Links, depth: seq<nat>, all0: set<int>, held0: set<int>,
                  all: set<int>, held: set<int>, e: int, k: nat, before: seq<int>, unlinked: bool, x: int)
    requires Start(s0, depth, all0, held0, e) && k < Turns(s0.kids[e], e)
    requires Halfway(s, s0, depth, all0, held0, all, held, e, k, before)
    requires 0 <= s0.kids[e][k] < |s.parent| && s0.kids[e][k] in s.kids[e]
    requires Removed(s, s', depth, all, held, e, s0.kids[e][k], unlinked)
    requires x in all - Under(s.parent, depth, all, s0.kids[e][k])
    requires x == s0.kids[e][k] || x in Done(s0.parent, depth, all0, s0.kids[e], k)
    ensures Childless(s', x)
  {
    assert OwnList(s, held, x);
    if x != s0.kids[e][k] {
      assert Childless(s, x);
      DoneIsNotAbove(s0, depth, all0, held0, e, k, x);
      assert SameKids(s, s', x);
    }
  }

  lemma DoneIsNotAbove(s0: Links, depth: seq<nat>, all0: set<int>, held0: set<int>, e: int, k: nat, x: int)
    requires Start(s0, depth, all0, held0, e) && k <= Turns(s0.kids[e], e)
    requires 0 <= x < |s0.parent| && x in Done(s0.parent, depth, all0, s0.kids[e], k)
    ensures x != e
  {
    var i := DoneIsBelow(s0.parent, depth, all0, s0.kids[e], k, x);
    ListIsHeld(s0, depth, all0, held0, e, i);
    if x != s0.kids[e][i] { BelowIsDeeper(s0.parent, depth, x, s0.kids[e][i]); }
  }

  /** After the last child, what was below e is what has been done. */
  lemma AllDone(s0: Links, depth: seq<nat>, all0: set<int>, held0: set<int>, e: int)
    requires Start(s0, depth, all0, held0, e) && s0.parent[e] != e
    ensures Done(s0.parent, depth, all0, s0.kids[e], |s0.kids[e]|) == Under(s0.parent, depth, all0, e)
  {
    var list := s0.kids[e];
    AllTurns(s0, depth, all0, held0, e);
    forall x | x in Done(s0.parent, depth, all0, list, |list|) ensures x in Under(s0.parent, depth, all0, e) {
      DoneInAll(s0, depth, all0, held0, e, |list|, x);
      assert OwnList(s0, held0, x);
      var i := DoneIsBelow(s0.parent, depth, all0, list, |list|, x);
      ListIsHeld(s0, depth, all0, held0, e, i);
      BelowJoins(s0.parent, depth, x, list[i], e);
      if x != list[i] { BelowIsDeeper(s0.parent, depth, x, list[i]); }
    }
    forall x | x in Under(s0.parent, depth, all0, e) ensures x in Done(s0.parent, depth, all0, list, |list|) {
      assert OwnList(s0, held0, x);
      var c := UnderAChild(s0, depth, all0, held0, e, x);
      BelowChildIsDone(s0.parent, depth, all0, list, |list|, IndexOf(list, c), x);
    }
  }

  lemma {:induction false} DoneInAll(s0: Links, depth: seq<nat>, all0: set<int>, held0: set<int>, e: int, k: nat,
                                     x: int)
    requires Start(s0, depth, all0, held0, e) && k <= Turns(s0.kids[e], e)
    requires x in Done(s0.parent, depth, all0, s0.kids[e], k)
    ensures x in all0
  {
    ListIsHeld(s0, depth, all0, held0, e, k - 1);
    if x in Done(s0.parent, depth, all0, s0.kids[e], k - 1) {
      DoneInAll(s0, depth, all0, held0, e, k - 1, x);
    }
  }

  lemma {:induction false} BelowChildIsDone(parent: seq<int>, depth: seq<nat>, all: set<int>, list: seq<int>, k: nat,
                                            i: nat, x: int)
    requires x in all && |depth| == |parent| && i < k <= |list| && 0 <= x < |parent| && Below(parent, depth, x, list[i])
    ensures x in Done(parent, depth, all, list, k)
  {
    if i < k - 1 { BelowChildIsDone(parent, depth, all, list, k - 1, i, x); }
  }

  // ----- What remove_entity_children does

  /** e is to be taken out of its parent's list: the parent is not being removed with it. */
  predicate Unlinks(parent: seq<int>, removing: seq<bool>, e: int) {
    0 <= e < |parent| && 0 <= parent[e] < |removing| && !removing[parent[e]]
  }

  /** Lists before and after remove_entity_children for e: everything below e has left them, e's
      own list is empty, and e has left its parent's list if it is to. */
  ghost predicate ChildrenGone(s: Links, s': Links, removing: seq<bool>, depth: seq<nat>,
                               all: set<int>, held: set<int>, e: int)
    requires |depth| == |s.parent| == |s.kids| && 0 <= e < |s.parent|
  {
    var under := Under(s.parent, depth, all, e);
    var p := s.parent[e];
    var unlinks := Unlinks(s.parent, removing, e);
    && s'.parent == s.parent && s'.child == s.child && s'.link == s.link
    && Shape(s', all - under, held - under - if unlinks then {e} else {})
    && s'.first[e] == -1 && s'.kids[e] == []
    && (unlinks ==> 0 <= p < |s.kids| && e in s.kids[p] && s'.kids[p] == Without(s.kids[p], e))
    && (forall q {:trigger SameKids(s, s', q)} ::
          q in all - under && q != e && !(unlinks && q == p) ==> SameKids(s, s', q))
  }

  /** remove_entity_children for e does not touch the node of x. */
  ghost predicate Apart(parent: seq<int>, depth: seq<nat>, x: int, e: int)
    requires |depth| == |parent|
  {
    && 0 <= x < |parent| && !Below(parent, depth, parent[x], e)
    && (x == e || (!Below(parent, depth, x, e) && 0 <= e < |parent| && parent[x] != parent[e]))
  }

  ghost predicate NextKept(s: Links, s': Links, depth: seq<nat>, e: int)
    requires s.Sized() && |depth| == |s.parent| && |s'.next| == |s.next|
  {
    forall x :: HasNode(s, x) && Apart(s.parent, depth, x, e) ==> s'.next[s.link[x]] == s.next[s.link[x]]
  }

  lemma UnlinkNext(s: Links, depth: seq<nat>, all: set<int>, held: set<int>, e: int)
    requires Shape(s, all, held) && e in held && |depth| == |s.parent|
    ensures HasNode(s, e) && 0 <= s.parent[e] < |s.parent| && e in s.kids[s.parent[e]]
    ensures NextKept(s, Unlinked(s, e), depth, e)
  {
    HeldHasNode(s, all, held, e);
    var list := s.kids[s.parent[e]];
    var k := IndexOf(list, e);
    if k > 0 {
      assert Leads(s, list, k - 1) && list[k - 1] in list;
      assert s.parent[list[k - 1]] == s.parent[e] && list[k - 1] != e;
    }
  }

  /** A node kept by the removal of e is kept by the removal of a child of e. */
  lemma ApartFromChild(s0: Links, depth: seq<nat>, all0: set<int>, held0: set<int>, e: int, k: nat, x: int)
    requires Start(s0, depth, all0, held0, e) && k < Turns(s0.kids[e], e) && Apart(s0.parent, depth, x, e)
    ensures Apart(s0.parent, depth, x, s0.kids[e][k])
  {
    var c := s0.kids[e][k];
    ListIsHeld(s0, depth, all0, held0, e, k);
    if Below(s0.parent, depth, s0.parent[x], c) { BelowIfIn(s0.parent, depth, s0.parent[x], c, e); }
    assert Below(s0.parent, depth, e, e);
    if x == e {
      NotBelowOwnChild(s0.parent, depth, e, c);
    } else {
      BelowThrough(s0.parent, depth, x, c, e);
    }
  }

  lemma BelowThrough(parent: seq<int>, depth: seq<nat>, x: int, c: int, e: int)
    requires |depth| == |parent| && 0 <= x < |parent| && Below(parent, depth, c, e)
    ensures Below(parent, depth, x, c) ==> Below(parent, depth, x, e)
  {
    if Below(parent, depth, x, c) { BelowJoins(parent, depth, x, c, e); }
  }

  lemma NotBelowOwnChild(parent: seq<int>, depth: seq<nat>, e: int, c: int)
    requires |depth| == |parent| && 0 <= e < |parent| && Proper(parent, depth, c) && parent[c] == e
    ensures !Below(parent, depth, e, c)
  {
    if Below(parent, depth, e, c) { BelowIsDeeper(parent, depth, e, c); }
  }

  // ----- The nodes that are freed

  /** The nodes of the entities in `gone` are free now. */
  ghost predicate Freed(s: Links, was: seq<bool>, now: seq<bool>, gone: set<int>) {
    |now| == |was| && forall n :: 0 <= n < |was| ==> now[n] == (was[n] && !Listed(s, gone, n))
  }

  ghost predicate Dropped(was: seq<bool>, now: seq<bool>, gone: set<int>) {
    |now| == |was| && forall x :: 0 <= x < |was| ==> now[x] == (was[x] && x !in gone)
  }

  /** The nodes of the entities in `once` were freed, and those in `again` once more. */
  ghost predicate Counted(s: Links, was: seq<nat>, now: seq<nat>, once: set<int>, again: set<int>) {
    && |now| == |was|
    && forall n :: 0 <= n < |was| ==>
        now[n] == was[n] + (if Listed(s, once, n) then 1 else 0) + (if Listed(s, again, n) then 1 else 0)
  }

  lemma CountedTwice(s: Links, a: seq<nat>, b: seq<nat>, c: seq<nat>, once: set<int>, again: set<int>,
                     once': set<int>, again': set<int>)
    requires Counted(s, a, b, once, again) && Counted(s, b, c, once', again') && once !! once' && again !! again'
    ensures Counted(s, a, c, once + once', again + again')
  {}

  lemma SameNodes(s: Links, s': Links, was: seq<bool>, now: seq<bool>, gone: set<int>,
                  f: seq<nat>, f': seq<nat>, once: set<int>, again: set<int>)
    requires s.child == s'.child && s.link == s'.link
    requires Freed(s, was, now, gone) && Counted(s, f, f', once, again)
    ensures Freed(s', was, now, gone) && Counted(s', f, f', once, again)
  {
    assert forall g, n :: Listed(s, g, n) == Listed(s', g, n);
  }

  /** Of some entities those that have children of their own and are taken out of a list before
      the list is given up: their nodes are freed once more. */
  ghost function Again(s: Links, removing: seq<bool>, them: set<int>): set<int> {
    set x | x in them && 0 <= x < |s.kids| && s.kids[x] != [] && Unlinks(s.parent, removing, x)
  }

  // ----- remove_entity_children as a function

  /** The part of struct entity_context that changes, and how often each node has been freed. */
  datatype Snapshot = Snapshot(s: Links, used: seq<bool>, nodeUsed: seq<bool>, nodeFrees: seq<nat>)
  {
    predicate Sized() {
      s.Sized() && |used| == |s.parent| && |nodeUsed| == |nodeFrees| == |s.next|
    }
  }

  /** c can be found in the list of its parent. */
  ghost predicate CanUnhook(s: Links, c: int)
    requires s.Sized()
  {
    HasNode(s, c) && 0 <= s.parent[c] < |s.parent| && GoodList(s, s.parent[c]) && c in s.kids[s.parent[c]]
  }

  /** remove_child_from_parent. */
  ghost function Unhook(t: Snapshot, c: int): (t': Snapshot)
    requires t.Sized() && CanUnhook(t.s, c)
    ensures t'.Sized()
  {
    FreeNode(t.(s := Unlinked(t.s, c)), t.s.link[c])
  }

  function FreeNode(t: Snapshot, n: int): Snapshot
    requires 0 <= n < |t.nodeUsed| == |t.nodeFrees|
  {
    t.(nodeUsed := t.nodeUsed[n := false], nodeFrees := t.nodeFrees[n := t.nodeFrees[n] + 1])
  }

  /** The two frees that follow on the loop's step for child c. */
  function FreeBoth(t: Snapshot, c: int, n: int): Snapshot
    requires 0 <= c < |t.used| && 0 <= n < |t.nodeUsed| == |t.nodeFrees|
  {
    FreeNode(t.(used := t.used[c := false]), n)
  }

  /** How a run ends: it comes to its end, it calls abort(), or it leaves the arrays, does not find an
      entity in its parent's list, or takes more calls than it may. */
  datatype Outcome = Ended(value: Snapshot) | Aborted | Lost

  /** remove_entity_children for e, with calls at most `fuel` deep. */
  ghost function Kill(t: Snapshot, removing: seq<bool>, e: int, fuel: nat): (r: Outcome)
    requires t.Sized()
    ensures r.Ended? ==> SameSize(t, r.value)
    decreases fuel, 1
  {
    if !(0 <= e < |t.s.parent|) || t.s.parent[e] >= |removing| then Lost
    else
      var unlinks := Unlinks(t.s.parent, removing, e);
      if unlinks && !CanUnhook(t.s, e) then Lost
      else
        var t1 := if unlinks then Unhook(t, e) else t;
        var r := KillList(Killer(removing, fuel), t1, t.s.first[e], |t1.s.kids[e]|, e);
        if r.Ended? then Ended(r.value.(s := Cleared(r.value.s, e))) else r
  }

  /** The recursive call. */
  ghost function Killer(removing: seq<bool>, fuel: nat): (Snapshot, int) -> Outcome
    decreases fuel, 0
  {
    (t: Snapshot, c: int) => if fuel == 0 || !t.Sized() then Lost else Kill(t, removing, c, fuel - 1)
  }

  predicate SameSize(t: Snapshot, t': Snapshot) {
    t.Sized() && t'.Sized() && |t'.used| == |t.used| && |t'.s.next| == |t.s.next|
  }

  /** The loop for e, from node `at` on, with at most `steps` nodes and the recursive call `kill`. It
      aborts at a child that is e itself. */
  ghost function KillList(kill: (Snapshot, int) -> Outcome, t: Snapshot, at: int, steps: nat, e: int)
    : (r: Outcome)
    requires t.Sized()
    ensures r.Ended? ==> SameSize(t, r.value)
    decreases steps
  {
    if at < 0 then Ended(t)
    else if steps == 0 || at >= |t.s.next| || !(0 <= t.s.child[at] < |t.used|) then Lost
    else
      var c := t.s.child[at];
      if t.s.first[c] >= 0 && c == e then Aborted
      else
        var r := if t.s.first[c] < 0 then Ended(t) else kill(t, c);
        if !r.Ended? then r
        else if !SameSize(t, r.value) then Lost
        else KillList(kill, FreeBoth(r.value, c, at), r.value.s.next[at], steps - 1, e)
  }

  /** remove_entity_children for e: what is below e is gone from lists and pools. */
  ghost predicate Removal(t: Snapshot, t': Snapshot, removing: seq<bool>, depth: seq<nat>,
                          all: set<int>, held: set<int>, e: int)
    requires t.s.Sized() && t'.s.Sized() && |depth| == |t.s.parent| && 0 <= e < |t.s.parent|
  {
    var under := Under(t.s.parent, depth, all, e);
    var mine := if Unlinks(t.s.parent, removing, e) then {e} else {};
    && ChildrenGone(t.s, t'.s, removing, depth, all, held, e)
    && |t'.s.next| == |t.s.next| && NextKept(t.s, t'.s, depth, e)
    && Dropped(t.used, t'.used, under)
    && Freed(t.s, t.nodeUsed, t'.nodeUsed, under + mine)
    && Counted(t.s, t.nodeFrees, t'.nodeFrees, under, Again(t.s, removing, under) + mine)
  }

  /** The same after k of the children in e's list. */
  ghost predicate Removing(t0: Snapshot, t: Snapshot, removing: seq<bool>, depth: seq<nat>,
                           all0: set<int>, held0: set<int>, all: set<int>, held: set<int>,
                           e: int, k: nat, before: seq<int>)
    requires t0.s.Sized() && t.s.Sized() && |depth| == |t0.s.parent| && 0 <= e < |t0.s.parent|
    requires k <= |t0.s.kids[e]|
  {
    var done := Done(t0.s.parent, depth, all0, t0.s.kids[e], k);
    && Halfway(t.s, t0.s, depth, all0, held0, all, held, e, k, before)
    && |t.s.next| == |t0.s.next| && NextKept(t0.s, t.s, depth, e)
    && Dropped(t0.used, t.used, done)
    && Freed(t0.s, t0.nodeUsed, t.nodeUsed, done)
    && Counted(t0.s, t0.nodeFrees, t.nodeFrees, done, Again(t0.s, removing, done))
  }

  /** The children of the entities below the next child are those they had at the start. */
  lemma AgainUnder(s: Links, s0: Links, removing: seq<bool>, depth: seq<nat>, all0: set<int>, held0: set<int>,
                   all: set<int>, held: set<int>, e: int, k: nat, before: seq<int>)
    requires Start(s0, depth, all0, held0, e) && k < Turns(s0.kids[e], e)
    requires Halfway(s, s0, depth, all0, held0, all, held, e, k, before)
    ensures 0 <= s0.kids[e][k] < |s0.parent|
    ensures var under := Under(s0.parent, depth, all0, s0.kids[e][k]);
      && Again(s, removing, under) == Again(s0, removing, under)
      && under !! Done(s0.parent, depth, all0, s0.kids[e], k)
      && s0.kids[e][k] !in under && s0.kids[e][k] !in Done(s0.parent, depth, all0, s0.kids[e], k)
  {
    var c := s0.kids[e][k];
    var under := Under(s0.parent, depth, all0, c);
    NextReady(s, s0, depth, all0, held0, all, held, e, k, before);
    NextUntouched(s0, depth, all0, held0, e, k, c);
    forall x | x in under
      ensures x !in Done(s0.parent, depth, all0, s0.kids[e], k) && x in all && 0 <= x < |s0.kids|
      ensures s.kids[x] == s0.kids[x]
    {
      assert x in Under(s.parent, depth, all, c);
      assert OwnList(s, held, x);
      NextUntouched(s0, depth, all0, held0, e, k, x);
      assert SameKids(s0, s, x);
    }
  }

  /** What the two frees add to the books, for a child whose own children are accounted for. */
  lemma FreeBothCounts(s: Links, t: Snapshot, t2: Snapshot, c: int, done: set<int>, under: set<int>,
                       again: set<int>, againUnder: set<int>, mine: set<int>, t0: Snapshot)
    requires s.Sized() && HasNode(s, c) && |t2.used| > c && |t2.nodeUsed| == |t2.nodeFrees| == |s.next|
    requires Dropped(t0.used, t.used, done) && Dropped(t.used, t2.used, under)
    requires Freed(s, t0.nodeUsed, t.nodeUsed, done) && Freed(s, t.nodeUsed, t2.nodeUsed, under + mine) && mine <= {c}
    requires Counted(s, t0.nodeFrees, t.nodeFrees, done, again)
    requires Counted(s, t.nodeFrees, t2.nodeFrees, under, againUnder + mine)
    requires done !! under && c !in done + under && again <= done && againUnder <= under
    ensures var t' := FreeBoth(t2, c, s.link[c]);
      && Dropped(t0.used, t'.used, done + {c} + under)
      && Freed(s, t0.nodeUsed, t'.nodeUsed, done + {c} + under)
      && Counted(s, t0.nodeFrees, t'.nodeFrees, done + {c} + under, again + (againUnder + mine))
  {
    var t' := FreeBoth(t2, c, s.link[c]);
    forall n | 0 <= n < |s.next| ensures Listed(s, {c}, n) <==> n == s.link[c] {}
    CountedTwice(s, t0.nodeFrees, t.nodeFrees, t2.nodeFrees, done, again, under, againUnder + mine);
    assert Counted(s, t2.nodeFrees, t'.nodeFrees, {c}, {});
    CountedTwice(s, t0.nodeFrees, t2.nodeFrees, t'.nodeFrees, done + under, again + (againUnder + mine), {c}, {});
    assert done + under + {c} == done + {c} + under;
    assert again + (againUnder + mine) + {} == again + (againUnder + mine);
  }

  lemma LeafRemoved(t0: Snapshot, t: Snapshot, removing: seq<bool>, depth: seq<nat>, all0: set<int>, held0: set<int>,
                    all: set<int>, held: set<int>, e: int, k: nat, before: seq<int>)
    requires t0.s.Sized() && t.s.Sized() && |t0.used| == |t0.s.parent| && |t0.nodeUsed| == |t0.nodeFrees| == |t0.s.next|
    requires Start(t0.s, depth, all0, held0, e) && k < Turns(t0.s.kids[e], e)
    requires Removing(t0, t, removing, depth, all0, held0, all, held, e, k, before)
    requires var c := t0.s.kids[e][k]; 0 <= c < |t.s.first| && t.s.first[c] < 0
    ensures var c := t0.s.kids[e][k];
      && HasNode(t.s, c)
      && Removing(t0, FreeBoth(t, c, t.s.link[c]), removing, depth, all0, held0, all, held, e, k + 1, before + [c])
  {
    var list := t0.s.kids[e];
    var c := list[k];
    var done := Done(t0.s.parent, depth, all0, list, k);
    NextReady(t.s, t0.s, depth, all0, held0, all, held, e, k, before);
    LeafIsAlone(t.s, depth, all, held, c);
    NextUntouched(t0.s, depth, all0, held0, e, k, c);
    LeafStep(t.s, t0.s, depth, all0, held0, all, held, e, k, before);
    var again := Again(t0.s, removing, done);
    FreeBothCounts(t0.s, t, t, c, done, {}, again, {}, {}, t0);
    assert Done(t0.s.parent, depth, all0, list, k + 1) == done + {c} + {};
    assert Again(t0.s, removing, done + {c} + {}) == again + ({} + {});
  }

  lemma DeepRemoved(t0: Snapshot, t: Snapshot, t2: Snapshot, removing: seq<bool>, depth: seq<nat>,
                    all0: set<int>, held0: set<int>, all: set<int>, held: set<int>,
                    e: int, k: nat, before: seq<int>)
    requires t0.s.Sized() && t.s.Sized() && t2.s.Sized()
    requires |t0.used| == |t0.s.parent| && |t0.nodeUsed| == |t0.nodeFrees| == |t0.s.next|
    requires Start(t0.s, depth, all0, held0, e) && k < Turns(t0.s.kids[e], e)
    requires Removing(t0, t, removing, depth, all0, held0, all, held, e, k, before)
    requires var c := t0.s.kids[e][k];
      && 0 <= c < |t.s.first| && t.s.first[c] >= 0 && |removing| == |t.s.parent|
      && Removal(t, t2, removing, depth, all, held, c)
    ensures var c := t0.s.kids[e][k];
      && HasNode(t2.s, c) && t2.s.next[t2.s.link[c]] == t.s.next[t.s.link[c]]
      && Removing(t0, FreeBoth(t2, c, t2.s.link[c]), removing, depth, all0, held0,
                  all - Under(t.s.parent, depth, all, c),
                  held - Under(t.s.parent, depth, all, c) - if removing[e] then {} else {c},
                  e, k + 1, if removing[e] then before + [c] else before)
  {
    var list := t0.s.kids[e];
    var c := list[k];
    var done := Done(t0.s.parent, depth, all0, list, k);
    var under := Under(t0.s.parent, depth, all0, c);
    NextReady(t.s, t0.s, depth, all0, held0, all, held, e, k, before);
    ListIsHeld(t0.s, depth, all0, held0, e, k);
    NotBelowOwnChild(t0.s.parent, depth, e, c);
    assert Apart(t.s.parent, depth, c, c);
    NextSets(t0.s, depth, all0, held0, all, e, k);
    if removing[e] { assert SameKids(t.s, t2.s, e); }
    DeepStep(t.s, t2.s, t0.s, depth, all0, held0, all, held, e, k, before, !removing[e]);
    DeepBooks(t0, t, t2, removing, depth, all0, held0, all, held, e, k, before);
    forall x | HasNode(t0.s, x) && Apart(t0.s.parent, depth, x, e)
      ensures t2.s.next[t0.s.link[x]] == t0.s.next[t0.s.link[x]]
    {
      ApartFromChild(t0.s, depth, all0, held0, e, k, x);
      assert HasNode(t.s, x);
    }
  }

  lemma DeepBooks(t0: Snapshot, t: Snapshot, t2: Snapshot, removing: seq<bool>, depth: seq<nat>,
                  all0: set<int>, held0: set<int>, all: set<int>, held: set<int>,
                  e: int, k: nat, before: seq<int>)
    requires t0.s.Sized() && t.s.Sized() && t2.s.Sized()
    requires |t0.used| == |t0.s.parent| && |t0.nodeUsed| == |t0.nodeFrees| == |t0.s.next|
    requires Start(t0.s, depth, all0, held0, e) && k < Turns(t0.s.kids[e], e)
    requires Removing(t0, t, removing, depth, all0, held0, all, held, e, k, before)
    requires var c := t0.s.kids[e][k];
      && 0 <= c < |t.s.first| && t.s.first[c] >= 0 && |removing| == |t.s.parent|
      && Removal(t, t2, removing, depth, all, held, c)
    ensures var c, done := t0.s.kids[e][k], Done(t0.s.parent, depth, all0, t0.s.kids[e], k + 1);
      && HasNode(t0.s, c) && c < |t2.used| && t0.s.link[c] < |t2.nodeUsed| == |t2.nodeFrees|
      && var t' := FreeBoth(t2, c, t0.s.link[c]);
      && Dropped(t0.used, t'.used, done)
      && Freed(t0.s, t0.nodeUsed, t'.nodeUsed, done)
      && Counted(t0.s, t0.nodeFrees, t'.nodeFrees, done, Again(t0.s, removing, done))
  {
    var list := t0.s.kids[e];
    var c := list[k];
    var done := Done(t0.s.parent, depth, all0, list, k);
    var under := Under(t0.s.parent, depth, all0, c);
    var mine := if removing[e] then {} else {c};
    NextReady(t.s, t0.s, depth, all0, held0, all, held, e, k, before);
    AgainUnder(t.s, t0.s, removing, depth, all0, held0, all, held, e, k, before);
    SameNodes(t.s, t0.s, t.nodeUsed, t2.nodeUsed, under + mine,
              t.nodeFrees, t2.nodeFrees, under, Again(t0.s, removing, under) + mine);
    FreeBothCounts(t0.s, t, t2, c, done, under, Again(t0.s, removing, done), Again(t0.s, removing, under), mine, t0);
    assert t0.s.kids[c] != [] by { assert OwnList(t.s, held, c); }
    AgainJoins(t0.s, removing, done, under, c, mine);
  }

  lemma AgainJoins(s: Links, removing: seq<bool>, done: set<int>, under: set<int>, c: int, mine: set<int>)
    requires 0 <= c < |s.kids| && s.kids[c] != [] && mine == if Unlinks(s.parent, removing, c) then {c} else {}
    ensures Again(s, removing, done + {c} + under) == Again(s, removing, done) + (Again(s, removing, under) + mine)
  {}

  /** Before the loop: e has left its parent's list if it is to. */
  ghost predicate Unhooked(t0: Snapshot, t1: Snapshot, unlinks: bool, held: set<int>, e: int)
    requires t0.s.Sized()
  {
    if unlinks then
      && HasNode(t0.s, e) && 0 <= t0.s.parent[e] < |t0.s.parent| && e in t0.s.kids[t0.s.parent[e]]
      && t1.s == Unlinked(t0.s, e) && t1.used == t0.used
      && Freed(t0.s, t0.nodeUsed, t1.nodeUsed, {e}) && Counted(t0.s, t0.nodeFrees, t1.nodeFrees, {}, {e})
    else t1 == t0
  }

  lemma LoopStart(t0: Snapshot, t1: Snapshot, removing: seq<bool>, depth: seq<nat>, all: set<int>, held: set<int>,
                  e: int)
    requires t0.s.Sized() && Start(t0.s, depth, all, held, e) && (t0.s.parent[e] >= 0 ==> e in held)
    requires Unhooked(t0, t1, Unlinks(t0.s.parent, removing, e), held, e) && t0.s.parent[e] != e
    ensures var held1 := held - if Unlinks(t0.s.parent, removing, e) then {e} else {};
      && t1.s.Sized() && Start(t1.s, depth, all, held1, e)
      && t1.s.kids[e] == t0.s.kids[e]
      && Removing(t1, t1, removing, depth, all, held1, all, held1, e, 0, [])
  {
    if Unlinks(t0.s.parent, removing, e) { UnlinkKeeps(t0.s, all, held, e); }
    var held1 := held - if Unlinks(t0.s.parent, removing, e) then {e} else {};
    assert !Unlinks(t0.s.parent, removing, e) ==> held1 == held;
    LoopStarts(t1, removing, depth, all, held1, e);
  }

  lemma LoopStarts(t1: Snapshot, removing: seq<bool>, depth: seq<nat>, all: set<int>, held1: set<int>, e: int)
    requires t1.s.Sized() && Start(t1.s, depth, all, held1, e)
    ensures Removing(t1, t1, removing, depth, all, held1, all, held1, e, 0, [])
  {
    forall p | p in all ensures SameKids(t1.s, t1.s, p) {
      assert OwnList(t1.s, held1, p);
    }
    assert Halfway(t1.s, t1.s, depth, all, held1, all, held1, e, 0, []);
  }

  /** After the loop, and before e's list is marked empty. */
  ghost predicate Looped(t0: Snapshot, t1: Snapshot, t: Snapshot, removing: seq<bool>, depth: seq<nat>,
                         all0: set<int>, held0: set<int>, all: set<int>, held: set<int>, e: int, before: seq<int>)
  {
    var unlinks := Unlinks(t0.s.parent, removing, e);
    var held1 := held0 - if unlinks then {e} else {};
    && t0.s.Sized() && Start(t0.s, depth, all0, held0, e) && (t0.s.parent[e] >= 0 ==> e in held0)
    && t0.s.parent[e] != e
    && |t0.used| == |t0.s.parent| && |t0.nodeUsed| == |t0.nodeFrees| == |t0.s.next|
    && Unhooked(t0, t1, unlinks, held0, e)
    && t1.s.Sized() && Start(t1.s, depth, all0, held1, e) && t1.s.kids[e] == t0.s.kids[e]
    && t.s.Sized() && Removing(t1, t, removing, depth, all0, held1, all, held, e, |t1.s.kids[e]|, before)
  }

  lemma EmptyList(s: Links, s1: Links, depth: seq<nat>, all0: set<int>, held1: set<int>,
                  all: set<int>, held: set<int>, e: int, before: seq<int>)
    requires Start(s1, depth, all0, held1, e) && s1.parent[e] != e
    requires Halfway(s, s1, depth, all0, held1, all, held, e, |s1.kids[e]|, before)
    ensures e < |s.parent|
    ensures var s', under := Cleared(s, e), Under(s1.parent, depth, all0, e);
      && Shape(s', all0 - under, held1 - under)
      && s'.first[e] == -1 && s'.kids[e] == []
      && (forall q | q in all0 - under && q != e :: SameKids(s1, s', q))
  {
    var under := Under(s1.parent, depth, all0, e);
    AllDone(s1, depth, all0, held1, e);
    forall x | x in held && x in under ensures IsChildOf(s, x, e) {}
    forall x | x in all && x in under ensures Childless(s, x) {}
    ClearKeeps(s, all, held, e, under);
    assert all - under == all0 - under && held - under == held1 - under;
    forall q | q in all0 - under && q != e ensures SameKids(s1, Cleared(s, e), q) {
      assert q in all && OwnList(s, held, q) && SameKids(s1, s, q);
    }
  }

  lemma LoopEndLists(t0: Snapshot, t1: Snapshot, t: Snapshot, removing: seq<bool>, depth: seq<nat>,
                     all0: set<int>, held0: set<int>, all: set<int>, held: set<int>, e: int, before: seq<int>)
    requires Looped(t0, t1, t, removing, depth, all0, held0, all, held, e, before)
    ensures e < |t.s.parent| && ChildrenGone(t0.s, Cleared(t.s, e), removing, depth, all0, held0, e)
  {
    var unlinks := Unlinks(t0.s.parent, removing, e);
    var held1 := held0 - if unlinks then {e} else {};
    var under := Under(t0.s.parent, depth, all0, e);
    EmptyList(t.s, t1.s, depth, all0, held1, all, held, e, before);
    assert held1 - under == held0 - under - if unlinks then {e} else {};
    if unlinks {
      ParentNotUnder(t0.s, depth, all0, held0, e);
      assert SameKids(t1.s, Cleared(t.s, e), t0.s.parent[e]);
    }
    forall q | q in all0 - under && q != e && !(unlinks && q == t0.s.parent[e])
      ensures SameKids(t0.s, Cleared(t.s, e), q)
    {
      assert SameKids(t1.s, Cleared(t.s, e), q);
    }
  }

  lemma ParentNotUnder(s: Links, depth: seq<nat>, all: set<int>, held: set<int>, e: int)
    requires Start(s, depth, all, held, e) && e in held && s.parent[e] != e
    ensures s.parent[e] in all && s.parent[e] !in Under(s.parent, depth, all, e) && s.parent[e] != e
    ensures 0 <= s.parent[e] < |s.parent| && !Below(s.parent, depth, s.parent[e], e)
  {
    assert InList(s, all, e) && Proper(s.parent, depth, e);
    if Below(s.parent, depth, s.parent[e], e) { BelowIsDeeper(s.parent, depth, s.parent[e], e); }
  }

  lemma JoinBooks(s: Links, t0: Snapshot, t1: Snapshot, t: Snapshot, under: set<int>, again: set<int>, mine: set<int>)
    requires Dropped(t0.used, t1.used, {}) && Freed(s, t0.nodeUsed, t1.nodeUsed, mine)
    requires Counted(s, t0.nodeFrees, t1.nodeFrees, {}, mine)
    requires Dropped(t1.used, t.used, under) && Freed(s, t1.nodeUsed, t.nodeUsed, under)
    requires Counted(s, t1.nodeFrees, t.nodeFrees, under, again) && mine !! again
    ensures Dropped(t0.used, t.used, under) && Freed(s, t0.nodeUsed, t.nodeUsed, under + mine)
    ensures Counted(s, t0.nodeFrees, t.nodeFrees, under, again + mine)
  {
    CountedTwice(s, t0.nodeFrees, t1.nodeFrees, t.nodeFrees, {}, mine, under, again);
    assert {} + under == under && mine + again == again + mine;
  }

  lemma UnhookedBooks(t0: Snapshot, t1: Snapshot, unlinks: bool, held: set<int>, e: int)
    requires t0.s.Sized() && Unhooked(t0, t1, unlinks, held, e)
    ensures t1.s.parent == t0.s.parent && t1.s.child == t0.s.child && t1.s.link == t0.s.link
    ensures Dropped(t0.used, t1.used, {})
    ensures Freed(t0.s, t0.nodeUsed, t1.nodeUsed, if unlinks then {e} else {})
    ensures Counted(t0.s, t0.nodeFrees, t1.nodeFrees, {}, if unlinks then {e} else {})
  {}

  lemma LoopBooks(t1: Snapshot, t: Snapshot, removing: seq<bool>, depth: seq<nat>,
                  all0: set<int>, held1: set<int>, all: set<int>, held: set<int>, e: int, before: seq<int>)
    requires t1.s.Sized() && Start(t1.s, depth, all0, held1, e) && t1.s.parent[e] != e
    requires t.s.Sized() && Removing(t1, t, removing, depth, all0, held1, all, held, e, |t1.s.kids[e]|, before)
    ensures var under := Under(t1.s.parent, depth, all0, e);
      && Dropped(t1.used, t.used, under)
      && Freed(t1.s, t1.nodeUsed, t.nodeUsed, under)
      && Counted(t1.s, t1.nodeFrees, t.nodeFrees, under, Again(t1.s, removing, under))
  {
    AllDone(t1.s, depth, all0, held1, e);
  }

  lemma LoopEndBooks(t0: Snapshot, t1: Snapshot, t: Snapshot, removing: seq<bool>, depth: seq<nat>,
                     all0: set<int>, held0: set<int>, all: set<int>, held: set<int>, e: int, before: seq<int>)
    requires Looped(t0, t1, t, removing, depth, all0, held0, all, held, e, before)
    ensures var under := Under(t0.s.parent, depth, all0, e);
            var mine := if Unlinks(t0.s.parent, removing, e) then {e} else {};
      && Dropped(t0.used, t.used, under)
      && Freed(t0.s, t0.nodeUsed, t.nodeUsed, under + mine)
      && Counted(t0.s, t0.nodeFrees, t.nodeFrees, under, Again(t0.s, removing, under) + mine)
  {
    var unlinks := Unlinks(t0.s.parent, removing, e);
    var mine := if unlinks then {e} else {};
    var under := Under(t0.s.parent, depth, all0, e);
    LoopBooks(t1, t, removing, depth, all0, held0 - mine, all, held, e, before);
    UnhookedBooks(t0, t1, unlinks, held0, e);
    AgainUnhooked(t0, t1, removing, depth, all0, held0, e);
    SameNodes(t1.s, t0.s, t1.nodeUsed, t.nodeUsed, under, t1.nodeFrees, t.nodeFrees, under,
              Again(t0.s, removing, under));
    JoinBooks(t0.s, t0, t1, t, under, Again(t0.s, removing, under), mine);
  }

  lemma AgainUnhooked(t0: Snapshot, t1: Snapshot, removing: seq<bool>, depth: seq<nat>,
                      all: set<int>, held: set<int>, e: int)
    requires t0.s.Sized() && Start(t0.s, depth, all, held, e) && (t0.s.parent[e] >= 0 ==> e in held)
    requires Unhooked(t0, t1, Unlinks(t0.s.parent, removing, e), held, e) && t0.s.parent[e] != e
    ensures var under := Under(t0.s.parent, depth, all, e);
      Again(t1.s, removing, under) == Again(t0.s, removing, under)
  {
    if e in held { ParentNotUnder(t0.s, depth, all, held, e); }
  }

  lemma LoopEnd(t0: Snapshot, t1: Snapshot, t: Snapshot, removing: seq<bool>, depth: seq<nat>,
                all0: set<int>, held0: set<int>, all: set<int>, held: set<int>, e: int, before: seq<int>)
    requires Looped(t0, t1, t, removing, depth, all0, held0, all, held, e, before)
    ensures e < |t.s.parent| && Removal(t0, t.(s := Cleared(t.s, e)), removing, depth, all0, held0, e)
  {
    LoopEndLists(t0, t1, t, removing, depth, all0, held0, all, held, e, before);
    LoopEndBooks(t0, t1, t, removing, depth, all0, held0, all, held, e, before);
    LoopEndNext(t0, t1, t, removing, depth, all0, held0, all, held, e, before);
  }

  lemma LoopEndNext(t0: Snapshot, t1: Snapshot, t: Snapshot, removing: seq<bool>, depth: seq<nat>,
                    all0: set<int>, held0: set<int>, all: set<int>, held: set<int>, e: int, before: seq<int>)
    requires Looped(t0, t1, t, removing, depth, all0, held0, all, held, e, before)
    ensures |t.s.next| == |t0.s.next| && NextKept(t0.s, t.s, depth, e)
  {
    if Unlinks(t0.s.parent, removing, e) { UnlinkNext(t0.s, depth, all0, held0, e); }
    forall x | HasNode(t0.s, x) && Apart(t0.s.parent, depth, x, e)
      ensures t.s.next[t0.s.link[x]] == t0.s.next[t0.s.link[x]]
    {
      assert HasNode(t1.s, x) && Apart(t1.s.parent, depth, x, e);
    }
  }

  // ----- The function does what it should

  lemma UnhookIsUnhooked(t: Snapshot, depth: seq<nat>, all: set<int>, held: set<int>, e: int)
    requires t.Sized() && Start(t.s, depth, all, held, e) && e in held
    ensures CanUnhook(t.s, e) && Unhooked(t, Unhook(t, e), true, held, e)
  {
    HeldHasNode(t.s, all, held, e);
    forall n | 0 <= n < |t.s.next| ensures Listed(t.s, {e}, n) <==> n == t.s.link[e] {}
  }

  /** The loop has reached child number k of e's list. */
  ghost predicate AtChild(t1: Snapshot, t: Snapshot, removing: seq<bool>, depth: seq<nat>,
                          all1: set<int>, held1: set<int>, all: set<int>, held: set<int>,
                          e: int, k: nat, before: seq<int>)
  {
    && t1.Sized() && t.Sized() && |removing| == |t.used| == |t1.used|
    && Start(t1.s, depth, all1, held1, e) && k <= Turns(t1.s.kids[e], e)
    && Removing(t1, t, removing, depth, all1, held1, all, held, e, k, before)
  }

  lemma NextChild(t1: Snapshot, t: Snapshot, removing: seq<bool>, depth: seq<nat>,
                  all1: set<int>, held1: set<int>, all: set<int>, held: set<int>, e: int, k: nat, before: seq<int>)
    requires AtChild(t1, t, removing, depth, all1, held1, all, held, e, k, before) && k < Turns(t1.s.kids[e], e)
    ensures var c := t1.s.kids[e][k];
      && 0 <= c < |t.s.parent| && HasNode(t.s, c) && NodeAt(t1.s, t1.s.kids[e], k) == t.s.link[c]
      && Start(t.s, depth, all, held, c) && c in held && c in all1 && depth[e] < depth[c]
      && t.s.parent[c] != c && c != e
      && t.s.next[t.s.link[c]] == NodeAt(t1.s, t1.s.kids[e], k + 1)
  {
    NextReady(t.s, t1.s, depth, all1, held1, all, held, e, k, before);
    ListIsHeld(t1.s, depth, all1, held1, e, k);
  }

  lemma LeafGone(t1: Snapshot, t: Snapshot, removing: seq<bool>, depth: seq<nat>,
                 all1: set<int>, held1: set<int>, all: set<int>, held: set<int>, e: int, k: nat, before: seq<int>)
    requires AtChild(t1, t, removing, depth, all1, held1, all, held, e, k, before) && k < Turns(t1.s.kids[e], e)
    requires var c := t1.s.kids[e][k]; 0 <= c < |t.s.first| && HasNode(t.s, c) && t.s.first[c] < 0
    ensures var c := t1.s.kids[e][k];
      AtChild(t1, FreeBoth(t, c, t.s.link[c]), removing, depth, all1, held1, all, held, e, k + 1, before + [c])
  {
    LeafRemoved(t1, t, removing, depth, all1, held1, all, held, e, k, before);
  }

  lemma DeepGone(t1: Snapshot, t: Snapshot, t2: Snapshot, removing: seq<bool>, depth: seq<nat>,
                 all1: set<int>, held1: set<int>, all: set<int>, held: set<int>, e: int, k: nat, before: seq<int>)
    returns (all': set<int>, held': set<int>, before': seq<int>)
    requires AtChild(t1, t, removing, depth, all1, held1, all, held, e, k, before) && k < Turns(t1.s.kids[e], e)
    requires t2.Sized() && |t2.used| == |t.used|
    requires var c := t1.s.kids[e][k];
      0 <= c < |t.s.first| && HasNode(t.s, c) && t.s.first[c] >= 0 && Removal(t, t2, removing, depth, all, held, c)
    ensures var c := t1.s.kids[e][k];
      && t.s.link[c] < |t2.s.next| && t2.s.next[t.s.link[c]] == t.s.next[t.s.link[c]]
      && AtChild(t1, FreeBoth(t2, c, t.s.link[c]), removing, depth, all1, held1, all', held', e, k + 1, before')
  {
    var c := t1.s.kids[e][k];
    DeepRemoved(t1, t, t2, removing, depth, all1, held1, all, held, e, k, before);
    var under := Under(t.s.parent, depth, all, c);
    all', held', before' := all - under, held - under - if removing[e] then {} else {c},
      if removing[e] then before + [c] else before;
  }

  /** The recursive call does what it should for child c. */
  ghost predicate KillsChild(kill: (Snapshot, int) -> Outcome, t: Snapshot, removing: seq<bool>,
                             depth: seq<nat>, all: set<int>, held: set<int>, c: int)
  {
    t.Sized() && |removing| == |t.used| && Start(t.s, depth, all, held, c) && c in held && t.s.parent[c] != c ==>
      && kill(t, c).Ended?
      && SameSize(t, kill(t, c).value)
      && Removal(t, kill(t, c).value, removing, depth, all, held, c)
  }

  ghost predicate Kills(kill: (Snapshot, int) -> Outcome, removing: seq<bool>, depth: seq<nat>,
                        all1: set<int>, e: int)
  {
    forall t, all, held, c | all <= all1 && 0 <= e < |depth| && 0 <= c < |depth| && depth[e] < depth[c] ::
      KillsChild(kill, t, removing, depth, all, held, c)
  }

  lemma OneChildRemoves(kill: (Snapshot, int) -> Outcome, t1: Snapshot, t: Snapshot, removing: seq<bool>,
                        depth: seq<nat>, all1: set<int>, held1: set<int>, all: set<int>, held: set<int>,
                        e: int, k: nat, before: seq<int>)
    returns (t': Snapshot, all': set<int>, held': set<int>, before': seq<int>)
    requires AtChild(t1, t, removing, depth, all1, held1, all, held, e, k, before) && k < Turns(t1.s.kids[e], e)
    requires Kills(kill, removing, depth, all1, e)
    ensures AtChild(t1, t', removing, depth, all1, held1, all', held', e, k + 1, before')
    ensures var list := t1.s.kids[e];
      KillList(kill, t, NodeAt(t1.s, list, k), |list| - k, e)
      == KillList(kill, t', NodeAt(t1.s, list, k + 1), |list| - k - 1, e)
  {
    var c := t1.s.kids[e][k];
    NextChild(t1, t, removing, depth, all1, held1, all, held, e, k, before);
    if t.s.first[c] < 0 {
      LeafGone(t1, t, removing, depth, all1, held1, all, held, e, k, before);
      t', all', held', before' := FreeBoth(t, c, t.s.link[c]), all, held, before + [c];
    } else {
      assert KillsChild(kill, t, removing, depth, all, held, c);
      var t2 := kill(t, c).value;
      all', held', before' := DeepGone(t1, t, t2, removing, depth, all1, held1, all, held, e, k, before);
      t' := FreeBoth(t2, c, t.s.link[c]);
    }
  }

  ghost predicate AtStage(t1: Snapshot, t: Snapshot, removing: seq<bool>, depth: seq<nat>,
                          all1: set<int>, held1: set<int>, e: int, k: nat)
  {
    exists all, held, before :: AtChild(t1, t, removing, depth, all1, held1, all, held, e, k, before)
  }

  lemma OneStageRemoves(kill: (Snapshot, int) -> Outcome, t1: Snapshot, t: Snapshot, removing: seq<bool>,
                        depth: seq<nat>, all1: set<int>, held1: set<int>, e: int, k: nat)
    returns (t': Snapshot)
    requires AtStage(t1, t, removing, depth, all1, held1, e, k) && 0 <= e < |t1.s.kids| && k < Turns(t1.s.kids[e], e)
    requires Kills(kill, removing, depth, all1, e) && t.Sized()
    ensures AtStage(t1, t', removing, depth, all1, held1, e, k + 1) && t'.Sized()
    ensures var list := t1.s.kids[e];
      KillList(kill, t, NodeAt(t1.s, list, k), |list| - k, e)
      == KillList(kill, t', NodeAt(t1.s, list, k + 1), |list| - k - 1, e)
  {
    var all, held, before :| AtChild(t1, t, removing, depth, all1, held1, all, held, e, k, before);
    var all', held', before';
    t', all', held', before' := OneChildRemoves(kill, t1, t, removing, depth, all1, held1, all, held, e, k, before);
  }

  /** One pass takes stage i to stage i + 1, and does not change what the run comes to. */
  ghost predicate Passes(at: (Snapshot, nat) -> bool, run: (Snapshot, nat) -> Outcome, u: Snapshot, i: nat) {
    at(u, i) ==> exists u' :: PassesTo(at, run, u, i, u')
  }

  ghost predicate PassesTo(at: (Snapshot, nat) -> bool, run: (Snapshot, nat) -> Outcome,
                           u: Snapshot, i: nat, u': Snapshot)
  {
    at(u', i + 1) && run(u, i) == run(u', i + 1)
  }

  lemma {:induction false} LoopRuns(at: (Snapshot, nat) -> bool, run: (Snapshot, nat) -> Outcome,
                                    t: Snapshot, k: nat, n: nat)
    returns (t': Snapshot)
    requires k <= n && at(t, k) && forall u, i: nat :: i < n ==> Passes(at, run, u, i)
    ensures at(t', n) && run(t, k) == run(t', n)
    decreases n - k
  {
    if k == n {
      t' := t;
    } else {
      assert Passes(at, run, t, k);
      var u :| PassesTo(at, run, t, k, u);
      t' := LoopRuns(at, run, u, k + 1, n);
    }
  }

  ghost function RunFrom(kill: (Snapshot, int) -> Outcome, s: Links, list: seq<int>, e: int)
    : (Snapshot, nat) -> Outcome
  {
    (t: Snapshot, k: nat) =>
      if t.Sized() && k <= |list| then KillList(kill, t, NodeAt(s, list, k), |list| - k, e) else Lost
  }

  ghost function Stages(t1: Snapshot, removing: seq<bool>, depth: seq<nat>, all1: set<int>, held1: set<int>, e: int):
    (Snapshot, nat) -> bool
  {
    (t: Snapshot, k: nat) => t.Sized() && AtStage(t1, t, removing, depth, all1, held1, e, k)
  }

  lemma OnePass(kill: (Snapshot, int) -> Outcome, t1: Snapshot, u: Snapshot, removing: seq<bool>,
                depth: seq<nat>, all1: set<int>, held1: set<int>, e: int, i: nat)
    requires Kills(kill, removing, depth, all1, e) && 0 <= e < |t1.s.kids| && i < Turns(t1.s.kids[e], e)
    ensures Passes(Stages(t1, removing, depth, all1, held1, e), RunFrom(kill, t1.s, t1.s.kids[e], e), u, i)
  {
    if u.Sized() && AtStage(t1, u, removing, depth, all1, held1, e, i) {
      var u' := OneStageRemoves(kill, t1, u, removing, depth, all1, held1, e, i);
      StagePassed(kill, t1, u, removing, depth, all1, held1, e, i, u');
    }
  }

  lemma StagePassed(kill: (Snapshot, int) -> Outcome, t1: Snapshot, u: Snapshot, removing: seq<bool>,
                    depth: seq<nat>, all1: set<int>, held1: set<int>, e: int, i: nat, u': Snapshot)
    requires 0 <= e < |t1.s.kids| && i < |t1.s.kids[e]| && u.Sized() && u'.Sized()
    requires AtStage(t1, u', removing, depth, all1, held1, e, i + 1)
    requires var list := t1.s.kids[e];
      KillList(kill, u, NodeAt(t1.s, list, i), |list| - i, e)
      == KillList(kill, u', NodeAt(t1.s, list, i + 1), |list| - i - 1, e)
    ensures Passes(Stages(t1, removing, depth, all1, held1, e), RunFrom(kill, t1.s, t1.s.kids[e], e), u, i)
  {
    SameRun(kill, t1.s, t1.s.kids[e], e, u, i, u');
    assert PassesTo(Stages(t1, removing, depth, all1, held1, e), RunFrom(kill, t1.s, t1.s.kids[e], e), u, i, u');
  }

  lemma SameRun(kill: (Snapshot, int) -> Outcome, s: Links, list: seq<int>, e: int, u: Snapshot, i: nat, u': Snapshot)
    requires u.Sized() && u'.Sized() && i < |list|
    requires KillList(kill, u, NodeAt(s, list, i), |list| - i, e)
             == KillList(kill, u', NodeAt(s, list, i + 1), |list| - i - 1, e)
    ensures RunFrom(kill, s, list, e)(u, i) == RunFrom(kill, s, list, e)(u', i + 1)
  {}

  lemma StagesRun(kill: (Snapshot, int) -> Outcome, t1: Snapshot, removing: seq<bool>, depth: seq<nat>,
                  all1: set<int>, held1: set<int>, e: int)
    returns (t': Snapshot)
    requires AtStage(t1, t1, removing, depth, all1, held1, e, 0) && 0 <= e < |t1.s.kids| && t1.Sized()
    requires Kills(kill, removing, depth, all1, e)
    ensures var turns, run := Turns(t1.s.kids[e], e), RunFrom(kill, t1.s, t1.s.kids[e], e);
      Stages(t1, removing, depth, all1, held1, e)(t', turns) && run(t1, 0) == run(t', turns)
  {
    var turns := Turns(t1.s.kids[e], e);
    var at, run := Stages(t1, removing, depth, all1, held1, e), RunFrom(kill, t1.s, t1.s.kids[e], e);
    forall u, i: nat | i < turns ensures Passes(at, run, u, i) {
      OnePass(kill, t1, u, removing, depth, all1, held1, e, i);
    }
    t' := LoopRuns(at, run, t1, 0, turns);
  }

  lemma RunIsKillList(kill: (Snapshot, int) -> Outcome, s: Links, list: seq<int>, e: int, t: Snapshot, k: nat)
    requires t.Sized() && k <= |list|
    ensures RunFrom(kill, s, list, e)(t, k) == KillList(kill, t, NodeAt(s, list, k), |list| - k, e)
  {}

  /** The loop comes as far as to e itself, or to its end, and has removed what is below the children
      on the way. */
  lemma KillListRemoves(kill: (Snapshot, int) -> Outcome, t1: Snapshot, removing: seq<bool>, depth: seq<nat>,
                        all1: set<int>, held1: set<int>, e: int)
    returns (t': Snapshot)
    requires AtStage(t1, t1, removing, depth, all1, held1, e, 0) && 0 <= e < |t1.s.kids| && t1.Sized()
    requires Kills(kill, removing, depth, all1, e)
    ensures var list, turns := t1.s.kids[e], Turns(t1.s.kids[e], e);
      && t'.Sized() && AtStage(t1, t', removing, depth, all1, held1, e, turns)
      && KillList(kill, t1, NodeAt(t1.s, list, 0), |list|, e)
         == KillList(kill, t', NodeAt(t1.s, list, turns), |list| - turns, e)
  {
    var list := t1.s.kids[e];
    t' := StagesRun(kill, t1, removing, depth, all1, held1, e);
    RunIsKillList(kill, t1.s, list, e, t1, 0);
    RunIsKillList(kill, t1.s, list, e, t', Turns(list, e));
  }

  lemma StageStarts(t1: Snapshot, t: Snapshot, removing: seq<bool>, depth: seq<nat>,
                    all1: set<int>, held1: set<int>, e: int, k: nat)
    requires AtStage(t1, t, removing, depth, all1, held1, e, k)
    ensures t1.Sized() && t.Sized() && Start(t1.s, depth, all1, held1, e)
  {}

  /** To its end, unless e is its own parent. */
  lemma WholeListRemoves(kill: (Snapshot, int) -> Outcome, t1: Snapshot, removing: seq<bool>, depth: seq<nat>,
                         all1: set<int>, held1: set<int>, e: int)
    returns (t': Snapshot)
    requires AtStage(t1, t1, removing, depth, all1, held1, e, 0) && 0 <= e < |t1.s.kids| && t1.Sized()
    requires Kills(kill, removing, depth, all1, e) && t1.s.parent[e] != e
    ensures t'.Sized() && AtStage(t1, t', removing, depth, all1, held1, e, |t1.s.kids[e]|)
    ensures KillList(kill, t1, NodeAt(t1.s, t1.s.kids[e], 0), |t1.s.kids[e]|, e) == Ended(t')
  {
    StageStarts(t1, t1, removing, depth, all1, held1, e, 0);
    AllTurns(t1.s, depth, all1, held1, e);
    t' := KillListRemoves(kill, t1, removing, depth, all1, held1, e);
    assert KillList(kill, t', -1, 0, e) == Ended(t');
  }

  ghost predicate Enough(depth: seq<nat>, all: set<int>, height: nat, e: int, fuel: nat) {
    Capped(depth, all, height) && 0 <= e < |depth| && height <= depth[e] + fuel
  }

  lemma FirstStage(t: Snapshot, t1: Snapshot, removing: seq<bool>, depth: seq<nat>, all: set<int>, held: set<int>,
                   e: int)
    requires t.Sized() && t1.Sized() && |removing| == |t.used| == |t1.used| && Start(t.s, depth, all, held, e)
    requires (t.s.parent[e] >= 0 ==> e in held) && t.s.parent[e] != e
    requires Unhooked(t, t1, Unlinks(t.s.parent, removing, e), held, e)
    ensures e < |t1.s.kids| && t.s.first[e] == NodeAt(t1.s, t1.s.kids[e], 0)
    ensures AtStage(t1, t1, removing, depth, all, held - if Unlinks(t.s.parent, removing, e) then {e} else {}, e, 0)
  {
    var held1 := held - if Unlinks(t.s.parent, removing, e) then {e} else {};
    LoopStart(t, t1, removing, depth, all, held, e);
    assert OwnList(t.s, held, e);
    assert AtChild(t1, t1, removing, depth, all, held1, all, held1, e, 0, []);
  }

  lemma LastStage(t: Snapshot, t1: Snapshot, t2: Snapshot, removing: seq<bool>, depth: seq<nat>,
                  all: set<int>, held: set<int>, e: int)
    requires t.Sized() && t1.Sized() && |removing| == |t.used| == |t1.used| && Start(t.s, depth, all, held, e)
    requires (t.s.parent[e] >= 0 ==> e in held) && t.s.parent[e] != e
    requires Unhooked(t, t1, Unlinks(t.s.parent, removing, e), held, e) && e < |t1.s.kids|
    requires var held1 := held - if Unlinks(t.s.parent, removing, e) then {e} else {};
      AtStage(t1, t2, removing, depth, all, held1, e, |t1.s.kids[e]|)
    ensures t2.Sized() && e < |t2.s.parent| && Removal(t, t2.(s := Cleared(t2.s, e)), removing, depth, all, held, e)
  {
    var held1 := held - if Unlinks(t.s.parent, removing, e) then {e} else {};
    LoopStart(t, t1, removing, depth, all, held, e);
    var all2, held2, before2 :|
      AtChild(t1, t2, removing, depth, all, held1, all2, held2, e, |t1.s.kids[e]|, before2);
    LoopEnd(t, t1, t2, removing, depth, all, held, all2, held2, e, before2);
  }

  lemma UnhookedRemoves(kill: (Snapshot, int) -> Outcome, t: Snapshot, t1: Snapshot, removing: seq<bool>,
                        depth: seq<nat>, all: set<int>, held: set<int>, e: int)
    returns (t2: Snapshot)
    requires t.Sized() && t1.Sized() && |removing| == |t.used| == |t1.used| && Start(t.s, depth, all, held, e)
    requires (t.s.parent[e] >= 0 ==> e in held) && t.s.parent[e] != e
    requires Unhooked(t, t1, Unlinks(t.s.parent, removing, e), held, e)
    requires Kills(kill, removing, depth, all, e)
    ensures e < |t1.s.kids| && t2.Sized() && e < |t2.s.parent|
    ensures KillList(kill, t1, t.s.first[e], |t1.s.kids[e]|, e) == Ended(t2)
    ensures Removal(t, t2.(s := Cleared(t2.s, e)), removing, depth, all, held, e)
  {
    var held1 := held - if Unlinks(t.s.parent, removing, e) then {e} else {};
    FirstStage(t, t1, removing, depth, all, held, e);
    t2 := WholeListRemoves(kill, t1, removing, depth, all, held1, e);
    LastStage(t, t1, t2, removing, depth, all, held, e);
  }

  /** A bound on the depths. */
  ghost function Deepest(depth: seq<nat>): (h: nat)
    ensures forall x :: 0 <= x < |depth| ==> depth[x] <= h
  {
    if depth == [] then 0
    else
      var h := Deepest(depth[..|depth| - 1]);
      assert forall x :: 0 <= x < |depth| - 1 ==> depth[x] == depth[..|depth| - 1][x];
      if h < depth[|depth| - 1] then depth[|depth| - 1] else h
  }

  /** A run for e ends, and removes what is below e. */
  lemma {:induction false} KillRemoves(t: Snapshot, removing: seq<bool>, depth: seq<nat>, height: nat,
                                       all: set<int>, held: set<int>, e: int, fuel: nat)
    requires t.Sized() && |removing| == |t.used| && Start(t.s, depth, all, held, e)
    requires Enough(depth, all, height, e, fuel) && (t.s.parent[e] >= 0 ==> e in held) && t.s.parent[e] != e
    ensures var r := Kill(t, removing, e, fuel); r.Ended? && Removal(t, r.value, removing, depth, all, held, e)
    decreases fuel, 1
  {
    var unlinks := Unlinks(t.s.parent, removing, e);
    if e in held { UnhookIsUnhooked(t, depth, all, held, e); }
    var t1 := if unlinks then Unhook(t, e) else t;
    KillerKills(removing, depth, height, all, e, fuel);
    var t2 := UnhookedRemoves(Killer(removing, fuel), t, t1, removing, depth, all, held, e);
    assert OwnList(t.s, held, e);
    assert e in held ==> GoodList(t.s, t.s.parent[e]);
  }

  lemma {:induction false} KillerKills(removing: seq<bool>, depth: seq<nat>, height: nat, all1: set<int>, e: int,
                                       fuel: nat)
    requires Enough(depth, all1, height, e, fuel)
    ensures Kills(Killer(removing, fuel), removing, depth, all1, e)
    decreases fuel, 0
  {
    forall t, all, held, c | all <= all1 && 0 <= e < |depth| && 0 <= c < |depth| && depth[e] < depth[c]
      ensures KillsChild(Killer(removing, fuel), t, removing, depth, all, held, c)
    {
      if t.Sized() && |removing| == |t.used| && Start(t.s, depth, all, held, c) && c in held
        && t.s.parent[c] != c
      {
        KillRemoves(t, removing, depth, height, all, held, c, fuel - 1);
      }
    }
  }
}
