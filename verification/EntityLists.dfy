/** The child lists of entity.c as values: per entity the index of a first node, and nodes that
    name a child entity and the next node. */
module EntityLists {
  import opened Lists

  /** Entities and nodes are numbered; -1 is NULL, or the end of a list. `kids` lists each
      entity's children in order, and `link` is the node that holds an entity in its parent's list:
      these two are what the arrays stand for. */
  datatype Links = Links(parent: seq<int>, first: seq<int>, next: seq<int>, child: seq<int>,
                         kids: seq<seq<int>>, link: seq<int>)
  {
    predicate Sized() {
      && |parent| == |first| == |kids| == |link|
      && |next| == |child|
    }
  }

  /** Child c has a node, and the node names it. */
  predicate HasNode(s: Links, c: int)
    requires s.Sized()
  {
    0 <= c < |s.link| && 0 <= s.link[c] < |s.next| && s.child[s.link[c]] == c
  }

  /** The node of child number k of a list, or the end of the list. */
  function NodeAt(s: Links, list: seq<int>, k: nat): int {
    if k < |list| && 0 <= list[k] < |s.link| then s.link[list[k]] else -1
  }

  function NodeBefore(s: Links, list: seq<int>, k: nat): int {
    if k == 0 then -1 else NodeAt(s, list, k - 1)
  }

  /** Child number k has a node, which leads to the node of the next child. */
  predicate Leads(s: Links, list: seq<int>, k: nat)
    requires s.Sized()
  {
    k < |list| && HasNode(s, list[k]) && s.next[s.link[list[k]]] == NodeAt(s, list, k + 1)
  }

  /** From node `at` the nodes of the list follow one another to the end. */
  ghost predicate Chain(s: Links, at: int, list: seq<int>)
    requires s.Sized()
  {
    at == NodeAt(s, list, 0) && forall k :: 0 <= k < |list| ==> Leads(s, list, k)
  }

  ghost predicate GoodList(s: Links, p: int)
    requires s.Sized()
  {
    0 <= p < |s.parent| && NoRepeats(s.kids[p]) && Chain(s, s.first[p], s.kids[p])
  }

  /** p's list is a chain of entities that are held and have p for their parent. */
  ghost predicate OwnList(s: Links, held: set<int>, p: int)
    requires s.Sized()
  {
    GoodList(s, p) && forall c <- s.kids[p] :: c in held && 0 <= c < |s.parent| && s.parent[c] == p
  }

  ghost predicate InList(s: Links, all: set<int>, c: int)
    requires s.Sized()
  {
    0 <= c < |s.parent| && 0 <= s.parent[c] < |s.parent| && s.parent[c] in all && c in s.kids[s.parent[c]]
  }

  /** The lists of the entities in `all` are finite chains without repeats that share no node, and
      an entity is in the list of its parent if it is in `held`, and in no list otherwise. */
  ghost predicate Shape(s: Links, all: set<int>, held: set<int>) {
    && s.Sized()
    && held <= all
    && (forall p {:trigger OwnList(s, held, p)} :: p in all ==> OwnList(s, held, p))
    && (forall c {:trigger InList(s, all, c)} :: c in held ==> InList(s, all, c))
  }

  lemma HeldHasNode(s: Links, all: set<int>, held: set<int>, c: int)
    requires Shape(s, all, held) && c in held
    ensures HasNode(s, c) && InList(s, all, c) && OwnList(s, held, s.parent[c])
  {
    assert InList(s, all, c) && OwnList(s, held, s.parent[c]);
    var list := s.kids[s.parent[c]];
    assert Leads(s, list, IndexOf(list, c));
  }

  predicate SameKids(s: Links, s': Links, x: int) {
    0 <= x < |s.kids| == |s'.kids| && s'.kids[x] == s.kids[x]
  }

  predicate Childless(s: Links, x: int) {
    0 <= x < |s.kids| && s.kids[x] == []
  }

  /** A node is in one of the lists. */
  predicate Listed(s: Links, held: set<int>, n: int) {
    0 <= n < |s.child| && s.child[n] in held && 0 <= s.child[n] < |s.link| && s.link[s.child[n]] == n
  }

  // ----- Taking an entity out of its parent's list

  /** remove_child_from_parent: the node before c, or the parent, now leads to the node after c. */
  function Unlinked(s: Links, c: int): (s': Links)
    requires s.Sized() && HasNode(s, c) && 0 <= s.parent[c] < |s.parent| && c in s.kids[s.parent[c]]
    ensures s'.Sized()
  {
    var p := s.parent[c];
    var k := IndexOf(s.kids[p], c);
    var s' := s.(kids := s.kids[p := Without(s.kids[p], c)]);
    if k == 0 then s'.(first := s.first[p := s.next[s.link[c]]])
    else if HasNode(s, s.kids[p][k - 1]) then s'.(next := s.next[s.link[s.kids[p][k - 1]] := s.next[s.link[c]]])
    else s'
  }

  /** A chain does not see a change to a node that is not its own. */
  lemma ChainElsewhere(s: Links, s': Links, at: int, list: seq<int>)
    requires s.Sized() && s'.Sized() && Chain(s, at, list)
    requires s'.link == s.link && s'.child == s.child
    requires forall k :: 0 <= k < |list| && Leads(s, list, k) ==> s'.next[s.link[list[k]]] == s.next[s.link[list[k]]]
    ensures Chain(s', at, list)
  {
    forall k | 0 <= k < |list| ensures Leads(s', list, k) {
      assert Leads(s, list, k);
    }
  }

  lemma ChainUnlinked(s: Links, p: int, c: int)
    requires s.Sized() && HasNode(s, c) && s.parent[c] == p && GoodList(s, p) && c in s.kids[p]
    ensures GoodList(Unlinked(s, c), p)
  {
    var list := s.kids[p];
    var k := IndexOf(list, c);
    var s' := Unlinked(s, c);
    var r := s'.kids[p];
    WithoutHas(list, c);
    assert Leads(s, list, k);
    if k > 0 { assert Leads(s, list, k - 1); }
    if k + 1 < |list| { assert Leads(s, list, k + 1); }
    forall i | 0 <= i < |r| ensures Leads(s', r, i) {
      var j := if i < k then i else i + 1;
      assert r[i] == list[j] && Leads(s, list, j);
      if k > 0 { Distinct(list, j, k - 1); }
    }
    if k == 0 && |list| > 1 { assert r[0] == list[1]; }
  }

  /** Unlinking keeps the lists well formed, with c in none of them. */
  lemma UnlinkKeeps(s: Links, all: set<int>, held: set<int>, c: int)
    requires Shape(s, all, held) && c in held
    ensures HasNode(s, c) && InList(s, all, c)
    ensures Shape(Unlinked(s, c), all, held - {c})
  {
    HeldHasNode(s, all, held, c);
    var p := s.parent[c];
    var list := s.kids[p];
    var s' := Unlinked(s, c);
    WithoutHas(list, c);
    ChainUnlinked(s, p, c);
    forall q | q in all ensures OwnList(s', held - {c}, q) {
      assert OwnList(s, held, q);
      if q != p { UnlinkElsewhere(s, all, held, c, q); }
    }
    forall x | x in held - {c} ensures InList(s', all, x) {
      assert InList(s, all, x);
    }
  }

  lemma UnlinkElsewhere(s: Links, all: set<int>, held: set<int>, c: int, q: int)
    requires Shape(s, all, held) && c in held && q in all && InList(s, all, c) && HasNode(s, c)
    requires OwnList(s, held, q) && q != s.parent[c]
    ensures GoodList(Unlinked(s, c), q)
  {
    var s' := Unlinked(s, c);
    var p := s.parent[c];
    var list := s.kids[p];
    var k := IndexOf(list, c);
    assert OwnList(s, held, p);
    if k > 0 { assert Leads(s, list, k - 1) && list[k - 1] in list && s.parent[list[k - 1]] == p; }
    forall i | 0 <= i < |s.kids[q]| && Leads(s, s.kids[q], i)
      ensures s'.next[s.link[s.kids[q][i]]] == s.next[s.link[s.kids[q][i]]]
    {
      assert s.kids[q][i] in s.kids[q] && s.parent[s.kids[q][i]] == q;
    }
    ChainElsewhere(s, s', s.first[q], s.kids[q]);
  }

  // ----- Putting an entity in front of a list

  /** The last lines of update_entity_parent: node n now holds c, in front of p's list. */
  function Pushed(s: Links, c: int, p: int, n: int): (s': Links)
    requires s.Sized() && 0 <= c < |s.parent| && 0 <= p < |s.parent| && 0 <= n < |s.next|
    ensures s'.Sized()
  {
    Links(s.parent[c := p], s.first[p := n], s.next[n := s.first[p]], s.child[n := c],
          s.kids[p := [c] + s.kids[p]], s.link[c := n])
  }

  lemma PushKeepsOne(s: Links, all: set<int>, held: set<int>, c: int, p: int, n: int, q: int)
    requires Shape(s, all, held) && c in all - held && p in all && q in all
    requires 0 <= n < |s.next| && !Listed(s, held, n)
    requires 0 <= c < |s.parent| && 0 <= p < |s.parent| && 0 <= q < |s.parent|
    ensures GoodList(Pushed(s, c, p, n), q)
  {
    var s' := Pushed(s, c, p, n);
    var list, list' := s.kids[q], s'.kids[q];
    assert OwnList(s, held, q);
    forall i | 0 <= i < |list'| ensures Leads(s', list', i) {
      var j := if q == p then i - 1 else i;
      if j >= 0 {
        assert list'[i] == list[j] && list[j] in list && list[j] in held;
        assert Leads(s, list, j);
        if j + 1 < |list| { assert Leads(s, list, j + 1) && list[j + 1] in list && list[j + 1] in held; }
      } else if |list| > 0 {
        assert list'[1] == list[0] && Leads(s, list, 0) && list[0] in list && list[0] in held;
      }
    }
    if |list| > 0 { assert Leads(s, list, 0) && list[0] in list && list[0] in held; }
    forall i, j | 0 <= i < j < |list'| ensures Differ(list', i, j) {
      if q == p {
        assert list'[j] == list[j - 1] && list[j - 1] in list;
        if i > 0 { Distinct(list, i - 1, j - 1); }
      } else {
        Distinct(list, i, j);
      }
    }
  }

  lemma PushKeeps(s: Links, all: set<int>, held: set<int>, c: int, p: int, n: int)
    requires Shape(s, all, held) && c in all - held && p in all
    requires 0 <= n < |s.next| && !Listed(s, held, n)
    ensures 0 <= c < |s.parent| && 0 <= p < |s.parent|
    ensures Shape(Pushed(s, c, p, n), all, held + {c})
  {
    assert OwnList(s, held, c) && OwnList(s, held, p);
    var s' := Pushed(s, c, p, n);
    assert c !in s.kids[c];
    forall q | q in all ensures OwnList(s', held + {c}, q) {
      assert OwnList(s, held, q);
      PushKeepsOne(s, all, held, c, p, n, q);
    }
    forall x | x in held + {c} ensures InList(s', all, x) {
      if x != c { assert InList(s, all, x); } else { assert s'.kids[p][0] == c; }
    }
  }

  // ----- Emptying a list

  function Cleared(s: Links, e: int): (s': Links)
    requires s.Sized() && 0 <= e < |s.parent|
    ensures s'.Sized()
  {
    s.(first := s.first[e := -1], kids := s.kids[e := []])
  }

  /** The end of remove_entity_children: every entity in `gone` is given up, the children of e
      among them; the others have no children left. */
  lemma ClearKeeps(s: Links, all: set<int>, held: set<int>, e: int, gone: set<int>)
    requires Shape(s, all, held) && e in all - gone
    requires 0 <= e < |s.kids| && forall c <- s.kids[e] :: c in gone
    requires forall x | x in all && x in gone :: Childless(s, x)
    requires forall x | x in held && x in gone :: 0 <= x < |s.parent| && s.parent[x] == e
    ensures Shape(Cleared(s, e), all - gone, held - gone)
  {
    var s' := Cleared(s, e);
    forall q | q in all - gone ensures OwnList(s', held - gone, q) {
      assert OwnList(s, held, q);
      if q != e { ChainElsewhere(s, s', s.first[q], s.kids[q]); }
    }
    forall c | c in held - gone ensures InList(s', all - gone, c) {
      assert InList(s, all, c) && OwnList(s, held, s.parent[c]);
      assert s.parent[c] in gone ==> Childless(s, s.parent[c]);
    }
  }

  // ----- The arrays determine the lists

  lemma ChainTail(s: Links, at: int, a: seq<int>)
    requires s.Sized() && Chain(s, at, a) && a != []
    ensures 0 <= at < |s.next| && s.child[at] == a[0] && Chain(s, s.next[at], a[1..])
  {
    var r := a[1..];
    assert Leads(s, a, 0);
    forall k | 0 <= k < |r| ensures Leads(s, r, k) {
      assert r[k] == a[k + 1] && Leads(s, a, k + 1);
    }
  }

  lemma {:induction false} ChainIsUnique(s: Links, at: int, a: seq<int>, t: Links, b: seq<int>)
    requires s.Sized() && t.Sized() && s.next == t.next && s.child == t.child
    requires Chain(s, at, a) && Chain(t, at, b)
    ensures a == b
    decreases |a|
  {
    if a != [] && b != [] {
      ChainTail(s, at, a);
      ChainTail(t, at, b);
      ChainIsUnique(s, s.next[at], a[1..], t, b[1..]);
      assert a == [a[0]] + a[1..] && b == [b[0]] + b[1..];
    } else if a != [] {
      ChainTail(s, at, a);
    } else if b != [] {
      ChainTail(t, at, b);
    }
  }
}
