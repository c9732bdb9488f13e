/** The containers of a_star.c: node sets that remove by moving the last member into the hole,
    and node-keyed tables whose unused slots hold the NULL node. Each is a buffer of a fixed
    number of entries that its methods overwrite. */
module AStarTables {
  import opened Lists

  import opened AStarSpec

  // ----- Node sets

  ghost function ElementsOf(s: seq<Node>): set<Node> {
    if s == [] then {} else ElementsOf(s[..|s| - 1]) + {s[|s| - 1]}
  }

  lemma Elements(s: seq<Node>)
    ensures forall x :: x in ElementsOf(s) <==> x in s
  {
    if s != [] {
      Elements(s[..|s| - 1]);
      assert s == s[..|s| - 1] + [s[|s| - 1]];
    }
  }

  lemma {:induction false} CountElements(s: seq<Node>)
    requires NoRepeats(s)
    ensures |ElementsOf(s)| == |s|
  {
    if s != [] {
      var r := s[..|s| - 1];
      forall j, k | 0 <= j < k < |r| ensures Differ(r, j, k) { Distinct(s, j, k); }
      CountElements(r);
      Elements(r);
      forall j | 0 <= j < |r| ensures r[j] != s[|s| - 1] { Distinct(s, j, |s| - 1); }
    }
  }

  /** The members without number i: the last one takes its place. */
  function SwapRemove(s: seq<Node>, i: nat): seq<Node>
    requires i < |s|
  {
    s[i := s[|s| - 1]][..|s| - 1]
  }

  ghost predicate RemovedAt(s: seq<Node>, x: Node, i: nat, t: seq<Node>) {
    i < |s| && s[i] == x && t == SwapRemove(s, i)
  }

  lemma SwapRemoved(s: seq<Node>, i: nat)
    requires i < |s| && NoRepeats(s)
    ensures NoRepeats(SwapRemove(s, i))
    ensures ElementsOf(SwapRemove(s, i)) == ElementsOf(s) - {s[i]}
  {
    var t, n := SwapRemove(s, i), |s| - 1;
    forall j, k | 0 <= j < k < |t| ensures Differ(t, j, k) {
      Distinct(s, if j == i then n else j, if k == i then n else k);
    }
    forall j | 0 <= j < |s| ensures s[j] == s[i] <==> j == i { Distinct(s, j, i); }
    Elements(s);
    Elements(t);
    forall x ensures x in t <==> x in s && x != s[i] {
      if x in s && x != s[i] {
        var k :| 0 <= k < |s| && s[k] == x;
        assert t[if k == n then i else k] == x;
      }
    }
  }

  class NodeSet {
    var node: seq<Node>
    var nmembers: nat
    ghost const maxmembers: nat

    ghost predicate Valid()
      reads this
    {
      && nmembers <= |node| == maxmembers
      && NoRepeats(node[..nmembers]) && NULL !in ElementsOf(node[..nmembers])
    }

    ghost function Members(): set<Node>
      reads this
      requires nmembers <= |node|
    {
      ElementsOf(node[..nmembers])
    }

    constructor (maxnodes: nat)
      ensures Valid() && maxmembers == maxnodes && Members() == {} && nmembers == 0
    {
      maxmembers := maxnodes;
      node := seq(maxnodes, _ => NULL);
      nmembers := 0;
    }

    /** The index of x, or nmembers. */
    method IndexOf(x: Node) returns (i: nat)
      requires Valid()
      ensures i <= nmembers && x !in node[..i]
      ensures i < nmembers <==> x in Members()
      ensures i < nmembers ==> node[i] == x
    {
      Elements(node[..nmembers]);
      i := 0;
      while i < nmembers && node[i] != x
        invariant i <= nmembers && x !in node[..i]
      {
        i := i + 1;
      }
    }

    method Contains(x: Node) returns (found: bool)
      requires Valid()
      ensures found <==> x in Members()
    {
      var i := IndexOf(x);
      return i < nmembers;
    }

    /** The C assertion that the set is not full is the second precondition. */
    method Add(x: Node)
      requires Valid() && x != NULL
      requires x in Members() || nmembers < maxmembers
      modifies this
      ensures Valid() && Members() == old(Members()) + {x}
      ensures node[..nmembers] ==
              old(node[..nmembers]) + if x in old(Members()) then [] else [x]
    {
      var i := IndexOf(x);
      if i < nmembers { return; }
      AppendedOnce(node[..nmembers], x);
      node := node[nmembers := x];
      nmembers := nmembers + 1;
      assert node[..nmembers][..nmembers - 1] == old(node[..nmembers]);
      assert node[..nmembers] == old(node[..nmembers]) + [x];
    }

    /** The last member takes the place of x. */
    method Remove(x: Node)
      requires Valid()
      modifies this
      ensures Valid() && Members() == old(Members()) - {x}
      ensures if x in old(Members())
              then exists i: nat :: RemovedAt(old(node[..nmembers]), x, i, node[..nmembers])
              else node == old(node) && nmembers == old(nmembers)
    {
      var i := IndexOf(x);
      if i == nmembers { return; }
      SwapRemoved(node[..nmembers], i);
      if i == nmembers - 1 {
        node := node[i := NULL];
        nmembers := nmembers - 1;
      } else {
        node := node[i := node[nmembers - 1]];
        nmembers := nmembers - 1;
        node := node[nmembers := NULL];
      }
      assert node[..nmembers] == SwapRemove(old(node[..nmembers]), i);
      assert RemovedAt(old(node[..nmembers]), x, i, node[..nmembers]);
    }
  }

  // ----- Node-keyed tables

  datatype Slot<V> = Slot(node: Node, value: V)

  ghost function Bindings<V>(s: seq<Slot<V>>): map<Node, V> {
    if s == [] then map[]
    else if s[0].node == NULL then Bindings(s[1..])
    else Bindings(s[1..])[s[0].node := s[0].value]
  }

  ghost predicate OneSlotEach<V>(s: seq<Slot<V>>) {
    s == [] || (OneSlotEach(s[1..]) && s[0].node !in Bindings(s[1..]))
  }

  /** How many slots are in use. */
  ghost function Filled<V>(s: seq<Slot<V>>): nat {
    if s == [] then 0 else Filled(s[1..]) + if s[0].node == NULL then 0 else 1
  }

  lemma AllFree<V>(s: seq<Slot<V>>)
    requires forall k :: 0 <= k < |s| ==> s[k].node == NULL
    ensures Bindings(s) == map[] && OneSlotEach(s) && Filled(s) == 0
  {}

  lemma NoFree<V>(s: seq<Slot<V>>)
    requires forall k :: 0 <= k < |s| ==> s[k].node != NULL
    ensures Filled(s) == |s|
  {}

  lemma BindingsHaveNoNull<V>(s: seq<Slot<V>>)
    ensures NULL !in Bindings(s)
  {}

  lemma FirstSlot<V>(s: seq<Slot<V>>, x: Node, i: nat)
    requires x != NULL && i <= |s|
    requires forall k :: 0 <= k < i ==> s[k].node != x
    requires i < |s| ==> s[i].node == x
    ensures x in Bindings(s) <==> i < |s|
    ensures i < |s| ==> Bindings(s)[x] == s[i].value
  {
    if 0 < i {
      assert forall k :: 0 <= k < i - 1 ==> s[1..][k] == s[k + 1];
      FirstSlot(s[1..], x, i - 1);
    }
  }

  lemma CountBindings<V>(s: seq<Slot<V>>)
    requires OneSlotEach(s)
    ensures |Bindings(s)| == Filled(s)
  {
    if s != [] {
      CountBindings(s[1..]);
      if s[0].node != NULL {
        assert Bindings(s).Keys == Bindings(s[1..]).Keys + {s[0].node};
        assert |Bindings(s).Keys| == |Bindings(s)|;
        assert |Bindings(s[1..]).Keys| == |Bindings(s[1..])|;
      }
    }
  }

  /** Slot i is x's own, or it is free and x has none. */
  lemma WriteSlot<V>(s: seq<Slot<V>>, i: nat, x: Node, value: V)
    requires OneSlotEach(s) && x != NULL && i < |s|
    requires s[i].node == x || (s[i].node == NULL && x !in Bindings(s))
    ensures OneSlotEach(s[i := Slot(x, value)])
    ensures Bindings(s[i := Slot(x, value)]) == Bindings(s)[x := value]
  {
    var t := s[i := Slot(x, value)];
    if i == 0 {
      assert t[1..] == s[1..];
    } else {
      if s[i].node == x { HasSlot(s[1..], i - 1); }
      WriteSlot(s[1..], i - 1, x, value);
      assert t[1..] == s[1..][i - 1 := Slot(x, value)];
    }
  }

  lemma HasSlot<V>(s: seq<Slot<V>>, i: nat)
    requires i < |s| && s[i].node != NULL
    ensures s[i].node in Bindings(s)
  {
    if i > 0 { HasSlot(s[1..], i - 1); }
  }

  /** Both struct score_map (V is a score) and struct node_map (V is the node come from). */
  class NodeTable<V> {
    var slot: seq<Slot<V>>
    ghost const nelements: nat

    ghost predicate Valid()
      reads this
    {
      |slot| == nelements && OneSlotEach(slot)
    }

    ghost function Contents(): map<Node, V>
      reads this
    {
      Bindings(slot)
    }

    constructor (maxnodes: nat, zero: V)
      ensures Valid() && nelements == maxnodes && Contents() == map[] && Filled(slot) == 0
    {
      nelements := maxnodes;
      slot := seq(maxnodes, _ => Slot(NULL, zero));
      new;
      AllFree(slot);
    }

    /** The first slot that holds x, or the number of slots. The free slots hold NULL. */
    method IndexOf(x: Node) returns (i: nat)
      ensures i <= |slot|
      ensures i < |slot| ==> slot[i].node == x
      ensures forall k :: 0 <= k < i ==> slot[k].node != x
      ensures x != NULL ==> (i < |slot| <==> x in Contents())
      ensures x != NULL && i < |slot| ==> slot[i].value == Contents()[x]
    {
      i := 0;
      while i < |slot| && slot[i].node != x
        invariant i <= |slot|
        invariant forall k :: 0 <= k < i ==> slot[k].node != x
      {
        i := i + 1;
      }
      if x != NULL { FirstSlot(slot, x, i); }
    }

    /** The C assertion that the node has a score is the precondition. */
    method Get(x: Node) returns (value: V)
      requires x in Contents()
      ensures value == Contents()[x]
    {
      BindingsHaveNoNull(slot);
      var i := IndexOf(x);
      return slot[i].value;
    }

    method GetOr(x: Node, missing: V) returns (value: V)
      requires x != NULL
      ensures value == if x in Contents() then Contents()[x] else missing
    {
      var i := IndexOf(x);
      return if i < |slot| then slot[i].value else missing;
    }

    /** The C assertion that some slot is left is the second precondition. */
    method Set(x: Node, value: V)
      requires Valid() && x != NULL
      requires x in Contents() || Filled(slot) < nelements
      modifies this
      ensures Valid() && Contents() == old(Contents())[x := value]
    {
      var i := IndexOf(x);
      if i == |slot| {
        i := IndexOf(NULL);
        if i == |slot| { NoFree(slot); }
      }
      WriteSlot(slot, i, x, value);
      slot := slot[i := Slot(x, value)];
    }
  }
}
