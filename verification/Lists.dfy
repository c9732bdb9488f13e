/** Lists of numbers: lists without repeats, and taking a number out of a list. */
module Lists {

  predicate Differ(list: seq<int>, j: nat, k: nat) {
    j < |list| && k < |list| && list[j] != list[k]
  }

  predicate NoRepeats(list: seq<int>) {
    forall j, k :: 0 <= j < k < |list| ==> Differ(list, j, k)
  }

  lemma Distinct(list: seq<int>, j: nat, k: nat)
    requires NoRepeats(list) && j < |list| && k < |list|
    ensures list[j] == list[k] <==> j == k
  {
    assert j < k ==> Differ(list, j, k);
    assert k < j ==> Differ(list, k, j);
  }

  function IndexFrom(list: seq<int>, c: int, from: nat): (k: int)
    ensures k == -1 || (from <= k < |list| && list[k] == c)
    ensures forall j :: from <= j < |list| && (k == -1 || j < k) ==> list[j] != c
    decreases |list| - from
  {
    if from >= |list| then -1 else if list[from] == c then from else IndexFrom(list, c, from + 1)
  }

  /** The first place of c, or -1. */
  function IndexOf(list: seq<int>, c: int): (k: int)
    ensures c in list ==> 0 <= k < |list| && list[k] == c
    ensures c !in list ==> k == -1
    ensures forall j :: 0 <= j < |list| && j < k ==> list[j] != c
  {
    IndexFrom(list, c, 0)
  }

  lemma FirstIs(list: seq<int>, j: nat)
    requires j < |list| && forall k :: 0 <= k < j ==> list[k] != list[j]
    ensures IndexOf(list, list[j]) == j
  {}

  /** The list without the first c. */
  function Without(list: seq<int>, c: int): seq<int> {
    var k := IndexOf(list, c);
    if 0 <= k < |list|
    then seq(|list| - 1, j requires 0 <= j < |list| - 1 => list[if j < k then j else j + 1])
    else list
  }

  lemma WithoutHas(list: seq<int>, c: int)
    requires NoRepeats(list)
    ensures NoRepeats(Without(list, c)) && |Without(list, c)| <= |list|
    ensures forall x :: x in Without(list, c) <==> x in list && x != c
  {
    var k := IndexOf(list, c);
    var r := Without(list, c);
    if c in list {
      forall i | 0 <= i < |list| ensures list[i] == c <==> i == k { Distinct(list, i, k); }
      forall i, j | 0 <= i < j < |r| ensures Differ(r, i, j) {
        Distinct(list, if i < k then i else i + 1, if j < k then j else j + 1);
      }
      forall x | x in list && x != c ensures x in r {
        var i :| 0 <= i < |list| && list[i] == x;
        assert x == r[if i < k then i else i - 1];
      }
    }
  }

  lemma WithoutAbsent(list: seq<int>, c: int)
    requires c !in list
    ensures Without(list, c) == list
  {}

  lemma AppendedOnce(list: seq<int>, c: int)
    requires NoRepeats(list) && c !in list
    ensures NoRepeats(list + [c])
  {
    forall j, k | 0 <= j < k < |list| + 1 ensures Differ(list + [c], j, k) {
      if k < |list| { Distinct(list, j, k); }
    }
  }

  lemma SubsetCount<T>(a: set<T>, b: set<T>)
    requires a <= b
    ensures |a| <= |b|
  {
    assert b == a + (b - a);
  }
}
