/** black_hole_lens.c: which holes get a slot, in one pass, and in what order. */
module LensSelection {
  import opened Lists

  const MAX_GRAVITATIONAL_LENSES: nat := 3

  /** A hole as the selection sees it: `visible` if the camera is outside it and it is in front. */
  datatype Hole = Hole(visible: bool, coverage: real, einstein: real, distance: real)

  /** struct lens_candidate, but for the lens itself. */
  datatype Candidate = Candidate(coverage: real, einstein: real, distance: real, hole: nat)

  function CandidateOf(holes: seq<Hole>, i: nat): Candidate
    requires i < |holes|
  {
    Candidate(holes[i].coverage, holes[i].einstein, holes[i].distance, i)
  }

  predicate Eligible(holes: seq<Hole>, i: nat) {
    i < |holes| && holes[i].visible && holes[i].coverage > 0.0
  }

  /** Greater coverage wins, then the greater Einstein radius, then the earlier hole. */
  predicate Better(holes: seq<Hole>, i: nat, j: nat) {
    && i < |holes| && j < |holes|
    && (|| holes[i].coverage > holes[j].coverage
        || (holes[i].coverage == holes[j].coverage
            && (holes[i].einstein > holes[j].einstein || (holes[i].einstein == holes[j].einstein && i < j))))
  }

  // ----- The best few

  predicate Placed(holes: seq<Hole>, n: nat, top: seq<nat>, p: nat) {
    p < |top| && top[p] < n && Eligible(holes, top[p])
  }

  predicate Ranked(holes: seq<Hole>, top: seq<nat>, p: nat, q: nat) {
    p < |top| && q < |top| && Better(holes, top[p], top[q])
  }

  /** Hole i was left out because the list is full of better ones. */
  ghost predicate LeftOut(holes: seq<Hole>, slots: nat, top: seq<nat>, i: nat) {
    |top| == slots && forall p :: 0 <= p < |top| ==> Better(holes, top[p], i)
  }

  ghost predicate Judged(holes: seq<Hole>, slots: nat, top: seq<nat>, i: nat) {
    Eligible(holes, i) && i !in top ==> LeftOut(holes, slots, top, i)
  }

  /** `top` lists the best `slots` of the first n holes, best first. */
  ghost predicate TopOf(holes: seq<Hole>, n: nat, slots: nat, top: seq<nat>) {
    && n <= |holes| && |top| <= slots
    && (forall p :: 0 <= p < |top| ==> Placed(holes, n, top, p))
    && (forall p, q :: 0 <= p < q < |top| ==> Ranked(holes, top, p, q))
    && (forall i :: 0 <= i < n ==> Judged(holes, slots, top, i))
  }

  /** The holes among the first n that are better than hole i. */
  ghost function Betters(holes: seq<Hole>, n: nat, i: nat): set<nat>
  {
    set j: nat | 0 <= j < n && Eligible(holes, j) && Better(holes, j, i)
  }

  ghost function ToSet(s: seq<nat>): set<nat> {
    set x | x in s
  }

  lemma {:induction false} DistinctCount(s: seq<nat>)
    requires forall p, q :: 0 <= p < q < |s| ==> s[p] != s[q]
    ensures |ToSet(s)| == |s|
  {
    if s != [] {
      var r := s[..|s| - 1];
      DistinctCount(r);
      assert ToSet(s) == ToSet(r) + {s[|s| - 1]};
    } else {
      assert ToSet(s) == {};
    }
  }

  lemma TopIsDistinct(holes: seq<Hole>, n: nat, slots: nat, top: seq<nat>)
    requires TopOf(holes, n, slots, top)
    ensures forall p, q :: 0 <= p < q < |top| ==> top[p] != top[q]
  {
    forall p, q | 0 <= p < q < |top| ensures top[p] != top[q] {
      assert Ranked(holes, top, p, q);
    }
  }

  lemma NoBetterThanPlace(holes: seq<Hole>, n: nat, slots: nat, top: seq<nat>, p: nat, j: nat)
    requires TopOf(holes, n, slots, top) && p < |top| && j < n && Eligible(holes, j)
    requires forall q :: 0 <= q < p ==> top[q] != j
    ensures top[p] < n && !Better(holes, j, top[p])
  {
    assert Placed(holes, n, top, p);
    if j in top {
      var q :| p <= q < |top| && top[q] == j;
      if q > p { assert Ranked(holes, top, p, q); }
    } else {
      assert Judged(holes, slots, top, j);
      assert Better(holes, top[p], j);
    }
  }

  /** Place p of the list belongs to the hole that exactly p others beat. */
  lemma RankOfPlace(holes: seq<Hole>, n: nat, slots: nat, top: seq<nat>, p: nat)
    requires TopOf(holes, n, slots, top) && p < |top|
    ensures top[p] < n && |Betters(holes, n, top[p])| == p
  {
    assert Placed(holes, n, top, p);
    TopIsDistinct(holes, n, slots, top);
    DistinctCount(top[..p]);
    forall j | j in Betters(holes, n, top[p]) ensures j in top[..p] {
      if forall q :: 0 <= q < p ==> top[q] != j {
        NoBetterThanPlace(holes, n, slots, top, p, j);
      } else {
        var q :| 0 <= q < p && top[q] == j;
        assert top[..p][q] == j;
      }
    }
    forall q | 0 <= q < p ensures top[q] in Betters(holes, n, top[p]) {
      assert Placed(holes, n, top, q) && Ranked(holes, top, q, p);
    }
    assert Betters(holes, n, top[p]) == ToSet(top[..p]);
  }

  /** A hole has a place if and only if it is eligible and fewer others beat it than there are places. */
  lemma PlacedIff(holes: seq<Hole>, n: nat, slots: nat, top: seq<nat>, i: nat)
    requires TopOf(holes, n, slots, top) && i < n
    ensures i in top <==> Eligible(holes, i) && |Betters(holes, n, i)| < slots
  {
    if i in top {
      var p :| 0 <= p < |top| && top[p] == i;
      RankOfPlace(holes, n, slots, top, p);
      assert Placed(holes, n, top, p);
    } else if Eligible(holes, i) {
      TopIsDistinct(holes, n, slots, top);
      DistinctCount(top);
      assert Judged(holes, slots, top, i);
      forall p | 0 <= p < |top| ensures top[p] in Betters(holes, n, i) { assert Placed(holes, n, top, p); }
      SubsetCount(ToSet(top), Betters(holes, n, i));
    }
  }

  // ----- One more hole

  function Inserted(s: seq<nat>, j: nat, i: nat): seq<nat>
    requires j <= |s|
  {
    s[..j] + [i] + s[j..]
  }

  lemma InsertedAt(s: seq<nat>, j: nat, i: nat, p: nat)
    requires j <= |s| && p <= |s|
    ensures |Inserted(s, j, i)| == |s| + 1
    ensures Inserted(s, j, i)[p] == if p < j then s[p] else if p == j then i else s[p - 1]
  {}

  /** Hole n can go in at place j of s, which is the list or the list without its last. */
  ghost predicate CanInsert(holes: seq<Hole>, n: nat, slots: nat, top: seq<nat>, s: seq<nat>, j: nat) {
    && TopOf(holes, n, slots, top) && Eligible(holes, n) && j <= |s| < slots
    && (s == top || (|top| == slots && s == top[..slots - 1] && Better(holes, n, top[slots - 1])))
    && (forall p :: 0 <= p < j ==> Better(holes, s[p], n))
    && (forall p :: j <= p < |s| ==> Better(holes, n, s[p]))
  }

  lemma InsertKeepsPlaced(holes: seq<Hole>, n: nat, slots: nat, top: seq<nat>, s: seq<nat>, j: nat, p: nat)
    requires CanInsert(holes, n, slots, top, s, j) && p <= |s|
    ensures Placed(holes, n + 1, Inserted(s, j, n), p)
  {
    InsertedAt(s, j, n, p);
    if p < j { assert Placed(holes, n, top, p); }
    if p > j { assert Placed(holes, n, top, p - 1); }
  }

  lemma InsertKeepsRanked(holes: seq<Hole>, n: nat, slots: nat, top: seq<nat>, s: seq<nat>, j: nat, p: nat, q: nat)
    requires CanInsert(holes, n, slots, top, s, j) && p < q <= |s|
    ensures Ranked(holes, Inserted(s, j, n), p, q)
  {
    InsertedAt(s, j, n, p);
    InsertedAt(s, j, n, q);
    if p != j && q != j {
      assert Ranked(holes, top, if p < j then p else p - 1, if q < j then q else q - 1);
    }
  }

  /** Adding n to the list, and taking away its last if need be, is right for those left out. */
  lemma InsertKeepsJudged(holes: seq<Hole>, n: nat, slots: nat, top: seq<nat>, s: seq<nat>, j: nat, i: nat)
    requires CanInsert(holes, n, slots, top, s, j) && i <= n
    ensures Judged(holes, slots, Inserted(s, j, n), i)
  {
    var r := Inserted(s, j, n);
    if Eligible(holes, i) && i !in r {
      InsertedAt(s, j, n, j);
      forall p | 0 <= p < |s| ensures s[p] != i { InsertedAt(s, j, n, if p < j then p else p + 1); }
      if i in top {
        assert top[slots - 1] == i;
      } else {
        assert Judged(holes, slots, top, i);
      }
      forall p | 0 <= p < |r| ensures Better(holes, r[p], i) {
        BetterThanThoseLeft(holes, n, slots, top, s, j, i, p);
      }
    }
  }

  lemma BetterThanThoseLeft(holes: seq<Hole>, n: nat, slots: nat, top: seq<nat>, s: seq<nat>, j: nat, i: nat, p: nat)
    requires CanInsert(holes, n, slots, top, s, j) && p <= |s| && i < |holes|
    requires if i in top then |top| == slots && s == top[..slots - 1] && top[slots - 1] == i
             else LeftOut(holes, slots, top, i)
    ensures Better(holes, Inserted(s, j, n)[p], i)
  {
    InsertedAt(s, j, n, p);
    if i in top {
      if p < j { assert Ranked(holes, top, p, slots - 1); }
      if p > j { assert Ranked(holes, top, p - 1, slots - 1); }
    } else if p == j {
      assert Better(holes, top[slots - 1], i);
    }
  }

  /** Hole n goes in after those of `s` that are better and before the others. */
  lemma InsertKeepsTop(holes: seq<Hole>, n: nat, slots: nat, top: seq<nat>, s: seq<nat>, j: nat)
    requires CanInsert(holes, n, slots, top, s, j)
    ensures TopOf(holes, n + 1, slots, Inserted(s, j, n))
  {
    var r, m := Inserted(s, j, n), n + 1;
    forall p | 0 <= p < |r| ensures Placed(holes, m, r, p) {
      InsertKeepsPlaced(holes, n, slots, top, s, j, p);
    }
    forall p, q | 0 <= p < q < |r| ensures Ranked(holes, r, p, q) {
      InsertKeepsRanked(holes, n, slots, top, s, j, p, q);
    }
    forall i | 0 <= i < m ensures Judged(holes, slots, r, i) {
      InsertKeepsJudged(holes, n, slots, top, s, j, i);
    }
  }

  /** Hole n is no better than the last of a full list. */
  lemma SkipKeepsTop(holes: seq<Hole>, n: nat, slots: nat, top: seq<nat>)
    requires TopOf(holes, n, slots, top) && n < |holes| && 0 < slots
    requires Eligible(holes, n) ==> |top| == slots && Better(holes, top[slots - 1], n)
    ensures TopOf(holes, n + 1, slots, top)
  {
    var m := n + 1;
    forall p | 0 <= p < |top| ensures Placed(holes, m, top, p) { assert Placed(holes, n, top, p); }
    if Eligible(holes, n) {
      forall p | 0 <= p < |top| ensures Better(holes, top[p], n) {
        if p < slots - 1 { assert Ranked(holes, top, p, slots - 1); }
      }
    }
    forall i | 0 <= i < m ensures Judged(holes, slots, top, i) {
      if i < n { assert Judged(holes, slots, top, i); }
    }
  }

  predicate HeldAt(holes: seq<Hole>, best: seq<Candidate>, list: seq<nat>, p: nat) {
    p < |list| && p < |best| && list[p] < |holes| && best[p] == CandidateOf(holes, list[p])
  }

  /** The array holds the candidates for `list`. */
  ghost predicate Holds(holes: seq<Hole>, best: seq<Candidate>, list: seq<nat>) {
    |list| <= |best| && forall p :: 0 <= p < |list| ==> HeldAt(holes, best, list, p)
  }

  /** Candidates j to i have moved up by one, and c has come in at j. */
  ghost predicate MovedUp(was: seq<Candidate>, now: seq<Candidate>, j: nat, i: nat, c: Candidate) {
    && j <= i < |was| == |now| && now[j] == c
    && (forall p :: 0 <= p < |now| && (p < j || i < p) ==> now[p] == was[p])
    && (forall p :: j < p <= i ==> now[p] == was[p - 1])
  }

  lemma HoldsInserted(holes: seq<Hole>, was: seq<Candidate>, now: seq<Candidate>, s: seq<nat>, j: nat, n: nat)
    requires Holds(holes, was, s) && n < |holes| && MovedUp(was, now, j, |s|, CandidateOf(holes, n))
    ensures Holds(holes, now, Inserted(s, j, n))
  {
    forall p | 0 <= p < |s| + 1 ensures HeldAt(holes, now, Inserted(s, j, n), p) {
      InsertedAt(s, j, n, p);
      if p != j { assert HeldAt(holes, was, s, if p < j then p else p - 1); }
    }
  }

  /** The comparison in the insertion: b has to make way for c. */
  predicate MakesWay(b: Candidate, c: Candidate) {
    b.coverage < c.coverage || (b.coverage == c.coverage && b.einstein < c.einstein)
  }

  /** The shifting loop: a place is made for c in the list s, which is one shorter than the array's
      part in use. */
  method Insert(best: array<Candidate>, nbest: nat, c: Candidate) returns (ghost place: nat)
    requires 0 < nbest <= best.Length
    modifies best
    ensures place < nbest && MovedUp(old(best[..]), best[..], place, nbest - 1, c)
    ensures place > 0 ==> !MakesWay(old(best[place - 1]), c)
    ensures forall p :: place <= p < nbest - 1 ==> MakesWay(old(best[p]), c)
  {
    ghost var was := best[..];
    var j := nbest - 1;
    while j > 0 && MakesWay(best[j - 1], c)
      invariant 0 <= j < nbest
      invariant forall p :: 0 <= p < best.Length && (p <= j || nbest <= p) ==> best[p] == was[p]
      invariant forall p :: j < p < nbest ==> best[p] == was[p - 1]
      invariant forall p :: j <= p < nbest - 1 ==> MakesWay(was[p], c)
    {
      best[j] := best[j - 1];
      j := j - 1;
    }
    best[j] := c;
    place := j;
  }

  /** The first loop, for any number of slots: one pass keeps the best. */
  method KeepBest(holes: seq<Hole>, best: array<Candidate>) returns (nbest: nat, ghost top: seq<nat>)
    requires 0 < best.Length
    modifies best
    ensures nbest == |top| && TopOf(holes, |holes|, best.Length, top) && Holds(holes, best[..], top)
  {
    nbest, top := 0, [];
    for i := 0 to |holes|
      invariant nbest == |top| && TopOf(holes, i, best.Length, top) && Holds(holes, best[..], top)
    {
      if !holes[i].visible || holes[i].coverage <= 0.0 {
        SkipKeepsTop(holes, i, best.Length, top);
        continue;
      }
      var c := CandidateOf(holes, i);
      assert nbest > 0 ==> Placed(holes, i, top, nbest - 1) && HeldAt(holes, best[..], top, nbest - 1);
      if nbest < best.Length {
        nbest := nbest + 1;
      } else if c.coverage < best[nbest - 1].coverage
                || (c.coverage == best[nbest - 1].coverage && c.einstein <= best[nbest - 1].einstein) {
        SkipKeepsTop(holes, i, best.Length, top);
        continue;
      }
      ghost var s, was := top[..nbest - 1], best[..];
      assert Holds(holes, was, s) by { HoldsFewer(holes, was, top, nbest - 1); }
      ghost var place := Insert(best, nbest, c);
      HoldsInserted(holes, was, best[..], s, place, i);
      PlaceIsRight(holes, i, best.Length, top, s, was, place);
      top := Inserted(s, place, i);
    }
  }

  lemma HoldsFewer(holes: seq<Hole>, best: seq<Candidate>, list: seq<nat>, n: nat)
    requires Holds(holes, best, list) && n <= |list|
    ensures Holds(holes, best, list[..n])
  {
    forall p | 0 <= p < n ensures HeldAt(holes, best, list[..n], p) { assert HeldAt(holes, best, list, p); }
  }

  /** Where the loop stops is where hole n belongs. */
  lemma PlaceIsRight(holes: seq<Hole>, n: nat, slots: nat, top: seq<nat>, s: seq<nat>, was: seq<Candidate>, place: nat)
    requires TopOf(holes, n, slots, top) && Eligible(holes, n) && place <= |s| < slots
    requires s == top || (|top| == slots && s == top[..slots - 1] && Better(holes, n, top[slots - 1]))
    requires Holds(holes, was, s)
    requires place > 0 ==> !MakesWay(was[place - 1], CandidateOf(holes, n))
    requires forall p :: place <= p < |s| ==> MakesWay(was[p], CandidateOf(holes, n))
    ensures TopOf(holes, n + 1, slots, Inserted(s, place, n))
  {
    forall p | 0 <= p < place ensures Better(holes, s[p], n) {
      assert HeldAt(holes, was, s, place - 1) && Placed(holes, n, top, place - 1);
      if p < place - 1 { assert Ranked(holes, top, p, place - 1); }
    }
    forall p | place <= p < |s| ensures Better(holes, n, s[p]) {
      assert HeldAt(holes, was, s, p) && MakesWay(was[p], CandidateOf(holes, n));
    }
    InsertKeepsTop(holes, n, slots, top, s, place);
  }

  // ----- The order of the slots

  /** Farther holes come first; of two as far, the better. */
  predicate Before(holes: seq<Hole>, i: nat, j: nat) {
    && i < |holes| && j < |holes|
    && (holes[i].distance > holes[j].distance || (holes[i].distance == holes[j].distance && Better(holes, i, j)))
  }

  predicate Follows(holes: seq<Hole>, list: seq<nat>, p: nat, q: nat) {
    p < |list| && q < |list| && Before(holes, list[p], list[q])
  }

  ghost predicate InOrder(holes: seq<Hole>, list: seq<nat>) {
    && (forall p :: 0 <= p < |list| ==> list[p] < |holes|)
    && (forall p, q :: 0 <= p < q < |list| ==> Follows(holes, list, p, q))
  }

  /** Hole i, which all in s are better than, has its place at j by distance. */
  ghost predicate BelongsAt(holes: seq<Hole>, s: seq<nat>, j: nat, i: nat) {
    && i < |holes| && j <= |s| && (forall p :: 0 <= p < |s| ==> Better(holes, s[p], i))
    && (forall p :: 0 <= p < j ==> s[p] < |holes| && holes[s[p]].distance >= holes[i].distance)
    && (forall p :: j <= p < |s| ==> s[p] < |holes| && holes[s[p]].distance < holes[i].distance)
  }

  lemma InsertKeepsDistanceOrder(holes: seq<Hole>, s: seq<nat>, j: nat, i: nat)
    requires InOrder(holes, s) && BelongsAt(holes, s, j, i)
    ensures InOrder(holes, Inserted(s, j, i))
  {
    var r := Inserted(s, j, i);
    forall p | 0 <= p < |r| ensures r[p] < |holes| { InsertedAt(s, j, i, p); }
    forall p, q | 0 <= p < q < |r| ensures Follows(holes, r, p, q) {
      InsertedAt(s, j, i, p);
      InsertedAt(s, j, i, q);
      if p != j && q != j { assert Follows(holes, s, if p < j then p else p - 1, if q < j then q else q - 1); }
    }
  }

  lemma InsertedElements(s: seq<nat>, j: nat, i: nat)
    requires j <= |s|
    ensures multiset(Inserted(s, j, i)) == multiset(s) + multiset{i}
  {
    assert s == s[..j] + s[j..];
  }

  /** The sorted part: the first i of the list, in the new order. */
  ghost predicate SortedPart(holes: seq<Hole>, top: seq<nat>, i: nat, sorted: seq<nat>) {
    i <= |top| && |sorted| == i && InOrder(holes, sorted) && multiset(sorted) == multiset(top[..i])
  }

  /** Where the loop stops is where candidate i belongs. */
  lemma SortedPlace(holes: seq<Hole>, slots: nat, top: seq<nat>, i: nat, sorted: seq<nat>, was: seq<Candidate>, j: nat)
    requires TopOf(holes, |holes|, slots, top) && i < |top| && top[i] < |holes| && SortedPart(holes, top, i, sorted)
    requires Holds(holes, was, sorted) && i < |was| && was[i] == CandidateOf(holes, top[i]) && j <= i
    requires j > 0 ==> was[j - 1].distance >= was[i].distance
    requires forall p :: j <= p < i ==> was[p].distance < was[i].distance
    ensures BelongsAt(holes, sorted, j, top[i])
  {
    assert Placed(holes, |holes|, top, i);
    forall p | 0 <= p < i ensures Better(holes, sorted[p], top[i]) {
      assert sorted[p] in multiset(sorted);
      assert sorted[p] in top[..i];
      var q :| 0 <= q < i && top[q] == sorted[p];
      assert Ranked(holes, top, q, i);
    }
    forall p | 0 <= p < i
      ensures if p < j then holes[sorted[p]].distance >= holes[top[i]].distance
              else holes[sorted[p]].distance < holes[top[i]].distance
    {
      assert HeldAt(holes, was, sorted, p);
      if p < j { assert HeldAt(holes, was, sorted, j - 1); }
      if p < j - 1 { assert Follows(holes, sorted, p, j - 1); }
    }
  }

  lemma SortedPartGrows(holes: seq<Hole>, top: seq<nat>, i: nat, sorted: seq<nat>, j: nat)
    requires i < |top| && SortedPart(holes, top, i, sorted) && BelongsAt(holes, sorted, j, top[i])
    ensures SortedPart(holes, top, i + 1, Inserted(sorted, j, top[i]))
  {
    InsertKeepsDistanceOrder(holes, sorted, j, top[i]);
    InsertedElements(sorted, j, top[i]);
    assert top[..i + 1] == top[..i] + [top[i]];
  }

  /** One pass of the second loop: candidate i finds its place among the sorted ones before it. */
  method SortStep(best: array<Candidate>, i: nat) returns (ghost place: nat)
    requires i < best.Length
    modifies best
    ensures place <= i && MovedUp(old(best[..]), best[..], place, i, old(best[i]))
    ensures place > 0 ==> old(best[place - 1]).distance >= old(best[i]).distance
    ensures forall p :: place <= p < i ==> old(best[p]).distance < old(best[i]).distance
  {
    ghost var was := best[..];
    var c := best[i];
    var j := i;
    while j > 0 && best[j - 1].distance < c.distance
      invariant 0 <= j <= i
      invariant forall p :: 0 <= p < best.Length && (p < j || i < p) ==> best[p] == was[p]
      invariant forall p :: j < p <= i ==> best[p] == was[p - 1]
      invariant forall p :: j <= p < i ==> was[p].distance < c.distance
    {
      best[j] := best[j - 1];
      j := j - 1;
    }
    best[j] := c;
    place := j;
  }

  /** The second loop: an insertion sort by distance. */
  method SortByDistance(best: array<Candidate>, nbest: nat, ghost holes: seq<Hole>, ghost top: seq<nat>,
                        ghost slots: nat)
    returns (ghost order: seq<nat>)
    requires nbest == |top| <= best.Length && TopOf(holes, |holes|, slots, top) && Holds(holes, best[..], top)
    modifies best
    ensures |order| == nbest && Holds(holes, best[..], order)
    ensures InOrder(holes, order) && multiset(order) == multiset(top)
  {
    ghost var start := best[..];
    assert top[..nbest] == top;
    order := top[..if nbest == 0 then 0 else 1];
    if nbest == 0 { return; }
    HoldsFewer(holes, start, top, 1);
    assert Placed(holes, |holes|, top, 0);
    for i := 1 to nbest
      invariant SortedPart(holes, top, i, order) && Holds(holes, best[..], order)
      invariant forall p :: i <= p < best.Length ==> best[p] == start[p]
    {
      assert HeldAt(holes, start, top, i);
      ghost var was := best[..];
      ghost var place := SortStep(best, i);
      SortedPlace(holes, slots, top, i, order, was, place);
      HoldsInserted(holes, was, best[..], order, place, top[i]);
      SortedPartGrows(holes, top, i, order, place);
      order := Inserted(order, place, top[i]);
    }
  }

  /** black_hole_lens_select: the chosen holes, in the order of their slots. A hole is chosen if and
      only if it is eligible and fewer than three others beat it; no hole is chosen twice, and the
      farthest comes first. */
  method Select(holes: seq<Hole>) returns (chosen: seq<nat>)
    ensures InOrder(holes, chosen) && |chosen| <= MAX_GRAVITATIONAL_LENSES
    ensures forall p, q :: 0 <= p < q < |chosen| ==> chosen[p] != chosen[q]
    ensures forall i: nat :: i < |holes| ==>
      (i in chosen <==> Eligible(holes, i) && |Betters(holes, |holes|, i)| < MAX_GRAVITATIONAL_LENSES)
  {
    var best := new Candidate[MAX_GRAVITATIONAL_LENSES](_ => Candidate(0.0, 0.0, 0.0, 0));
    var nbest, top := KeepBest(holes, best);
    ghost var order := SortByDistance(best, nbest, holes, top, MAX_GRAVITATIONAL_LENSES);
    chosen := [];
    for n := 0 to nbest
      invariant chosen == order[..n]
    {
      assert HeldAt(holes, best[..], order, n);
      chosen := chosen + [best[n].hole];
    }
    assert chosen == order;
    SameElements(order, top);
    forall i: nat | i < |holes|
      ensures i in chosen <==> Eligible(holes, i) && |Betters(holes, |holes|, i)| < MAX_GRAVITATIONAL_LENSES
    {
      PlacedIff(holes, |holes|, MAX_GRAVITATIONAL_LENSES, top, i);
    }
    OrderIsDistinct(holes, chosen);
  }

  lemma SameElements(a: seq<nat>, b: seq<nat>)
    requires multiset(a) == multiset(b)
    ensures forall x :: x in a <==> x in b
  {
    forall x ensures x in a <==> x in b {
      assert x in a <==> x in multiset(a);
      assert x in b <==> x in multiset(b);
    }
  }

  lemma OrderIsDistinct(holes: seq<Hole>, list: seq<nat>)
    requires InOrder(holes, list)
    ensures forall p, q :: 0 <= p < q < |list| ==> list[p] != list[q]
  {
    forall p, q | 0 <= p < q < |list| ensures list[p] != list[q] {
      assert Follows(holes, list, p, q);
    }
  }
}
