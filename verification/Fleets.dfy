/** fleet.c: who is in which fleet. */
module Fleets {
  import opened Lists

  const MAXSHIPSPERFLEET: nat := 10
  const MAXFLEETS: nat := 10
  const WORD := 0x1_0000_0000

  // ----- Rosters

  /** The members of each fleet in order, the leader first. */
  type Roster = seq<seq<int>>

  predicate GoodFleet(r: Roster, i: nat) {
    i < |r| && |r[i]| <= MAXSHIPSPERFLEET && NoRepeats(r[i])
  }

  predicate Apart(r: Roster, i: nat, j: nat)
    requires i < |r| && j < |r|
  {
    forall x <- r[i] :: x !in r[j]
  }

  /** No id is twice in a fleet, or in two, and no fleet is too large. */
  ghost predicate Proper(r: Roster) {
    && (forall i :: 0 <= i < |r| ==> GoodFleet(r, i))
    && (forall i, j :: 0 <= i < j < |r| ==> Apart(r, i, j))
  }

  ghost predicate InAFleet(r: Roster, id: int) {
    exists i :: 0 <= i < |r| && id in r[i]
  }

  /** x comes before y. */
  predicate Precedes(list: seq<int>, x: int, y: int) {
    exists j, k :: 0 <= j < k < |list| && list[j] == x && list[k] == y
  }

  lemma WithoutKeepsOrder(list: seq<int>, id: int, x: int, y: int)
    requires Precedes(list, x, y) && x != id && y != id
    ensures Precedes(Without(list, id), x, y)
  {
    var j, k :| 0 <= j < k < |list| && list[j] == x && list[k] == y;
    var i := IndexOf(list, id);
    if id in list {
      var j', k' := if j < i then j else j - 1, if k < i then k else k - 1;
      assert j != i && k != i;
      assert 0 <= j' < k' < |Without(list, id)| && Without(list, id)[j'] == x && Without(list, id)[k'] == y;
    }
  }

  // ----- The operations on rosters

  /** The first fleet without members, or the number of fleets. */
  function FirstEmpty(r: Roster): (i: nat)
    ensures i <= |r| && (i < |r| ==> r[i] == []) && forall j :: 0 <= j < i ==> r[j] != []
  {
    if r == [] || r[0] == [] then 0 else 1 + FirstEmpty(r[1..])
  }

  function Founded(r: Roster, leader: int): Roster {
    var i := FirstEmpty(r);
    if i < |r| then r[i := [leader]] else if |r| < MAXFLEETS then r + [[leader]] else r
  }

  function Left(r: Roster, id: int): Roster {
    seq(|r|, i requires 0 <= i < |r| => Without(r[i], id))
  }

  function Joined(r: Roster, n: nat, id: int): Roster
    requires n < |r|
  {
    if |r[n]| >= MAXSHIPSPERFLEET || id in r[n] then r
    else Left(r, id)[n := r[n] + [id]]
  }

  lemma LeftIsProper(r: Roster, id: int)
    requires Proper(r)
    ensures Proper(Left(r, id)) && !InAFleet(Left(r, id), id)
    ensures forall x :: x != id ==> (InAFleet(Left(r, id), x) <==> InAFleet(r, x))
  {
    var s := Left(r, id);
    forall i | 0 <= i < |s| ensures GoodFleet(s, i) {
      assert GoodFleet(r, i);
      WithoutHas(r[i], id);
    }
    forall i, j | 0 <= i < j < |s| ensures Apart(s, i, j) {
      assert GoodFleet(r, i) && GoodFleet(r, j);
      WithoutHas(r[i], id);
      WithoutHas(r[j], id);
      assert Apart(r, i, j);
    }
    forall i | 0 <= i < |s| ensures id !in s[i] && forall x :: x != id ==> (x in s[i] <==> x in r[i]) {
      assert GoodFleet(r, i);
      WithoutHas(r[i], id);
    }
    forall x | x != id ensures InAFleet(s, x) <==> InAFleet(r, x) {
      if InAFleet(r, x) { var i :| 0 <= i < |r| && x in r[i]; assert x in s[i]; }
      if InAFleet(s, x) { var i :| 0 <= i < |s| && x in s[i]; assert x in r[i]; }
    }
  }

  lemma JoinedIsProper(r: Roster, n: nat, id: int)
    requires Proper(r) && n < |r|
    ensures Proper(Joined(r, n, id))
  {
    if |r[n]| < MAXSHIPSPERFLEET && id !in r[n] {
      LeftIsProper(r, id);
      var s := Left(r, id);
      var t := Joined(r, n, id);
      assert GoodFleet(r, n);
      WithoutHas(r[n], id);
      AppendedOnce(r[n], id);
      forall i | 0 <= i < |t| ensures GoodFleet(t, i) { assert GoodFleet(s, i); }
      forall i, j | 0 <= i < j < |t| ensures Apart(t, i, j) {
        assert Apart(s, i, j);
        assert !InAFleet(s, id) ==> id !in s[i] && id !in s[j];
      }
    }
  }

  lemma FoundedIsProper(r: Roster, leader: int)
    requires Proper(r) && !InAFleet(r, leader)
    ensures Proper(Founded(r, leader))
  {
    var i := FirstEmpty(r);
    var s := Founded(r, leader);
    if i < |r| || |r| < MAXFLEETS {
      forall j | 0 <= j < |s| ensures GoodFleet(s, j) && (j != i ==> j < |r| && s[j] == r[j]) {
        if j != i { assert GoodFleet(r, j); }
      }
      forall j, k | 0 <= j < k < |s| ensures Apart(s, j, k) {
        if j != i && k != i { assert Apart(r, j, k); }
      }
    }
  }

  lemma FoundedTwice(r: Roster, leader: int)
    requires Proper(r) && InAFleet(r, leader) && (FirstEmpty(r) < |r| || |r| < MAXFLEETS)
    ensures !Proper(Founded(r, leader))
  {
    var i := FirstEmpty(r);
    var s := Founded(r, leader);
    var j :| 0 <= j < |r| && leader in r[j];
    assert j != i && s[i] == [leader] && s[j] == r[j];
    assert !Apart(s, if i < j then i else j, if i < j then j else i);
  }

  lemma FoundedIsProperIff(r: Roster, leader: int)
    requires Proper(r)
    ensures Proper(Founded(r, leader)) <==> !InAFleet(r, leader) || (FirstEmpty(r) == |r| && |r| >= MAXFLEETS)
  {
    if !InAFleet(r, leader) {
      FoundedIsProper(r, leader);
    } else if FirstEmpty(r) < |r| || |r| < MAXFLEETS {
      FoundedTwice(r, leader);
    }
  }

  /** An id in fleet i leaves that fleet only. */
  lemma LeftIsLocal(r: Roster, i: nat, id: int)
    requires Proper(r) && i < |r| && id in r[i]
    ensures Left(r, id) == r[i := Without(r[i], id)]
  {
    forall j | 0 <= j < |r| && j != i ensures Without(r[j], id) == r[j] {
      assert Apart(r, if i < j then i else j, if i < j then j else i);
      WithoutAbsent(r[j], id);
    }
  }

  lemma LeftIsNothing(r: Roster, id: int)
    requires forall i :: 0 <= i < |r| ==> id !in r[i]
    ensures Left(r, id) == r
  {
    forall i | 0 <= i < |r| ensures Without(r[i], id) == r[i] { WithoutAbsent(r[i], id); }
  }

  // ----- All ten fleets

  /** What the array f and nfleets hold: fleets from `count` on have not been founded yet. */
  datatype Book = Book(fleets: Roster, count: nat) {
    predicate Sized() {
      && |fleets| == MAXFLEETS && count <= MAXFLEETS
      && forall i :: 0 <= i < MAXFLEETS ==> |fleets[i]| <= MAXSHIPSPERFLEET
    }

    function Live(): Roster
      requires Sized()
    {
      seq(count, i requires 0 <= i < count <= |fleets| => fleets[i])
    }

    function Put(i: nat, list: seq<int>): Book
      requires i < |fleets|
    {
      this.(fleets := fleets[i := list])
    }
  }

  function NoFleets(): Book { Book(seq(MAXFLEETS, _ => []), 0) }

  /** The fleets founded are proper, and the others are empty. */
  ghost predicate Sound(b: Book) {
    && b.Sized() && Proper(b.Live())
    && forall i :: b.count <= i < MAXFLEETS ==> b.fleets[i] == []
  }

  /** The list after all x have been taken out, the first one first. */
  function Purged(list: seq<int>, x: int): (r: seq<int>)
    ensures |r| <= |list|
    decreases |list|
  {
    if x in list then Purged(Without(list, x), x) else list
  }

  lemma PurgedOnce(list: seq<int>, x: int)
    requires NoRepeats(list)
    ensures Purged(list, x) == Without(list, x)
  {
    WithoutHas(list, x);
    if x !in list { WithoutAbsent(list, x); }
  }

  /** fleet_new */
  function Opened(b: Book, leader: int): (b': Book)
    requires b.Sized()
    ensures b'.Sized()
  {
    var i := FirstEmpty(b.Live());
    if i < b.count then b.Put(i, [leader])
    else if b.count < MAXFLEETS then Book(b.fleets[b.count := [leader]], b.count + 1)
    else b
  }

  /** The first fleet that has x, or the number of fleets. */
  function FirstWith(r: Roster, x: int): (i: nat)
    ensures i <= |r| && (i < |r| ==> x in r[i]) && forall j :: 0 <= j < i ==> x !in r[j]
  {
    if r == [] || x in r[0] then 0 else 1 + FirstWith(r[1..], x)
  }

  /** fleet_leave */
  function Dismissed(b: Book, x: int): (b': Book)
    requires b.Sized()
    ensures b'.Sized()
  {
    var i := FirstWith(b.Live(), x);
    if i < b.count then b.Put(i, Without(b.fleets[i], x)) else b
  }

  /** The scan of fleet_join over the fleets before `to`, which spares fleet n. */
  function Scanned(b: Book, to: nat, n: nat, x: int): (b': Book)
    requires b.Sized() && to <= MAXFLEETS
    ensures b'.Sized() && b'.count == b.count
  {
    b.(fleets := seq(MAXFLEETS, i requires 0 <= i < MAXFLEETS && b.Sized() =>
                       if i < to && i != n then Purged(b.fleets[i], x) else b.fleets[i]))
  }

  /** fleet_join. The scan ends when it finds x in fleet n, but only looks at fleets founded. */
  function Enrolled(b: Book, n: nat, x: int): (b': Book)
    requires b.Sized() && n < MAXFLEETS
    ensures b'.Sized()
  {
    if |b.fleets[n]| >= MAXSHIPSPERFLEET then b
    else if n < b.count && x in b.fleets[n] then Scanned(b, n, n, x)
    else Scanned(b, b.count, n, x).Put(n, b.fleets[n] + [x])
  }

  type FleetNumber = n: int | 0 <= n < MAXFLEETS

  /** What a program can do. */
  datatype Operation = New(leader: int) | Join(fleet: FleetNumber, id: int) | Leave(id: int)

  function Done(b: Book, op: Operation): (b': Book)
    requires b.Sized()
    ensures b'.Sized()
  {
    match op
    case New(leader) => Opened(b, leader)
    case Join(n, id) => Enrolled(b, n, id)
    case Leave(id) => Dismissed(b, id)
  }

  // On sound books the three are as simple as they are meant to be.

  lemma OpenedSound(b: Book, leader: int)
    requires Sound(b)
    ensures Opened(b, leader).Live() == Founded(b.Live(), leader)
    ensures Sound(Opened(b, leader))
            <==> !InAFleet(b.Live(), leader) || FirstEmpty(b.Live()) == MAXFLEETS
  {
    FoundedIsProperIff(b.Live(), leader);
    assert Opened(b, leader).Live() == Founded(b.Live(), leader);
  }

  lemma DismissedSound(b: Book, x: int)
    requires Sound(b)
    ensures Sound(Dismissed(b, x)) && Dismissed(b, x).Live() == Left(b.Live(), x)
  {
    var r := b.Live();
    var i := FirstWith(r, x);
    LeftIsProper(r, x);
    if i < b.count { LeftIsLocal(r, i, x); } else { LeftIsNothing(r, x); }
    assert Dismissed(b, x).Live() == Left(r, x);
  }

  lemma ScannedSound(b: Book, to: nat, n: nat, x: int, i: nat)
    requires Sound(b) && to <= b.count && i < MAXFLEETS
    ensures Scanned(b, to, n, x).fleets[i]
            == if i < to && i != n then Left(b.Live(), x)[i] else b.fleets[i]
  {
    if i < to && i != n {
      assert GoodFleet(b.Live(), i);
      PurgedOnce(b.fleets[i], x);
    }
  }

  lemma EnrolledSound(b: Book, n: nat, x: int)
    requires Sound(b) && n < b.count
    ensures Sound(Enrolled(b, n, x)) && Enrolled(b, n, x).Live() == Joined(b.Live(), n, x)
  {
    var r, b' := b.Live(), Enrolled(b, n, x);
    JoinedIsProper(r, n, x);
    if x in r[n] { LeftIsLocal(r, n, x); }
    forall i | 0 <= i < MAXFLEETS
      ensures b'.fleets[i] == if i < b.count then Joined(r, n, x)[i] else b.fleets[i]
    {
      ScannedSound(b, n, n, x, i);
      ScannedSound(b, b.count, n, x, i);
    }
    assert b'.Live() == Joined(r, n, x);
  }

  lemma EnrolledPastEnd(b: Book, n: nat, x: int)
    requires Sound(b) && b.count <= n < MAXFLEETS
    ensures !Sound(Enrolled(b, n, x)) && Enrolled(b, n, x).fleets[n] == [x]
    ensures Enrolled(b, n, x).Live() == Left(b.Live(), x)
  {
    forall i | 0 <= i < b.count ensures Enrolled(b, n, x).fleets[i] == Left(b.Live(), x)[i] {
      ScannedSound(b, b.count, n, x, i);
    }
    assert Enrolled(b, n, x).fleets[n] == [x];
  }

  /** New fleets are led by ids that are in none, unless there is no room for them, and only
      fleets that have been founded are joined. */
  ghost predicate Allowed(b: Book, op: Operation)
    requires b.Sized()
  {
    match op
    case New(leader) => !InAFleet(b.Live(), leader) || FirstEmpty(b.Live()) == MAXFLEETS
    case Join(n, _) => n < b.count
    case Leave(_) => true
  }

  lemma StepIsSoundIff(b: Book, op: Operation)
    requires Sound(b)
    ensures Sound(Done(b, op)) <==> Allowed(b, op)
  {
    match op
    case New(leader) => OpenedSound(b, leader);
    case Join(n, id) => if n < b.count { EnrolledSound(b, n, id); } else { EnrolledPastEnd(b, n, id); }
    case Leave(id) => DismissedSound(b, id);
  }

  /** A run from no fleets at all. */
  function Run(ops: seq<Operation>): (b: Book)
    ensures b.Sized()
  {
    if ops == [] then NoFleets() else Done(Run(ops[..|ops| - 1]), ops[|ops| - 1])
  }

  lemma RunStep(ops: seq<Operation>, k: nat)
    requires k < |ops|
    ensures Run(ops[..k + 1]) == Done(Run(ops[..k]), ops[k])
  {
    assert ops[..k + 1][..k] == ops[..k];
  }

  ghost predicate AllowedAt(ops: seq<Operation>, k: nat)
    requires k < |ops|
  {
    Allowed(Run(ops[..k]), ops[k])
  }

  ghost predicate SoundAfter(ops: seq<Operation>, k: nat)
    requires k <= |ops|
  {
    Sound(Run(ops[..k]))
  }

  ghost predicate AllAllowed(ops: seq<Operation>) {
    forall k {:trigger AllowedAt(ops, k)} :: 0 <= k < |ops| ==> AllowedAt(ops, k)
  }

  ghost predicate AlwaysSound(ops: seq<Operation>) {
    forall k {:trigger SoundAfter(ops, k)} :: 0 <= k <= |ops| ==> SoundAfter(ops, k)
  }

  lemma NoFleetsSound()
    ensures Sound(NoFleets())
  {}

  lemma SoundStep(ops: seq<Operation>, k: nat)
    requires k < |ops| && SoundAfter(ops, k)
    ensures SoundAfter(ops, k + 1) <==> AllowedAt(ops, k)
  {
    StepIsSoundIff(Run(ops[..k]), ops[k]);
    RunStep(ops, k);
  }

  lemma {:induction false} SoundWhileAllowed(ops: seq<Operation>, n: nat)
    requires n <= |ops| && AllAllowed(ops)
    ensures SoundAfter(ops, n)
  {
    if n == 0 {
      NoFleetsSound();
    } else {
      SoundWhileAllowed(ops, n - 1);
      SoundStep(ops, n - 1);
    }
  }

  /** After every step of a run each id is in at most one fleet, and only once, no fleet is too
      large, and none has members before it is founded, if and only if every step is allowed. */
  lemma RunIsProper(ops: seq<Operation>)
    ensures AlwaysSound(ops) <==> AllAllowed(ops)
  {
    if AllAllowed(ops) {
      forall n | 0 <= n <= |ops| ensures SoundAfter(ops, n) { SoundWhileAllowed(ops, n); }
    } else if AlwaysSound(ops) {
      var k :| 0 <= k < |ops| && !AllowedAt(ops, k);
      assert SoundAfter(ops, k) && SoundAfter(ops, k + 1);
      SoundStep(ops, k);
    }
  }

  /** A run whose only fleet is led by an id that is in none, and which leaves id 2 in two fleets:
      both joins are of fleets that have not been founded, and the second one does not look at the
      first one's. */
  lemma JoinGoesWrong()
    ensures var ops := [New(1), Join(1, 2), Join(2, 2)];
      && AllowedAt(ops, 0) && !AllowedAt(ops, 1)
      && Run(ops).count == 1 && Run(ops).fleets[1] == [2] && Run(ops).fleets[2] == [2]
  {
    var ops := [New(1), Join(1, 2), Join(2, 2)];
    RunStep(ops, 0);
    RunStep(ops, 1);
    RunStep(ops, 2);
    assert ops[..3] == ops;
    var a, b := Run(ops[..1]), Run(ops[..2]);
    assert a.count == 1 && a.fleets[1] == [] && a.fleets[2] == [];
    assert b.count == 1 && b.fleets[1] == [2] && b.fleets[2] == [];
    assert Run(ops).fleets[1] == [2] && Run(ops).fleets[2] == [2];
  }

  /** Two ids that stay in their fleet keep their order. */
  lemma StepKeepsOrder(b: Book, op: Operation, i: nat, x: int, y: int)
    requires Sound(b) && i < MAXFLEETS && Precedes(b.fleets[i], x, y)
    requires x in Done(b, op).fleets[i] && y in Done(b, op).fleets[i]
    ensures Precedes(Done(b, op).fleets[i], x, y)
  {
    var list := b.fleets[i];
    var j, k :| 0 <= j < k < |list| && list[j] == x && list[k] == y;
    assert GoodFleet(b.Live(), i);
    match op
    case New(leader) =>
    case Leave(id) =>
      WithoutHas(list, id);
      if x != id && y != id { WithoutKeepsOrder(list, id, x, y); }
    case Join(n, id) =>
      WithoutHas(list, id);
      PurgedOnce(list, id);
      if x != id && y != id { WithoutKeepsOrder(list, id, x, y); }
      if i == n {
        assert (list + [id])[j] == x && (list + [id])[k] == y;
      }
  }

  ghost predicate IsIn(ops: seq<Operation>, k: nat, i: FleetNumber, x: int)
    requires k <= |ops|
  {
    x in Run(ops[..k]).fleets[i]
  }

  ghost predicate InOrder(ops: seq<Operation>, k: nat, i: FleetNumber, x: int, y: int)
    requires k <= |ops|
  {
    Precedes(Run(ops[..k]).fleets[i], x, y)
  }

  lemma OrderStep(ops: seq<Operation>, k: nat, i: FleetNumber, x: int, y: int)
    requires k < |ops| && SoundAfter(ops, k) && InOrder(ops, k, i, x, y)
    requires IsIn(ops, k + 1, i, x) && IsIn(ops, k + 1, i, y)
    ensures InOrder(ops, k + 1, i, x, y)
  {
    RunStep(ops, k);
    StepKeepsOrder(Run(ops[..k]), ops[k], i, x, y);
  }

  /** Over a run: while two ids stay in a fleet, whoever else comes and goes, they keep their
      order. */
  lemma {:induction false} RunKeepsOrder(ops: seq<Operation>, m: nat, n: nat, i: FleetNumber, x: int, y: int)
    requires m <= n <= |ops| && AllAllowed(ops) && InOrder(ops, m, i, x, y)
    requires forall k :: m <= k <= n ==> IsIn(ops, k, i, x) && IsIn(ops, k, i, y)
    ensures InOrder(ops, n, i, x, y)
  {
    if m < n {
      RunKeepsOrder(ops, m, n - 1, i, x, y);
      SoundWhileAllowed(ops, n - 1);
      assert IsIn(ops, n, i, x) && IsIn(ops, n, i, y);
      OrderStep(ops, n - 1, i, x, y);
    }
  }

  // ----- The arrays

  lemma MovedDown(row: seq<int>, n: nat, j: nat)
    requires j < n <= |row| && forall k :: 0 <= k < j ==> row[k] != row[j]
    ensures var moved := row[..j] + row[j + 1..n] + row[n - 1..];
      |moved| == |row| && moved[..n - 1] == Without(row[..n], row[j])
  {
    FirstIs(row[..n], j);
  }

  /** The array f of struct fleet, and nfleets. */
  class FleetTable {
    var nships: seq<nat>
    var id: seq<seq<int>>
    var shape: seq<int>
    var nfleets: nat

    ghost predicate Sized()
      reads this
    {
      && |nships| == |id| == |shape| == MAXFLEETS && nfleets <= MAXFLEETS
      && (forall i :: 0 <= i < MAXFLEETS ==> |id[i]| == MAXSHIPSPERFLEET && nships[i] <= MAXSHIPSPERFLEET)
    }

    function Members(i: nat): seq<int>
      requires Sized() && i < MAXFLEETS
      reads this
    {
      id[i][..nships[i]]
    }

    function All(): (b: Book)
      requires Sized()
      ensures b.Sized() && b.count == nfleets
      ensures forall i :: 0 <= i < MAXFLEETS ==> b.fleets[i] == Members(i)
      reads this
    {
      Book(seq(MAXFLEETS, i requires 0 <= i < MAXFLEETS && Sized() reads this => Members(i)), nfleets)
    }

    function Roster(): Roster
      requires Sized()
      reads this
    {
      All().Live()
    }

    ghost predicate Valid()
      reads this
    {
      Sized() && Sound(All())
    }

    constructor ()
      ensures Valid() && All() == NoFleets()
    {
      nships, id := seq(MAXFLEETS, _ => 0), seq(MAXFLEETS, _ => seq(MAXSHIPSPERFLEET, _ => 0));
      shape, nfleets := seq(MAXFLEETS, _ => 0), 0;
      new;
      assert All() == NoFleets();
      NoFleetsSound();
    }

    /** fleet_new: a sound table stays so if and only if the leader is in no fleet yet, or there is
        no room for another one. */
    method New(fleetShape: int, leader: int) returns (n: int)
      requires Sized()
      modifies this
      ensures Sized() && All() == Opened(old(All()), leader)
      ensures n == -1 <==> FirstEmpty(old(Roster())) == MAXFLEETS
      ensures n != -1 ==> n == FirstEmpty(old(Roster())) && n < nfleets && shape == old(shape)[n := fleetShape]
      ensures n == -1 ==> shape == old(shape)
      ensures old(Valid()) ==> Roster() == Founded(old(Roster()), leader)
      ensures old(Valid()) ==> (Valid() <==> n == -1 || !InAFleet(old(Roster()), leader))
    {
      ghost var b := All();
      if Sound(b) { OpenedSound(b, leader); }
      n := FindEmpty();
      if n == nfleets {
        if nfleets >= MAXFLEETS {
          return -1;
        }
        nfleets := nfleets + 1;
      }
      Found(n, fleetShape, leader);
    }

    /** The loop of fleet_new: the first fleet without ships, or nfleets. */
    method FindEmpty() returns (i: nat)
      requires Sized()
      ensures i == FirstEmpty(Roster()) && i <= nfleets
    {
      i := 0;
      while i < nfleets && nships[i] != 0
        invariant i <= nfleets && forall j :: 0 <= j < i ==> Roster()[j] != []
      {
        assert Roster()[i] == Members(i);
        i := i + 1;
      }
      assert i < nfleets ==> Roster()[i] == Members(i);
    }

    method Found(i: nat, fleetShape: int, leader: int)
      requires Sized() && i < MAXFLEETS
      modifies `nships, `id, `shape
      ensures Sized() && All() == old(All()).Put(i, [leader]) && shape == old(shape)[i := fleetShape]
    {
      ghost var b := All();
      nships := nships[i := 1];
      id := id[i := id[i][0 := leader]];
      shape := shape[i := fleetShape];
      assert Members(i) == [leader];
      assert All() == b.Put(i, [leader]);
    }

    /** The memmove and the decrement: member j of fleet i leaves. */
    method RemoveMember(i: nat, j: nat)
      requires Sized() && i < MAXFLEETS && j < nships[i] && forall k :: 0 <= k < j ==> id[i][k] != id[i][j]
      modifies `nships, `id
      ensures Sized() && All() == old(All()).Put(i, Without(old(Members(i)), old(id)[i][j]))
      ensures nships[i] == old(nships)[i] - 1
    {
      ghost var b := All();
      MovedDown(id[i], nships[i], j);
      var n := nships[i];
      id := id[i := id[i][..j] + id[i][j + 1..n] + id[i][n - 1..]];
      nships := nships[i := n - 1];
      assert All() == b.Put(i, Members(i));
    }

    /** fleet_leave. */
    method Leave(x: int)
      requires Sized()
      modifies this
      ensures Sized() && All() == Dismissed(old(All()), x) && shape == old(shape)
      ensures old(Valid()) ==> Valid() && Roster() == Left(old(Roster()), x)
    {
      ghost var b := All();
      if Sound(b) { DismissedSound(b, x); }
      var i, j := FindFleet(x);
      if j >= 0 { RemoveMember(i, j); }
    }

    /** The loops of fleet_leave: the first fleet that has x and x's place there, or nfleets and -1. */
    method FindFleet(x: int) returns (i: nat, j: int)
      requires Sized()
      ensures i == FirstWith(Roster(), x) && i <= nfleets
      ensures if i < nfleets then j == IndexOf(Members(i), x) && x in Members(i) else j == -1
    {
      i, j := 0, -1;
      while i < nfleets
        invariant i <= nfleets && j == -1
        invariant forall k :: 0 <= k < i ==> x !in Roster()[k]
      {
        assert Roster()[i] == Members(i);
        j := Find(i, x);
        if j >= 0 { return; }
        i := i + 1;
      }
    }

    /** fleet_position_number, and the inner loops of the other functions. */
    method Find(n: nat, x: int) returns (k: int)
      requires Sized() && n < MAXFLEETS
      ensures k == IndexOf(Members(n), x)
    {
      var members := Members(n);
      for i := 0 to nships[n]
        invariant forall k :: 0 <= k < i ==> members[k] != x
      {
        assert members[i] == id[n][i];
        if id[n][i] == x {
          FirstIs(members, i);
          return i;
        }
      }
      return -1;
    }

    /** The scan of another fleet in fleet_join. */
    method RemoveFrom(i: nat, x: int)
      requires Sized() && i < MAXFLEETS
      modifies `nships, `id
      ensures Sized() && All() == old(All()).Put(i, Purged(old(Members(i)), x))
    {
      ghost var b, members := All(), Members(i);
      var j := 0;
      while j < nships[i]
        invariant Sized() && j <= nships[i] && All() == b.Put(i, Members(i))
        invariant Purged(Members(i), x) == Purged(members, x)
        invariant forall p :: 0 <= p < j ==> Members(i)[p] != x
        decreases nships[i] - j
      {
        ghost var now := Members(i);
        assert now[j] == id[i][j];
        if id[i][j] == x {
          assert forall p :: 0 <= p < j ==> id[i][p] == now[p];
          FirstIs(now, j);
          RemoveMember(i, j);
        } else {
          j := j + 1;
        }
      }
    }

    /** The last lines of fleet_join. */
    method Append(n: nat, x: int)
      requires Sized() && n < MAXFLEETS && nships[n] < MAXSHIPSPERFLEET
      modifies `nships, `id
      ensures Sized() && All() == old(All()).Put(n, old(Members(n)) + [x])
    {
      ghost var b := All();
      id := id[n := id[n][nships[n] := x]];
      nships := nships[n := nships[n] + 1];
      assert Members(n) == old(Members(n)) + [x];
      assert All() == b.Put(n, Members(n));
    }

    /** The loops of fleet_join: the id is taken out of every other fleet founded, until it is found
        in fleet n. */
    method Scan(n: nat, x: int) returns (j: int)
      requires Sized() && n < MAXFLEETS
      modifies `nships, `id
      ensures Sized() && j == if n < nfleets then IndexOf(old(Members(n)), x) else -1
      ensures All() == Scanned(old(All()), if j >= 0 then n else nfleets, n, x)
    {
      ghost var b := All();
      ScannedNone(b, n, x);
      for i := 0 to nfleets
        invariant Sized() && All() == Scanned(b, i, n, x) && nfleets == old(nfleets)
        invariant n < i ==> x !in b.fleets[n]
      {
        ScannedMore(b, i, n, x);
        if i == n {
          assert Members(n) == b.fleets[n];
          j := Find(n, x);
          if j >= 0 { return; }
        } else {
          assert Members(i) == b.fleets[i];
          RemoveFrom(i, x);
        }
      }
      j := -1;
    }

    /** fleet_join: a full fleet takes nobody, and refuses even those who are in it. Otherwise a sound
        table stays so if and only if the fleet has been founded. */
    method Join(n: nat, x: int) returns (k: int)
      requires Sized() && n < MAXFLEETS
      modifies this
      ensures Sized() && All() == Enrolled(old(All()), n, x) && shape == old(shape)
      ensures k == -1 <==> |old(Members(n))| >= MAXSHIPSPERFLEET
      ensures k != -1 ==> 0 <= k < |Members(n)| && Members(n)[k] == x
      ensures k != -1 && n < nfleets ==> k == IndexOf(Members(n), x)
      ensures old(Valid()) ==> (Valid() <==> n < nfleets)
      ensures old(Valid()) && n < nfleets ==> Roster() == Joined(old(Roster()), n, x)
      ensures old(Valid()) && n >= nfleets ==> Roster() == Left(old(Roster()), x) && Members(n) == [x]
    {
      ghost var b := All();
      if Sound(b) { StepIsSoundIff(b, Operation.Join(n, x)); }
      if Sound(b) && n < nfleets { EnrolledSound(b, n, x); }
      if Sound(b) && n >= nfleets { EnrolledPastEnd(b, n, x); }
      if nships[n] >= MAXSHIPSPERFLEET {
        return -1;
      }
      k := Scan(n, x);
      assert Members(n) == b.fleets[n] && nfleets == b.count;
      if k >= 0 { return; }
      Append(n, x);
      assert Members(n) == b.fleets[n] + [x];
      k := nships[n] - 1;
      if n < nfleets { JoinEnds(b.fleets[n], x); }
    }

    /** fleet_member_get_id, whose result is a word of 32 bits without sign. */
    method MemberId(n: nat, position: int) returns (x: int)
      requires Sized() && n < nfleets
      ensures 0 <= position < |Members(n)| ==> x == Members(n)[position] % WORD
      ensures !(0 <= position < |Members(n)|) ==> x == WORD - 1
    {
      if position < 0 || position >= nships[n] {
        return WORD - 1;
      }
      x := id[n][position] % WORD;
    }
  }

  lemma ScannedNone(b: Book, n: nat, x: int)
    requires b.Sized()
    ensures Scanned(b, 0, n, x) == b
  {
    assert Scanned(b, 0, n, x).fleets == b.fleets;
  }

  lemma ScannedMore(b: Book, i: nat, n: nat, x: int)
    requires b.Sized() && i < MAXFLEETS
    ensures Scanned(b, i + 1, n, x)
            == if i == n then Scanned(b, i, n, x) else Scanned(b, i, n, x).Put(i, Purged(b.fleets[i], x))
  {
    var s := if i == n then Scanned(b, i, n, x) else Scanned(b, i, n, x).Put(i, Purged(b.fleets[i], x));
    assert Scanned(b, i + 1, n, x).fleets == s.fleets;
  }

  lemma JoinEnds(members: seq<int>, x: int)
    requires x !in members
    ensures IndexOf(members + [x], x) == |members|
  {
    FirstIs(members + [x], |members|);
  }
}
