/** fleet.c: where the ships of a fleet fly. The square formation is drawn by a machine that turns at
    the corners, and the triangle is numbered row by row, from a table that is filled once. */
module Formations {

  const MAXSHIPSPERFLEET: nat := 10
  const FLEET_SPACING := 200.0

  // ----- The square

  datatype Cell = Cell(row: int, column: int)

  function Max(a: int, b: int): int { if a > b then a else b }
  function Min(a: int, b: int): int { if a < b then a else b }

  /** The cell `o` steps into layer s, which is the corner where row or column is s. Odd layers go
      down and then left, even ones right and then up. */
  function LayerCell(s: nat, o: int): Cell {
    if s % 2 == 1 then Cell(Min(o, s), s - Max(0, o - s)) else Cell(s - Max(0, o - s), Min(o, s))
  }

  /** The number of the first cell of layer s. */
  function LayerStart(s: nat): nat {
    if s == 0 then 0 else LayerStart(s - 1) + 2 * s - 1
  }

  lemma {:induction false} LayerStartIsSquare(s: nat)
    ensures LayerStart(s) == s * s
  {
    if s > 0 {
      LayerStartIsSquare(s - 1);
      assert s * s == (s - 1) * (s - 1) + 2 * s - 1;
    }
  }

  lemma {:induction false} LayersGrow(s: nat, t: nat)
    requires s < t
    ensures LayerStart(s) + 2 * s + 1 <= LayerStart(t)
    decreases t - s
  {
    if s + 1 < t { LayersGrow(s + 1, t); }
  }

  /** Cell i of the spiral is step o of layer s. */
  predicate InLayer(i: int, s: nat, o: int) {
    0 <= o <= 2 * s && i == LayerStart(s) + o
  }

  /** There is one such layer and step. */
  lemma LayerIsUnique(i: int, s: nat, o: int, s': nat, o': int)
    requires InLayer(i, s, o) && InLayer(i, s', o')
    ensures s == s' && o == o'
  {
    if s < s' { LayersGrow(s, s'); }
    if s' < s { LayersGrow(s', s); }
  }

  /** Cell i of the spiral. */
  ghost predicate IsCell(i: int, cell: Cell) {
    exists s: nat, o :: InLayer(i, s, o) && cell == LayerCell(s, o)
  }

  /** The number of a cell. */
  function NumberOf(cell: Cell): int
    requires cell.row >= 0 && cell.column >= 0
  {
    var s := Max(cell.row, cell.column);
    LayerStart(s) + if s % 2 == 1 then (if cell.column == s then cell.row else s + (s - cell.column))
            else (if cell.row == s then cell.column else s + (s - cell.row))
  }

  lemma NumberOfCell(i: int, cell: Cell)
    requires IsCell(i, cell)
    ensures cell.row >= 0 && cell.column >= 0 && NumberOf(cell) == i
  {}

  lemma CellOfNumber(cell: Cell)
    requires cell.row >= 0 && cell.column >= 0
    ensures IsCell(NumberOf(cell), cell)
  {
    var s := Max(cell.row, cell.column);
    var o := NumberOf(cell) - LayerStart(s);
    assert InLayer(NumberOf(cell), s, o) && cell == LayerCell(s, o);
  }

  /** A cell is in the square of side k + 1 if and only if its number is below (k + 1) squared. */
  lemma SquareIsFilled(i: int, cell: Cell, k: nat)
    requires IsCell(i, cell)
    ensures cell.row <= k && cell.column <= k <==> i < (k + 1) * (k + 1)
  {
    var s: nat, o :| InLayer(i, s, o) && cell == LayerCell(s, o);
    assert Max(cell.row, cell.column) == s;
    LayerStartIsSquare(k + 1);
    if s > k { LayersGrow(k, s); }
    if s < k { LayersGrow(s, k); }
  }

  predicate SideBySide(a: Cell, b: Cell) {
    (a.row == b.row && (a.column - b.column == 1 || b.column - a.column == 1))
    || (a.column == b.column && (a.row - b.row == 1 || b.row - a.row == 1))
  }

  /** Which way the machine goes on after step o of layer s. */
  function NextRow(s: nat, o: int): int {
    if s % 2 == 1 then (if o < s || o == 2 * s then 1 else 0) else (if s <= o < 2 * s then -1 else 0)
  }

  function NextColumn(s: nat, o: int): int {
    if s % 2 == 1 then (if s <= o < 2 * s then -1 else 0) else (if o < s || o == 2 * s then 1 else 0)
  }

  /** The table of fleet_square_position, for any number of ships. */
  method SquareTable(n: nat) returns (cells: seq<Cell>)
    ensures |cells| == n && forall i :: 0 <= i < n ==> IsCell(i, cells[i])
  {
    var r, c, squaresize, cdir, rdir := 0, -1, 1, 1, 0;
    cells := [];
    ghost var s: nat, o := 0, -1;
    for i := 0 to n
      invariant |cells| == i && forall j :: 0 <= j < i ==> IsCell(j, cells[j])
      invariant i == 0 ==> r == 0 && c == -1 && squaresize == 1 && cdir == 1 && rdir == 0 && s == 0 && o == -1
      invariant i > 0 ==> InLayer(i - 1, s, o) && Cell(r, c) == LayerCell(s, o)
      invariant i > 0 ==> rdir == NextRow(s, o) && cdir == NextColumn(s, o)
      invariant i > 0 ==> squaresize == if o == 2 * s then s + 1 else s
    {
      c := c + cdir;
      r := r + rdir;
      if i > 0 && o == 2 * s { s, o := s + 1, 0; } else { o := o + 1; }
      assert InLayer(i, s, o) && Cell(r, c) == LayerCell(s, o);
      cells := cells + [Cell(r, c)];
      if cdir == 1 && c == squaresize {
        cdir := 0;
        if r == 0 { rdir := 1; } else { rdir := -1; }
      } else if cdir == -1 && c == 0 {
        cdir := 0;
        rdir := 1;
        squaresize := squaresize + 1;
      } else if rdir == -1 && r == 0 {
        cdir := 1;
        rdir := 0;
        squaresize := squaresize + 1;
      } else if rdir == 1 && r == squaresize {
        rdir := 0;
        if c == 0 { cdir := 1; } else if c == squaresize { cdir := -1; }
      }
    }
  }

  lemma SameNumber(a: Cell, b: Cell)
    requires a.row >= 0 && a.column >= 0 && b.row >= 0 && b.column >= 0 && NumberOf(a) == NumberOf(b)
    ensures a == b
  {
    CellOfNumber(a);
    CellOfNumber(b);
    var s: nat, o :| InLayer(NumberOf(a), s, o) && a == LayerCell(s, o);
    var s': nat, o' :| InLayer(NumberOf(b), s', o') && b == LayerCell(s', o');
    LayerIsUnique(NumberOf(a), s, o, s', o');
  }

  lemma StepIsBeside(s: nat, o: int)
    requires 0 <= o <= 2 * s
    ensures SideBySide(LayerCell(s, o), if o == 2 * s then LayerCell(s + 1, 0) else LayerCell(s, o + 1))
  {}

  lemma NextLayer(i: int, s: nat, o: int, s': nat, o': int)
    requires InLayer(i, s, o) && InLayer(i + 1, s', o')
    ensures if o == 2 * s then s' == s + 1 && o' == 0 else s' == s && o' == o + 1
  {
    if o == 2 * s {
      LayerIsUnique(i + 1, s', o', s + 1, 0);
    } else {
      LayerIsUnique(i + 1, s', o', s, o + 1);
    }
  }

  lemma NextIsBeside(i: int, a: Cell, b: Cell)
    requires IsCell(i, a) && IsCell(i + 1, b)
    ensures SideBySide(a, b)
  {
    var s: nat, o :| InLayer(i, s, o) && a == LayerCell(s, o);
    var s': nat, o' :| InLayer(i + 1, s', o') && b == LayerCell(s', o');
    NextLayer(i, s, o, s', o');
    StepIsBeside(s, o);
  }

  /** Cells of the table, which holds the cells up to number n. */
  ghost predicate IsTable(cells: seq<Cell>) {
    forall i :: 0 <= i < |cells| ==> IsCell(i, cells[i])
  }

  lemma CellInTable(cells: seq<Cell>, k: nat, cell: Cell)
    requires |cells| == (k + 1) * (k + 1) && IsTable(cells)
    ensures cell in cells <==> 0 <= cell.row <= k && 0 <= cell.column <= k
  {
    if cell in cells {
      var i :| 0 <= i < |cells| && cells[i] == cell;
      NumberOfCell(i, cell);
      SquareIsFilled(i, cell, k);
    } else if 0 <= cell.row <= k && 0 <= cell.column <= k {
      CellOfNumber(cell);
      var i := NumberOf(cell);
      NumberOfCell(i, cell);
      SquareIsFilled(i, cell, k);
      AtItsNumber(cells, cell);
    }
  }

  lemma AtItsNumber(cells: seq<Cell>, cell: Cell)
    requires IsTable(cells) && cell.row >= 0 && cell.column >= 0 && 0 <= NumberOf(cell) < |cells|
    ensures cells[NumberOf(cell)] == cell
  {
    var i := NumberOf(cell);
    NumberOfCell(i, cells[i]);
    SameNumber(cell, cells[i]);
  }

  /** Neighbours in the table are side by side, and no cell is used twice: after (k + 1) squared
      steps the square of side k + 1 is full. */
  lemma TableIsSpiral(cells: seq<Cell>, k: nat)
    requires |cells| == (k + 1) * (k + 1) && IsTable(cells)
    ensures forall i :: 0 <= i < |cells| - 1 ==> SideBySide(cells[i], cells[i + 1])
    ensures forall i, j :: 0 <= i < j < |cells| ==> cells[i] != cells[j]
    ensures forall cell: Cell :: cell in cells <==> 0 <= cell.row <= k && 0 <= cell.column <= k
  {
    forall i | 0 <= i < |cells| - 1 ensures SideBySide(cells[i], cells[i + 1]) {
      NextIsBeside(i, cells[i], cells[i + 1]);
    }
    forall i, j | 0 <= i < j < |cells| ensures cells[i] != cells[j] {
      NumberOfCell(i, cells[i]);
      NumberOfCell(j, cells[j]);
    }
    forall cell: Cell ensures cell in cells <==> 0 <= cell.row <= k && 0 <= cell.column <= k {
      CellInTable(cells, k, cell);
    }
  }

  /** The ship's place in the plane. */
  function CellPlace(cell: Cell): (real, real) {
    (cell.row as real * FLEET_SPACING, cell.column as real * FLEET_SPACING)
  }

  lemma ZeroCell()
    ensures IsCell(0, Cell(0, 0)) && CellPlace(Cell(0, 0)) == (0.0, 0.0)
  {
    assert InLayer(0, 0, 0) && Cell(0, 0) == LayerCell(0, 0);
  }

  /** fleet_square_position. */
  method SquarePosition(position: nat) returns (v: (real, real), ghost cell: Cell)
    requires position < MAXSHIPSPERFLEET
    ensures IsCell(position, cell) && v == CellPlace(cell)
  {
    if position == 0 {
      ZeroCell();
      v, cell := (0.0, 0.0), Cell(0, 0);
    } else {
      var cells := SquareTable(MAXSHIPSPERFLEET);
      v := CellPlace(cells[position]);
      cell := cells[position];
    }
  }

  // ----- The triangle

  /** A place in the triangle: the row, and the place in the row, which has one more place than its
      number. */
  datatype Spot = Spot(row: int, pos: int, count: int)

  /** The spot after the first i. */
  ghost predicate IsSpot(i: int, spot: Spot) {
    0 <= spot.pos <= spot.row && spot.count == spot.row + 1 && i == Triangular(spot.row) + spot.pos
  }

  /** The number of the first spot of a row. */
  function Triangular(row: int): nat {
    if row <= 0 then 0 else Triangular(row - 1) + row
  }

  lemma {:induction false} TriangularIsHalfProduct(row: nat)
    ensures Triangular(row) == row * (row + 1) / 2
  {
    if row > 0 {
      TriangularIsHalfProduct(row - 1);
      assert row * (row + 1) == (row - 1) * row + 2 * row;
    }
  }

  lemma {:induction false} TriangularGrows(a: int, b: int)
    requires 0 <= a < b
    ensures Triangular(a) + a + 1 <= Triangular(b)
    decreases b - a
  {
    if a + 1 < b { TriangularGrows(a + 1, b); }
  }

  /** Different numbers have different spots, and one number has one spot. */
  lemma SpotIsUnique(i: int, a: Spot, j: int, b: Spot)
    requires IsSpot(i, a) && IsSpot(j, b)
    ensures i == j <==> a == b
  {
    if a.row < b.row { TriangularGrows(a.row, b.row); }
    if b.row < a.row { TriangularGrows(b.row, a.row); }
  }

  function NextSpot(s: Spot): Spot {
    if s.pos >= s.count - 1 then Spot(s.row + 1, 0, s.count + 1) else s.(pos := s.pos + 1)
  }

  lemma NextSpotIsNext(i: int, s: Spot)
    requires IsSpot(i, s)
    ensures IsSpot(i + 1, NextSpot(s))
  {
    assert Triangular(s.row + 1) == Triangular(s.row) + s.row + 1;
  }

  /** The ship's place in the plane, behind the leader and to its sides. */
  function Place(s: Spot): (real, real) {
    (FLEET_SPACING * -(s.row as real), (-((s.count as real - 1.0) / 2.0) + s.pos as real) * FLEET_SPACING)
  }

  lemma PlacesDiffer(i: int, a: Spot, j: int, b: Spot)
    requires IsSpot(i, a) && IsSpot(j, b) && i != j
    ensures Place(a) != Place(b)
  {
    SpotIsUnique(i, a, j, b);
  }

  const TABLE: nat := 256

  /** The static variables of fleet_triangle_position. */
  class TriangleTable {
    var initialized: bool
    var table: seq<Spot>  // r, rp and rc
    var last: Spot        // R, RP and RC
    ghost var lastNumber: nat  // the number of the spot in `last`

    ghost predicate Valid()
      reads this
    {
      && |table| == TABLE
      && (initialized ==> forall i :: 0 <= i < TABLE ==> IsSpot(i, table[i]))
      && (initialized ==> lastNumber >= TABLE && IsSpot(lastNumber, last))
    }

    constructor ()
      ensures Valid() && !initialized
    {
      initialized, table, last, lastNumber := false, seq(TABLE, _ => Spot(0, 0, 0)), Spot(0, 0, 0), 0;
    }

    /** fleet_triangle_position: right for every position, except that for position 256 an earlier
        call for a greater one has left its own spot behind. */
    method Position(position: nat) returns (spot: Spot)
      requires Valid()
      modifies this
      ensures Valid() && (position > 0 ==> initialized)
      ensures position != TABLE ==> IsSpot(position, spot)
      ensures position == TABLE ==> IsSpot(lastNumber, spot)
      ensures position == TABLE ==> (IsSpot(position, spot) <==> !old(initialized) || old(lastNumber) == TABLE)
      ensures lastNumber == if position > TABLE then position
                            else if position > 0 && !old(initialized) then TABLE else old(lastNumber)
    {
      if position == 0 {
        return Spot(0, 0, 1);
      }
      if !initialized || position > TABLE {
        Fill(if position > TABLE then position else TABLE);
      }
      if position >= TABLE {
        spot := last;
        if position == TABLE && lastNumber != TABLE {
          NotThisSpot(lastNumber, last, TABLE);
        }
      } else {
        spot := table[position];
      }
    }

    /** The loop over the spots up to `limit`. */
    method Fill(limit: nat)
      requires Valid() && limit >= TABLE
      modifies this
      ensures Valid() && initialized && lastNumber == limit
    {
      var s := Spot(0, 0, 1);
      assert Triangular(0) == 0;
      for i := 0 to limit
        invariant IsSpot(i, s) && |table| == TABLE && initialized == old(initialized)
        invariant initialized ==> forall j :: 0 <= j < TABLE ==> IsSpot(j, table[j])
        invariant forall j :: 0 <= j < i && j < TABLE ==> IsSpot(j, table[j])
        invariant i > 0 ==> last == s
      {
        if !initialized && i < TABLE {
          table := table[i := s];
        }
        NextSpotIsNext(i, s);
        s := NextSpot(s);
        last := s;
      }
      initialized, lastNumber := true, limit;
    }
  }

  lemma NotThisSpot(i: int, s: Spot, j: int)
    requires IsSpot(i, s) && i != j
    ensures !IsSpot(j, s)
  {}

  /** A call for position 257 and then one for 256: the second gets the first one's spot. */
  method PositionGoesWrong() returns (spot: Spot)
    ensures IsSpot(TABLE + 1, spot) && !IsSpot(TABLE, spot)
  {
    var t := new TriangleTable();
    spot := t.Position(TABLE + 1);
    spot := t.Position(TABLE);
  }
}
