/** The fixed geometry of a diagonal Sudoku.

    Cells are numbered row-major: cell 9*r + k sits in row r (A..I) and
    column k (1..9), so A1 is 0, A9 is 8, B1 is 9 and I9 is 80; this is the
    order of the solver's `boxes` list. There are 29 units: rows 0..8,
    columns 9..17, 3x3 boxes 18..26, the main diagonal 27 and the
    anti-diagonal 28, in the order the solver's `unitlist` holds them. */
module Topology {

  function Row(c: int): int { c / 9 }
  function Col(c: int): int { c % 9 }
  function Box(c: int): int { 3 * (Row(c) / 3) + Col(c) / 3 }
  predicate OnDiagonal(c: int) { c / 9 == c % 9 }
  predicate OnAntiDiagonal(c: int) { c / 9 + c % 9 == 8 }

  /** The cell in row r, column k. */
  function Cell(r: int, k: int): int { 9 * r + k }

  /** Row and column of the k-th cell of unit u, as the solver's `cross`
      and `zip` build them. */
  function UnitRow(u: int, k: int): int
  {
    if u < 9 then u
    else if u < 18 then k
    else if u < 27 then 3 * ((u - 18) / 3) + k / 3
    else k
  }

  function UnitCol(u: int, k: int): int
  {
    if u < 9 then k
    else if u < 18 then u - 9
    else if u < 27 then 3 * ((u - 18) % 3) + k % 3
    else if u == 27 then k
    else 8 - k
  }

  /** Unit u as the list of its cells, in the order the solver builds it. */
  function Unit(u: int): (cells: seq<int>)
    requires 0 <= u < 29
    ensures |cells| == 9
    ensures forall k :: 0 <= k < 9 ==> 0 <= cells[k] < 81
  {
    seq(9, k => Cell(UnitRow(u, k), UnitCol(u, k)))
  }

  /** The whole unit list: 9 rows, 9 columns, 9 boxes and the two diagonals. */
  function UnitList(): (units: seq<seq<int>>)
    ensures |units| == 29
    ensures forall u :: 0 <= u < 29 ==> |units[u]| == 9
    ensures units[27] == [0, 10, 20, 30, 40, 50, 60, 70, 80]
    ensures units[28] == [8, 16, 24, 32, 40, 48, 56, 64, 72]
  {
    seq(29, u requires 0 <= u < 29 => Unit(u))
  }

  /** Membership in unit u, stated by coordinates. */
  predicate InUnit(u: int, c: int)
  {
    if u < 9 then Row(c) == u
    else if u < 18 then Col(c) == u - 9
    else if u < 27 then Box(c) == u - 18
    else if u == 27 then OnDiagonal(c)
    else OnAntiDiagonal(c)
  }

  /** p is a peer of c: a different cell that shares a row, a column, a box
      or one of the two diagonals with c. */
  predicate IsPeer(c: int, p: int)
  {
    0 <= c < 81 && 0 <= p < 81 && c != p &&
    (Row(c) == Row(p) || Col(c) == Col(p) || Box(c) == Box(p) ||
     (OnDiagonal(c) && OnDiagonal(p)) || (OnAntiDiagonal(c) && OnAntiDiagonal(p)))
  }

  /** Row and column recover the coordinates a cell was built from. */
  lemma CellCoords(r: int, k: int)
    requires 0 <= r < 9 && 0 <= k < 9
    ensures 0 <= Cell(r, k) < 81
    ensures Row(Cell(r, k)) == r && Col(Cell(r, k)) == k
  {
  }

  /** The k-th cell of unit u lies in the grid and in unit u. */
  lemma UnitCellAt(u: int, k: int)
    requires 0 <= u < 29 && 0 <= k < 9
    ensures 0 <= UnitRow(u, k) < 9 && 0 <= UnitCol(u, k) < 9
    ensures 0 <= Unit(u)[k] < 81 && InUnit(u, Unit(u)[k])
  {
    CellCoords(UnitRow(u, k), UnitCol(u, k));
    if 18 <= u < 27 {
      var b := u - 18;
      assert UnitRow(u, k) / 3 == b / 3;
      assert UnitCol(u, k) / 3 == b % 3;
    }
  }

  /** Two different positions of a unit hold different cells. */
  lemma UnitDistinctAt(u: int, i: int, j: int)
    requires 0 <= u < 29 && 0 <= i < j < 9
    ensures Unit(u)[i] != Unit(u)[j]
  {
    UnitCellAt(u, i);
    UnitCellAt(u, j);
    CellCoords(UnitRow(u, i), UnitCol(u, i));
    CellCoords(UnitRow(u, j), UnitCol(u, j));
    if 18 <= u < 27 {
      assert i == 3 * (i / 3) + i % 3 && j == 3 * (j / 3) + j % 3;
    }
  }

  /** Where a cell sits inside its box. */
  lemma BoxPosition(u: int, c: int)
    requires 18 <= u < 27 && 0 <= c < 81 && Box(c) == u - 18
    ensures var k := 3 * (Row(c) % 3) + Col(c) % 3;
      0 <= k < 9 && UnitRow(u, k) == Row(c) && UnitCol(u, k) == Col(c)
  {
    var r, q, b := Row(c), Col(c), u - 18;
    var k := 3 * (r % 3) + q % 3;
    assert k / 3 == r % 3 && k % 3 == q % 3;
    assert b / 3 == r / 3 && b % 3 == q / 3;
  }

  /** A cell that lies in unit u by its coordinates is listed in unit u. */
  lemma UnitHolds(u: int, c: int)
    requires 0 <= u < 29 && 0 <= c < 81 && InUnit(u, c)
    ensures c in Unit(u)
  {
    var r, q := Row(c), Col(c);
    assert c == Cell(r, q);
    if u < 9 {
      assert Unit(u)[q] == c;
    } else if u < 18 {
      assert Unit(u)[r] == c;
    } else if u < 27 {
      BoxPosition(u, c);
      assert Unit(u)[3 * (r % 3) + q % 3] == c;
    } else {
      assert Unit(u)[r] == c;
    }
  }

  /** Every unit lists 9 distinct cells of the grid, and they are exactly the
      cells its coordinates describe. */
  lemma UnitCells(u: int)
    requires 0 <= u < 29
    ensures forall k :: 0 <= k < 9 ==> 0 <= Unit(u)[k] < 81 && InUnit(u, Unit(u)[k])
    ensures forall i, j :: 0 <= i < j < 9 ==> Unit(u)[i] != Unit(u)[j]
    ensures forall c :: 0 <= c < 81 && InUnit(u, c) ==> c in Unit(u)
  {
    forall k | 0 <= k < 9
      ensures 0 <= Unit(u)[k] < 81 && InUnit(u, Unit(u)[k])
    {
      UnitCellAt(u, k);
    }
    forall i, j | 0 <= i < j < 9
      ensures Unit(u)[i] != Unit(u)[j]
    {
      UnitDistinctAt(u, i, j);
    }
    forall c | 0 <= c < 81 && InUnit(u, c)
      ensures c in Unit(u)
    {
      UnitHolds(u, c);
    }
  }

  /** The units holding a cell (the solver's `units[c]`): its row, its
      column, its box, and each diagonal it lies on. The centre cell lies on
      both diagonals; every other cell on at most one. */
  lemma UnitsOfCell(c: int)
    requires 0 <= c < 81
    ensures forall u :: 0 <= u < 29 ==>
      (c in Unit(u) <==>
        u == Row(c) || u == 9 + Col(c) || u == 18 + Box(c) ||
        (u == 27 && OnDiagonal(c)) || (u == 28 && OnAntiDiagonal(c)))
    ensures OnDiagonal(c) && OnAntiDiagonal(c) <==> c == 40
  {
    forall u | 0 <= u < 29
      ensures c in Unit(u) <==>
        u == Row(c) || u == 9 + Col(c) || u == 18 + Box(c) ||
        (u == 27 && OnDiagonal(c)) || (u == 28 && OnAntiDiagonal(c))
    {
      UnitCells(u);
    }
  }

  /** Two different cells in one unit are peers. */
  lemma UnitMembersArePeers(u: int, c: int, p: int)
    requires 0 <= u < 29 && c in Unit(u) && p in Unit(u) && c != p
    ensures IsPeer(c, p)
  {
    UnitCells(u);
    assert InUnit(u, c) && InUnit(u, p);
  }

  /** Peers share a unit: the witness is the unit they have in common. */
  lemma PeersHaveUnit(c: int, p: int) returns (u: int)
    requires IsPeer(c, p)
    ensures 0 <= u < 29 && c in Unit(u) && p in Unit(u)
  {
    u :=
      if Row(c) == Row(p) then Row(c)
      else if Col(c) == Col(p) then 9 + Col(c)
      else if Box(c) == Box(p) then 18 + Box(c)
      else if OnDiagonal(c) && OnDiagonal(p) then 27
      else 28;
    UnitHolds(u, c);
    UnitHolds(u, p);
  }

  /** The peer relation is the one the solver derives from its units: two
      different cells are peers exactly when some unit holds both. It is
      therefore symmetric and irreflexive. */
  lemma PeersShareUnit(c: int, p: int)
    requires 0 <= c < 81 && 0 <= p < 81
    ensures IsPeer(c, p) <==> c != p && exists u :: 0 <= u < 29 && c in Unit(u) && p in Unit(u)
    ensures IsPeer(c, p) <==> IsPeer(p, c)
    ensures !IsPeer(c, c)
  {
    if IsPeer(c, p) {
      var u := PeersHaveUnit(c, p);
    }
    if c != p && exists u :: 0 <= u < 29 && c in Unit(u) && p in Unit(u) {
      var u :| 0 <= u < 29 && c in Unit(u) && p in Unit(u);
      UnitMembersArePeers(u, c, p);
    }
  }
}
