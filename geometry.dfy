/** The board: 30 cells, row-major over 5 columns and 6 rows, and the
    single-step movement rule of `isValidMove`. */
module Geometry {

  const Columns := 5
  const Rows := 6
  const CellCount := 30

  /** A cell's `data-index`, as given to each cell by `createBoard`. */
  type CellIndex = i: int | 0 <= i < CellCount

  function Row(i: CellIndex): int { i / Columns }

  function Col(i: CellIndex): int { i % Columns }

  function Abs(x: int): nat { if x < 0 then -x else x }

  /** The drop rule of the setup phase: player 1 deploys in rows 0-1,
      player 2 in rows 4-5, and no one else anywhere. */
  predicate InHomeArea(player: int, i: CellIndex) {
    (player == 1 && i < 10) || (player == 2 && i >= 20)
  }

  /** `isValidMove` between the piece's cell `from` and the target cell `to`. */
  predicate IsValidMove(from: CellIndex, to: CellIndex) {
    var rowDifference := Row(to) - Row(from);
    var colDifference := Col(to) - Col(from);
    Abs(rowDifference) <= 1 && Abs(colDifference) <= 1 &&
    (rowDifference == 0 || colDifference == 0)
  }

  /** Independent description of the cells reachable from `i`: the cell
      itself and its up, down, left and right neighbours inside the grid. */
  function Neighbourhood(i: CellIndex): (n: set<int>)
    ensures i in n && |n| <= 5
  {
    var up := if i >= Columns then {i - Columns} else {};
    var down := if i + Columns < CellCount then {i + Columns} else {};
    var left := if i % Columns != 0 then {i - 1} else {};
    var right := if i % Columns != Columns - 1 then {i + 1} else {};
    {i} + up + down + left + right
  }

  /** `isValidMove` accepts exactly the target cells of the neighbourhood. */
  lemma ValidMoveIsNeighbourhood(from: CellIndex, to: CellIndex)
    ensures IsValidMove(from, to) <==> to in Neighbourhood(from)
  {
    Coordinates(from);
    Coordinates(to);
    if IsValidMove(from, to) {
      if Row(to) == Row(from) + 1 {
        assert to == from + Columns;
      } else if Row(to) + 1 == Row(from) {
        assert to == from - Columns;
      } else if Col(to) == Col(from) + 1 {
        assert to == from + 1;
      } else if Col(to) + 1 == Col(from) {
        assert to == from - 1;
      } else {
        assert to == from;
      }
    }
    if to in Neighbourhood(from) {
      if to == from - Columns {
        CoordinatesUnique(to, Row(from) - 1, Col(from));
      } else if to == from + Columns {
        CoordinatesUnique(to, Row(from) + 1, Col(from));
      } else if to == from - 1 && from % Columns != 0 {
        CoordinatesUnique(to, Row(from), Col(from) - 1);
      } else if to == from + 1 && from % Columns != Columns - 1 {
        CoordinatesUnique(to, Row(from), Col(from) + 1);
      }
    }
  }

  lemma Coordinates(i: CellIndex)
    ensures i == Columns * Row(i) + Col(i)
    ensures 0 <= Col(i) < Columns && 0 <= Row(i) < Rows
  {
  }

  lemma CoordinatesUnique(i: CellIndex, r: int, c: int)
    requires 0 <= c < Columns && i == Columns * r + c
    ensures Row(i) == r && Col(i) == c
  {
  }

  /** Moves are never diagonal, and the relation is symmetric. */
  lemma ValidMoveShape(a: CellIndex, b: CellIndex)
    ensures IsValidMove(a, b) ==> Row(a) == Row(b) || Col(a) == Col(b)
    ensures IsValidMove(a, b) <==> IsValidMove(b, a)
  {
  }

  /** The home areas are the two rows at each end, and they are disjoint. */
  lemma HomeAreas(i: CellIndex)
    ensures !(InHomeArea(1, i) && InHomeArea(2, i))
    ensures InHomeArea(1, i) <==> Row(i) <= 1
    ensures InHomeArea(2, i) <==> Row(i) >= 4
  {
  }
}
