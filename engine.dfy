/** The page's mutable state as an object: the board's cells with their
    children, the parent of every piece, and the two closure variables
    `currentPlayer` and `isInitialSetup`, changed in place by the drop
    handler, `resetBoard` and the start button. */
module Engine {
  import opened Geometry
  import opened Pieces
  import opened Rules

  class Game {
    /** Children of each of the 30 board cells, in child order. */
    const cells: array<seq<PieceId>>
    /** Parent of each of the 16 pieces. */
    const loc: array<Location>
    var currentPlayer: int
    var isInitialSetup: bool

    /** The state as a value, for the specification functions of Rules. */
    function Abstract(): State
      reads this, cells, loc
    {
      State(cells[..], loc[..], currentPlayer, isInitialSetup)
    }

    ghost predicate Valid()
      reads this, cells, loc
    {
      Consistent(Abstract())
    }

    /** The page load: the closing `resetBoard()` of the script. */
    constructor ()
      ensures Valid() && Abstract() == Fresh()
      ensures fresh(cells) && fresh(loc)
    {
      cells := new seq<PieceId>[CellCount];
      loc := new Location[PieceCount];
      new;
      ResetBoard();
    }

    /** `resetBoard`: empty cells (`createBoard`), every piece back in the
        pool (`createPieces`), player 1 to move, setup phase. */
    method ResetBoard()
      requires cells.Length == CellCount && loc.Length == PieceCount
      modifies this, cells, loc
      ensures Valid() && Abstract() == Fresh()
    {
      for i := 0 to CellCount
        invariant forall j :: 0 <= j < i ==> cells[j] == []
      {
        cells[i] := [];
      }
      for p := 0 to PieceCount
        invariant forall j :: 0 <= j < p ==> loc[j] == Pool
        invariant forall j :: 0 <= j < CellCount ==> cells[j] == []
      {
        loc[p] := Pool;
      }
      currentPlayer := 1;
      isInitialSetup := true;
      FreshConsistent();
      assert cells[..] == Fresh().cells;
      assert loc[..] == Fresh().loc;
    }

    /** The start button: leaves setup, touching nothing else. */
    method Start()
      modifies this
      requires Valid()
      ensures Valid()
      ensures Abstract() == StartGame(old(Abstract()))
    {
      isInitialSetup := false;
    }

    /** `cell.appendChild(piece)` on the page. */
    method AppendChildOf(p: PieceId, c: CellIndex)
      requires cells.Length == CellCount && loc.Length == PieceCount
      modifies cells, loc
      ensures Abstract() == AppendChild(old(Abstract()), p, c)
    {
      ghost var s := Abstract();
      if loc[p].OnCell? {
        var i := loc[p].cell;
        cells[i] := Without(cells[i], p);
      }
      cells[c] := cells[c] + [p];
      loc[p] := OnCell(c);
      assert cells[..] == AppendChild(s, p, c).cells;
    }

    /** `piece.remove()` on the page. */
    method Remove(p: PieceId)
      requires cells.Length == CellCount && loc.Length == PieceCount
      modifies cells, loc
      ensures Abstract() == RemoveElement(old(Abstract()), p)
    {
      ghost var s := Abstract();
      if loc[p].OnCell? {
        var i := loc[p].cell;
        cells[i] := Without(cells[i], p);
      }
      loc[p] := Detached;
      assert cells[..] == RemoveElement(s, p).cells;
    }

    /** The drop handler, piece `p` dropped on cell `c`. A captured piece is
        no longer on the page and cannot be dragged. */
    method HandleDrop(p: PieceId, c: CellIndex) returns (outcome: Outcome)
      requires Valid() && loc[p] != Detached
      modifies this, cells, loc
      ensures Valid()
      ensures Transition(Abstract(), outcome) == Drop(old(Abstract()), p, c)
    {
      if isInitialSetup {
        outcome := PlacePiece(p, c);
      } else {
        outcome := MovePiece(p, c);
      }
    }

    /** The setup branch of the drop handler. */
    method PlacePiece(p: PieceId, c: CellIndex) returns (outcome: Outcome)
      requires Valid() && isInitialSetup
      modifies this, cells, loc
      ensures Valid()
      ensures Transition(Abstract(), outcome) == Place(old(Abstract()), p, c)
    {
      ghost var s := Abstract();
      DropConsistent(s, p, c);
      var validCell := InHomeArea(Owner(p), c);
      if validCell {
        AppendChildOf(p, c);
        currentPlayer := Flip(currentPlayer);
        outcome := Placed;
      } else {
        outcome := OutsideHomeArea;
      }
    }

    /** The play branch of the drop handler: turn check, combat with the
        first piece in the target cell, then the geometry check. */
    method MovePiece(p: PieceId, c: CellIndex) returns (outcome: Outcome)
      requires Valid() && !isInitialSetup
      modifies this, cells, loc
      ensures Valid()
      ensures Transition(Abstract(), outcome) == Move(old(Abstract()), p, c)
    {
      ghost var s := Abstract();
      DropConsistent(s, p, c);
      var player := Owner(p);
      if player != currentPlayer {
        return NotYourTurn;
      }
      var captured := None;
      if cells[c] != [] {
        var targetPiece := cells[c][0];
        if AttackerWins(p, targetPiece) {
          Remove(targetPiece);
          if Rank(targetPiece) == 0 {
            var winner := currentPlayer;
            ResetBoard();
            return FlagCaptured(winner);
          }
          captured := Some(targetPiece);
        } else {
          return AttackRefused;
        }
      }
      assert Abstract() == (if captured.None? then s else RemoveElement(s, captured.value));
      if ValidMoveFrom(loc[p], c) {
        AppendChildOf(p, c);
        currentPlayer := Flip(currentPlayer);
        outcome := Moved(captured);
      } else {
        outcome := IllegalMove(captured);
      }
    }
  }
}
