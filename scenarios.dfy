/** Concrete games played on the model: each lemma follows a short
    sequence of drops from the fresh page and states where everything ends. */
module Scenarios {
  import opened Geometry
  import opened Pieces
  import opened Rules

  /** Player 1 deploys rank 3 in cell 4: accepted, player 2 to move. */
  lemma FirstPlacement()
    ensures var t := Drop(Fresh(), PieceOf(1, 3), 4);
      t.outcome == Placed && t.next.currentPlayer == 2 &&
      t.next.cells[4] == [PieceOf(1, 3)] && t.next.loc[PieceOf(1, 3)] == OnCell(4)
  {
  }

  /** Player 2 may deploy a piece of player 1 in player 1's home area: the
      setup branch never looks at whose turn it is. */
  lemma SetupIgnoresTurn()
    ensures var s := Drop(Fresh(), PieceOf(1, 0), 0).next;
      s.currentPlayer == 2 &&
      Drop(s, PieceOf(1, 5), 0).outcome == Placed &&
      Drop(s, PieceOf(1, 5), 0).next.cells[0] == [PieceOf(1, 0), PieceOf(1, 5)]
  {
  }

  /** Player 1 deploys rank 1 in cell 9 and player 2 rank 7 in cell 24;
      after the start each steps forward once (to 14 and 19), and rank 1
      then attacks rank 7 in the neighbouring cell: the ambush wins and
      the attacker moves in. */
  lemma Ambush()
    ensures var s0 := Drop(Fresh(), PieceOf(1, 1), 9).next;
      var s1 := StartGame(Drop(s0, PieceOf(2, 7), 24).next);
      var s2 := Drop(s1, PieceOf(1, 1), 14).next;
      var s3 := Drop(s2, PieceOf(2, 7), 19).next;
      var t := Drop(s3, PieceOf(1, 1), 19);
      t.outcome == Moved(Some(PieceOf(2, 7))) &&
      t.next.cells[19] == [PieceOf(1, 1)] && t.next.cells[14] == [] &&
      t.next.loc[PieceOf(2, 7)] == Detached && t.next.currentPlayer == 2
  {
    var s0 := Drop(Fresh(), PieceOf(1, 1), 9).next;
    assert s0.cells[9] == [PieceOf(1, 1)] && s0.currentPlayer == 2;
    var s1 := StartGame(Drop(s0, PieceOf(2, 7), 24).next);
    assert s1.cells[24] == [PieceOf(2, 7)] && s1.currentPlayer == 1;
    WithoutFirst([PieceOf(1, 1)]);
    var s2 := Drop(s1, PieceOf(1, 1), 14).next;
    assert s2.cells[14] == [PieceOf(1, 1)] && s2.cells[19] == [] && s2.currentPlayer == 2;
    WithoutFirst([PieceOf(2, 7)]);
    var s3 := Drop(s2, PieceOf(2, 7), 19).next;
    assert s3.cells[19] == [PieceOf(2, 7)] && s3.cells[14] == [PieceOf(1, 1)];
  }

  /** The same two pieces, with rank 2 of player 1 also deployed in cell
      0; after the start player 2 steps to cell 19, and rank 1 attacks it
      from cell 9, two rows away: the defender is removed, yet the
      attacker stays in cell 9 and player 1 is still to move. */
  lemma DistantCapture()
    ensures var s0 := Drop(Fresh(), PieceOf(1, 1), 9).next;
      var s1 := Drop(s0, PieceOf(2, 7), 24).next;
      var s2 := StartGame(Drop(s1, PieceOf(1, 2), 0).next);
      var s3 := Drop(s2, PieceOf(2, 7), 19).next;
      var t := Drop(s3, PieceOf(1, 1), 19);
      t.outcome == IllegalMove(Some(PieceOf(2, 7))) &&
      t.next.cells[19] == [] && t.next.cells[9] == [PieceOf(1, 1)] &&
      t.next.loc[PieceOf(2, 7)] == Detached && t.next.currentPlayer == 1
  {
    var s0 := Drop(Fresh(), PieceOf(1, 1), 9).next;
    assert s0.cells[9] == [PieceOf(1, 1)] && s0.cells[24] == [] && s0.currentPlayer == 2;
    var s1 := Drop(s0, PieceOf(2, 7), 24).next;
    assert s1.cells[24] == [PieceOf(2, 7)] && s1.cells[9] == [PieceOf(1, 1)] && s1.currentPlayer == 1;
    var s2 := StartGame(Drop(s1, PieceOf(1, 2), 0).next);
    assert s2.cells[24] == [PieceOf(2, 7)] && s2.cells[9] == [PieceOf(1, 1)];
    assert s2.currentPlayer == 2 && s2.cells[19] == [] && s2.loc[PieceOf(2, 7)] == OnCell(24);
    WithoutFirst([PieceOf(2, 7)]);
    var s3 := Drop(s2, PieceOf(2, 7), 19).next;
    assert s3.cells[19] == [PieceOf(2, 7)] && s3.currentPlayer == 1;
    assert s3.cells[9] == [PieceOf(1, 1)] && s3.loc[PieceOf(1, 1)] == OnCell(9);
    assert !IsValidMove(9, 19);
    var r := RemoveElement(s3, PieceOf(2, 7));
    assert Drop(s3, PieceOf(1, 1), 19) == Transition(r, IllegalMove(Some(PieceOf(2, 7))));
    assert r.cells[19] == [] && r.cells[9] == [PieceOf(1, 1)];
  }
}
