/** The state of a game as the page holds it and the transitions of the
    drop handler, the start button and `resetBoard`, as functions on that
    state. */
module Rules {
  import opened Geometry
  import opened Pieces

  datatype Option<T> = None | Some(value: T)

  /** Where a piece element sits: in the pieces container (not yet
      deployed), in a board cell, or detached from the page after being
      captured. */
  datatype Location = Pool | OnCell(cell: CellIndex) | Detached

  /** `cells[i]` lists the pieces inside cell `i` in child order (so the
      piece `querySelector` finds is `cells[i][0]`); `loc[p]` is the parent
      of piece `p`. */
  datatype State = State(
    cells: seq<seq<PieceId>>,
    loc: seq<Location>,
    currentPlayer: int,
    isInitialSetup: bool)

  /** What a drop, or a press of the start button, led to. */
  datatype Outcome =
    | Placed              // setup: the piece went into the cell, turn flipped
    | OutsideHomeArea     // setup: silently ignored
    | NotYourTurn         // play: "not your turn" alert
    | AttackRefused       // play: friendly target or lost fight
    | FlagCaptured(winner: int)            // play: game won and reset
    | Moved(captured: Option<PieceId>)     // play: piece moved, turn flipped
    | IllegalMove(captured: Option<PieceId>) // play: geometry refused the move

  datatype Transition = Transition(next: State, outcome: Outcome)

  predicate WellShaped(s: State) {
    |s.cells| == CellCount && |s.loc| == PieceCount
  }

  predicate NoDuplicates(q: seq<PieceId>) {
    forall j, k :: 0 <= j < k < |q| ==> q[j] != q[k]
  }

  /** The invariant of the page: children lists and parents agree, no
      element is a child twice, the turn is 1 or 2, and nothing has been
      captured while the game is still in setup. */
  ghost predicate Consistent(s: State) {
    WellShaped(s) &&
    (s.currentPlayer == 1 || s.currentPlayer == 2) &&
    (forall i: CellIndex :: NoDuplicates(s.cells[i])) &&
    (forall p: PieceId, i: CellIndex :: p in s.cells[i] <==> s.loc[p] == OnCell(i)) &&
    (s.isInitialSetup ==> forall p: PieceId :: s.loc[p] != Detached)
  }

  function Flip(player: int): (other: int)
    requires player == 1 || player == 2
    ensures (other == 1 || other == 2) && other != player
  {
    if player == 1 then 2 else 1
  }

  /** The freshly built page: every cell empty, every piece in the pool,
      player 1 to move, setup phase. */
  function Fresh(): (s: State)
    ensures WellShaped(s)
  {
    State(seq(CellCount, _ => []), seq(PieceCount, _ => Pool), 1, true)
  }

  /** `q` without `p`: what removing a child does to a children list. */
  function Without(q: seq<PieceId>, p: PieceId): (r: seq<PieceId>)
    ensures forall x :: x in r <==> x in q && x != p
    ensures NoDuplicates(q) ==> NoDuplicates(r)
  {
    if q == [] then []
    else if q[0] == p then Without(q[1..], p)
    else
      var rest := Without(q[1..], p);
      assert NoDuplicates(q) ==> q[0] !in q[1..] && NoDuplicates(q[1..]);
      [q[0]] + rest
  }

  /** Children lists after `p` is taken out of its current parent. */
  function Unlinked(s: State, p: PieceId): (cells: seq<seq<PieceId>>)
    requires WellShaped(s)
    ensures |cells| == CellCount
  {
    match s.loc[p]
    case OnCell(i) => s.cells[i := Without(s.cells[i], p)]
    case _ => s.cells
  }

  /** `cell.appendChild(piece)`: the piece leaves its parent and becomes the
      last child of `c`. */
  function AppendChild(s: State, p: PieceId, c: CellIndex): (t: State)
    requires WellShaped(s)
    ensures WellShaped(t)
  {
    var cells := Unlinked(s, p);
    s.(cells := cells[c := cells[c] + [p]], loc := s.loc[p := OnCell(c)])
  }

  /** `piece.remove()`: the piece leaves the page. */
  function RemoveElement(s: State, p: PieceId): (t: State)
    requires WellShaped(s)
    ensures WellShaped(t)
  {
    s.(cells := Unlinked(s, p), loc := s.loc[p := Detached])
  }

  /** `isValidMove` for a piece at `from`; a piece still in the pool has
      no cell index, so the comparison fails. */
  predicate ValidMoveFrom(from: Location, to: CellIndex) {
    from.OnCell? && IsValidMove(from.cell, to)
  }

  /** The setup branch of the drop handler. */
  function Place(s: State, p: PieceId, c: CellIndex): Transition
    requires WellShaped(s) && (s.currentPlayer == 1 || s.currentPlayer == 2)
  {
    if InHomeArea(Owner(p), c) then
      Transition(AppendChild(s, p, c).(currentPlayer := Flip(s.currentPlayer)), Placed)
    else
      Transition(s, OutsideHomeArea)
  }

  /** The last step of the play branch: the geometry check, made after
      any capture. */
  function Advance(s: State, p: PieceId, c: CellIndex, captured: Option<PieceId>): Transition
    requires WellShaped(s) && (s.currentPlayer == 1 || s.currentPlayer == 2)
  {
    if ValidMoveFrom(s.loc[p], c) then
      Transition(AppendChild(s, p, c).(currentPlayer := Flip(s.currentPlayer)), Moved(captured))
    else
      Transition(s, IllegalMove(captured))
  }

  /** The play branch of the drop handler. */
  function Move(s: State, p: PieceId, c: CellIndex): Transition
    requires WellShaped(s) && (s.currentPlayer == 1 || s.currentPlayer == 2)
  {
    if Owner(p) != s.currentPlayer then
      Transition(s, NotYourTurn)
    else if s.cells[c] == [] then
      Advance(s, p, c, None)
    else
      var defender := s.cells[c][0];
      if !AttackerWins(p, defender) then
        Transition(s, AttackRefused)
      else if Rank(defender) == 0 then
        Transition(Fresh(), FlagCaptured(s.currentPlayer))
      else
        Advance(RemoveElement(s, defender), p, c, Some(defender))
  }

  /** The drop handler: piece `p` dropped on cell `c`. */
  function Drop(s: State, p: PieceId, c: CellIndex): Transition
    requires WellShaped(s) && (s.currentPlayer == 1 || s.currentPlayer == 2)
  {
    if s.isInitialSetup then Place(s, p, c) else Move(s, p, c)
  }

  /** The start button. */
  function StartGame(s: State): State {
    s.(isInitialSetup := false)
  }

  // ---------------------------------------------------------------------
  // The invariant

  lemma FreshConsistent()
    ensures Consistent(Fresh())
    ensures forall p: PieceId :: Fresh().loc[p] == Pool
    ensures forall i: CellIndex :: Fresh().cells[i] == []
  {
  }

  lemma {:induction false} WithoutAbsent(q: seq<PieceId>, p: PieceId)
    requires p !in q
    ensures Without(q, p) == q
  {
    if q != [] {
      WithoutAbsent(q[1..], p);
      assert q == [q[0]] + q[1..];
    }
  }

  /** Removing the first child of a list without repeats leaves its tail. */
  lemma WithoutFirst(q: seq<PieceId>)
    requires q != [] && NoDuplicates(q)
    ensures Without(q, q[0]) == q[1..]
  {
    assert q[0] !in q[1..];
    WithoutAbsent(q[1..], q[0]);
  }

  /** Removing any child of a list without repeats leaves the children
      before and after it, in order. */
  lemma {:induction false} WithoutAt(q: seq<PieceId>, k: nat)
    requires NoDuplicates(q) && k < |q|
    ensures Without(q, q[k]) == q[..k] + q[k+1..]
  {
    if k == 0 {
      WithoutFirst(q);
    } else {
      assert q[0] != q[k];
      assert NoDuplicates(q[1..]);
      assert Without(q, q[k]) == [q[0]] + Without(q[1..], q[k]);
      assert q[1..][k - 1] == q[k];
      WithoutAt(q[1..], k - 1);
      assert q[..k] == [q[0]] + q[1..][..k - 1];
      assert q[k+1..] == q[1..][k..];
    }
  }

  lemma UnlinkedSpec(s: State, p: PieceId)
    requires Consistent(s)
    ensures forall i: CellIndex :: p !in Unlinked(s, p)[i]
    ensures forall i: CellIndex :: NoDuplicates(Unlinked(s, p)[i])
    ensures forall q: PieceId, i: CellIndex :: q != p ==> (q in Unlinked(s, p)[i] <==> q in s.cells[i])
  {
  }

  lemma AppendChildConsistent(s: State, p: PieceId, c: CellIndex)
    requires Consistent(s)
    requires s.isInitialSetup ==> s.loc[p] != Detached
    ensures Consistent(AppendChild(s, p, c))
  {
    UnlinkedSpec(s, p);
    var t := AppendChild(s, p, c);
    forall i: CellIndex
      ensures NoDuplicates(t.cells[i])
    {
      if i == c {
        assert t.cells[i] == Unlinked(s, p)[c] + [p];
      }
    }
  }

  lemma RemoveElementConsistent(s: State, p: PieceId)
    requires Consistent(s) && !s.isInitialSetup
    ensures Consistent(RemoveElement(s, p))
  {
    UnlinkedSpec(s, p);
  }

  /** Every drop keeps the page consistent. */
  lemma DropConsistent(s: State, p: PieceId, c: CellIndex)
    requires Consistent(s)
    ensures Consistent(Drop(s, p, c).next)
  {
    if s.isInitialSetup {
      if InHomeArea(Owner(p), c) {
        AppendChildConsistent(s, p, c);
      }
    } else if Owner(p) == s.currentPlayer && s.cells[c] != [] {
      var defender := s.cells[c][0];
      if AttackerWins(p, defender) {
        if Rank(defender) == 0 {
          FreshConsistent();
        } else {
          RemoveElementConsistent(s, defender);
          AppendChildConsistent(RemoveElement(s, defender), p, c);
        }
      }
    } else if Owner(p) == s.currentPlayer {
      AppendChildConsistent(s, p, c);
    }
  }

  lemma StartConsistent(s: State)
    requires Consistent(s)
    ensures Consistent(StartGame(s))
    ensures StartGame(s).cells == s.cells && StartGame(s).loc == s.loc
    ensures StartGame(s).currentPlayer == s.currentPlayer && !StartGame(s).isInitialSetup
  {
  }

  /** A piece is in at most one cell, and in a cell at most once. */
  lemma OneCellPerPiece(s: State, p: PieceId, i: CellIndex, j: CellIndex)
    requires Consistent(s)
    requires p in s.cells[i] && p in s.cells[j]
    ensures i == j
    ensures multiset(s.cells[i])[p] == 1
  {
    assert s.loc[p] == OnCell(i) && s.loc[p] == OnCell(j);
    var k :| 0 <= k < |s.cells[i]| && s.cells[i][k] == p;
    assert s.cells[i] == s.cells[i][..k] + [p] + s.cells[i][k+1..];
    NotInPrefixOrSuffix(s.cells[i], k);
  }

  lemma NotInPrefixOrSuffix(q: seq<PieceId>, k: nat)
    requires NoDuplicates(q) && k < |q|
    ensures q[k] !in q[..k] && q[k] !in q[k+1..]
  {
  }

  // ---------------------------------------------------------------------
  // Setup phase

  /** During setup a drop is accepted exactly when the cell is in the home
      area of the piece's owner, whoever's turn it is and whatever the cell
      holds; acceptance moves the piece to the end of the cell and flips the
      turn, and a refused drop changes nothing. */
  lemma SetupDrop(s: State, p: PieceId, c: CellIndex)
    requires Consistent(s) && s.isInitialSetup
    ensures var t := Drop(s, p, c);
      (t.outcome == Placed <==> InHomeArea(Owner(p), c)) &&
      (t.outcome == Placed ==>
        t.next.loc[p] == OnCell(c) && t.next.cells[c][|t.next.cells[c]| - 1] == p &&
        t.next.currentPlayer != s.currentPlayer && t.next.isInitialSetup &&
        (forall q: PieceId :: q != p ==> t.next.loc[q] == s.loc[q]) &&
        t.next.cells[c] ==
          (if s.loc[p] == OnCell(c) then Without(s.cells[c], p) else s.cells[c]) + [p] &&
        (forall i: CellIndex :: i != c ==> (t.next.cells[i] ==
          (if s.loc[p] == OnCell(i) then Without(s.cells[i], p) else s.cells[i])))) &&
      (t.outcome != Placed ==> t.next == s && t.outcome == OutsideHomeArea)
  {
  }

  // ---------------------------------------------------------------------
  // Play phase

  /** A drop of a piece of the player not to move changes nothing. */
  lemma WrongTurn(s: State, p: PieceId, c: CellIndex)
    requires Consistent(s) && !s.isInitialSetup
    requires Owner(p) != s.currentPlayer
    ensures Drop(s, p, c) == Transition(s, NotYourTurn)
  {
  }

  /** Attacking a friendly piece, or losing the fight, changes nothing. */
  lemma AttackRefusedUnchanged(s: State, p: PieceId, c: CellIndex)
    requires Consistent(s) && !s.isInitialSetup
    requires Owner(p) == s.currentPlayer && s.cells[c] != []
    requires !AttackerWins(p, s.cells[c][0])
    ensures Drop(s, p, c) == Transition(s, AttackRefused)
  {
  }

  /** Capturing the flag rebuilds the fresh game and names the player to
      move, who owns the attacker, as winner. */
  lemma FlagCaptureResets(s: State, p: PieceId, c: CellIndex)
    requires Consistent(s) && !s.isInitialSetup
    requires Owner(p) == s.currentPlayer && s.cells[c] != []
    requires Owner(s.cells[c][0]) != Owner(p) && Rank(s.cells[c][0]) == 0
    ensures Drop(s, p, c) == Transition(Fresh(), FlagCaptured(Owner(p)))
    ensures forall q: PieceId :: Drop(s, p, c).next.loc[q] == Pool
    ensures Drop(s, p, c).next.currentPlayer == 1 && Drop(s, p, c).next.isInitialSetup
  {
    CombatRules(p, s.cells[c][0]);
  }

  /** A won fight whose move fails the geometry check (a distant cell, or an
      attacker still in the pool) removes the defender from the page while
      the attacker stays where it was and the turn does not change. */
  lemma CaptureWithoutAdvance(s: State, p: PieceId, c: CellIndex)
    requires Consistent(s) && !s.isInitialSetup
    requires Owner(p) == s.currentPlayer && s.cells[c] != []
    requires AttackerWins(p, s.cells[c][0]) && Rank(s.cells[c][0]) != 0
    requires !ValidMoveFrom(s.loc[p], c)
    ensures var d := s.cells[c][0]; var t := Drop(s, p, c);
      t.outcome == IllegalMove(Some(d)) &&
      t.next.loc[d] == Detached && t.next.cells[c] == s.cells[c][1..] &&
      t.next.loc[p] == s.loc[p] && t.next.currentPlayer == s.currentPlayer &&
      !t.next.isInitialSetup &&
      (forall q: PieceId :: q != d ==> t.next.loc[q] == s.loc[q]) &&
      (forall i: CellIndex :: i != c ==> t.next.cells[i] == s.cells[i])
  {
    var d := s.cells[c][0];
    assert s.loc[d] == OnCell(c);
    WithoutFirst(s.cells[c]);
  }

  /** An accepted move puts the attacker last in the target cell, which is
      its own cell or a neighbour of it, flips the turn, and moves nothing
      else but the defender it captured, if any, off the page. */
  lemma SuccessfulMove(s: State, p: PieceId, c: CellIndex)
    requires Consistent(s) && !s.isInitialSetup
    requires Drop(s, p, c).outcome.Moved?
    ensures var t := Drop(s, p, c);
      s.loc[p].OnCell? && c in Neighbourhood(s.loc[p].cell) &&
      Owner(p) == s.currentPlayer &&
      t.next.loc[p] == OnCell(c) && t.next.cells[c][|t.next.cells[c]| - 1] == p &&
      t.next.currentPlayer == Flip(s.currentPlayer) && !t.next.isInitialSetup &&
      (t.outcome.captured.None? <==> s.cells[c] == []) &&
      (t.outcome.captured.Some? ==>
        t.outcome.captured.value == s.cells[c][0] &&
        AttackerWins(p, s.cells[c][0]) && t.next.loc[s.cells[c][0]] == Detached) &&
      (forall q: PieceId :: q != p && Some(q) != t.outcome.captured ==> t.next.loc[q] == s.loc[q])
  {
    ValidMoveIsNeighbourhood(s.loc[p].cell, c);
    if s.cells[c] != [] {
      var d := s.cells[c][0];
      assert d != p by {
        CombatRules(p, d);
      }
      var r := RemoveElement(s, d);
      assert r.loc[p] == s.loc[p];
      assert Drop(s, p, c) == Advance(r, p, c, Some(d));
    } else {
      assert Drop(s, p, c) == Advance(s, p, c, None);
    }
  }

  /** After an accepted move every cell keeps its other children in order:
      the target cell loses the defender it had first, if any, and gains the
      attacker at the end; the cell the attacker left loses just the
      attacker; every other cell is unchanged. */
  lemma SuccessfulMoveKeepsOrder(s: State, p: PieceId, c: CellIndex)
    requires Consistent(s) && !s.isInitialSetup
    requires Drop(s, p, c).outcome.Moved?
    ensures var t := Drop(s, p, c);
      var rest := if s.cells[c] == [] then [] else s.cells[c][1..];
      t.next.cells[c] == (if s.loc[p] == OnCell(c) then Without(rest, p) else rest) + [p] &&
      (forall i: CellIndex :: i != c ==> (t.next.cells[i] ==
        (if s.loc[p] == OnCell(i) then Without(s.cells[i], p) else s.cells[i])))
  {
    if s.cells[c] != [] {
      var d := s.cells[c][0];
      assert d != p by {
        CombatRules(p, d);
      }
      assert s.loc[d] == OnCell(c);
      WithoutFirst(s.cells[c]);
      var r := RemoveElement(s, d);
      assert r.cells == s.cells[c := s.cells[c][1..]];
      assert r.loc[p] == s.loc[p];
      assert Drop(s, p, c).next == AppendChild(r, p, c).(currentPlayer := Flip(s.currentPlayer));
    } else {
      assert Drop(s, p, c).next == AppendChild(s, p, c).(currentPlayer := Flip(s.currentPlayer));
    }
  }

  /** The drop handler in one statement: which outcome each situation
      leads to. */
  lemma DropOutcome(s: State, p: PieceId, c: CellIndex)
    requires Consistent(s) && !s.isInitialSetup && Owner(p) == s.currentPlayer
    ensures var o := Drop(s, p, c).outcome;
      (o == AttackRefused <==> s.cells[c] != [] && !AttackerWins(p, s.cells[c][0])) &&
      (o.FlagCaptured? <==> s.cells[c] != [] && AttackerWins(p, s.cells[c][0]) && Rank(s.cells[c][0]) == 0) &&
      (o.Moved? <==> (ValidMoveFrom(s.loc[p], c) &&
        (s.cells[c] == [] || (AttackerWins(p, s.cells[c][0]) && Rank(s.cells[c][0]) != 0)))) &&
      (o.IllegalMove? <==> (!ValidMoveFrom(s.loc[p], c) &&
        (s.cells[c] == [] || (AttackerWins(p, s.cells[c][0]) && Rank(s.cells[c][0]) != 0))))
  {
    if s.cells[c] != [] && AttackerWins(p, s.cells[c][0]) && Rank(s.cells[c][0]) != 0 {
      var d := s.cells[c][0];
      assert d != p by {
        CombatRules(p, d);
      }
      assert RemoveElement(s, d).loc[p] == s.loc[p];
    }
  }
}
