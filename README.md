# Hidden-rank capture game: rules of the drop handler

This project models the rules engine of a two-player browser game played on a
5 x 6 board. Each player owns eight pieces of ranks 0..7, where rank 0 is the
flag. Players first deploy their pieces in their home rows. Then they drag
pieces one step at a time, and a piece dropped on an opposing piece fights it
by rank. All the logic lives in the drop handler, `isValidMove`,
`resetBoard`, `createPieces` and the start button of `script.js`. The model
keeps the page state those functions change: which pieces each board cell
holds, the parent of every piece, `currentPlayer` and `isInitialSetup`.

Layout:

- `geometry.dfy` (module `Geometry`): the 30 cell indices, the home areas,
  `isValidMove` and a second, independent description of it as a
  neighbourhood.
- `pieces.dfy` (module `Pieces`): the 16 pieces as ids 0..15, with owner
  `p / 8 + 1` and rank `p % 8` (the order of the list `createPieces` builds),
  and the combat condition.
- `rules.dfy` (module `Rules`): the page state as a value `State`, the
  page invariant `Consistent`, each handler as a function from state to
  `Transition` (next state and `Outcome`), and the lemmas about them.
- `engine.dfy` (module `Engine`): class `Game`, whose methods change the
  cell array, the parent array and the two flags step by step, as the
  handlers do. Each method is proved equal to the matching function of
  `Rules`. The handlers (the constructor, `ResetBoard`, `Start`,
  `HandleDrop`, `PlacePiece` and `MovePiece`) also keep `Valid()`. The two
  page primitives `AppendChildOf` and `Remove` do not mention `Valid()` in
  their own contracts. Instead, `AppendChildConsistent` and
  `RemoveElementConsistent` in `Rules` state that the functions they are
  proved equal to keep the invariant.
- `scenarios.dfy` (module `Scenarios`): short concrete games.

How the page is modelled:

- A cell holds a sequence of pieces in child order. The setup phase never
  checks whether a cell is occupied, so two pieces can share a cell.
  `cell.appendChild` moves a piece to the end of that sequence.
  `cell.querySelector('.piece')` reads the first piece of the sequence.
- A piece is in the pool (the pieces container), in one cell, or
  `Detached`. `Detached` is where `targetPiece.remove()` leaves a captured
  piece.
- Outcomes replace the alerts:
  - `NotYourTurn`: the "not your turn" alert.
  - `AttackRefused` and `IllegalMove`: the two "invalid move" alerts.
  - `FlagCaptured(winner)`: the "player N wins" alert.
  - `OutsideHomeArea`: the silent refusal of the setup phase.

Points where the code behaves differently from what a reader of the game's
rules might expect, all kept as written:

- There is no finished phase. Capturing a flag resets the game at once to
  the fresh state: setup, player 1 to move, every piece in the pool. The
  winner reported is `currentPlayer`, which is always the attacker's owner.
- Setup placement checks only the home area of the dropped piece's owner.
  It does not check whose turn it is, whether the cell is occupied, or
  whether the piece is already on the board. Every accepted drop flips the
  turn.
- In play, combat is resolved before the geometry check. A won fight
  against a distant cell, or by a piece still in the pool, removes the
  defender. The attacker stays where it was and the turn does not flip.
- `isValidMove` also accepts a cell's own index (row and column
  difference both 0). This matters only when a piece sits under another one
  in a shared cell.
- The start button does not require every piece to be deployed.

## Model

| member | source | states |
|---|---|---|
| `Geometry.ValidMoveIsNeighbourhood` | script.js:125-135 | `isValidMove(from, to)` holds exactly when `to` is `from` itself or its up, down, left or right neighbour inside the 5 x 6 grid |
| `Geometry.ValidMoveShape` | script.js:130-134 | an accepted move never changes both row and column (no diagonals), and the relation is symmetric |
| `Geometry.HomeAreas` | script.js:59 | player 1's home area is rows 0-1 and player 2's is rows 4-5; no cell is in both |
| `Pieces.PieceOf` | script.js:109-112 | for each player 1 or 2 and rank 0..7 there is a piece with that owner and rank |
| `Pieces.PieceIdentity` | script.js:109-112 | every piece has owner 1 or 2 and rank 0..7, and owner plus rank identify it (a round trip through `PieceOf`) |
| `Pieces.CombatRules` | script.js:79-80 | a piece never beats its own side; equal ranks go to the attacker; rank 1 beats rank 7; a lower rank wins only by that exception; every opposing attacker takes a flag; of two opposing pieces, at least one wins when it attacks the other |
| `Rules.Flip` | script.js:64 | the turn passes to the other of players 1 and 2 |
| `Rules.Without` | script.js:81 | removing a child from a cell's list removes exactly that piece and keeps the list free of repeats |
| `Rules.WithoutFirst` | script.js:74-81 | removing the piece `querySelector` found leaves the rest of the cell in order |
| `Rules.WithoutAt` | script.js:62 | removing any child of a cell, as `appendChild` does to the cell a piece leaves, keeps the children before and after it in order |
| `Rules.FreshConsistent` | script.js:142-149 | the rebuilt page has every cell empty and every piece in the pool, and satisfies the page invariant |
| `Rules.DropConsistent` | script.js:50-103 | every drop keeps the page invariant: children lists and parents agree, no piece is in two cells or twice in one, the turn stays 1 or 2, and nothing is captured during setup |
| `Rules.StartConsistent` | script.js:165-168 | the start button ends setup and leaves the board, the parents and `currentPlayer` unchanged |
| `Rules.OneCellPerPiece` | script.js:62 | a piece is in at most one cell, and only once there |
| `Rules.SetupDrop` | script.js:57-66 | during setup a drop is accepted iff the cell is in the home area of the piece's owner; acceptance makes the piece the cell's last child after the cell's other children in their order, removes it from the cell it left with the rest of that cell in order, leaves every other cell as it was, flips the turn and moves no other piece; a refused drop changes nothing |
| `Rules.WrongTurn` | script.js:69-72 | during play, a drop of a piece whose owner is not `currentPlayer` changes nothing |
| `Rules.AttackRefusedUnchanged` | script.js:74-90 | during play, a drop on a cell whose first piece the attacker does not beat (a friendly piece of any rank, or an opposing piece that wins the fight) changes nothing |
| `Rules.FlagCaptureResets` | script.js:82-85 | winning a fight against a flag returns the fresh game (all pieces in the pool, player 1, setup) and reports the attacker's owner as winner |
| `Rules.CaptureWithoutAdvance` | script.js:79-100 | a won fight that fails the geometry check removes the defender from the page and the target cell, while the attacker, every other piece and cell, the turn and the play phase stay as they were |
| `Rules.SuccessfulMove` | script.js:93-97 | an accepted move was made by the player to move, to the attacker's own cell or a neighbour; it makes the attacker the target's last child and flips the turn; it captured iff the cell was occupied, then the first piece there, which the attacker beats; no other piece moves |
| `Rules.SuccessfulMoveKeepsOrder` | script.js:81-97 | after an accepted move, the target cell holds its remaining children in order (without the defender it had first, if any) followed by the attacker; the cell the attacker left loses only the attacker, with the rest in order; every other cell is unchanged |
| `Rules.DropOutcome` | script.js:68-100 | for the player to move, the outcome of a drop in each case: refused iff the fight is lost or friendly, flag capture iff a flag is beaten, moved or illegal depending only on the geometry check otherwise |
| `Engine.Game.constructor` | script.js:174 | the page starts in the fresh state, which satisfies the invariant |
| `Engine.Game.ResetBoard` | script.js:142-149 | the loops of `createBoard` and `createPieces` and the two assignments leave exactly the fresh state |
| `Engine.Game.Start` | script.js:165-168 | the new state is the old one with the setup flag cleared |
| `Engine.Game.AppendChildOf` | script.js:62 | the page after `appendChild` equals `Rules.AppendChild` of the page before |
| `Engine.Game.Remove` | script.js:81 | the page after `remove` equals `Rules.RemoveElement` of the page before |
| `Engine.Game.HandleDrop` | script.js:50-103 | the new page and the outcome are those of `Rules.Drop`, and the page invariant is kept |
| `Engine.Game.PlacePiece` | script.js:57-66 | the setup branch, step by step, ends in `Rules.Place` of the old page and keeps the page invariant |
| `Engine.Game.MovePiece` | script.js:68-100 | the play branch, step by step, ends in `Rules.Move` of the old page and keeps the page invariant |
| `Scenarios.FirstPlacement` | script.js:57-66 | on the fresh page, player 1 deploying rank 3 in cell 4 is accepted and player 2 is to move |
| `Scenarios.SetupIgnoresTurn` | script.js:57-66 | with player 2 to move, a piece of player 1 can still be deployed, and on top of another piece |
| `Scenarios.Ambush` | script.js:68-100 | after two deployments and one step each, rank 1 attacks an adjacent rank 7, captures it and moves in |
| `Scenarios.DistantCapture` | script.js:79-100 | rank 1 attacking a rank 7 two rows away removes it, stays put, and player 1 is still to move |

## Left out

- Building the page: the column and row labels, the cell and piece
  elements and their CSS classes. The model keeps only what this produces:
  30 empty cells and 16 pieces in the pool.
- Drag wiring: the `dragover`, `dragstart` and `dragend` listeners and the
  `draggedPiece` variable. `HandleDrop` takes the dragged piece and the
  target cell directly, so the "nothing is being dragged" case is not
  modelled.
- Alerts, the status message and `updatePlayerTurnIndicator`. These are
  display only; the `Outcome` value stands in for the alerts.
- `parseInt` of the `data-` attributes. Indices, owners and ranks are
  integers in the model. An unplaced piece has no cell index, and the
  source's `NaN` comparison fails; `ValidMoveFrom` is false for the pool
  for the same reason.
- `Engine.Game.HandleDrop` requires the dragged piece not to be
  `Detached`. A captured piece is no longer on the page, so it cannot be
  dragged. In the source, `isValidMove` would fail on its missing parent.
- The order of the pieces left in the pool. It is display only: pieces never
  return to the pool except when the whole pool is rebuilt.
- Piece identity across resets. `resetBoard` makes new piece elements; the
  model reuses ids 0..15, which have the same owners and ranks.
