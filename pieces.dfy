/** The sixteen pieces made by `createPieces` and the combat rule of the
    drop handler. */
module Pieces {

  const RanksPerPlayer := 8
  const PieceCount := 16

  /** A piece, by its position in the list `createPieces` builds: the eight
      pieces of player 1 (ranks 0..7) followed by those of player 2. */
  type PieceId = p: int | 0 <= p < PieceCount

  function Owner(p: PieceId): int { p / RanksPerPlayer + 1 }

  function Rank(p: PieceId): int { p % RanksPerPlayer }

  /** The piece that `createPieces` makes for `player` and `rank`. */
  function PieceOf(player: int, rank: int): (p: PieceId)
    requires player == 1 || player == 2
    requires 0 <= rank < RanksPerPlayer
    ensures Owner(p) == player && Rank(p) == rank
  {
    (player - 1) * RanksPerPlayer + rank
  }

  /** Owner and rank identify a piece: each player owns exactly one piece
      of each rank 0..7, and nothing else exists. */
  lemma PieceIdentity(p: PieceId)
    ensures Owner(p) == 1 || Owner(p) == 2
    ensures 0 <= Rank(p) < RanksPerPlayer
    ensures PieceOf(Owner(p), Rank(p)) == p
  {
  }

  /** The combat condition: the attacker wins against an opposing
      defender when its rank is at least the defender's, or by the
      exception that rank 1 beats rank 7. */
  predicate AttackerWins(attacker: PieceId, defender: PieceId) {
    Owner(attacker) != Owner(defender) &&
    ((Rank(attacker) == 1 && Rank(defender) == 7) || Rank(attacker) >= Rank(defender))
  }

  /** The consequences of the combat condition the game relies on. */
  lemma CombatRules(a: PieceId, d: PieceId)
    ensures Owner(a) == Owner(d) ==> !AttackerWins(a, d)
    ensures Owner(a) != Owner(d) && Rank(a) == Rank(d) ==> AttackerWins(a, d)
    ensures Owner(a) != Owner(d) && Rank(a) == 1 && Rank(d) == 7 ==> AttackerWins(a, d)
    ensures AttackerWins(a, d) && Rank(a) < Rank(d) ==> Rank(a) == 1 && Rank(d) == 7
    ensures Owner(a) != Owner(d) && Rank(d) == 0 ==> AttackerWins(a, d)
    ensures Owner(a) != Owner(d) ==> AttackerWins(a, d) || AttackerWins(d, a)
  {
  }
}
