/** The two participants of a game and the mark each one leaves on the grid. */
module Players {

  datatype Player = Human | AI

  /** The other participant. */
  function Opposite(p: Player): (q: Player)
    ensures q != p
  {
    match p
    case Human => AI
    case AI => Human
  }

  /** The character shown for a player's cells. */
  function Symbol(p: Player): (c: char)
    ensures c == 'X' || c == 'O'
  {
    match p
    case Human => 'X'
    case AI => 'O'
  }

  lemma OppositeIsInvolution(p: Player)
    ensures Opposite(Opposite(p)) == p
  {
  }

  lemma SymbolValues()
    ensures Symbol(Human) == 'X' && Symbol(AI) == 'O'
  {
  }

  lemma SymbolIsInjective(p: Player, q: Player)
    ensures Symbol(p) == Symbol(q) <==> p == q
  {
  }
}
