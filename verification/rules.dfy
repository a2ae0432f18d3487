/** The rules engine the search relies on, seen only through what it answers,
    and the engine's board as a position with a stack of saved positions. */
module Rules {
  import opened Chess

  /** The rules collaborator: legal moves of a position in its enumeration order,
      the position a move leads to, whether the game is over, the occupancy of
      the squares and the side to move. */
  datatype RulesEngine<!P> = RulesEngine(
    legal: P -> seq<Move>,
    play: (P, Move) -> P,
    over: P -> bool,
    board: P -> Board,
    turn: P -> Color)

  /** The mutable board: the current position and the positions saved by the
      moves pushed on top of the one the caller handed in. */
  datatype Game<P> = Game(position: P, saved: seq<P>)

  /** Plays a move, saving the position it was played from. */
  function Push<P>(r: RulesEngine<P>, g: Game<P>, m: Move): Game<P>
  {
    Game(r.play(g.position, m), g.saved + [g.position])
  }

  /** Takes back the last pushed move by restoring the saved position. */
  function Pop<P>(g: Game<P>): Game<P>
    requires |g.saved| > 0
  {
    Game(g.saved[|g.saved| - 1], g.saved[..|g.saved| - 1])
  }

  /** A pop takes back exactly the push before it. */
  lemma PopUndoesPush<P>(r: RulesEngine<P>, g: Game<P>, m: Move)
    ensures |Push(r, g, m).saved| > 0
    ensures Pop(Push(r, g, m)) == g
  {
  }
}
