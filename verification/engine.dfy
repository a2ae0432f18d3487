/** The engine's turn: pick a root move at the fixed depth and auto-promote a
    pawn that reaches the last rank to a queen. */
module Engine {
  import opened Options
  import opened Chess
  import opened Rules
  import opened SearchBounds
  import opened Root
  import History

  /** The depth the engine searches to. */
  const AiDepth: nat := 3

  /** The rank a pawn of colour `c` promotes on. */
  function FinalRank(c: Color): int
  {
    if c == White then 7 else 0
  }

  /** `m` moves a pawn of the side standing on its origin square to that side's
      final rank. */
  predicate PawnReachesFinalRank(b: Board, m: Move)
  {
    b[m.from].Some? && b[m.from].value.kind == Pawn && Rank(m.to) == FinalRank(b[m.from].value.color)
  }

  /** The engine's promotion rewrite: a pawn move onto the last rank is replaced
      by the same move promoting to a queen; every other move is left alone. */
  function Promote(b: Board, m: Move): (m': Move)
    ensures m'.from == m.from && m'.to == m.to
    ensures PawnReachesFinalRank(b, m) ==> m'.promotion == Some(Queen)
    ensures !PawnReachesFinalRank(b, m) ==> m' == m
  {
    match b[m.from]
    case Some(piece) =>
      if piece.kind == Pawn then
        var rank := m.to / 8;
        if (piece.color == White && rank == 7) || (piece.color == Black && rank == 0) then
          Move(m.from, m.to, Some(Queen))
        else m
      else m
    case None => m
  }

  /** Rewriting twice is rewriting once. */
  lemma PromoteIdempotent(b: Board, m: Move)
    ensures Promote(b, Promote(b, m)) == Promote(b, m)
  {
  }

  /** The engine's turn. Nothing happens when the game is over or the root
      search finds no move. Otherwise the search's pick for the side to move is
      promotion-rewritten and played through `make_move`: the move is pushed on
      the board, the snapshot of the position before it goes onto the undo
      stack and the redo stack is emptied. `snapshot` stands for the board's
      FEN, and the history's current snapshot is the board's. */
  method AiMove<P(!new), S>(r: RulesEngine<P>, g: Game<P>, h: History.History<S>,
                            snapshot: P -> S, pick: nat)
    returns (chosen: Option<Move>, g': Game<P>, h': History.History<S>)
    requires h.current == snapshot(g.position)
    ensures r.over(g.position) ==> chosen == None
    ensures chosen == None ==> g' == g && h' == h
    ensures chosen.Some? ==>
              exists m :: BestRootMove(r, g.position, m, AiDepth, r.turn(g.position))
                          && chosen.value == Promote(r.board(g.position), m)
    ensures chosen.Some? ==>
              && g' == Push(r, g, chosen.value)
              && h'.current == snapshot(g'.position)
              && h'.undo == h.undo + [snapshot(g.position)]
              && h'.redo == []
    ensures LeavesWithin(r, r.turn(g.position)) ==>
              (chosen == None <==> r.over(g.position) || |r.legal(g.position)| == 0)
  {
    g' := g;
    h' := h;
    if r.over(g.position) {
      chosen := None;
      return;
    }
    var best, ties;
    best, ties, g' := MinimaxRoot(r, g, AiDepth, r.turn(g.position), pick);
    match best {
      case Some(m) =>
        var move := Promote(r.board(g.position), m);
        chosen := Some(move);
        h' := History.MakeMove(h, snapshot(r.play(g.position, move)));
        g' := Push(r, g', move);
      case None =>
        chosen := None;
    }
  }
}
