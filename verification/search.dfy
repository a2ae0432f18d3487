/** Depth-limited minimax with alpha-beta pruning, and plain minimax as its
    reference. Every score is seen from one colour, fixed for the whole search. */
module Search {
  import opened Chess
  import opened Evaluation
  import opened Rules

  /** The sentinel the search uses for an unbounded score. */
  const Infinity: int := 9999

  function Max(a: int, b: int): int
  {
    if a >= b then a else b
  }

  function Min(a: int, b: int): int
  {
    if a <= b then a else b
  }

  /** The search as the program computes it: a leaf (depth exhausted or game
      over) is scored by material; a maximizing node runs `MaxLoop` over the
      legal moves from -Infinity, a minimizing one `MinLoop` from +Infinity. */
  function AlphaBeta<P>(r: RulesEngine<P>, p: P, depth: nat, alpha: int, beta: int,
                        maximizing: bool, color: Color): int
    decreases depth, 1
  {
    if depth == 0 || r.over(p) then Material(r.board(p), color)
    else if maximizing then MaxLoop(r, p, r.legal(p), depth, alpha, beta, color, -Infinity)
    else MinLoop(r, p, r.legal(p), depth, alpha, beta, color, Infinity)
  }

  /** The maximizing loop over the remaining `moves`: each child is searched one
      ply shallower as a minimizing node, `best` keeps the largest score, `alpha`
      is raised to it, and the loop stops right after a child brings `alpha` up
      to `beta`. */
  function MaxLoop<P>(r: RulesEngine<P>, p: P, moves: seq<Move>, depth: nat,
                      alpha: int, beta: int, color: Color, best: int): int
    requires depth > 0
    decreases depth, 0, |moves|
  {
    if |moves| == 0 then best
    else
      var e := AlphaBeta(r, r.play(p, moves[0]), depth - 1, alpha, beta, false, color);
      var alpha' := Max(alpha, e);
      if beta <= alpha' then Max(best, e)
      else MaxLoop(r, p, moves[1..], depth, alpha', beta, color, Max(best, e))
  }

  /** The minimizing loop, the mirror image of `MaxLoop`. */
  function MinLoop<P>(r: RulesEngine<P>, p: P, moves: seq<Move>, depth: nat,
                      alpha: int, beta: int, color: Color, best: int): int
    requires depth > 0
    decreases depth, 0, |moves|
  {
    if |moves| == 0 then best
    else
      var e := AlphaBeta(r, r.play(p, moves[0]), depth - 1, alpha, beta, true, color);
      var beta' := Min(beta, e);
      if beta' <= alpha then Min(best, e)
      else MinLoop(r, p, moves[1..], depth, alpha, beta', color, Min(best, e))
  }

  /** Plain minimax with the same leaves and sentinels and no pruning: the
      value the pruned search is meant to compute. */
  function MinimaxValue<P>(r: RulesEngine<P>, p: P, depth: nat, maximizing: bool,
                           color: Color): int
    decreases depth, 1
  {
    if depth == 0 || r.over(p) then Material(r.board(p), color)
    else if maximizing then MaxOver(r, p, r.legal(p), depth, color, -Infinity)
    else MinOver(r, p, r.legal(p), depth, color, Infinity)
  }

  /** The largest of `best` and the values of all children reached by `moves`. */
  function MaxOver<P>(r: RulesEngine<P>, p: P, moves: seq<Move>, depth: nat,
                      color: Color, best: int): int
    requires depth > 0
    decreases depth, 0, |moves|
  {
    if |moves| == 0 then best
    else MaxOver(r, p, moves[1..], depth, color,
                 Max(best, MinimaxValue(r, r.play(p, moves[0]), depth - 1, false, color)))
  }

  /** The smallest of `best` and the values of all children reached by `moves`. */
  function MinOver<P>(r: RulesEngine<P>, p: P, moves: seq<Move>, depth: nat,
                      color: Color, best: int): int
    requires depth > 0
    decreases depth, 0, |moves|
  {
    if |moves| == 0 then best
    else MinOver(r, p, moves[1..], depth, color,
                 Min(best, MinimaxValue(r, r.play(p, moves[0]), depth - 1, true, color)))
  }

  /** The recursive search on the engine's board. Every move pushed is popped
      before the next one is tried or the call returns, also when the loop is
      cut off, so the board comes back as it was handed in. */
  method Minimax<P>(r: RulesEngine<P>, g: Game<P>, depth: nat, alpha: int, beta: int,
                    maximizing: bool, color: Color) returns (v: int, g': Game<P>)
    ensures g' == g
    ensures depth == 0 || r.over(g.position) ==> v == Material(r.board(g.position), color)
    ensures v == AlphaBeta(r, g.position, depth, alpha, beta, maximizing, color)
    decreases depth
  {
    g' := g;
    if depth == 0 || r.over(g.position) {
      v := EvaluateBoard(r.board(g.position), color);
      return;
    }
    var moves := r.legal(g.position);
    var i := 0;
    if maximizing {
      var best := -Infinity;
      var a := alpha;
      while i < |moves|
        invariant 0 <= i <= |moves|
        invariant g' == g
        invariant MaxLoop(r, g.position, moves[i..], depth, a, beta, color, best)
               == AlphaBeta(r, g.position, depth, alpha, beta, true, color)
      {
        g' := Push(r, g', moves[i]);
        var e;
        e, g' := Minimax(r, g', depth - 1, a, beta, false, color);
        g' := Pop(g');
        best := Max(best, e);
        a := Max(a, e);
        if beta <= a {
          break;
        }
        i := i + 1;
      }
      v := best;
    } else {
      var best := Infinity;
      var b := beta;
      while i < |moves|
        invariant 0 <= i <= |moves|
        invariant g' == g
        invariant MinLoop(r, g.position, moves[i..], depth, alpha, b, color, best)
               == AlphaBeta(r, g.position, depth, alpha, beta, false, color)
      {
        g' := Push(r, g', moves[i]);
        var e;
        e, g' := Minimax(r, g', depth - 1, alpha, b, true, color);
        g' := Pop(g');
        best := Min(best, e);
        b := Min(b, e);
        if b <= alpha {
          break;
        }
        i := i + 1;
      }
      v := best;
    }
  }
}

module SearchBounds {
  import opened Chess
  import opened Evaluation
  import opened Rules
  import opened Search

  /** Every position scores within the sentinels, bounds included. */
  ghost predicate LeavesWithin<P(!new)>(r: RulesEngine<P>, color: Color)
  {
    forall q :: -Infinity <= Material(r.board(q), color) <= Infinity
  }

  /** The search result never leaves the sentinel range when no leaf does: each
      interior node returns a sentinel or the score of a child. */
  lemma {:induction false} AlphaBetaWithin<P(!new)>(r: RulesEngine<P>, p: P, depth: nat,
                                              alpha: int, beta: int, maximizing: bool,
                                              color: Color)
    requires LeavesWithin(r, color)
    ensures -Infinity <= AlphaBeta(r, p, depth, alpha, beta, maximizing, color) <= Infinity
    decreases depth, 1
  {
    if depth == 0 || r.over(p) {
    } else if maximizing {
      MaxLoopWithin(r, p, r.legal(p), depth, alpha, beta, color, -Infinity);
    } else {
      MinLoopWithin(r, p, r.legal(p), depth, alpha, beta, color, Infinity);
    }
  }

  lemma {:induction false} MaxLoopWithin<P(!new)>(r: RulesEngine<P>, p: P, moves: seq<Move>,
                                            depth: nat, alpha: int, beta: int,
                                            color: Color, best: int)
    requires depth > 0
    requires LeavesWithin(r, color)
    requires -Infinity <= best <= Infinity
    ensures -Infinity <= MaxLoop(r, p, moves, depth, alpha, beta, color, best) <= Infinity
    decreases depth, 0, |moves|
  {
    if |moves| > 0 {
      var child := r.play(p, moves[0]);
      AlphaBetaWithin(r, child, depth - 1, alpha, beta, false, color);
      var e := AlphaBeta(r, child, depth - 1, alpha, beta, false, color);
      MaxLoopWithin(r, p, moves[1..], depth, Max(alpha, e), beta, color, Max(best, e));
    }
  }

  lemma {:induction false} MinLoopWithin<P(!new)>(r: RulesEngine<P>, p: P, moves: seq<Move>,
                                            depth: nat, alpha: int, beta: int,
                                            color: Color, best: int)
    requires depth > 0
    requires LeavesWithin(r, color)
    requires -Infinity <= best <= Infinity
    ensures -Infinity <= MinLoop(r, p, moves, depth, alpha, beta, color, best) <= Infinity
    decreases depth, 0, |moves|
  {
    if |moves| > 0 {
      var child := r.play(p, moves[0]);
      AlphaBetaWithin(r, child, depth - 1, alpha, beta, true, color);
      var e := AlphaBeta(r, child, depth - 1, alpha, beta, true, color);
      MinLoopWithin(r, p, moves[1..], depth, alpha, Min(beta, e), color, Min(best, e));
    }
  }
}
