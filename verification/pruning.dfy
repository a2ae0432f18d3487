/** Alpha-beta pruning never changes the minimax value it is asked for. */
module Pruning {
  import opened Chess
  import opened Evaluation
  import opened Rules
  import opened Search

  /** The fail-soft contract relating a pruned result `ab` to the true value `v`
      for the window (alpha, beta): a result at or below alpha is an upper bound
      of the value, one at or above beta a lower bound, and one strictly inside
      the window is the value itself. */
  ghost predicate FailSoft(ab: int, v: int, alpha: int, beta: int)
  {
    && (ab <= alpha ==> v <= ab)
    && (ab >= beta ==> v >= ab)
    && (alpha < ab < beta ==> v == ab)
  }

  /** Plain minimax never drops below the running maximum it starts from. */
  lemma {:induction false} MaxOverAtLeast<P>(r: RulesEngine<P>, p: P, moves: seq<Move>,
                                             depth: nat, color: Color, best: int)
    requires depth > 0
    ensures MaxOver(r, p, moves, depth, color, best) >= best
    decreases |moves|
  {
    if |moves| > 0 {
      var v := MinimaxValue(r, r.play(p, moves[0]), depth - 1, false, color);
      MaxOverAtLeast(r, p, moves[1..], depth, color, Max(best, v));
    }
  }

  /** Plain minimax never rises above the running minimum it starts from. */
  lemma {:induction false} MinOverAtMost<P>(r: RulesEngine<P>, p: P, moves: seq<Move>,
                                            depth: nat, color: Color, best: int)
    requires depth > 0
    ensures MinOver(r, p, moves, depth, color, best) <= best
    decreases |moves|
  {
    if |moves| > 0 {
      var v := MinimaxValue(r, r.play(p, moves[0]), depth - 1, true, color);
      MinOverAtMost(r, p, moves[1..], depth, color, Min(best, v));
    }
  }

  /** The fail-soft theorem: for every window with alpha < beta the pruned search
      and plain minimax agree in the fail-soft sense. */
  lemma {:induction false} AlphaBetaFailSoft<P>(r: RulesEngine<P>, p: P, depth: nat,
                                                alpha: int, beta: int, maximizing: bool,
                                                color: Color)
    requires alpha < beta
    ensures FailSoft(AlphaBeta(r, p, depth, alpha, beta, maximizing, color),
                     MinimaxValue(r, p, depth, maximizing, color), alpha, beta)
    decreases depth, 1
  {
    if depth == 0 || r.over(p) {
    } else if maximizing {
      MaxLoopFailSoft(r, p, r.legal(p), depth, alpha, alpha, beta, color, -Infinity, -Infinity);
    } else {
      MinLoopFailSoft(r, p, r.legal(p), depth, alpha, beta, beta, color, Infinity, Infinity);
    }
  }

  /** The maximizing loop keeps, with `alpha0` the window's original lower end,
      `a` the raised one, `bAB` its running maximum and `bV` plain minimax's:
      bV <= bAB, the two agree once bAB exceeds alpha0, and a never exceeds
      max(alpha0, bAB). */
  lemma {:induction false} MaxLoopFailSoft<P>(r: RulesEngine<P>, p: P, moves: seq<Move>,
                                              depth: nat, alpha0: int, a: int, beta: int,
                                              color: Color, bAB: int, bV: int)
    requires depth > 0
    requires alpha0 <= a < beta
    requires a <= Max(alpha0, bAB)
    requires bV <= bAB
    requires bAB > alpha0 ==> bV == bAB
    ensures FailSoft(MaxLoop(r, p, moves, depth, a, beta, color, bAB),
                     MaxOver(r, p, moves, depth, color, bV), alpha0, beta)
    decreases depth, 0, |moves|
  {
    if |moves| > 0 {
      var child := r.play(p, moves[0]);
      var s := AlphaBeta(r, child, depth - 1, a, beta, false, color);
      var cv := MinimaxValue(r, child, depth - 1, false, color);
      AlphaBetaFailSoft(r, child, depth - 1, a, beta, false, color);
      if beta <= Max(a, s) {
        MaxOverAtLeast(r, p, moves[1..], depth, color, Max(bV, cv));
      } else {
        MaxLoopFailSoft(r, p, moves[1..], depth, alpha0, Max(a, s), beta, color,
                        Max(bAB, s), Max(bV, cv));
      }
    }
  }

  /** The mirror invariant of the minimizing loop, with `beta0` the window's
      original upper end and `b` the lowered one. */
  lemma {:induction false} MinLoopFailSoft<P>(r: RulesEngine<P>, p: P, moves: seq<Move>,
                                              depth: nat, alpha: int, b: int, beta0: int,
                                              color: Color, bAB: int, bV: int)
    requires depth > 0
    requires alpha < b <= beta0
    requires Min(beta0, bAB) <= b
    requires bV >= bAB
    requires bAB < beta0 ==> bV == bAB
    ensures FailSoft(MinLoop(r, p, moves, depth, alpha, b, color, bAB),
                     MinOver(r, p, moves, depth, color, bV), alpha, beta0)
    decreases depth, 0, |moves|
  {
    if |moves| > 0 {
      var child := r.play(p, moves[0]);
      var s := AlphaBeta(r, child, depth - 1, alpha, b, true, color);
      var cv := MinimaxValue(r, child, depth - 1, true, color);
      AlphaBetaFailSoft(r, child, depth - 1, alpha, b, true, color);
      if Min(b, s) <= alpha {
        MinOverAtMost(r, p, moves[1..], depth, color, Min(bV, cv));
      } else {
        MinLoopFailSoft(r, p, moves[1..], depth, alpha, Min(b, s), beta0, color,
                        Min(bAB, s), Min(bV, cv));
      }
    }
  }

  /** Whenever the true value lies strictly inside the window, the pruned search
      returns exactly that value. */
  lemma ExactInsideWindow<P>(r: RulesEngine<P>, p: P, depth: nat, alpha: int, beta: int,
                             maximizing: bool, color: Color)
    requires alpha < MinimaxValue(r, p, depth, maximizing, color) < beta
    ensures AlphaBeta(r, p, depth, alpha, beta, maximizing, color)
         == MinimaxValue(r, p, depth, maximizing, color)
  {
    AlphaBetaFailSoft(r, p, depth, alpha, beta, maximizing, color);
  }
}

module Exactness {
  import opened Chess
  import opened Evaluation
  import opened Rules
  import opened Search
  import opened SearchBounds
  import opened Pruning

  /** Every position that is not over has at least one legal move, as in chess,
      where a side without moves is mated or stalemated. */
  ghost predicate NeverStuck<P(!new)>(r: RulesEngine<P>)
  {
    forall q :: !r.over(q) ==> |r.legal(q)| > 0
  }

  /** Every position the rules engine can hand out scores strictly between the
      sentinels. */
  ghost predicate LeavesInside<P(!new)>(r: RulesEngine<P>, color: Color)
  {
    forall q :: -Infinity < Material(r.board(q), color) < Infinity
  }

  /** Positions with one king of each colour, as legal chess positions always
      have, score strictly between the sentinels. */
  lemma KingsKeepLeavesInside<P(!new)>(r: RulesEngine<P>, color: Color)
    requires forall q :: Kings(r.board(q), White) == 1 && Kings(r.board(q), Black) == 1
    ensures LeavesInside(r, color)
  {
    forall q
      ensures -Infinity < Material(r.board(q), color) < Infinity
    {
      OneKingEachBounded(r.board(q), color);
    }
  }

  /** Under those two conditions plain minimax stays strictly between the
      sentinels at every depth. */
  lemma {:induction false} ValueInside<P(!new)>(r: RulesEngine<P>, p: P, depth: nat,
                                          maximizing: bool, color: Color)
    requires NeverStuck(r) && LeavesInside(r, color)
    ensures -Infinity < MinimaxValue(r, p, depth, maximizing, color) < Infinity
    decreases depth, 1
  {
    if depth == 0 || r.over(p) {
    } else if maximizing {
      MaxOverInside(r, p, r.legal(p), depth, color, -Infinity);
    } else {
      MinOverInside(r, p, r.legal(p), depth, color, Infinity);
    }
  }

  lemma {:induction false} MaxOverInside<P(!new)>(r: RulesEngine<P>, p: P, moves: seq<Move>,
                                            depth: nat, color: Color, best: int)
    requires depth > 0
    requires NeverStuck(r) && LeavesInside(r, color)
    requires -Infinity <= best < Infinity
    ensures -Infinity <= MaxOver(r, p, moves, depth, color, best) < Infinity
    ensures |moves| > 0 || best > -Infinity ==> MaxOver(r, p, moves, depth, color, best) > -Infinity
    decreases depth, 0, |moves|
  {
    if |moves| > 0 {
      var child := r.play(p, moves[0]);
      ValueInside(r, child, depth - 1, false, color);
      var v := MinimaxValue(r, child, depth - 1, false, color);
      MaxOverInside(r, p, moves[1..], depth, color, Max(best, v));
    }
  }

  lemma {:induction false} MinOverInside<P(!new)>(r: RulesEngine<P>, p: P, moves: seq<Move>,
                                            depth: nat, color: Color, best: int)
    requires depth > 0
    requires NeverStuck(r) && LeavesInside(r, color)
    requires -Infinity < best <= Infinity
    ensures -Infinity < MinOver(r, p, moves, depth, color, best) <= Infinity
    ensures |moves| > 0 || best < Infinity ==> MinOver(r, p, moves, depth, color, best) < Infinity
    decreases depth, 0, |moves|
  {
    if |moves| > 0 {
      var child := r.play(p, moves[0]);
      ValueInside(r, child, depth - 1, true, color);
      var v := MinimaxValue(r, child, depth - 1, true, color);
      MinOverInside(r, p, moves[1..], depth, color, Min(best, v));
    }
  }

  /** With every position scoring within the sentinels, bounds included, plain
      minimax does too, at every depth. */
  lemma {:induction false} ValueWithin<P(!new)>(r: RulesEngine<P>, p: P, depth: nat,
                                                maximizing: bool, color: Color)
    requires LeavesWithin(r, color)
    ensures -Infinity <= MinimaxValue(r, p, depth, maximizing, color) <= Infinity
    decreases depth, 1
  {
    if depth == 0 || r.over(p) {
    } else if maximizing {
      MaxOverWithin(r, p, r.legal(p), depth, color, -Infinity);
    } else {
      MinOverWithin(r, p, r.legal(p), depth, color, Infinity);
    }
  }

  lemma {:induction false} MaxOverWithin<P(!new)>(r: RulesEngine<P>, p: P, moves: seq<Move>,
                                                  depth: nat, color: Color, best: int)
    requires depth > 0
    requires LeavesWithin(r, color)
    requires -Infinity <= best <= Infinity
    ensures -Infinity <= MaxOver(r, p, moves, depth, color, best) <= Infinity
    decreases depth, 0, |moves|
  {
    if |moves| > 0 {
      var child := r.play(p, moves[0]);
      ValueWithin(r, child, depth - 1, false, color);
      var v := MinimaxValue(r, child, depth - 1, false, color);
      MaxOverWithin(r, p, moves[1..], depth, color, Max(best, v));
    }
  }

  lemma {:induction false} MinOverWithin<P(!new)>(r: RulesEngine<P>, p: P, moves: seq<Move>,
                                                  depth: nat, color: Color, best: int)
    requires depth > 0
    requires LeavesWithin(r, color)
    requires -Infinity <= best <= Infinity
    ensures -Infinity <= MinOver(r, p, moves, depth, color, best) <= Infinity
    decreases depth, 0, |moves|
  {
    if |moves| > 0 {
      var child := r.play(p, moves[0]);
      ValueWithin(r, child, depth - 1, true, color);
      var v := MinimaxValue(r, child, depth - 1, true, color);
      MinOverWithin(r, p, moves[1..], depth, color, Min(best, v));
    }
  }

  /** Pruning equivalence: searched with the full window (-Infinity, Infinity),
      as every root move is, alpha-beta returns the plain minimax value. Both
      values lie in [-Infinity, Infinity], so the fail-soft relation forces
      equality even at the sentinels themselves. */
  lemma PruningIsExact<P(!new)>(r: RulesEngine<P>, p: P, depth: nat, maximizing: bool, color: Color)
    requires LeavesWithin(r, color)
    ensures AlphaBeta(r, p, depth, -Infinity, Infinity, maximizing, color)
         == MinimaxValue(r, p, depth, maximizing, color)
  {
    ValueWithin(r, p, depth, maximizing, color);
    AlphaBetaWithin(r, p, depth, -Infinity, Infinity, maximizing, color);
    AlphaBetaFailSoft(r, p, depth, -Infinity, Infinity, maximizing, color);
  }
}
