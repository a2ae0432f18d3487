/** Root move selection: every legal move is scored with the full window and one
    of the moves tied for the best score is returned. */
module Root {
  import opened Options
  import opened Chess
  import opened Evaluation
  import opened Rules
  import opened Search
  import opened SearchBounds
  import opened Exactness

  /** The score of one root move for `color`: the reply is searched one ply
      shallower as a minimizing node with the full window. */
  function RootScore<P>(r: RulesEngine<P>, p: P, m: Move, depth: nat, color: Color): int
    requires depth >= 1
  {
    AlphaBeta(r, r.play(p, m), depth - 1, -Infinity, Infinity, false, color)
  }

  /** The scores of `moves`, position by position. */
  function RootScores<P>(r: RulesEngine<P>, p: P, moves: seq<Move>, depth: nat,
                         color: Color): (scores: seq<int>)
    requires depth >= 1
    ensures |scores| == |moves|
    ensures forall i :: 0 <= i < |moves| ==> scores[i] == RootScore(r, p, moves[i], depth, color)
  {
    seq(|moves|, i requires 0 <= i < |moves| => RootScore(r, p, moves[i], depth, color))
  }

  /** The best score the selection loop settles on: the largest score, or the
      -Infinity sentinel it starts from if that is larger. */
  function Top(scores: seq<int>): int
  {
    if |scores| == 0 then -Infinity
    else Max(Top(scores[..|scores| - 1]), scores[|scores| - 1])
  }

  /** The moves whose score equals `top`, in enumeration order. */
  function Ties(moves: seq<Move>, scores: seq<int>, top: int): seq<Move>
    requires |moves| == |scores|
  {
    if |moves| == 0 then []
    else
      Ties(moves[..|moves| - 1], scores[..|scores| - 1], top)
        + if scores[|scores| - 1] == top then [moves[|moves| - 1]] else []
  }

  /** `Top` bounds every score, and is one of them unless it is the sentinel. */
  lemma {:induction false} TopIsMaximum(scores: seq<int>)
    ensures Top(scores) >= -Infinity
    ensures forall i :: 0 <= i < |scores| ==> scores[i] <= Top(scores)
    ensures Top(scores) == -Infinity || exists i :: 0 <= i < |scores| && scores[i] == Top(scores)
  {
    if |scores| > 0 {
      var init := scores[..|scores| - 1];
      TopIsMaximum(init);
      assert forall i :: 0 <= i < |init| ==> scores[i] == init[i];
    }
  }

  /** A move is among the ties exactly when some position holding it has score `top`. */
  lemma {:induction false} TiesExactly(moves: seq<Move>, scores: seq<int>, top: int, m: Move)
    requires |moves| == |scores|
    ensures m in Ties(moves, scores, top)
        <==> exists i :: 0 <= i < |moves| && moves[i] == m && scores[i] == top
  {
    if |moves| > 0 {
      var n := |moves| - 1;
      TiesExactly(moves[..n], scores[..n], top, m);
      assert forall i :: 0 <= i < n ==> moves[..n][i] == moves[i] && scores[..n][i] == scores[i];
    }
  }

  /** No move scores above `top`, so none of them is tied with a larger one. */
  lemma {:induction false} TiesAboveAll(moves: seq<Move>, scores: seq<int>, top: int)
    requires |moves| == |scores|
    requires forall i :: 0 <= i < |scores| ==> scores[i] < top
    ensures Ties(moves, scores, top) == []
  {
    if |moves| > 0 {
      var n := |moves| - 1;
      assert forall i :: 0 <= i < n ==> scores[..n][i] == scores[i];
      TiesAboveAll(moves[..n], scores[..n], top);
    }
  }

  /** With no score below the sentinel, there are tied moves exactly when there
      are moves at all. */
  lemma NoTiesIffNoMoves(moves: seq<Move>, scores: seq<int>)
    requires |moves| == |scores|
    requires forall i :: 0 <= i < |scores| ==> scores[i] >= -Infinity
    ensures Ties(moves, scores, Top(scores)) == [] <==> |moves| == 0
  {
    TopIsMaximum(scores);
    if |moves| > 0 {
      var i :| 0 <= i < |scores| && scores[i] == Top(scores);
      TiesExactly(moves, scores, Top(scores), moves[i]);
    }
  }

  /** One iteration of the selection loop: a score above the best so far starts
      a new tie list, an equal one joins the list, a lower one changes nothing. */
  lemma SelectionStep(moves: seq<Move>, scores: seq<int>, i: nat)
    requires i < |moves| == |scores|
    ensures var top := Top(scores[..i]);
            var ties := Ties(moves[..i], scores[..i], top);
            && Top(scores[..i + 1]) == Max(top, scores[i])
            && Ties(moves[..i + 1], scores[..i + 1], Top(scores[..i + 1]))
               == if scores[i] > top then [moves[i]]
                  else if scores[i] == top then ties + [moves[i]]
                  else ties
  {
    assert moves[..i + 1][..i] == moves[..i];
    assert scores[..i + 1][..i] == scores[..i];
    if scores[i] > Top(scores[..i]) {
      TopIsMaximum(scores[..i]);
      TiesAboveAll(moves[..i], scores[..i], scores[i]);
    }
  }

  /** `m` is a legal root move that no other root move outscores. */
  ghost predicate BestRootMove<P>(r: RulesEngine<P>, p: P, m: Move, depth: nat, color: Color)
    requires depth >= 1
  {
    && m in r.legal(p)
    && forall m' :: m' in r.legal(p) ==> RootScore(r, p, m', depth, color) <= RootScore(r, p, m, depth, color)
  }

  /** The root search: score each legal move with the board restored after each,
      keep every move tied for the best score, and pick the one at index `pick`
      (modulo the number of ties) in place of a random choice. */
  method MinimaxRoot<P(!new)>(r: RulesEngine<P>, g: Game<P>, depth: nat, color: Color, pick: nat)
    returns (choice: Option<Move>, best: seq<Move>, g': Game<P>)
    requires depth >= 1
    ensures g' == g
    ensures var scores := RootScores(r, g.position, r.legal(g.position), depth, color);
            best == Ties(r.legal(g.position), scores, Top(scores))
    ensures choice == None <==> best == []
    ensures choice.Some? ==> choice.value == best[pick % |best|]
    ensures choice.Some? ==> BestRootMove(r, g.position, choice.value, depth, color)
    ensures LeavesWithin(r, color) ==> (choice == None <==> |r.legal(g.position)| == 0)
  {
    var moves := r.legal(g.position);
    ghost var scores := RootScores(r, g.position, moves, depth, color);
    var maxEval := -Infinity;
    best := [];
    g' := g;
    var i := 0;
    while i < |moves|
      invariant 0 <= i <= |moves|
      invariant g' == g
      invariant maxEval == Top(scores[..i])
      invariant best == Ties(moves[..i], scores[..i], maxEval)
    {
      g' := Push(r, g', moves[i]);
      var evaluation;
      evaluation, g' := Minimax(r, g', depth - 1, -Infinity, Infinity, false, color);
      g' := Pop(g');
      SelectionStep(moves, scores, i);
      if evaluation > maxEval {
        maxEval := evaluation;
        best := [moves[i]];
      } else if evaluation == maxEval {
        best := best + [moves[i]];
      }
      i := i + 1;
    }
    assert moves[..i] == moves && scores[..i] == scores;
    if |best| == 0 {
      choice := None;
    } else {
      choice := Some(best[pick % |best|]);
      TiedIsBest(r, g.position, depth, color, choice.value);
    }
    if LeavesWithin(r, color) {
      NoMoveIffNoLegalMoves(r, g.position, depth, color);
    }
  }

  /** A move tied for the best root score is a legal move no root move outscores. */
  lemma TiedIsBest<P>(r: RulesEngine<P>, p: P, depth: nat, color: Color, m: Move)
    requires depth >= 1
    requires var scores := RootScores(r, p, r.legal(p), depth, color);
             m in Ties(r.legal(p), scores, Top(scores))
    ensures BestRootMove(r, p, m, depth, color)
  {
    var moves := r.legal(p);
    var scores := RootScores(r, p, moves, depth, color);
    TiesExactly(moves, scores, Top(scores), m);
    TopIsMaximum(scores);
    forall m' | m' in moves
      ensures RootScore(r, p, m', depth, color) <= RootScore(r, p, m, depth, color)
    {
      var j :| 0 <= j < |moves| && moves[j] == m';
    }
  }

  /** When every position scores within the sentinels, the tie list is empty
      exactly when there are no legal root moves. */
  lemma NoMoveIffNoLegalMoves<P(!new)>(r: RulesEngine<P>, p: P, depth: nat, color: Color)
    requires depth >= 1
    requires LeavesWithin(r, color)
    ensures var scores := RootScores(r, p, r.legal(p), depth, color);
            Ties(r.legal(p), scores, Top(scores)) == [] <==> |r.legal(p)| == 0
  {
    var moves := r.legal(p);
    var scores := RootScores(r, p, moves, depth, color);
    forall j | 0 <= j < |scores|
      ensures scores[j] >= -Infinity
    {
      AlphaBetaWithin(r, r.play(p, moves[j]), depth - 1, -Infinity, Infinity, false, color);
    }
    NoTiesIffNoMoves(moves, scores);
  }

  /** Every tied move is returned for some choice of `pick`. */
  lemma EveryTieCanBePicked(best: seq<Move>, m: Move)
    requires m in best
    ensures exists pick: nat :: best[pick % |best|] == m
  {
    var i :| 0 <= i < |best| && best[i] == m;
    assert best[i % |best|] == m;
  }

  /** When every position scores within the sentinels, the root scores with
      pruning are the exhaustive minimax scores, so the moves tied for best are
      the same with and without pruning. */
  lemma RootMatchesExhaustive<P(!new)>(r: RulesEngine<P>, p: P, depth: nat, color: Color)
    requires depth >= 1
    requires LeavesWithin(r, color)
    ensures var moves := r.legal(p);
            var exhaustive := seq(|moves|, i requires 0 <= i < |moves| =>
                                  MinimaxValue(r, r.play(p, moves[i]), depth - 1, false, color));
            RootScores(r, p, moves, depth, color) == exhaustive
            && Ties(moves, RootScores(r, p, moves, depth, color), Top(RootScores(r, p, moves, depth, color)))
               == Ties(moves, exhaustive, Top(exhaustive))
  {
    var moves := r.legal(p);
    forall i | 0 <= i < |moves|
      ensures RootScore(r, p, moves[i], depth, color)
           == MinimaxValue(r, r.play(p, moves[i]), depth - 1, false, color)
    {
      PruningIsExact(r, r.play(p, moves[i]), depth - 1, false, color);
    }
  }
}
