# Chess move-selection engine: a Dafny model

This project models the computer opponent of a Kivy chess game (`ChessBoard` in
`main.py`). The model covers five parts:

- **Material evaluator.** `evaluate_board` sums fixed piece values over the 64
  squares. The perspective colour's pieces count for it and the opponent's count
  against it.
- **Alpha-beta search.** `minimax` is depth-limited, fail-soft alpha-beta with
  the sentinels -9999 and +9999.
- **Root selection.** `minimax_root` scores every legal move, keeps every move
  tied for the best score, and returns one of them.
- **Promotion shaping.** `ai_move` rewrites an engine pawn move onto the last
  rank into a queen promotion.
- **Undo/redo history.** The game screen keeps two stacks of position
  snapshots.

The rules engine (python-chess) is not modelled. It appears as a record of
total functions over an opaque position type `P`: `RulesEngine` gives the legal
moves in their enumeration order, the position a move leads to, game-over, the
board occupancy and the side to move. The board object that the search mutates
with `push`/`pop` is modelled as `Game`: the current position plus a stack of
saved positions. Pushing saves the position and plays the move. Popping restores
the saved position, as python-chess does. Squares are numbered 0..63, and the
rank of a square is taken to be `square / 8`.

Modules, by file:

- `options.dfy` holds `Option`.
- `chess.dfy` holds colours, piece kinds, squares, boards, moves and the value
  table.
- `evaluation.dfy` holds the evaluator.
- `rules.dfy` holds the rules collaborator and the push/pop board.
- `search.dfy` holds alpha-beta (`AlphaBeta`, `MaxLoop`, `MinLoop`), plain
  minimax (`MinimaxValue`, `MaxOver`, `MinOver`) as the reference, the
  imperative `Minimax` method, and the sentinel-range bound.
- `pruning.dfy` holds the fail-soft theorem and pruning exactness.
- `root.dfy` holds root selection.
- `engine.dfy` holds `ai_move` and the promotion rewrite.
- `history.dfy` holds undo/redo.

In these places the model follows the code as written:

- A node that is not game-over but has no legal moves is not scored as a leaf.
  Its loop runs zero times and it returns the sentinel (-9999 at a maximizing
  node, +9999 at a minimizing one). In real chess such a node cannot occur,
  because no legal moves means checkmate or stalemate. Pruning exactness does
  not depend on it: `Exactness.PruningIsExact` needs only that every position
  scores within [-9999, 9999]. Only the strict bound `Exactness.ValueInside`
  assumes it away with `Exactness.NeverStuck`.
- At the root, the code returns no move also when every score is below -9999.
  The model keeps that behaviour. `Root.MinimaxRoot` proves that "no move"
  means "no legal moves" only when every position scores within the
  sentinels.
- The queen rewrite also applies when the search picked an under-promotion.
  The four promotion variants of a pawn move are separate legal moves. If the
  search prefers, say, the knight promotion, the move actually played still
  promotes to a queen.
- `minimax_root` is only ever called with depth 3. With depth 0 it would call
  `minimax` with depth -1, and the depth would never reach 0. The model therefore
  requires a depth of at least 1.

## Model

| member | source | states |
|---|---|---|
| `Evaluation.MaterialIsSigned` | main.py:302-309 | The score from colour c is the total value of c's pieces minus the total value of the opponent's; empty squares add nothing. |
| `Evaluation.MaterialAntisymmetric` | main.py:302-309 | The score from one colour is exactly the negation of the score from the other (material is zero-sum). |
| `Evaluation.MaterialBeyondKings` | main.py:91-98 | With kings worth 1000 and every other piece at most 9, the score differs from 1000 × (own kings − opposing kings) by at most 9 per non-king square. |
| `Evaluation.OneKingEachBounded` | main.py:91-98 | A board with exactly one king per side scores between -558 and 558, far inside the ±9999 sentinels. |
| `Evaluation.EvaluateBoard` | main.py:302-309 | The loop over the 64 squares returns the signed material of the board for the given colour. |
| `Rules.PopUndoesPush` | main.py:282-284 | A pop right after a push gives back the board exactly as it was. |
| `Search.Minimax` | main.py:276-300 | The board comes back as it was handed in, also after a cutoff. A depth-0 or game-over node returns the material score. The result equals the recursive `AlphaBeta` function, in which the evaluating colour stays fixed, children are searched one ply shallower at alternating levels, and `MaxLoop`/`MinLoop` stop right after the first child that brings beta <= alpha; its meaning is given by the fail-soft rows below. |
| `SearchBounds.AlphaBetaWithin` | main.py:279-300 | If no position scores outside [-9999, 9999], neither does the search, at any depth and for any window. |
| `Pruning.AlphaBetaFailSoft` | main.py:276-300 | For any window alpha < beta, a pruned result at or below alpha bounds the true minimax value from above, one at or above beta bounds it from below, and one strictly inside the window equals it. |
| `Pruning.MaxLoopFailSoft` | main.py:279-289 | The maximizing loop, cutoff included, keeps the fail-soft relation between its running maximum and the unpruned maximum over all children. |
| `Pruning.MinLoopFailSoft` | main.py:290-300 | The minimizing loop, cutoff included, keeps the fail-soft relation between its running minimum and the unpruned minimum over all children. |
| `Pruning.ExactInsideWindow` | main.py:276-300 | Whenever the true minimax value lies strictly inside (alpha, beta), alpha-beta returns exactly that value. |
| `Exactness.KingsKeepLeavesInside` | main.py:91-98 | If the rules engine only produces positions with one king per side, every position scores strictly between the sentinels. |
| `Exactness.ValueInside` | main.py:279-300 | If no unfinished position lacks legal moves and every position scores strictly between the sentinels, plain minimax does too, at every depth. |
| `Exactness.ValueWithin` | main.py:279-300 | If every position scores within [-9999, 9999], bounds included, so does plain minimax, at every depth. |
| `Exactness.PruningIsExact` | main.py:267 | If every position scores within [-9999, 9999], alpha-beta with the root's window (-9999, 9999) returns the same value as unpruned minimax over the same tree, at every depth and for both levels. |
| `Root.TopIsMaximum` | main.py:264-271 | The best score the loop settles on is at least every score and at least -9999, and unless it is the sentinel it is the score of some move. |
| `Root.TiesExactly` | main.py:269-273 | A move is in the tie list exactly when it appears at a position whose score equals the best score. |
| `Root.NoTiesIffNoMoves` | main.py:274 | When no score is below -9999, the tie list is empty exactly when there are no root moves. |
| `Root.SelectionStep` | main.py:269-273 | One loop iteration: a score above the best so far replaces the tie list with that move alone, an equal score appends the move, a lower score changes nothing; the best score becomes the larger of the two. |
| `Root.TiedIsBest` | main.py:262-274 | Any move in the tie list is a legal root move whose score no other root move exceeds. |
| `Root.NoMoveIffNoLegalMoves` | main.py:274 | When every position scores within the sentinels, the root tie list is empty exactly when there are no legal moves. |
| `Root.MinimaxRoot` | main.py:262-274 | The board comes back unchanged. The tie list holds exactly the root moves whose full-window score equals the maximum, in enumeration order. No move is returned exactly when the tie list is empty. The returned move is a tie-list entry, legal and not outscored by any root move. With every position scoring within the sentinels, no move is returned exactly when there are no legal moves. |
| `Root.EveryTieCanBePicked` | main.py:274 | Every move tied for best is the one returned for some choice of the random index. |
| `Root.RootMatchesExhaustive` | main.py:262-274 | If every position scores within [-9999, 9999], the per-move root scores, and hence the tied moves, are the same with and without pruning. |
| `Engine.Promote` | main.py:250-258 | A pawn move onto rank 7 (white) or rank 0 (black) becomes the same from/to move promoting to a queen; any other move is unchanged; from and to never change. |
| `Engine.PromoteIdempotent` | main.py:250-258 | Applying the promotion rewrite twice gives the same move as applying it once. |
| `Engine.AiMove` | main.py:241-259 | No move when the game is over; with no move, board and history are untouched. Otherwise the move played is the promotion rewrite of a best-scoring legal root move at depth 3 for the side to move. It is pushed on the board, the snapshot before it goes onto the undo stack, the snapshot after it becomes current and the redo stack is emptied (`make_move`, line 259). With every position scoring within the sentinels, no move is played exactly when the game is over or there are no legal moves. |
| `History.UndoAfterMakeMove` | main.py:232-234 | Right after a move there is nothing to redo, and undo brings back the position before the move, with the old undo stack and the move's result as the only redo entry. |
| `History.UndoConserves` | main.py:371-375 | Undo only moves one snapshot from the undo stack to current and current to the redo stack: the multiset of snapshots and the total stack height are unchanged. |
| `History.RedoConserves` | main.py:377-381 | Redo moves snapshots the opposite way and likewise loses or creates none. |
| `History.RedoAfterUndo` | main.py:371-381 | Undo then redo gives back the original state exactly when the undo stack was non-empty or the redo stack was empty. |
| `History.UndoAfterRedo` | main.py:371-381 | Redo then undo gives back the original state exactly when the redo stack was non-empty or the undo stack was empty. |
| `History.RedoTimesAfterUndoTimes` | main.py:371-381 | k undos with at least k snapshots to undo are taken back exactly by k redos. |
| `History.ResetForgetsHistory` | main.py:416-421 | After a reset the start position is current, it is the only snapshot held, and neither undo nor redo changes anything. |

## Left out

- Rules engine (python-chess): move generation, legality, game-over,
  checkmate and stalemate detection, `piece_at`, FEN. These are a foreign
  library, so they are parameters (`RulesEngine`). Properties that need them
  to be well behaved take that as a hypothesis (`LeavesWithin`, `NeverStuck`,
  `LeavesInside`, one king per side).
- `random.choice` is modelled as an index `pick` supplied by the caller (the
  move chosen is `best[pick % |best|]`). It is not modelled as a probability
  distribution.
- Position snapshots in the history are an opaque type: FEN strings stand for
  positions and are not parsed. `set_fen` is therefore just "this snapshot
  becomes current".
- The human promotion popup and the rest of the Kivy UI are not modelled:
  drawing, drag and touch handling, highlights, popups, the dashboard and app
  wiring. All of it is presentation code.
- `Clock.schedule_once`, which delays the engine's reply, is not modelled. It
  is asynchronous scheduling.
- Sound playback and save/load to `savegame.json` are not modelled. They are
  audio and file I/O.
- The rest of `make_move` is not modelled: move sound, redrawing and the
  checkmate/stalemate popups (`check_game_state`). Its board push and history
  update are (`Rules.Push`, `History.MakeMove`, used by `Engine.AiMove`).
- The board's FEN is a parameter of `Engine.AiMove` (`snapshot`), and the
  method assumes the history's current snapshot is the board's, as the game
  screen keeps it.
