/** The undo/redo history of the game screen: the current position snapshot and
    two stacks of snapshots, tops at the end. */
module History {

  datatype History<S> = History(current: S, undo: seq<S>, redo: seq<S>)

  /** Playing a move: the snapshot before it goes on the undo stack, the redo
      stack is emptied, and `next` is the position the move leads to. */
  function MakeMove<S>(h: History<S>, next: S): History<S>
  {
    History(next, h.undo + [h.current], [])
  }

  /** Undo: with a non-empty undo stack the current snapshot goes onto the redo
      stack and the top of the undo stack is restored; otherwise nothing happens. */
  function Undo<S>(h: History<S>): History<S>
  {
    if |h.undo| > 0 then
      History(h.undo[|h.undo| - 1], h.undo[..|h.undo| - 1], h.redo + [h.current])
    else h
  }

  /** Redo: the mirror image of `Undo`. */
  function Redo<S>(h: History<S>): History<S>
  {
    if |h.redo| > 0 then
      History(h.redo[|h.redo| - 1], h.undo + [h.current], h.redo[..|h.redo| - 1])
    else h
  }

  /** Reset: the start position and both stacks empty. */
  function Reset<S>(h: History<S>, start: S): History<S>
  {
    History(start, [], [])
  }

  /** All snapshots held, current one included. */
  function Snapshots<S>(h: History<S>): multiset<S>
  {
    multiset(h.undo) + multiset(h.redo) + multiset{h.current}
  }

  /** Undo only moves a snapshot between the stacks: none is lost or made. */
  lemma UndoConserves<S>(h: History<S>)
    ensures Snapshots(Undo(h)) == Snapshots(h)
    ensures |Undo(h).undo| + |Undo(h).redo| == |h.undo| + |h.redo|
  {
    if |h.undo| > 0 {
      var n := |h.undo| - 1;
      assert h.undo == h.undo[..n] + [h.undo[n]];
      calc {
        Snapshots(Undo(h));
        multiset(h.undo[..n]) + multiset(h.redo + [h.current]) + multiset{h.undo[n]};
        multiset(h.undo[..n] + [h.undo[n]]) + multiset(h.redo) + multiset{h.current};
      }
    }
  }

  /** Redo only moves a snapshot between the stacks: none is lost or made. */
  lemma RedoConserves<S>(h: History<S>)
    ensures Snapshots(Redo(h)) == Snapshots(h)
    ensures |Redo(h).undo| + |Redo(h).redo| == |h.undo| + |h.redo|
  {
    if |h.redo| > 0 {
      var n := |h.redo| - 1;
      assert h.redo == h.redo[..n] + [h.redo[n]];
      calc {
        Snapshots(Redo(h));
        multiset(h.undo + [h.current]) + multiset(h.redo[..n]) + multiset{h.redo[n]};
        multiset(h.undo) + multiset(h.redo[..n] + [h.redo[n]]) + multiset{h.current};
      }
    }
  }

  /** Undo followed by redo gives back the state exactly when undo did
      something or there was nothing to redo. */
  lemma RedoAfterUndo<S>(h: History<S>)
    ensures Redo(Undo(h)) == h <==> |h.undo| > 0 || |h.redo| == 0
  {
    if |h.undo| > 0 {
      assert h.undo[..|h.undo| - 1] + [h.undo[|h.undo| - 1]] == h.undo;
    } else if |h.redo| > 0 {
      assert |Redo(Undo(h)).undo| == 1;
    }
  }

  /** Redo followed by undo gives back the state exactly when redo did
      something or there was nothing to undo. */
  lemma UndoAfterRedo<S>(h: History<S>)
    ensures Undo(Redo(h)) == h <==> |h.redo| > 0 || |h.undo| == 0
  {
    if |h.redo| > 0 {
      assert h.redo[..|h.redo| - 1] + [h.redo[|h.redo| - 1]] == h.redo;
    } else if |h.undo| > 0 {
      assert |Undo(Redo(h)).redo| == 1;
    }
  }

  /** Right after a move there is nothing to redo, and undoing it returns to the
      position before it with the move's result the only thing left to redo. */
  lemma UndoAfterMakeMove<S>(h: History<S>, next: S)
    ensures Redo(MakeMove(h, next)) == MakeMove(h, next)
    ensures Undo(MakeMove(h, next)) == History(h.current, h.undo, [next])
  {
    assert (h.undo + [h.current])[..|h.undo|] == h.undo;
  }

  /** After a reset the start position is current and neither undo nor redo
      can leave it. */
  lemma ResetForgetsHistory<S>(h: History<S>, start: S)
    ensures Reset(h, start).current == start
    ensures Undo(Reset(h, start)) == Reset(h, start)
    ensures Redo(Reset(h, start)) == Reset(h, start)
    ensures Snapshots(Reset(h, start)) == multiset{start}
  {
  }

  /** `k` undos in a row. */
  function UndoTimes<S>(h: History<S>, k: nat): History<S>
    decreases k
  {
    if k == 0 then h else UndoTimes(Undo(h), k - 1)
  }

  /** `k` redos in a row. */
  function RedoTimes<S>(h: History<S>, k: nat): History<S>
  {
    if k == 0 then h else Redo(RedoTimes(h, k - 1))
  }

  /** Any number of undos, as long as there is something to undo each time, is
      taken back by the same number of redos. */
  lemma {:induction false} RedoTimesAfterUndoTimes<S>(h: History<S>, k: nat)
    requires k <= |h.undo|
    ensures RedoTimes(UndoTimes(h, k), k) == h
    decreases k
  {
    if k > 0 {
      RedoTimesAfterUndoTimes(Undo(h), k - 1);
      RedoAfterUndo(h);
    }
  }
}
