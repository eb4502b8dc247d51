/**
 Laws of a single timeline: the operations agree with the past/future
 reference model, undo and redo are inverse moves, and stepping at the tip
 only appends.
 */
module HistoryLaws {
  import opened Nullables
  import opened Histories

  /** Stepping is "drop the future, append to the past". */
  lemma InsertRefines(h: History, name: Nullable<string>, parameters: Parameters,
                      undoAction: Nullable<Action>, redoAction: Nullable<Action>)
    requires Valid(h)
    requires undoAction.Ref? || redoAction.Ref?
    ensures Split(Insert(h, name, parameters, undoAction, redoAction).history)
         == ZipInsert(Split(h), Step(name, parameters, undoAction, redoAction))
  {
  }

  /** Undo moves the last past step to the front of the future. */
  lemma UndoRefines(h: History)
    requires Valid(h)
    ensures Split(Undo(h).history) == ZipUndo(Split(h))
  {
  }

  /** Redo moves the first future step to the end of the past. */
  lemma RedoRefines(h: History)
    requires Valid(h)
    ensures Split(Redo(h).history) == ZipRedo(Split(h))
  {
  }

  /** Undo then redo returns to the same timeline, and runs exactly the undo
      block and then the redo block of one and the same step. */
  lemma UndoThenRedo(h: History)
    requires Valid(h)
    requires CountOfPrev(h) > 0
    ensures var u := Undo(h);
            var r := Redo(u.history);
            && u.ok && r.ok
            && r.history == h
            && u.trace + r.trace
               == Invoke(Backward, h.steps[h.cursor - 1], h.cursor - 1)
                + Invoke(Forward, h.steps[h.cursor - 1], h.cursor - 1)
  {
  }

  /** Redo then undo returns to the same timeline, running the redo block and
      then the undo block of the same step. */
  lemma RedoThenUndo(h: History)
    requires Valid(h)
    requires CountOfNext(h) > 0
    ensures var r := Redo(h);
            var u := Undo(r.history);
            && r.ok && u.ok
            && u.history == h
            && r.trace + u.trace
               == Invoke(Forward, h.steps[h.cursor], h.cursor)
                + Invoke(Backward, h.steps[h.cursor], h.cursor)
  {
  }

  /** At the tip nothing is discarded: stepping appends. */
  lemma InsertAtTipAppends(h: History, name: Nullable<string>, parameters: Parameters,
                           undoAction: Nullable<Action>, redoAction: Nullable<Action>)
    requires Valid(h)
    requires CountOfNext(h) == 0
    requires undoAction.Ref? || redoAction.Ref?
    ensures var r := Insert(h, name, parameters, undoAction, redoAction).history;
            && r.steps == h.steps + [Step(name, parameters, undoAction, redoAction)]
            && CountOfAll(r) == CountOfAll(h) + 1
            && PeekPrevName(r) == name
            && PeekNextName(r) == Nil
  {
  }

  /** Undo hands the step it reverses over to the redo side: the name the
      previous-peek showed is the name the next-peek shows afterwards. */
  lemma UndoShiftsPeek(h: History)
    requires Valid(h)
    requires CountOfPrev(h) > 0
    ensures PeekNextName(Undo(h).history) == PeekPrevName(h)
  {
  }

  /** Redo hands the step it applies over to the undo side. */
  lemma RedoShiftsPeek(h: History)
    requires Valid(h)
    requires CountOfNext(h) > 0
    ensures PeekPrevName(Redo(h).history) == PeekNextName(h)
  {
  }

  // ---------------------------------------------------------------------------
  // Repeated moves
  // ---------------------------------------------------------------------------

  /** `n` undo calls in a row: the timeline after them and the blocks they ran. */
  function UndoTimes(h: History, n: nat): (r: Outcome)
    requires Valid(h)
    ensures Valid(r.history)
    ensures r.history.steps == h.steps
    ensures r.history.cursor == if n <= h.cursor then h.cursor - n else 0
    ensures r.ok <==> n <= h.cursor
    ensures |r.trace| <= n
    decreases n
  {
    if n == 0 then Outcome(h, true, [])
    else
      var u := Undo(h);
      var rest := UndoTimes(u.history, n - 1);
      Outcome(rest.history, u.ok && rest.ok, u.trace + rest.trace)
  }

  /** `n` redo calls in a row. */
  function RedoTimes(h: History, n: nat): (r: Outcome)
    requires Valid(h)
    ensures Valid(r.history)
    ensures r.history.steps == h.steps
    ensures r.history.cursor == if h.cursor + n <= |h.steps| then h.cursor + n else |h.steps|
    ensures r.ok <==> h.cursor + n <= |h.steps|
    ensures |r.trace| <= n
    decreases n
  {
    if n == 0 then Outcome(h, true, [])
    else
      var u := Redo(h);
      var rest := RedoTimes(u.history, n - 1);
      Outcome(rest.history, u.ok && rest.ok, u.trace + rest.trace)
  }

  /** The undo blocks of steps `hi-1` down to `lo`, in the order `n` undo calls run them. */
  function UndoRun(steps: seq<Step>, lo: nat, hi: nat): seq<Invocation>
    requires lo <= hi <= |steps|
    decreases hi - lo
  {
    if lo == hi then [] else Invoke(Backward, steps[hi - 1], hi - 1) + UndoRun(steps, lo, hi - 1)
  }

  /** The redo blocks of steps `lo` up to `hi-1`, in the order redo calls run them. */
  function RedoRun(steps: seq<Step>, lo: nat, hi: nat): seq<Invocation>
    requires lo <= hi <= |steps|
    decreases hi - lo
  {
    if lo == hi then [] else Invoke(Forward, steps[lo], lo) + RedoRun(steps, lo + 1, hi)
  }

  /** Undoing `n` steps runs the undo blocks of the last `n` past steps, newest first. */
  lemma {:induction false} UndoTimesTrace(h: History, n: nat)
    requires Valid(h)
    requires n <= h.cursor
    ensures UndoTimes(h, n).trace == UndoRun(h.steps, h.cursor - n, h.cursor)
    decreases n
  {
    if n > 0 {
      var u := Undo(h);
      UndoTimesTrace(u.history, n - 1);
    }
  }

  /** Redoing `n` steps runs the redo blocks of the first `n` future steps, oldest first. */
  lemma {:induction false} RedoTimesTrace(h: History, n: nat)
    requires Valid(h)
    requires h.cursor + n <= |h.steps|
    ensures RedoTimes(h, n).trace == RedoRun(h.steps, h.cursor, h.cursor + n)
    decreases n
  {
    if n > 0 {
      var u := Redo(h);
      RedoTimesTrace(u.history, n - 1);
      assert RedoRun(h.steps, h.cursor, h.cursor + n)
          == Invoke(Forward, h.steps[h.cursor], h.cursor) + RedoRun(h.steps, h.cursor + 1, h.cursor + n);
    }
  }

  /** Undoing `n` steps and redoing `n` restores the timeline exactly. */
  lemma UndoTimesThenRedoTimes(h: History, n: nat)
    requires Valid(h)
    requires n <= CountOfPrev(h)
    ensures var u := UndoTimes(h, n);
            var r := RedoTimes(u.history, n);
            u.ok && r.ok && r.history == h
  {
  }
}
