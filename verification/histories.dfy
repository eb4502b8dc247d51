/**
 One key's undo/redo timeline: the ordered steps recorded for that key and
 a cursor that splits them into the undoable past (indices below the cursor)
 and the redoable future (indices from the cursor on).
 */
module Histories {
  import opened Nullables

  /** A caller-supplied `P9HistoryManagerAction` block. The manager never looks
      inside a block; it only stores it and later invokes it, so a block is
      modelled by its identity alone. */
  datatype Action = Block(id: nat)

  /** An object held in a parameters dictionary; opaque to the manager. */
  datatype Value = ObjectRef(id: nat)

  /** The `NSDictionary * _Nullable` given to `step` and handed back to the
      undo and redo blocks. */
  type Parameters = Nullable<map<string, Value>>

  /** One recorded step. Both the name and the parameters may be nil. */
  datatype Step = Step(
    name: Nullable<string>,
    parameters: Parameters,
    undoAction: Nullable<Action>,
    redoAction: Nullable<Action>)

  /** Which of a step's two blocks was run. */
  datatype Direction = Backward | Forward

  /** One call of a block: `action` was run with `parameters`, on behalf of the
      step stored at `index`. A trace of these stands for the blocks' effects. */
  datatype Invocation = Invocation(direction: Direction, index: nat, action: Action, parameters: Parameters)

  datatype History = History(steps: seq<Step>, cursor: nat)

  /** The new timeline after an operation, its `BOOL` result, and the blocks it ran. */
  datatype Outcome = Outcome(history: History, ok: bool, trace: seq<Invocation>)

  /** The cursor never leaves `[0, |steps|]`. */
  predicate Valid(h: History) {
    h.cursor <= |h.steps|
  }

  /** The timeline of a key that has never been stepped. */
  function Empty(): History {
    History([], 0)
  }

  function CountOfAll(h: History): nat {
    |h.steps|
  }

  function CountOfPrev(h: History): nat {
    h.cursor
  }

  /** The number of redoable steps: the length of the future, while the
      number of undoable steps is the length of the past. */
  function CountOfNext(h: History): (r: nat)
    requires Valid(h)
    ensures r == |Split(h).future|
    ensures CountOfPrev(h) == |Split(h).past|
    ensures CountOfAll(h) == CountOfPrev(h) + r
  {
    |h.steps| - h.cursor
  }

  /** The block of `st` that a move in direction `d` runs. */
  function ActionFor(st: Step, d: Direction): Nullable<Action> {
    if d == Backward then st.undoAction else st.redoAction
  }

  /** What moving over `st` (stored at `index`) in direction `d` runs: the
      matching block with exactly the parameters given at `step` time, or
      nothing when that block is nil. */
  function Invoke(d: Direction, st: Step, index: nat): (t: seq<Invocation>)
    ensures |t| <= 1
    ensures ActionFor(st, d).Ref? <==> |t| == 1
    ensures forall inv :: inv in t ==>
      inv == Invocation(d, index, ActionFor(st, d).value, st.parameters)
  {
    match ActionFor(st, d)
    case Ref(a) => [Invocation(d, index, a, st.parameters)]
    case Nil => []
  }

  // ---------------------------------------------------------------------------
  // Reference model: the timeline as the undoable past and the redoable future
  // ---------------------------------------------------------------------------

  /** `past` in chronological order (its last element is undone next);
      `future` in chronological order (its first element is redone next). */
  datatype Zipper = Zipper(past: seq<Step>, future: seq<Step>)

  function Split(h: History): Zipper
    requires Valid(h)
  {
    Zipper(h.steps[..h.cursor], h.steps[h.cursor..])
  }

  function Join(z: Zipper): History {
    History(z.past + z.future, |z.past|)
  }

  /** Undo moves the last past step to the front of the future. */
  function ZipUndo(z: Zipper): Zipper {
    if |z.past| == 0 then z
    else Zipper(z.past[..|z.past| - 1], [z.past[|z.past| - 1]] + z.future)
  }

  /** Redo moves the first future step to the end of the past. */
  function ZipRedo(z: Zipper): Zipper {
    if |z.future| == 0 then z
    else Zipper(z.past + [z.future[0]], z.future[1..])
  }

  /** Stepping drops the whole future and appends to the past. */
  function ZipInsert(z: Zipper, st: Step): Zipper {
    Zipper(z.past + [st], [])
  }

  /** The two representations describe the same timelines. */
  lemma JoinSplit(h: History)
    requires Valid(h)
    ensures Join(Split(h)) == h
  {
  }

  lemma SplitJoin(z: Zipper)
    ensures Valid(Join(z))
    ensures Split(Join(z)) == z
  {
  }

  // ---------------------------------------------------------------------------
  // Operations
  // ---------------------------------------------------------------------------

  /** Name of the step the next undo would reverse; nil when there is none
      (or when that step was given a nil name). */
  function PeekPrevName(h: History): (r: Nullable<string>)
    requires Valid(h)
    ensures |Split(h).past| == 0 ==> r == Nil
    ensures |Split(h).past| > 0 ==> r == Split(h).past[|Split(h).past| - 1].name
  {
    if h.cursor == 0 then Nil else h.steps[h.cursor - 1].name
  }

  /** Name of the step the next redo would apply; nil when there is none
      (or when that step was given a nil name). */
  function PeekNextName(h: History): (r: Nullable<string>)
    requires Valid(h)
    ensures |Split(h).future| == 0 ==> r == Nil
    ensures |Split(h).future| > 0 ==> r == Split(h).future[0].name
  {
    if h.cursor == |h.steps| then Nil else h.steps[h.cursor].name
  }

  /** Records a step. A step with neither an undo nor a redo block is refused
      and changes nothing. Otherwise every step from the cursor on is
      discarded, the new step is appended and the cursor moves past it.
      Nothing is invoked: the caller has already performed the action. */
  function Insert(h: History, name: Nullable<string>, parameters: Parameters,
                  undoAction: Nullable<Action>, redoAction: Nullable<Action>): (r: Outcome)
    requires Valid(h)
    ensures Valid(r.history)
    ensures r.trace == []
    ensures r.ok <==> undoAction.Ref? || redoAction.Ref?
    ensures !r.ok ==> r.history == h
    ensures r.ok ==> CountOfPrev(r.history) == CountOfPrev(h) + 1
    ensures r.ok ==> CountOfNext(r.history) == 0
    ensures r.ok ==> forall i :: 0 <= i < h.cursor ==> r.history.steps[i] == h.steps[i]
    ensures r.ok ==> r.history.steps[h.cursor] == Step(name, parameters, undoAction, redoAction)
  {
    if undoAction.Nil? && redoAction.Nil? then
      Outcome(h, false, [])
    else
      var steps := h.steps[..h.cursor] + [Step(name, parameters, undoAction, redoAction)];
      Outcome(History(steps, |steps|), true, [])
  }

  /** Runs the undo block of the step just before the cursor and moves the
      cursor back by one; with nothing to undo it returns false and changes nothing. */
  function Undo(h: History): (r: Outcome)
    requires Valid(h)
    ensures Valid(r.history)
    ensures r.history.steps == h.steps
    ensures r.ok <==> CountOfPrev(h) > 0
    ensures !r.ok ==> r.history == h && r.trace == []
    ensures r.ok ==> CountOfPrev(r.history) + 1 == CountOfPrev(h)
    ensures r.ok ==> CountOfNext(r.history) == CountOfNext(h) + 1
    ensures r.ok ==> r.trace == Invoke(Backward, h.steps[h.cursor - 1], h.cursor - 1)
  {
    if h.cursor == 0 then
      Outcome(h, false, [])
    else
      var i := h.cursor - 1;
      Outcome(History(h.steps, i), true, Invoke(Backward, h.steps[i], i))
  }

  /** Runs the redo block of the step at the cursor and moves the cursor
      forward by one; with nothing to redo it returns false and changes nothing. */
  function Redo(h: History): (r: Outcome)
    requires Valid(h)
    ensures Valid(r.history)
    ensures r.history.steps == h.steps
    ensures r.ok <==> CountOfNext(h) > 0
    ensures !r.ok ==> r.history == h && r.trace == []
    ensures r.ok ==> CountOfPrev(r.history) == CountOfPrev(h) + 1
    ensures r.ok ==> CountOfNext(r.history) + 1 == CountOfNext(h)
    ensures r.ok ==> r.trace == Invoke(Forward, h.steps[h.cursor], h.cursor)
  {
    if h.cursor == |h.steps| then
      Outcome(h, false, [])
    else
      var i := h.cursor;
      Outcome(History(h.steps, i + 1), true, Invoke(Forward, h.steps[i], i))
  }
}
