/**
 Laws of the registry that relate several calls: unseen keys behave like
 empty timelines, keys are independent, undo and redo are inverse, clears
 are idempotent, and over any sequence of calls the blocks run are exactly
 blocks recorded by `step`, with the parameters recorded alongside them.
 */
module HistoryStoreLaws {
  import opened Nullables
  import opened Histories
  import opened HistoryStore

  // ---------------------------------------------------------------------------
  // Keys
  // ---------------------------------------------------------------------------

  /** A nil key and the default key address the same timeline. */
  lemma NilKeyIsDefaultKey(s: Store, n: Nullable<string>, p: Parameters,
                           ua: Nullable<Action>, ra: Nullable<Action>)
    requires WellFormed(s)
    ensures Lookup(s, Nil) == Lookup(s, Ref(DefaultKey))
    ensures StepForKey(s, Nil, n, p, ua, ra) == StepForKey(s, Ref(DefaultKey), n, p, ua, ra)
    ensures UndoStepForKey(s, Nil) == UndoStepForKey(s, Ref(DefaultKey))
    ensures RedoStepForKey(s, Nil) == RedoStepForKey(s, Ref(DefaultKey))
    ensures ClearAllStepsForKey(s, Nil) == ClearAllStepsForKey(s, Ref(DefaultKey))
  {
  }

  /** Every query on a key that was never stepped (or was cleared) answers
      as for an empty timeline, and undo and redo there fail without effect. */
  lemma UnseenKeyIsEmpty(s: Store, key: Key)
    requires WellFormed(s)
    requires Normalize(key) !in s.histories
    ensures CountOfAllStepsForKey(s, key) == 0
    ensures CountOfPrevStepsForKey(s, key) == 0
    ensures CountOfNextStepsForKey(s, key) == 0
    ensures PeekPrevStepNameForKey(s, key) == Nil
    ensures PeekNextStepNameForKey(s, key) == Nil
    ensures UndoStepForKey(s, key) == Reply(s, false, [])
    ensures RedoStepForKey(s, key) == Reply(s, false, [])
  {
  }

  /** Two registries that agree on a key give the same answers for it. */
  lemma QueriesDependOnlyOnKey(s: Store, t: Store, key: Key)
    requires WellFormed(s) && WellFormed(t)
    requires Normalize(key) in s.histories <==> Normalize(key) in t.histories
    requires Normalize(key) in s.histories ==> s.histories[Normalize(key)] == t.histories[Normalize(key)]
    ensures CountOfAllStepsForKey(s, key) == CountOfAllStepsForKey(t, key)
    ensures CountOfPrevStepsForKey(s, key) == CountOfPrevStepsForKey(t, key)
    ensures CountOfNextStepsForKey(s, key) == CountOfNextStepsForKey(t, key)
    ensures PeekPrevStepNameForKey(s, key) == PeekPrevStepNameForKey(t, key)
    ensures PeekNextStepNameForKey(s, key) == PeekNextStepNameForKey(t, key)
    ensures UndoStepForKey(s, key).ok == UndoStepForKey(t, key).ok
    ensures UndoStepForKey(s, key).trace == UndoStepForKey(t, key).trace
    ensures RedoStepForKey(s, key).ok == RedoStepForKey(t, key).ok
    ensures RedoStepForKey(s, key).trace == RedoStepForKey(t, key).trace
  {
  }

  /** A change confined to key `k` is invisible through any other key. */
  lemma OtherKeysUnaffected(s: Store, t: Store, k: string, other: Key)
    requires WellFormed(s) && WellFormed(t)
    requires OthersUnchanged(s, t, k)
    requires Normalize(other) != k
    ensures Lookup(s, other) == Lookup(t, other)
    ensures CountOfAllStepsForKey(s, other) == CountOfAllStepsForKey(t, other)
    ensures CountOfPrevStepsForKey(s, other) == CountOfPrevStepsForKey(t, other)
    ensures CountOfNextStepsForKey(s, other) == CountOfNextStepsForKey(t, other)
    ensures PeekPrevStepNameForKey(s, other) == PeekPrevStepNameForKey(t, other)
    ensures PeekNextStepNameForKey(s, other) == PeekNextStepNameForKey(t, other)
  {
    var o := Normalize(other);
    assert o in s.histories <==> o in s.histories - {k};
    assert o in t.histories <==> o in t.histories - {k};
    if o in s.histories {
      assert s.histories[o] == (s.histories - {k})[o];
      assert t.histories[o] == (t.histories - {k})[o];
    }
  }

  // ---------------------------------------------------------------------------
  // Undo and redo
  // ---------------------------------------------------------------------------

  /** Undo followed by redo on the same key restores the registry exactly and
      runs the undo block and then the redo block of one and the same step. */
  lemma UndoThenRedoForKey(s: Store, key: Key)
    requires WellFormed(s)
    requires CountOfPrevStepsForKey(s, key) > 0
    ensures var u := UndoStepForKey(s, key);
            var r := RedoStepForKey(u.store, key);
            var i := CountOfPrevStepsForKey(s, key) - 1;
            var st := Lookup(s, key).steps[i];
            && u.ok && r.ok
            && r.store == s
            && u.trace + r.trace == Invoke(Backward, st, i) + Invoke(Forward, st, i)
  {
  }

  /** Redo followed by undo on the same key restores the registry exactly. */
  lemma RedoThenUndoForKey(s: Store, key: Key)
    requires WellFormed(s)
    requires CountOfNextStepsForKey(s, key) > 0
    ensures var r := RedoStepForKey(s, key);
            var u := UndoStepForKey(r.store, key);
            var i := CountOfPrevStepsForKey(s, key);
            var st := Lookup(s, key).steps[i];
            && r.ok && u.ok
            && u.store == s
            && r.trace + u.trace == Invoke(Forward, st, i) + Invoke(Backward, st, i)
  {
  }

  // ---------------------------------------------------------------------------
  // Clearing
  // ---------------------------------------------------------------------------

  /** Clearing a key twice is clearing it once. */
  lemma ClearForKeyIdempotent(s: Store, key: Key)
    requires WellFormed(s)
    ensures ClearAllStepsForKey(ClearAllStepsForKey(s, key), key) == ClearAllStepsForKey(s, key)
  {
  }

  /** Clearing a key that has no timeline changes nothing. */
  lemma ClearUnseenKeyIsNoOp(s: Store, key: Key)
    requires WellFormed(s)
    requires Normalize(key) !in s.histories
    ensures ClearAllStepsForKey(s, key) == s
  {
  }

  /** After clearing everything, every key reads as never stepped. */
  lemma ClearAllForgetsEveryKey(s: Store, key: Key)
    requires WellFormed(s)
    ensures var t := ClearAllSteps(s);
            && CountOfPrevStepsForKey(t, key) == 0
            && CountOfNextStepsForKey(t, key) == 0
            && PeekPrevStepNameForKey(t, key) == Nil
            && PeekNextStepNameForKey(t, key) == Nil
            && !UndoStepForKey(t, key).ok
            && !RedoStepForKey(t, key).ok
  {
  }

  // ---------------------------------------------------------------------------
  // Sequences of calls
  // ---------------------------------------------------------------------------

  /** One call of the manager's state-changing interface. */
  datatype Call =
    | StepCall(key: Key, stepName: Nullable<string>, parameters: Parameters,
               undoAction: Nullable<Action>, redoAction: Nullable<Action>)
    | UndoCall(key: Key)
    | RedoCall(key: Key)
    | ClearKeyCall(key: Key)
    | ClearAllCall

  /** The step a `StepCall` asks to record. */
  function Recorded(c: Call): Step
    requires c.StepCall?
  {
    Step(c.stepName, c.parameters, c.undoAction, c.redoAction)
  }

  function Apply(s: Store, c: Call): (r: Reply)
    requires WellFormed(s)
    ensures WellFormed(r.store)
  {
    match c
    case StepCall(key, n, p, ua, ra) => StepForKey(s, key, n, p, ua, ra)
    case UndoCall(key) => UndoStepForKey(s, key)
    case RedoCall(key) => RedoStepForKey(s, key)
    case ClearKeyCall(key) => Reply(ClearAllStepsForKey(s, key), true, [])
    case ClearAllCall => Reply(ClearAllSteps(s), true, [])
  }

  /** The calls made one after another: the final registry, whether the last
      call succeeded, and every block run, in order. The registry stays well
      formed through any sequence of calls. */
  function Run(s: Store, calls: seq<Call>): (r: Reply)
    requires WellFormed(s)
    ensures WellFormed(r.store)
    decreases |calls|
  {
    if |calls| == 0 then Reply(s, true, [])
    else
      var first := Apply(s, calls[0]);
      var rest := Run(first.store, calls[1..]);
      Reply(rest.store, if |calls| == 1 then first.ok else rest.ok, first.trace + rest.trace)
  }

  /** `inv` is a call of one of `st`'s blocks, with `st`'s parameters. */
  predicate RunsBlockOf(inv: Invocation, st: Step) {
    && Ref(inv.action) == ActionFor(st, inv.direction)
    && inv.parameters == st.parameters
  }

  /** Every step stored in the registry belongs to `origin`. */
  ghost predicate StepsFrom(s: Store, origin: set<Step>) {
    forall k, i :: k in s.histories && 0 <= i < |s.histories[k].steps| ==> s.histories[k].steps[i] in origin
  }

  /** Every step that `calls` asks to record belongs to `origin`. */
  ghost predicate CallsFrom(calls: seq<Call>, origin: set<Step>) {
    forall j :: 0 <= j < |calls| && calls[j].StepCall? ==> Recorded(calls[j]) in origin
  }

  /** `inv` runs a block of some step in `origin`, with that step's parameters. */
  ghost predicate Explained(inv: Invocation, origin: set<Step>) {
    exists st :: st in origin && RunsBlockOf(inv, st)
  }

  /** Every block run is explained by a step in `origin`. */
  ghost predicate TraceFrom(trace: seq<Invocation>, origin: set<Step>) {
    forall j :: 0 <= j < |trace| ==> Explained(trace[j], origin)
  }

  lemma InvokeFrom(d: Direction, st: Step, index: nat, origin: set<Step>)
    requires st in origin
    ensures TraceFrom(Invoke(d, st, index), origin)
  {
  }

  /** Recording a step keeps only steps already stored, plus the new one. */
  lemma StepKeepsStepsFrom(s: Store, c: Call, origin: set<Step>)
    requires WellFormed(s)
    requires StepsFrom(s, origin)
    requires c.StepCall? && Recorded(c) in origin
    ensures StepsFrom(StepForKey(s, c.key, c.stepName, c.parameters, c.undoAction, c.redoAction).store, origin)
  {
    var r := StepForKey(s, c.key, c.stepName, c.parameters, c.undoAction, c.redoAction);
    if r.ok {
      var kk := Normalize(c.key);
      var prev := Lookup(s, c.key);
      var h := r.store.histories[kk];
      forall k, i | k in r.store.histories && 0 <= i < |r.store.histories[k].steps|
        ensures r.store.histories[k].steps[i] in origin
      {
        if k == kk {
          if i < prev.cursor {
            assert h.steps[i] == prev.steps[i];
          } else {
            assert h.steps[i] == Recorded(c);
          }
        } else {
          assert k in r.store.histories - {kk};
          assert r.store.histories[k] == s.histories[k];
        }
      }
    }
  }

  /** Undo and redo run a block of a stored step and store nothing new. */
  lemma MoveKeepsStepsFrom(s: Store, key: Key, d: Direction, origin: set<Step>)
    requires WellFormed(s)
    requires StepsFrom(s, origin)
    ensures var r := if d == Backward then UndoStepForKey(s, key) else RedoStepForKey(s, key);
            StepsFrom(r.store, origin) && TraceFrom(r.trace, origin)
  {
    var kk := Normalize(key);
    var r := if d == Backward then UndoStepForKey(s, key) else RedoStepForKey(s, key);
    if r.ok {
      var h := s.histories[kk];
      var i := if d == Backward then h.cursor - 1 else h.cursor;
      assert h.steps[i] in origin;
      InvokeFrom(d, h.steps[i], i, origin);
      assert r.store.histories == s.histories[kk := History(h.steps, r.store.histories[kk].cursor)];
    }
  }

  lemma ApplyFrom(s: Store, c: Call, origin: set<Step>)
    requires WellFormed(s)
    requires StepsFrom(s, origin)
    requires c.StepCall? ==> Recorded(c) in origin
    ensures StepsFrom(Apply(s, c).store, origin)
    ensures TraceFrom(Apply(s, c).trace, origin)
  {
    match c
    case StepCall(_, _, _, _, _) => StepKeepsStepsFrom(s, c, origin);
    case UndoCall(key) => MoveKeepsStepsFrom(s, key, Backward, origin);
    case RedoCall(key) => MoveKeepsStepsFrom(s, key, Forward, origin);
    case ClearKeyCall(key) =>
    case ClearAllCall =>
  }

  lemma TraceFromConcat(t1: seq<Invocation>, t2: seq<Invocation>, origin: set<Step>)
    requires TraceFrom(t1, origin) && TraceFrom(t2, origin)
    ensures TraceFrom(t1 + t2, origin)
  {
  }

  lemma CallsFromTail(calls: seq<Call>, origin: set<Step>)
    requires |calls| > 0
    requires CallsFrom(calls, origin)
    ensures calls[0].StepCall? ==> Recorded(calls[0]) in origin
    ensures CallsFrom(calls[1..], origin)
  {
  }

  /** Over any sequence of calls, the registry only ever holds steps that were
      there at the start or were recorded by one of the calls, and every block
      run is one of those steps' blocks, invoked with exactly the parameters
      recorded with it. */
  lemma {:induction false} RunRunsOnlyRecordedBlocks(s: Store, calls: seq<Call>, origin: set<Step>)
    requires WellFormed(s)
    requires StepsFrom(s, origin)
    requires CallsFrom(calls, origin)
    ensures StepsFrom(Run(s, calls).store, origin)
    ensures TraceFrom(Run(s, calls).trace, origin)
    decreases |calls|
  {
    if |calls| > 0 {
      CallsFromTail(calls, origin);
      var first := Apply(s, calls[0]);
      ApplyFrom(s, calls[0], origin);
      RunRunsOnlyRecordedBlocks(first.store, calls[1..], origin);
      var rest := Run(first.store, calls[1..]);
      TraceFromConcat(first.trace, rest.trace, origin);
    }
  }

  /** Calls that each record a step, with at least one block, on `key`. */
  predicate StepsOnKey(calls: seq<Call>, key: Key) {
    forall j :: 0 <= j < |calls| ==>
      calls[j].StepCall? && calls[j].key == key && (calls[j].undoAction.Ref? || calls[j].redoAction.Ref?)
  }

  /** After `N` steps with a block on a key, with no undo in between, the key
      has exactly `N` more undoable steps (so each of them recorded its step)
      and nothing to redo; the last call reports success, no block runs, and
      every other key is left alone. */
  lemma {:induction false} RepeatedStepsCount(s: Store, key: Key, calls: seq<Call>)
    requires WellFormed(s)
    requires StepsOnKey(calls, key)
    requires CountOfNextStepsForKey(s, key) == 0
    ensures var r := Run(s, calls);
            && r.ok
            && r.trace == []
            && CountOfPrevStepsForKey(r.store, key) == CountOfPrevStepsForKey(s, key) + |calls|
            && CountOfNextStepsForKey(r.store, key) == 0
            && CountOfAllStepsForKey(r.store, key) == CountOfAllStepsForKey(s, key) + |calls|
            && OthersUnchanged(s, r.store, Normalize(key))
    decreases |calls|
  {
    if |calls| > 0 {
      var first := Apply(s, calls[0]);
      assert StepsOnKey(calls[1..], key) by {
        forall j | 0 <= j < |calls[1..]|
          ensures calls[1..][j].StepCall? && calls[1..][j].key == key
                  && (calls[1..][j].undoAction.Ref? || calls[1..][j].redoAction.Ref?)
        {
          assert calls[1..][j] == calls[j + 1];
        }
      }
      RepeatedStepsCount(first.store, key, calls[1..]);
    }
  }

  // ---------------------------------------------------------------------------
  // Scenarios
  // ---------------------------------------------------------------------------

  /** Step "rename" with parameters {to: x} on "k", then undo it. */
  lemma RenameScenario(undoA: Action, redoA: Action, x: Value)
    ensures var key := Ref("k");
            var p: Parameters := Ref(map["to" := x]);
            var s1 := StepForKey(Init(), key, Ref("rename"), p, Ref(undoA), Ref(redoA));
            var s2 := UndoStepForKey(s1.store, key);
            && s1.ok
            && CountOfAllStepsForKey(s1.store, key) == 1
            && PeekPrevStepNameForKey(s1.store, key) == Ref("rename")
            && PeekNextStepNameForKey(s1.store, key) == Nil
            && s2.ok
            && s2.trace == [Invocation(Backward, 0, undoA, p)]
            && CountOfPrevStepsForKey(s2.store, key) == 0
            && CountOfNextStepsForKey(s2.store, key) == 1
            && PeekNextStepNameForKey(s2.store, key) == Ref("rename")
  {
  }

  /** A step with neither block is refused and leaves the count as it was. */
  lemma NoBlocksScenario(s: Store, key: Key, stepName: Nullable<string>, p: Parameters)
    requires WellFormed(s)
    ensures var r := StepForKey(s, key, stepName, p, Nil, Nil);
            !r.ok && CountOfAllStepsForKey(r.store, key) == CountOfAllStepsForKey(s, key)
  {
  }

  /** A registry holding one timeline, under `key`. */
  function Single(key: Key, h: History): Store {
    Store(map[Normalize(key) := h])
  }

  /** Recording `st` on the only key of a registry drops its redo side and appends. */
  lemma StepOnSingle(key: Key, h: History, st: Step)
    requires Valid(h) && |h.steps| > 0
    requires st.undoAction.Ref?
    ensures StepForKey(Single(key, h), key, st.name, st.parameters, st.undoAction, st.redoAction)
            == Reply(Single(key, History(h.steps[..h.cursor] + [st], h.cursor + 1)), true, [])
  {
  }

  /** Undoing on the only key of a registry moves its cursor back by one. */
  lemma UndoOnSingle(key: Key, h: History)
    requires Valid(h) && |h.steps| > 0
    requires h.cursor > 0
    ensures UndoStepForKey(Single(key, h), key)
            == Reply(Single(key, History(h.steps, h.cursor - 1)), true,
                     Invoke(Backward, h.steps[h.cursor - 1], h.cursor - 1))
  {
  }

  /** Steps A, B, C on one key; undo twice, which runs C's and then B's undo
      block; step D. The timeline becomes [A, D] with the cursor at its end,
      nothing is left to redo, and B and C are gone. */
  lemma TruncationScenario(key: Key, a: Step, b: Step, c: Step, d: Step)
    requires a.undoAction.Ref? && b.undoAction.Ref? && c.undoAction.Ref? && d.undoAction.Ref?
    ensures var r1 := StepForKey(Init(), key, a.name, a.parameters, a.undoAction, a.redoAction);
            var r2 := StepForKey(r1.store, key, b.name, b.parameters, b.undoAction, b.redoAction);
            var r3 := StepForKey(r2.store, key, c.name, c.parameters, c.undoAction, c.redoAction);
            var r4 := UndoStepForKey(r3.store, key);
            var r5 := UndoStepForKey(r4.store, key);
            var r6 := StepForKey(r5.store, key, d.name, d.parameters, d.undoAction, d.redoAction);
            && r4.trace == [Invocation(Backward, 2, c.undoAction.value, c.parameters)]
            && r5.trace == [Invocation(Backward, 1, b.undoAction.value, b.parameters)]
            && CountOfPrevStepsForKey(r5.store, key) == 1
            && r6.ok
            && r6.store == Single(key, History([a, d], 2))
            && CountOfNextStepsForKey(r6.store, key) == 0
            && PeekNextStepNameForKey(r6.store, key) == Nil
  {
    ThreeSteps(key, a, b, c);
    var r1 := StepForKey(Init(), key, a.name, a.parameters, a.undoAction, a.redoAction);
    var r2 := StepForKey(r1.store, key, b.name, b.parameters, b.undoAction, b.redoAction);
    var r3 := StepForKey(r2.store, key, c.name, c.parameters, c.undoAction, c.redoAction);
    UndoOnSingle(key, History([a, b, c], 3));
    var r4 := UndoStepForKey(r3.store, key);
    assert r4.store == Single(key, History([a, b, c], 2));
    UndoOnSingle(key, History([a, b, c], 2));
    var r5 := UndoStepForKey(r4.store, key);
    assert r5.store == Single(key, History([a, b, c], 1));
    StepOnSingle(key, History([a, b, c], 1), d);
    assert [a, b, c][..1] + [d] == [a, d];
  }

  /** Three steps on a fresh registry leave them all undoable, in order. */
  lemma ThreeSteps(key: Key, a: Step, b: Step, c: Step)
    requires a.undoAction.Ref? && b.undoAction.Ref? && c.undoAction.Ref?
    ensures var r1 := StepForKey(Init(), key, a.name, a.parameters, a.undoAction, a.redoAction);
            var r2 := StepForKey(r1.store, key, b.name, b.parameters, b.undoAction, b.redoAction);
            var r3 := StepForKey(r2.store, key, c.name, c.parameters, c.undoAction, c.redoAction);
            r3 == Reply(Single(key, History([a, b, c], 3)), true, [])
  {
    StepOnInit(key, a);
    var r1 := StepForKey(Init(), key, a.name, a.parameters, a.undoAction, a.redoAction);
    StepOnSingle(key, History([a], 1), b);
    assert [a][..1] + [b] == [a, b];
    var r2 := StepForKey(r1.store, key, b.name, b.parameters, b.undoAction, b.redoAction);
    assert r2 == Reply(Single(key, History([a, b], 2)), true, []);
    StepOnSingle(key, History([a, b], 2), c);
    assert [a, b][..2] + [c] == [a, b, c];
  }

  /** The first successful step on a fresh registry creates a one-step timeline. */
  lemma StepOnInit(key: Key, st: Step)
    requires st.undoAction.Ref?
    ensures StepForKey(Init(), key, st.name, st.parameters, st.undoAction, st.redoAction)
            == Reply(Single(key, History([st], 1)), true, [])
  {
    assert Lookup(Init(), key) == Empty();
    assert Insert(Empty(), st.name, st.parameters, st.undoAction, st.redoAction).history == History([st], 1);
  }

  /** The steps a truncation discarded are never run again: from the timeline
      [A, D] left by the scenario above, any later calls that do not record B
      or C anew only ever run blocks of A, D or of steps those later calls
      record, each with its own parameters. */
  lemma DiscardedStepsNeverRun(key: Key, a: Step, b: Step, c: Step, d: Step, later: seq<Call>)
    requires b !in {a, d} && c !in {a, d}
    requires forall j :: 0 <= j < |later| && later[j].StepCall? ==> Recorded(later[j]) !in {b, c}
    ensures var origin := {a, d} + (set j | 0 <= j < |later| && later[j].StepCall? :: Recorded(later[j]));
            && b !in origin && c !in origin
            && TraceFrom(Run(Single(key, History([a, d], 2)), later).trace, origin)
  {
    var s := Single(key, History([a, d], 2));
    var origin := {a, d} + (set j | 0 <= j < |later| && later[j].StepCall? :: Recorded(later[j]));
    assert StepsFrom(s, origin);
    assert CallsFrom(later, origin);
    RunRunsOnlyRecordedBlocks(s, later, origin);
  }
}
