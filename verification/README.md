# P9HistoryManager in Dafny

A model of `P9HistoryManager`, a keyed undo/redo history manager for
Objective-C. Callers record *steps* under a string key: each step has a name,
a parameters dictionary, and an optional undo block and redo block. Each key
owns one linear timeline. A cursor splits the timeline into the undoable past
and the redoable future. Undo runs the undo block of the step just before the
cursor and moves the cursor back. Redo runs the redo block of the step at the
cursor and moves it forward. Recording a step while some steps are undone
discards them ("it'll rewrite all events from current step to last").

The model is functional. There is no singleton: the registry is a `Store`
value that every operation takes. Each state-changing operation returns the
new store, its `BOOL` result and a trace of the blocks it ran.

Modules:

- `Nullables` (`nullable.dfy`): `Nullable`, a `_Nullable` object pointer (`Nil` or `Ref(value)`).
- `Histories` (`histories.dfy`): one key's timeline. It holds `History` (steps and cursor) and the
  operations `Insert`, `Undo`, `Redo`, `PeekPrevName` and `PeekNextName`. It also holds a reference
  model, `Zipper` (past and future as two sequences), with the maps `Split` and `Join` between the two.
- `HistoryLaws` (`history_laws.dfy`): the timeline operations agree with the reference model;
  undo and redo are inverse; repeated undo and redo.
- `HistoryStore` (`history_store.dfy`): the registry and the public selectors of the header, one
  function each.
- `HistoryStoreLaws` (`store_laws.dfy`): laws across calls. They cover key independence, nil-key
  normalisation, clears, and `Run`, which replays any sequence of calls. They also prove where every
  block run comes from, and the worked scenarios.

Modelling decisions:

- A block is opaque and is identified by its identity (`Action = Block(id)`).
  "Invoking" it appends an `Invocation(direction, index, action, parameters)` to the trace.
- A nil key is normalised to `DefaultKey`, the empty string. So a nil key and `@""` address the same
  timeline.
- A nil step name is kept as `Nil`. The peek selectors return `NSString * _Nullable`, so a step
  recorded with a nil name peeks as nil, the same as "no step there".
- `step` fails exactly when both blocks are nil. On failure nothing changes and no key is registered.
  A step with only one block is accepted. Moving over it in the direction whose block is nil still
  moves the cursor but runs nothing.
- `step` runs no block: the caller has already performed the action.
- Timelines are created by the first successful `step` on a key and removed by the clear selectors.
  No query, undo or redo creates one. `WellFormed` is the registry invariant. It says every
  registered timeline has `cursor <= |steps|` and at least one step. `Init` establishes it, every
  operation preserves it (`Run`), and the operations require it.

## Model

| member | source | states |
|---|---|---|
| Histories.CountOfNext | Sources/P9HistoryManager.h:38-50 | The next count is the length of the redoable future, the previous count is the length of the undoable past, and together they make up all steps |
| Histories.Invoke | Sources/P9HistoryManager.h:12-16 | A move runs the step's matching block with the exact parameters recorded by `step`, or nothing when that block is nil |
| Histories.PeekPrevName | Sources/P9HistoryManager.h:63-68 | The previous name is the name of the last step of the undoable past; nil when the past is empty |
| Histories.PeekNextName | Sources/P9HistoryManager.h:70-75 | The next name is the name of the first step of the redoable future; nil when the future is empty |
| Histories.Insert | Sources/P9HistoryManager.h:52-61 | Refused (false, no change) exactly when both blocks are nil; otherwise the past is kept element by element, the new step follows it, the future is empty, the past grows by one, and nothing is run |
| Histories.Undo | Sources/P9HistoryManager.h:77-82 | Succeeds exactly when the past is non-empty; the past shrinks by one and the future grows by one; only the undo block of the step before the cursor runs; on failure nothing changes |
| Histories.Redo | Sources/P9HistoryManager.h:84-89 | Succeeds exactly when the future is non-empty; the cursor moves forward by one; only the redo block of the step at the cursor runs; on failure nothing changes |
| Histories.JoinSplit | Sources/P9HistoryManager.h:38-50 | The cursor position and the past/future split describe the same timeline (one direction) |
| Histories.SplitJoin | Sources/P9HistoryManager.h:38-50 | The past/future split and the cursor position describe the same timeline (other direction) |
| HistoryLaws.InsertRefines | Sources/P9HistoryManager.h:52-61 | Recording a step drops the whole redoable future and appends the step to the past |
| HistoryLaws.UndoRefines | Sources/P9HistoryManager.h:77-82 | Undo moves the last past step to the front of the future |
| HistoryLaws.RedoRefines | Sources/P9HistoryManager.h:84-89 | Redo moves the first future step to the end of the past |
| HistoryLaws.UndoThenRedo | Sources/P9HistoryManager.h:77-89 | Undo then redo restores the timeline and runs the undo block then the redo block of the same step |
| HistoryLaws.RedoThenUndo | Sources/P9HistoryManager.h:77-89 | Redo then undo restores the timeline and runs the redo block then the undo block of the same step |
| HistoryLaws.InsertAtTipAppends | Sources/P9HistoryManager.h:52-61 | With nothing to redo, a step is appended to all existing steps and becomes the previous name, with no next name |
| HistoryLaws.UndoShiftsPeek | Sources/P9HistoryManager.h:63-82 | After an undo, the next name is what the previous name was before |
| HistoryLaws.RedoShiftsPeek | Sources/P9HistoryManager.h:63-89 | After a redo, the previous name is what the next name was before |
| HistoryLaws.UndoTimes | Sources/P9HistoryManager.h:77-82 | n undo calls move the cursor back by n, stopping at 0, never change the steps, and all succeed exactly when n <= previous count |
| HistoryLaws.RedoTimes | Sources/P9HistoryManager.h:84-89 | n redo calls move the cursor forward by n, stopping at the end, and all succeed exactly when n <= next count |
| HistoryLaws.UndoTimesTrace | Sources/P9HistoryManager.h:77-82 | n undo calls run the undo blocks of the last n past steps, newest first |
| HistoryLaws.RedoTimesTrace | Sources/P9HistoryManager.h:84-89 | n redo calls run the redo blocks of the first n future steps, oldest first |
| HistoryLaws.UndoTimesThenRedoTimes | Sources/P9HistoryManager.h:77-89 | Undoing n steps and then redoing n restores the timeline |
| HistoryStore.Init | Sources/P9HistoryManager.h:25-29 | The registry starts well formed, with no key registered |
| HistoryStore.Lookup | Sources/P9HistoryManager.h:31-36 | A key's timeline is the registered one, or the empty timeline for an unseen key |
| HistoryStore.CountOfAllStepsForKey | Sources/P9HistoryManager.h:31-36 | The number of steps in the key's timeline, equal to previous + next; it is 0 exactly when the key has no timeline |
| HistoryStore.CountOfPrevStepsForKey | Sources/P9HistoryManager.h:38-43 | The number of undoable steps (the length of the key's past); 0 for an unseen key |
| HistoryStore.CountOfNextStepsForKey | Sources/P9HistoryManager.h:45-50 | The number of redoable steps (the length of the key's future); 0 for an unseen key |
| HistoryStore.PeekPrevStepNameForKey | Sources/P9HistoryManager.h:63-68 | Nil when the previous count is 0, else the name of the step just before the cursor |
| HistoryStore.PeekNextStepNameForKey | Sources/P9HistoryManager.h:70-75 | Nil when the next count is 0, else the name of the step at the cursor |
| HistoryStore.StepForKey | Sources/P9HistoryManager.h:52-61 | Succeeds exactly when a block is given. On failure the registry is unchanged. On success the key is registered, the previous count grows by one, the next count is 0, the previous name is the new name, earlier past steps are kept, and other keys are untouched |
| HistoryStore.UndoStepForKey | Sources/P9HistoryManager.h:77-82 | Succeeds exactly when the previous count is positive and then runs only that step's undo block with its recorded parameters. Counts shift by one, steps are unchanged, no key is created or removed, other keys are untouched, and on failure nothing changes |
| HistoryStore.RedoStepForKey | Sources/P9HistoryManager.h:84-89 | Succeeds exactly when the next count is positive and then runs only the redo block of the step at the cursor. Counts shift by one, no key is created or removed, other keys are untouched, and on failure nothing changes |
| HistoryStore.ClearAllStepsForKey | Sources/P9HistoryManager.h:91-95 | The key is no longer registered, its count is 0, and every other key keeps its timeline |
| HistoryStore.ClearAllSteps | Sources/P9HistoryManager.h:97-100 | Every key reports zero steps |
| HistoryStoreLaws.NilKeyIsDefaultKey | Sources/P9HistoryManager.h:36 | A nil key addresses the same timeline as the default key: the same lookup, and the same result from step, undo, redo and clear |
| HistoryStoreLaws.UnseenKeyIsEmpty | Sources/P9HistoryManager.h:31-89 | On an unseen key all counts are 0, both peeks are nil, and undo and redo return false without effect |
| HistoryStoreLaws.QueriesDependOnlyOnKey | Sources/P9HistoryManager.h:31-89 | The answers for a key depend only on that key's timeline |
| HistoryStoreLaws.OtherKeysUnaffected | Sources/P9HistoryManager.h:31-100 | A change confined to one key leaves every count and peek of any other key unchanged |
| HistoryStoreLaws.UndoThenRedoForKey | Sources/P9HistoryManager.h:77-89 | Undo then redo on a key restores the whole registry; the trace is the undo then the redo block of one step |
| HistoryStoreLaws.RedoThenUndoForKey | Sources/P9HistoryManager.h:77-89 | Redo then undo on a key restores the whole registry; the trace is the redo then the undo block of one step |
| HistoryStoreLaws.ClearForKeyIdempotent | Sources/P9HistoryManager.h:91-95 | Clearing a key twice equals clearing it once |
| HistoryStoreLaws.ClearUnseenKeyIsNoOp | Sources/P9HistoryManager.h:91-95 | Clearing a key with no timeline changes nothing |
| HistoryStoreLaws.ClearAllForgetsEveryKey | Sources/P9HistoryManager.h:97-100 | After clearing all, every key has zero counts, nil peeks, and failing undo and redo |
| HistoryStoreLaws.Apply | Sources/P9HistoryManager.h:52-100 | Any single state-changing call keeps the registry well formed |
| HistoryStoreLaws.Run | Sources/P9HistoryManager.h:52-100 | Any sequence of calls keeps every cursor in range and every registered timeline non-empty |
| HistoryStoreLaws.InvokeFrom | Sources/P9HistoryManager.h:12-16 | A block run for a step is explained by that step's own block and parameters |
| HistoryStoreLaws.StepKeepsStepsFrom | Sources/P9HistoryManager.h:52-61 | Recording a step stores nothing except already stored steps and the new step |
| HistoryStoreLaws.MoveKeepsStepsFrom | Sources/P9HistoryManager.h:77-89 | Undo and redo store nothing new and run only blocks of stored steps |
| HistoryStoreLaws.ApplyFrom | Sources/P9HistoryManager.h:12-16 | One call runs only blocks of stored or newly recorded steps, with their recorded parameters |
| HistoryStoreLaws.RunRunsOnlyRecordedBlocks | Sources/P9HistoryManager.h:12-16 | Over any sequence of calls, every block run belongs to a step that was stored or recorded, and receives that step's recorded parameters |
| HistoryStoreLaws.RepeatedStepsCount | Sources/P9HistoryManager.h:52-61 | N steps with a block, starting at the tip, add exactly N to the previous and all counts (each records its step); the next count stays 0, the last call succeeds, nothing runs, and no other key is touched |
| HistoryStoreLaws.RenameScenario | Sources/P9HistoryManager.h:52-82 | Step "rename" with {to: x}, then undo: the counts and peeks are as expected, and undo runs the undo block with exactly {to: x} |
| HistoryStoreLaws.NoBlocksScenario | Sources/P9HistoryManager.h:52-61 | A step with neither block returns false and leaves the count unchanged |
| HistoryStoreLaws.StepOnInit | Sources/P9HistoryManager.h:52-61 | On a fresh registry, a first step with an undo block creates a one-step timeline with the cursor after it and registers nothing else |
| HistoryStoreLaws.StepOnSingle | Sources/P9HistoryManager.h:52-61 | On a registry holding only this key, a step with an undo block keeps the steps before the cursor, appends the new one and runs nothing |
| HistoryStoreLaws.UndoOnSingle | Sources/P9HistoryManager.h:77-82 | On a registry holding only this key, undo with a non-empty past moves the cursor back one and runs that step's undo block |
| HistoryStoreLaws.ThreeSteps | Sources/P9HistoryManager.h:52-61 | Three steps on a fresh key leave all three undoable, in order |
| HistoryStoreLaws.TruncationScenario | Sources/P9HistoryManager.h:52-61 | Steps A, B, C, two undos (running C's then B's undo block), then step D: the timeline is [A, D], cursor 2, with nothing to redo |
| HistoryStoreLaws.DiscardedStepsNeverRun | Sources/P9HistoryManager.h:52-61 | After that truncation, later calls that do not record B or C again never run a block on behalf of B or C |

## Left out

- The singleton accessor `defaultP9HistoryManager` (`Sources/P9HistoryManager.h:29`): the registry is an explicit `Store` value, and `Init` is its initial state.
- What the blocks do: a run is recorded as an `Invocation` in the returned trace. Their side effects, and a block that throws, are not modelled. The cursor moves whenever the operation succeeds.
- Thread safety and locking: the header states nothing about them, and the model is sequential.
- `NSUInteger` width: counts are unbounded `nat`. A 64-bit count cannot overflow with any history that fits in memory.
- The implementation file `P9HistoryManager.m` is not part of this model. The header leaves some behaviour open, and this model fixes it as follows: a nil key names the same timeline as `@""`; `step` runs no block, since the caller has already performed the action; `step` fails exactly when both blocks are nil; a key's timeline is created by its first successful `step`; moving over a step whose block in that direction is nil moves the cursor and runs nothing.
- Blocks that call back into the manager: a block may read the manager while it runs, as the sample's blocks do when they update the buttons from the counts. The model does not say whether such a call sees the cursor before or after the move. The trace records which block ran and with what parameters, not the registry state it ran against.
- Dictionary keys: parameters are modelled as maps from `string` keys, while an `NSDictionary` (and the sample's `[AnyHashable : Any]?`) accepts any hashable key. The manager never reads the dictionary, so the key type plays no part in any property.
- The sample app `Sample/Sample/ViewController.swift`: UIKit view code and drag tracking around the manager, with no logic of its own beyond calling the selectors.
- The contents of parameter dictionaries: values are opaque `ObjectRef`s, because the manager only passes them along.
- Parameters and step names are modelled as their value at `step` time. The source keeps the `NSDictionary *` and `NSString *` pointers (`Sources/P9HistoryManager.h:16`, `:61`, `:68`, `:75`), so a mutable dictionary or string changed after `step` reaches the block or the peek changed, unless the implementation copies it; the header does not say. The `Invoke` and `RenameScenario` claims about "exactly" the recorded parameters hold under this snapshot reading.
