/**
 The registry behind `P9HistoryManager`: a map from key to one independent
 timeline, and the public operations of the manager, each a lookup of the
 key followed by the timeline operation. The process-wide singleton is
 replaced by an explicit `Store` value that every operation takes and, when
 it changes state, returns.
 */
module HistoryStore {
  import opened Nullables
  import opened Histories

  /** The `NSString * _Nullable key` parameter. */
  type Key = Nullable<string>

  /** The canonical key a nil key is normalised to. An explicit empty string
      names the same timeline. */
  const DefaultKey: string := ""

  function Normalize(key: Key): string {
    match key
    case Ref(k) => k
    case Nil => DefaultKey
  }

  datatype Store = Store(histories: map<string, History>)

  /** State change of a public operation: the new registry, its `BOOL` result
      and the blocks it ran. */
  datatype Reply = Reply(store: Store, ok: bool, trace: seq<Invocation>)

  /** Every registered timeline keeps its cursor in range and holds at least
      one step: timelines are created only by a successful `step` and are
      removed, never emptied, by the clear operations. */
  predicate WellFormed(s: Store) {
    forall k :: k in s.histories ==> Valid(s.histories[k]) && |s.histories[k].steps| > 0
  }

  function Init(): (s: Store)
    ensures WellFormed(s)
    ensures forall key: Key :: Normalize(key) !in s.histories
  {
    Store(map[])
  }

  /** The timeline `key` addresses; an unseen key reads as an empty timeline. */
  function Lookup(s: Store, key: Key): (h: History)
    requires WellFormed(s)
    ensures Valid(h)
    ensures Normalize(key) !in s.histories ==> h == Empty()
    ensures Normalize(key) in s.histories ==> h == s.histories[Normalize(key)]
  {
    var k := Normalize(key);
    if k in s.histories then s.histories[k] else Empty()
  }

  /** `s` and `t` agree on every key other than `k`. */
  predicate OthersUnchanged(s: Store, t: Store, k: string) {
    s.histories - {k} == t.histories - {k}
  }

  // ---------------------------------------------------------------------------
  // Queries: they take the registry but never return one, so they cannot
  // register a key.
  // ---------------------------------------------------------------------------

  /** The number of steps an undo can still reverse: the length of the key's past. */
  function CountOfPrevStepsForKey(s: Store, key: Key): (r: nat)
    requires WellFormed(s)
    ensures r == |Split(Lookup(s, key)).past|
    ensures r <= |Lookup(s, key).steps|
    ensures Normalize(key) !in s.histories ==> r == 0
  {
    CountOfPrev(Lookup(s, key))
  }

  /** The number of steps a redo can still apply: the length of the key's future. */
  function CountOfNextStepsForKey(s: Store, key: Key): (r: nat)
    requires WellFormed(s)
    ensures r == |Split(Lookup(s, key)).future|
    ensures r <= |Lookup(s, key).steps|
    ensures Normalize(key) !in s.histories ==> r == 0
  {
    CountOfNext(Lookup(s, key))
  }

  /** All steps are the undoable ones plus the redoable ones; the count is
      zero exactly for a key that has no timeline. */
  function CountOfAllStepsForKey(s: Store, key: Key): (r: nat)
    requires WellFormed(s)
    ensures r == |Lookup(s, key).steps|
    ensures r == CountOfPrevStepsForKey(s, key) + CountOfNextStepsForKey(s, key)
    ensures r == 0 <==> Normalize(key) !in s.histories
  {
    CountOfAll(Lookup(s, key))
  }

  /** Name of the step the next undo on `key` would reverse; nil when nothing
      can be undone. */
  function PeekPrevStepNameForKey(s: Store, key: Key): (r: Nullable<string>)
    requires WellFormed(s)
    ensures CountOfPrevStepsForKey(s, key) == 0 ==> r == Nil
    ensures CountOfPrevStepsForKey(s, key) > 0 ==>
      r == Lookup(s, key).steps[CountOfPrevStepsForKey(s, key) - 1].name
  {
    PeekPrevName(Lookup(s, key))
  }

  /** Name of the step the next redo on `key` would apply; nil when nothing
      can be redone. */
  function PeekNextStepNameForKey(s: Store, key: Key): (r: Nullable<string>)
    requires WellFormed(s)
    ensures CountOfNextStepsForKey(s, key) == 0 ==> r == Nil
    ensures CountOfNextStepsForKey(s, key) > 0 ==>
      r == Lookup(s, key).steps[CountOfPrevStepsForKey(s, key)].name
  {
    PeekNextName(Lookup(s, key))
  }

  // ---------------------------------------------------------------------------
  // Commands
  // ---------------------------------------------------------------------------

  /** Records a step for `key`, creating its timeline on first success. A step
      with neither block is refused and registers nothing. Otherwise the redo
      side of the key's timeline is discarded and the step becomes the newest
      undoable one. No block is run; no other key is touched. */
  function StepForKey(s: Store, key: Key, stepName: Nullable<string>, parameters: Parameters,
                      undoAction: Nullable<Action>, redoAction: Nullable<Action>): (r: Reply)
    requires WellFormed(s)
    ensures WellFormed(r.store)
    ensures r.trace == []
    ensures r.ok <==> undoAction.Ref? || redoAction.Ref?
    ensures !r.ok ==> r.store == s
    ensures r.ok ==> Normalize(key) in r.store.histories
    ensures r.ok ==> CountOfPrevStepsForKey(r.store, key) == CountOfPrevStepsForKey(s, key) + 1
    ensures r.ok ==> CountOfNextStepsForKey(r.store, key) == 0
    ensures r.ok ==> PeekPrevStepNameForKey(r.store, key) == stepName
    ensures r.ok ==> forall i :: 0 <= i < CountOfPrevStepsForKey(s, key) ==>
      Lookup(r.store, key).steps[i] == Lookup(s, key).steps[i]
    ensures r.ok ==> Lookup(r.store, key).steps[CountOfPrevStepsForKey(s, key)]
                     == Step(stepName, parameters, undoAction, redoAction)
    ensures OthersUnchanged(s, r.store, Normalize(key))
  {
    var o := Insert(Lookup(s, key), stepName, parameters, undoAction, redoAction);
    if o.ok then
      Reply(Store(s.histories[Normalize(key) := o.history]), true, [])
    else
      Reply(s, false, [])
  }

  /** Undoes the newest undoable step of `key`: runs its undo block with the
      parameters it was recorded with and moves it to the redo side. With
      nothing to undo (including an unseen key) it returns false, runs nothing
      and changes nothing. No key is registered or removed. */
  function UndoStepForKey(s: Store, key: Key): (r: Reply)
    requires WellFormed(s)
    ensures WellFormed(r.store)
    ensures r.store.histories.Keys == s.histories.Keys
    ensures r.ok <==> CountOfPrevStepsForKey(s, key) > 0
    ensures !r.ok ==> r.store == s && r.trace == []
    ensures Lookup(r.store, key).steps == Lookup(s, key).steps
    ensures r.ok ==> CountOfPrevStepsForKey(r.store, key) + 1 == CountOfPrevStepsForKey(s, key)
    ensures r.ok ==> CountOfNextStepsForKey(r.store, key) == CountOfNextStepsForKey(s, key) + 1
    ensures r.ok ==> var i := CountOfPrevStepsForKey(s, key) - 1;
                     r.trace == Invoke(Backward, Lookup(s, key).steps[i], i)
    ensures OthersUnchanged(s, r.store, Normalize(key))
  {
    var k := Normalize(key);
    if k !in s.histories then Reply(s, false, [])
    else
      var o := Undo(s.histories[k]);
      if o.ok then Reply(Store(s.histories[k := o.history]), true, o.trace)
      else Reply(s, false, [])
  }

  /** Redoes the oldest redoable step of `key`: runs its redo block with the
      parameters it was recorded with and moves it to the undo side. With
      nothing to redo (including an unseen key) it returns false, runs nothing
      and changes nothing. No key is registered or removed. */
  function RedoStepForKey(s: Store, key: Key): (r: Reply)
    requires WellFormed(s)
    ensures WellFormed(r.store)
    ensures r.store.histories.Keys == s.histories.Keys
    ensures r.ok <==> CountOfNextStepsForKey(s, key) > 0
    ensures !r.ok ==> r.store == s && r.trace == []
    ensures Lookup(r.store, key).steps == Lookup(s, key).steps
    ensures r.ok ==> CountOfPrevStepsForKey(r.store, key) == CountOfPrevStepsForKey(s, key) + 1
    ensures r.ok ==> CountOfNextStepsForKey(r.store, key) + 1 == CountOfNextStepsForKey(s, key)
    ensures r.ok ==> var i := CountOfPrevStepsForKey(s, key);
                     r.trace == Invoke(Forward, Lookup(s, key).steps[i], i)
    ensures OthersUnchanged(s, r.store, Normalize(key))
  {
    var k := Normalize(key);
    if k !in s.histories then Reply(s, false, [])
    else
      var o := Redo(s.histories[k]);
      if o.ok then Reply(Store(s.histories[k := o.history]), true, o.trace)
      else Reply(s, false, [])
  }

  /** Forgets the timeline of `key`; every other key keeps its own. */
  function ClearAllStepsForKey(s: Store, key: Key): (r: Store)
    requires WellFormed(s)
    ensures WellFormed(r)
    ensures Normalize(key) !in r.histories
    ensures CountOfAllStepsForKey(r, key) == 0
    ensures OthersUnchanged(s, r, Normalize(key))
  {
    Store(s.histories - {Normalize(key)})
  }

  /** Forgets every timeline. */
  function ClearAllSteps(s: Store): (r: Store)
    requires WellFormed(s)
    ensures WellFormed(r)
    ensures forall key: Key :: CountOfAllStepsForKey(r, key) == 0
  {
    Store(map[])
  }
}
