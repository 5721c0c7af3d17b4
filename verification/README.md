# A verified model of a minimal finite-state machine

This project models the `FSM` class of `src/fsm.js`, a small state machine
with one level of undo and redo, and proves properties of the model in Dafny.

The machine holds four things:

- a state table, mapping each state name to its `transitions`, a map from event name to destination state name;
- the active state;
- `prevState`, a single-slot cell that undo reads;
- `actualState`, a single-slot cell that redo reads.

The model is functional. A `Machine` is an immutable record and every
operation returns the updated record. Construction, which can fail without
producing a machine, returns a `Result`: the new `Machine`, or the error the
constructor throws. `changeState` and `trigger` return a `Step`, which pairs the
updated record with an `Outcome` (`Pass`, or `Fail` with the error the class
would throw). `undo` and `redo` return a `Step` that pairs the record with the
`bool` the class returns. A failing `changeState` or `trigger` also returns the
machine as the class leaves it after throwing. This matters for `trigger`: it has already overwritten `prevState`
before it fails.

Files:

- `wrappers.dfy`: the `Option` and `Result` datatypes.
- `table.dfy` (module `StateTable`): the state table and the reference definition of the `getStates` listing.
  - A JavaScript object's own keys are modelled as a `seq<string>` in enumeration order, next to a `map` holding the entries.
  - The subset type `Table` ties the two together: every key occurs once, and the keys are exactly the map's domain.
- `fsm.dfy` (module `Fsm`): the machine and its operations.
  - construction `New`, plus `GetState`, `ChangeState`, `Trigger`, `Reset`, `GetStates`, `Undo`, `Redo` and `ClearHistory`;
  - `Consistent`, the invariant that the active state and every recorded history entry are keys of the table.
- `properties.dfy` (module `FsmProperties`): lemmas that relate several operations, plus the worked example of an idle/running/paused machine.

The source's quirks are reproduced as they are, not corrected. Each one is
stated as a lemma:

- `trigger` writes `prevState` before it looks anything up. A failed trigger therefore still arms undo (`FailedTriggerArmsUndo`).
- `changeState` never clears the redo slot. A stale redo target survives a new transition (`StaleRedoSurvivesChangeState`).
- `reset` jumps to the literal `"normal"` and not to the initial state. It breaks consistency when the table has no such state (`ResetConsistentIff`, `ResetWithoutNormalStrands`).
- The constructor does not check that `initial` is a key (`NewConsistentIff`).

`getStates` tests its event for falsiness, so an empty event name lists
every state, just as an absent event does.

## Model

| member | source | states |
|---|---|---|
| Fsm.New | src/fsm.js:6-13 | Construction fails exactly when no config is given. Otherwise the machine holds the given table, its active state is `initial`, and both history slots are empty. |
| Fsm.GetState | src/fsm.js:19-21 | The accessor returns the active state. It has no contract of its own; `NewHasNoHistory`, `ChangeUndoRedoRoundTrip` and the example lemmas state what it returns after each operation. |
| Fsm.ChangeState | src/fsm.js:27-34 | Succeeds exactly when the target is a key of the table. On success the target becomes active, the old active state becomes `prevState`, and `actualState` and the table are kept. On failure it reports "state not found" and no field changes. |
| Fsm.Trigger | src/fsm.js:40-43 | `prevState` always becomes the old active state, even on failure. Succeeds exactly when the active state's transitions define the event and its destination is a key; the machine then moves to that destination. On failure the active state is unchanged. A missing active entry is the TypeError; otherwise the error is "state not found". |
| Fsm.Reset | src/fsm.js:48-50 | The active state becomes `"normal"` unconditionally. The table and both history slots are kept. |
| Fsm.GetStates | src/fsm.js:58-70 | Returns the table's keys in enumeration order. With an absent or empty event it returns all keys. Otherwise a key is in the result exactly when its transitions contain the event. The result is a subsequence of the keys, has no duplicates, and equals the reference listing `Matching`. |
| StateTable.Matching | src/fsm.js:65-68 | Reference definition of the filtered listing. A key is in it exactly when the key is in the table and the filter selects it. It is a subsequence of the keys, it keeps distinctness, and it is the whole key list when there is no event. |
| Fsm.Undo | src/fsm.js:77-85 | Succeeds exactly when `prevState` is set. It then moves to `prevState`, records the old active state for redo, and empties `prevState`. Otherwise it returns false and the machine is unchanged. |
| Fsm.Redo | src/fsm.js:92-100 | Succeeds exactly when `actualState` is set. It then moves to `actualState` and empties both slots. Otherwise it returns false and the machine is unchanged. |
| Fsm.ClearHistory | src/fsm.js:105-108 | Empties both history slots. Keeps the active state and the table. |
| FsmProperties.NewHasNoHistory | src/fsm.js:6-21 | Right after construction, `getState` returns `initial`, and undo and redo both return false and change nothing. |
| FsmProperties.NewConsistentIff | src/fsm.js:9-10 | The constructor does not validate `initial`: the fresh machine is consistent exactly when `initial` is a key. |
| FsmProperties.ChangeStateKeepsConsistent | src/fsm.js:28-30 | `changeState` keeps the active state and the history inside the table. |
| FsmProperties.TriggerKeepsConsistent | src/fsm.js:40-43 | `trigger` keeps a consistent machine consistent. From such a machine its only failure is "state not found", never the TypeError. |
| FsmProperties.UndoKeepsConsistent | src/fsm.js:78-81 | `undo` keeps the active state and the history inside the table. |
| FsmProperties.RedoKeepsConsistent | src/fsm.js:93-96 | `redo` keeps the active state and the history inside the table. |
| FsmProperties.ClearHistoryKeepsConsistent | src/fsm.js:105-108 | `clearHistory` keeps a consistent machine consistent. |
| FsmProperties.ResetConsistentIff | src/fsm.js:48-50 | From a consistent machine, `reset` gives a consistent machine exactly when the table has a `"normal"` state. |
| FsmProperties.ResetWithoutNormalStrands | src/fsm.js:40-50 | After a `reset` into a missing `"normal"`, every trigger fails with the TypeError. `changeState` still succeeds exactly for the table's keys. |
| FsmProperties.TriggerIsChangeStateOfDestination | src/fsm.js:40-43 | When the active state defines the event, `trigger` reports the same outcome as `changeState` to its destination and lands in the same state. On success the machines are equal. On failure they differ only in the overwritten `prevState`. |
| FsmProperties.FailedTriggerArmsUndo | src/fsm.js:41-43 | After a failed trigger, undo succeeds but stays in the same state, and that state is recorded for redo. |
| FsmProperties.UndoTwiceFails | src/fsm.js:77-85 | A second consecutive undo returns false and changes nothing. |
| FsmProperties.RedoTwiceFails | src/fsm.js:92-100 | A second consecutive redo returns false and changes nothing. |
| FsmProperties.RedoForbidsUndo | src/fsm.js:93-96 | After a successful redo, undo returns false and changes nothing. |
| FsmProperties.RedoInvertsUndo | src/fsm.js:77-100 | After a successful undo, redo succeeds and restores the machine as it was before the undo, with both history slots empty. |
| FsmProperties.UndoInvertsChangeState | src/fsm.js:27-34 | After a successful `changeState`, undo succeeds and restores the old machine. `prevState` ends empty and the target state is recorded for redo. |
| FsmProperties.ChangeUndoRedoRoundTrip | src/fsm.js:27-100 | Change from A to B, undo back to A, then redo to B. Afterwards undo and redo both return false and change nothing. |
| FsmProperties.StaleRedoSurvivesChangeState | src/fsm.js:29-30 | `changeState` does not clear the redo slot, so a later redo jumps to a target recorded before the transition. |
| FsmProperties.ClearHistoryDisablesUndoRedo | src/fsm.js:105-108 | After `clearHistory`, undo and redo both return false and change nothing. |
| FsmProperties.ListingIsUnique | src/fsm.js:58-70 | Over distinct keys, the only subsequence holding exactly the selected keys is `Matching`. So "the selected keys, in table order" determines the `getStates` result. |
| FsmProperties.ExampleHistory | src/fsm.js:40-100 | In the idle/running/paused example: start, pause, undo (true), undo (false) and redo visit running, paused, running, running, paused. |
| FsmProperties.ExampleListingByEvent | src/fsm.js:65-68 | In the example, only "running" reacts to "stop". |
| FsmProperties.ExampleListingAll | src/fsm.js:60-63 | In the example, listing without an event gives every state in construction order. |

## Left out

- JavaScript's `in` operator also sees inherited properties, so `"toString" in states` is true. The model tests own keys only.
- For-in enumeration puts integer-like keys first. The model takes the order from the table's explicit key sequence.
- Triggering an event the active state does not define makes the source call `changeState(undefined)`, which tests the key `"undefined"`. The model reports "state not found" whatever the table holds.
- A config whose `states` is missing, or a state entry without `transitions`, throws TypeErrors elsewhere. The model's tables always have both.
- Error message strings are not modelled. Errors are the `Error` datatype.
- `module.exports` is not modelled.
- The table is shared with the caller and never copied. The model treats it as immutable, so later external mutation is not modelled.
- `GetState` has no contract of its own: it returns the active state. `NewHasNoHistory`, `ChangeUndoRedoRoundTrip` and the example lemmas state what it returns.
- The active state, `initial` and `changeState`'s argument are always strings. A `null` initial is not modelled: the source then stores `null` as `prevState`, and the next undo returns false. Non-string arguments that `in` coerces to keys are not modelled either.
