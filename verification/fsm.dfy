/**
 The `FSM` class as an immutable record: the shared state table, the active
 state, and two single-slot history cells, `prevState` (for undo) and
 `actualState` (for redo). Every operation returns the updated machine; those
 that can fail or report availability also return an outcome.
 */
module Fsm {
  import opened Wrappers
  import opened StateTable

  /** What the constructor is given: the table and the name of the initial state. */
  datatype Config = Config(states: Table, initial: string)

  datatype Machine = Machine(
    states: Table,
    activeState: string,
    prevState: Option<string>,
    actualState: Option<string>)

  /** The errors the class throws. */
  datatype Error =
    | ConfigNotSet          // constructor called without a config
    | StateNotFound         // changeState to a name that is not a key of the table
    | NoActiveDefinition    // trigger while the active state has no table entry (a TypeError)

  datatype Outcome = Pass | Fail(error: Error)

  /** The machine after an operation, paired with what the operation reports. */
  datatype Step<T> = Step(next: Machine, result: T)

  /** Construction: no config is an error; otherwise the machine starts at `initial` with no history. */
  function New(config: Option<Config>): (r: Result<Machine, Error>)
    ensures r.Failure? <==> config.None?
    ensures r.Failure? ==> r.error == ConfigNotSet
    ensures r.Success? ==>
      && r.value.states == config.value.states
      && r.value.activeState == config.value.initial
      && r.value.prevState == None
      && r.value.actualState == None
  {
    match config
    case None => Failure(ConfigNotSet)
    case Some(c) => Success(Machine(c.states, c.initial, None, None))
  }

  function GetState(m: Machine): (r: string)
  {
    m.activeState
  }

  /**
   Direct transition. Succeeds exactly when `state` is a key of the table; it then
   remembers the old active state for undo and leaves the redo slot alone.
   A failure changes nothing.
   */
  function ChangeState(m: Machine, state: string): (r: Step<Outcome>)
    ensures r.result.Pass? <==> state in m.states.defs
    ensures r.result.Pass? ==>
      && r.next.activeState == state
      && r.next.prevState == Some(m.activeState)
      && r.next.actualState == m.actualState
      && r.next.states == m.states
    ensures r.result.Fail? ==> r.next == m && r.result.error == StateNotFound
  {
    if state in m.states.defs then
      Step(m.(prevState := Some(m.activeState), activeState := state), Pass)
    else
      Step(m, Fail(StateNotFound))
  }

  /** The active state has a table entry, and that entry defines `event`. */
  predicate HasTransition(m: Machine, event: string)
  {
    m.activeState in m.states.defs && event in m.states.defs[m.activeState].transitions
  }

  /**
   Event-driven transition. The old active state is written to `prevState`
   before anything is looked up, so it is overwritten even when the trigger
   fails; the active state moves only when the event leads to a known state.
   */
  function Trigger(m: Machine, event: string): (r: Step<Outcome>)
    ensures r.next.prevState == Some(m.activeState)
    ensures r.next.actualState == m.actualState && r.next.states == m.states
    ensures r.result.Pass? <==>
      HasTransition(m, event) && m.states.defs[m.activeState].transitions[event] in m.states.defs
    ensures r.result.Pass? ==> r.next.activeState == m.states.defs[m.activeState].transitions[event]
    ensures r.result.Fail? ==> r.next.activeState == m.activeState
    ensures r.result.Fail? ==>
      r.result.error == if m.activeState in m.states.defs then StateNotFound else NoActiveDefinition
  {
    var saved := m.(prevState := Some(m.activeState));
    if m.activeState !in m.states.defs then
      Step(saved, Fail(NoActiveDefinition))
    else
      var transitions := m.states.defs[m.activeState].transitions;
      if event !in transitions then Step(saved, Fail(StateNotFound))
      else ChangeState(saved, transitions[event])
  }

  /** The name `reset` jumps to, whatever the table holds. */
  const ResetTarget: string := "normal"

  /** Jumps to "normal" unconditionally; the table and both history slots are kept. */
  function Reset(m: Machine): (r: Machine)
    ensures r.activeState == ResetTarget
    ensures r.states == m.states && r.prevState == m.prevState && r.actualState == m.actualState
  {
    m.(activeState := ResetTarget)
  }

  /**
   Lists the table's keys in enumeration order: all of them when no event is
   given, otherwise those whose transitions mention the event.
   */
  method GetStates(m: Machine, event: Option<string>) returns (states: seq<string>)
    ensures forall k :: k in states <==> k in m.states.keys && Selects(m.states.defs, event, k)
    ensures NoEvent(event) ==> states == m.states.keys
    ensures Subseq(states, m.states.keys)
    ensures Distinct(states)
    ensures states == Matching(m.states.keys, m.states.defs, event)
  {
    var keys := m.states.keys;
    var defs := m.states.defs;
    states := [];
    if NoEvent(event) {
      var i := 0;
      while i < |keys|
        invariant 0 <= i <= |keys|
        invariant states == keys[..i]
      {
        states := states + [keys[i]];
        i := i + 1;
      }
      assert keys[..|keys|] == keys;
      assert states == Matching(keys, defs, event);
      return;
    }
    var i := 0;
    while i < |keys|
      invariant 0 <= i <= |keys|
      invariant states == Matching(keys[..i], defs, event)
    {
      var state := keys[i];
      assert keys[..i + 1][..i] == keys[..i];
      if state in defs && event.value in defs[state].transitions {
        states := states + [state];
      }
      i := i + 1;
    }
    assert keys[..|keys|] == keys;
  }

  /**
   One-level undo: when a previous state is recorded, go back to it, remember
   the state left for redo, and consume the undo slot.
   */
  function Undo(m: Machine): (r: Step<bool>)
    ensures r.result <==> m.prevState.Some?
    ensures r.result ==>
      && r.next.activeState == m.prevState.value
      && r.next.actualState == Some(m.activeState)
      && r.next.prevState == None
      && r.next.states == m.states
    ensures !r.result ==> r.next == m
  {
    match m.prevState
    case Some(p) => Step(m.(actualState := Some(m.activeState), activeState := p, prevState := None), true)
    case None => Step(m, false)
  }

  /**
   One-level redo: when a redo target is recorded, go to it and empty both
   history slots.
   */
  function Redo(m: Machine): (r: Step<bool>)
    ensures r.result <==> m.actualState.Some?
    ensures r.result ==>
      && r.next.activeState == m.actualState.value
      && r.next.actualState == None
      && r.next.prevState == None
      && r.next.states == m.states
    ensures !r.result ==> r.next == m
  {
    match m.actualState
    case Some(a) => Step(m.(activeState := a, actualState := None, prevState := None), true)
    case None => Step(m, false)
  }

  /** Forgets both history slots; the active state and the table are kept. */
  function ClearHistory(m: Machine): (r: Machine)
    ensures r.prevState == None && r.actualState == None
    ensures r.activeState == m.activeState && r.states == m.states
  {
    m.(prevState := None, actualState := None)
  }

  /**
   The machine only refers to states of its table: the active state and any
   recorded history are keys.
   */
  predicate Consistent(m: Machine)
  {
    && m.activeState in m.states.defs
    && (m.prevState.Some? ==> m.prevState.value in m.states.defs)
    && (m.actualState.Some? ==> m.actualState.value in m.states.defs)
  }
}
