/**
 Properties that relate several operations of the state machine: the history
 cells' undo/redo protocol, the consistency invariant each operation keeps
 (or, for `reset`, may break), the quirks of `trigger`, `changeState` and
 `reset`, and the uniqueness of the `getStates` listing.
 */
module FsmProperties {
  import opened Wrappers
  import opened StateTable
  import opened Fsm

  // ---------------------------------------------------------------------------
  // Construction

  /** A fresh machine is at `initial`, and neither undo nor redo is available. */
  lemma NewHasNoHistory(c: Config)
    ensures New(Some(c)).Success?
    ensures GetState(New(Some(c)).value) == c.initial
    ensures Undo(New(Some(c)).value) == Step(New(Some(c)).value, false)
    ensures Redo(New(Some(c)).value) == Step(New(Some(c)).value, false)
  {
  }

  /** The constructor does not validate `initial`: the fresh machine is consistent exactly when it is a key. */
  lemma NewConsistentIff(c: Config)
    ensures New(Some(c)).Success?
    ensures Consistent(New(Some(c)).value) <==> c.initial in c.states.defs
  {
  }

  // ---------------------------------------------------------------------------
  // The consistency invariant

  lemma ChangeStateKeepsConsistent(m: Machine, state: string)
    requires Consistent(m)
    ensures Consistent(ChangeState(m, state).next)
  {
  }

  /** From a consistent machine, `trigger` can only fail for want of a destination, never with a TypeError. */
  lemma TriggerKeepsConsistent(m: Machine, event: string)
    requires Consistent(m)
    ensures Consistent(Trigger(m, event).next)
    ensures Trigger(m, event).result.Fail? ==> Trigger(m, event).result.error == StateNotFound
  {
  }

  lemma UndoKeepsConsistent(m: Machine)
    requires Consistent(m)
    ensures Consistent(Undo(m).next)
  {
  }

  lemma RedoKeepsConsistent(m: Machine)
    requires Consistent(m)
    ensures Consistent(Redo(m).next)
  {
  }

  lemma ClearHistoryKeepsConsistent(m: Machine)
    requires Consistent(m)
    ensures Consistent(ClearHistory(m))
  {
  }

  /** `reset` keeps a consistent machine consistent exactly when the table has a "normal" state. */
  lemma ResetConsistentIff(m: Machine)
    requires Consistent(m)
    ensures Consistent(Reset(m)) <==> ResetTarget in m.states.defs
  {
  }

  /**
   Without a "normal" state, `reset` strands the machine: every later trigger
   fails with the TypeError, while `changeState` still works.
   */
  lemma ResetWithoutNormalStrands(m: Machine, event: string, state: string)
    requires ResetTarget !in m.states.defs
    ensures Trigger(Reset(m), event).result == Fail(NoActiveDefinition)
    ensures ChangeState(Reset(m), state).result.Pass? <==> state in m.states.defs
  {
  }

  // ---------------------------------------------------------------------------
  // trigger versus changeState

  /**
   When the active state defines `event`, `trigger` reports what `changeState`
   to its destination reports and lands in the same state; on success the
   machines agree, on failure `trigger` differs only in the overwritten undo slot.
   */
  lemma TriggerIsChangeStateOfDestination(m: Machine, event: string)
    requires HasTransition(m, event)
    ensures var dest := m.states.defs[m.activeState].transitions[event];
      && Trigger(m, event).result == ChangeState(m, dest).result
      && (Trigger(m, event).result.Pass? ==> Trigger(m, event).next == ChangeState(m, dest).next)
      && (Trigger(m, event).result.Fail? ==>
            Trigger(m, event).next == ChangeState(m, dest).next.(prevState := Some(m.activeState)))
  {
  }

  /** A failed trigger still arms undo: the undo succeeds but stays where it is. */
  lemma FailedTriggerArmsUndo(m: Machine, event: string)
    requires Trigger(m, event).result.Fail?
    ensures Undo(Trigger(m, event).next).result
    ensures Undo(Trigger(m, event).next).next.activeState == m.activeState
    ensures Undo(Trigger(m, event).next).next.actualState == Some(m.activeState)
  {
  }

  // ---------------------------------------------------------------------------
  // Undo and redo

  /** History is one level deep: a second consecutive undo reports false and changes nothing. */
  lemma UndoTwiceFails(m: Machine)
    ensures Undo(Undo(m).next) == Step(Undo(m).next, false)
  {
  }

  /** A second consecutive redo reports false and changes nothing. */
  lemma RedoTwiceFails(m: Machine)
    ensures Redo(Redo(m).next) == Step(Redo(m).next, false)
  {
  }

  /** After a redo there is nothing to undo. */
  lemma RedoForbidsUndo(m: Machine)
    requires Redo(m).result
    ensures Undo(Redo(m).next) == Step(Redo(m).next, false)
  {
  }

  /** Redo inverts a successful undo, up to the history, which it empties. */
  lemma RedoInvertsUndo(m: Machine)
    requires Undo(m).result
    ensures Redo(Undo(m).next).result
    ensures Redo(Undo(m).next).next == m.(prevState := None, actualState := None)
  {
  }

  /** Undo inverts a successful `changeState`, and offers the state it left for redo. */
  lemma UndoInvertsChangeState(m: Machine, state: string)
    requires state in m.states.defs
    ensures Undo(ChangeState(m, state).next).result
    ensures Undo(ChangeState(m, state).next).next == m.(prevState := None, actualState := Some(state))
  {
  }

  /**
   The round trip: from A, change to B, undo back to A, redo to B; afterwards
   neither undo nor redo is available.
   */
  lemma ChangeUndoRedoRoundTrip(m: Machine, state: string)
    requires state in m.states.defs
    ensures var changed := ChangeState(m, state);
      var undone := Undo(changed.next);
      var redone := Redo(undone.next);
      && changed.result.Pass?
      && undone.result && GetState(undone.next) == GetState(m)
      && redone.result && GetState(redone.next) == state
      && Undo(redone.next) == Step(redone.next, false)
      && Redo(redone.next) == Step(redone.next, false)
  {
  }

  /**
   `changeState` does not clear the redo slot: a redo target recorded before a
   fresh transition survives it, and a later redo jumps back to it.
   */
  lemma StaleRedoSurvivesChangeState(m: Machine, state: string)
    requires m.actualState.Some? && state in m.states.defs
    ensures Redo(ChangeState(m, state).next).result
    ensures GetState(Redo(ChangeState(m, state).next).next) == m.actualState.value
  {
  }

  /** After `clearHistory`, undo and redo both report false and change nothing. */
  lemma ClearHistoryDisablesUndoRedo(m: Machine)
    ensures Undo(ClearHistory(m)) == Step(ClearHistory(m), false)
    ensures Redo(ClearHistory(m)) == Step(ClearHistory(m), false)
  {
  }

  // ---------------------------------------------------------------------------
  // The getStates listing

  /** Every element of a subsequence occurs in the sequence it was taken from. */
  lemma {:induction false} SubseqMembers(a: seq<string>, b: seq<string>)
    requires Subseq(a, b)
    ensures forall x :: x in a ==> x in b
    decreases |b|
  {
    if |a| > 0 {
      var b' := b[..|b| - 1];
      assert b == b' + [b[|b| - 1]];
      if a[|a| - 1] == b[|b| - 1] {
        var a' := a[..|a| - 1];
        assert a == a' + [a[|a| - 1]];
        SubseqMembers(a', b');
      } else {
        SubseqMembers(a, b');
      }
    }
  }

  /** A subsequence of a sequence without repetitions has no repetitions. */
  lemma {:induction false} SubseqDistinct(a: seq<string>, b: seq<string>)
    requires Subseq(a, b) && Distinct(b)
    ensures Distinct(a)
    decreases |b|
  {
    if |a| > 0 {
      var b' := b[..|b| - 1];
      assert b == b' + [b[|b| - 1]];
      assert Distinct(b');
      if a[|a| - 1] == b[|b| - 1] {
        var a' := a[..|a| - 1];
        assert a == a' + [a[|a| - 1]];
        SubseqDistinct(a', b');
        SubseqMembers(a', b');
        assert b[|b| - 1] !in b';
      } else {
        SubseqDistinct(a, b');
      }
    }
  }

  /**
   The listing is determined by its contract: over a table's keys, the only
   subsequence holding exactly the selected keys is `Matching`'s. So "the
   selected keys, in table order" names a single result.
   */
  lemma {:induction false} ListingIsUnique(r: seq<string>, keys: seq<string>, defs: map<string, StateDef>, event: Option<string>)
    requires Distinct(keys)
    requires Subseq(r, keys)
    requires forall k :: k in r <==> k in keys && Selects(defs, event, k)
    ensures r == Matching(keys, defs, event)
    decreases |keys|
  {
    if |keys| > 0 {
      var init := keys[..|keys| - 1];
      var last := keys[|keys| - 1];
      assert keys == init + [last];
      assert Distinct(init);
      assert last !in init;
      SubseqDistinct(r, keys);
      if Selects(defs, event, last) {
        assert last in r;
        var r' := r[..|r| - 1];
        assert r == r' + [r[|r| - 1]];
        if r[|r| - 1] == last {
          assert Subseq(r', init);
          assert last !in r';
          forall k
            ensures k in r' <==> k in init && Selects(defs, event, k)
          {
            if k in r' {
              assert k in r && k != last;
            }
            if k in init && Selects(defs, event, k) {
              assert k in r;
            }
          }
          ListingIsUnique(r', init, defs, event);
        } else {
          assert Subseq(r, init);
          SubseqMembers(r, init);
          assert false;
        }
      } else {
        assert last !in r;
        if |r| > 0 {
          assert r[|r| - 1] in r;
        }
        assert Subseq(r, init);
        ListingIsUnique(r, init, defs, event);
      }
    }
  }

  // ---------------------------------------------------------------------------
  // A worked example: idle -start-> running -pause-> paused -resume-> running -stop-> idle

  function ExampleTable(): (t: Table)
  {
    var rep := TableRep(
      ["idle", "running", "paused"],
      map[
        "idle" := StateDef(map["start" := "running"]),
        "running" := StateDef(map["stop" := "idle", "pause" := "paused"]),
        "paused" := StateDef(map["resume" := "running"])]);
    assert rep.defs.Keys == set k | k in rep.keys;
    rep
  }

  /** Two triggers, then two undos (the second refused) and a redo. */
  lemma ExampleHistory()
    ensures var m0 := New(Some(Config(ExampleTable(), "idle"))).value;
      var t1 := Trigger(m0, "start");
      var t2 := Trigger(t1.next, "pause");
      var u1 := Undo(t2.next);
      var u2 := Undo(u1.next);
      var r1 := Redo(u2.next);
      && GetState(t1.next) == "running"
      && GetState(t2.next) == "paused"
      && u1.result && GetState(u1.next) == "running"
      && !u2.result && GetState(u2.next) == "running"
      && r1.result && GetState(r1.next) == "paused"
  {
  }

  /** Only "running" reacts to "stop". */
  lemma ExampleListingByEvent()
    ensures Matching(ExampleTable().keys, ExampleTable().defs, Some("stop")) == ["running"]
  {
    var d := ExampleTable().defs;
    var e := Some("stop");
    assert ["idle"][..0] == [];
    assert Matching(["idle"], d, e) == [];
    assert ["idle", "running"][..1] == ["idle"];
    assert Matching(["idle", "running"], d, e) == ["running"];
    assert ["idle", "running", "paused"][..2] == ["idle", "running"];
  }

  /** Without an event every state is listed, in table order. */
  lemma ExampleListingAll()
    ensures Matching(ExampleTable().keys, ExampleTable().defs, None) == ["idle", "running", "paused"]
  {
  }
}
