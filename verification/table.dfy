/**
 The state table of a finite-state machine: an insertion-ordered map from state
 name to that state's transition map (event name to destination state name),
 together with the ordered, filtered key listing that `getStates` returns.
 */
module StateTable {
  import opened Wrappers

  /** One entry of the table: the events a state reacts to and where they lead. */
  datatype StateDef = StateDef(transitions: map<string, string>)

  /** The raw shape of a table: its keys in enumeration order and its entries. */
  datatype TableRep = TableRep(keys: seq<string>, defs: map<string, StateDef>)

  /** No name occurs twice in `s`. */
  predicate Distinct(s: seq<string>)
  {
    forall i, j :: 0 <= i < j < |s| ==> s[i] != s[j]
  }

  /** A table enumerates each of its entries exactly once. */
  predicate WellFormed(t: TableRep)
  {
    Distinct(t.keys) && t.defs.Keys == set k | k in t.keys
  }

  /** A table as an object literal gives it: every key once, in insertion order. */
  type Table = t: TableRep | WellFormed(t) witness TableRep([], map[])

  /** An absent event and the empty event name both mean "no filter" (JavaScript falsiness). */
  predicate NoEvent(event: Option<string>)
  {
    event.None? || event.value == ""
  }

  /** Whether state `k` belongs in the listing filtered by `event`. */
  predicate Selects(defs: map<string, StateDef>, event: Option<string>, k: string)
  {
    NoEvent(event) || (k in defs && event.value in defs[k].transitions)
  }

  /**
   `a` is a subsequence of `b`: `a` is obtained from `b` by deleting elements,
   keeping the order of the rest. Decided greedily from the back.
   */
  predicate Subseq(a: seq<string>, b: seq<string>)
    decreases |b|
  {
    if |a| == 0 then true
    else if |b| == 0 then false
    else if a[|a| - 1] == b[|b| - 1] then Subseq(a[..|a| - 1], b[..|b| - 1])
    else Subseq(a, b[..|b| - 1])
  }

  /**
   The keys of `keys`, in order, that the filter `event` selects. This is the
   reference definition of the listing that `getStates` builds with its loops.
   */
  function Matching(keys: seq<string>, defs: map<string, StateDef>, event: Option<string>): (r: seq<string>)
    ensures forall k :: k in r <==> k in keys && Selects(defs, event, k)
    ensures Subseq(r, keys)
    ensures Distinct(keys) ==> Distinct(r)
    ensures NoEvent(event) ==> r == keys
    decreases |keys|
  {
    if |keys| == 0 then []
    else
      var init := keys[..|keys| - 1];
      var last := keys[|keys| - 1];
      assert keys == init + [last];
      var rest := Matching(init, defs, event);
      if Selects(defs, event, last) then
        assert (rest + [last])[..|rest|] == rest;
        assert Distinct(keys) ==> last !in init;
        rest + [last]
      else
        assert |rest| > 0 ==> rest[|rest| - 1] in rest;
        rest
  }
}
