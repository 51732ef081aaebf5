/**
 The matcher of the wait-for middleware (`findRecorded`): for every requested action
 type, in the order given, the earliest recorded action of that type; no result at all
 unless every requested type was found.
 */
module Matching {

  datatype Option<T> = None | Some(value: T)

  /** A dispatched action. `kind` is the object's `type` property: `Some(s)` when it is a
      string, `None` when it is absent or holds something that is never `===` to a string.
      `payload` stands for the rest of the object. */
  datatype Action = Action(kind: Option<string>, payload: int)

  /** The predicate handed to `records.find`: the record's type must be truthy (so neither
      missing nor the empty string) and strictly equal to the requested type. */
  predicate Matches(a: Action, t: string)
  {
    a.kind == Some(t) && t != ""
  }

  /** Some record of the log has type `t`. */
  ghost predicate Seen(log: seq<Action>, t: string)
  {
    exists j :: 0 <= j < |log| && Matches(log[j], t)
  }

  /** The index of the record that `records.find` returns: the earliest match, if any. */
  function FirstIndex(log: seq<Action>, t: string): (r: Option<nat>)
    ensures r.Some? ==> r.value < |log| && Matches(log[r.value], t)
    ensures r.Some? ==> forall k :: 0 <= k < r.value ==> !Matches(log[k], t)
    ensures r.None? ==> forall k :: 0 <= k < |log| ==> !Matches(log[k], t)
  {
    if log == [] then None
    else if Matches(log[0], t) then Some(0)
    else match FirstIndex(log[1..], t)
      case None => None
      case Some(j) => Some(j + 1)
  }

  /** The local `matches` array after the `forEach` over the requested types: each type
      that was found contributes its earliest record, one that was not contributes nothing. */
  function Collected(log: seq<Action>, kinds: seq<string>): seq<Action>
    decreases |kinds|
  {
    if kinds == [] then []
    else
      var prev := Collected(log, kinds[..|kinds| - 1]);
      match FirstIndex(log, kinds[|kinds| - 1])
      case None => prev
      case Some(j) => prev + [log[j]]
  }

  /** `actions.every(type => matches.find(match => match.type === type))`. */
  predicate AllFound(kinds: seq<string>, matches: seq<Action>)
  {
    forall i :: 0 <= i < |kinds| ==> exists m :: m in matches && m.kind == Some(kinds[i])
  }

  /** `findRecorded(kinds)` against the log `log`; `None` stands for `null`. */
  function Recorded(log: seq<Action>, kinds: seq<string>): Option<seq<Action>>
  {
    var matches := Collected(log, kinds);
    if AllFound(kinds, matches) then Some(matches) else None
  }

  /** Reference definition, stated without the accumulator: provided every requested type
      occurs in the log, the earliest record of each requested type, in request order. */
  ghost function Earliest(log: seq<Action>, kinds: seq<string>): Option<seq<Action>>
  {
    if forall i :: 0 <= i < |kinds| ==> FirstIndex(log, kinds[i]).Some? then
      Some(seq(|kinds|, i requires 0 <= i < |kinds| && FirstIndex(log, kinds[i]).Some? =>
                          log[FirstIndex(log, kinds[i]).value]))
    else None
  }

  /** When every type is found, `matches` holds exactly one record per requested type. */
  lemma {:induction false} CollectedWhenAllSeen(log: seq<Action>, kinds: seq<string>)
    requires forall i :: 0 <= i < |kinds| ==> FirstIndex(log, kinds[i]).Some?
    ensures |Collected(log, kinds)| == |kinds|
    ensures forall i :: 0 <= i < |kinds| ==> Collected(log, kinds)[i] == log[FirstIndex(log, kinds[i]).value]
    decreases |kinds|
  {
    if kinds != [] {
      var init := kinds[..|kinds| - 1];
      assert forall i :: 0 <= i < |init| ==> init[i] == kinds[i];
      CollectedWhenAllSeen(log, init);
    }
  }

  /** Everything in `matches` is a recorded action with a non-empty string type. */
  lemma {:induction false} CollectedFromLog(log: seq<Action>, kinds: seq<string>)
    ensures forall m :: m in Collected(log, kinds) ==> m in log && m.kind.Some? && m.kind.value != ""
    decreases |kinds|
  {
    if kinds != [] {
      CollectedFromLog(log, kinds[..|kinds| - 1]);
    }
  }

  /** `findRecorded` returns the reference result: `null` exactly when some requested type
      is absent from the log, and otherwise the earliest record of each requested type. */
  lemma RecordedIsEarliest(log: seq<Action>, kinds: seq<string>)
    ensures Recorded(log, kinds) == Earliest(log, kinds)
  {
    var matches := Collected(log, kinds);
    if forall i :: 0 <= i < |kinds| ==> FirstIndex(log, kinds[i]).Some? {
      CollectedWhenAllSeen(log, kinds);
      forall i | 0 <= i < |kinds|
        ensures exists m :: m in matches && m.kind == Some(kinds[i])
      {
        assert matches[i] in matches;
      }
      assert matches == Earliest(log, kinds).value;
    } else {
      var i :| 0 <= i < |kinds| && FirstIndex(log, kinds[i]).None?;
      CollectedFromLog(log, kinds);
      forall m | m in matches ensures m.kind != Some(kinds[i]) {
        var j :| 0 <= j < |log| && log[j] == m;
        assert !Matches(log[j], kinds[i]);
      }
    }
  }

  /** `findRecorded(kinds)` is non-null exactly when every requested type has a record with
      that same non-empty type; in particular `findRecorded([])` is the empty array. */
  lemma RecordedSomeIff(log: seq<Action>, kinds: seq<string>)
    ensures Recorded(log, kinds).Some? <==> forall i :: 0 <= i < |kinds| ==> Seen(log, kinds[i])
    ensures kinds == [] ==> Recorded(log, kinds) == Some([])
  {
    RecordedIsEarliest(log, kinds);
    if forall i :: 0 <= i < |kinds| ==> Seen(log, kinds[i]) {
      forall i | 0 <= i < |kinds| ensures FirstIndex(log, kinds[i]).Some? {
        var j :| 0 <= j < |log| && Matches(log[j], kinds[i]);
      }
    }
  }

  /** A non-null result has one entry per requested type, and entry `i` is the earliest
      record whose type is `kinds[i]`. */
  lemma RecordedAt(log: seq<Action>, kinds: seq<string>, i: int)
    requires Recorded(log, kinds).Some? && 0 <= i < |kinds|
    ensures |Recorded(log, kinds).value| == |kinds|
    ensures exists j :: 0 <= j < |log| && Recorded(log, kinds).value[i] == log[j] && Matches(log[j], kinds[i])
                        && forall k :: 0 <= k < j ==> !Matches(log[k], kinds[i])
  {
    RecordedIsEarliest(log, kinds);
    var j := FirstIndex(log, kinds[i]).value;
    assert Recorded(log, kinds).value[i] == log[j];
  }

  /** A request for one type yields that type's earliest record. */
  lemma RecordedOne(log: seq<Action>, t: string, j: nat)
    requires j < |log| && Matches(log[j], t)
    requires forall k :: 0 <= k < j ==> !Matches(log[k], t)
    ensures Recorded(log, [t]) == Some([log[j]])
  {
    RecordedIsEarliest(log, [t]);
    var r := FirstIndex(log, t);
    assert r.Some? && r.value == j;
    assert [t][0] == t;
    assert Earliest(log, [t]).value == [log[j]];
  }

  /** A type requested twice yields the same earliest record twice. */
  lemma RecordedRepeats(log: seq<Action>, kinds: seq<string>, i: int, j: int)
    requires Recorded(log, kinds).Some? && 0 <= i < |kinds| && 0 <= j < |kinds|
    requires kinds[i] == kinds[j]
    ensures |Recorded(log, kinds).value| == |kinds| && Recorded(log, kinds).value[i] == Recorded(log, kinds).value[j]
  {
    RecordedIsEarliest(log, kinds);
  }

  /** The earliest match does not move when records are appended after it. */
  lemma FirstIndexStable(log: seq<Action>, more: seq<Action>, t: string)
    requires FirstIndex(log, t).Some?
    ensures FirstIndex(log + more, t) == FirstIndex(log, t)
  {
    var j := FirstIndex(log, t).value;
    assert (log + more)[j] == log[j];
    assert forall k :: 0 <= k < j ==> (log + more)[k] == log[k];
  }

  /** Monotonicity: once `findRecorded(kinds)` is non-null, dispatching more actions keeps
      it non-null with the same result. */
  lemma RecordedStable(log: seq<Action>, more: seq<Action>, kinds: seq<string>)
    requires Recorded(log, kinds).Some?
    ensures Recorded(log + more, kinds) == Recorded(log, kinds)
  {
    RecordedIsEarliest(log, kinds);
    RecordedIsEarliest(log + more, kinds);
    forall i | 0 <= i < |kinds| ensures FirstIndex(log + more, kinds[i]) == FirstIndex(log, kinds[i]) {
      FirstIndexStable(log, more, kinds[i]);
    }
    assert Earliest(log + more, kinds).value == Earliest(log, kinds).value;
  }

  /** After `clean` the log is empty, and an empty log matches no non-empty request. */
  lemma EmptyLogMatchesNothing(kinds: seq<string>)
    requires kinds != []
    ensures Recorded([], kinds) == None
  {
    RecordedSomeIff([], kinds);
    assert !Seen([], kinds[0]);
  }
}
