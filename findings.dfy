/**
 Three places where the middleware's code does not do what its own comments say, each
 shown on a concrete input against the model of the code as written, next to a
 corrected definition and the property it was meant to have.
 */
module Findings {
  import opened Matching
  import opened Waiters

  // ---- removeResolver removes the head of the queue, not the waiter that asked ----

  /** With waiter 1 waiting for "Y" ahead of waiter 2 waiting for "X", dispatching an "X"
      runs waiter 2's resolver, whose `removeResolver(2)` removes waiter 1's entry: waiter 1
      is no longer queued although nothing resolved it, so a later "Y" cannot resolve it.
      Removal by id, as intended, leaves waiter 1 queued. */
  lemma RemoveResolverDropsPendingWaiter(a: Waiter, b: Waiter)
    requires a.id == 1 && a.kinds == ["Y"] && b.id == 2 && b.kinds == ["X"]
    ensures var log := [Action(Some("X"), 0)];
            var q := [Entry(1, a), Entry(2, b)];
            && Recorded(log, a.kinds) == None
            && Spliced(q, 2) == [Entry(2, b)]
            && Pass(log, q, 0, 2) == [Entry(2, b)]
            && a !in Queued(Pass(log, q, 0, 2))
            && Recorded(log, b.kinds).Some? && Visited(log, q, 0, 2) == {a, b}
            && Removed(q, 2) == [Entry(1, a)]
            && SnapshotPass(log, q, q) == [Entry(1, a)]
  {
    var log := [Action(Some("X"), 0)];
    var q := [Entry(1, a), Entry(2, b)];
    NoRecordOfType(log, "Y");
    RemovedFirst(q, 2, 1);
    RecordedSomeIff(log, a.kinds);
    RecordedSomeIff(log, b.kinds);
    assert Matches(log[0], "X");
    SnapshotPassKeepsUnsatisfied(log, q);
    assert q[1..] == [Entry(2, b)] && q[1..][1..] == [];
    assert Recorded(log, q[0].waiter.kinds).None? && Recorded(log, q[1].waiter.kinds).Some?;
    assert Unsatisfied(log, q[1..]) == [];
    assert Unsatisfied(log, q) == [Entry(1, a)];
    assert Queued(Pass(log, q, 0, 2)) == {b};
    PassUnfold(log, q, 0, 2);
    assert Step(log, q, 0) == q;
    PassUnfold(log, q, 1, 2);
  }

  /** Helper: a log none of whose records has type `t` has no record of type `t`. */
  lemma NoRecordOfType(log: seq<Action>, t: string)
    requires forall j :: 0 <= j < |log| ==> log[j].kind != Some(t)
    ensures !Seen(log, t)
  {
  }

  /** `removeResolver` as its comment describes it: the first entry whose id is `id`
      (`resolver.id === id`) is removed, and a queue without one is left unchanged. */
  function Removed(q: seq<Entry>, id: nat): seq<Entry>
    decreases |q|
  {
    if q == [] then []
    else if q[0].id == id then q[1..]
    else [q[0]] + Removed(q[1..], id)
  }

  /** Corrected removal takes out exactly the first entry carrying the id, whatever its
      position, and keeps the others in order. */
  lemma {:induction false} RemovedFirst(q: seq<Entry>, id: nat, k: nat)
    requires k < |q| && q[k].id == id
    requires forall j :: 0 <= j < k ==> q[j].id != id
    ensures Removed(q, id) == q[..k] + q[k + 1..]
    decreases k
  {
    if k > 0 {
      RemovedFirst(q[1..], id, k - 1);
      assert q[..k] == [q[0]] + q[1..][..k - 1];
      assert q[k + 1..] == q[1..][k..];
    }
  }

  /** Corrected removal leaves a queue without the id unchanged. */
  lemma {:induction false} RemovedAbsent(q: seq<Entry>, id: nat)
    requires forall j :: 0 <= j < |q| ==> q[j].id != id
    ensures Removed(q, id) == q
    decreases |q|
  {
    if q != [] {
      RemovedAbsent(q[1..], id);
      assert q == [q[0]] + q[1..];
    }
  }

  // ---- the dispatch pass skips the entry shifted down by a removal ----

  /** Two waiters for "X": dispatching an "X" resolves waiter 1, whose removal shifts
      waiter 2 down to index 0 while `forEach` moves on to index 1, past the end. Waiter 2
      is satisfied but neither visited nor removed in this pass. A pass over a snapshot
      resolves and removes both. */
  lemma DispatchSkipsShiftedWaiter(a: Waiter, b: Waiter)
    requires a.id == 1 && a.kinds == ["X"] && b.id == 2 && b.kinds == ["X"]
    ensures var log := [Action(Some("X"), 0)];
            var q := [Entry(1, a), Entry(2, b)];
            && Recorded(log, b.kinds).Some?
            && Visited(log, q, 0, 2) == {a}
            && Pass(log, q, 0, 2) == [Entry(2, b)]
            && SnapshotPass(log, q, q) == []
  {
    var log := [Action(Some("X"), 0)];
    var q := [Entry(1, a), Entry(2, b)];
    RecordedSomeIff(log, ["X"]);
    assert Matches(log[0], "X");
    SnapshotPassKeepsUnsatisfied(log, q);
    assert q[1..] == [Entry(2, b)] && q[1..][1..] == [];
    assert Recorded(log, q[0].waiter.kinds).Some? && Recorded(log, q[1].waiter.kinds).Some?;
    assert Unsatisfied(log, q[1..]) == [];
    assert Unsatisfied(log, q) == [];
  }

  /** The entries of `q` whose waiter's types are not all in the log, in queue order. */
  function Unsatisfied(log: seq<Action>, q: seq<Entry>): seq<Entry>
    decreases |q|
  {
    if q == [] then []
    else (if Recorded(log, q[0].waiter.kinds).None? then [q[0]] else []) + Unsatisfied(log, q[1..])
  }

  /** Notification as the comment on `waitedQueue` describes it (every resolver is called
      on each dispatch), over a snapshot: every waiter of `snapshot` has its resolver run
      once, and a satisfied one removes its own entry by id. */
  function SnapshotPass(log: seq<Action>, snapshot: seq<Entry>, q: seq<Entry>): seq<Entry>
    decreases |snapshot|
  {
    if snapshot == [] then q
    else
      var w := snapshot[0].waiter;
      SnapshotPass(log, snapshot[1..], if Recorded(log, w.kinds).Some? then Removed(q, w.id) else q)
  }

  /** Entry ids are their waiters' ids and are pairwise distinct. */
  ghost predicate OwnIds(q: seq<Entry>)
  {
    && (forall k :: 0 <= k < |q| ==> q[k].id == q[k].waiter.id)
    && (forall a, b :: 0 <= a < b < |q| ==> q[a].id != q[b].id)
  }

  /** Removal by id of an entry whose id no other entry has takes out exactly that entry. */
  lemma RemovedOwnEntry(kept: seq<Entry>, e: Entry, rest: seq<Entry>)
    requires OwnIds(kept + [e] + rest)
    ensures Removed(kept + [e] + rest, e.waiter.id) == kept + rest
  {
    var q := kept + [e] + rest;
    var k := |kept|;
    assert q[k] == e;
    RemovedFirst(q, e.waiter.id, k);
    assert q[..k] == kept && q[k + 1..] == rest;
  }

  /** Taking an entry out keeps the ids distinct. */
  lemma OwnIdsWithout(kept: seq<Entry>, e: Entry, rest: seq<Entry>)
    requires OwnIds(kept + [e] + rest)
    ensures OwnIds(kept + rest)
  {
    var q := kept + [e] + rest;
    var r := kept + rest;
    var k := |kept|;
    assert forall j :: 0 <= j < |r| ==> r[j] == q[if j < k then j else j + 1];
    forall x, y | 0 <= x < y < |r| ensures r[x].id != r[y].id {
      assert r[x] == q[if x < k then x else x + 1];
      assert r[y] == q[if y < k then y else y + 1];
    }
  }

  /** One step of the snapshot pass on a satisfied waiter: its entry goes, the rest stay. */
  lemma SatisfiedStep(log: seq<Action>, kept: seq<Entry>, s: seq<Entry>)
    requires s != [] && OwnIds(kept + s) && Recorded(log, s[0].waiter.kinds).Some?
    ensures SnapshotPass(log, s, kept + s) == SnapshotPass(log, s[1..], kept + s[1..])
    ensures Unsatisfied(log, s) == Unsatisfied(log, s[1..])
    ensures OwnIds(kept + s[1..])
  {
    var e, rest := s[0], s[1..];
    assert s == [e] + rest && kept + s == kept + [e] + rest;
    RemovedOwnEntry(kept, e, rest);
    OwnIdsWithout(kept, e, rest);
  }

  /** One step of the snapshot pass on an unsatisfied waiter: its entry stays. */
  lemma UnsatisfiedStep(log: seq<Action>, kept: seq<Entry>, s: seq<Entry>)
    requires s != [] && Recorded(log, s[0].waiter.kinds).None?
    ensures kept + s == (kept + [s[0]]) + s[1..]
    ensures SnapshotPass(log, s, kept + s) == SnapshotPass(log, s[1..], kept + s)
    ensures kept + Unsatisfied(log, s) == (kept + [s[0]]) + Unsatisfied(log, s[1..])
  {
    assert s == [s[0]] + s[1..];
  }

  lemma {:induction false} SnapshotPassFrom(log: seq<Action>, kept: seq<Entry>, s: seq<Entry>)
    requires OwnIds(kept + s)
    ensures SnapshotPass(log, s, kept + s) == kept + Unsatisfied(log, s)
    decreases |s|
  {
    if s == [] {
      assert kept + s == kept;
    } else if Recorded(log, s[0].waiter.kinds).Some? {
      SatisfiedStep(log, kept, s);
      SnapshotPassFrom(log, kept, s[1..]);
    } else {
      UnsatisfiedStep(log, kept, s);
      SnapshotPassFrom(log, kept + [s[0]], s[1..]);
    }
  }

  /** A notification pass over a snapshot, with removal by id, resolves every satisfied
      waiter and leaves queued exactly the unsatisfied ones, in their original order. */
  lemma SnapshotPassKeepsUnsatisfied(log: seq<Action>, q: seq<Entry>)
    requires OwnIds(q)
    ensures SnapshotPass(log, q, q) == Unsatisfied(log, q)
  {
    SnapshotPassFrom(log, [], q);
    assert [] + q == q;
  }

  // ---- the fast path resolves with the type strings, not the recorded actions ----

  /** With an "X" action carrying payload 7 already recorded, `waitFor(["X"])` resolves at
      once with `["X"]`, while a resolver on the same log delivers the recorded action. */
  lemma FastPathResolvesWithTypes()
    ensures var log := [Action(Some("X"), 7)];
            && Initial(log, ["X"]) == Resolved(Kinds(["X"]))
            && Notified(Pending, log, ["X"]) == Resolved(Records(log))
            && IntendedInitial(log, ["X"]) == Resolved(Records(log))
  {
    var log := [Action(Some("X"), 7)];
    RecordedSomeIff(log, ["X"]);
    assert Matches(log[0], "X");
    RecordedAt(log, ["X"], 0);
    assert Recorded(log, ["X"]).value == log;
  }

  /** The fast path as the comment of `waitFor` describes it: resolve with the recorded
      actions, including their payloads. */
  function IntendedInitial(log: seq<Action>, kinds: seq<string>): Outcome
  {
    match Recorded(log, kinds)
    case Some(m) => Resolved(Records(m))
    case None => Pending
  }

  /** The corrected fast path settles under the same condition as the code's, and with the
      same value a resolver would deliver: the earliest record of each requested type. */
  lemma IntendedFastPathAgrees(log: seq<Action>, kinds: seq<string>)
    ensures IntendedInitial(log, kinds).Pending? == Initial(log, kinds).Pending?
    ensures IntendedInitial(log, kinds) == Notified(Pending, log, kinds)
    ensures IntendedInitial(log, kinds).Resolved? ==>
              var acts := IntendedInitial(log, kinds).value.actions;
              |acts| == |kinds| &&
              forall i :: 0 <= i < |kinds| ==> exists j :: 0 <= j < |log| && acts[i] == log[j] && Matches(log[j], kinds[i])
                                                     && forall k :: 0 <= k < j ==> !Matches(log[k], kinds[i])
  {
    if Recorded(log, kinds).Some? {
      RecordedIsEarliest(log, kinds);
      forall i | 0 <= i < |kinds|
        ensures exists j :: 0 <= j < |log| && Recorded(log, kinds).value[i] == log[j] && Matches(log[j], kinds[i])
                            && forall k :: 0 <= k < j ==> !Matches(log[k], kinds[i])
      {
        RecordedAt(log, kinds, i);
      }
    }
  }
}
