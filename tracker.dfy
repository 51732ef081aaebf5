/**
 The state that `createWaitForMiddleware` closes over (`records`, `waitedQueue`,
 `emittedPromises`) and the operations on it: the dispatch hook, `clean`, `waitFor`,
 the per-waiter resolver and `removeResolver`.
 */
module WaitForMiddleware {
  import opened Matching
  import opened Waiters

  /** The default of `waitFor`'s `timeout` parameter, in milliseconds. */
  const DefaultTimeout: nat := 2000

  /** Queue entries carry the id of their own waiter, every id lies in 1..counter, and ids
      strictly increase along the queue (so they are distinct). */
  ghost predicate QueueOk(q: seq<Entry>, counter: nat)
  {
    && (forall k :: 0 <= k < |q| ==> q[k].id == q[k].waiter.id && 1 <= q[k].id <= counter)
    && (forall a, b :: 0 <= a < b < |q| ==> q[a].id < q[b].id)
  }

  /** Dropping entries from the front of a well-formed queue keeps it well formed. */
  lemma SuffixKeepsQueueOk(r: seq<Entry>, q: seq<Entry>, counter: nat)
    requires QueueOk(q, counter) && IsSuffix(r, q)
    ensures QueueOk(r, counter)
  {
    var d := |q| - |r|;
    assert forall k :: 0 <= k < |r| ==> r[k] == q[d + k];
  }

  class Tracker {
    /** `records`: every action dispatched since the last `clean`. */
    var records: seq<Action>
    /** `waitedQueue`. */
    var queue: seq<Entry>
    /** `emittedPromises`. */
    var counter: nat

    ghost predicate Valid()
      reads this
    {
      QueueOk(queue, counter)
    }

    constructor ()
      ensures Valid()
      ensures records == [] && queue == [] && counter == 0
    {
      records := [];
      queue := [];
      counter := 0;
    }

    /** `findRecorded(kinds)`: the `forEach` that pushes each type's earliest record,
        then the `every` check. */
    method FindRecorded(kinds: seq<string>) returns (r: Option<seq<Action>>)
      ensures r == Recorded(records, kinds)
    {
      var matches: seq<Action> := [];
      var i := 0;
      while i < |kinds|
        invariant 0 <= i <= |kinds|
        invariant matches == Collected(records, kinds[..i])
      {
        assert kinds[..i + 1][..i] == kinds[..i];
        match FirstIndex(records, kinds[i]) {
          case Some(j) => matches := matches + [records[j]];
          case None =>
        }
        i := i + 1;
      }
      assert kinds[..i] == kinds;
      if AllFound(kinds, matches) {
        r := Some(matches);
      } else {
        r := None;
      }
    }

    /** `removeResolver(id)`: a `findIndex` whose predicate assigns `id` to every entry it
        visits, then `splice(index, 1)`. */
    method RemoveResolver(id: nat)
      modifies this
      ensures queue == Spliced(old(queue), id)
      ensures records == old(records) && counter == old(counter)
    {
      var index := -1;
      var k := 0;
      while k < |queue| && index == -1
        invariant 0 <= k <= |queue| == |old(queue)|
        invariant index == -1 || (index == 0 && k == 1 && id != 0)
        invariant index == -1 ==> k == 0 || id == 0
        invariant queue == Probed(old(queue), id, k)
        invariant records == old(records) && counter == old(counter)
      {
        queue := queue[k := queue[k].(id := id)];
        if id != 0 {
          index := k;
        }
        k := k + 1;
      }
      ProbedThenSpliced(old(queue), id);
      queue := SpliceOne(queue, index);
    }

    /** The `resolver` closure of a waiter: run `findRecorded` on the waiter's types and,
        when it matches, call `removeResolver` and resolve with the matched records. */
    method RunResolver(w: Waiter)
      modifies this, w
      ensures queue == if Recorded(records, w.kinds).Some? then Spliced(old(queue), w.id) else old(queue)
      ensures w.outcome == Notified(old(w.outcome), records, w.kinds)
      ensures records == old(records) && counter == old(counter)
    {
      var m := FindRecorded(w.kinds);
      if m.Some? {
        RemoveResolver(w.id);
        w.Resolve(Records(m.value));
      }
    }

    /** `waitedQueue.forEach(waited => waited.resolver())`: the length is captured when the
        pass starts, and an index is visited only while it is below the current length. */
    method Notify()
      modifies this, Queued(queue)
      ensures records == old(records) && counter == old(counter)
      ensures queue == Pass(records, old(queue), 0, |old(queue)|)
      ensures forall w :: w in Queued(old(queue)) ==>
                w.outcome == if w in Visited(records, old(queue), 0, |old(queue)|)
                             then Notified(old(w.outcome), records, w.kinds) else old(w.outcome)
    {
      ghost var q0 := queue;
      var len := |queue|;
      var i := 0;
      ghost var visited: set<Waiter> := {};
      PassStaysWithin(records, q0, 0, len);
      while i < len
        invariant 0 <= i <= len
        invariant records == old(records) && counter == old(counter)
        invariant Pass(records, queue, i, len) == Pass(records, q0, 0, len)
        invariant Visited(records, q0, 0, len) == visited + Visited(records, queue, i, len)
        invariant Queued(queue) <= Queued(q0)
        invariant forall w :: w in Queued(q0) ==>
                    w.outcome == if w in visited then Notified(old(w.outcome), records, w.kinds) else old(w.outcome)
      {
        PassUnfold(records, queue, i, len);
        if i < |queue| {
          ghost var before := queue;
          var w := queue[i].waiter;
          assert w in Queued(before);
          SplicedDropsHead(before, w.id);
          RunResolver(w);
          visited := visited + {w};
        }
        i := i + 1;
      }
    }

    /** The dispatch hook `action => { records.push(action); waitedQueue.forEach(...);
        return next(action); }`, with `next` the rest of the dispatch chain. */
    method Dispatch<R>(action: Action, next: Action -> R) returns (r: R)
      requires Valid()
      modifies this, Queued(queue)
      ensures Valid()
      ensures records == old(records) + [action] && counter == old(counter)
      ensures queue == Pass(records, old(queue), 0, |old(queue)|)
      ensures IsSuffix(queue, old(queue))
      ensures forall w :: w in Queued(old(queue)) ==>
                w.outcome == if w in Visited(records, old(queue), 0, |old(queue)|)
                             then Notified(old(w.outcome), records, w.kinds) else old(w.outcome)
      ensures r == next(action)
    {
      records := records + [action];
      Notify();
      PassIsSuffix(records, old(queue), 0, |old(queue)|);
      SuffixKeepsQueueOk(queue, old(queue), counter);
      r := next(action);
    }

    /** `clean`: empties the log and the queue; the counter keeps counting. */
    method Clean()
      modifies this
      ensures Valid()
      ensures records == [] && queue == [] && counter == old(counter)
    {
      records := [];
      queue := [];
    }

    /** `waitFor(actions, timeout)`: bump the counter, then either resolve at once with the
        requested types (the log already matches) or queue a waiter whose id is the new
        counter value. The timer is the returned waiter's `Expire`. */
    method WaitFor(kinds: seq<string>, timeout: nat := DefaultTimeout) returns (w: Waiter)
      requires Valid()
      modifies this
      ensures Valid()
      ensures counter == old(counter) + 1 && records == old(records)
      ensures fresh(w) && w.id == counter && w.kinds == kinds && w.timeout == timeout
      ensures w.outcome == Initial(records, kinds)
      ensures queue == if w.outcome.Pending? then old(queue) + [Entry(w.id, w)] else old(queue)
    {
      counter := counter + 1;
      w := new Waiter(counter, kinds, timeout);
      var matches := FindRecorded(kinds);
      if matches.Some? {
        w.Resolve(Kinds(kinds));
      } else {
        queue := queue + [Entry(counter, w)];
      }
    }
  }

  /** A usage scenario, stated with the contracts above: with "A" and "B" recorded,
      `findRecorded(["A"])` gives the "A" action, `findRecorded(["C"])` gives null, and
      `waitFor(["A"])` resolves at once with the type strings, queueing nothing. */
  method ScenarioRecorded()
  {
    var t := new Tracker();
    var a, b := Action(Some("A"), 1), Action(Some("B"), 2);
    var r1 := t.Dispatch(a, (x: Action) => 0);
    var r2 := t.Dispatch(b, (x: Action) => 0);
    assert t.records == [a, b];
    RecordedOne([a, b], "A", 0);
    var m := t.FindRecorded(["A"]);
    assert m == Some([a]);
    RecordedSomeIff([a, b], ["C"]);
    assert !Seen([a, b], "C");
    var n := t.FindRecorded(["C"]);
    assert n == None;
    var w := t.WaitFor(["A"]);
    assert w.outcome == Resolved(Kinds(["A"])) && t.queue == [];
  }

  /** A usage scenario: on an empty log `waitFor(["X"])` is queued; dispatching an "X" resolves it
      with the recorded action and empties the queue, and its timer firing afterwards
      changes nothing. */
  method ScenarioResolvedBeforeTimeout()
  {
    var t := new Tracker();
    EmptyLogMatchesNothing(["X"]);
    var w := t.WaitFor(["X"]);
    assert t.queue == [Entry(1, w)];
    var x := Action(Some("X"), 0);
    RecordedOne([x], "X", 0);
    PassOne([x], Entry(1, w));
    var r := t.Dispatch(x, (a: Action) => a.payload);
    assert w.outcome == Resolved(Records([x])) && t.queue == [] && r == 0;
    w.Expire();
    assert w.outcome == Resolved(Records([x]));
  }

  /** A usage scenario: a waiter whose timer fires is rejected with its types and stays queued; a
      later matching dispatch runs its resolver, which removes it but cannot resolve it. */
  method ScenarioTimeoutLeavesWaiterQueued()
  {
    var t := new Tracker();
    EmptyLogMatchesNothing(["X"]);
    var w := t.WaitFor(["X"], 50);
    w.Expire();
    assert w.outcome == Rejected(["X"]) && t.queue == [Entry(1, w)];
    var x := Action(Some("X"), 0);
    RecordedOne([x], "X", 0);
    PassOne([x], Entry(1, w));
    var r := t.Dispatch(x, (a: Action) => 0);
    assert w.outcome == Rejected(["X"]) && t.queue == [];
  }

  /** A usage scenario: after `clean` nothing recorded before matches any more. */
  method ScenarioClean()
  {
    var t := new Tracker();
    var r := t.Dispatch(Action(Some("A"), 0), (a: Action) => 0);
    t.Clean();
    EmptyLogMatchesNothing(["A"]);
    var m := t.FindRecorded(["A"]);
    assert m == None;
  }
}
