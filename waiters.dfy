/**
 The waiters of the wait-for middleware: the promise each `waitFor` call returns, the
 entries of `waitedQueue`, `removeResolver` as it is written, and one notification pass
 of the dispatch hook's `forEach` over the live queue.
 */
module Waiters {
  import opened Matching

  /** What a waiter's promise is resolved with: the requested type strings themselves
      (the fast path) or the matched records (a resolver). */
  datatype Resolution = Kinds(kinds: seq<string>) | Records(actions: seq<Action>)

  /** The state of a promise; `Rejected` carries the requested types of the timeout error. */
  datatype Outcome = Pending | Resolved(value: Resolution) | Rejected(kinds: seq<string>)

  /** A promise settles once: `resolve` or `reject` on a settled promise does nothing. */
  function Settle(o: Outcome, next: Outcome): Outcome
  {
    if o.Pending? then next else o
  }

  /** What a resolver call does to its promise against the log `log`: resolve it with
      `findRecorded`'s result when that is non-null, nothing otherwise. */
  function Notified(o: Outcome, log: seq<Action>, kinds: seq<string>): (r: Outcome)
    ensures !o.Pending? ==> r == o
    ensures r.Pending? <==> o.Pending? && Recorded(log, kinds).None?
  {
    match Recorded(log, kinds)
    case Some(m) => Settle(o, Resolved(Records(m)))
    case None => o
  }

  /** Settling is final, and running a resolver again against the same log changes nothing. */
  lemma {:induction false} SettledOnce(o: Outcome, a: Outcome, b: Outcome, log: seq<Action>, kinds: seq<string>)
    requires !a.Pending?
    ensures !Settle(o, a).Pending?
    ensures Settle(Settle(o, a), b) == Settle(o, a)
    ensures Notified(Notified(o, log, kinds), log, kinds) == Notified(o, log, kinds)
  {
  }

  /** One `waitFor` call: its promise, with the constants that the promise's resolver and
      timer closures capture (the call's id, the requested types and the timeout). */
  class Waiter {
    const id: nat
    const kinds: seq<string>
    const timeout: nat
    var outcome: Outcome

    constructor (id: nat, kinds: seq<string>, timeout: nat)
      ensures this.id == id && this.kinds == kinds && this.timeout == timeout
      ensures outcome == Pending
    {
      this.id := id;
      this.kinds := kinds;
      this.timeout := timeout;
      outcome := Pending;
    }

    /** `resolve(v)`. */
    method Resolve(v: Resolution)
      modifies this
      ensures outcome == Settle(old(outcome), Resolved(v))
    {
      if outcome.Pending? {
        outcome := Resolved(v);
      }
    }

    /** The timer firing: `reject` with a timeout error naming the requested types. It does
        not touch the queue, so a rejected waiter stays queued. */
    method Expire()
      modifies this
      ensures outcome == Settle(old(outcome), Rejected(kinds))
    {
      if outcome.Pending? {
        outcome := Rejected(kinds);
      }
    }
  }

  /** An element `{ resolver, id }` of `waitedQueue`. The `id` property can be overwritten
      by `removeResolver`; the id the resolver passes to `removeResolver` is `waiter.id`. */
  datatype Entry = Entry(id: nat, waiter: Waiter)

  /** The waiters that have an entry in `q`. */
  function Queued(q: seq<Entry>): set<Waiter>
  {
    set k | 0 <= k < |q| :: q[k].waiter
  }

  /** `Array.prototype.splice(start, 1)`: a negative start counts from the end. */
  function SpliceOne<T>(s: seq<T>, start: int): (r: seq<T>)
    ensures 0 <= start < |s| ==> r == s[..start] + s[start + 1..]
    ensures start >= |s| ==> r == s
    ensures start < 0 && |s| + start >= 0 ==> r == s[..|s| + start] + s[|s| + start + 1..]
    ensures start < 0 && |s| + start < 0 && |s| > 0 ==> r == s[1..]
    ensures start < 0 && |s| > 0 ==> |r| == |s| - 1
  {
    var from := if start < 0 then (if |s| + start < 0 then 0 else |s| + start)
                else (if start > |s| then |s| else start);
    if from < |s| then s[..from] + s[from + 1..] else s
  }

  /** `waitedQueue` after `removeResolver(id)` as written. The `findIndex` predicate is the
      assignment `resolver.id = id`, whose value is `id`: with `id != 0` it holds at the
      first entry visited, which is overwritten and then spliced out; with `id == 0` every
      entry is overwritten, `findIndex` gives -1 and `splice(-1, 1)` drops the last one. */
  function Spliced(q: seq<Entry>, id: nat): seq<Entry>
  {
    if q == [] then []
    else if id != 0 then q[1..]
    else seq(|q| - 1, k requires 0 <= k < |q| - 1 => q[k].(id := 0))
  }

  /** `removeResolver` on a non-empty queue removes exactly one entry, and for any id it
      can be called with (ids start at 1) that entry is the head, whichever waiter asked. */
  lemma SplicedDropsHead(q: seq<Entry>, id: nat)
    ensures |q| > 0 ==> |Spliced(q, id)| == |q| - 1
    ensures |q| > 0 && id != 0 ==> Spliced(q, id) == q[1..]
    ensures q == [] ==> Spliced(q, id) == []
    ensures Queued(Spliced(q, id)) <= Queued(q)
  {
    forall w | w in Queued(Spliced(q, id)) ensures w in Queued(q) {
      var k :| 0 <= k < |Spliced(q, id)| && Spliced(q, id)[k].waiter == w;
      assert q[if id != 0 then k + 1 else k].waiter == w;
    }
  }

  /** The queue while `findIndex` runs with the assigning predicate: the first `k` entries
      have had their id overwritten by `id`. */
  function Probed(q: seq<Entry>, id: nat, k: nat): (r: seq<Entry>)
    ensures |r| == |q|
  {
    seq(|q|, j requires 0 <= j < |q| => if j < k then q[j].(id := id) else q[j])
  }

  /** Splicing out the index `findIndex` settles on gives `Spliced`: with `id != 0` the
      search stops at index 0, with `id == 0` it probes every entry and yields -1. */
  lemma ProbedThenSpliced(q: seq<Entry>, id: nat)
    ensures id != 0 && q != [] ==> SpliceOne(Probed(q, id, 1), 0) == Spliced(q, id)
    ensures id == 0 ==> SpliceOne(Probed(q, id, |q|), -1) == Spliced(q, id)
  {
    if id == 0 && q != [] {
      var p := Probed(q, id, |q|);
      assert SpliceOne(p, -1) == p[..|q| - 1];
    }
  }

  /** The queue after the resolver of `q[i]` runs, if the pass reaches index `i`. */
  function Step(log: seq<Action>, q: seq<Entry>, i: nat): seq<Entry>
  {
    if i < |q| && Recorded(log, q[i].waiter.kinds).Some? then Spliced(q, q[i].waiter.id) else q
  }

  /** `waitedQueue.forEach(waited => waited.resolver())` from index `i` on, where `len` is
      the length captured when `forEach` started: index `i` is visited only if it is still
      below the queue's current length. Gives the queue at the end of the pass. */
  function Pass(log: seq<Action>, q: seq<Entry>, i: nat, len: nat): seq<Entry>
    decreases len - i
  {
    if i >= len then q else Pass(log, Step(log, q, i), i + 1, len)
  }

  /** The waiters whose resolver that pass runs. */
  function Visited(log: seq<Action>, q: seq<Entry>, i: nat, len: nat): set<Waiter>
    decreases len - i
  {
    if i >= len then {}
    else if i < |q| then {q[i].waiter} + Visited(log, Step(log, q, i), i + 1, len)
    else Visited(log, q, i + 1, len)
  }

  /** One index of the pass. */
  lemma PassUnfold(log: seq<Action>, q: seq<Entry>, i: nat, len: nat)
    requires i < len
    ensures Pass(log, q, i, len) == Pass(log, Step(log, q, i), i + 1, len)
    ensures i < |q| ==> Visited(log, q, i, len) == {q[i].waiter} + Visited(log, Step(log, q, i), i + 1, len)
    ensures i >= |q| ==> Visited(log, q, i, len) == Visited(log, q, i + 1, len) && Step(log, q, i) == q
  {
  }

  /** A pass over a queue of one satisfied waiter runs its resolver and empties the queue;
      over a queue of one unsatisfied waiter it runs the resolver and keeps the queue. */
  lemma PassOne(log: seq<Action>, e: Entry)
    ensures Queued([e]) == {e.waiter}
    ensures Visited(log, [e], 0, 1) == {e.waiter}
    ensures Recorded(log, e.waiter.kinds).Some? ==> Pass(log, [e], 0, 1) == []
    ensures Recorded(log, e.waiter.kinds).None? ==> Pass(log, [e], 0, 1) == [e]
  {
    PassUnfold(log, [e], 0, 1);
    SplicedDropsHead([e], e.waiter.id);
    assert [e][0] == e;
  }

  ghost predicate IsSuffix(r: seq<Entry>, q: seq<Entry>)
  {
    |r| <= |q| && r == q[|q| - |r|..]
  }

  /** When no entry has id 0 (ids start at 1), a notification pass only ever drops entries
      from the front of the queue, one per resolver that found its match. */
  lemma {:induction false} PassIsSuffix(log: seq<Action>, q: seq<Entry>, i: nat, len: nat)
    requires forall k :: 0 <= k < |q| ==> q[k].waiter.id != 0
    ensures IsSuffix(Pass(log, q, i, len), q)
    decreases len - i
  {
    if i < len {
      var q' := Step(log, q, i);
      SplicedDropsHead(q, if i < |q| then q[i].waiter.id else 0);
      assert IsSuffix(q', q);
      PassIsSuffix(log, q', i + 1, len);
      var r := Pass(log, q', i + 1, len);
      assert q'[|q'| - |r|..] == q[|q| - |r|..];
    } else {
      assert q[|q| - |q|..] == q;
    }
  }

  /** A pass runs only resolvers of waiters that were queued when it started, and leaves
      only such waiters queued. */
  lemma {:induction false} PassStaysWithin(log: seq<Action>, q: seq<Entry>, i: nat, len: nat)
    ensures Visited(log, q, i, len) <= Queued(q)
    ensures Queued(Pass(log, q, i, len)) <= Queued(q)
    decreases len - i
  {
    if i < len {
      var q' := Step(log, q, i);
      SplicedDropsHead(q, if i < |q| then q[i].waiter.id else 0);
      PassStaysWithin(log, q', i + 1, len);
    }
  }

  /** The outcome of a fresh `waitFor` call when it returns: resolved at once with the
      requested types when the log already matches them, pending otherwise. */
  function Initial(log: seq<Action>, kinds: seq<string>): (o: Outcome)
    ensures o.Pending? <==> Recorded(log, kinds).None?
    ensures o.Resolved? ==> o.value == Kinds(kinds)
    ensures Recorded(log, kinds).Some? ==> o == Resolved(Kinds(kinds))
  {
    if Recorded(log, kinds).Some? then Resolved(Kinds(kinds)) else Pending
  }
}
