# redux-waitfor-middleware, modelled in Dafny

`createWaitForMiddleware` builds a Redux middleware for tests. It records every
dispatched action. It also lets a test wait, with a timeout, until actions of some
given types have been dispatched. The function closes over three pieces of mutable
state: the action log `records`, the queue of pending waiters `waitedQueue`, and the
call counter `emittedPromises`. This project models that state and every operation
on it, following the code as written.

- `matching.dfy`, module `Matching`: the matcher `findRecorded`. `FirstIndex` stands for
  `records.find`. `Collected` is the `matches` array built by the `forEach`, and
  `AllFound` is the `every` check. `Recorded` is the whole function, with `None` for
  `null`. `Earliest` is an independent reference definition, and the lemmas prove that
  the two agree.
- `waiters.dfy`, module `Waiters`: the promise returned by each `waitFor` call is a
  `Waiter`. It holds a settle-once outcome cell (`Pending`, `Resolved`, `Rejected`) and
  the constants its closures capture. Queue elements are `Entry(id, waiter)`. `Spliced`
  is `removeResolver` as written. `Pass` and `Visited` describe one `forEach`
  notification pass over the live queue.
- `tracker.dfy`, module `WaitForMiddleware`: class `Tracker` with the fields `records`,
  `queue` and `counter`. Its methods are the dispatch hook, `clean`, `waitFor`, the
  per-waiter resolver and `removeResolver`. Each method states its new state in terms
  of the functions above. `Valid` is the queue invariant that the methods preserve:
  entry ids equal their waiters' ids, every id lies in 1..counter, and ids increase
  along the queue. A few usage scenarios are stated as methods that use these contracts.
- `findings.dfy`, module `Findings`: three places where the code differs from its own
  comments. Each is shown on a concrete input and paired with a corrected
  definition whose intended property is proved.

The model follows the code, including where the code differs from its comments or does
something a user might not expect:
- Notification walks the live queue, so a resolver may be skipped. The comment on line 14
  says the resolvers are called each time an action is dispatched.
- The fast path resolves with the requested type strings. The comment on lines 86-88 says
  `waitFor` resolves with the actions received, including payloads.
- Expiry rejects the promise but leaves its entry in the queue.
- `clean` empties the queue, but timers armed before it still reject their waiters.

## Model

| member | source | states |
|---|---|---|
| `Matching.Matches` | src/index.js:44 | the `find` predicate: the record's type is truthy (present and not the empty string) and `===` the requested type |
| `Matching.Recorded` | src/index.js:38-54 | `findRecorded` against a log: the `forEach` accumulation `Collected`, then the `every` check `AllFound`, with `None` for `null`; its meaning is proved by the lemmas below |
| `Matching.FirstIndex` | src/index.js:43-45 | the record `records.find` picks: an index whose record's type is non-empty and equal to the requested one, with no such record before it; none exactly when no record matches |
| `Matching.CollectedWhenAllSeen` | src/index.js:42-47 | when every requested type is found, `matches` holds one record per requested type, the i-th being the earliest record of type `kinds[i]` |
| `Matching.CollectedFromLog` | src/index.js:42-47 | everything pushed to `matches` is a recorded action whose type is a non-empty string |
| `Matching.RecordedIsEarliest` | src/index.js:38-54 | `findRecorded` equals the reference definition: null unless every requested type occurs in the log, else the earliest record of each requested type in request order |
| `Matching.RecordedSomeIff` | src/index.js:42-53 | `findRecorded(kinds)` is non-null exactly when every requested type has a record with that same non-empty type; `findRecorded([])` is the empty array |
| `Matching.RecordedAt` | src/index.js:42-51 | a non-null result has length `\|kinds\|` and its i-th entry is the earliest record whose type is `kinds[i]` |
| `Matching.RecordedOne` | src/index.js:43-51 | a request for one type yields exactly that type's earliest record |
| `Matching.RecordedRepeats` | src/index.js:42-47 | a type requested twice yields the same record twice |
| `Matching.FirstIndexStable` | src/index.js:43-45 | appending records does not move an existing earliest match |
| `Matching.RecordedStable` | src/index.js:42-53 | once `findRecorded(kinds)` is non-null, dispatching more actions keeps it non-null with the same result |
| `Matching.EmptyLogMatchesNothing` | src/index.js:73-76 | after `clean` empties the log, `findRecorded` returns null for every non-empty request |
| `Waiters.Settle` | src/index.js:102-115 | a promise's `resolve`/`reject`: takes effect only on a pending promise |
| `Waiters.Notified` | src/index.js:111-116 | what a resolver does to its promise: a settled promise is unchanged, and the promise stays pending exactly when it was pending and `findRecorded` gives null |
| `Waiters.Waiter.constructor` | src/index.js:94-110 | a new promise is pending and carries the call's id, requested types and timeout |
| `Waiters.SettledOnce` | src/index.js:102-115 | a settled promise stays settled and ignores later resolve and reject calls; re-running a resolver on the same log changes nothing |
| `Waiters.Waiter.Resolve` | src/index.js:115 | `resolve` settles a pending promise with the value and leaves a settled one unchanged |
| `Waiters.Waiter.Expire` | src/index.js:105-107 | the timer rejects a still-pending promise with its requested types and does nothing to a settled one; it does not touch the queue |
| `Waiters.SpliceOne` | src/index.js:29-31 | `splice(start, 1)` removes the element at `start`; a negative start removes the element at `\|s\| + start`, or the first element when that is below 0; a start at or past the end removes nothing |
| `Waiters.Spliced` | src/index.js:28-32 | `removeResolver(id)` as written: for a non-zero id the head entry goes; for id 0 every id is overwritten and the last entry goes; an empty queue stays empty |
| `Waiters.ProbedThenSpliced` | src/index.js:29-31 | the `findIndex` with the assigning predicate stops at index 0 for a non-zero id; for id 0 it probes every entry, yields -1, and the splice drops the last entry |
| `Waiters.SplicedDropsHead` | src/index.js:28-32 | `removeResolver` on a non-empty queue removes exactly one entry, and for any non-zero id that entry is the head, whichever waiter asked |
| `Waiters.Pass` | src/index.js:64-66 | the queue after the dispatch hook's `forEach`: the length is captured at the start, and an index runs its entry's resolver only while it is below the current length |
| `Waiters.Visited` | src/index.js:64-66 | the waiters whose resolvers that `forEach` runs |
| `Waiters.PassOne` | src/index.js:64-66 | a pass over one queued waiter runs its resolver; the queue empties exactly when that waiter's types are all recorded |
| `Waiters.PassIsSuffix` | src/index.js:64-66 | with non-zero ids, a notification pass only drops entries from the front of the queue |
| `Waiters.PassStaysWithin` | src/index.js:64-66 | a pass runs only resolvers of waiters queued when it started, and leaves only such waiters queued |
| `Waiters.Initial` | src/index.js:98-102 | a fresh `waitFor` is pending exactly when the log does not yet match; when it matches, the promise is resolved with the requested types |
| `WaitForMiddleware.Tracker.constructor` | src/index.js:11-22 | a new middleware starts with an empty log, an empty queue and a zero counter |
| `WaitForMiddleware.Tracker.FindRecorded` | src/index.js:38-54 | the `forEach`/`every` loop returns `Recorded(records, kinds)` and changes no state |
| `WaitForMiddleware.Tracker.RemoveResolver` | src/index.js:28-32 | the queue becomes `Spliced(old queue, id)`; the log and counter are unchanged |
| `WaitForMiddleware.Tracker.RunResolver` | src/index.js:111-117 | when the waiter's types are all recorded, the queue loses the entry `removeResolver` picks and the promise is resolved with `findRecorded`'s result; otherwise nothing changes |
| `WaitForMiddleware.Tracker.Notify` | src/index.js:64-66 | the queue becomes `Pass` of the old queue; every visited waiter is notified, and no other waiter changes |
| `WaitForMiddleware.Tracker.Dispatch` | src/index.js:59-68 | the action is appended with the earlier records unchanged; the queue is a suffix of the old one; visited waiters are notified; the queue invariant holds; the result is `next(action)` |
| `WaitForMiddleware.Tracker.Clean` | src/index.js:73-76 | log and queue become empty; the counter is unchanged |
| `WaitForMiddleware.Tracker.WaitFor` | src/index.js:94-126 | the counter grows by one; the new waiter carries the new counter as id; if the log already matches it is resolved with the requested types and the queue is unchanged, otherwise it is pending and appended as the last entry |
| `Findings.RemoveResolverDropsPendingWaiter` | src/index.js:28-32 | as written, dispatching "X" with a "Y"-waiter queued ahead of an "X"-waiter visits both waiters, resolves the "X"-waiter, and removes the pending "Y"-waiter while the resolved one stays queued; removal by id keeps the "Y"-waiter |
| `Findings.RemovedFirst` | src/index.js:24-32 | removal by id, as documented, takes out exactly the first entry with that id, at any position, and keeps the rest in order |
| `Findings.RemovedAbsent` | src/index.js:24-32 | removal by id leaves a queue without that id unchanged |
| `Findings.DispatchSkipsShiftedWaiter` | src/index.js:64-66 | as written, with two waiters for "X", dispatching "X" never visits the second although it is satisfied |
| `Findings.SnapshotPassKeepsUnsatisfied` | src/index.js:64-66 | a pass over a snapshot with removal by id removes every satisfied waiter and leaves exactly the unsatisfied ones, in order |
| `Findings.FastPathResolvesWithTypes` | src/index.js:101-102 | as written, `waitFor(["X"])` with an "X" action already recorded resolves with `["X"]`, not with the recorded action |
| `Findings.IntendedFastPathAgrees` | src/index.js:85-102 | the documented fast path settles under the same condition as the code and delivers what a resolver would: for each requested type, the earliest record of that type |

## Left out

- Time: `setTimeout` is not modelled. The timer firing is the explicit event `Waiter.Expire`, and `timeout` is stored (default 2000) but never counts down.
- Promises, `async` and microtask ordering: each promise is a settle-once outcome cell, and `waitFor` returns its `Waiter`. When continuations run is not modelled.
- The `verbose` flag and its `console.log` lines are output only.
- Redux's `next` is a total function parameter whose result `Dispatch` returns unchanged.
- `getRecordedActions` returns `this.records` from an arrow function, not the closed-over log. It is not modelled.
- The timeout error's message text is not modelled. `Rejected` carries the requested types instead.
- Actions are values: `payload` stands for every property but `type`. Object identity, and mutation of a recorded action by its dispatcher, are not modelled.
- A `type` that is present but not a string is modelled as `None`. Such a type is never `===` to a requested string, so it never matches.
- Ids are unbounded naturals. JavaScript's 2^53 limit on exact integers is not modelled.
- A fast-path `Waiter` also carries an id, equal to the counter value. In the code, only the slow path's closure holds an id.
- lib/index.js is the compiled copy of src/index.js and is not modelled separately.

## Findings

| source | as written | input that shows it | evidently intended | confidence | as-written member | corrected member |
|---|---|---|---|---|---|---|
| src/index.js:29-31 | the `findIndex` predicate is the assignment `resolver.id = id`, which is truthy at the first entry, so the head of the queue is always removed | waiter 1 waits for "Y" and waiter 2 for "X"; an "X" is dispatched | remove the entry whose id is `id` (`===`); waiter 1 stays queued and can still be resolved | high; not executed | `Findings.RemoveResolverDropsPendingWaiter` | `Findings.RemovedFirst` |
| src/index.js:64-66 | `forEach` walks the live queue while resolvers splice it, so the entry shifted into a visited index is skipped | waiters 1 and 2 both wait for "X"; an "X" is dispatched | every waiter pending at dispatch is notified (a snapshot pass) | medium; not executed | `Findings.DispatchSkipsShiftedWaiter` | `Findings.SnapshotPassKeepsUnsatisfied` |
| src/index.js:101-102 | the fast path calls `resolve(actions)`, the requested type strings | an "X" action with a payload is recorded, then `waitFor(["X"])` is called | resolve with the recorded actions, including payloads, as the comment on lines 86-88 says | medium; not executed | `Findings.FastPathResolvesWithTypes` | `Findings.IntendedFastPathAgrees` |

`Tracker` keeps the code's behaviour for all three findings, because the class models
the code as written. The corrected definitions (`Removed`, `SnapshotPass`,
`IntendedInitial`) sit beside it in `findings.dfy`, with their intended properties
proved there.
