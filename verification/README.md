# Timer dashboard: a verified model of the timer collection

The application is a browser timer tracker. Its top-level component, `TimersDashboard`, holds one
ordered list of timer records. Each record has an `id`, a `title`, a `project`, the milliseconds
accumulated by finished runs (`elapsed`) and, while it runs, the clock reading at which the
current run began (`runningSince`, `null` when stopped). Five handlers change that list:

- create appends a freshly built record;
- update rewrites the title and project of the matching records;
- delete filters the matching records out;
- start stamps the current time into `runningSince`;
- stop folds `now - runningSince` into `elapsed` and clears `runningSince`.

This project models that list as `seq<Timer>` and each handler as a total Dafny function. The
clock reading (`Date.now()` in src/app.js) and the freshly built record (the output of the
record factory, `helpers.newTimer`) are explicit parameters.

Files:

- `timers.dfy` (module `Timers`): the `Timer` record with `runningSince: Option<int>`, the
  running and well-formedness predicates, and `StartTime`. `StartTime` is the start time as
  the JavaScript subtraction reads it, where `null` coerces to 0.
- `dashboard.dfy` (module `TimersDashboard`): the seed collection and the five operations.
  Each operation's contract gives its length, order and field-by-field frame facts.
- `properties.dfy` (module `DashboardProperties`): lemmas relating the operations.
  - Create of a record whose id is not yet present, followed by delete of that id, gives back
    the original collection. Without a fresh id it does not: delete also removes the older
    records with that id.
  - Delete is idempotent, commutes, and is the identity on an absent id.
  - A second edit or start overrides the first.
  - Start followed by stop accumulates `t2 - t1`.
  - Stop is monotone.
  - Each operation preserves id uniqueness and well-formedness, under these conditions:
    - create needs a record with a fresh id (for uniqueness) that is well formed (for
      validity);
    - start and stop need a clock reading no earlier than the previous one;
    - update and delete need no condition.
- `machine.dfy` (module `DashboardMachine`): the handlers as a state machine over
  time-stamped user actions. It proves three things: the invariants hold in every state
  reachable from the seed, a step never decreases any record's accumulated time, and a
  create, start, stop scenario with a 2000 ms run ends with 2000 ms accumulated.

Selection by id follows the source's `map` and `filter`: every record whose id matches is
affected, not only the first. The five operations and their contracts do not assume unique ids.
Uniqueness is a separate invariant (`UniqueIds`) that every operation preserves, and create
preserves it only when the new id is fresh. Some lemmas do require it:
- `UniqueCountAtMostOne` and `DeleteUniqueRemovesOne` are about collections with unique ids.
- `StepElapsedGrows` needs unique ids to be true. With duplicate ids, update can pair a record
  with a sibling of the same id whose elapsed is smaller.
- The state-machine lemmas carry uniqueness in their invariant `Inv`.

`MapMatching` is a helper: it is the `map` with an `if (timer.id === …)` test that update, start
and stop share (src/app.js:47-56, 68-74, 82-90). `Step` and `Run` are helpers of the state
machine. `Step` applies the operation behind one `handle*` callback (src/app.js:18-36), and `Run`
applies a sequence of such callbacks.

Three behaviours of the code that a reader might not expect; the model keeps each of them:

- A reader may expect delete to remove one record. The code filters out every record with that
  id, so delete shrinks the collection by the number of matches. With unique ids that is one
  record, as `DeleteUniqueRemovesOne` states.
- Stop does not check that the timer is running. `now - null` is `now` in JavaScript, so stop
  on a stopped timer adds the whole clock reading to `elapsed`. `StartTime` models the
  coercion, and `StopStopped` states the consequence. The model does not turn that case into a
  no-op.
- Start on a running timer overwrites `runningSince`, and the time since the earlier start is
  lost (`StartTwice`).

## Model

| member | source | states |
|---|---|---|
| TimersDashboard.Seed | src/app.js:6-16 | the initial collection holds exactly one record, with the given id, nothing accumulated and not running; it is valid at every non-negative clock reading and its ids are unique |
| TimersDashboard.MapMatching | src/app.js:47-56 | rewriting by id keeps the length; each record whose id matches becomes f applied to it, and every other record stays as it was at its position; update, start and stop are this `map` with different callbacks |
| TimersDashboard.Create | src/app.js:38-43 | create grows the collection by exactly one record, placed last; every earlier record keeps its position; the id set gains exactly the new record's id |
| TimersDashboard.Update | src/app.js:45-58 | update keeps length and order; each record with the matching id gets the new title and project and keeps id, elapsed and runningSince; every other record is unchanged |
| TimersDashboard.Delete | src/app.js:60-64 | delete shrinks the collection by the number of matching records; a record survives exactly when it was present and its id differs; the id is absent afterwards; the survivors keep their relative order |
| TimersDashboard.Start | src/app.js:66-76 | start keeps length and order; each matching record gets runningSince = now and keeps id, title, project and elapsed; every other record is unchanged |
| TimersDashboard.Stop | src/app.js:78-92 | stop keeps length and order; each matching record is stopped, and its elapsed grows by now minus its start time, with a missing start time read as 0; id, title and project are kept; every other record is unchanged |
| DashboardProperties.CreateKeepsUnique | src/app.js:38-43 | appending a record whose id is not yet present keeps all ids distinct |
| DashboardProperties.CreateKeepsValid | src/app.js:38-43 | appending a well-formed record to a valid collection gives a valid collection |
| DashboardProperties.CreateThenDelete | src/app.js:38-64 | deleting the id of a record just created with a fresh id gives back the original collection |
| DashboardProperties.UpdateKeepsInvariants | src/app.js:45-58 | update leaves every id in place, so it preserves id uniqueness and validity |
| DashboardProperties.UpdateTwice | src/app.js:45-58 | two edits of the same id equal the second edit alone |
| DashboardProperties.DeleteAbsent | src/app.js:60-64 | deleting an id that no record carries returns the collection unchanged |
| DashboardProperties.DeleteIdempotent | src/app.js:60-64 | deleting an id twice equals deleting it once |
| DashboardProperties.DeleteConcat | src/app.js:60-64 | deleting from a concatenation deletes from each part separately |
| DashboardProperties.DeleteCommutes | src/app.js:60-64 | deleting two ids gives the same collection in either order |
| DashboardProperties.DeleteKeepsUnique | src/app.js:60-64 | delete preserves id uniqueness |
| DashboardProperties.UniqueCountAtMostOne | src/app.js:60-64 | in a collection with unique ids, at most one record matches any id |
| DashboardProperties.DeleteUniqueRemovesOne | src/app.js:60-64 | with unique ids, deleting a present id removes exactly one record |
| DashboardProperties.DeleteKeepsValid | src/app.js:60-64 | delete preserves validity |
| DashboardProperties.StartTwice | src/app.js:66-76 | starting the same id twice equals starting it once at the later time; the earlier start is forgotten |
| DashboardProperties.StartKeepsInvariants | src/app.js:66-76 | start at a clock reading no earlier than the last keeps ids in place and unique, keeps the collection valid, and leaves the matching records running |
| DashboardProperties.StopRunning | src/app.js:78-92 | stopping a record that runs since t at clock now adds now - t to its elapsed and leaves it stopped |
| DashboardProperties.StopStopped | src/app.js:84-86 | stopping an already stopped record adds the whole clock reading now to its elapsed, because the null start time counts as 0 |
| DashboardProperties.StopMonotone | src/app.js:84-86 | on a valid collection, stop never decreases any record's elapsed |
| DashboardProperties.StopKeepsInvariants | src/app.js:78-92 | stop at a clock reading no earlier than the last keeps ids in place and unique and keeps the collection valid |
| DashboardProperties.StartThenStop | src/app.js:66-92 | start at t1 then stop at t2 adds t2 - t1 to the elapsed of every matching record and leaves it stopped with title, project and id kept; other records are untouched |
| DashboardMachine.StepKeepsInv | src/app.js:18-92 | every handler, applied at a clock reading no earlier than the last, keeps ids unique and the collection valid; a created record must have a fresh id and the new-record shape |
| DashboardMachine.StepElapsedGrows | src/app.js:18-92 | on a collection with unique ids that is valid at the last clock reading, no handler applied at a later reading decreases the accumulated time of a record that is present under the same id before and after it |
| DashboardMachine.RunKeepsInv | src/app.js:18-92 | every admissible sequence of handler calls keeps ids unique and the collection valid at the final clock reading |
| DashboardMachine.ReachableInv | src/app.js:6-92 | every collection reachable from the seed by admissible handler calls has unique ids and is valid |
| DashboardMachine.CreateStartStopScenario | src/app.js:38-92 | after the seed, creating a timer, starting it at t0 and stopping it at t0 + 2000 leaves it stopped with 2000 ms accumulated, and the seed record is untouched |

## Left out

- Persistence through `localStorage` with `JSON.stringify`/`JSON.parse` (src/app.js:94-103) is
  browser I/O and library serialisation. No save/load round trip is modelled.
- `uuid()` is a foreign library. Ids are opaque strings passed in. The fresh-id assumption for
  created records is stated as a condition on the environment (`DashboardMachine.Enabled`).
  The source never checks it.
- `Date.now()` becomes the explicit clock parameter `now`. The model assumes that the clock
  never goes back and that readings are non-negative.
- The `helpers` module (`newTimer` and the elapsed-time formatter) is not part of this model.
  Create receives the built record. `IsNew` states the shape the record factory gives it: zero
  elapsed and not running, like the seed record at src/app.js:6-16.
- All React view components, form toggles and the 100 ms re-render interval
  (src/app.js:123-374) are presentation only.
- `setState` batching and the persistence callbacks after each mutation are framework
  behaviour.
- TimersDashboard.Start: `startTimer` calls `Date.now()` inside the `map` callback, so it reads
  the clock once per matching record (src/app.js:68-70). With duplicate ids, the matches could
  get different, non-decreasing readings. The model stamps one reading `now` on every match.
  Under `UniqueIds` at most one record matches (`DashboardProperties.UniqueCountAtMostOne`), so
  the two agree there. `stopTimer` reads the clock once before its `map` (src/app.js:79), as the
  model does.
- JavaScript numbers are IEEE doubles. The model uses unbounded integers, so precision loss
  beyond 2^53 ms is not modelled.
- DashboardMachine.StepElapsedGrows proves the "elapsed never decreases" invariant one step at
  a time, not over a whole run. Over a run, an id can be deleted and later created again.
