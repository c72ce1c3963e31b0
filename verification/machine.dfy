/** The dashboard as a state machine: user actions, each stamped with the
clock reading at which it happens, drive the collection from the seed
state. The id uniqueness and well-formedness invariants hold in every
reachable state, provided the clock never goes back and every created
record has a new id and the factory's shape. */
module DashboardMachine {
  import opened Timers
  import opened TimersDashboard
  import opened DashboardProperties

  datatype Action =
    | CreateTimer(timer: Timer)
    | UpdateTimer(id: Id, title: string, project: string)
    | DeleteTimer(id: Id)
    | StartTimer(id: Id)
    | StopTimer(id: Id)

  /** An action together with the clock reading at which it happens. */
  datatype Event = Event(at: int, action: Action)

  /** The collection after one event. */
  function Step(ts: seq<Timer>, e: Event): seq<Timer> {
    match e.action
    case CreateTimer(t) => Create(ts, t)
    case UpdateTimer(id, title, project) => Update(ts, id, title, project)
    case DeleteTimer(id) => Delete(ts, id)
    case StartTimer(id) => Start(ts, id, e.at)
    case StopTimer(id) => Stop(ts, id, e.at)
  }

  /** The collection after a sequence of events, in order. */
  function Run(ts: seq<Timer>, events: seq<Event>): seq<Timer>
    decreases |events|
  {
    if events == [] then ts else Run(Step(ts, events[0]), events[1..])
  }

  /** The clock reading after a sequence of events that starts at `now`. */
  function Clock(now: int, events: seq<Event>): int {
    if events == [] then now else events[|events| - 1].at
  }

  /** What the environment guarantees of one event: the clock has not gone
      back, and a created record has a new id and the factory's shape. */
  predicate Enabled(ts: seq<Timer>, now: int, e: Event) {
    && now <= e.at
    && (e.action.CreateTimer? ==> IsNew(e.action.timer) && e.action.timer.id !in Ids(ts))
  }

  /** Every event of the sequence is enabled in the state it meets. */
  predicate Admissible(ts: seq<Timer>, now: int, events: seq<Event>)
    decreases |events|
  {
    events == [] ||
    (Enabled(ts, now, events[0]) && Admissible(Step(ts, events[0]), events[0].at, events[1..]))
  }

  /** The invariant of the collection at clock reading `now`. */
  predicate Inv(ts: seq<Timer>, now: int) {
    UniqueIds(ts) && Valid(ts, now)
  }

  /** One enabled event keeps the invariant, at the event's clock reading. */
  lemma StepKeepsInv(ts: seq<Timer>, now: int, e: Event)
    requires Inv(ts, now) && Enabled(ts, now, e)
    ensures Inv(Step(ts, e), e.at)
  {
    ClockAdvanceKeepsValid(ts, now, e.at);
    match e.action
    case CreateTimer(t) =>
      CreateKeepsUnique(ts, t);
      CreateKeepsValid(ts, t, e.at);
    case UpdateTimer(id, title, project) =>
      UpdateKeepsInvariants(ts, id, title, project, e.at);
    case DeleteTimer(id) =>
      DeleteKeepsUnique(ts, id);
      DeleteKeepsValid(ts, id, e.at);
    case StartTimer(id) =>
      StartKeepsInvariants(ts, id, now, e.at);
    case StopTimer(id) =>
      StopKeepsInvariants(ts, id, now, e.at);
  }

  /** One enabled event never decreases the accumulated time of a record
      that is present, under the same id, before and after it. */
  lemma StepElapsedGrows(ts: seq<Timer>, now: int, e: Event)
    requires Inv(ts, now) && Enabled(ts, now, e)
    ensures ElapsedGrows(ts, Step(ts, e))
  {
    var r := Step(ts, e);
    match e.action
    case CreateTimer(t) =>
      forall i | 0 <= i < |ts|
        ensures ts[i].id != t.id && r[i] == ts[i]
      {
        assert ts[i] in ts;
        assert r[i] == r[..|ts|][i];
      }
    case UpdateTimer(id, title, project) =>
    case DeleteTimer(id) =>
      forall i, j | 0 <= i < |ts| && 0 <= j < |r| && ts[i].id == r[j].id
        ensures ts[i].elapsed <= r[j].elapsed
      {
        assert r[j] in ts;
        var k :| 0 <= k < |ts| && ts[k] == r[j];
        assert k == i;
      }
    case StartTimer(id) =>
    case StopTimer(id) =>
      ClockAdvanceKeepsValid(ts, now, e.at);
      StopMonotone(ts, id, e.at);
  }

  /** Every admissible run keeps the invariant. */
  lemma {:induction false} RunKeepsInv(ts: seq<Timer>, now: int, events: seq<Event>)
    requires Inv(ts, now) && Admissible(ts, now, events)
    ensures Inv(Run(ts, events), Clock(now, events))
    decreases |events|
  {
    if events != [] {
      StepKeepsInv(ts, now, events[0]);
      RunKeepsInv(Step(ts, events[0]), events[0].at, events[1..]);
      if |events| > 1 {
        assert events[1..][|events[1..]| - 1] == events[|events| - 1];
      }
    }
  }

  /** Every state reachable from the seed by an admissible run satisfies the
      invariant. */
  lemma ReachableInv(id: Id, now: int, events: seq<Event>)
    requires 0 <= now && Admissible(Seed(id), now, events)
    ensures Inv(Run(Seed(id), events), Clock(now, events))
  {
    RunKeepsInv(Seed(id), now, events);
  }

  /** Create a timer, start it, stop it 2000 ms later: it holds 2000 ms and
      is stopped, and the seed record is untouched. */
  lemma CreateStartStopScenario(seedId: Id, newId: Id, t0: int)
    requires seedId != newId
    ensures
      var learn := Timer(newId, "Learn", "Web", 0, None);
      var events := [Event(t0, CreateTimer(learn)), Event(t0, StartTimer(newId)),
                     Event(t0 + 2000, StopTimer(newId))];
      var r := Run(Seed(seedId), events);
      && |r| == 2
      && r[0] == Seed(seedId)[0]
      && r[1] == Timer(newId, "Learn", "Web", 2000, None)
  {
    var learn := Timer(newId, "Learn", "Web", 0, None);
    var s0 := Seed(seedId);
    var s1 := Create(s0, learn);
    var s2 := Start(s1, newId, t0);
    var s3 := Stop(s2, newId, t0 + 2000);
    var events := [Event(t0, CreateTimer(learn)), Event(t0, StartTimer(newId)),
                   Event(t0 + 2000, StopTimer(newId))];
    assert Run(s0, events) == Run(s1, events[1..]);
    assert Run(s1, events[1..]) == Run(s2, events[2..]);
    assert Run(s2, events[2..]) == Run(s3, []);
  }
}
