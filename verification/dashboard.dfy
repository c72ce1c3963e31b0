/** The timer collection of the dashboard and the five operations on it.

The collection is an ordered sequence of records. Every operation is a
total function from the old collection to the new one; the clock reading
and the freshly built record are parameters. Operations that select by id
act on EVERY record whose id matches, as a `map` or `filter` over the
whole collection does; ids are not assumed to be unique.
 */
module TimersDashboard {
  import opened Timers

  /** The ids present in a collection. */
  function Ids(ts: seq<Timer>): set<Id> {
    set t | t in ts :: t.id
  }

  /** No two records of the collection share an id. */
  predicate UniqueIds(ts: seq<Timer>) {
    forall i, j :: 0 <= i < j < |ts| ==> ts[i].id != ts[j].id
  }

  /** Every record is well formed at clock reading `now`, which is itself a
      non-negative millisecond timestamp. */
  predicate Valid(ts: seq<Timer>, now: int) {
    && 0 <= now
    && forall i :: 0 <= i < |ts| ==> WellFormed(ts[i], now)
  }

  /** The number of records whose id is `id`. */
  function Count(ts: seq<Timer>, id: Id): (n: nat)
    ensures n <= |ts|
    ensures n == 0 <==> id !in Ids(ts)
  {
    if ts == [] then 0
    else (if ts[0].id == id then 1 else 0) + Count(ts[1..], id)
  }

  /** `a` is `b` with some elements removed, the rest in their order. */
  predicate Subsequence<T(==)>(a: seq<T>, b: seq<T>)
    decreases |b|
  {
    if a == [] then true
    else if b == [] then false
    else if a[0] == b[0] then Subsequence(a[1..], b[1..]) else Subsequence(a, b[1..])
  }

  /** The initial collection: one template record, stopped, with nothing
      accumulated. Its id comes from the id generator. */
  function Seed(id: Id): (ts: seq<Timer>)
    ensures |ts| == 1
    ensures ts[0].id == id && IsNew(ts[0])
    ensures forall now :: 0 <= now ==> Valid(ts, now)
    ensures UniqueIds(ts)
  {
    [Timer(id, "timer template", "template project", 0, None)]
  }

  /** Rewrites with `f` every record whose id is `id` and leaves the other
      records as they are, position by position. */
  function MapMatching(ts: seq<Timer>, id: Id, f: Timer -> Timer): (r: seq<Timer>)
    ensures |r| == |ts|
    ensures forall i :: 0 <= i < |ts| && ts[i].id != id ==> r[i] == ts[i]
    ensures forall i :: 0 <= i < |ts| && ts[i].id == id ==> r[i] == f(ts[i])
  {
    if ts == [] then []
    else [if ts[0].id == id then f(ts[0]) else ts[0]] + MapMatching(ts[1..], id, f)
  }

  /** Appends the freshly built record `t` at the end. */
  function Create(ts: seq<Timer>, t: Timer): (r: seq<Timer>)
    ensures |r| == |ts| + 1
    ensures r[..|ts|] == ts
    ensures r[|ts|] == t
    ensures Ids(r) == Ids(ts) + {t.id}
  {
    var r := ts + [t];
    assert r[..|ts|] == ts;
    assert forall x :: x in r <==> x in ts || x == t;
    r
  }

  /** Gives every record whose id is `id` the new title and project. */
  function Update(ts: seq<Timer>, id: Id, title: string, project: string): (r: seq<Timer>)
    ensures |r| == |ts|
    ensures forall i :: 0 <= i < |ts| ==>
      && r[i].id == ts[i].id
      && r[i].elapsed == ts[i].elapsed
      && r[i].runningSince == ts[i].runningSince
    ensures forall i :: 0 <= i < |ts| && ts[i].id == id ==>
      r[i].title == title && r[i].project == project
    ensures forall i :: 0 <= i < |ts| && ts[i].id != id ==> r[i] == ts[i]
  {
    MapMatching(ts, id, (t: Timer) => t.(title := title, project := project))
  }

  /** Removes every record whose id is `id`. */
  function Delete(ts: seq<Timer>, id: Id): (r: seq<Timer>)
    ensures |r| == |ts| - Count(ts, id)
    ensures forall t :: t in r <==> t in ts && t.id != id
    ensures id !in Ids(r)
    ensures Subsequence(r, ts)
  {
    if ts == [] then []
    else if ts[0].id != id then
      var rest := Delete(ts[1..], id);
      assert ([ts[0]] + rest)[1..] == rest;
      [ts[0]] + rest
    else
      Delete(ts[1..], id)
  }

  /** Stamps `now` as the start time of every record whose id is `id`. A
      running record simply gets the new start time. */
  function Start(ts: seq<Timer>, id: Id, now: int): (r: seq<Timer>)
    ensures |r| == |ts|
    ensures forall i :: 0 <= i < |ts| && ts[i].id == id ==>
      && r[i].runningSince == Some(now)
      && r[i].id == ts[i].id
      && r[i].title == ts[i].title
      && r[i].project == ts[i].project
      && r[i].elapsed == ts[i].elapsed
    ensures forall i :: 0 <= i < |ts| && ts[i].id != id ==> r[i] == ts[i]
  {
    MapMatching(ts, id, (t: Timer) => t.(runningSince := Some(now)))
  }

  /** Folds the current run into the accumulated time of every record whose
      id is `id` and clears its start time. The run is `now` minus the start
      time, where a missing start time counts as 0. */
  function Stop(ts: seq<Timer>, id: Id, now: int): (r: seq<Timer>)
    ensures |r| == |ts|
    ensures forall i :: 0 <= i < |ts| && ts[i].id == id ==>
      && r[i].runningSince == None
      && r[i].elapsed - ts[i].elapsed == now - StartTime(ts[i])
      && r[i].id == ts[i].id
      && r[i].title == ts[i].title
      && r[i].project == ts[i].project
    ensures forall i :: 0 <= i < |ts| && ts[i].id != id ==> r[i] == ts[i]
  {
    MapMatching(ts, id, (t: Timer) => t.(elapsed := t.elapsed + (now - StartTime(t)), runningSince := None))
  }
}
