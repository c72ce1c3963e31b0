/** Properties of the dashboard operations: frame conditions, inverses,
idempotence, the accumulation rule of start and stop, and the invariants
each operation preserves. */
module DashboardProperties {
  import opened Timers
  import opened TimersDashboard

  /** Two collections hold the same ids at the same positions. */
  predicate SameIds(a: seq<Timer>, b: seq<Timer>) {
    |a| == |b| && forall i :: 0 <= i < |a| ==> a[i].id == b[i].id
  }

  /** For every id present before and after, the record after has
      accumulated at least as much time as the record before. */
  predicate ElapsedGrows(before: seq<Timer>, after: seq<Timer>) {
    forall i, j :: 0 <= i < |before| && 0 <= j < |after| && before[i].id == after[j].id ==>
      before[i].elapsed <= after[j].elapsed
  }

  lemma SameIdsKeepUnique(a: seq<Timer>, b: seq<Timer>)
    requires SameIds(a, b)
    ensures UniqueIds(a) <==> UniqueIds(b)
  {
  }

  /** A later clock reading keeps a valid collection valid. */
  lemma ClockAdvanceKeepsValid(ts: seq<Timer>, now: int, later: int)
    requires Valid(ts, now) && now <= later
    ensures Valid(ts, later)
  {
  }

  // ---------------------------------------------------------------- create

  /** Appending a record whose id is new keeps ids unique. */
  lemma CreateKeepsUnique(ts: seq<Timer>, t: Timer)
    requires UniqueIds(ts) && t.id !in Ids(ts)
    ensures UniqueIds(Create(ts, t))
  {
    var r := Create(ts, t);
    forall i, j | 0 <= i < j < |r|
      ensures r[i].id != r[j].id
    {
      assert r[i] == ts[i] && ts[i] in ts;
      if j == |ts| {
        assert ts[i].id in Ids(ts);
      }
    }
  }

  /** Appending a well-formed record keeps the collection valid. */
  lemma CreateKeepsValid(ts: seq<Timer>, t: Timer, now: int)
    requires Valid(ts, now) && WellFormed(t, now)
    ensures Valid(Create(ts, t), now)
  {
    var r := Create(ts, t);
    forall i | 0 <= i < |r|
      ensures WellFormed(r[i], now)
    {
      if i < |ts| {
        assert r[i] == r[..|ts|][i];
      }
    }
  }

  /** Deleting the id of a record just created with a new id undoes the
      creation. */
  lemma CreateThenDelete(ts: seq<Timer>, t: Timer)
    requires t.id !in Ids(ts)
    ensures Delete(Create(ts, t), t.id) == ts
  {
    assert Create(ts, t) == ts + [t];
    DeleteConcat(ts, [t], t.id);
    DeleteAbsent(ts, t.id);
    assert Delete([t], t.id) == [];
  }

  // ---------------------------------------------------------------- update

  /** Editing keeps every id in place, so it keeps ids unique and keeps the
      collection valid. */
  lemma UpdateKeepsInvariants(ts: seq<Timer>, id: Id, title: string, project: string, now: int)
    ensures SameIds(ts, Update(ts, id, title, project))
    ensures UniqueIds(ts) ==> UniqueIds(Update(ts, id, title, project))
    ensures Valid(ts, now) ==> Valid(Update(ts, id, title, project), now)
  {
    var r := Update(ts, id, title, project);
    SameIdsKeepUnique(ts, r);
    if Valid(ts, now) {
      forall i | 0 <= i < |r|
        ensures WellFormed(r[i], now)
      {
        assert WellFormed(ts[i], now);
      }
    }
  }

  /** A second edit of the same id overrides the first. */
  lemma UpdateTwice(ts: seq<Timer>, id: Id, t1: string, p1: string, t2: string, p2: string)
    ensures Update(Update(ts, id, t1, p1), id, t2, p2) == Update(ts, id, t2, p2)
  {
    var a := Update(Update(ts, id, t1, p1), id, t2, p2);
    var b := Update(ts, id, t2, p2);
    assert |a| == |b|;
    forall i | 0 <= i < |a|
      ensures a[i] == b[i]
    {
    }
  }

  // ---------------------------------------------------------------- delete

  /** Deleting an id that is absent changes nothing. */
  lemma {:induction false} DeleteAbsent(ts: seq<Timer>, id: Id)
    requires id !in Ids(ts)
    ensures Delete(ts, id) == ts
  {
    if ts != [] {
      assert ts[0] in ts;
      assert Ids(ts[1..]) <= Ids(ts) by {
        forall x | x in Ids(ts[1..])
          ensures x in Ids(ts)
        {
          var t :| t in ts[1..] && t.id == x;
          assert t in ts;
        }
      }
      DeleteAbsent(ts[1..], id);
      assert ts == [ts[0]] + ts[1..];
    }
  }

  /** Deleting twice is deleting once. */
  lemma DeleteIdempotent(ts: seq<Timer>, id: Id)
    ensures Delete(Delete(ts, id), id) == Delete(ts, id)
  {
    DeleteAbsent(Delete(ts, id), id);
  }

  /** Deleting from a concatenation deletes from each part. */
  lemma {:induction false} DeleteConcat(a: seq<Timer>, b: seq<Timer>, id: Id)
    ensures Delete(a + b, id) == Delete(a, id) + Delete(b, id)
  {
    if a == [] {
      assert a + b == b;
    } else {
      assert (a + b)[0] == a[0];
      assert (a + b)[1..] == a[1..] + b;
      DeleteConcat(a[1..], b, id);
    }
  }

  /** Deletions of two ids commute. */
  lemma {:induction false} DeleteCommutes(ts: seq<Timer>, x: Id, y: Id)
    ensures Delete(Delete(ts, x), y) == Delete(Delete(ts, y), x)
  {
    if ts != [] {
      var h := [ts[0]];
      assert ts == h + ts[1..];
      DeleteConcat(h, ts[1..], x);
      DeleteConcat(h, ts[1..], y);
      DeleteConcat(Delete(h, x), Delete(ts[1..], x), y);
      DeleteConcat(Delete(h, y), Delete(ts[1..], y), x);
      DeleteCommutes(ts[1..], x, y);
    }
  }

  /** Deleting keeps ids unique. */
  lemma {:induction false} DeleteKeepsUnique(ts: seq<Timer>, id: Id)
    requires UniqueIds(ts)
    ensures UniqueIds(Delete(ts, id))
  {
    if ts != [] {
      var rest := Delete(ts[1..], id);
      DeleteKeepsUnique(ts[1..], id);
      if ts[0].id != id {
        var r := [ts[0]] + rest;
        assert r == Delete(ts, id);
        forall i, j | 0 <= i < j < |r|
          ensures r[i].id != r[j].id
        {
          if i == 0 {
            assert r[j] == rest[j - 1] && r[j] in ts[1..];
            var k :| 0 <= k < |ts[1..]| && ts[1..][k] == r[j];
            assert ts[k + 1] == r[j];
          } else {
            assert r[i] == rest[i - 1] && r[j] == rest[j - 1];
          }
        }
      }
    }
  }

  /** With unique ids, at most one record carries a given id. */
  lemma {:induction false} UniqueCountAtMostOne(ts: seq<Timer>, id: Id)
    requires UniqueIds(ts)
    ensures Count(ts, id) <= 1
  {
    if ts != [] {
      var tail := ts[1..];
      assert UniqueIds(tail) by {
        forall i, j | 0 <= i < j < |tail|
          ensures tail[i].id != tail[j].id
        {
          assert tail[i] == ts[i + 1] && tail[j] == ts[j + 1];
        }
      }
      UniqueCountAtMostOne(tail, id);
      if ts[0].id == id {
        forall t | t in tail
          ensures t.id != id
        {
          var k :| 0 <= k < |tail| && tail[k] == t;
          assert ts[k + 1] == t;
        }
      }
    }
  }

  /** With unique ids, deleting a present id removes exactly one record. */
  lemma DeleteUniqueRemovesOne(ts: seq<Timer>, id: Id)
    requires UniqueIds(ts) && id in Ids(ts)
    ensures |Delete(ts, id)| == |ts| - 1
  {
    UniqueCountAtMostOne(ts, id);
  }

  /** Deleting keeps the collection valid. */
  lemma DeleteKeepsValid(ts: seq<Timer>, id: Id, now: int)
    requires Valid(ts, now)
    ensures Valid(Delete(ts, id), now)
  {
    var r := Delete(ts, id);
    forall i | 0 <= i < |r|
      ensures WellFormed(r[i], now)
    {
      assert r[i] in ts;
      var k :| 0 <= k < |ts| && ts[k] == r[i];
    }
  }

  // ----------------------------------------------------------------- start

  /** A second start of the same id replaces the first start time: the time
      since the earlier start is not kept anywhere. */
  lemma StartTwice(ts: seq<Timer>, id: Id, t1: int, t2: int)
    ensures Start(Start(ts, id, t1), id, t2) == Start(ts, id, t2)
  {
    var a := Start(Start(ts, id, t1), id, t2);
    var b := Start(ts, id, t2);
    assert |a| == |b|;
    forall i | 0 <= i < |a|
      ensures a[i] == b[i]
    {
    }
  }

  /** Starting at a clock reading no earlier than the last one keeps ids
      unique and the collection valid, and leaves the started records
      running. */
  lemma StartKeepsInvariants(ts: seq<Timer>, id: Id, now: int, later: int)
    requires now <= later
    ensures SameIds(ts, Start(ts, id, later))
    ensures UniqueIds(ts) ==> UniqueIds(Start(ts, id, later))
    ensures Valid(ts, now) ==> Valid(Start(ts, id, later), later)
    ensures forall i :: 0 <= i < |ts| && ts[i].id == id ==> Running(Start(ts, id, later)[i])
  {
    var r := Start(ts, id, later);
    SameIdsKeepUnique(ts, r);
    if Valid(ts, now) {
      forall i | 0 <= i < |r|
        ensures WellFormed(r[i], later)
      {
        assert WellFormed(ts[i], now);
      }
    }
  }

  // ------------------------------------------------------------------ stop

  /** Stopping a running record adds the length of its run to the
      accumulated time and leaves it stopped. */
  lemma StopRunning(ts: seq<Timer>, id: Id, now: int, i: int, t: int)
    requires 0 <= i < |ts| && ts[i].id == id && ts[i].runningSince == Some(t)
    ensures Stop(ts, id, now)[i].elapsed == ts[i].elapsed + (now - t)
    ensures !Running(Stop(ts, id, now)[i])
  {
  }

  /** Stopping a record that is already stopped adds the whole clock
      reading to its accumulated time, because the missing start time
      counts as 0. */
  lemma StopStopped(ts: seq<Timer>, id: Id, now: int, i: int)
    requires 0 <= i < |ts| && ts[i].id == id && !Running(ts[i])
    ensures Stop(ts, id, now)[i].elapsed == ts[i].elapsed + now
    ensures !Running(Stop(ts, id, now)[i])
  {
  }

  /** Stopping never decreases the accumulated time of a record that
      started no later than the stop, and never the time of a stopped
      record when the clock reading is non-negative. */
  lemma StopMonotone(ts: seq<Timer>, id: Id, now: int)
    requires Valid(ts, now)
    ensures forall i :: 0 <= i < |ts| ==> ts[i].elapsed <= Stop(ts, id, now)[i].elapsed
  {
    var r := Stop(ts, id, now);
    forall i | 0 <= i < |ts|
      ensures ts[i].elapsed <= r[i].elapsed
    {
      assert WellFormed(ts[i], now);
    }
  }

  /** Stopping at a clock reading no earlier than the last one keeps ids
      unique and the collection valid. */
  lemma StopKeepsInvariants(ts: seq<Timer>, id: Id, now: int, later: int)
    requires now <= later
    ensures SameIds(ts, Stop(ts, id, later))
    ensures UniqueIds(ts) ==> UniqueIds(Stop(ts, id, later))
    ensures Valid(ts, now) ==> Valid(Stop(ts, id, later), later)
  {
    var r := Stop(ts, id, later);
    SameIdsKeepUnique(ts, r);
    if Valid(ts, now) {
      ClockAdvanceKeepsValid(ts, now, later);
      StopMonotone(ts, id, later);
      forall i | 0 <= i < |r|
        ensures WellFormed(r[i], later)
      {
        assert WellFormed(ts[i], later);
      }
    }
  }

  /** Starting at `t1` and then stopping at `t2` adds `t2 - t1` to the
      accumulated time of every matching record, whatever its state before,
      and leaves it stopped; other records are untouched. */
  lemma StartThenStop(ts: seq<Timer>, id: Id, t1: int, t2: int)
    ensures |Stop(Start(ts, id, t1), id, t2)| == |ts|
    ensures forall i :: 0 <= i < |ts| && ts[i].id == id ==>
      var r := Stop(Start(ts, id, t1), id, t2)[i];
      && r.elapsed == ts[i].elapsed + (t2 - t1)
      && r.runningSince == None
      && r.id == ts[i].id && r.title == ts[i].title && r.project == ts[i].project
    ensures forall i :: 0 <= i < |ts| && ts[i].id != id ==>
      Stop(Start(ts, id, t1), id, t2)[i] == ts[i]
  {
    var s := Start(ts, id, t1);
    var r := Stop(s, id, t2);
    forall i | 0 <= i < |ts| && ts[i].id == id
      ensures r[i].elapsed == ts[i].elapsed + (t2 - t1)
    {
      assert s[i].runningSince == Some(t1);
    }
  }
}
