/** Timer records: the single entity the dashboard keeps.

A record carries an opaque identifier, a title and a project, the time
accumulated by earlier runs (`elapsed`, in milliseconds) and, while it is
running, the clock reading at which the current run started
(`runningSince`). A stopped record has no start time.
 */
module Timers {

  datatype Option<+T> = None | Some(value: T)

  /** Identifiers are opaque strings, generated outside the dashboard. */
  type Id = string

  datatype Timer = Timer(
    id: Id,
    title: string,
    project: string,
    elapsed: int,
    runningSince: Option<int>
  )

  /** A timer runs exactly when it holds a start time. */
  predicate Running(t: Timer) {
    t.runningSince.Some?
  }

  /** The start time as the arithmetic `now - runningSince` reads it: a
      missing start time (`null`) coerces to 0. */
  function StartTime(t: Timer): int {
    match t.runningSince
    case Some(s) => s
    case None => 0
  }

  /** The shape of a freshly built record: nothing accumulated, not running. */
  predicate IsNew(t: Timer) {
    t.elapsed == 0 && !Running(t)
  }

  /** A record is well formed at clock reading `now` when its accumulated
      time is non-negative and a running record started no later than `now`. */
  predicate WellFormed(t: Timer, now: int) {
    && 0 <= t.elapsed
    && (Running(t) ==> t.runningSince.value <= now)
  }
}
