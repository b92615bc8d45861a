/** Shared vocabulary of the per-frame update rules: an optional value, the
    result of one `update` call, and the polling timers that every entity
    uses ("milliseconds since a stored timestamp" against a fixed duration). */
module Simulation {

  datatype Option<+T> = None | Some(value: T)

  /** What one `update(dt)` call leaves behind: the entity's new state and
      whether the call ended with `kill()`, i.e. the entity left every group. */
  datatype Updated<+T> = Updated(entity: T, removed: bool)

  /** The timer test `get_ticks() - start >= duration`, with the clock
      reading passed in as `now`. */
  predicate Expired(now: int, start: int, duration: int)
  {
    now - start >= duration
  }

  /** Once a polling timer has expired it stays expired as the clock moves on,
      and it expires exactly `duration` milliseconds after `start`. */
  lemma ExpiredExactlyAtDuration(start: int, duration: int, now: int, later: int)
    requires now <= later
    ensures Expired(now, start, duration) ==> Expired(later, start, duration)
    ensures !Expired(start + duration - 1, start, duration)
    ensures Expired(start + duration, start, duration)
  {
  }
}
