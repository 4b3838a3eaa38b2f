/**
 * `PeriodicChecker`: the routines the server's single checking thread runs at
 * intervals. The clock is a parameter.
 */
module Periodic {
  /** `checkShouldRun(whenLastRunFinished)`: at least one interval has passed since the last run finished. */
  predicate ShouldRun(now: int, lastFinished: int, interval: int) {
    now - lastFinished >= interval
  }
}
