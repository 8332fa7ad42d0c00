/** One tracked fixture, with its identity fields and its event counters. */
module MatchRecord {

  /** The counters are `int`, as in the Go struct in main.go: a decoded request body
      may carry any value, and only the registry keeps them non-negative. */
  datatype Match = Match(
    id: int,
    homeTeam: string,
    awayTeam: string,
    matchDate: string,
    goals: int,
    yellowCards: int,
    redCards: int,
    extraTime: bool
  )

  /** No event counter has gone below zero. */
  predicate CountersNonNegative(m: Match) {
    m.goals >= 0 && m.yellowCards >= 0 && m.redCards >= 0
  }

  /** `a` and `b` differ at most in their identity fields (teams and date). */
  predicate SameExceptIdentity(a: Match, b: Match) {
    && a.id == b.id
    && a.goals == b.goals
    && a.yellowCards == b.yellowCards
    && a.redCards == b.redCards
    && a.extraTime == b.extraTime
  }

  /** `b` is `a` later in its life: same ID, no counter lower, and a flag that
      was raised is still raised. */
  predicate Progressed(a: Match, b: Match) {
    && a.id == b.id
    && a.goals <= b.goals
    && a.yellowCards <= b.yellowCards
    && a.redCards <= b.redCards
    && (a.extraTime ==> b.extraTime)
  }
}
