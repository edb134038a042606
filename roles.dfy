/** The role codes both processes react to (`in ['AIN', 'CSE']` in the source). */
module Roles {
  /** An exact, case-sensitive, untrimmed comparison against the allow-list. */
  predicate IsTrackedRole(role: string) {
    role == "AIN" || role == "CSE"
  }
}
