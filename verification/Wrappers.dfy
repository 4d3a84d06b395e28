/** What every module shares: optional values, units of time, and what is assumed of a hash. */
module Wrappers {

  datatype Option<+T> = None | Some(value: T)

  /** Times and durations are nanoseconds; the store keeps whole milliseconds. */
  const MILLISECOND := 1_000_000
  const SECOND := 1000 * MILLISECOND

  ghost predicate Injective(hash: string -> string) { forall x, y :: hash(x) == hash(y) ==> x == y }
}
