/** Optional values and results, for lookups that may find nothing and calls that may fail. */
module Wrappers {

  /** A value that may be absent: the source's `undefined` result. */
  datatype Option<+T> = None | Some(value: T)

  /** Either a value or an error: a call that may throw. */
  datatype Result<+T, +E> = Success(value: T) | Failure(error: E)
}
