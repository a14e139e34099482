/** Optional values (an absent cache) and results (a construction that may fail). */
module Wrappers {

  /** A value that may be absent, used for the lazily filled caches. */
  datatype Option<+T> = None | Some(value: T)

  /** The outcome of an operation that either succeeds or raises an error. */
  datatype Result<+R, +E> = Success(value: R) | Failure(error: E)
}
