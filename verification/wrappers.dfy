/** Optional values and fallible results used across the model. */
module Wrappers {

  /** A value that may be absent: `T | null` or `T | undefined` in the source. */
  datatype Option<T> = None | Some(value: T)

  /** A computation that either returns a value or throws an error. */
  datatype Result<T, E> = Success(value: T) | Failure(error: E)
}
