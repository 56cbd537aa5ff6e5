/** Optional values and error-or-value results, as the registry returns them. */
module Wrappers {

  /** A value that may be absent (`undefined` in the registry's callers). */
  datatype Option<+T> = None | Some(value: T)

  /** Either the value an operation produced or the error it reported. */
  datatype Result<+R, +E> = Success(value: R) | Failure(error: E)
}
