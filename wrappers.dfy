/** Optional values and the result of an operation that can fail. */
module Wrappers {

  datatype Option<+T> = None | Some(value: T)

  /** An operation's value, or the error it raised. */
  datatype Result<+T, +E> = Success(value: T) | Failure(error: E)
}
