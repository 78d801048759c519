/** Optional values and success/failure results used throughout the model. */
module Wrappers {

  /** A value that may be absent (a JavaScript `null`/`undefined` field). */
  datatype Option<+T> = None | Some(value: T)

  /** The outcome of a check that either yields a value or names an error. */
  datatype Result<+R, +E> = Success(value: R) | Failure(error: E)
}
