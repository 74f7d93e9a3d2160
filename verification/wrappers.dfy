/** Failure-carrying values used throughout the model: a nullable reference
    becomes an `Option`, a call that may throw becomes a `Result`. */
module Wrappers {

  /** A C# reference that may be null. */
  datatype Option<+T> = None | Some(value: T)

  /** The outcome of a call that either returns a value or throws `error`. */
  datatype Result<+R, +E> = Success(value: R) | Failure(error: E)
}
