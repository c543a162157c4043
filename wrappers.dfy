/** Failure-carrying values: an optional value and a value-or-error. */
module Wrappers {

  /** A value that may be absent (an unset environment variable, a failed command). */
  datatype Option<+T> = None | Some(value: T)

  /** The Go convention of returning `(value, err)`: exactly one of the two is meaningful. */
  datatype Result<+T, +E> = Success(value: T) | Failure(error: E)
}
