/** Failure-carrying values used across the model: an optional value, and a
    value-or-error result standing for Go's `(T, error)` return pairs. */
module Wrappers {

  datatype Option<+T> = None | Some(value: T)

  datatype Result<+T, +E> = Success(value: T) | Failure(error: E)
}
