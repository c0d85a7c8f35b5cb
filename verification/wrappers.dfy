/** Failure-compatible result and optional-value types used throughout the model. */
module Wrappers {

  /** A value that may be absent; stands in for a Go nil pointer, nil slice or nil map. */
  datatype Option<+T> = None | Some(value: T)

  /** The outcome of an operation that returns `(value, error)` in Go. */
  datatype Result<+T, +E> = Success(value: T) | Failure(error: E) {

    predicate IsFailure() {
      Failure?
    }

    function PropagateFailure<U>(): Result<U, E>
      requires Failure?
    {
      Failure(error)
    }

    function Extract(): T
      requires Success?
    {
      value
    }
  }
}
