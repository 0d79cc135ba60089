/** Failure-compatible wrappers used throughout the engine: `Option` for the
    values the source represents with `null`, and `Result` for computations
    that may raise one of the engine's exceptions. */
module Wrappers {

  /** A value that the source may leave `null`. */
  datatype Option<+T> = None | Some(value: T)

  /** Either a computed value or the failure (exception) that aborted it. */
  datatype Result<+T, +E> = Success(value: T) | Failure(error: E) {

    predicate IsFailure() {
      Failure?
    }

    function PropagateFailure<U>(): Result<U, E>
      requires Failure?
    {
      Failure(error)
    }

    function Extract(): T
      requires Success?
    {
      value
    }
  }
}
