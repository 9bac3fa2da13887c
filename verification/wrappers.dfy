/** Failure-carrying datatypes shared by the other modules. */
module Wrappers {

  /** A value that may be absent; Python's `None` or a failed `re.match`. */
  datatype Option<+T> = None | Some(value: T)

  /** Either a value or the error a Python `raise` would have produced. */
  datatype Result<+R, +E> = Success(value: R) | Failure(error: E) {

    /** The three members `:-` relies on: stop at a failure and pass its error on. */
    predicate IsFailure() {
      Failure?
    }

    function PropagateFailure<U>(): Result<U, E>
      requires Failure?
    {
      Failure(error)
    }

    function Extract(): R
      requires Success?
    {
      value
    }
  }
}
