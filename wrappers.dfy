/** Failure-compatible result types used throughout the model. */
module Wrappers {

  /** Java's `null` or a present value. */
  datatype Option<+T> = None | Some(value: T)

  /** A value, or the Java exception that an operation would have thrown. */
  datatype Result<+T, +E> = Ok(value: T) | Err(error: E) {

    predicate IsFailure() {
      Err?
    }

    function PropagateFailure<U>(): Result<U, E>
      requires Err?
    {
      Err(error)
    }

    function Extract(): T
      requires Ok?
    {
      value
    }
  }
}
