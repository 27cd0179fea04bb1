/** Failure-compatible result types shared by the decoder and the encoder.
    The source aborts (`unreachable!()`, `unwrap()`) where these carry an error. */
module Wrappers {

  /** A computation that yields a value or fails with an error. */
  datatype Result<+T, +E> = Ok(value: T) | Err(error: E) {
    predicate IsFailure() {
      Err?
    }

    function PropagateFailure<U>(): Result<U, E>
      requires Err?
    {
      Err(error)
    }

    function Extract(): T
      requires Ok?
    {
      value
    }
  }

  /** A computation run for its effect only, which passes or fails with an error. */
  datatype Outcome<+E> = Pass | Fail(error: E)
}
