/** The two wrappers the decoder returns: an optional value and a result
    that is either a value or an error. `Result` is failure-compatible, so
    `:-` propagates an `Err` the way Rust's `?` operator does. */
module Wrappers {

  datatype Option<+T> = None | Some(value: T)

  datatype Result<+T, +E> = Ok(value: T) | Err(error: E) {

    predicate IsFailure() {
      Err?
    }

    function PropagateFailure<U>(): Result<U, E>
      requires Err?
    {
      Err(error)
    }

    function Extract(): T
      requires Ok?
    {
      value
    }
  }
}
