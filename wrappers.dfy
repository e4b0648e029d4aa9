/** Option and Result, the two shapes the source's `Option<T>` and `Result<T, E>` take here.
    `Result` is failure-compatible, so `:-` mirrors Rust's `?` operator. */
module Wrappers {

  datatype Option<T> = None | Some(value: T)

  datatype Result<T, E> = Ok(value: T) | Err(error: E) {

    predicate IsFailure() {
      Err?
    }

    function PropagateFailure<U>(): Result<U, E>
      requires Err?
    {
      Err(error)
    }

    function Extract(): T
      requires Ok?
    {
      value
    }
  }
}
