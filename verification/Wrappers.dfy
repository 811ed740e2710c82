/** Option and Result, the two failure-compatible types used across the project. */
module Wrappers {

  datatype Option<+T> = None | Some(value: T)

  /** The source's exceptions become the `Err` case. */
  datatype Result<+T, +E> = Ok(value: T) | Err(error: E) {

    predicate IsFailure() {
      Err?
    }

    function PropagateFailure<U>(): Result<U, E>
      requires Err?
    {
      Err(error)
    }

    function Extract(): T
      requires Ok?
    {
      value
    }
  }
}
