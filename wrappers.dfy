/** Option, Result and Outcome: optional values, and values or failures. */
module Wrappers {

  /** A cell that may be null (pandas NaN), or a search that may find nothing. */
  datatype Option<+T> = None | Some(value: T)

  /** A computation that returns a value or raises an error. */
  datatype Result<+T, +E> = Ok(value: T) | Err(error: E) {
    predicate IsFailure() { Err? }

    function PropagateFailure<U>(): Result<U, E>
      requires Err?
    {
      Err(error)
    }

    function Extract(): T
      requires Ok?
    {
      value
    }
  }

  /** A computation that changes state in place and either succeeds or raises an error. */
  datatype Outcome<+E> = Pass | Fail(error: E)
}
