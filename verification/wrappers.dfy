/** Failure-carrying results for the operations whose source raises or exits. */
module Wrappers {

  /** Either a value or the error the source would have raised at that point. */
  datatype Result<+T, +E> = Ok(value: T) | Err(error: E) {
    predicate IsFailure() {
      Err?
    }

    function PropagateFailure<U>(): Result<U, E>
      requires Err?
    {
      Err(error)
    }

    function Extract(): T
      requires Ok?
    {
      value
    }
  }

  /** A value or nothing. */
  datatype Option<+T> = None | Some(value: T)
}
