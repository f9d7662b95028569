/** Option and Result types shared by the header-list and transaction models. */
module Wrappers {

  /** A value that may be absent: Go's nil pointer argument. */
  datatype Option<+T> = None | Some(value: T)

  /** Either a value or the error a Go function returns beside it. */
  datatype Result<+T, +E> = Ok(value: T) | Err(error: E) {
    predicate IsFailure() {
      Err?
    }

    function PropagateFailure<U>(): Result<U, E>
      requires Err?
    {
      Err(error)
    }

    function Extract(): T
      requires Ok?
    {
      value
    }
  }
}
