/** Option and Result values for the operations that may find nothing or raise. */
module Wrappers {

  datatype Option<+T> = None | Some(value: T)

  /** A Python operation that either returns a value or raises. */
  datatype Result<+T, +E> = Ok(value: T) | Err(error: E) {

    predicate IsFailure() {
      Err?
    }

    function PropagateFailure<U>(): Result<U, E>
      requires Err?
    {
      Err(error)
    }

    function Extract(): T
      requires Ok?
    {
      value
    }
  }
}
