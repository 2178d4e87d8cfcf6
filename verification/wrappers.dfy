/** The two failure types of the model. The text parsers return `Option`,
    and the query translator and the result merger return `Result` with the
    adapter's own `Error`; both support `:-`. */
module Wrappers {

  /** A parse that may fail, as in `ParseInt` and `ParseRegex`; `:-` propagates `None`. */
  datatype Option<+T> = None | Some(value: T) {

    predicate IsFailure() {
      None?
    }

    function PropagateFailure<U>(): Option<U>
      requires None?
    {
      None
    }

    function Extract(): T
      requires Some?
    {
      value
    }
  }

  /** A value or the error a Go function returns beside it, as in
      `BuildCommand` and `MergeResult`; `:-` propagates the error. */
  datatype Result<+T, +E> = Ok(value: T) | Err(error: E) {

    predicate IsFailure() {
      Err?
    }

    function PropagateFailure<U>(): Result<U, E>
      requires Err?
    {
      Err(error)
    }

    function Extract(): T
      requires Ok?
    {
      value
    }
  }
}
