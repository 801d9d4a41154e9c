/** Wrappers shared by the model: an optional value, a value or an error, and
    the outcome of a step that either passes or fails with an error. */
module Wrappers {

  datatype Option<+T> = None | Some(value: T)

  datatype Result<+T, +E> = Ok(value: T) | Err(error: E)

  datatype Outcome<+E> = Pass | Fail(error: E) {
    predicate IsFailure() { Fail? }
    function PropagateFailure(): Outcome<E>
      requires Fail?
    {
      this
    }
  }
}
