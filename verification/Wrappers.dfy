/** Failure-compatible results, used with `:-` throughout the model. */
module Wrappers {

  datatype Option<+T> = None | Some(value: T) {
    predicate IsFailure() { None? }

    function PropagateFailure<U>(): Option<U>
      requires None?
    {
      None
    }

    function Extract(): T
      requires Some?
    {
      value
    }
  }

  /** Turns a check into a step of an `Option` computation. */
  function Need(condition: bool): Option<()> {
    if condition then Some(()) else None
  }

  datatype Result<+R, +E> = Ok(value: R) | Err(error: E) {
    predicate IsFailure() { Err? }

    function PropagateFailure<U>(): Result<U, E>
      requires Err?
    {
      Err(error)
    }

    function Extract(): R
      requires Ok?
    {
      value
    }
  }

  /** A check that passes or names the reason it did not. */
  datatype Outcome<+E> = Pass | Fail(error: E) {
    predicate IsFailure() { Fail? }

    function PropagateFailure(): Outcome<E>
      requires Fail?
    {
      this
    }
  }

  /** One row of a table of refusals: refuse here, or read on. */
  function Refuse<E>(refused: bool, error: E, otherwise: Outcome<E>): Outcome<E> {
    if refused then Fail(error) else otherwise
  }
}
