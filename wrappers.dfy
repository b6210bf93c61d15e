/** An optional value and the outcome of a computation that may throw, both usable with `:-`. */
module Wrappers {

  datatype Option<+T> = None | Some(value: T) {
    predicate IsFailure() { None? }

    function PropagateFailure<U>(): Option<U>
      requires None?
    {
      None
    }

    function Extract(): T
      requires Some?
    {
      value
    }
  }

  /** A value, or an exception that was thrown. */
  datatype Outcome<+T> = Ok(value: T) | Threw {
    predicate IsFailure() { Threw? }

    function PropagateFailure<U>(): Outcome<U>
      requires Threw?
    {
      Threw
    }

    function Extract(): T
      requires Ok?
    {
      value
    }
  }
}
