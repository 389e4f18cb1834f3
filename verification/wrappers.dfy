/** Failure-compatible wrappers shared by every module of the model. */
module Wrappers {

  /** An optional value: the model's stand-in for a C pointer that may be NULL. */
  datatype Option<+T> = None | Some(value: T) {

    predicate IsFailure() {
      None?
    }

    function PropagateFailure<U>(): Option<U>
      requires None?
    {
      None
    }

    function Extract(): T
      requires Some?
    {
      value
    }

    /** The value, or `default` when there is none. */
    function GetOr(default: T): (r: T)
      ensures Some? ==> r == value
      ensures None? ==> r == default
    {
      match this
      case Some(v) => v
      case None => default
    }
  }

  /** A value or a negative errno-style error code. */
  datatype Result<+R> = Ok(value: R) | Err(code: int) {

    predicate IsFailure() {
      Err?
    }

    function PropagateFailure<U>(): Result<U>
      requires Err?
    {
      Err(code)
    }

    function Extract(): R
      requires Ok?
    {
      value
    }
  }
}
