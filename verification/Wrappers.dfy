/** The result types used by every module of the model. */
module Wrappers {

  datatype Option<+T> = None | Some(value: T)

  /** A Go call that returns a value and an error.  The error text is not modelled; `error` names the check that
      failed.  The members let `:-` return the error early. */
  datatype Result<+T> = Ok(value: T) | Err(error: string) {
    predicate IsFailure() {
      Err?
    }

    function PropagateFailure<U>(): Result<U>
      requires IsFailure()
    {
      Err(error)
    }

    function Extract(): T
      requires !IsFailure()
    {
      value
    }
  }
}
