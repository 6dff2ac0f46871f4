/** The exceptions the modelled Python code raises, as values, and Python's
    `None`-or-value as `Option`.

    An operation that can raise returns a `Result` (when it also produces a
    value) or an `Outcome` (when it only succeeds or fails). */
module Errors {

  datatype Error =
    | KeyError           // a key or key pair that is not stored
    | FullError          // an insertion that finds no free slot
    | ValueError         // `list.remove` / `list.index` of an absent element
    | TypeError          // an operand of the wrong type (unpacking, `%` by a method)
    | AttributeError     // a method called on a value that does not have it
    | ZeroDivisionError  // `%` by zero

  datatype Option<+T> = None | Some(value: T)

  datatype Result<+T> = Ok(value: T) | Err(error: Error) {
    predicate IsFailure() { Err? }
    function PropagateFailure<U>(): Result<U>
      requires Err?
    {
      Err(error)
    }
    function Extract(): T
      requires Ok?
    {
      value
    }
  }

  datatype Outcome = Pass | Fail(error: Error) {
    predicate IsFailure() { Fail? }
    function PropagateFailure(): Outcome
      requires Fail?
    {
      this
    }
  }
}
