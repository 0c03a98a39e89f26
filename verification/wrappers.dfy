/**
 * The two wrapper types of the model: an optional value, and a value or the
 * fault that stopped a computation.
 */
module Wrappers {
  datatype Option<+T> = None | Some(value: T)

  /** The faults the operand stack reports. */
  datatype Fault = StackUnderflow

  /** Success or a fault, usable with `:-`. */
  datatype Result<+T> = Success(value: T) | Failure(error: Fault) {
    predicate IsFailure() {
      Failure?
    }

    function PropagateFailure<U>(): Result<U>
      requires Failure?
    {
      Failure(error)
    }

    function Extract(): T
      requires Success?
    {
      value
    }
  }
}
