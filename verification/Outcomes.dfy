/** The outcome types shared by the models: an optional value, and a value or the error the program raises. */
module Outcomes {

  datatype Option<+T> = None | Some(value: T)

  /** A call that returns, or throws. Usable with `:-`. */
  datatype Result<+T, +E> = Success(value: T) | Failure(error: E) {

    predicate IsFailure() {
      Failure?
    }

    function PropagateFailure<U>(): Result<U, E>
      requires Failure?
    {
      Failure(error)
    }

    function Extract(): T
      requires Success?
    {
      value
    }
  }
}
