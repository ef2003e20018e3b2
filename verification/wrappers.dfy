/** Failure-carrying return types shared by the model. */
module Wrappers {

  /** A value that may be missing: a null pointer, a lookup that found
      nothing, or input that ended before a field was complete. */
  datatype Option<+T> = None | Some(value: T) {

    predicate IsFailure() {
      None?
    }

    function PropagateFailure<U>(): Option<U>
      requires None?
    {
      None
    }

    function Extract(): T
      requires Some?
    {
      value
    }
  }

  /** The outcome of an operation that either produces a value or stops
      with an error (for the Rust side, a panic). */
  datatype Result<+T, +E> = Success(value: T) | Failure(error: E)
}
