/** Option and Result, used for every operation of the format that can fail. */
module Results {

  datatype Option<+T> = None | Some(value: T)

  /** A Result is either a value or the error the source raises instead. */
  datatype Result<+T, +E> = Success(value: T) | Failure(error: E) {

    predicate IsFailure() {
      Failure?
    }

    function PropagateFailure<U>(): Result<U, E>
      requires Failure?
    {
      Failure(error)
    }

    function Extract(): T
      requires Success?
    {
      value
    }
  }
}
