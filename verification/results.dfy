/** Failure-compatible wrappers used throughout the model: an optional value
    and a result that carries either a value or the error the source raises. */
module Results {

  datatype Option<+T> = None | Some(value: T)

  /** `Failure` stands for a Python exception escaping the operation. */
  datatype Result<+T, +E> = Success(value: T) | Failure(error: E) {

    predicate IsFailure() {
      Failure?
    }

    function PropagateFailure<U>(): Result<U, E>
      requires Failure?
    {
      Failure(error)
    }

    function Extract(): T
      requires Success?
    {
      value
    }
  }
}
