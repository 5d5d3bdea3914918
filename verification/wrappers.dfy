/** Failure-carrying datatypes shared by the rest of the model.
    - Option<T> stands for a JSON field or CLI argument that may be absent (`undefined`).
    - Result<T, E> stands for a step that either yields a value or aborts the run. */
module Wrappers {

  datatype Option<+T> = None | Some(value: T)

  datatype Result<+R, +E> = Success(value: R) | Failure(error: E) {

    predicate IsFailure() {
      Failure?
    }

    function PropagateFailure<U>(): Result<U, E>
      requires Failure?
    {
      Failure(error)
    }

    function Extract(): R
      requires Success?
    {
      value
    }
  }
}
