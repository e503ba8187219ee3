/** Optional values and success-or-failure results, used in place of the
    source's `undefined` and of its thrown exceptions. */
module Outcomes {

  datatype Option<+T> = None | Some(value: T)

  /** Failure-compatible, so that `:-` propagates the first error. */
  datatype Result<+T, +E> = Ok(value: T) | Err(error: E) {

    predicate IsFailure() {
      Err?
    }

    function PropagateFailure<U>(): Result<U, E>
      requires Err?
    {
      Err(error)
    }

    function Extract(): T
      requires Ok?
    {
      value
    }
  }
}
