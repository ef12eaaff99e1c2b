/** Failure-carrying values shared by every module of the model. */
module Wrappers {

  /** A value that may be absent; `None` plays the role of a Go `nil` slice. */
  datatype Option<+T> = None | Some(value: T)

  /**
   * Either a value or the error that prevented computing it; a Go
   * `if err != nil { return …, err }` is a `:-` on a Result.
   */
  datatype Result<+T, +E> = Success(value: T) | Failure(error: E)
  {
    predicate IsFailure()
    {
      Failure?
    }

    function PropagateFailure<U>(): (r: Result<U, E>)
      requires Failure?
      ensures r.Failure? && r.error == error
    {
      Failure(error)
    }

    function Extract(): (r: T)
      requires Success?
      ensures r == value
    {
      value
    }
  }
}
