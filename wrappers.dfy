/** Failure-compatible wrappers shared by every module of the model.
    A raised Python exception or a thrown C++ exception becomes a `Failure`
    carrying the exception's message. */
module Wrappers {

  datatype Option<+T> = None | Some(value: T) {
    predicate IsFailure() { None? }

    function PropagateFailure<U>(): Option<U>
      requires None?
    {
      None
    }

    function Extract(): T
      requires Some?
    {
      value
    }
  }

  datatype Result<+T> = Success(value: T) | Failure(error: string) {
    predicate IsFailure() { Failure? }

    function PropagateFailure<U>(): Result<U>
      requires Failure?
    {
      Failure(error)
    }

    function Extract(): T
      requires Success?
    {
      value
    }
  }

  /** Turns a lookup miss into the given error, as `.at()` or `dict[key]` would raise. */
  function Need(b: bool, error: string): (r: Result<()>)
    ensures r.Success? <==> b
  {
    if b then Success(()) else Failure(error)
  }
}
