/** Option, Result and Outcome: the failure-carrying values the model uses
    wherever the Python code returns None, returns a value or raises. */
module Wrappers {

  datatype Option<+T> = None | Some(value: T) {
    function GetOr(default: T): T {
      match this
      case Some(v) => v
      case None => default
    }
  }

  /** A query that either yields a value or raises. */
  datatype Result<+T, +E> = Success(value: T) | Failure(error: E)

  /** A check that either returns normally (Pass) or raises (Fail). */
  datatype Outcome<+E> = Pass | Fail(error: E) {
    /** Run this check, then `next`; the first failure wins, as with
        consecutive statements that may raise. */
    function Then(next: Outcome<E>): Outcome<E> {
      if Fail? then this else next
    }
  }
}
