/** Optional values, and results in place of the repository's exceptions. */
module Wrappers {

  datatype Option<+T> = None | Some(value: T)

  datatype Result<+T, +E> = Success(value: T) | Failure(error: E) {
    predicate IsFailure() {
      Failure?
    }

    function PropagateFailure<U>(): Result<U, E>
      requires IsFailure()
    {
      Failure(error)
    }

    function Extract(): T
      requires !IsFailure()
    {
      value
    }
  }

  /** The outcome of an operation that returns nothing or throws. */
  datatype Outcome<+E> = Done | Thrown(error: E) {
    predicate IsFailure() {
      Thrown?
    }

    function PropagateFailure<U>(): Result<U, E>
      requires IsFailure()
    {
      Failure(error)
    }
  }

  function Need<E>(holds: bool, error: E): Outcome<E> {
    if holds then Done else Thrown(error)
  }

  // Collected errors.

  /** Pushes an error when something is wrong. */
  function PushIf<E>(errors: seq<E>, wrong: bool, error: E): (r: seq<E>)
    ensures r == [] <==> errors == [] && !wrong
  {
    if wrong then errors + [error] else errors
  }

  function PushAll<E>(errors: seq<E>, more: seq<E>): (r: seq<E>)
    ensures r == [] <==> errors == [] && more == []
  {
    errors + more
  }
}
