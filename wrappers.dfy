/** Option and Result, the failure-compatible wrappers used for Go's `(value, error)` returns. */
module Wrappers {

  datatype Option<+T> = None | Some(value: T)

  datatype Result<+T, +E> = Ok(value: T) | Err(error: E) {
    predicate IsFailure() { Err? }

    function PropagateFailure<U>(): Result<U, E>
      requires Err?
    {
      Err(error)
    }

    function Extract(): T
      requires Ok?
    {
      value
    }
  }

  /** A Go `error` return with no value: nil (Pass) or an error. */
  datatype Outcome<+E> = Pass | Fail(error: E)

  /** A result with `p` put in front of its value; an error passes through. */
  function Then<T, E>(p: seq<T>, r: Result<seq<T>, E>): Result<seq<T>, E>
  {
    match r
    case Ok(x) => Ok(p + x)
    case Err(e) => Err(e)
  }

  lemma ThenAssoc<T, E>(a: seq<T>, b: seq<T>, r: Result<seq<T>, E>)
    ensures Then(a, Then(b, r)) == Then(a + b, r)
  {
    match r
    case Ok(x) => assert a + (b + x) == a + b + x;
    case Err(_) =>
  }

  lemma ThenNil<T, E>(r: Result<seq<T>, E>)
    ensures Then([], r) == r
  {
    match r
    case Ok(x) => assert [] + x == x;
    case Err(_) =>
  }
}
