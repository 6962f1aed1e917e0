/** Failure-compatible wrappers used across the model: `Option` for lookups
    that may miss, `Result` for operations that return a value or an error. */
module Wrappers {

  datatype Option<+T> = None | Some(value: T)

  datatype Result<+T, +E> = Ok(value: T) | Err(error: E) {

    predicate IsFailure() {
      Err?
    }

    function PropagateFailure<U>(): Result<U, E>
      requires Err?
    {
      Err(error)
    }

    function Extract(): T
      requires Ok?
    {
      value
    }
  }

  /** Apply `f` to every item in order, stopping at the first error: the
      shape of a Go loop that returns as soon as one element fails. */
  function MapAll<A, B, E>(items: seq<A>, f: A --> Result<B, E>): (r: Result<seq<B>, E>)
    requires forall i :: 0 <= i < |items| ==> f.requires(items[i])
    ensures r.Ok? <==> forall i :: 0 <= i < |items| ==> f(items[i]).Ok?
    ensures r.Ok? ==>
      && |r.value| == |items|
      && (forall i :: 0 <= i < |items| ==> f(items[i]) == Ok(r.value[i]))
    ensures r.Err? ==>
      exists i :: && 0 <= i < |items|
                  && f(items[i]) == Err(r.error)
                  && (forall j :: 0 <= j < i ==> f(items[j]).Ok?)
  {
    if |items| == 0 then Ok([])
    else
      match f(items[0])
      case Err(e) => Err(e)
      case Ok(b) =>
        match MapAll(items[1..], f)
        case Err(e) =>
          ghost var i :| 0 <= i < |items[1..]| && f(items[1..][i]) == Err(e) &&
            forall j :: 0 <= j < i ==> f(items[1..][j]).Ok?;
          assert f(items[i + 1]) == Err(e);
          Err(e)
        case Ok(bs) => Ok([b] + bs)
  }
}
