/** Option and Result datatypes, and the "map until the first failure" combinator
    that both Python `map`-into-`tuple` and a left-to-right sequence of `int()`
    calls amount to: every element is converted in order, and the first exception
    raised aborts the whole conversion. */
module Wrappers {

  datatype Option<+T> = None | Some(value: T)

  datatype Result<+R, +E> = Success(value: R) | Failure(error: E)

  /** Applies `f` to every element of `xs` in order. Succeeds with the list of
      converted values when every conversion succeeds; otherwise fails with the
      error of the FIRST element whose conversion fails. */
  function MapAll<T, U, E>(f: T -> Result<U, E>, xs: seq<T>): (r: Result<seq<U>, E>)
    ensures r.Success? <==> forall i :: 0 <= i < |xs| ==> f(xs[i]).Success?
    ensures r.Success? ==>
              |r.value| == |xs| &&
              forall i :: 0 <= i < |xs| ==> r.value[i] == f(xs[i]).value
    ensures r.Failure? ==>
              exists k :: 0 <= k < |xs| && f(xs[k]) == Failure(r.error) &&
                          forall j :: 0 <= j < k ==> f(xs[j]).Success?
  {
    if |xs| == 0 then Success([])
    else
      match f(xs[0])
      case Failure(e) => Failure(e)
      case Success(y) =>
        match MapAll(f, xs[1..])
        case Failure(e) =>
          Failure(e)
        case Success(ys) => Success([y] + ys)
  }

  /** When every element converts, the result is exactly the converted list. */
  lemma MapAllSuccess<T, U, E>(f: T -> Result<U, E>, xs: seq<T>, ys: seq<U>)
    requires |xs| == |ys|
    requires forall i :: 0 <= i < |xs| ==> f(xs[i]) == Success(ys[i])
    ensures MapAll(f, xs) == Success(ys)
  {
    var r := MapAll(f, xs);
    assert forall i :: 0 <= i < |xs| ==> f(xs[i]).Success?;
    assert r.value == ys;
  }
}
