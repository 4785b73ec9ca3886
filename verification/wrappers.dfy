/** Failure-carrying datatypes shared by every module of the engine. */
module Wrappers {

  /** A value that may be absent (Java's `null` / `Optional.empty()`). */
  datatype Option<+T> = None | Some(value: T) {
    function GetOr(default: T): T {
      match this
      case Some(v) => v
      case None => default
    }
  }

  /** Either a computed value or the error that stopped the computation
      (Java's checked `BusinessException` / `ArithmeticException`). */
  datatype Result<+T, +E> = Success(value: T) | Failure(error: E) {
    predicate IsFailure() {
      Failure?
    }

    function PropagateFailure<U>(): Result<U, E>
      requires Failure?
    {
      Failure(error)
    }

    function Extract(): T
      requires Success?
    {
      value
    }

    function ToOption(): Option<T> {
      match this
      case Success(v) => Some(v)
      case Failure(_) => None
    }
  }

  /** Runs a sequence of results in order: all the values when every one
      succeeded, else the error of the first failure (fail-fast, as a Java
      loop that throws on its first bad element). */
  function Collect<T, E(==)>(rs: seq<Result<T, E>>): (r: Result<seq<T>, E>)
    ensures r.Success? <==> forall i | 0 <= i < |rs| :: rs[i].Success?
    ensures r.Success? ==> |r.value| == |rs| && forall i | 0 <= i < |rs| :: r.value[i] == rs[i].value
    ensures r.Failure? ==>
      exists i :: 0 <= i < |rs| && rs[i].Failure? && rs[i].error == r.error && forall j | 0 <= j < i :: rs[j].Success?
  {
    if |rs| == 0 then Success([])
    else if rs[0].Failure? then
      Failure(rs[0].error)
    else
      var tail := Collect(rs[1..]);
      if tail.Failure? then
        var k :| 0 <= k < |rs| - 1 && rs[1..][k].Failure? && rs[1..][k].error == tail.error && forall j | 0 <= j < k :: rs[1..][j].Success?;
        assert rs[k + 1] == rs[1..][k];
        assert forall j | 0 <= j < k + 1 :: rs[j].Success? by {
          forall j | 0 <= j < k + 1
            ensures rs[j].Success?
          {
            if j > 0 {
              assert rs[j] == rs[1..][j - 1];
            }
          }
        }
        Failure(tail.error)
      else
        assert forall i | 0 <= i < |rs| :: rs[i].Success? by {
          forall i | 0 <= i < |rs|
            ensures rs[i].Success?
          {
            if i > 0 {
              assert rs[i] == rs[1..][i - 1];
            }
          }
        }
        Success([rs[0].value] + tail.value)
  }
}
