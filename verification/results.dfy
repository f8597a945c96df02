/** The outcome of an operation that either returns a value or raises. */
module Results {

  datatype Result<+T, +E> = Success(value: T) | Failure(error: E)

  /** Apply `f` to each element in order, stopping at the first failure:
      a loop whose body may raise. */
  function MapResult<T, U, E>(xs: seq<T>, f: T -> Result<U, E>): (r: Result<seq<U>, E>)
    ensures r.Success? <==> forall i :: 0 <= i < |xs| ==> f(xs[i]).Success?
    ensures r.Success? ==>
      && |r.value| == |xs|
      && forall i :: 0 <= i < |xs| ==> f(xs[i]) == Success(r.value[i])
    ensures r.Failure? ==>
      exists i :: 0 <= i < |xs| && f(xs[i]) == Failure(r.error)
        && forall k :: 0 <= k < i ==> f(xs[k]).Success?
  {
    if |xs| == 0 then Success([])
    else
      match f(xs[0])
      case Failure(e) => Failure(e)
      case Success(y) =>
        match MapResult(xs[1..], f)
        case Failure(e) =>
          assert exists i :: (0 <= i < |xs| && f(xs[i]) == Failure(e)
            && forall k :: 0 <= k < i ==> f(xs[k]).Success?) by {
            var i :| 0 <= i < |xs| - 1 && f(xs[1..][i]) == Failure(e)
              && forall k :: 0 <= k < i ==> f(xs[1..][k]).Success?;
            assert xs[1..][i] == xs[i + 1];
            assert forall k :: 1 <= k < i + 1 ==> xs[k] == xs[1..][k - 1];
          }
          Failure(e)
        case Success(ys) =>
          assert forall i :: 1 <= i < |xs| ==> xs[i] == xs[1..][i - 1];
          Success([y] + ys)
  }

  /** Whatever order the results are put in afterwards, each one is the
      result of some element, and every element's result is among them. */
  lemma MapResultElements<T, U, E>(xs: seq<T>, f: T -> Result<U, E>, r: seq<U>)
    requires MapResult(xs, f).Success?
    requires multiset(r) == multiset(MapResult(xs, f).value)
    ensures forall u :: u in r ==> exists j :: 0 <= j < |xs| && f(xs[j]) == Success(u)
    ensures forall j :: 0 <= j < |xs| ==> f(xs[j]).Success? && f(xs[j]).value in r
  {
    var ys := MapResult(xs, f).value;
    forall u | u in r
      ensures exists j :: 0 <= j < |xs| && f(xs[j]) == Success(u)
    {
      assert u in multiset(r);
      var j :| 0 <= j < |ys| && ys[j] == u;
    }
    forall j | 0 <= j < |xs|
      ensures f(xs[j]).Success? && f(xs[j]).value in r
    {
      assert ys[j] in multiset(ys);
    }
  }
}
