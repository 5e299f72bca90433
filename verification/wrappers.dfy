/** Failure-compatible wrappers used throughout the model: an optional value
    (a neighbouring spinbox that may be absent, a colour that may be left
    unchanged) and a result that carries either a value or the reason the
    Python code would have raised. */
module Wrappers {

  datatype Option<+T> = None | Some(value: T) {

    predicate IsFailure() {
      None?
    }

    function PropagateFailure<U>(): Option<U>
      requires None?
    {
      None
    }

    function Extract(): T
      requires Some?
    {
      value
    }
  }

  datatype Result<+R, +E> = Ok(value: R) | Err(error: E) {

    predicate IsFailure() {
      Err?
    }

    function PropagateFailure<U>(): Result<U, E>
      requires Err?
    {
      Err(error)
    }

    function Extract(): R
      requires Ok?
    {
      value
    }
  }

  /** Applies `f` to every element in order and stops at the first failure,
      as a loop that raises on the first bad element does. */
  function MapAll<A, R, E(==)>(xs: seq<A>, f: A -> Result<R, E>): (r: Result<seq<R>, E>)
    ensures r.Ok? <==> forall i :: 0 <= i < |xs| ==> f(xs[i]).Ok?
    ensures r.Ok? ==> |r.value| == |xs| && forall i :: 0 <= i < |xs| ==> r.value[i] == f(xs[i]).value
    ensures r.Err? ==> exists i :: 0 <= i < |xs| && f(xs[i]).Err? && f(xs[i]).error == r.error
                                   && forall k :: 0 <= k < i ==> f(xs[k]).Ok?
  {
    if |xs| == 0 then Ok([])
    else
      var first := f(xs[0]);
      var rest := MapAll(xs[1..], f);
      assert forall i :: 1 <= i < |xs| ==> xs[i] == xs[1..][i - 1];
      if first.Err? then Err(first.error)
      else if rest.Err? then
        var i :| 0 <= i < |xs[1..]| && f(xs[1..][i]).Err? && f(xs[1..][i]).error == rest.error
                 && forall k :: 0 <= k < i ==> f(xs[1..][k]).Ok?;
        assert xs[1..][i] == xs[i + 1];
        Err(rest.error)
      else Ok([first.value] + rest.value)
  }
}
