/** Failure-carrying values: the model's replacement for Python's ValueError. */
module Wrappers {

  datatype Option<+T> = None | Some(value: T)

  /** Applies `f` to every element and succeeds only when every application does;
      one failure anywhere makes the whole traversal fail, as a Python list
      comprehension does when one of its calls raises. */
  function CollectAll<T, U>(xs: seq<T>, f: T -> Option<U>): (r: Option<seq<U>>)
    ensures r.Some? <==> forall i :: 0 <= i < |xs| ==> f(xs[i]).Some?
    ensures r.Some? ==> |r.value| == |xs|
    ensures r.Some? ==> forall i :: 0 <= i < |xs| ==> f(xs[i]) == Some(r.value[i])
  {
    if xs == [] then Some([])
    else
      match f(xs[0])
      case None => None
      case Some(y) =>
        match CollectAll(xs[1..], f)
        case None => None
        case Some(ys) => Some([y] + ys)
  }
}
