/** Optional values and fallible results shared by every day's model.
    A Rust `unwrap` on a missing value, an `unreachable!` or an
    `unimplemented!` arm is modelled as `None` / `Err`, so that the panic
    is an outcome a contract can talk about instead of a precondition. */
module Wrappers {

  datatype Option<+T> = None | Some(value: T) {
    predicate IsFailure() { None? }

    function PropagateFailure<U>(): Option<U>
      requires None?
    {
      None
    }

    function Extract(): T
      requires Some?
    {
      value
    }
  }

  /** `Err` carries a short description of the panic the source would raise. */
  datatype Result<+T> = Ok(value: T) | Err(reason: string) {
    predicate IsFailure() { Err? }

    function PropagateFailure<U>(): Result<U>
      requires Err?
    {
      Err(reason)
    }

    function Extract(): T
      requires Ok?
    {
      value
    }
  }

  /** Apply a fallible step to every element, in order: all the results,
      or `None` as soon as one step fails (where the source panics inside
      its loop). */
  function MapAll<T, U>(xs: seq<T>, f: T -> Option<U>): (r: Option<seq<U>>)
    ensures r.Some? <==> forall i :: 0 <= i < |xs| ==> f(xs[i]).Some?
    ensures r.Some? ==> |r.value| == |xs|
    ensures r.Some? ==> forall i :: 0 <= i < |xs| ==> f(xs[i]) == Some(r.value[i])
  {
    if |xs| == 0 then Some([])
    else
      var last := f(xs[|xs| - 1]);
      match MapAll(xs[..|xs| - 1], f)
      case None => None
      case Some(vs) =>
        if last.None? then None else Some(vs + [last.value])
  }
}
