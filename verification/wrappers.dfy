/** Failure-compatible wrappers shared by every module of the model.
    The source signals errors with Python exceptions; the model returns
    them as values so that the error paths can be stated and proved. */
module Wrappers {

  datatype Option<+T> = None | Some(value: T) {
    predicate IsFailure() { None? }

    function PropagateFailure<U>(): Option<U>
      requires None?
    {
      None
    }

    function Extract(): T
      requires Some?
    {
      value
    }
  }

  /** The Python exception classes the modelled code raises. */
  datatype Error =
    | ValueError(msg: string)
    | KeyError(key: string)
    | IndexError(msg: string)
    | NotImplementedError(msg: string)
    | AttributeError(attr: string)
    | AssertionError(msg: string)
    | UnboundLocalError(name: string)
    | SystemExit(msg: string)
    | TypeError(msg: string)

  datatype Result<+T> = Ok(value: T) | Err(error: Error) {
    predicate IsFailure() { Err? }

    function PropagateFailure<U>(): Result<U>
      requires Err?
    {
      Err(error)
    }

    function Extract(): T
      requires Ok?
    {
      value
    }
  }

  datatype Outcome = Pass | Fail(error: Error) {
    predicate IsFailure() { Fail? }

    function PropagateFailure<U>(): Result<U>
      requires Fail?
    {
      Err(error)
    }
  }

  function Need(condition: bool, error: Error): (o: Outcome)
  {
    if condition then Pass else Fail(error)
  }

  /** `f` applied to every element, as a pandas `.map` does: the first
      element whose `f` fails raises that error. */
  function MapAll<A, B>(s: seq<A>, f: A -> Result<B>): (r: Result<seq<B>>)
    ensures r.Ok? <==> forall i :: 0 <= i < |s| ==> f(s[i]).Ok?
    ensures r.Ok? ==> |r.value| == |s| && forall i :: 0 <= i < |s| ==> r.value[i] == f(s[i]).value
    ensures r.Err? ==> exists i :: 0 <= i < |s| && f(s[i]) == Err(r.error)
                                   && forall j :: 0 <= j < i ==> f(s[j]).Ok?
    decreases |s|
  {
    if |s| == 0 then Ok([])
    else
      var head :- f(s[0]);
      var tail :- MapAll(s[1..], f);
      Ok([head] + tail)
  }

  /** A `for` loop that stops at the first element whose check does not
      pass: the result is that check's outcome, or `Ok(None)` when every
      element passed. */
  method FirstNotNone<T, F>(items: seq<T>, check: T --> Result<Option<F>>) returns (r: Result<Option<F>>)
    requires forall i :: 0 <= i < |items| ==> check.requires(items[i])
    ensures r == Ok(None) ==> forall j :: 0 <= j < |items| ==> check(items[j]) == Ok(None)
    ensures r != Ok(None) ==> exists i :: 0 <= i < |items| && check(items[i]) == r
                                          && forall j :: 0 <= j < i ==> check(items[j]) == Ok(None)
  {
    var i := 0;
    while i < |items|
      invariant 0 <= i <= |items|
      invariant forall j :: 0 <= j < i ==> check(items[j]) == Ok(None)
    {
      var outcome := check(items[i]);
      if outcome != Ok(None) {
        return outcome;
      }
      i := i + 1;
    }
    return Ok(None);
  }
}
