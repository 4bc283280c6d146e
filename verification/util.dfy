/** The success/failure values that the parsers and resolvers thread through
    their results instead of throwing (lib/src/util.js), plus the Option type
    the model uses for the source's optional (`undefined`-able) fields.

    A thrown JavaScript exception is represented by `Completion.Threw`; a
    function of the model that "throws" in the source returns `Err(message)`. */
module Util {

  datatype Option<+T> = None | Some(value: T) {
    function GetOr(default: T): T {
      match this
      case Some(v) => v
      case None => default
    }
  }

  /** The outcome of running a JavaScript computation: it returns a value or throws one. */
  datatype Completion<+T, +X> = Returned(value: T) | Threw(thrown: X)

  /** `Ok`/`Err` of util.js. */
  datatype Result<+T, +E> = Ok(value: T) | Err(error: E) {

    predicate IsFailure() { Err? }

    function PropagateFailure<U>(): Result<U, E>
      requires Err?
    {
      Err(error)
    }

    function Extract(): T
      requires Ok?
    {
      value
    }

    /** `isOk()` */
    predicate IsOk() {
      match this
      case Ok(_) => true
      case Err(_) => false
    }

    /** `isErr()` */
    predicate IsErr() {
      match this
      case Ok(_) => false
      case Err(_) => true
    }

    /** `unwrap()`, defined on `Ok` only */
    function Unwrap(): T
      requires IsOk()
    {
      value
    }

    /** `unwrapErr()`, defined on `Err` only */
    function UnwrapErr(): E
      requires IsErr()
    {
      error
    }

    /** `unwrapOrThrow()`: the value of an `Ok`; an `Err` throws its stored value. */
    function UnwrapOrThrow(): Completion<T, E> {
      match this
      case Ok(v) => Returned(v)
      case Err(e) => Threw(e)
    }

    /** `unwrapErrOrThrow()`: an `Ok` throws `new Error()` (empty message); an `Err` returns its value. */
    function UnwrapErrOrThrow(): Completion<E, string> {
      match this
      case Ok(_) => Threw("")
      case Err(e) => Returned(e)
    }
  }

  /** `tryCatch(op)`: `ok(op())` when `op` returns, `err(e)` when it throws `e`. */
  function TryCatch<T, E>(op: Completion<T, E>): (r: Result<T, E>)
    ensures r.IsOk() <==> op.Returned?
    ensures op.Returned? ==> r.Unwrap() == op.value
    ensures op.Threw? ==> r.UnwrapErr() == op.thrown
  {
    match op
    case Returned(v) => Ok(v)
    case Threw(e) => Err(e)
  }

  /** `ok(v)` is an `Ok` that unwraps to `v`. */
  lemma OkLaws<T, E>(v: T)
    ensures var r: Result<T, E> := Ok(v); r.IsOk() && !r.IsErr() && r.Unwrap() == v
    ensures var r: Result<T, E> := Ok(v); r.UnwrapOrThrow() == Returned(v)
    ensures var r: Result<T, E> := Ok(v); r.UnwrapErrOrThrow().Threw?
  {
  }

  /** `err(e)` is an `Err` that unwraps to `e`. */
  lemma ErrLaws<T, E>(e: E)
    ensures var r: Result<T, E> := Err(e); r.IsErr() && !r.IsOk() && r.UnwrapErr() == e
    ensures var r: Result<T, E> := Err(e); r.UnwrapOrThrow() == Threw(e)
    ensures var r: Result<T, E> := Err(e); r.UnwrapErrOrThrow() == Returned(e)
  {
  }

  /** Catching what `unwrapOrThrow` produces gives the original result back. */
  lemma TryCatchUnwrapRoundTrip<T, E>(r: Result<T, E>)
    ensures TryCatch(r.UnwrapOrThrow()) == r
  {
  }

  /** `xs.map(f)` for an `f` that may throw: every element is mapped in order
      and the first failure is the failure of the whole map. */
  function MapResult<T, U, E>(xs: seq<T>, f: T -> Result<U, E>): (r: Result<seq<U>, E>)
    ensures r.Ok? <==> forall i :: 0 <= i < |xs| ==> f(xs[i]).Ok?
    ensures r.Ok? ==> |r.value| == |xs| && forall i :: 0 <= i < |xs| ==> f(xs[i]) == Ok(r.value[i])
    ensures r.Err? ==> exists i :: 0 <= i < |xs| && f(xs[i]) == Err(r.error) && forall j :: 0 <= j < i ==> f(xs[j]).Ok?
  {
    if |xs| == 0 then Ok([])
    else
      var first :- f(xs[0]);
      var rest := MapResult(xs[1..], f);
      assert forall i :: 1 <= i < |xs| ==> xs[i] == xs[1..][i - 1];
      if rest.Err? then
        assert exists i :: 0 <= i < |xs| && f(xs[i]) == Err(rest.error) && forall j :: 0 <= j < i ==> f(xs[j]).Ok? by {
          var k :| 0 <= k < |xs[1..]| && f(xs[1..][k]) == Err(rest.error) && forall j :: 0 <= j < k ==> f(xs[1..][j]).Ok?;
          assert f(xs[k + 1]) == Err(rest.error);
        }
        Err(rest.error)
      else
        Ok([first] + rest.value)
  }

  /** Where the elements of the two halves of a concatenation sit. */
  lemma ConcatIndices<T>(a: seq<T>, b: seq<T>)
    ensures forall i :: 0 <= i < |a| ==> (a + b)[i] == a[i]
    ensures forall i :: 0 <= i < |b| ==> (a + b)[|a| + i] == b[i]
  {
  }

  /** `xs.findIndex(p)`, absent instead of -1: the first index whose element satisfies `p`. */
  function FirstWhere<T>(xs: seq<T>, p: T -> bool): (r: Option<nat>)
    ensures r.None? <==> forall i :: 0 <= i < |xs| ==> !p(xs[i])
    ensures r.Some? ==> r.value < |xs| && p(xs[r.value]) && forall j :: 0 <= j < r.value ==> !p(xs[j])
  {
    if |xs| == 0 then None
    else if p(xs[0]) then Some(0)
    else
      var rest := FirstWhere(xs[1..], p);
      assert forall i :: 1 <= i < |xs| ==> xs[i] == xs[1..][i - 1];
      if rest.Some? then Some(rest.value + 1) else None
  }

  /** `xs.find(p)`: the first element satisfying `p`. */
  function Find<T>(xs: seq<T>, p: T -> bool): (r: Option<T>)
    ensures r.None? <==> forall i :: 0 <= i < |xs| ==> !p(xs[i])
    ensures r.Some? ==> exists i :: 0 <= i < |xs| && xs[i] == r.value && p(xs[i]) && forall j :: 0 <= j < i ==> !p(xs[j])
  {
    var i := FirstWhere(xs, p);
    if i.Some? then Some(xs[i.value]) else None
  }

  /** The present results of `f` over `xs`, in order: what a loop pushing `f(x)`
      whenever there is one collects. */
  function Collect<T, U(!new)>(xs: seq<T>, f: T -> Option<U>): (r: seq<U>)
    ensures |r| <= |xs|
    ensures forall u :: u in r <==> exists i :: 0 <= i < |xs| && f(xs[i]) == Some(u)
  {
    if |xs| == 0 then []
    else
      var rest := Collect(xs[1..], f);
      assert forall i :: 1 <= i < |xs| ==> xs[i] == xs[1..][i - 1];
      (if f(xs[0]).Some? then [f(xs[0]).value] else []) + rest
  }
}
