/** Option and Result, and the traversal that a Python `for` loop whose body
    may raise amounts to: the first failure ends it. */
module Wrappers {

  datatype Option<+T> = None | Some(value: T)

  datatype Result<+T, +E> = Success(value: T) | Failure(error: E)

  /** Applies `f` to the elements of `xs` from first to last and collects the
      values; the first failure is the result. */
  function Traverse<A, B, E>(xs: seq<A>, f: A -> Result<B, E>): (r: Result<seq<B>, E>)
    ensures r.Success? ==> |r.value| == |xs|
    decreases |xs|
  {
    if |xs| == 0 then Success([])
    else
      match Traverse(xs[..|xs| - 1], f)
      case Failure(e) => Failure(e)
      case Success(ys) =>
        match f(xs[|xs| - 1])
        case Failure(e) => Failure(e)
        case Success(y) => Success(ys + [y])
  }

  /** A traversal succeeds exactly when every step does, and then it holds
      each step's value at that step's position. */
  lemma {:induction false} TraverseSucceeds<A, B, E>(xs: seq<A>, f: A -> Result<B, E>)
    ensures Traverse(xs, f).Success? <==> forall k :: 0 <= k < |xs| ==> f(xs[k]).Success?
    ensures Traverse(xs, f).Success? ==>
      forall k :: 0 <= k < |xs| ==> Traverse(xs, f).value[k] == f(xs[k]).value
    decreases |xs|
  {
    if |xs| > 0 {
      var init := xs[..|xs| - 1];
      TraverseSucceeds(init, f);
      assert forall k :: 0 <= k < |init| ==> init[k] == xs[k];
    }
  }

  /** A failed traversal carries the error of the first step that fails. */
  lemma {:induction false} TraverseFirstFailure<A, B, E>(xs: seq<A>, f: A -> Result<B, E>) returns (k: nat)
    requires Traverse(xs, f).Failure?
    ensures k < |xs| && f(xs[k]) == Failure(Traverse(xs, f).error)
    ensures forall j :: 0 <= j < k ==> f(xs[j]).Success?
    decreases |xs|
  {
    var init := xs[..|xs| - 1];
    assert forall j :: 0 <= j < |init| ==> init[j] == xs[j];
    if Traverse(init, f).Failure? {
      k := TraverseFirstFailure(init, f);
    } else {
      TraverseSucceeds(init, f);
      k := |xs| - 1;
    }
  }

  /** One more successful step extends a successful traversal of a prefix. */
  lemma TraverseStep<A, B, E>(xs: seq<A>, f: A -> Result<B, E>, i: nat, ys: seq<B>)
    requires i < |xs| && Traverse(xs[..i], f) == Success(ys) && f(xs[i]).Success?
    ensures Traverse(xs[..i + 1], f) == Success(ys + [f(xs[i]).value])
  {
    assert xs[..i + 1][..i] == xs[..i];
  }

  /** Once a prefix has failed, no later element changes the outcome. */
  lemma {:induction false} TraverseFailureSticks<A, B, E>(xs: seq<A>, f: A -> Result<B, E>, n: nat)
    requires n <= |xs| && Traverse(xs[..n], f).Failure?
    ensures Traverse(xs, f) == Traverse(xs[..n], f)
    decreases |xs| - n
  {
    if n < |xs| {
      assert xs[..n + 1][..n] == xs[..n];
      TraverseFailureSticks(xs, f, n + 1);
    } else {
      assert xs[..n] == xs;
    }
  }
}
