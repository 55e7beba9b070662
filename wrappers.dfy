/** Failure-carrying values shared by every module of the model. */
module Wrappers {

  /** A value that may be absent: Python's `None` versus a present value. */
  datatype Option<+T> = None | Some(value: T) {
    predicate IsFailure() { None? }

    function PropagateFailure<U>(): Option<U>
      requires None?
    {
      None
    }

    function Extract(): T
      requires Some?
    {
      value
    }

    function GetOr(default: T): T {
      if Some? then value else default
    }
  }

  /** The outcome of a computation that may raise: `Err` carries the exception. */
  datatype Result<+T, +E> = Ok(value: T) | Err(error: E) {
    predicate IsFailure() { Err? }

    function PropagateFailure<U>(): Result<U, E>
      requires Err?
    {
      Err(error)
    }

    function Extract(): T
      requires Ok?
    {
      value
    }
  }

  /** Applies `f` to the elements in order and collects the results,
      stopping at the first failure: a Python loop that appends one result
      per element and lets the first exception escape. */
  function MapResult<A, B, E>(f: A -> Result<B, E>, xs: seq<A>): Result<seq<B>, E>
    decreases |xs|
  {
    if xs == [] then Ok([])
    else
      var init :- MapResult(f, xs[..|xs| - 1]);
      var last :- f(xs[|xs| - 1]);
      Ok(init + [last])
  }

  /** Once a prefix fails, every longer list fails with the same error. */
  lemma {:induction false} MapResultErrorStays<A, B, E>(f: A -> Result<B, E>, xs: seq<A>, n: nat)
    requires n <= |xs| && MapResult(f, xs[..n]).Err?
    ensures MapResult(f, xs) == MapResult(f, xs[..n])
    decreases |xs| - n
  {
    if n < |xs| {
      assert xs[..n + 1][..n] == xs[..n];
      MapResultErrorStays(f, xs, n + 1);
    } else {
      assert xs[..n] == xs;
    }
  }

  /** One more element: its result is appended, or its error ends the mapping. */
  lemma MapResultStep<A, B, E>(f: A -> Result<B, E>, xs: seq<A>, i: nat, done: seq<B>)
    requires i < |xs| && MapResult(f, xs[..i]) == Ok(done)
    ensures MapResult(f, xs[..i + 1]) == if f(xs[i]).Ok? then Ok(done + [f(xs[i]).value]) else Err(f(xs[i]).error)
  {
    assert xs[..i + 1][..i] == xs[..i];
  }

  /** The mapping succeeds exactly when `f` succeeds on every element. */
  lemma {:induction false} MapResultOk<A, B, E>(f: A -> Result<B, E>, xs: seq<A>)
    ensures MapResult(f, xs).Ok? <==> forall k :: 0 <= k < |xs| ==> f(xs[k]).Ok?
    decreases |xs|
  {
    if xs != [] {
      var init := xs[..|xs| - 1];
      MapResultOk(f, init);
      assert forall k :: 0 <= k < |init| ==> init[k] == xs[k];
    }
  }

  /** A successful mapping has one result per element, in order. */
  lemma {:induction false} MapResultValues<A, B, E>(f: A -> Result<B, E>, xs: seq<A>)
    requires MapResult(f, xs).Ok?
    ensures |MapResult(f, xs).value| == |xs|
    ensures forall k :: 0 <= k < |xs| ==> Ok(MapResult(f, xs).value[k]) == f(xs[k])
    decreases |xs|
  {
    if xs != [] {
      var init := xs[..|xs| - 1];
      MapResultValues(f, init);
      var r := MapResult(f, xs).value;
      assert r == MapResult(f, init).value + [r[|r| - 1]];
      forall k | 0 <= k < |xs|
        ensures Ok(r[k]) == f(xs[k])
      {
        if k < |init| {
          assert r[k] == MapResult(f, init).value[k];
          assert init[k] == xs[k];
        }
      }
    }
  }

  /** Two lists of results that `f` gives element by element, put one after
      the other, are still given element by element. */
  lemma PointwiseAppend<A, B, E>(f: A -> Result<B, E>, xs: seq<A>, ys: seq<A>, rs: seq<B>, ss: seq<B>)
    requires |rs| == |xs| && forall k :: 0 <= k < |xs| ==> Ok(rs[k]) == f(xs[k])
    requires |ss| == |ys| && forall k :: 0 <= k < |ys| ==> Ok(ss[k]) == f(ys[k])
    ensures forall k :: 0 <= k < |xs| + |ys| ==> Ok((rs + ss)[k]) == f((xs + ys)[k])
  {
    forall k | 0 <= k < |xs| + |ys|
      ensures Ok((rs + ss)[k]) == f((xs + ys)[k])
    {
      if k >= |xs| {
        assert (rs + ss)[k] == ss[k - |xs|] && (xs + ys)[k] == ys[k - |xs|];
      }
    }
  }
}
