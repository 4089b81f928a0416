/** Sequence helpers: `FlatMap` expresses "for each element, in order, append
    whatever it produces", which is the shape of every listing loop. */
module Seqs {
  import opened Wrappers

  /** The concatenation of `f(x)` over the elements `x` of `xs`, in order. */
  function FlatMap<T, U>(xs: seq<T>, f: T -> seq<U>): seq<U>
    decreases |xs|
  {
    if |xs| == 0 then [] else FlatMap(xs[..|xs| - 1], f) + f(xs[|xs| - 1])
  }

  /** Output order follows input order: the output of a concatenation is the
      concatenation of the outputs. */
  lemma {:induction false} FlatMapAppend<T, U>(xs: seq<T>, ys: seq<T>, f: T -> seq<U>)
    ensures FlatMap(xs + ys, f) == FlatMap(xs, f) + FlatMap(ys, f)
    decreases |ys|
  {
    if |ys| > 0 {
      var zs := xs + ys;
      assert zs[..|zs| - 1] == xs + ys[..|ys| - 1];
      assert zs[|zs| - 1] == ys[|ys| - 1];
      FlatMapAppend(xs, ys[..|ys| - 1], f);
    } else {
      assert xs + ys == xs;
    }
  }

  /** Something is produced exactly when some element produces it. */
  lemma {:induction false} FlatMapMember<T, U>(xs: seq<T>, f: T -> seq<U>, u: U)
    ensures u in FlatMap(xs, f) <==> exists k :: 0 <= k < |xs| && u in f(xs[k])
    decreases |xs|
  {
    if |xs| > 0 {
      var init := xs[..|xs| - 1];
      FlatMapMember(init, f, u);
      if u in FlatMap(init, f) {
        var k :| 0 <= k < |init| && u in f(init[k]);
        assert xs[k] == init[k];
      }
      if exists k :: 0 <= k < |xs| && u in f(xs[k]) {
        var k :| 0 <= k < |xs| && u in f(xs[k]);
        if k < |xs| - 1 {
          assert init[k] == xs[k];
        }
      }
    }
  }

  /** When no element produces anything, nothing is produced. */
  lemma {:induction false} FlatMapNone<T, U>(xs: seq<T>, f: T -> seq<U>)
    requires forall k :: 0 <= k < |xs| ==> f(xs[k]) == []
    ensures FlatMap(xs, f) == []
    decreases |xs|
  {
    if |xs| > 0 {
      var init := xs[..|xs| - 1];
      assert forall k :: 0 <= k < |init| ==> init[k] == xs[k];
      FlatMapNone(init, f);
    }
  }

  /** When only the element at `k` produces anything, the output is exactly
      what it produces. */
  lemma {:induction false} FlatMapSingle<T, U>(xs: seq<T>, f: T -> seq<U>, k: int)
    requires 0 <= k < |xs|
    requires forall m :: 0 <= m < |xs| && m != k ==> f(xs[m]) == []
    ensures FlatMap(xs, f) == f(xs[k])
  {
    var before, after := xs[..k], xs[k + 1..];
    var upto := before + [xs[k]];
    assert xs == upto + after;
    assert FlatMap(before, f) == [] by {
      assert forall m :: 0 <= m < |before| ==> before[m] == xs[m];
      FlatMapNone(before, f);
    }
    assert FlatMap(after, f) == [] by {
      assert forall m :: 0 <= m < |after| ==> after[m] == xs[k + 1 + m];
      FlatMapNone(after, f);
    }
    assert FlatMap(upto, f) == f(xs[k]) by {
      assert upto[..|upto| - 1] == before;
      assert upto[|upto| - 1] == xs[k];
    }
    FlatMapAppend(upto, after, f);
  }

  /** `f` applied to every element, in order, stopping at the first failure. */
  function MapAll<T, U, E>(xs: seq<T>, f: T -> Result<U, E>): Result<seq<U>, E>
    decreases |xs|
  {
    if |xs| == 0 then
      Success([])
    else
      match MapAll(xs[..|xs| - 1], f)
      case Failure(e) => Failure(e)
      case Success(init) =>
        match f(xs[|xs| - 1])
        case Failure(e) => Failure(e)
        case Success(y) => Success(init + [y])
  }

  /** MapAll fails exactly when `f` fails on some element; otherwise its
      results are those of `f`, element by element. */
  lemma {:induction false} MapAllPerElement<T, U, E>(xs: seq<T>, f: T -> Result<U, E>)
    ensures MapAll(xs, f).Failure? <==> exists k :: 0 <= k < |xs| && f(xs[k]).Failure?
    ensures MapAll(xs, f).Success? ==>
              && |MapAll(xs, f).value| == |xs|
              && forall k :: 0 <= k < |xs| ==> f(xs[k]) == Success(MapAll(xs, f).value[k])
    decreases |xs|
  {
    if |xs| > 0 {
      var init := xs[..|xs| - 1];
      MapAllPerElement(init, f);
      assert forall k :: 0 <= k < |init| ==> init[k] == xs[k];
      if MapAll(init, f).Failure? {
        var k :| 0 <= k < |init| && f(init[k]).Failure?;
        assert f(xs[k]).Failure?;
      }
    }
  }

  /** The error MapAll stops with is the error of some element. */
  lemma {:induction false} MapAllError<T, U, E>(xs: seq<T>, f: T -> Result<U, E>)
    requires MapAll(xs, f).Failure?
    ensures exists k :: 0 <= k < |xs| && f(xs[k]) == Failure(MapAll(xs, f).error)
    decreases |xs|
  {
    var init := xs[..|xs| - 1];
    if MapAll(init, f).Failure? {
      MapAllError(init, f);
      var k :| 0 <= k < |init| && f(init[k]) == Failure(MapAll(init, f).error);
      assert xs[k] == init[k];
    } else {
      assert f(xs[|xs| - 1]) == Failure(MapAll(xs, f).error);
    }
  }
}
