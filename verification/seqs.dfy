/** Sequence helpers the script's filtering comprehensions reduce to. */
module Seqs {
  import opened Wrappers

  /** The present results of `f` over `xs`, in order: a comprehension with a filter. */
  function FilterMap<T, U>(xs: seq<T>, f: T -> Option<U>): seq<U> {
    if |xs| == 0 then []
    else (match f(xs[0]) case Some(y) => [y] case None => []) + FilterMap(xs[1..], f)
  }

  /**
   No longer than the input, and holding exactly the values `f` gives for some element.
   */
  lemma {:induction false} FilterMapSpec<T, U>(xs: seq<T>, f: T -> Option<U>)
    ensures |FilterMap(xs, f)| <= |xs|
    ensures forall y :: y in FilterMap(xs, f) <==> exists i :: 0 <= i < |xs| && f(xs[i]) == Some(y)
  {
    if |xs| > 0 {
      FilterMapSpec(xs[1..], f);
      var head := match f(xs[0]) case Some(y) => [y] case None => [];
      assert FilterMap(xs, f) == head + FilterMap(xs[1..], f);
      forall y
        ensures y in FilterMap(xs, f) <==> exists i :: 0 <= i < |xs| && f(xs[i]) == Some(y)
      {
        if y in FilterMap(xs[1..], f) {
          var i :| 0 <= i < |xs[1..]| && f(xs[1..][i]) == Some(y);
          assert xs[i + 1] == xs[1..][i];
        }
        if exists i :: 0 <= i < |xs| && f(xs[i]) == Some(y) {
          var i :| 0 <= i < |xs| && f(xs[i]) == Some(y);
          if i > 0 {
            assert xs[1..][i - 1] == xs[i];
          }
        }
      }
    }
  }

  /** The comprehension over a concatenation is the two comprehensions, in order. */
  lemma {:induction false} FilterMapAppend<T, U>(a: seq<T>, b: seq<T>, f: T -> Option<U>)
    ensures FilterMap(a + b, f) == FilterMap(a, f) + FilterMap(b, f)
  {
    if |a| == 0 {
      assert a + b == b;
    } else {
      assert (a + b)[0] == a[0] && (a + b)[1..] == a[1..] + b;
      FilterMapAppend(a[1..], b, f);
    }
  }

  /** One element contributes its image when `f` keeps it, and nothing otherwise. */
  lemma FilterMapSingle<T, U>(x: T, f: T -> Option<U>)
    ensures FilterMap([x], f) == if f(x).Some? then [f(x).value] else []
  {
    assert [x][1..] == [];
  }

  /** Every element mapped to itself: the comprehension changes nothing. */
  lemma {:induction false} FilterMapIdentity<T>(xs: seq<T>, f: T -> Option<T>)
    requires forall i :: 0 <= i < |xs| ==> f(xs[i]) == Some(xs[i])
    ensures FilterMap(xs, f) == xs
  {
    if |xs| > 0 {
      assert f(xs[0]) == Some(xs[0]);
      FilterMapIdentity(xs[1..], f);
      assert [xs[0]] + xs[1..] == xs;
    }
  }

  /** Two element functions that agree on every element give the same comprehension. */
  lemma {:induction false} FilterMapCongruent<T, U>(xs: seq<T>, f: T -> Option<U>, g: T -> Option<U>)
    requires forall i :: 0 <= i < |xs| ==> f(xs[i]) == g(xs[i])
    ensures FilterMap(xs, f) == FilterMap(xs, g)
  {
    if |xs| > 0 {
      assert f(xs[0]) == g(xs[0]);
      FilterMapCongruent(xs[1..], f, g);
    }
  }

  /** Whatever `f` gives for an element is in the comprehension. */
  lemma {:induction false} FilterMapHas<T, U>(xs: seq<T>, f: T -> Option<U>, i: nat)
    requires i < |xs| && f(xs[i]).Some?
    ensures f(xs[i]).value in FilterMap(xs, f)
  {
    var head := match f(xs[0]) case Some(y) => [y] case None => [];
    assert FilterMap(xs, f) == head + FilterMap(xs[1..], f);
    if i > 0 {
      assert xs[1..][i - 1] == xs[i];
      FilterMapHas(xs[1..], f, i - 1);
    }
  }

  /** Each value of the comprehension comes from some element. */
  lemma FilterMapFrom<T, U>(xs: seq<T>, f: T -> Option<U>, y: U) returns (i: nat)
    requires y in FilterMap(xs, f)
    ensures i < |xs| && f(xs[i]) == Some(y)
  {
    FilterMapSpec(xs, f);
    i :| 0 <= i < |xs| && f(xs[i]) == Some(y);
  }

  /** The comprehension is no longer than its input. */
  lemma {:induction false} FilterMapLength<T, U>(xs: seq<T>, f: T -> Option<U>)
    ensures |FilterMap(xs, f)| <= |xs|
  {
    if |xs| > 0 {
      FilterMapLength(xs[1..], f);
    }
  }
}
