/** Two list shapes the extraction is built from: a relation that holds
    position by position between two lists, and concatenating what a
    function gives for each element of a list. */
module Seqs {
  /** `rel` holds between the elements of `xs` and `ys` position by position. */
  predicate Pairwise<X, Y>(rel: (X, Y) -> bool, xs: seq<X>, ys: seq<Y>)
    decreases |xs|
  {
    && |xs| == |ys|
    && (|xs| > 0 ==> rel(xs[0], ys[0]) && Pairwise(rel, xs[1..], ys[1..]))
  }

  /** Position by position means at every index. */
  lemma {:induction false} PairwiseAt<X, Y>(rel: (X, Y) -> bool, xs: seq<X>, ys: seq<Y>)
    requires Pairwise(rel, xs, ys)
    ensures |xs| == |ys|
    ensures forall i :: 0 <= i < |xs| ==> rel(xs[i], ys[i])
    decreases |xs|
  {
    if |xs| > 0 {
      PairwiseAt(rel, xs[1..], ys[1..]);
      forall i | 0 <= i < |xs|
        ensures rel(xs[i], ys[i])
      {
        if i > 0 {
          assert xs[i] == xs[1..][i - 1] && ys[i] == ys[1..][i - 1];
        }
      }
    }
  }

  lemma {:induction false} PairwiseAppend<X, Y>(rel: (X, Y) -> bool, a: seq<X>, c: seq<Y>, b: seq<X>, d: seq<Y>)
    requires Pairwise(rel, a, c) && Pairwise(rel, b, d)
    ensures Pairwise(rel, a + b, c + d)
    decreases |a|
  {
    if |a| == 0 {
      assert a + b == b && c + d == d;
    } else {
      PairwiseAppend(rel, a[1..], c[1..], b, d);
      assert (a + b)[1..] == a[1..] + b;
      assert (c + d)[1..] == c[1..] + d;
    }
  }

  /** `f(xs[0]) + f(xs[1]) + ...` */
  function FlatMap<X, Y>(f: X -> seq<Y>, xs: seq<X>): seq<Y>
    decreases |xs|
  {
    if |xs| == 0 then [] else f(xs[0]) + FlatMap(f, xs[1..])
  }

  /** When `f` gives at most one element each, there are at most as many results as inputs. */
  lemma {:induction false} FlatMapAtMostOne<X, Y>(f: X -> seq<Y>, xs: seq<X>)
    requires forall i :: 0 <= i < |xs| ==> |f(xs[i])| <= 1
    ensures |FlatMap(f, xs)| <= |xs|
    decreases |xs|
  {
    if |xs| > 0 {
      assert |f(xs[0])| <= 1;
      forall i | 0 <= i < |xs| - 1
        ensures |f(xs[1..][i])| <= 1
      {
        assert xs[1..][i] == xs[i + 1];
      }
      FlatMapAtMostOne(f, xs[1..]);
    }
  }

  /** When `f` gives exactly `ys[i]` for `xs[i]`, the concatenation is `ys`. */
  lemma {:induction false} FlatMapSingles<X, Y>(f: X -> seq<Y>, xs: seq<X>, ys: seq<Y>)
    requires |xs| == |ys|
    requires forall i :: 0 <= i < |xs| ==> f(xs[i]) == [ys[i]]
    ensures FlatMap(f, xs) == ys
    decreases |xs|
  {
    if |xs| > 0 {
      assert f(xs[0]) == [ys[0]];
      forall i | 0 <= i < |xs| - 1
        ensures f(xs[1..][i]) == [ys[1..][i]]
      {
        assert xs[1..][i] == xs[i + 1] && ys[1..][i] == ys[i + 1];
      }
      FlatMapSingles(f, xs[1..], ys[1..]);
      assert ys == [ys[0]] + ys[1..];
    }
  }
}
