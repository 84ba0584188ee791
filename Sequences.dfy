/** Sequences computed position by position, as the scripts' `for … of` loops compute one outcome per input. */
module Sequences {

  /** `[f(xs[0], ys[0]), f(xs[1], ys[1]), …]`: one result per position, built left to right. */
  function MapPairs<A, B, C>(xs: seq<A>, ys: seq<B>, f: (A, B) -> C): (r: seq<C>)
    requires |ys| == |xs|
    ensures |r| == |xs|
  {
    if xs == [] then []
    else
      var n := |xs| - 1;
      MapPairs(xs[..n], ys[..n], f) + [f(xs[n], ys[n])]
  }

  /** The result at position `i` depends on the inputs at position `i` only. */
  lemma {:induction false} MapPairsAt<A, B, C>(xs: seq<A>, ys: seq<B>, f: (A, B) -> C, i: nat)
    requires |ys| == |xs| && i < |xs|
    ensures MapPairs(xs, ys, f)[i] == f(xs[i], ys[i])
  {
    var n := |xs| - 1;
    if i < n {
      MapPairsAt(xs[..n], ys[..n], f, i);
      assert xs[..n][i] == xs[i] && ys[..n][i] == ys[i];
    }
  }

  /** One more position extends the results by the result at that position. */
  lemma MapPairsSnoc<A, B, C>(xs: seq<A>, ys: seq<B>, f: (A, B) -> C, i: nat)
    requires |ys| == |xs| && i < |xs|
    ensures MapPairs(xs[..i + 1], ys[..i + 1], f) == MapPairs(xs[..i], ys[..i], f) + [f(xs[i], ys[i])]
  {
    assert xs[..i + 1][..i] == xs[..i] && ys[..i + 1][..i] == ys[..i];
  }
}
