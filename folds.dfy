/** The left fold the combiner's loops compute, with the facts its proofs use. */
module Folds {
  /** A left fold of `step` over `xs`, starting from `init`. */
  function FoldLeft<T, I>(xs: seq<T>, step: (I, T) -> I, init: I): I
  {
    if xs == [] then init else step(FoldLeft(xs[..|xs| - 1], step, init), xs[|xs| - 1])
  }

  lemma FoldLeftSnoc<T, I>(xs: seq<T>, x: T, step: (I, T) -> I, init: I)
    ensures FoldLeft(xs + [x], step, init) == step(FoldLeft(xs, step, init), x)
  {
    assert (xs + [x])[..|xs|] == xs;
  }

  /** Folding a concatenation is folding the second part from where the first left off. */
  lemma {:induction false} FoldLeftAppend<T, I>(xs: seq<T>, ys: seq<T>, step: (I, T) -> I, init: I)
    ensures FoldLeft(xs + ys, step, init) == FoldLeft(ys, step, FoldLeft(xs, step, init))
    decreases |ys|
  {
    if ys == [] {
      assert xs + ys == xs;
    } else {
      var front, last := ys[..|ys| - 1], ys[|ys| - 1];
      FoldLeftAppend(xs, front, step, init);
      assert (xs + ys)[..|xs + ys| - 1] == xs + front;
    }
  }
}
