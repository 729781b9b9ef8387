/**
 * Keeping the present results of a per-element function, in order: the
 * shape of a `for` loop that `continue`s past some elements and appends a
 * value for the others.
 */
module Sequences {
  import opened Wrappers

  /** The values `f` yields over `xs`, in order, skipping the elements where it yields None. */
  function FilterMap<A, B>(xs: seq<A>, f: A -> Option<B>): seq<B> {
    if |xs| == 0 then []
    else
      var last := f(xs[|xs| - 1]);
      FilterMap(xs[..|xs| - 1], f) + (if last.Some? then [last.value] else [])
  }

  /** Filtering a concatenation is concatenating the filtered parts. */
  lemma {:induction false} FilterMapAppend<A, B>(xs: seq<A>, ys: seq<A>, f: A -> Option<B>)
    ensures FilterMap(xs + ys, f) == FilterMap(xs, f) + FilterMap(ys, f)
    decreases |ys|
  {
    if |ys| == 0 {
      assert xs + ys == xs;
    } else {
      var init := ys[..|ys| - 1];
      assert (xs + ys)[..|xs + ys| - 1] == xs + init;
      FilterMapAppend(xs, init, f);
    }
  }

  /**
   * The positions in `xs` of the kept elements: one strictly increasing index
   * per output value, at which `f` yields exactly that value, and every
   * position where `f` yields something is among them.
   */
  function Origins<A, B>(xs: seq<A>, f: A -> Option<B>): (idx: seq<nat>)
    ensures |idx| == |FilterMap(xs, f)| <= |xs|
    ensures forall k | 0 <= k < |idx| :: idx[k] < |xs| && f(xs[idx[k]]) == Some(FilterMap(xs, f)[k])
    ensures forall k, l | 0 <= k < l < |idx| :: idx[k] < idx[l]
    ensures forall j | 0 <= j < |xs| && f(xs[j]).Some? :: j in idx
  {
    if |xs| == 0 then []
    else
      var init := xs[..|xs| - 1];
      var last := |xs| - 1;
      var idx := Origins(init, f);
      assert forall j | 0 <= j < |init| :: init[j] == xs[j];
      if f(xs[last]).Some? then idx + [last] else idx
  }

  /** When `f` yields a value for every element, the kept values are exactly those values. */
  lemma {:induction false} FilterMapAllSome<A, B>(xs: seq<A>, f: A -> Option<B>, ys: seq<B>)
    requires |xs| == |ys|
    requires forall k | 0 <= k < |xs| :: f(xs[k]) == Some(ys[k])
    ensures FilterMap(xs, f) == ys
    decreases |xs|
  {
    if |xs| > 0 {
      var n := |xs| - 1;
      FilterMapAllSome(xs[..n], f, ys[..n]);
      assert ys == ys[..n] + [ys[n]];
    }
  }
}
