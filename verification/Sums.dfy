/** Sums of finite sequences of naturals: how a count over all threads reacts to
    a change in one thread, or in every thread that a wake-up reaches. */
module Sums {
  import opened Arithmetic

  function Sum(xs: seq<nat>): nat {
    if xs == [] then 0 else Sum(xs[..|xs| - 1]) + xs[|xs| - 1]
  }

  lemma {:induction false} SumUpdate(xs: seq<nat>, k: nat, v: nat)
    requires k < |xs|
    ensures Sum(xs[k := v]) == Sum(xs) - xs[k] + v
    ensures xs[k] <= Sum(xs)
  {
    var n := |xs| - 1;
    if k < n {
      SumUpdate(xs[..n], k, v);
      assert xs[k := v][..n] == xs[..n][k := v];
    } else {
      assert xs[k := v][..n] == xs[..n];
    }
  }

  lemma {:induction false} SumOfZeros(xs: seq<nat>)
    requires forall k :: 0 <= k < |xs| ==> xs[k] == 0
    ensures Sum(xs) == 0
  {
    if xs != [] {
      SumOfZeros(xs[..|xs| - 1]);
    }
  }

  /** A sum of zeros and ones counts the ones. */
  lemma {:induction false} SumCounts(xs: seq<nat>, ones: set<nat>)
    requires forall k :: 0 <= k < |xs| ==> xs[k] == if k in ones then 1 else 0
    requires forall k <- ones :: k < |xs|
    ensures Sum(xs) == |ones|
  {
    if xs != [] {
      var n := |xs| - 1;
      SumCounts(xs[..n], ones - {n});
    }
  }

  lemma {:induction false} SumMonotone(xs: seq<nat>, ys: seq<nat>)
    requires |xs| == |ys|
    requires forall k :: 0 <= k < |xs| ==> xs[k] <= ys[k]
    ensures Sum(xs) <= Sum(ys)
  {
    if xs != [] {
      SumMonotone(xs[..|xs| - 1], ys[..|ys| - 1]);
    }
  }

  lemma {:induction false} SumStrictlyMonotone(xs: seq<nat>, ys: seq<nat>, at: nat)
    requires |xs| == |ys| && at < |xs| && xs[at] < ys[at]
    requires forall k :: 0 <= k < |xs| ==> xs[k] <= ys[k]
    ensures Sum(xs) < Sum(ys)
  {
    var n := |xs| - 1;
    if at < n {
      SumStrictlyMonotone(xs[..n], ys[..n], at);
    } else {
      SumMonotone(xs[..n], ys[..n]);
    }
  }

  lemma {:induction false} SumGrowthBounded(xs: seq<nat>, ys: seq<nat>, d: nat)
    requires |xs| == |ys|
    requires forall k :: 0 <= k < |xs| ==> ys[k] <= xs[k] + d
    ensures Sum(ys) <= Sum(xs) + d * |xs|
  {
    if xs != [] {
      var n := |xs| - 1;
      SumGrowthBounded(xs[..n], ys[..n], d);
      Distribute(d, n, 1);
    }
  }

  lemma {:induction false} SumOfConstant(xs: seq<nat>, v: nat)
    requires forall k :: 0 <= k < |xs| ==> xs[k] == v
    ensures Sum(xs) == v * |xs|
  {
    if xs != [] {
      SumOfConstant(xs[..|xs| - 1], v);
      Distribute(v, |xs| - 1, 1);
    }
  }
}
