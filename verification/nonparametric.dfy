/** The non-parametric distribution: an empirical cdf over stored samples.

  `Nonparametric.fit` returns the samples themselves as the "parameters", and
  the constructor stores them flattened, so a fitted distribution is just its
  sample sequence. Its cdf at `v` is the fraction of samples not exceeding `v`.
 */
module Nonparametric {
  import opened StatsBase

  /** Number of samples that are `<= v`, counted from the back. */
  function CountAtMost(samples: seq<real>, v: real): (n: nat)
    ensures n <= |samples|
  {
    if |samples| == 0 then 0
    else CountAtMost(samples[..|samples| - 1], v) + (if samples[|samples| - 1] <= v then 1 else 0)
  }

  /** Reference definition: the positions of the samples that are `<= v`. */
  ghost function AtMostPositions(samples: seq<real>, v: real): set<int>
  {
    set i | 0 <= i < |samples| && samples[i] <= v
  }

  /** The count is the number of samples `s` with `s <= v`. */
  lemma {:induction false} CountAtMostIsSize(samples: seq<real>, v: real)
    ensures CountAtMost(samples, v) == |AtMostPositions(samples, v)|
  {
    if |samples| > 0 {
      var n := |samples| - 1;
      var front := samples[..n];
      CountAtMostIsSize(front, v);
      assert forall i :: 0 <= i < n ==> front[i] == samples[i];
      if samples[n] <= v {
        assert AtMostPositions(samples, v) == AtMostPositions(front, v) + {n};
      } else {
        assert AtMostPositions(samples, v) == AtMostPositions(front, v);
      }
    }
  }

  /** Raising the cut-off never lowers the count. */
  lemma {:induction false} CountAtMostMonotone(samples: seq<real>, v: real, w: real)
    requires v <= w
    ensures CountAtMost(samples, v) <= CountAtMost(samples, w)
  {
    if |samples| > 0 {
      CountAtMostMonotone(samples[..|samples| - 1], v, w);
    }
  }

  /** No sample is counted when all lie above `v`; all are when none does. */
  lemma {:induction false} CountAtMostExtremes(samples: seq<real>, v: real)
    ensures (forall i :: 0 <= i < |samples| ==> v < samples[i]) ==> CountAtMost(samples, v) == 0
    ensures (forall i :: 0 <= i < |samples| ==> samples[i] <= v) ==> CountAtMost(samples, v) == |samples|
  {
    if |samples| > 0 {
      var front := samples[..|samples| - 1];
      assert forall i :: 0 <= i < |front| ==> front[i] == samples[i];
      CountAtMostExtremes(front, v);
    }
  }

  /** `Nonparametric(samples).cdf(v)`: the mean of `samples <= v`.
      The mean of an empty array is NaN. */
  function Cdf(samples: seq<real>, v: real): (r: Value)
    ensures r.Num? <==> |samples| > 0
    ensures r.Num? ==> 0.0 <= r.x <= 1.0
    ensures r.Num? ==> r.x * |samples| as real == |AtMostPositions(samples, v)| as real
  {
    if |samples| == 0 then NaN
    else
      var c := CountAtMost(samples, v);
      CountAtMostIsSize(samples, v);
      ShareBounds(c, |samples|, |samples|);
      Num(c as real / |samples| as real)
  }

  /** The empirical cdf never decreases as its argument grows. */
  lemma CdfMonotone(samples: seq<real>, v: real, w: real)
    requires |samples| > 0
    requires v <= w
    ensures Cdf(samples, v).x <= Cdf(samples, w).x
  {
    CountAtMostMonotone(samples, v, w);
    ShareBounds(CountAtMost(samples, v), |samples|, CountAtMost(samples, w));
  }

  /** The empirical cdf is 0 below the smallest sample. */
  lemma CdfBelowMinimum(samples: seq<real>, v: real)
    requires |samples| > 0
    requires forall i :: 0 <= i < |samples| ==> v < samples[i]
    ensures Cdf(samples, v) == Num(0.0)
  {
    CountAtMostExtremes(samples, v);
  }

  /** The empirical cdf is 1 at or above the largest sample. */
  lemma CdfAtOrAboveMaximum(samples: seq<real>, v: real)
    requires |samples| > 0
    requires forall i :: 0 <= i < |samples| ==> samples[i] <= v
    ensures Cdf(samples, v) == Num(1.0)
  {
    CountAtMostExtremes(samples, v);
  }

  /** Every non-empty sample has a largest element. */
  lemma {:induction false} MaximumIndex(samples: seq<real>) returns (m: nat)
    requires |samples| > 0
    ensures m < |samples|
    ensures forall i :: 0 <= i < |samples| ==> samples[i] <= samples[m]
  {
    var n := |samples| - 1;
    if n == 0 {
      m := 0;
    } else {
      var front := samples[..n];
      var k := MaximumIndex(front);
      assert forall i :: 0 <= i < n ==> front[i] == samples[i];
      m := if samples[n] <= samples[k] then k else n;
    }
  }
}
