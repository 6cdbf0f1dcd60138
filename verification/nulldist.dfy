/** Null-hypothesis distributions estimated by Monte-Carlo permutation
    (`NullDist` and `MCNullDist`).

  The permutation loop itself (relabelling the dataset and recomputing the
  measure) is not modelled: its output, one measure value or vector per
  permutation, is the `Samples` argument of `Fit`. What is modelled is what
  happens to those samples: they are arranged as a permutations × elements
  matrix, one distribution is fitted per element column, and queries apply
  the i-th distribution to the i-th query value.
 */
module NullDist {
  import opened StatsBase
  import Nonparametric
  import opened PValue

  /** The `dist_class` whose `fit` estimates the parameters of one element's
      distribution and whose instances answer `cdf`. The default is the
      non-parametric class, whose "parameters" are the samples themselves;
      any other class is an external one, given by its fit (None when the fit
      raises) and its parametric cdf. */
  datatype DistClass =
    | NonparametricClass
    | ParametricClass(fit: seq<real> -> Option<seq<real>>, cdf: (seq<real>, real) -> Value)

  /** Fitting the default class and building a distribution from the result
      gives back the empirical cdf of the fitted samples. */
  lemma NonparametricRoundTrip(samples: seq<real>, v: real)
    requires |samples| > 0
    ensures FitParams(NonparametricClass, samples).Some?
    ensures var c := DistCdf(NonparametricClass, FitParams(NonparametricClass, samples).value, v);
            c.Num? && c.x * |samples| as real == |Nonparametric.AtMostPositions(samples, v)| as real
  {
  }

  /** The class `MCNullDist` fits when none is given. */
  const DefaultDistClass := NonparametricClass
  /** The tail `NullDist` reports when none is given. */
  const DefaultNullTail := LeftTail

  /** `dist_class.fit(samples)`. The non-parametric fit never fails and
      returns the samples themselves as the parameters. */
  function FitParams(cls: DistClass, samples: seq<real>): (r: Option<seq<real>>)
    ensures cls.NonparametricClass? ==> r == Some(samples)
    ensures cls.ParametricClass? ==> r == cls.fit(samples)
    // Round trip: the distribution built from the fitted parameters counts
    // exactly the fitted samples at or below any value.
    ensures cls.NonparametricClass? && |samples| > 0 ==>
              r.Some? && forall v: real ::
                (DistCdf(cls, r.value, v).Num? &&
                 DistCdf(cls, r.value, v).x * |samples| as real
                   == |Nonparametric.AtMostPositions(samples, v)| as real)
  {
    match cls
    case NonparametricClass => Some(samples)
    case ParametricClass(fit, _) => fit(samples)
  }

  /** `dist_class(*params).cdf(v)`. A non-parametric distribution holding
      samples gives a genuine probability. */
  function DistCdf(cls: DistClass, params: seq<real>, v: real): (r: Value)
    ensures cls.NonparametricClass? ==> r == Nonparametric.Cdf(params, v)
    ensures cls.NonparametricClass? ==> (r.Num? <==> |params| > 0)
    ensures cls.NonparametricClass? && r.Num? ==> 0.0 <= r.x <= 1.0
    ensures cls.ParametricClass? ==> r == cls.cdf(params, v)
  {
    match cls
    case NonparametricClass => Nonparametric.Cdf(params, v)
    case ParametricClass(_, cdf) => cdf(params, v)
  }

  /** An `MCNullDist`: its class, its tail, and the parameters of one fitted
      distribution per element (empty before `fit` and after `clean`). */
  datatype MCNullDist = MCNullDist(cls: DistClass, tail: string, dists: seq<seq<real>>)

  /** The constructor: the tail is checked, then stored as given. */
  function New(cls: DistClass, tail: string): (r: Result<MCNullDist>)
    ensures r.Ok? <==> KnownTail(tail)
    ensures r.Err? ==> r.error == UnknownTail
    ensures r.Ok? ==> r.value.cls == cls && r.value.tail == tail && r.value.dists == []
  {
    if KnownTail(tail) then Ok(MCNullDist(cls, tail, [])) else Err(UnknownTail)
  }

  /** What the permutation loop collected: one scalar per permutation, or one
      1-D vector per permutation. */
  datatype Samples =
    | ScalarSamples(values: seq<real>)
    | VectorSamples(rows: seq<seq<real>>)

  /** Every permutation produced a vector of the same length, so that numpy
      builds a genuine two-dimensional array from them. */
  predicate WellShaped(s: Samples) {
    s.VectorSamples? ==>
      forall i, j :: 0 <= i < |s.rows| && 0 <= j < |s.rows| ==> |s.rows[i]| == |s.rows[j]|
  }

  /** Number of elements per permutation: 1 for scalar samples. */
  function Width(s: Samples): (w: nat) {
    match s
    case ScalarSamples(_) => 1
    case VectorSamples(rows) => if |rows| == 0 then 0 else |rows[0]|
  }

  /** The permutations × elements matrix: scalar samples gain an artificial
      second axis and become a single column. */
  function Matrix(s: Samples): (m: seq<seq<real>>)
    requires WellShaped(s)
    ensures forall i :: 0 <= i < |m| ==> |m[i]| == Width(s)
    // One row per permutation; a scalar sample is a one-element row.
    ensures s.ScalarSamples? ==> |m| == |s.values| && forall i :: 0 <= i < |m| ==> m[i] == [s.values[i]]
    ensures s.VectorSamples? ==> m == s.rows
  {
    match s
    case ScalarSamples(xs) => seq(|xs|, i requires 0 <= i < |xs| => [xs[i]])
    case VectorSamples(rows) => rows
  }

  /** Column `j` of a matrix: the samples of element `j`. */
  function Column(m: seq<seq<real>>, j: nat): (col: seq<real>)
    requires forall i :: 0 <= i < |m| ==> j < |m[i]|
    ensures |col| == |m|
    ensures forall i :: 0 <= i < |m| ==> col[i] == m[i][j]
  {
    seq(|m|, i requires 0 <= i < |m| => m[i][j])
  }

  /** Fits columns `0 .. n-1` in order; the first failing fit aborts. */
  function FitColumns(cls: DistClass, m: seq<seq<real>>, n: nat): (r: Result<seq<seq<real>>>)
    requires forall i :: 0 <= i < |m| ==> n <= |m[i]|
    ensures r.Ok? <==> forall j :: 0 <= j < n ==> FitParams(cls, Column(m, j)).Some?
    ensures r.Err? ==> r.error == FitFailed
    ensures r.Ok? ==> |r.value| == n
    ensures r.Ok? ==> forall j :: 0 <= j < n ==> FitParams(cls, Column(m, j)) == Some(r.value[j])
  {
    if n == 0 then Ok([])
    else
      match FitColumns(cls, m, n - 1)
      case Err(e) => Err(e)
      case Ok(ps) =>
        match FitParams(cls, Column(m, n - 1))
        case None => Err(FitFailed)
        case Some(p) => Ok(ps + [p])
  }

  /** `MCNullDist.fit` from the point where the permutation samples exist:
      one distribution per element column, replacing the previous ones. */
  function Fit(d: MCNullDist, samples: Samples): (r: Result<MCNullDist>)
    requires WellShaped(samples)
    ensures r.Err? <==>
              || |Matrix(samples)| == 0
              || exists j :: 0 <= j < Width(samples) && FitParams(d.cls, Column(Matrix(samples), j)).None?
    ensures |Matrix(samples)| == 0 ==> r.Err? && r.error == EmptySample
    ensures r.Ok? ==> r.value.cls == d.cls && r.value.tail == d.tail
    ensures r.Ok? ==> |r.value.dists| == Width(samples)
    ensures r.Ok? ==> forall j :: 0 <= j < Width(samples) ==>
              FitParams(d.cls, Column(Matrix(samples), j)) == Some(r.value.dists[j])
  {
    var m := Matrix(samples);
    if |m| == 0 then Err(EmptySample)
    else
      match FitColumns(d.cls, m, Width(samples))
      case Err(e) => Err(e)
      case Ok(ps) => Ok(d.(dists := ps))
  }

  /** Scalar samples `xs` are fitted as the single column `xs`. */
  lemma ScalarSamplesFitOneDistribution(d: MCNullDist, xs: seq<real>)
    requires |xs| > 0
    ensures Column(Matrix(ScalarSamples(xs)), 0) == xs
    ensures Fit(d, ScalarSamples(xs)).Ok? <==> FitParams(d.cls, xs).Some?
    ensures Fit(d, ScalarSamples(xs)).Ok? ==> Fit(d, ScalarSamples(xs)).value.dists == [FitParams(d.cls, xs).value]
  {
    assert Column(Matrix(ScalarSamples(xs)), 0) == xs;
  }

  /** With the default class, distribution `j` holds exactly the samples of element `j`. */
  lemma NonparametricFitStoresColumns(d: MCNullDist, samples: Samples)
    requires d.cls.NonparametricClass?
    requires WellShaped(samples)
    requires |Matrix(samples)| > 0
    ensures Fit(d, samples).Ok?
    ensures forall j :: 0 <= j < Width(samples) ==>
              Fit(d, samples).value.dists[j] == Column(Matrix(samples), j)
  {
  }

  /** `MCNullDist.cdf(x)`: a scalar is treated as a one-element array; the
      number of query values must equal the number of fitted distributions. */
  function Cdf(d: MCNullDist, x: Query): (r: Result<seq<Value>>)
    ensures r.Ok? <==> |d.dists| == |Elements(x)|
    ensures r.Err? ==> r.error == ShapeMismatch
    ensures r.Ok? ==> |r.value| == |Elements(x)|
    ensures r.Ok? ==> forall i :: 0 <= i < |r.value| ==>
              r.value[i] == DistCdf(d.cls, d.dists[i], Elements(x)[i])
  {
    var xs := Elements(x);
    if |d.dists| != |xs| then Err(ShapeMismatch)
    else Ok(seq(|xs|, i requires 0 <= i < |xs| => DistCdf(d.cls, d.dists[i], xs[i])))
  }

  /** `MCNullDist.clean`: drops the fitted distributions, keeps the settings. */
  function Clean(d: MCNullDist): (r: MCNullDist)
    ensures r.cls == d.cls && r.tail == d.tail
    ensures r.dists == []
  {
    d.(dists := [])
  }

  /** `NullDist.p(x)`: the cdf of `x` translated for the configured tail. */
  function P(d: MCNullDist, x: Query): (r: Result<Shaped<Value>>)
    ensures r.Ok? <==> |d.dists| == |Elements(x)|
    ensures r.Err? ==> r.error == ShapeMismatch
    ensures r.Ok? ==> (r.value.Scalar? <==> x.Scalar?)
    ensures r.Ok? ==> |Elements(r.value)| == |Elements(x)|
    ensures r.Ok? ==> forall i :: 0 <= i < |Elements(x)| ==>
              Elements(r.value)[i] == TailPValue(DistCdf(d.cls, d.dists[i], Elements(x)[i]), d.tail)
  {
    PValueOf(x, xs => Cdf(d, Vector(xs)), d.tail)
  }

  /** The default settings are accepted: a distribution built with them
      fits one empirical distribution per element and reports left-tail
      p-values, the fraction of samples at or below the queried value. */
  lemma DefaultsGiveLeftTailEmpiricalP(samples: Samples, x: Query)
    requires WellShaped(samples)
    requires |Matrix(samples)| > 0
    requires |Elements(x)| == Width(samples)
    ensures New(DefaultDistClass, DefaultNullTail).Ok?
    ensures var d := New(DefaultDistClass, DefaultNullTail).value;
            && Fit(d, samples).Ok?
            && P(Fit(d, samples).value, x).Ok?
            && forall i :: 0 <= i < |Elements(x)| ==>
                 Elements(P(Fit(d, samples).value, x).value)[i]
                   == Nonparametric.Cdf(Column(Matrix(samples), i), Elements(x)[i])
  {
    var d := New(DefaultDistClass, DefaultNullTail).value;
    NonparametricPValues(d, samples, x);
  }

  /** Before `fit` and after `clean`, every non-empty query fails. */
  lemma EmptyDistRejectsQueries(d: MCNullDist, x: Query)
    requires d.dists == []
    requires |Elements(x)| > 0
    ensures Cdf(d, x).Err? && P(d, x).Err?
  {
  }

  /** A distribution fitted with the default class answers every query of
      the right length with genuine probabilities, element by element from
      the empirical cdf of that element's samples. */
  lemma NonparametricPValues(d: MCNullDist, samples: Samples, x: Query)
    requires d.cls.NonparametricClass?
    requires WellShaped(samples)
    requires |Matrix(samples)| > 0
    requires |Elements(x)| == Width(samples)
    ensures Fit(d, samples).Ok?
    ensures P(Fit(d, samples).value, x).Ok?
    ensures forall i :: 0 <= i < |Elements(x)| ==>
              var p := Elements(P(Fit(d, samples).value, x).value)[i];
              && p == TailPValue(Nonparametric.Cdf(Column(Matrix(samples), i), Elements(x)[i]), d.tail)
              && p.Num? && 0.0 <= p.x <= 1.0
              && (d.tail == AnyTail ==> p.x <= 0.5)
  {
    NonparametricFitStoresColumns(d, samples);
  }
}
