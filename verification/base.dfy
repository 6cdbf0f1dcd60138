/** Values, queries and error results shared by the null-distribution model.

  The source works on numpy floating-point arrays. Here a number is an exact
  `real`, and the one floating-point value the source's logic branches on,
  NaN, is kept as its own case so that comparisons involving it behave as
  they do in numpy (every ordered comparison with NaN is false).
 */
module StatsBase {

  /** A numeric result: a finite number, or NaN. */
  datatype Value = Num(x: real) | NaN {

    /** `1 - v` with NaN propagating, as numpy's `1 - cdf` does. */
    function Complement(): (r: Value)
      ensures r.Num? <==> Num?
      ensures Num? ==> r.x + x == 1.0
    {
      if Num? then Num(1.0 - x) else NaN
    }

    /** `v <= t`; false for NaN. */
    predicate AtMost(t: real) {
      Num? && x <= t
    }

    /** `v > t`; false for NaN. */
    predicate Exceeds(t: real) {
      Num? && x > t
    }
  }

  /** A scalar or a 1-D array: the shape of a query and of its answer. */
  datatype Shaped<+T> = Scalar(v: T) | Vector(vs: seq<T>)

  /** The argument of a cdf or p-value query. */
  type Query = Shaped<real>

  /** The elements as a 1-D array: a scalar becomes a one-element array. */
  function Elements<T>(q: Shaped<T>): (xs: seq<T>)
    ensures q.Scalar? ==> xs == [q.v]
    ensures q.Vector? ==> xs == q.vs
  {
    match q
    case Scalar(v) => [v]
    case Vector(vs) => vs
  }

  /** The exceptions the modelled code raises, by cause. */
  datatype StatsError =
    | UnknownTail        // `tail` outside 'left', 'right', 'any'
    | UnknownTest        // `test` outside 'p-roc', 'kstest'
    | ShapeMismatch      // query length differs from the number of fitted distributions
    | EmptySample        // no permutation samples: numpy cannot reshape a 0-row matrix to (0, -1)
    | FitFailed          // the external distribution fit raised
    | IndexOutOfRange    // a scalar query whose cdf came back empty
    | NoTruePositives    // 'p-roc' found no data element under the threshold

  /** Facts about the share `m / n` of a count `m` out of `n > 0`, compared
      with the share of a larger count `k`. */
  lemma ShareBounds(m: nat, n: nat, k: nat)
    requires n > 0 && m <= k
    ensures (m as real / n as real) * n as real == m as real
    ensures 0.0 <= m as real / n as real <= k as real / n as real
    ensures m as real / n as real == 0.0 <==> m == 0
    ensures k == n ==> k as real / n as real == 1.0
  {
    assert k as real / n as real - m as real / n as real == (k - m) as real / n as real;
  }

  datatype Result<+T> = Ok(value: T) | Err(error: StatsError)

  datatype Option<+T> = None | Some(value: T)
}
