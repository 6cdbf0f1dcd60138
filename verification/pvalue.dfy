/** Translation of cdf values into p-values for a chosen tail (`_pvalue`).

  The tail is kept as the string the caller passed. `_pvalue` itself does not
  validate it: a string other than 'left', 'right' or 'any' falls through all
  three branches and leaves the cdf unchanged, exactly like 'left'. Only the
  `NullDist` constructor rejects unknown tails (see module NullDist).
 */
module PValue {
  import opened StatsBase

  const LeftTail := "left"
  const RightTail := "right"
  const AnyTail := "any"

  /** The tails the `NullDist` constructor accepts. */
  predicate KnownTail(tail: string) {
    tail == LeftTail || tail == RightTail || tail == AnyTail
  }

  function Min(a: real, b: real): (m: real) {
    if a <= b then a else b
  }

  /** The p-value of one cdf value `c` for `tail`. */
  function TailPValue(c: Value, tail: string): (p: Value)
    // NaN stays NaN whatever the tail.
    ensures c.NaN? ==> p.NaN?
    // The left tail, and any unknown tail, report the cdf unchanged.
    ensures tail != RightTail && tail != AnyTail ==> p == c
    // The right tail reports the probability mass above the value.
    ensures tail == RightTail && c.Num? ==> p.Num? && p.x == 1.0 - c.x
    // 'any' reports whichever of the two tails is nearer.
    ensures tail == AnyTail && c.Num? ==> p.Num? && p.x == Min(c.x, 1.0 - c.x)
    // ... and so, for a genuine cdf value, never exceeds one half.
    ensures tail == AnyTail && c.Num? && 0.0 <= c.x <= 1.0 ==> 0.0 <= p.x <= 0.5
    // A genuine cdf value gives a genuine probability on every tail.
    ensures c.Num? && 0.0 <= c.x <= 1.0 ==> p.Num? && 0.0 <= p.x <= 1.0
  {
    if tail == LeftTail then c
    else if tail == RightTail then c.Complement()
    else if tail == AnyTail then (if c.Num? && c.x >= 0.5 then c.Complement() else c)
    else c
  }

  /** The right tail of `c` is the left tail of `1 - c`. */
  lemma RightTailMirrorsLeft(c: real)
    ensures TailPValue(Num(c), RightTail) == TailPValue(Num(1.0 - c), LeftTail)
  {
  }

  /** 'any' cannot tell a cdf value from its mirror image about one half. */
  lemma AnyTailSymmetric(c: real)
    ensures TailPValue(Num(c), AnyTail) == TailPValue(Num(1.0 - c), AnyTail)
  {
  }

  /** 'any' is the smaller of the 'left' and 'right' p-values. */
  lemma AnyTailIsNearerTail(c: real)
    ensures TailPValue(Num(c), AnyTail).x
         == Min(TailPValue(Num(c), LeftTail).x, TailPValue(Num(c), RightTail).x)
  {
  }

  /** Element-wise application of `TailPValue` to an array of cdf values. */
  function TailPValues(cs: seq<Value>, tail: string): (ps: seq<Value>)
    ensures |ps| == |cs|
    ensures forall i :: 0 <= i < |cs| ==> ps[i] == TailPValue(cs[i], tail)
  {
    if |cs| == 0 then []
    else TailPValues(cs[..|cs| - 1], tail) + [TailPValue(cs[|cs| - 1], tail)]
  }

  /** `_pvalue(x, cdf_func, tail)`: a scalar is wrapped into a one-element
      array before `cdfFunc` is applied, and the first p-value is unwrapped
      again afterwards; an array is passed through as it is. An error raised
      by `cdfFunc` propagates. */
  function PValueOf(x: Query, cdfFunc: seq<real> -> Result<seq<Value>>, tail: string): (r: Result<Shaped<Value>>)
    // Errors of the cdf propagate unchanged.
    ensures cdfFunc(Elements(x)).Err? ==> r.Err? && r.error == cdfFunc(Elements(x)).error
    // A scalar in gives a scalar out: the p-value of the first cdf value.
    ensures x.Scalar? && cdfFunc([x.v]).Ok? && |cdfFunc([x.v]).value| > 0 ==>
              r == Ok(Scalar(TailPValue(cdfFunc([x.v]).value[0], tail)))
    ensures x.Scalar? && cdfFunc([x.v]).Ok? && |cdfFunc([x.v]).value| == 0 ==>
              r == Err(IndexOutOfRange)
    // An array in gives an array of the same length as the cdf's, element by element.
    ensures x.Vector? && cdfFunc(x.vs).Ok? ==>
              r.Ok? && r.value.Vector? && |r.value.vs| == |cdfFunc(x.vs).value|
              && forall i :: 0 <= i < |r.value.vs| ==> r.value.vs[i] == TailPValue(cdfFunc(x.vs).value[i], tail)
  {
    match cdfFunc(Elements(x))
    case Err(e) => Err(e)
    case Ok(cs) =>
      var ps := TailPValues(cs, tail);
      if x.Scalar? then
        if |ps| == 0 then Err(IndexOutOfRange) else Ok(Scalar(ps[0]))
      else
        Ok(Vector(ps))
  }
}
