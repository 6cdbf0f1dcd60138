/** Candidate selection of `matchDistribution`: which fitted distribution
    families describe the data, best first.

  Fitting a family to the data, its parametric cdf, and the
  Kolmogorov-Smirnov test are external; each candidate arrives with the
  outcome of trying it (`Outcome`). What is modelled is the decision logic
  around them: the test-kind check, the 'p-roc' scoring against the data's
  own empirical distribution, the filter on p and NaN, and the final sort.
 */
module Matching {
  import opened StatsBase
  import Nonparametric
  import opened PValue
  import opened Lexicographic

  const PRocTest := "p-roc"
  const KsTest := "kstest"

  /** Test used when the caller passes none. */
  const DefaultTest := KsTest
  /** Threshold used when the caller passes no `p`. */
  const DefaultPThreshold: real := 0.05
  /** Tail used by 'p-roc' when the caller passes no `tail`. */
  const DefaultRocTail := AnyTail

  predicate KnownTest(test: string) {
    test == PRocTest || test == KsTest
  }

  /** What trying one candidate family gave. */
  datatype Outcome =
    | Failed      // looking the family up, fitting it or testing the fit raised
    | Fitted(params: seq<real>, cdf: real -> Value, ksD: Value, ksP: Value)
      // the fitted parameters, the fitted cdf, and the distance and p-value
      // the Kolmogorov-Smirnov test reports for this fit

  datatype Candidate = Candidate(name: string, outcome: Outcome)

  /** One element of the result list, the tuple `(D, name, params)`. */
  datatype Entry = Entry(d: real, name: string, params: seq<real>)

  // ---------------------------------------------------------------------------
  // 'p-roc' scoring

  /** `ps <= thr`, element-wise; NaN is never at or under the threshold. */
  function Flags(ps: seq<Value>, thr: real): (fs: seq<bool>)
    ensures |fs| == |ps|
    ensures forall i :: 0 <= i < |ps| ==> (fs[i] <==> ps[i].Num? && ps[i].x <= thr)
  {
    seq(|ps|, i requires 0 <= i < |ps| => ps[i].AtMost(thr))
  }

  /** `sum(fs)`: the number of set flags. */
  function CountTrue(fs: seq<bool>): (n: nat)
    ensures n <= |fs|
    ensures n == 0 <==> forall i :: 0 <= i < |fs| ==> !fs[i]
  {
    if |fs| == 0 then 0
    else CountTrue(fs[..|fs| - 1]) + (if fs[|fs| - 1] then 1 else 0)
  }

  /** Reference definition: the positions of the set flags. */
  ghost function SetPositions(fs: seq<bool>): set<int>
  {
    set i | 0 <= i < |fs| && fs[i]
  }

  /** The true-positive count is the number of set flags. */
  lemma {:induction false} CountTrueIsSize(fs: seq<bool>)
    ensures CountTrue(fs) == |SetPositions(fs)|
  {
    if |fs| > 0 {
      var n := |fs| - 1;
      var front := fs[..n];
      CountTrueIsSize(front);
      assert forall i :: 0 <= i < n ==> front[i] == fs[i];
      if fs[n] {
        assert SetPositions(fs) == SetPositions(front) + {n};
      } else {
        assert SetPositions(fs) == SetPositions(front);
      }
    }
  }

  /** `sum(abs(a - b))`: the number of positions where the flags differ. */
  function Mismatches(a: seq<bool>, b: seq<bool>): (n: nat)
    requires |a| == |b|
    ensures n <= |a|
    ensures n == 0 <==> a == b
  {
    if |a| == 0 then 0
    else
      var k := |a| - 1;
      assert a == a[..k] + [a[k]] && b == b[..k] + [b[k]];
      Mismatches(a[..k], b[..k]) + (if a[k] != b[k] then 1 else 0)
  }

  /** Reference definition: the positions where two flag arrays differ. */
  ghost function DifferingPositions(a: seq<bool>, b: seq<bool>): set<int>
    requires |a| == |b|
  {
    set i | 0 <= i < |a| && a[i] != b[i]
  }

  /** The mismatch count is the number of positions where the flags differ. */
  lemma {:induction false} MismatchesIsSize(a: seq<bool>, b: seq<bool>)
    requires |a| == |b|
    ensures Mismatches(a, b) == |DifferingPositions(a, b)|
  {
    if |a| > 0 {
      var n := |a| - 1;
      var fa, fb := a[..n], b[..n];
      MismatchesIsSize(fa, fb);
      assert Mismatches(a, b) == Mismatches(fa, fb) + (if a[n] != b[n] then 1 else 0);
      assert forall i :: 0 <= i < n ==> fa[i] == a[i] && fb[i] == b[i];
      if a[n] != b[n] {
        assert DifferingPositions(a, b) == DifferingPositions(fa, fb) + {n};
      } else {
        assert DifferingPositions(a, b) == DifferingPositions(fa, fb);
      }
    }
  }

  /** The cdf applied to every data element. */
  function CdfAt(data: seq<real>, cdf: real -> Value): (cs: seq<Value>)
    ensures |cs| == |data|
    ensures forall i :: 0 <= i < |data| ==> cs[i] == cdf(data[i])
  {
    seq(|data|, i requires 0 <= i < |data| => cdf(data[i]))
  }

  /** Which data elements the data's own empirical distribution puts at or
      under the threshold. */
  function DataFlags(data: seq<real>, tail: string, thr: real): (fs: seq<bool>)
    ensures |fs| == |data|
    ensures forall i :: 0 <= i < |data| ==>
              (fs[i] <==> TailPValue(Nonparametric.Cdf(data, data[i]), tail).AtMost(thr))
  {
    Flags(TailPValues(CdfAt(data, v => Nonparametric.Cdf(data, v)), tail), thr)
  }

  /** Which data elements a fitted cdf puts at or under the threshold. */
  function CandidateFlags(data: seq<real>, cdf: real -> Value, tail: string, thr: real): (fs: seq<bool>)
    ensures |fs| == |data|
    ensures forall i :: 0 <= i < |data| ==> (fs[i] <==> TailPValue(cdf(data[i]), tail).AtMost(thr))
  {
    Flags(TailPValues(CdfAt(data, cdf), tail), thr)
  }

  // ---------------------------------------------------------------------------
  // Scoring and filtering of candidates

  /** How candidates are scored: by the Kolmogorov-Smirnov test, or by
      'p-roc' against the data's flags and their number of true positives. */
  datatype Scoring =
    | ByKsTest
    | ByPRoc(tail: string, dataFlags: seq<bool>, positives: nat)

  predicate ValidScoring(s: Scoring, data: seq<real>) {
    s.ByPRoc? ==> |s.dataFlags| == |data| && s.positives > 0
  }

  /** The 'p-roc' distance D of a fitted cdf: the number of data elements
      on which its flags disagree with the data's, relative to the data's
      true positives. */
  function RocDistance(data: seq<real>, cdf: real -> Value, s: Scoring, thr: real): (d: real)
    requires ValidScoring(s, data) && s.ByPRoc?
    ensures d == |DifferingPositions(s.dataFlags, CandidateFlags(data, cdf, s.tail, thr))| as real
                 / s.positives as real
    ensures 0.0 <= d <= |data| as real / s.positives as real
    ensures d == 0.0 <==> s.dataFlags == CandidateFlags(data, cdf, s.tail, thr)
  {
    var fs := CandidateFlags(data, cdf, s.tail, thr);
    var m := Mismatches(s.dataFlags, fs);
    MismatchesIsSize(s.dataFlags, fs);
    ShareBounds(m, s.positives, |data|);
    m as real / s.positives as real
  }

  /** The entry a candidate contributes when it survives the filter
      `p > thr and not isnan(D)`: with 'kstest', D and p are the test's; with
      'p-roc', D is `RocDistance` and p is 1. */
  function Score(c: Candidate, data: seq<real>, s: Scoring, thr: real): (r: Option<Entry>)
    requires ValidScoring(s, data)
    ensures r.Some? <==>
              && c.outcome.Fitted?
              && (s.ByKsTest? ==> c.outcome.ksP.Exceeds(thr) && c.outcome.ksD.Num?)
              && (s.ByPRoc? ==> thr < 1.0)
    ensures r.Some? && s.ByKsTest? ==> r.value == Entry(c.outcome.ksD.x, c.name, c.outcome.params)
    ensures r.Some? && s.ByPRoc? ==>
              r.value == Entry(RocDistance(data, c.outcome.cdf, s, thr), c.name, c.outcome.params)
  {
    match c.outcome
    case Failed => None
    case Fitted(params, cdf, ksD, ksP) =>
      var (dv, p) :=
        if s.ByKsTest? then (ksD, ksP) else (Num(RocDistance(data, cdf, s, thr)), Num(1.0));
      if p.Exceeds(thr) && dv.Num? then Some(Entry(dv.x, c.name, params)) else None
  }

  /** The score of every candidate, in candidate order. */
  function Scores(cands: seq<Candidate>, data: seq<real>, s: Scoring, thr: real): (os: seq<Option<Entry>>)
    requires ValidScoring(s, data)
    ensures |os| == |cands|
    ensures forall i :: 0 <= i < |cands| ==> os[i] == Score(cands[i], data, s, thr)
  {
    seq(|cands|, i requires 0 <= i < |cands| => Score(cands[i], data, s, thr))
  }

  /** The entries of the present scores, in order. */
  function Present(os: seq<Option<Entry>>): (r: seq<Entry>)
    ensures |r| <= |os|
    ensures forall e :: e in r <==> Some(e) in os
  {
    if |os| == 0 then []
    else
      var k := |os| - 1;
      assert os == os[..k] + [os[k]];
      match os[k]
      case None => Present(os[..k])
      case Some(e) => Present(os[..k]) + [e]
  }

  /** Each present score yields its entry once: an entry occurs in the
      result as many times as it occurs among the scores. */
  lemma {:induction false} PresentMultiplicity(os: seq<Option<Entry>>, e: Entry)
    ensures multiset(Present(os))[e] == multiset(os)[Some(e)]
  {
    if |os| > 0 {
      var k := |os| - 1;
      var front := os[..k];
      PresentMultiplicity(front, e);
      assert os == front + [os[k]];
      assert multiset(os) == multiset(front) + multiset{os[k]};
      match os[k]
      case None =>
        assert Present(os) == Present(front);
      case Some(x) =>
        assert Present(os) == Present(front) + [x];
        assert multiset(Present(os)) == multiset(Present(front)) + multiset{x};
    }
  }

  /** The surviving entries, in candidate order. */
  function Survivors(cands: seq<Candidate>, data: seq<real>, s: Scoring, thr: real): (r: seq<Entry>)
    requires ValidScoring(s, data)
    ensures |r| <= |cands|
    ensures forall e :: e in r <==>
              exists i :: 0 <= i < |cands| && Score(cands[i], data, s, thr) == Some(e)
    ensures forall e :: multiset(r)[e] == multiset(Scores(cands, data, s, thr))[Some(e)]
  {
    var os := Scores(cands, data, s, thr);
    forall e ensures multiset(Present(os))[e] == multiset(os)[Some(e)] {
      PresentMultiplicity(os, e);
    }
    assert forall e :: Some(e) in os <==> exists i :: 0 <= i < |cands| && os[i] == Some(e);
    Present(os)
  }

  // ---------------------------------------------------------------------------
  // Sorting: Python orders the tuples (D, name, params) lexicographically

  /** `a < b` for the tuples `(a.d, a.name, a.params)` and `(b.d, b.name, b.params)`. */
  predicate EntryLess(a: Entry, b: Entry) {
    || a.d < b.d
    || (a.d == b.d && LexLess(a.name, b.name, CharLess))
    || (a.d == b.d && a.name == b.name && LexLess(a.params, b.params, RealLess))
  }

  predicate EntryLeq(a: Entry, b: Entry) {
    a == b || EntryLess(a, b)
  }

  lemma EntryLeqTotal(a: Entry, b: Entry)
    ensures EntryLeq(a, b) || EntryLeq(b, a)
  {
    CharLessIsStrictTotal();
    RealLessIsStrictTotal();
    LexConnected(a.name, b.name, CharLess);
    LexConnected(a.params, b.params, RealLess);
  }

  lemma EntryLeqAntisymmetric(a: Entry, b: Entry)
    requires EntryLeq(a, b) && EntryLeq(b, a)
    ensures a == b
  {
    CharLessIsStrictTotal();
    RealLessIsStrictTotal();
    LexAsymmetric(a.name, b.name, CharLess);
    LexAsymmetric(a.params, b.params, RealLess);
  }

  lemma EntryLeqTransitive(a: Entry, b: Entry, c: Entry)
    requires EntryLeq(a, b) && EntryLeq(b, c)
    ensures EntryLeq(a, c)
  {
    CharLessIsStrictTotal();
    RealLessIsStrictTotal();
    if a != b && b != c && a.d == b.d && b.d == c.d {
      LexAsymmetric(a.name, a.name, CharLess);
      LexAsymmetric(b.name, b.name, CharLess);
      if a.name == b.name && b.name == c.name {
        LexTransitive(a.params, b.params, c.params, RealLess);
      } else if a.name != b.name && b.name != c.name {
        LexTransitive(a.name, b.name, c.name, CharLess);
      }
    }
  }

  /** Ascending order, the order of `list.sort()`. */
  predicate Sorted(s: seq<Entry>) {
    forall i, j :: 0 <= i < j < |s| ==> EntryLeq(s[i], s[j])
  }

  /** A list is sorted when its head precedes every element of a sorted tail. */
  lemma SortedCons(h: Entry, t: seq<Entry>)
    requires Sorted(t)
    requires forall x :: x in t ==> EntryLeq(h, x)
    ensures Sorted([h] + t)
  {
    var s := [h] + t;
    forall i, j | 0 <= i < j < |s| ensures EntryLeq(s[i], s[j]) {
      assert s[j] == t[j - 1];
      if i == 0 {
        assert t[j - 1] in t;
      } else {
        assert s[i] == t[i - 1];
      }
    }
  }

  /** An entry at or before the head of a sorted list precedes all of it. */
  lemma LeqHeadLeqAll(e: Entry, s: seq<Entry>)
    requires Sorted(s) && |s| > 0
    requires EntryLeq(e, s[0])
    ensures forall x :: x in s ==> EntryLeq(e, x)
  {
    forall x | x in s ensures EntryLeq(e, x) {
      SortedHeadIsLeast(s, x);
      EntryLeqTransitive(e, s[0], x);
    }
  }

  /** Putting the head back in front of the tail with `e` inserted keeps
      the list sorted, when `e` does not precede the head. */
  lemma HeadBeforeInserted(e: Entry, s: seq<Entry>, rest: seq<Entry>)
    requires Sorted(s) && |s| > 0
    requires !EntryLeq(e, s[0])
    requires Sorted(rest) && multiset(rest) == multiset(s[1..]) + multiset{e}
    ensures Sorted([s[0]] + rest)
    ensures multiset([s[0]] + rest) == multiset(s) + multiset{e}
  {
    EntryLeqTotal(e, s[0]);
    assert s == [s[0]] + s[1..];
    forall x | x in rest ensures EntryLeq(s[0], x) {
      assert x in multiset(rest);
      if x != e {
        assert x in s[1..];
        SortedHeadIsLeast(s, x);
      }
    }
    SortedCons(s[0], rest);
  }

  /** Inserts `e` into a sorted list. */
  function Insert(e: Entry, s: seq<Entry>): (r: seq<Entry>)
    requires Sorted(s)
    ensures Sorted(r)
    ensures multiset(r) == multiset(s) + multiset{e}
  {
    if |s| == 0 then [e]
    else if EntryLeq(e, s[0]) then
      LeqHeadLeqAll(e, s);
      SortedCons(e, s);
      [e] + s
    else
      SortedTail(s);
      var rest := Insert(e, s[1..]);
      HeadBeforeInserted(e, s, rest);
      [s[0]] + rest
  }

  /** `list.sort()`: the entries in ascending order. */
  function SortEntries(s: seq<Entry>): (r: seq<Entry>)
    ensures Sorted(r)
    ensures multiset(r) == multiset(s)
  {
    if |s| == 0 then []
    else
      assert s == s[..|s| - 1] + [s[|s| - 1]];
      Insert(s[|s| - 1], SortEntries(s[..|s| - 1]))
  }

  /** The head of a sorted list is its least element. */
  lemma SortedHeadIsLeast(s: seq<Entry>, x: Entry)
    requires Sorted(s)
    requires x in s
    ensures EntryLeq(s[0], x)
  {
    var i :| 0 <= i < |s| && s[i] == x;
    if i > 0 {
      assert EntryLeq(s[0], s[i]);
    }
  }

  /** Removing the head leaves a sorted list holding the remaining elements. */
  lemma SortedTail(s: seq<Entry>)
    requires Sorted(s) && |s| > 0
    ensures Sorted(s[1..])
    ensures multiset(s[1..]) == multiset(s) - multiset{s[0]}
  {
    assert s == [s[0]] + s[1..];
    forall i, j | 0 <= i < j < |s| - 1
      ensures EntryLeq(s[1..][i], s[1..][j])
    {
      assert s[1..][i] == s[i + 1] && s[1..][j] == s[j + 1];
    }
  }

  /** Two sorted lists with the same elements start with the same element. */
  lemma SortedPermutationsShareHead(a: seq<Entry>, b: seq<Entry>)
    requires Sorted(a) && Sorted(b) && |a| > 0
    requires multiset(a) == multiset(b)
    ensures |b| > 0 && a[0] == b[0]
  {
    assert |b| == |multiset(b)| == |a|;
    assert a[0] in multiset(b) && b[0] in multiset(a);
    SortedHeadIsLeast(b, a[0]);
    SortedHeadIsLeast(a, b[0]);
    EntryLeqAntisymmetric(a[0], b[0]);
  }

  /** The order is total, so the sorted arrangement of a list is unique:
      any sorted permutation of the survivors is the result. */
  lemma {:induction false} SortedPermutationUnique(a: seq<Entry>, b: seq<Entry>)
    requires Sorted(a) && Sorted(b)
    requires multiset(a) == multiset(b)
    ensures a == b
  {
    if |a| == 0 {
      assert |multiset(b)| == 0;
    } else {
      SortedPermutationsShareHead(a, b);
      SortedTail(a);
      SortedTail(b);
      SortedPermutationUnique(a[1..], b[1..]);
      assert a == [a[0]] + a[1..] && b == [b[0]] + b[1..];
    }
  }

  // ---------------------------------------------------------------------------
  // matchDistribution

  /** The scoring 'p-roc' uses for `data`. */
  function RocScoring(data: seq<real>, tail: string, thr: real): (s: Scoring)
    ensures s.ByPRoc? && s.tail == tail && s.dataFlags == DataFlags(data, tail, thr)
    ensures s.positives == CountTrue(DataFlags(data, tail, thr))
    ensures s.positives == |SetPositions(s.dataFlags)|
  {
    var flags := DataFlags(data, tail, thr);
    CountTrueIsSize(flags);
    ByPRoc(tail, flags, CountTrue(flags))
  }

  /** `matchDistribution(data, test, distributions, p=thr, tail=tail)` over
      the given candidates: the surviving `(D, name, params)` entries, sorted
      ascending. 'p-roc' fails when no data element is under the threshold. */
  function MatchDistribution(data: seq<real>, test: string, thr: real, tail: string, cands: seq<Candidate>)
    : (r: Result<seq<Entry>>)
    ensures !KnownTest(test) ==> r.Err? && r.error == UnknownTest
    ensures test == KsTest ==> r.Ok?
    ensures test == PRocTest ==>
              (r.Err? <==> forall i :: 0 <= i < |data| ==> !DataFlags(data, tail, thr)[i])
    ensures r.Err? && test == PRocTest ==> r.error == NoTruePositives
    ensures r.Ok? ==> Sorted(r.value)
    ensures test == KsTest ==>
              multiset(r.value) == multiset(Survivors(cands, data, ByKsTest, thr))
    ensures test == PRocTest && r.Ok? ==>
              multiset(r.value) == multiset(Survivors(cands, data, RocScoring(data, tail, thr), thr))
  {
    if !KnownTest(test) then Err(UnknownTest)
    else if test == PRocTest then
      var s := RocScoring(data, tail, thr);
      if s.positives == 0 then Err(NoTruePositives)
      else Ok(SortEntries(Survivors(cands, data, s, thr)))
    else
      Ok(SortEntries(Survivors(cands, data, ByKsTest, thr)))
  }

  /** A successful selection holds exactly the entries some candidate scores. */
  lemma SelectedIffScored(data: seq<real>, test: string, thr: real, tail: string, cands: seq<Candidate>, e: Entry)
    requires test == KsTest || (test == PRocTest && CountTrue(DataFlags(data, tail, thr)) > 0)
    ensures var s := if test == KsTest then ByKsTest else RocScoring(data, tail, thr);
            var r := MatchDistribution(data, test, thr, tail, cands);
            && r.Ok?
            && (e in r.value <==> exists i :: 0 <= i < |cands| && Score(cands[i], data, s, thr) == Some(e))
  {
    var s := if test == KsTest then ByKsTest else RocScoring(data, tail, thr);
    var r := MatchDistribution(data, test, thr, tail, cands);
    assert e in r.value <==> e in multiset(Survivors(cands, data, s, thr));
  }

  /** With 'kstest', an entry is in the result exactly when some candidate
      was fitted with a Kolmogorov-Smirnov p above the threshold and a
      distance that is a number; the entry carries that distance. */
  lemma KsTestSelection(data: seq<real>, thr: real, tail: string, cands: seq<Candidate>, e: Entry)
    ensures var r := MatchDistribution(data, KsTest, thr, tail, cands);
            r.Ok? &&
            (e in r.value <==>
               exists i :: 0 <= i < |cands| && cands[i].outcome.Fitted? && cands[i].name == e.name
                 && cands[i].outcome.ksP.Exceeds(thr) && cands[i].outcome.ksD == Num(e.d)
                 && cands[i].outcome.params == e.params)
  {
    SelectedIffScored(data, KsTest, thr, tail, cands, e);
    forall i | 0 <= i < |cands|
      ensures Score(cands[i], data, ByKsTest, thr) == Some(e) <==>
                && cands[i].outcome.Fitted? && cands[i].name == e.name
                && cands[i].outcome.ksP.Exceeds(thr) && cands[i].outcome.ksD == Num(e.d)
                && cands[i].outcome.params == e.params
    {
    }
  }

  /** With 'p-roc' and at least one true positive, an entry is in the
      result exactly when some candidate was fitted, the threshold is below 1
      (the fixed p), and the entry carries that candidate's distance. */
  lemma PRocSelection(data: seq<real>, thr: real, tail: string, cands: seq<Candidate>, e: Entry)
    requires CountTrue(DataFlags(data, tail, thr)) > 0
    ensures var r := MatchDistribution(data, PRocTest, thr, tail, cands);
            r.Ok? &&
            (e in r.value <==>
               exists i :: 0 <= i < |cands| && cands[i].outcome.Fitted? && thr < 1.0
                 && e == Entry(RocDistance(data, cands[i].outcome.cdf, RocScoring(data, tail, thr), thr),
                               cands[i].name, cands[i].outcome.params))
  {
    var s := RocScoring(data, tail, thr);
    SelectedIffScored(data, PRocTest, thr, tail, cands, e);
    forall i | 0 <= i < |cands|
      ensures Score(cands[i], data, s, thr) == Some(e) <==>
                && cands[i].outcome.Fitted? && thr < 1.0
                && e == Entry(RocDistance(data, cands[i].outcome.cdf, s, thr), cands[i].name, cands[i].outcome.params)
    {
      PRocScoreIsDistance(cands[i], data, s, thr, e);
    }
  }

  /** Under 'p-roc', a candidate scores `e` exactly when it was fitted, the
      threshold is below the fixed p of 1, and `e` carries its distance. */
  lemma PRocScoreIsDistance(c: Candidate, data: seq<real>, s: Scoring, thr: real, e: Entry)
    requires ValidScoring(s, data) && s.ByPRoc?
    ensures Score(c, data, s, thr) == Some(e) <==>
              && c.outcome.Fitted? && thr < 1.0
              && e == Entry(RocDistance(data, c.outcome.cdf, s, thr), c.name, c.outcome.params)
  {
  }

  /** With 'p-roc' and a threshold of 1 or more, nothing survives: p is
      always 1. */
  lemma PRocHighThresholdSelectsNothing(data: seq<real>, thr: real, tail: string, cands: seq<Candidate>)
    requires thr >= 1.0
    ensures var r := MatchDistribution(data, PRocTest, thr, tail, cands);
            r.Ok? ==> r.value == []
  {
    var r := MatchDistribution(data, PRocTest, thr, tail, cands);
    if r.Ok? {
      var sv := Survivors(cands, data, RocScoring(data, tail, thr), thr);
      assert |sv| == 0;
      assert |multiset(r.value)| == 0;
    }
  }

  /** A cdf that agrees with the data's empirical cdf on every data element
      flags exactly the data's own flags. */
  lemma AgreeingCdfFlagsAsData(data: seq<real>, thr: real, tail: string, cdf: real -> Value)
    requires forall i :: 0 <= i < |data| ==> cdf(data[i]) == Nonparametric.Cdf(data, data[i])
    ensures CandidateFlags(data, cdf, tail, thr) == DataFlags(data, tail, thr)
  {
    var fs := CandidateFlags(data, cdf, tail, thr);
    var ds := DataFlags(data, tail, thr);
    forall i | 0 <= i < |data| ensures fs[i] == ds[i] {
      assert cdf(data[i]) == Nonparametric.Cdf(data, data[i]);
    }
  }

  /** With 'p-roc', a fitted candidate whose cdf agrees with the data's
      empirical cdf on every data element scores a perfect D = 0. */
  lemma PRocPerfectFitScoresZero(data: seq<real>, thr: real, tail: string, c: Candidate)
    requires c.outcome.Fitted? && thr < 1.0
    requires forall i :: 0 <= i < |data| ==> c.outcome.cdf(data[i]) == Nonparametric.Cdf(data, data[i])
    requires CountTrue(DataFlags(data, tail, thr)) > 0
    ensures Score(c, data, RocScoring(data, tail, thr), thr) == Some(Entry(0.0, c.name, c.outcome.params))
  {
    var s := RocScoring(data, tail, thr);
    AgreeingCdfFlagsAsData(data, thr, tail, c.outcome.cdf);
  }

  /** Called with its defaults (test 'kstest', threshold 0.05), selection
      keeps exactly the fitted candidates whose test p exceeds 0.05. */
  lemma DefaultsSelectByKsTest(data: seq<real>, cands: seq<Candidate>, e: Entry)
    ensures var r := MatchDistribution(data, DefaultTest, DefaultPThreshold, DefaultRocTail, cands);
            r.Ok? &&
            (e in r.value <==>
               exists i :: 0 <= i < |cands| && cands[i].outcome.Fitted? && cands[i].name == e.name
                 && cands[i].outcome.ksP.Exceeds(0.05) && cands[i].outcome.ksD == Num(e.d)
                 && cands[i].outcome.params == e.params)
  {
    KsTestSelection(data, DefaultPThreshold, DefaultRocTail, cands, e);
  }

  /** With 'p-roc' and its defaults (threshold 0.05, tail 'any'), the
      threshold is below the fixed p of 1, so every fitted candidate
      survives with its distance. */
  lemma PRocDefaultsKeepEveryFit(data: seq<real>, cands: seq<Candidate>, i: int)
    requires |data| > 0
    requires 0 <= i < |cands| && cands[i].outcome.Fitted?
    ensures var r := MatchDistribution(data, PRocTest, DefaultPThreshold, DefaultRocTail, cands);
            && r.Ok?
            && Entry(RocDistance(data, cands[i].outcome.cdf, RocScoring(data, AnyTail, 0.05), 0.05),
                     cands[i].name, cands[i].outcome.params) in r.value
  {
    assert CountTrue(DataFlags(data, DefaultRocTail, DefaultPThreshold)) > 0 by {
      NonEmptyDataHasTruePositive(data, DefaultRocTail, DefaultPThreshold);
    }
    var e := Entry(RocDistance(data, cands[i].outcome.cdf, RocScoring(data, AnyTail, 0.05), 0.05),
                   cands[i].name, cands[i].outcome.params);
    PRocSelection(data, DefaultPThreshold, DefaultRocTail, cands, e);
  }

  /** With the 'any' or 'right' tail and a threshold of at least 0, the
      largest data element has empirical cdf 1 and so p-value 0: non-empty
      data always has a true positive, and the no-true-positives error can
      only arise from empty data. */
  lemma NonEmptyDataHasTruePositive(data: seq<real>, tail: string, thr: real)
    requires |data| > 0
    requires tail == AnyTail || tail == RightTail
    requires thr >= 0.0
    ensures CountTrue(DataFlags(data, tail, thr)) > 0
  {
    var m := Nonparametric.MaximumIndex(data);
    Nonparametric.CdfAtOrAboveMaximum(data, data[m]);
    assert DataFlags(data, tail, thr)[m];
  }
}
