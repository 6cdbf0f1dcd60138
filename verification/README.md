# Null-hypothesis distributions of PyMVPA, modelled in Dafny

This project models the statistical bookkeeping in PyMVPA's
`mvpa/clfs/stats.py`. PyMVPA uses these distributions to judge whether a
classifier's performance on brain-imaging data is significant. The model
covers four parts:

- **The empirical distribution** (`Nonparametric`). Its cdf at `v` is the
  fraction of the stored samples that are `<= v`.
- **The p-value translation** (`_pvalue`, `NullDist.__init__`, `NullDist.p`).
  It reports the left tail, the right tail, or whichever tail is nearer
  ('any'). It works element by element and keeps a scalar a scalar.
- **Per-element distributions** (`MCNullDist.fit`, `cdf`, `clean`). A
  permutations × elements sample matrix gets one fitted distribution per
  element column. A query applies distribution `i` to value `i`.
- **Candidate selection** (`matchDistribution`). It drops the candidate
  families that failed, or whose p is at or under the threshold, or whose
  distance D is NaN. It sorts the survivors by `(D, name, params)`. The
  'p-roc' test scores D against the data's own empirical distribution.

Numbers are exact `real`s. Computed values (cdf results, p-values and the
Kolmogorov-Smirnov outputs) may be NaN. NaN is an explicit case of
`StatsBase.Value` there, and every comparison with it is false, as in numpy.
Inputs (samples, queries and `matchDistribution`'s data) are plain reals. Exceptions become
`Result.Err` values, tagged with their cause.

External pieces come in as parameters:
- the permutation loop's output, as a `NullDist.Samples` value;
- a parametric class's fit and cdf, as functions in `NullDist.DistClass`;
- the outcome of trying each candidate family in `matchDistribution`, as a
  `Matching.Outcome`.

Files:
- `base.dfy`: values, queries, errors.
- `nonparametric.dfy`: the empirical cdf.
- `pvalue.dfy`: tails and `_pvalue`.
- `nulldist.dfy`: `MCNullDist`.
- `lexicographic.dfy`: Python's order on strings and tuples.
- `matching.dfy`: `matchDistribution`.

Behaviour of the code that the model keeps on purpose:
- `_pvalue` does not check its tail. Any string other than 'left', 'right'
  and 'any' leaves the cdf unchanged, exactly as 'left' does. Only the
  `NullDist` constructor rejects unknown tails, and `matchDistribution`
  passes its `tail` argument to `_pvalue` without that check.
- `MCNullDist.fit` with zero permutations fails. numpy cannot reshape a
  0-row array to `(0, -1)`. This gives `Err(EmptySample)`.
- A vector measure with zero elements fits zero distributions. Only the
  empty query then succeeds.
- 'p-roc' fixes p at 1. With a threshold of 1 or more, it therefore always
  returns an empty list.

## Model

| member | source | states |
|---|---|---|
| `Nonparametric.CountAtMostIsSize` | mvpa/clfs/stats.py:40 | the count the cdf uses equals the number of positions holding a sample `<= v` |
| `Nonparametric.Cdf` | mvpa/clfs/stats.py:28-40 | the cdf is defined exactly when samples exist (NaN otherwise); it lies in [0,1]; times n it is the number of samples `<= v` |
| `Nonparametric.CdfMonotone` | mvpa/clfs/stats.py:37-40 | the empirical cdf never decreases as `v` grows |
| `Nonparametric.CdfBelowMinimum` | mvpa/clfs/stats.py:37-40 | the cdf is 0 below every sample |
| `Nonparametric.CdfAtOrAboveMaximum` | mvpa/clfs/stats.py:37-40 | the cdf is 1 at or above every sample |
| `PValue.TailPValue` | mvpa/clfs/stats.py:51-57 | 'left' and unknown tails keep the cdf; 'right' gives `1 - cdf`; 'any' gives the nearer tail `min(cdf, 1 - cdf)`, which lies in [0, 0.5] for a cdf in [0,1]; NaN stays NaN |
| `PValue.RightTailMirrorsLeft` | mvpa/clfs/stats.py:51-54 | the right tail at `c` equals the left tail at `1 - c` |
| `PValue.AnyTailSymmetric` | mvpa/clfs/stats.py:55-57 | 'any' gives the same p-value at `c` and at `1 - c` |
| `PValue.AnyTailIsNearerTail` | mvpa/clfs/stats.py:51-57 | 'any' equals the smaller of the 'left' and 'right' p-values |
| `PValue.TailPValues` | mvpa/clfs/stats.py:50-57 | the translation keeps the length, and entry i depends only on cdf value i |
| `PValue.PValueOf` | mvpa/clfs/stats.py:43-60 | a scalar gives a scalar, the p-value of the first cdf value; an array gives an array as long as the cdf's; a cdf error propagates; an empty cdf for a scalar is an index error |
| `NullDist.New` | mvpa/clfs/stats.py:84-89 | construction succeeds exactly for the tails 'left', 'right', 'any', stores the tail unchanged with no distributions, and otherwise fails with an unknown-tail error |
| `NullDist.FitParams` | mvpa/clfs/stats.py:33-34 | the default class's fit never fails, and the distribution built from its parameters counts exactly the fitted samples at or below any value (a round trip to the empirical cdf); another class's fit is its own |
| `NullDist.NonparametricRoundTrip` | mvpa/clfs/stats.py:28-40 | fitting the default class to non-empty samples succeeds, and the distribution built from the result has cdf at `v` equal to the share of those samples `<= v` |
| `NullDist.DistCdf` | mvpa/clfs/stats.py:259 | a default-class distribution answers with the empirical cdf of its samples, which is a number exactly when it holds samples and then lies in [0,1]; another class answers with its own cdf |
| `NullDist.Matrix` | mvpa/clfs/stats.py:216-226 | the sample matrix has one row per permutation, each as wide as one measure result; a scalar sample becomes a one-element row, and vector samples are kept as they are |
| `NullDist.FitColumns` | mvpa/clfs/stats.py:226-233 | fitting succeeds exactly when every column's fit does; it then yields one parameter set per column, the j-th fitted to column j |
| `NullDist.Fit` | mvpa/clfs/stats.py:212-234 | zero permutations or a failing column fit give an error; otherwise there is one distribution per element, the j-th fitted to column j of the sample matrix, and class and tail are kept |
| `NullDist.ScalarSamplesFitOneDistribution` | mvpa/clfs/stats.py:216-226 | scalar samples of length k form a single k × 1 column, so fitting yields exactly one distribution, fitted to all k samples |
| `NullDist.NonparametricFitStoresColumns` | mvpa/clfs/stats.py:228-233 | with the default class, fitting never fails once samples exist, and distribution j stores exactly element j's samples |
| `NullDist.Cdf` | mvpa/clfs/stats.py:246-260 | a query succeeds exactly when its length (1 for a scalar) equals the number of distributions, and otherwise fails with a shape error; result i is distribution i's cdf at value i |
| `NullDist.Clean` | mvpa/clfs/stats.py:263-271 | cleaning removes every distribution and keeps class and tail |
| `NullDist.P` | mvpa/clfs/stats.py:104-113 | p succeeds exactly when the query length matches; it keeps the query's shape and length; entry i is the tail translation of distribution i's cdf at value i |
| `NullDist.EmptyDistRejectsQueries` | mvpa/clfs/stats.py:253-256 | before fitting and after cleaning, every non-empty cdf or p query fails |
| `NullDist.NonparametricPValues` | mvpa/clfs/stats.py:212-260 | after a default-class fit, a query of matching length succeeds; each p-value is element i's empirical cdf after tail translation, lies in [0,1], and is at most 0.5 for 'any' |
| `NullDist.DefaultsGiveLeftTailEmpiricalP` | mvpa/clfs/stats.py:146 | built with the defaults (the non-parametric class and the left tail of `NullDist`), construction and fitting succeed, and p for a query of matching length is, element by element, the fraction of that element's samples at or below the queried value |
| `Lexicographic.LexConnected` | mvpa/clfs/stats.py:419 | of two distinct sequences, one sorts before the other |
| `Lexicographic.LexAsymmetric` | mvpa/clfs/stats.py:419 | no two sequences each sort before the other |
| `Lexicographic.LexTransitive` | mvpa/clfs/stats.py:419 | sorting before is transitive |
| `Matching.Flags` | mvpa/clfs/stats.py:373 | flag i is set exactly when p-value i is a number at or under the threshold, so NaN is never flagged |
| `Matching.CountTrue` | mvpa/clfs/stats.py:374 | the number of true positives is zero exactly when no flag is set |
| `Matching.CountTrueIsSize` | mvpa/clfs/stats.py:374 | the true-positive count equals the number of positions holding a set flag |
| `Matching.Mismatches` | mvpa/clfs/stats.py:398 | the mismatch count is at most the length and is zero exactly when the two flag arrays are equal |
| `Matching.MismatchesIsSize` | mvpa/clfs/stats.py:398 | the mismatch count equals the number of positions where the two flag arrays differ |
| `Matching.DataFlags` | mvpa/clfs/stats.py:370-373 | data element i is flagged exactly when its tail p-value under the data's own empirical cdf is a number `<= p` |
| `Matching.CandidateFlags` | mvpa/clfs/stats.py:394-397 | data element i is flagged exactly when its tail p-value under the fitted cdf is a number `<= p` |
| `Matching.RocDistance` | mvpa/clfs/stats.py:398 | D is the number of data elements on which the candidate's flags differ from the data's, divided by the true positives; D lies in [0, n / true positives]; D is 0 exactly when the candidate flags the same elements as the data |
| `Matching.Score` | mvpa/clfs/stats.py:393-416 | a candidate survives exactly when it was fitted and, for 'kstest', the test's p exceeds the threshold and its D is not NaN, or, for 'p-roc', the threshold is below the fixed p of 1; a survivor's entry is `(D, name, params)` |
| `Matching.Present` | mvpa/clfs/stats.py:408-409 | the kept entries are exactly the present scores, and there are no more of them than scores |
| `Matching.PresentMultiplicity` | mvpa/clfs/stats.py:408-409 | each surviving candidate adds its entry once: an entry occurs in the list as often as among the scores |
| `Matching.Survivors` | mvpa/clfs/stats.py:385-416 | an entry survives exactly when some candidate scores it, and it occurs as often as candidates score it |
| `Matching.EntryLeqTotal` | mvpa/clfs/stats.py:419 | any two result tuples are comparable |
| `Matching.EntryLeqAntisymmetric` | mvpa/clfs/stats.py:419 | tuples that compare both ways are equal |
| `Matching.EntryLeqTransitive` | mvpa/clfs/stats.py:419 | the tuple order is transitive |
| `Matching.RocScoring` | mvpa/clfs/stats.py:369-374 | 'p-roc' scores against the data's own flags under the given tail and threshold, and its true-positive count is the size of the set of positions whose flag is set |
| `Matching.Insert` | mvpa/clfs/stats.py:419 | inserting into a sorted list keeps it sorted and adds exactly the new element |
| `Matching.SortEntries` | mvpa/clfs/stats.py:419 | the sort's output is in ascending tuple order and is a permutation of its input |
| `Matching.SortedPermutationUnique` | mvpa/clfs/stats.py:419 | two sorted permutations of the same entries are identical, so the sorted result is fully determined |
| `Matching.MatchDistribution` | mvpa/clfs/stats.py:363-434 | an unknown test is an error; 'kstest' always succeeds; 'p-roc' fails exactly when no data element is flagged; a result is sorted ascending and is a permutation of the survivors |
| `Matching.SelectedIffScored` | mvpa/clfs/stats.py:385-419 | when selection succeeds, an entry is in the result exactly when some candidate scores it under the chosen test |
| `Matching.KsTestSelection` | mvpa/clfs/stats.py:400-409 | with 'kstest', an entry is in the result exactly when a fitted candidate has p above the threshold and that entry's D as its numeric distance |
| `Matching.PRocSelection` | mvpa/clfs/stats.py:369-409 | with 'p-roc' and true positives, an entry is in the result exactly when the threshold is below 1 and a fitted candidate has that entry's name, params and flag-mismatch distance |
| `Matching.PRocHighThresholdSelectsNothing` | mvpa/clfs/stats.py:398-409 | with 'p-roc' and a threshold of 1 or more, no candidate survives |
| `Matching.PRocPerfectFitScoresZero` | mvpa/clfs/stats.py:394-398 | with 'p-roc', a candidate whose cdf matches the empirical cdf on the data scores D = 0 |
| `Matching.DefaultsSelectByKsTest` | mvpa/clfs/stats.py:331-368 | called with its defaults (test 'kstest', threshold 0.05), selection succeeds and keeps exactly the fitted candidates whose test p exceeds 0.05, with their numeric D |
| `Matching.PRocDefaultsKeepEveryFit` | mvpa/clfs/stats.py:368-370 | with 'p-roc' and its defaults (threshold 0.05, tail 'any'), any non-empty data gives a result, and every fitted candidate appears in it with its distance, because the threshold is below the fixed p of 1 |
| `Matching.NonEmptyDataHasTruePositive` | mvpa/clfs/stats.py:372-378 | with tail 'any' or 'right' and a threshold of at least 0, non-empty data always has a true positive (its largest element has p-value 0), so the no-true-positives error needs empty data |

## Left out

- The permutation loop of `MCNullDist.fit` (lines 183-209) is not modelled. It relabels the dataset at random and computes the measure. Its output is the `Samples` argument, and the permutation count is that argument's number of rows.
- `MCNullDist.__init__`'s `permutations` setting and its default of 100 (line 146) are left out. They only drive that loop.
- Default arguments appear as named constants (`NullDist.DefaultNullTail`, `NullDist.DefaultDistClass`, `Matching.DefaultTest`, `Matching.DefaultPThreshold`, `Matching.DefaultRocTail`). The model's operations take every argument explicitly; the lemmas about the defaults show what a call without them gives.
- Multi-dimensional measure outputs are not modelled. Each permutation's vector is taken as already flattened, which is what the `reshape((shape[0], -1))` at line 226 produces.
- Multi-dimensional queries to `MCNullDist.cdf` are not modelled either. A query is a scalar or a flat vector, which is what the `reshape((-1,))` at line 251 produces; the result is the flat array of line 260, not reshaped back.
- `NullDist.Fit` requires a well-shaped sample matrix: every permutation gives a vector of the same length. A measure returns results of one shape. Ragged rows would give numpy an object array, which the code does not handle.
- The scipy internals are parameters. These are `dist_gen.fit`, the parametric `cdf`, `kstest` and the default list `scipy.stats.distributions.__all__` (lines 383-384). A candidate's `Outcome` says whether the `try` block raised. Otherwise it gives the fitted parameters, the fitted cdf and the test's D and p.
- `FixedNullDist` (lines 275-315) is not modelled. It only passes `cdf` on to an external distribution, and its `fit` does nothing.
- The `self._dist is None` branch (lines 240-244) is left out. It cannot be reached, because `_dist` is only ever a list.
- Debug output, the `dist_samples` state variable and the `Stateful` bookkeeping are left out.
- Error message text is not modelled; errors carry only a cause. The 'p-roc' error message at line 378 formats `p` before the function assigns it, so Python raises `UnboundLocalError` there instead of `ValueError`. The model reports `NoTruePositives` for that error.
- For empty 'p-roc' data, numpy's `vectorize` may raise before the true-positive check. The model reports `NoTruePositives` here too. Both are errors.
- The model follows the numpy of the code's era for `data_p_thr - cdf_p_thr` on boolean arrays: it counts the positions that differ. Current numpy refuses boolean subtraction, and then every 'p-roc' candidate would fail.
- `matchDistribution`'s data is taken as one-dimensional. 'p-roc' flattens it (line 371); 'kstest' passes it to scipy as it is, and scipy is a parameter here.
- Floating-point rounding is not modelled. Numbers are exact reals, and NaN is the only special value kept, and only in computed values.
- NaN and ±inf inputs are not modelled: samples, queries and data are plain reals. In numpy (line 40), a NaN sample still counts in the number of samples but is never `<= v`. A NaN query gets cdf 0 rather than NaN, so `p` with the 'right' tail gives 1. In 'p-roc' with the 'left' tail, a NaN data element has p-value 0 and always counts as a true positive. The model has none of these cases.
