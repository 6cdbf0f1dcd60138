/** Lexicographic order on sequences, as Python compares strings and tuples:
    the first differing position decides, and a proper prefix comes first. */
module Lexicographic {

  /** `lt` is asymmetric (hence irreflexive), transitive and connected on
      distinct values. */
  ghost predicate StrictTotalOrder<T(!new)>(lt: (T, T) -> bool) {
    && (forall x, y :: lt(x, y) ==> !lt(y, x))
    && (forall x, y, z :: lt(x, y) && lt(y, z) ==> lt(x, z))
    && (forall x, y :: x != y ==> lt(x, y) || lt(y, x))
  }

  /** `a` sorts strictly before `b`. */
  predicate LexLess<T(==)>(a: seq<T>, b: seq<T>, lt: (T, T) -> bool)
    decreases |a|
  {
    && |b| > 0
    && (|a| == 0 || lt(a[0], b[0]) || (a[0] == b[0] && LexLess(a[1..], b[1..], lt)))
  }

  /** Two sequences are equal or one sorts before the other. */
  lemma {:induction false} LexConnected<T(!new)>(a: seq<T>, b: seq<T>, lt: (T, T) -> bool)
    requires StrictTotalOrder(lt)
    ensures a == b || LexLess(a, b, lt) || LexLess(b, a, lt)
    decreases |a|
  {
    if |a| > 0 && |b| > 0 && a[0] == b[0] {
      LexConnected(a[1..], b[1..], lt);
      if a[1..] == b[1..] {
        assert a == [a[0]] + a[1..] && b == [b[0]] + b[1..];
      }
    }
  }

  /** No two sequences sort before each other (so neither sorts before itself). */
  lemma {:induction false} LexAsymmetric<T(!new)>(a: seq<T>, b: seq<T>, lt: (T, T) -> bool)
    requires StrictTotalOrder(lt)
    ensures !(LexLess(a, b, lt) && LexLess(b, a, lt))
    decreases |a|
  {
    if |a| > 0 && |b| > 0 && a[0] == b[0] {
      LexAsymmetric(a[1..], b[1..], lt);
    }
  }

  /** Sorting before is transitive. */
  lemma {:induction false} LexTransitive<T(!new)>(a: seq<T>, b: seq<T>, c: seq<T>, lt: (T, T) -> bool)
    requires StrictTotalOrder(lt)
    requires LexLess(a, b, lt) && LexLess(b, c, lt)
    ensures LexLess(a, c, lt)
    decreases |a|
  {
    if |a| > 0 && a[0] == b[0] && b[0] == c[0] {
      LexTransitive(a[1..], b[1..], c[1..], lt);
    }
  }

  /** Comparison of characters by code point. */
  function CharLess(a: char, b: char): (lt: bool) {
    a < b
  }

  /** Comparison of numbers. */
  function RealLess(a: real, b: real): (lt: bool) {
    a < b
  }

  lemma CharLessIsStrictTotal()
    ensures StrictTotalOrder(CharLess)
  {
  }

  lemma RealLessIsStrictTotal()
    ensures StrictTotalOrder(RealLess)
  {
  }
}
