/** Facts about division and finite sets that several models share. */
module Basics {

  lemma MulCancels(n: int, a: int, b: int)
    requires n >= 1
    ensures n * a < n * b ==> a < b
  {
    if b <= a {
      assert n * (a - b) >= 0;
    }
  }

  /** The quotient and the remainder are the only ones. */
  lemma QuotientIs(k: int, n: int, q: int, r: int)
    requires 0 <= r < n && k == n * q + r
    ensures k / n == q && k % n == r
  {
    var d := k / n;
    assert k == n * d + k % n;
    MulCancels(n, d, q + 1);
    MulCancels(n, q, d + 1);
  }

  lemma QuotientWithin(lo: int, n: int, s: int, hi: int)
    requires n >= 1 && n * lo <= s < n * hi + n
    ensures lo <= s / n <= hi
  {
    var q := s / n;
    assert s == n * q + s % n;
    assert n * (q + 1) == n * q + n && n * (hi + 1) == n * hi + n;
    MulCancels(n, lo, q + 1);
    MulCancels(n, q, hi + 1);
  }

  lemma {:induction false} SubsetSize<T>(a: set<T>, b: set<T>)
    requires a <= b
    ensures |a| <= |b|
    ensures |a| == |b| ==> a == b
  {
    if a != {} {
      var x :| x in a;
      SubsetSize(a - {x}, b - {x});
    }
  }
}
