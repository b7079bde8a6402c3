/**
  Cutting an edge of m source pixels into n windows.  The code cuts at int(float64(k) * ratio),
  and the rounding of the two operations shows: the last cut may fall one short of the edge.
 */
module Cuts {
  import opened Float64

  /** cut(k) is where window k begins; the last window ends at cut(n). */
  ghost predicate IsCut(cut: nat -> nat, n: nat, m: nat) {
    && cut(0) == 0
    && (forall k | 0 <= k < n :: cut(k) < cut(k + 1))
    && cut(n) <= m
  }

  predicate InWindow(cut: nat -> nat, p: nat, k: nat) {
    cut(k) <= p < cut(k + 1)
  }

  lemma {:induction false} CutsAscend(cut: nat -> nat, j: nat, k: nat, n: nat, m: nat)
    requires IsCut(cut, n, m) && j <= k <= n
    ensures cut(j) <= cut(k) <= m && (j < k ==> cut(j) < cut(k))
    decreases n - j
  {
    if j < k {
      assert cut(j) < cut(j + 1);
      CutsAscend(cut, j + 1, k, n, m);
    } else if k < n {
      assert cut(k) < cut(k + 1);
      CutsAscend(cut, k + 1, k + 1, n, m);
    }
  }

  lemma {:induction false} SomeWindow(cut: nat -> nat, p: nat, k: nat, n: nat, m: nat)
    requires IsCut(cut, n, m) && k <= n && p < cut(k)
    ensures exists j :: 0 <= j < k && InWindow(cut, p, j)
  {
    if p < cut(k - 1) {
      SomeWindow(cut, p, k - 1, n, m);
    } else {
      assert InWindow(cut, p, k - 1);
    }
  }

  ghost predicate Covered(cut: nat -> nat, n: nat, p: nat) {
    exists j :: 0 <= j < n && InWindow(cut, p, j)
  }

  /** A source pixel lies in a window iff it comes before the last cut, and then in exactly one. */
  lemma WindowsPartition(cut: nat -> nat, p: nat, n: nat, m: nat)
    requires IsCut(cut, n, m)
    ensures Covered(cut, n, p) <==> p < cut(n)
    ensures forall i, j | 0 <= i < n && 0 <= j < n && InWindow(cut, p, i) && InWindow(cut, p, j) :: i == j
  {
    if p < cut(n) {
      SomeWindow(cut, p, n, n, m);
    }
    forall i | 0 <= i < n && InWindow(cut, p, i)
      ensures p < cut(n)
    {
      CutsAscend(cut, i + 1, n, n, m);
    }
    forall i, j | 0 <= i < n && 0 <= j < n && InWindow(cut, p, i) && InWindow(cut, p, j)
      ensures i == j
    {
      if i < j {
        CutsAscend(cut, i + 1, j, n, m);
      } else if j < i {
        CutsAscend(cut, j + 1, i, n, m);
      }
    }
  }

  /** So the whole edge is covered iff the last cut reaches it. */
  lemma EdgeIsCovered(cut: nat -> nat, n: nat, m: nat)
    requires IsCut(cut, n, m)
    ensures (forall p: nat | p < m :: Covered(cut, n, p)) <==> cut(n) == m
  {
    forall p: nat
      ensures Covered(cut, n, p) <==> p < cut(n)
    {
      WindowsPartition(cut, p, n, m);
    }
    assert cut(n) < m ==> !Covered(cut, n, cut(n));
  }

  // ---- The cut of the code ----

  /** float64(n) */
  function Float(n: nat): (x: real)
    ensures n as real < 2.0 * BASE ==> x == n as real
    ensures x >= 0.0 && (n > 0 ==> x > 0.0)
  {
    RoundError(n as real);
    if n as real < 2.0 * BASE then RoundInteger(n); Round(n as real) else Round(n as real)
  }

  /** float64(m) / float64(n) */
  function Ratio(n: nat, m: nat): (r: real)
    requires n >= 1
    ensures r >= 0.0
  {
    RoundError(Float(m) / Float(n));
    Round(Float(m) / Float(n))
  }

  function Product(x: real, y: real): (z: real)
    ensures x >= 0.0 && y >= 0.0 ==> z >= 0.0
  {
    x * y
  }

  /** int(float64(k) * ratio) */
  function Cut(k: nat, n: nat, m: nat): nat
    requires n >= 1
  {
    RoundError(Product(Float(k), Ratio(n, m)));
    Round(Product(Float(k), Ratio(n, m))).Floor
  }

  function CutOf(n: nat, m: nat): nat -> nat
    requires n >= 1
  {
    (k: nat) => Cut(k, n, m)
  }

  /** 2^51: below it the rounding of a product is finer than a pixel. */
  const EDGE: nat := 2251799813685248

  // ---- Products ----

  lemma ProductSign(x: real, y: real)
    requires x >= 0.0 && y >= 0.0
    ensures Product(x, y) >= 0.0
    ensures x > 0.0 && y > 0.0 ==> Product(x, y) > 0.0
  {
  }

  lemma ProductAdds(a: real, d: real, r: real)
    ensures Product(a + d, r) == Product(a, r) + Product(d, r)
  {
  }

  lemma ProductMonotone(a: real, b: real, r: real)
    requires a <= b && r >= 0.0
    ensures Product(a, r) <= Product(b, r)
    ensures a < b && r > 0.0 ==> Product(a, r) < Product(b, r)
  {
    hide Product;
    ProductAdds(a, b - a, r);
    ProductSign(b - a, r);
    assert a + (b - a) == b;
  }

  lemma ProductAtLeast(d: real, r: real)
    requires d >= 0.0 && r >= 1.0
    ensures Product(d, r) >= d
  {
    ProductUnit(d);
    hide Product;
    ProductCommutes(d, 1.0);
    ProductCommutes(d, r);
    ProductMonotone(1.0, r, d);
  }

  lemma ProductUnit(x: real)
    ensures Product(x, 1.0) == x
  {
  }

  lemma ProductDoubles(x: real, p: real)
    ensures Product(x, 2.0 * p) == Product(2.0 * x, p) == 2.0 * Product(x, p)
  {
  }

  lemma QuotientAtLeastOne(x: real, y: real)
    requires 0.0 < y <= x
    ensures Product(x / y, y) == x && x / y >= 1.0
  {
    assert x / y * y == x;
    ProductUnit(y);
    ProductCommutes(1.0, y);
    if x / y < 1.0 {
      ProductMonotone(x / y, 1.0, y);
    }
  }

  /** A relative error survives a multiplication. */
  lemma ErrorScales(y: real, q: real, z: real, x: real)
    requires y >= 0.0 && Product(q, y) == x
    requires -q <= 2.0 * BASE * (z - q) <= q
    ensures -x <= 2.0 * BASE * (Product(z, y) - x) <= x
  {
    hide Product;
    var c := 2.0 * BASE;
    var e := z - q;
    ProductAdds(q, e, y);
    ProductConstant(c, e, y);
    ProductMonotone(c * e, q, y);
    ProductMonotone(-q, c * e, y);
    ProductNegates(q, y);
    assert q + e == z;
  }

  lemma ProductConstant(c: real, e: real, y: real)
    ensures Product(c * e, y) == c * Product(e, y)
  {
  }

  lemma ProductNegates(q: real, y: real)
    ensures Product(-q, y) == -Product(q, y)
  {
  }

  lemma ProductCommutes(x: real, y: real)
    ensures Product(x, y) == Product(y, x)
  {
  }

  // ---- The code's cuts are cuts ----

  lemma RatioIsAtLeastOne(n: nat, m: nat)
    requires 1 <= n <= m < EDGE
    ensures Ratio(n, m) >= 1.0
    ensures -(m as real) <= 2.0 * BASE * (Product(n as real, Ratio(n, m)) - m as real) <= m as real
  {
    hide Product, Round;
    var x, y := m as real, n as real;
    var q := x / y;
    assert Float(m) == x && Float(n) == y;
    QuotientAtLeastOne(x, y);
    RoundInteger(1);
    RoundMonotone(1.0, q);
    RoundError(q);
    ErrorScales(y, q, Round(q), x);
    ProductCommutes(y, Round(q));
  }

  lemma CutIs(k: nat, n: nat, m: nat)
    requires n >= 1 && k < EDGE
    ensures Cut(k, n, m) == Round(Product(k as real, Ratio(n, m))).Floor
  {
    hide Product, Ratio, Round;
    assert Float(k) == k as real;
  }

  lemma CutAdvances(k: nat, n: nat, m: nat)
    requires 1 <= n <= m < EDGE && k < n
    ensures Cut(k, n, m) < Cut(k + 1, n, m)
  {
    hide Cut, Ratio, Round, Product;
    RatioIsAtLeastOne(n, m);
    CutIs(k, n, m);
    CutIs(k + 1, n, m);
    var r := Ratio(n, m);
    var x, x' := Product(k as real, r), Product((k + 1) as real, r);
    Grows(k as real, 1.0, n as real, r);
    BelowBase(Product(n as real, r), m);
    assert x' >= x + 1.0 && x' < BASE;
    StepUp(x, Cut(k, n, m));
    RoundMonotone(x + 1.0, x');
  }

  lemma Grows(a: real, d: real, b: real, r: real)
    requires 0.0 <= a && 0.0 <= d && a + d <= b && r >= 1.0
    ensures 0.0 <= Product(a, r) && Product(a, r) + d <= Product(a + d, r) <= Product(b, r)
  {
    hide Product;
    ProductSign(a, r);
    ProductAdds(a, d, r);
    ProductAtLeast(d, r);
    ProductMonotone(a + d, b, r);
  }

  lemma BelowBase(y: real, m: nat)
    requires m < EDGE && 2.0 * BASE * (y - m as real) <= m as real
    ensures y < BASE
  {
  }

  lemma StepUp(x: real, j: int)
    requires 0.0 <= x && x + 1.0 < BASE && Round(x) >= j as real
    ensures Round(x + 1.0) >= (j + 1) as real
  {
    RoundDoubles(x);
    RoundDoubles(x + 1.0);
    assert 2.0 * (x + 1.0) == 2.0 * x + 2 as real;
    RoundSteps(2.0 * x, 2 * j, 2);
  }

  /** The last cut is the edge, or one short of it. */
  lemma LastCut(n: nat, m: nat)
    requires 1 <= n <= m < EDGE
    ensures m - 1 <= Cut(n, n, m) <= m
  {
    hide Cut, Ratio, Round;
    RatioIsAtLeastOne(n, m);
    CutIs(n, n, m);
    var y := Product(n as real, Ratio(n, m));
    RoundError(y);
    WithinOne(Round(y), y, m);
  }

  lemma WithinOne(z: real, y: real, m: nat)
    requires m < EDGE && y >= 0.0
    requires -(m as real) <= 2.0 * BASE * (y - m as real) <= m as real
    requires -y <= 2.0 * BASE * (z - y) <= y
    ensures m as real - 1.0 < z < m as real + 1.0
  {
  }

  /** The code's cuts are cuts: no window is empty, none reaches past the edge, and at most the last pixel is missed. */
  lemma CodeCuts(n: nat, m: nat)
    requires 1 <= n <= m < EDGE
    ensures IsCut(CutOf(n, m), n, m)
    ensures m - 1 <= CutOf(n, m)(n) <= m
  {
    hide Cut;
    LastCut(n, m);
    FirstCut(n, m);
    forall k: nat | k < n
      ensures CutOf(n, m)(k) < CutOf(n, m)(k + 1)
    {
      CutAdvances(k, n, m);
    }
  }

  lemma FirstCut(n: nat, m: nat)
    requires n >= 1
    ensures Cut(0, n, m) == 0
  {
  }

  // ---- Where the last pixel is missed, and where it is not ----

  function Power2(i: nat): real {
    if i == 0 then 1.0 else 2.0 * Power2(i - 1)
  }

  lemma {:induction false} RoundAt(x: real, i: nat, z: real)
    requires x > 0.0 && z == Product(x, Power2(i)) && BASE <= z < 2.0 * BASE
    ensures Product(Round(x), Power2(i)) == Nearest(z) as real
    decreases i
  {
    if i > 0 {
      hide Product;
      var p := Power2(i - 1);
      ProductDoubles(x, p);
      ProductDoubles(Round(x), p);
      RoundAt(2.0 * x, i - 1, z);
      RoundDoubles(x);
    } else {
      assert z == x;
      hide Round;
      RoundInBase(x);
    }
  }

  lemma RoundInBase(x: real)
    requires BASE <= x < 2.0 * BASE
    ensures Round(x) == Nearest(x) as real && Product(Round(x), 1.0) == Round(x)
  {
  }

  /** When the ratio is a whole number the last cut reaches the edge. */
  lemma WholeRatioCovers(n: nat, k: nat)
    requires 1 <= n && 1 <= k && n * k < EDGE
    ensures n <= n * k && Cut(n, n, n * k) == n * k
  {
    hide Round, Product;
    Sizes(n, k);
    RoundInteger(k);
    RoundInteger(n * k);
    CutIs(n, n, n * k);
  }

  lemma Sizes(n: nat, k: nat)
    requires 1 <= n && 1 <= k && n * k < EDGE
    ensures n <= n * k && k <= n * k
    ensures Product(n as real, k as real) == (n * k) as real && (n * k) as real / n as real == k as real
    ensures Float(n * k) == (n * k) as real && Float(n) == n as real
  {
    hide Float, Product;
    AtLeastItself(n, k);
    AtLeastItself(k, n);
    RealProduct(n, k);
    ProductQuotient(n as real, k as real);
    FloatIs(n * k);
    FloatIs(n);
  }

  lemma AtLeastItself(n: nat, k: nat)
    requires 1 <= k
    ensures n <= n * k == k * n
  {
    assert n * (k - 1) >= 0;
  }

  lemma {:induction false} RealProduct(n: nat, k: nat)
    ensures Product(n as real, k as real) == (n * k) as real
  {
    hide Product;
    if k == 0 {
      NoProduct(n as real);
    } else {
      RealProduct(n, k - 1);
      assert n * k == n * (k - 1) + n;
      assert k as real == (k - 1) as real + 1.0;
      NextProduct(n as real, (k - 1) as real);
    }
  }

  lemma NoProduct(x: real)
    ensures Product(x, 0.0) == 0.0
  {
  }

  lemma NextProduct(x: real, y: real)
    ensures Product(x, y + 1.0) == Product(x, y) + x
  {
  }

  lemma FloatIs(n: nat)
    requires n <= EDGE
    ensures Float(n) == n as real
  {
  }

  lemma ProductQuotient(x: real, y: real)
    requires x > 0.0
    ensures Product(x, y) / x == y
  {
  }

  lemma Powers()
    ensures Power2(7) == 128.0 && Power2(45) == 35184372088832.0 && Power2(52) == BASE
  {
    assert Power2(4) == 16.0 && Power2(7) == 128.0;
    assert Power2(10) == 1024.0 && Power2(13) == 8192.0 && Power2(16) == 65536.0 && Power2(19) == 524288.0;
    assert Power2(22) == 4194304.0 && Power2(25) == 33554432.0 && Power2(28) == 268435456.0;
    assert Power2(31) == 2147483648.0 && Power2(34) == 17179869184.0 && Power2(37) == 137438953472.0;
    assert Power2(40) == 1099511627776.0 && Power2(43) == 8796093022208.0 && Power2(45) == 35184372088832.0;
    assert Power2(48) == 281474976710656.0 && Power2(51) == 2251799813685248.0;
  }

  /** 248 rows cut into 247: the ratio is rounded down, the last product too, and row 247 is in no window. */
  lemma SomeEdgeIsNotCovered()
    ensures Cut(247, 247, 248) == 247
    ensures !Covered(CutOf(247, 248), 247, 247)
  {
    hide Round, Cut, Ratio;
    Powers();
    var r := 4521832824242441.0 / BASE;
    RoundAt(248.0 / 247.0, 52, 248.0 / 247.0 * BASE);
    assert Nearest(248.0 / 247.0 * BASE) == 4521832824242441;
    RatioIs(r);
    var y := 247.0 * r;
    RoundAt(y, 45, y * 35184372088832.0);
    assert Nearest(y * 35184372088832.0) == 8725724278030335;
    CutIs(247, 247, 248);
    assert Product(247.0, r) == y;
    CodeCuts(247, 248);
    WindowsPartition(CutOf(247, 248), 247, 247, 248);
  }

  lemma RatioIs(r: real)
    requires Round(248.0 / 247.0) == r
    ensures Ratio(247, 248) == r
  {
    hide Round;
    FloatIs(248);
    FloatIs(247);
  }
}
