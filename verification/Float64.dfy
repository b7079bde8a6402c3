/**
  Rounding to the nearest float64, ties to even, as multiplication, division and
  conversion do it (IEEE 754 binary64).  Between 2^52 and 2^53 the floats are the integers;
  every other binade is that one scaled.  Overflow and subnormals are not modelled.
 */
module Float64 {

  /** 2^52 */
  const BASE: real := 4503599627370496.0

  /** The nearest integer, ties to even. */
  function Nearest(y: real): int {
    var f := y.Floor;
    if y - f as real < 0.5 then f
    else if y - f as real > 0.5 then f + 1
    else if f % 2 == 0 then f else f + 1
  }

  /** How far x is from the binade of the integers. */
  function Distance(x: real): nat
    requires x > 0.0
  {
    if x >= BASE then x.Floor else (2.0 * BASE / x).Floor + 9007199254740992
  }

  lemma Doubling(x: real)
    requires 0.0 < x < BASE
    ensures Distance(2.0 * x) < Distance(x)
  {
    var y := 2.0 * BASE / x;
    assert y * x == 2.0 * BASE;
    assert y >= 2.0;
    assert 2.0 * BASE / (2.0 * x) == y / 2.0;
  }

  lemma Halving(x: real)
    requires x >= 2.0 * BASE
    ensures Distance(x / 2.0) < Distance(x)
  {
  }

  function Round(x: real): real
    requires x >= 0.0
    decreases if x > 0.0 then Distance(x) else 0
  {
    if x == 0.0 then 0.0
    else if x >= 2.0 * BASE then Halving(x); 2.0 * Round(x / 2.0)
    else if x < BASE then Doubling(x); Round(2.0 * x) / 2.0
    else Nearest(x) as real
  }

  lemma NearestMonotone(x: real, y: real)
    requires x <= y
    ensures Nearest(x) <= Nearest(y)
  {
  }

  /** Scaling by two rounds alike. */
  lemma RoundDoubles(x: real)
    requires x >= 0.0
    ensures Round(2.0 * x) == 2.0 * Round(x)
  {
    if x >= BASE {
      assert 2.0 * x / 2.0 == x;
    }
  }

  /**
    In the binade of the integers the result is the nearest integer, the even one at a tie;
    RoundDoubles carries that to every other binade.
   */
  lemma RoundIsNearest(x: real)
    requires BASE <= x < 2.0 * BASE
    ensures var n := Round(x).Floor;
      && Round(x) == n as real
      && -0.5 <= n as real - x <= 0.5
      && (n as real - x == 0.5 || n as real - x == -0.5 ==> n % 2 == 0)
  {
    assert Round(x) == Nearest(x) as real;
  }

  /** The relative error is at most 2^-53. */
  lemma {:induction false} RoundError(x: real)
    requires x >= 0.0
    ensures -x <= 2.0 * BASE * (Round(x) - x) <= x
    decreases if x > 0.0 then Distance(x) else 0
  {
    if x >= 2.0 * BASE {
      Halving(x);
      RoundError(x / 2.0);
    } else if 0.0 < x < BASE {
      Doubling(x);
      RoundError(2.0 * x);
    }
  }

  /** A binade boundary is not crossed. */
  lemma {:induction false} RoundAbove(x: real)
    requires x >= BASE
    ensures Round(x) >= BASE
    ensures x >= 2.0 * BASE ==> Round(x) >= 2.0 * BASE
    decreases Distance(x)
  {
    if x >= 2.0 * BASE {
      Halving(x);
      RoundAbove(x / 2.0);
    }
  }

  lemma {:induction false} RoundBelow(x: real)
    requires 0.0 <= x < 2.0 * BASE
    ensures 0.0 <= Round(x) <= 2.0 * BASE
    ensures x < BASE ==> Round(x) <= BASE
    decreases if x > 0.0 then Distance(x) else 0
  {
    if 0.0 < x < BASE {
      Doubling(x);
      RoundBelow(2.0 * x);
    }
  }

  lemma {:induction false} RoundMonotone(x: real, y: real)
    requires 0.0 <= x <= y
    ensures Round(x) <= Round(y)
    decreases (if x > 0.0 then Distance(x) else 0) + (if y > 0.0 then Distance(y) else 0)
  {
    if x == 0.0 {
      RoundError(y);
    } else if y < BASE {
      Doubling(x);
      Doubling(y);
      RoundMonotone(2.0 * x, 2.0 * y);
    } else if x >= 2.0 * BASE {
      Halving(x);
      Halving(y);
      RoundMonotone(x / 2.0, y / 2.0);
    } else if x < BASE {
      RoundBelow(x);
      RoundAbove(y);
    } else if y < 2.0 * BASE {
      NearestMonotone(x, y);
    } else {
      RoundBelow(x);
      RoundAbove(y);
    }
  }

  /** Integers up to 2^53 are floats. */
  lemma {:induction false} RoundInteger(j: nat)
    requires j as real < 2.0 * BASE
    ensures Round(j as real) == j as real
    decreases if j > 0 then Distance(j as real) else 0
  {
    if 0 < j && j as real < BASE {
      Doubling(j as real);
      assert 2.0 * j as real == (2 * j) as real;
      RoundInteger(2 * j);
    }
  }

  /** Where one step is still an even number of units, a step up rounds at least a step up. */
  lemma {:induction false} RoundSteps(x: real, j: int, d: nat)
    requires x >= 0.0 && d >= 2 && d % 2 == 0 && x + d as real < 2.0 * BASE
    requires Round(x) >= j as real
    ensures Round(x + d as real) >= (j + d) as real
    decreases if x > 0.0 then Distance(x + d as real) else Distance(x + d as real) + 1
  {
    var y := x + d as real;
    if y < BASE {
      Doubling(y);
      RoundDoubles(x);
      RoundSteps(2.0 * x, 2 * j, 2 * d);
    } else if x >= BASE {
      NearestSteps(x, d);
    } else {
      CoarseStep(x, j, d);
    }
  }

  lemma NearestSteps(x: real, d: nat)
    requires d % 2 == 0
    ensures Nearest(x + d as real) == Nearest(x) + d
  {
    assert (x + d as real).Floor == x.Floor + d;
    assert (x.Floor + d) % 2 == x.Floor % 2;
  }

  /** From a finer binade into the integers'. */
  lemma CoarseStep(x: real, j: int, d: nat)
    requires 0.0 <= x < BASE <= x + d as real < 2.0 * BASE && Round(x) >= j as real
    ensures Round(x + d as real) >= (j + d) as real
  {
    RoundError(x);
    LessThanHalf(Round(x) - x, x);
    NearestAtLeast(x + d as real, j + d);
  }

  lemma LessThanHalf(error: real, x: real)
    requires 2.0 * BASE * error <= x < BASE
    ensures error < 0.5
  {
  }

  lemma NearestAtLeast(y: real, k: int)
    requires y > k as real - 0.5
    ensures Nearest(y) >= k
  {
  }
}
