/**
  Big Five vectors, preference weights and the compatibility score.  A float is an exact
  real or one of its special values: rounding noise is not modelled.
 */
module Traits {

  datatype Key = Openness | Conscientiousness | Extraversion | Agreeableness | Neuroticism | Other(name: string)

  const TRAIT_KEYS: seq<Key> := [Openness, Conscientiousness, Extraversion, Agreeableness, Neuroticism]
  const MAX_TRAIT_WEIGHT := 5.0
  const NEUTRAL_SCORE := 0.5

  datatype Float = Fin(r: real) | NaN | PosInf | NegInf

  predicate InUnit(f: Float) {
    f.Fin? && 0.0 <= f.r <= 1.0
  }

  type Vector = map<Key, Float>
  type Weights = map<Key, Float>

  predicate IsTraitKey(k: Key) {
    !k.Other?
  }

  function Value(v: Vector, k: Key): real {
    if k in v && v[k].Fin? then v[k].r else 0.0
  }

  function Abs(x: real): real {
    if x < 0.0 then -x else x
  }

  // ---- What the Go loops compute ----

  ghost predicate IsComplete(v: Vector) {
    forall k :: IsTraitKey(k) ==> k in v && InUnit(v[k])
  }

  /** Complete. */
  method Complete(v: Vector) returns (ok: bool)
    ensures ok <==> forall k :: IsTraitKey(k) ==> k in v && v[k].Fin? && 0.0 <= v[k].r <= 1.0
  {
    if |v| == 0 {
      assert Openness !in v && IsTraitKey(Openness);
      return false;
    }
    for i := 0 to |TRAIT_KEYS|
      invariant forall j | 0 <= j < i :: TRAIT_KEYS[j] in v && InUnit(v[TRAIT_KEYS[j]])
    {
      var k := TRAIT_KEYS[i];
      if k !in v || !InUnit(v[k]) {
        assert IsTraitKey(k);
        return false;
      }
    }
    assert TRAIT_KEYS[0] in v && TRAIT_KEYS[1] in v && TRAIT_KEYS[2] in v && TRAIT_KEYS[3] in v && TRAIT_KEYS[4] in v;
    return true;
  }

  function Weight(w: Weights, k: Key): real {
    if k !in w || w[k].NaN? then 1.0
    else if w[k].NegInf? || (w[k].Fin? && w[k].r < 0.0) then 0.0
    else if w[k].PosInf? || w[k].r > MAX_TRAIT_WEIGHT then MAX_TRAIT_WEIGHT
    else w[k].r
  }

  /** The sum of the first n entries. */
  function Sum(s: seq<real>, n: nat): real
    requires n <= |s|
  {
    if n == 0 then 0.0 else Sum(s, n - 1) + s[n - 1]
  }

  /** TraitWeights.Ordered: canonical order, each within [0, 5], never all zero. */
  method OrderedWeights(w: Weights) returns (out: seq<real>)
    ensures out == EffectiveWeights(w)
    ensures |out| == 5 && Sum(out, 5) > 0.0
    ensures forall i | 0 <= i < 5 :: 0.0 <= out[i] <= MAX_TRAIT_WEIGHT
  {
    out := [];
    var total := 0.0;
    for i := 0 to 5
      invariant |out| == i
      invariant forall j | 0 <= j < i :: out[j] == Weight(w, TRAIT_KEYS[j])
      invariant total == Sum(out, i) >= 0.0
    {
      var v := Weight(w, TRAIT_KEYS[i]);
      SumPrefix(out, [v], i);
      out := out + [v];
      total := total + v;
    }
    if total <= 0.0 {
      SumOfNone(out, 5);
      out := [1.0, 1.0, 1.0, 1.0, 1.0];
      assert Sum(out, 2) == 2.0 && Sum(out, 4) == 4.0;
    } else {
      assert exists i :: 0 <= i < 5 && out[i] > 0.0 by {
        if forall i | 0 <= i < 5 :: out[i] == 0.0 {
          SumOfZeros(out, 5);
        }
      }
    }
  }

  /** The weights the scorer really uses: the clamped ones, or all ones when every one is zero. */
  ghost function EffectiveWeights(w: Weights): (out: seq<real>)
    ensures |out| == 5
  {
    if forall i | 0 <= i < 5 :: Weight(w, TRAIT_KEYS[i]) == 0.0 then seq(5, i => 1.0)
    else seq(5, i requires 0 <= i < 5 => Weight(w, TRAIT_KEYS[i]))
  }

  lemma {:induction false} SumPrefix(s: seq<real>, t: seq<real>, n: nat)
    requires n <= |s|
    ensures Sum(s + t, n) == Sum(s, n)
  {
    if n > 0 {
      SumPrefix(s, t, n - 1);
    }
  }

  lemma {:induction false} SumOfNone(s: seq<real>, n: nat)
    requires n <= |s| && Sum(s, n) <= 0.0 && forall i | 0 <= i < |s| :: s[i] >= 0.0
    ensures forall i | 0 <= i < n :: s[i] == 0.0
  {
    if n > 0 {
      SumNonNegative(s, n - 1);
      SumOfNone(s, n - 1);
    }
  }

  lemma {:induction false} SumNonNegative(s: seq<real>, n: nat)
    requires n <= |s| && forall i | 0 <= i < |s| :: s[i] >= 0.0
    ensures Sum(s, n) >= 0.0
  {
    if n > 0 {
      SumNonNegative(s, n - 1);
    }
  }

  lemma {:induction false} SumPositive(s: seq<real>, n: nat, i: nat)
    requires i < n <= |s| && s[i] > 0.0 && forall j | 0 <= j < |s| :: s[j] >= 0.0
    ensures Sum(s, n) > 0.0
  {
    if i == n - 1 {
      SumNonNegative(s, n - 1);
    } else {
      SumPositive(s, n - 1, i);
    }
  }

  lemma {:induction false} SumOfZeros(s: seq<real>, n: nat)
    requires n <= |s| && forall i | 0 <= i < n :: s[i] == 0.0
    ensures Sum(s, n) == 0.0
  {
    if n > 0 {
      SumOfZeros(s, n - 1);
    }
  }

  // ---- The weighted mean ----

  /** 1 - |a - b| on one trait. */
  function Agreement(a: Vector, b: Vector, i: nat): real
    requires i < 5
  {
    1.0 - Abs(Value(a, TRAIT_KEYS[i]) - Value(b, TRAIT_KEYS[i]))
  }

  function WeightedSum(w: seq<real>, a: Vector, b: Vector, n: nat): real
    requires n <= 5 == |w|
  {
    if n == 0 then 0.0 else WeightedSum(w, a, b, n - 1) + Scale(w[n - 1], Agreement(a, b, n - 1))
  }

  /** The product, named for the same reason as Quotient below. */
  function Scale(w: real, x: real): real {
    w * x
  }

  /** Quotient names the division, so that proofs need not unfold it. */
  function Quotient(x: real, y: real): real
    requires y != 0.0
  {
    x / y
  }

  /** The expression of the discovery query: no completeness test and no clamp. */
  ghost function SqlMean(a: Vector, b: Vector, w: Weights): real
    requires Sum(EffectiveWeights(w), 5) != 0.0
  {
    Quotient(WeightedSum(EffectiveWeights(w), a, b, 5), Sum(EffectiveWeights(w), 5))
  }

  lemma EffectiveWeightsArePositive(w: Weights)
    ensures forall i | 0 <= i < 5 :: 0.0 <= EffectiveWeights(w)[i] <= MAX_TRAIT_WEIGHT
    ensures Sum(EffectiveWeights(w), 5) > 0.0
  {
    var out := EffectiveWeights(w);
    if forall i | 0 <= i < 5 :: Weight(w, TRAIT_KEYS[i]) == 0.0 {
      SumPositive(out, 5, 0);
    } else {
      var i :| 0 <= i < 5 && Weight(w, TRAIT_KEYS[i]) != 0.0;
      assert out[i] == Weight(w, TRAIT_KEYS[i]);
      SumPositive(out, 5, i);
    }
  }

  lemma Scaled(w: real, x: real)
    requires 0.0 <= w && 0.0 <= x <= 1.0
    ensures 0.0 <= Scale(w, x) <= w
    ensures Scale(w, x) == w <==> w == 0.0 || x == 1.0
  {
    if 0.0 < w && x < 1.0 {
      assert w * (1.0 - x) > 0.0;
    }
  }

  lemma {:induction false} WeightedSumBounds(w: seq<real>, a: Vector, b: Vector, n: nat)
    requires n <= 5 == |w| && forall i | 0 <= i < 5 :: 0.0 <= w[i]
    requires IsComplete(a) && IsComplete(b)
    ensures 0.0 <= WeightedSum(w, a, b, n) <= Sum(w, n)
    ensures WeightedSum(w, a, b, n) == Sum(w, n)
            <==> forall i | 0 <= i < n :: w[i] == 0.0 || Value(a, TRAIT_KEYS[i]) == Value(b, TRAIT_KEYS[i])
  {
    hide Scale;
    if n > 0 {
      WeightedSumBounds(w, a, b, n - 1);
      Scaled(w[n - 1], Agreement(a, b, n - 1));
    }
  }

  lemma ScaledAtMost(w: real, x: real)
    requires 0.0 <= w && x <= 1.0
    ensures Scale(w, x) <= w
  {
    assert w * (1.0 - x) >= 0.0;
  }

  /** Nobody agrees more than fully, whatever numbers the vectors hold. */
  lemma {:induction false} WeightedSumAtMost(w: seq<real>, a: Vector, b: Vector, n: nat)
    requires n <= 5 == |w| && forall i | 0 <= i < 5 :: 0.0 <= w[i]
    ensures WeightedSum(w, a, b, n) <= Sum(w, n)
  {
    hide Scale;
    if n > 0 {
      WeightedSumAtMost(w, a, b, n - 1);
      ScaledAtMost(w[n - 1], Agreement(a, b, n - 1));
    }
  }

  lemma RatioAtMostOne(x: real, y: real)
    requires y > 0.0 && x <= y
    ensures Quotient(x, y) <= 1.0
  {
    assert (x / y) * y == x;
  }

  lemma MeanIsAtMostOne(a: Vector, b: Vector, w: Weights)
    ensures Sum(EffectiveWeights(w), 5) > 0.0 && SqlMean(a, b, w) <= 1.0
  {
    hide Quotient;
    var e := EffectiveWeights(w);
    EffectiveWeightsArePositive(w);
    WeightedSumAtMost(e, a, b, 5);
    RatioAtMostOne(WeightedSum(e, a, b, 5), Sum(e, 5));
  }

  lemma {:induction false} WeightedSumSymmetric(w: seq<real>, a: Vector, b: Vector, n: nat)
    requires n <= 5 == |w|
    ensures WeightedSum(w, a, b, n) == WeightedSum(w, b, a, n)
  {
    hide Scale;
    if n > 0 {
      WeightedSumSymmetric(w, a, b, n - 1);
    }
  }

  lemma RatioBounds(x: real, y: real)
    requires y > 0.0 && 0.0 <= x <= y
    ensures 0.0 <= Quotient(x, y) <= 1.0
    ensures Quotient(x, y) == 1.0 <==> x == y
  {
    assert (x / y) * y == x;
  }

  /**
    The mean of two complete vectors is in [0, 1], symmetric, and 1 exactly when the two
    agree on every trait whose weight is positive.
   */
  lemma MeanIsAScore(a: Vector, b: Vector, w: Weights)
    requires IsComplete(a) && IsComplete(b)
    ensures Sum(EffectiveWeights(w), 5) > 0.0
    ensures 0.0 <= SqlMean(a, b, w) <= 1.0
    ensures SqlMean(a, b, w) == SqlMean(b, a, w)
    ensures SqlMean(a, b, w) == 1.0 <==> (forall i | 0 <= i < 5 ::
              EffectiveWeights(w)[i] == 0.0 || Value(a, TRAIT_KEYS[i]) == Value(b, TRAIT_KEYS[i]))
  {
    var e := EffectiveWeights(w);
    EffectiveWeightsArePositive(w);
    WeightedSumBounds(e, a, b, 5);
    WeightedSumSymmetric(e, a, b, 5);
    RatioBounds(WeightedSum(e, a, b, 5), Sum(e, 5));
  }

  /** The preference puts some weight on the trait; an absent one and one that is no number do. */
  predicate Weighs(w: Weights, k: Key) {
    k !in w || w[k].NaN? || w[k].PosInf? || (w[k].Fin? && w[k].r > 0.0)
  }

  /**
    A preference within [0, 5] is used as it stands, one outside as the nearer end, a missing
    one as 1; only preferences that weigh nothing at all are set aside, for equal weights.
   */
  lemma PreferencesAreUsed(w: Weights, i: nat)
    requires i < 5
    ensures var e, k := EffectiveWeights(w)[i], TRAIT_KEYS[i];
      if forall j | 0 <= j < 5 :: !Weighs(w, TRAIT_KEYS[j]) then e == 1.0
      else
        && (k !in w || w[k].NaN? ==> e == 1.0)
        && (k in w && w[k].Fin? && 0.0 <= w[k].r <= 5.0 ==> e == w[k].r)
        && (k in w && (w[k].PosInf? || (w[k].Fin? && 5.0 < w[k].r)) ==> e == 5.0)
        && (k in w && (w[k].NegInf? || (w[k].Fin? && w[k].r < 0.0)) ==> e == 0.0)
  {
    assert forall j | 0 <= j < 5 :: Weight(w, TRAIT_KEYS[j]) == 0.0 <==> !Weighs(w, TRAIT_KEYS[j]);
  }

  function Apart(x: real, y: real): real {
    if x < y then y - x else x - y
  }

  /** The mean, written out: every trait counts one minus the distance, times its weight. */
  lemma MeanWrittenOut(a: Vector, b: Vector, w: Weights)
    requires IsComplete(a) && IsComplete(b)
    ensures var e := EffectiveWeights(w);
      var total := e[0] + e[1] + e[2] + e[3] + e[4];
      && total > 0.0 && Sum(e, 5) == total
      && SqlMean(a, b, w) * total
         == e[0] * (1.0 - Apart(a[Openness].r, b[Openness].r))
          + e[1] * (1.0 - Apart(a[Conscientiousness].r, b[Conscientiousness].r))
          + e[2] * (1.0 - Apart(a[Extraversion].r, b[Extraversion].r))
          + e[3] * (1.0 - Apart(a[Agreeableness].r, b[Agreeableness].r))
          + e[4] * (1.0 - Apart(a[Neuroticism].r, b[Neuroticism].r))
  {
    hide EffectiveWeights, Scale, Quotient, Agreement, Apart, IsComplete, SqlMean, Sum;
    var e := EffectiveWeights(w);
    MeanInTerms(a, b, w);
    AgreementIs(a, b);
    Multiplied(SqlMean(a, b, w), e[0] + e[1] + e[2] + e[3] + e[4], e, Agreement(a, b, 0), Agreement(a, b, 1),
               Agreement(a, b, 2), Agreement(a, b, 3), Agreement(a, b, 4));
  }

  lemma Multiplied(mean: real, total: real, e: seq<real>, x0: real, x1: real, x2: real, x3: real, x4: real)
    requires |e| == 5
    requires Scale(mean, total) == Scale(e[0], x0) + Scale(e[1], x1) + Scale(e[2], x2) + Scale(e[3], x3) + Scale(e[4], x4)
    ensures mean * total == e[0] * x0 + e[1] * x1 + e[2] * x2 + e[3] * x3 + e[4] * x4
  {
  }

  lemma MeanInTerms(a: Vector, b: Vector, w: Weights)
    ensures var e := EffectiveWeights(w);
      var total := e[0] + e[1] + e[2] + e[3] + e[4];
      && total > 0.0 && Sum(e, 5) == total
      && Scale(SqlMean(a, b, w), total)
         == Scale(e[0], Agreement(a, b, 0)) + Scale(e[1], Agreement(a, b, 1)) + Scale(e[2], Agreement(a, b, 2))
          + Scale(e[3], Agreement(a, b, 3)) + Scale(e[4], Agreement(a, b, 4))
  {
    hide EffectiveWeights, Scale, Quotient, Agreement;
    var e := EffectiveWeights(w);
    EffectiveWeightsArePositive(w);
    SumsWrittenOut(e, a, b);
    QuotientInverts(WeightedSum(e, a, b, 5), Sum(e, 5));
  }

  lemma SumsWrittenOut(e: seq<real>, a: Vector, b: Vector)
    requires |e| == 5
    ensures Sum(e, 5) == e[0] + e[1] + e[2] + e[3] + e[4]
    ensures WeightedSum(e, a, b, 5)
            == Scale(e[0], Agreement(a, b, 0)) + Scale(e[1], Agreement(a, b, 1)) + Scale(e[2], Agreement(a, b, 2))
             + Scale(e[3], Agreement(a, b, 3)) + Scale(e[4], Agreement(a, b, 4))
  {
    hide Scale, Agreement;
    assert Sum(e, 1) == e[0] && Sum(e, 2) == Sum(e, 1) + e[1] && Sum(e, 3) == Sum(e, 2) + e[2] && Sum(e, 4) == Sum(e, 3) + e[3];
    assert WeightedSum(e, a, b, 1) == Scale(e[0], Agreement(a, b, 0));
    assert WeightedSum(e, a, b, 2) == WeightedSum(e, a, b, 1) + Scale(e[1], Agreement(a, b, 1));
    assert WeightedSum(e, a, b, 3) == WeightedSum(e, a, b, 2) + Scale(e[2], Agreement(a, b, 2));
    assert WeightedSum(e, a, b, 4) == WeightedSum(e, a, b, 3) + Scale(e[3], Agreement(a, b, 3));
  }

  lemma AgreementIs(a: Vector, b: Vector)
    requires IsComplete(a) && IsComplete(b)
    ensures Agreement(a, b, 0) == 1.0 - Apart(a[Openness].r, b[Openness].r)
    ensures Agreement(a, b, 1) == 1.0 - Apart(a[Conscientiousness].r, b[Conscientiousness].r)
    ensures Agreement(a, b, 2) == 1.0 - Apart(a[Extraversion].r, b[Extraversion].r)
    ensures Agreement(a, b, 3) == 1.0 - Apart(a[Agreeableness].r, b[Agreeableness].r)
    ensures Agreement(a, b, 4) == 1.0 - Apart(a[Neuroticism].r, b[Neuroticism].r)
  {
  }

  lemma QuotientInverts(x: real, y: real)
    requires y > 0.0
    ensures Scale(Quotient(x, y), y) == x
  {
  }

  /** The Go scorer agrees with the query on complete vectors, and is neutral on any other. */
  method Compatibility(a: Vector, b: Vector, weights: Weights) returns (score: real)
    ensures Sum(EffectiveWeights(weights), 5) > 0.0
    ensures score == if IsComplete(a) && IsComplete(b) then SqlMean(a, b, weights) else 0.5
  {
    hide Scale, Quotient, EffectiveWeights, IsComplete, Weight;
    EffectiveWeightsArePositive(weights);
    var ca := Complete(a);
    var cb := Complete(b);
    CompleteMeans(a);
    CompleteMeans(b);
    if !ca || !cb {
      return NEUTRAL_SCORE;
    }
    var effective := OrderedWeights(weights);
    var weighted, total := 0.0, 0.0;
    for i := 0 to 5
      invariant weighted == WeightedSum(effective, a, b, i)
      invariant total == Sum(effective, i)
    {
      var agreement := 1.0 - Abs(Value(a, TRAIT_KEYS[i]) - Value(b, TRAIT_KEYS[i]));
      weighted := weighted + Scale(effective[i], agreement);
      total := total + effective[i];
    }
    if total <= 0.0 {
      return NEUTRAL_SCORE;
    }
    MeanIsAScore(a, b, weights);
    score := Quotient(weighted, total);
    if score < 0.0 {
      score := 0.0;
    } else if score > 1.0 {
      score := 1.0;
    }
  }

  lemma CompleteMeans(v: Vector)
    ensures IsComplete(v) <==> forall k :: IsTraitKey(k) ==> k in v && v[k].Fin? && 0.0 <= v[k].r <= 1.0
  {
  }
}
