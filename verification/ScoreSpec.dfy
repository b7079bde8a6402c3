/**
  What an assessment is worth: sums over the question bank, counted in quarters, and scores
  in ten-thousandths.  Nothing here depends on the order of the answers.
 */
module ScoreSpec {
  import opened Basics
  import opened Traits

  type Id = nat

  /** `code` stands for the question's code by its rank among all codes. */
  datatype Question = Question(id: Id, code: nat, trait_: Key, direction: int)
  datatype Answer = Answer(id: Id, value: int)

  type Values = map<Id, int>

  predicate InBounds(v: int) {
    1 <= v <= 5
  }

  ghost predicate DistinctIds(questions: seq<Question>) {
    forall i, j | 0 <= i < j < |questions| :: questions[i].id != questions[j].id
  }

  /** Four times the normalized answer: 0 to 4, turned round for a reverse-keyed item. */
  function Quarters(q: Question, v: int): int {
    if q.direction < 0 then 4 - (v - 1) else v - 1
  }

  /** The quarters collected by `key` from the questions answered so far. */
  function Total(questions: seq<Question>, values: Values, key: Key): int {
    if questions == [] then 0
    else
      var q := questions[|questions| - 1];
      Total(questions[..|questions| - 1], values, key)
        + if q.trait_ == key && q.id in values then Quarters(q, values[q.id]) else 0
  }

  function Count(questions: seq<Question>, values: Values, key: Key): nat {
    if questions == [] then 0
    else
      var q := questions[|questions| - 1];
      Count(questions[..|questions| - 1], values, key) + if q.trait_ == key && q.id in values then 1 else 0
  }

  /** round(total / 4 / count, 4 decimals), half away from zero, in ten-thousandths. */
  function Rounded(total: int, count: nat): int
    requires count >= 1
  {
    (5000 * total + count) / (2 * count)
  }

  /** The last answer given to each question. */
  function ValuesOf(answers: seq<Answer>): Values {
    if answers == [] then map[]
    else ValuesOf(answers[..|answers| - 1])[answers[|answers| - 1].id := answers[|answers| - 1].value]
  }

  /** Every question answered exactly once, nothing else answered, every value from 1 to 5. */
  ghost predicate IsBijection(questions: seq<Question>, answers: seq<Answer>) {
    && (forall i, j | 0 <= i < j < |answers| :: answers[i].id != answers[j].id)
    && (forall i | 0 <= i < |answers| :: InBounds(answers[i].value) && Asked(questions, answers[i].id))
    && (forall j | 0 <= j < |questions| :: Answered(answers, questions[j].id))
  }

  ghost predicate Asked(questions: seq<Question>, id: Id) {
    exists j :: 0 <= j < |questions| && questions[j].id == id
  }

  ghost predicate Answered(answers: seq<Answer>, id: Id) {
    exists i :: 0 <= i < |answers| && answers[i].id == id
  }

  type Scores = map<Key, int>

  ghost predicate IsScore(questions: seq<Question>, values: Values, scores: Scores) {
    && (forall k :: k in scores <==> IsTraitKey(k))
    && (forall k | k in scores :: Count(questions, values, k) >= 1
                                  && scores[k] == Rounded(Total(questions, values, k), Count(questions, values, k)))
  }

  // ---- Answers one at a time ----

  lemma {:induction false} ValuesKeys(answers: seq<Answer>, id: Id)
    ensures id in ValuesOf(answers) <==> Answered(answers, id)
    decreases |answers|
  {
    if answers != [] {
      var n := |answers| - 1;
      ValuesKeys(answers[..n], id);
      if Answered(answers[..n], id) {
        var i :| 0 <= i < n && answers[..n][i].id == id;
        assert answers[i].id == id;
      }
      if Answered(answers, id) && answers[n].id != id {
        var i :| 0 <= i < |answers| && answers[i].id == id;
        assert answers[..n][i].id == id;
      }
      assert answers[n].id == id ==> Answered(answers, id);
    }
  }

  lemma {:induction false} ValuesAt(answers: seq<Answer>, i: nat)
    requires i < |answers| && forall j, k | 0 <= j < k < |answers| :: answers[j].id != answers[k].id
    ensures answers[i].id in ValuesOf(answers) && ValuesOf(answers)[answers[i].id] == answers[i].value
    decreases |answers|
  {
    var n := |answers| - 1;
    if i < n {
      ValuesAt(answers[..n], i);
      assert answers[..n][i] == answers[i];
    }
  }

  /** Answering one more question adds its quarters to its own trait and to nothing else. */
  lemma {:induction false} OneMoreAnswer(questions: seq<Question>, values: Values, j: nat, v: int, key: Key)
    requires DistinctIds(questions) && j < |questions| && questions[j].id !in values
    ensures Total(questions, values[questions[j].id := v], key)
            == Total(questions, values, key) + if questions[j].trait_ == key then Quarters(questions[j], v) else 0
    ensures Count(questions, values[questions[j].id := v], key)
            == Count(questions, values, key) + if questions[j].trait_ == key then 1 else 0
    decreases |questions|
  {
    var n := |questions| - 1;
    if j == n {
      UnaskedChangesNothing(questions[..n], values, questions[j].id, v, key);
    } else {
      OneMoreAnswer(questions[..n], values, j, v, key);
    }
  }

  lemma {:induction false} UnaskedChangesNothing(questions: seq<Question>, values: Values, id: Id, v: int, key: Key)
    requires forall i | 0 <= i < |questions| :: questions[i].id != id
    ensures Total(questions, values[id := v], key) == Total(questions, values, key)
    ensures Count(questions, values[id := v], key) == Count(questions, values, key)
    decreases |questions|
  {
    if questions != [] {
      UnaskedChangesNothing(questions[..|questions| - 1], values, id, v, key);
    }
  }

  lemma {:induction false} NothingAnswered(questions: seq<Question>, key: Key)
    ensures Total(questions, map[], key) == 0 && Count(questions, map[], key) == 0
    decreases |questions|
  {
    if questions != [] {
      NothingAnswered(questions[..|questions| - 1], key);
    }
  }

  // ---- Scores are in range ----

  lemma {:induction false} TotalBounds(questions: seq<Question>, values: Values, key: Key)
    requires forall id | id in values :: InBounds(values[id])
    ensures 0 <= Total(questions, values, key) <= 4 * Count(questions, values, key)
    decreases |questions|
  {
    if questions != [] {
      TotalBounds(questions[..|questions| - 1], values, key);
    }
  }

  lemma RoundedBounds(total: int, count: nat)
    requires count >= 1 && 0 <= total <= 4 * count
    ensures 0 <= Rounded(total, count) <= 10000
  {
    QuotientWithin(0, 2 * count, 5000 * total + count, 10000);
  }

  /** Turning every answer round turns the score round, except that a tie is rounded up both times. */
  lemma RoundedFlip(total: int, count: nat)
    requires count >= 1
    ensures Rounded(total, count) + Rounded(4 * count - total, count)
            == if (5000 * total + count) % (2 * count) == 0 then 10001 else 10000
  {
    var a, m := 5000 * total + count, 2 * count;
    var b := 5000 * (4 * count - total) + count;
    assert a + b == 10001 * m;
    var q, r := a / m, a % m;
    assert a == m * q + r && 0 <= r < m;
    if r == 0 {
      assert b == m * (10001 - q) by { MulMinus(m, 10001, q); }
      QuotientIs(b, m, 10001 - q, 0);
    } else {
      assert b == m * (10000 - q) + (m - r) by { MulMinus(m, 10000, q); }
      QuotientIs(b, m, 10000 - q, m - r);
    }
  }

  lemma MulMinus(m: int, a: int, b: int)
    ensures m * (a - b) == m * a - m * b
  {
  }

  function Flipped(values: Values): Values {
    map id | id in values :: 6 - values[id]
  }

  lemma {:induction false} TotalFlip(questions: seq<Question>, values: Values, key: Key)
    ensures Total(questions, Flipped(values), key) == 4 * Count(questions, values, key) - Total(questions, values, key)
    ensures Count(questions, Flipped(values), key) == Count(questions, values, key)
    decreases |questions|
  {
    if questions != [] {
      TotalFlip(questions[..|questions| - 1], values, key);
    }
  }

  /** The same questionnaire answered the other way round. */
  function FlipAll(answers: seq<Answer>): seq<Answer> {
    seq(|answers|, i requires 0 <= i < |answers| => Answer(answers[i].id, 6 - answers[i].value))
  }

  lemma {:induction false} FlipAllFlipsValues(answers: seq<Answer>)
    ensures ValuesOf(FlipAll(answers)) == Flipped(ValuesOf(answers))
    decreases |answers|
  {
    if answers != [] {
      var n := |answers| - 1;
      FlipAllFlipsValues(answers[..n]);
      assert FlipAll(answers)[..n] == FlipAll(answers[..n]);
    }
  }

  lemma FlipAllIsABijectionToo(questions: seq<Question>, answers: seq<Answer>)
    requires IsBijection(questions, answers)
    ensures IsBijection(questions, FlipAll(answers))
  {
    var flipped := FlipAll(answers);
    forall j | 0 <= j < |questions|
      ensures Answered(flipped, questions[j].id)
    {
      assert Answered(answers, questions[j].id);
      var i :| 0 <= i < |answers| && answers[i].id == questions[j].id;
      assert flipped[i].id == questions[j].id;
    }
  }

  /** Per trait, the two rounded means add up to one, or to one and a unit at a tie. */
  lemma MeansMirror(questions: seq<Question>, answers: seq<Answer>, k: Key)
    requires Count(questions, ValuesOf(answers), k) >= 1
    ensures var values, mirror := ValuesOf(answers), ValuesOf(FlipAll(answers));
            var total, count := Total(questions, values, k), Count(questions, values, k);
      && Count(questions, mirror, k) == count
      && Rounded(total, count) + Rounded(Total(questions, mirror, k), count)
         == if IsTie(questions, values, k) then 10001 else 10000
  {
    hide Rounded, Total, Count, ValuesOf;
    var values := ValuesOf(answers);
    FlipAllFlipsValues(answers);
    TotalFlip(questions, values, k);
    RoundedFlip(Total(questions, values, k), Count(questions, values, k));
  }

  /** The bank and the answers leave Score no choice. */
  lemma ScoreIsDetermined(questions: seq<Question>, values: Values, a: Scores, b: Scores)
    requires IsScore(questions, values, a) && IsScore(questions, values, b)
    ensures a == b
  {
    assert forall k :: k in a <==> k in b;
  }

  /**
    The same questionnaire with every v replaced by 6 - v is accepted too, and every trait of
    its score is 1 - t, in ten-thousandths, save that a tie is rounded up in both.
   */
  lemma FlippingMirrors(questions: seq<Question>, answers: seq<Answer>, a: Scores, b: Scores, k: Key)
    requires IsBijection(questions, answers)
    requires IsScore(questions, ValuesOf(answers), a) && IsScore(questions, ValuesOf(FlipAll(answers)), b)
    requires IsTraitKey(k)
    ensures IsBijection(questions, FlipAll(answers))
    ensures k in a && k in b
    ensures a[k] + b[k] == if IsTie(questions, ValuesOf(answers), k) then 10001 else 10000
  {
    hide Rounded, Total, Count, ValuesOf;
    FlipAllIsABijectionToo(questions, answers);
    MeansMirror(questions, answers, k);
  }

  /** The mean of the trait lies half way between two ten-thousandths. */
  predicate IsTie(questions: seq<Question>, values: Values, k: Key) {
    var count := Count(questions, values, k);
    count >= 1 && (5000 * Total(questions, values, k) + count) % (2 * count) == 0
  }

  // ---- What an answer is worth ----

  /** Every item of the trait is answered, forward ones with `forward` and reverse-keyed ones with `reversed`. */
  ghost predicate AnsweredWith(questions: seq<Question>, values: Values, key: Key, forward: int, reversed: int) {
    forall j | 0 <= j < |questions| && questions[j].trait_ == key ::
      questions[j].id in values && values[questions[j].id] == if questions[j].direction < 0 then reversed else forward
  }

  lemma {:induction false} UniformTotal(questions: seq<Question>, values: Values, key: Key, forward: int)
    requires AnsweredWith(questions, values, key, forward, 6 - forward)
    ensures Total(questions, values, key) == Count(questions, values, key) * (forward - 1)
    decreases |questions|
  {
    if questions != [] {
      var n := |questions| - 1;
      UniformTotal(questions[..n], values, key, forward);
      Distributes(Count(questions[..n], values, key), forward - 1);
    }
  }

  lemma Distributes(n: nat, v: int)
    ensures (n + 1) * v == n * v + v
  {
  }

  lemma RoundedMultiple(count: nat, v: int)
    requires count >= 1
    ensures Rounded(count * v, count) == 2500 * v
  {
    assert 5000 * (count * v) + count == (2 * count) * (2500 * v) + count;
    QuotientIs(5000 * (count * v) + count, 2 * count, 2500 * v, count);
  }

  /**
    Answering all of a trait's items alike, reverse-keyed ones turned round, scores a quarter a
    step: all the way up at 5 and 1, nothing at 1 and 5, and a bank of one item scores its answer.
   */
  lemma UniformAnswersScore(questions: seq<Question>, values: Values, scores: Scores, key: Key, forward: int)
    requires IsScore(questions, values, scores) && IsTraitKey(key)
    requires AnsweredWith(questions, values, key, forward, 6 - forward)
    ensures key in scores && scores[key] == 2500 * (forward - 1)
    ensures forward == 5 ==> scores[key] == 10000
    ensures forward == 1 ==> scores[key] == 0
  {
    hide Rounded;
    UniformTotal(questions, values, key, forward);
    RoundedMultiple(Count(questions, values, key), forward - 1);
  }

  /** A trait's only item decides its score: 2500 * (v - 1), or 2500 * (5 - v) for a reverse-keyed one. */
  lemma OneItemScores(questions: seq<Question>, values: Values, scores: Scores, j: nat)
    requires IsScore(questions, values, scores)
    requires j < |questions| && IsTraitKey(questions[j].trait_) && questions[j].id in values
    requires forall i | 0 <= i < |questions| && i != j :: questions[i].trait_ != questions[j].trait_
    ensures questions[j].trait_ in scores
    ensures var v := values[questions[j].id];
      scores[questions[j].trait_] == if questions[j].direction < 0 then 2500 * (5 - v) else 2500 * (v - 1)
  {
    var v := values[questions[j].id];
    var forward := if questions[j].direction < 0 then 6 - v else v;
    UniformAnswersScore(questions, values, scores, questions[j].trait_, forward);
  }

  /** Changing one answer moves the total of its own trait by the difference, up or down, and no other. */
  lemma {:induction false} ChangedAnswer(questions: seq<Question>, values: Values, j: nat, v: int, key: Key)
    requires DistinctIds(questions) && j < |questions| && questions[j].id in values
    ensures var d := v - values[questions[j].id];
      Total(questions, values[questions[j].id := v], key)
      == Total(questions, values, key)
         + if questions[j].trait_ != key then 0 else if questions[j].direction < 0 then -d else d
    ensures Count(questions, values[questions[j].id := v], key) == Count(questions, values, key)
    decreases |questions|
  {
    var n := |questions| - 1;
    if j == n {
      UnaskedChangesNothing(questions[..n], values, questions[j].id, v, key);
    } else {
      ChangedAnswer(questions[..n], values, j, v, key);
    }
  }

  lemma RoundedMonotone(a: int, b: int, count: nat)
    requires count >= 1 && a <= b
    ensures Rounded(a, count) <= Rounded(b, count)
  {
    var m := 2 * count;
    var x, y := 5000 * a + count, 5000 * b + count;
    assert x == m * (x / m) + x % m && y == m * (y / m) + y % m;
    MulCancels(m, x / m, y / m + 1);
    assert m * (y / m + 1) == m * (y / m) + m;
  }

  /**
    Raising one answer never lowers the score of its trait if the item is keyed forward, never
    raises it if the item is reverse-keyed, and leaves every other trait as it was.
   */
  lemma RaisingAnAnswer(questions: seq<Question>, values: Values, j: nat, v: int, a: Scores, b: Scores, key: Key)
    requires DistinctIds(questions) && j < |questions| && questions[j].id in values && values[questions[j].id] <= v
    requires IsScore(questions, values, a) && IsScore(questions, values[questions[j].id := v], b) && IsTraitKey(key)
    ensures key in a && key in b
    ensures key != questions[j].trait_ ==> a[key] == b[key]
    ensures key == questions[j].trait_ && questions[j].direction >= 0 ==> a[key] <= b[key]
    ensures key == questions[j].trait_ && questions[j].direction < 0 ==> b[key] <= a[key]
  {
    hide Rounded, Total, Count;
    var raised := values[questions[j].id := v];
    ChangedAnswer(questions, values, j, v, key);
    var count := Count(questions, values, key);
    var before, after := Total(questions, values, key), Total(questions, raised, key);
    if before <= after {
      RoundedMonotone(before, after, count);
    }
    if after <= before {
      RoundedMonotone(after, before, count);
    }
  }

  /** The score of a trait is the ten-thousandth nearest to its mean, the upper one at a tie. */
  lemma ScoreIsNearestToTheMean(questions: seq<Question>, values: Values, scores: Scores, key: Key)
    requires IsScore(questions, values, scores) && IsTraitKey(key)
    ensures key in scores && Count(questions, values, key) >= 1
    ensures var count := Count(questions, values, key);
      var error := 4 * (scores[key] * count) - 10000 * Total(questions, values, key);
      -2 * count < error <= 2 * count
  {
    hide Total, Count;
    NearestQuotient(Total(questions, values, key), Count(questions, values, key));
  }

  lemma NearestQuotient(total: int, count: nat)
    requires count >= 1
    ensures -2 * count < 4 * (Rounded(total, count) * count) - 10000 * total <= 2 * count
  {
    var m, x := 2 * count, 5000 * total + count;
    assert x == m * (x / m) + x % m;
    assert m * (x / m) == 2 * (x / m * count);
  }

  /** The score as the rest of the system sees it. */
  function AsVector(scores: Scores): Vector {
    map k | k in scores :: Fin(scores[k] as real / 10000.0)
  }

  lemma ScoreIsComplete(questions: seq<Question>, values: Values, scores: Scores)
    requires IsScore(questions, values, scores) && forall id | id in values :: InBounds(values[id])
    ensures IsComplete(AsVector(scores))
    ensures forall k | IsTraitKey(k) :: k in scores && AsVector(scores)[k].r * 10000.0 == scores[k] as real
  {
    hide Total, Count, Rounded;
    forall k | IsTraitKey(k)
      ensures k in AsVector(scores) && InUnit(AsVector(scores)[k])
    {
      assert k in scores;
      TotalBounds(questions, values, k);
      RoundedBounds(Total(questions, values, k), Count(questions, values, k));
    }
  }

  lemma SameBijection(questions: seq<Question>, a: seq<Answer>, b: seq<Answer>)
    requires multiset(a) == multiset(b) && IsBijection(questions, a)
    ensures IsBijection(questions, b)
  {
    hide Asked;
    SameAnswers(a, b);
    forall i | 0 <= i < |b|
      ensures InBounds(b[i].value) && Asked(questions, b[i].id)
    {
      assert b[i] in multiset(a);
    }
    forall j | 0 <= j < |questions|
      ensures Answered(b, questions[j].id)
    {
      assert Answered(a, questions[j].id);
      var i :| 0 <= i < |a| && a[i].id == questions[j].id;
      assert a[i] in multiset(b);
    }
  }

  /** Two lists of the same answers in any order are worth the same. */
  lemma OrderDoesNotMatter(questions: seq<Question>, a: seq<Answer>, b: seq<Answer>)
    requires multiset(a) == multiset(b) && IsBijection(questions, a)
    ensures IsBijection(questions, b) && ValuesOf(a) == ValuesOf(b)
  {
    SameBijection(questions, a, b);
    hide ValuesOf, Asked, Answered;
    forall id
      ensures id in ValuesOf(a) <==> id in ValuesOf(b)
      ensures id in ValuesOf(a) ==> ValuesOf(a)[id] == ValuesOf(b)[id]
    {
      SameValue(a, b, id);
    }
  }

  lemma SameValue(a: seq<Answer>, b: seq<Answer>, id: Id)
    requires multiset(a) == multiset(b)
    requires forall i, j | 0 <= i < j < |a| :: a[i].id != a[j].id
    requires forall i, j | 0 <= i < j < |b| :: b[i].id != b[j].id
    ensures id in ValuesOf(a) <==> id in ValuesOf(b)
    ensures id in ValuesOf(a) ==> ValuesOf(a)[id] == ValuesOf(b)[id]
  {
    hide ValuesOf;
    ValuesKeys(a, id);
    ValuesKeys(b, id);
    if Answered(a, id) {
      var i :| 0 <= i < |a| && a[i].id == id;
      assert a[i] in multiset(b);
      var j :| 0 <= j < |b| && b[j] == a[i];
      ValuesAt(a, i);
      ValuesAt(b, j);
    }
    if Answered(b, id) {
      var j :| 0 <= j < |b| && b[j].id == id;
      assert b[j] in multiset(a);
      var i :| 0 <= i < |a| && a[i] == b[j];
    }
  }

  /** Distinctness of ids is a matter of the multiset too. */
  lemma SameAnswers(a: seq<Answer>, b: seq<Answer>)
    requires multiset(a) == multiset(b)
    requires forall i, j | 0 <= i < j < |a| :: a[i].id != a[j].id
    ensures forall i, j | 0 <= i < j < |b| :: b[i].id != b[j].id
  {
    forall i, j | 0 <= i < j < |b|
      ensures b[i].id != b[j].id
    {
      if b[i].id == b[j].id {
        assert b[i] in multiset(a) && b[j] in multiset(a);
        var k :| 0 <= k < |a| && a[k] == b[i];
        var l :| 0 <= l < |a| && a[l] == b[j];
        assert k == l;
        TwoCopies(b, i, j);
        OneCopy(a, k);
      }
    }
  }

  lemma TwoCopies<T>(s: seq<T>, i: nat, j: nat)
    requires i < j < |s| && s[i] == s[j]
    ensures multiset(s)[s[i]] >= 2
  {
    assert s == s[..i] + [s[i]] + s[i + 1..j] + [s[j]] + s[j + 1..];
  }

  lemma OneCopy(a: seq<Answer>, k: nat)
    requires k < |a| && forall i, j | 0 <= i < j < |a| :: a[i].id != a[j].id
    ensures multiset(a)[a[k]] == 1
  {
    assert a == a[..k] + [a[k]] + a[k + 1..];
    assert a[k] !in a[..k] && a[k] !in a[k + 1..];
  }
}
