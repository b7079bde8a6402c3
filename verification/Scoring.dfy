/**
  personality/scoring.go: Score, answer by answer.
 */
module Scoring {
  import opened Traits
  import opened ScoreSpec

  datatype Error =
    | EmptyBank
    | UnknownQuestion(index: nat)
    | AnsweredTwice(index: nat)
    | ValueOutOfRange(index: nat)
    | Missing(listed: seq<nat>, more: nat)
    | NoItems(key: Key)
    | Invalid

  datatype Result<T> = Ok(value: T) | Err(error: Error)

  datatype Tally = Tally(values: Values, sums: map<Key, int>, counts: map<Key, nat>)

  function At<T>(m: map<Key, T>, k: Key, zero: T): T {
    if k in m then m[k] else zero
  }

  /** byID: the last question of each id. */
  method ById(questions: seq<Question>) returns (byId: map<Id, Question>)
    ensures forall id :: id in byId <==> Asked(questions, id)
    ensures forall id | id in byId :: byId[id].id == id && exists j :: 0 <= j < |questions| && questions[j] == byId[id]
  {
    byId := map[];
    for n := 0 to |questions|
      invariant forall id :: id in byId <==> Asked(questions[..n], id)
      invariant forall id | id in byId :: byId[id].id == id && exists j :: 0 <= j < n && questions[j] == byId[id]
    {
      AskedNext(questions, n);
      byId := byId[questions[n].id := questions[n]];
    }
    assert questions[..|questions|] == questions;
  }

  lemma AskedNext(questions: seq<Question>, n: nat)
    requires n < |questions|
    ensures forall id :: Asked(questions[..n + 1], id) <==> Asked(questions[..n], id) || questions[n].id == id
  {
    forall id
      ensures Asked(questions[..n + 1], id) <==> Asked(questions[..n], id) || questions[n].id == id
    {
      if Asked(questions[..n], id) {
        var j :| 0 <= j < n && questions[..n][j].id == id;
        assert questions[..n + 1][j].id == id;
      }
      if Asked(questions[..n + 1], id) && questions[n].id != id {
        var j :| 0 <= j < n + 1 && questions[..n + 1][j].id == id;
        assert questions[..n][j].id == id;
      }
      assert questions[..n + 1][n] == questions[n];
    }
  }

  /** The sums and counts kept so far are those of the bank. */
  ghost predicate Tallied(questions: seq<Question>, t: Tally) {
    && (forall k :: At(t.sums, k, 0) == Total(questions, t.values, k))
    && (forall k :: At(t.counts, k, 0) == Count(questions, t.values, k))
  }

  /** The answers in front of index n are distinct, known and in bounds. */
  ghost predicate Accepted(questions: seq<Question>, answers: seq<Answer>, n: nat)
    requires n <= |answers|
  {
    && (forall i, j | 0 <= i < j < n :: answers[i].id != answers[j].id)
    && (forall i | 0 <= i < n :: InBounds(answers[i].value) && Asked(questions, answers[i].id))
  }

  function AddAnswer(t: Tally, q: Question, v: int): Tally {
    Tally(t.values[q.id := v],
          t.sums[q.trait_ := At(t.sums, q.trait_, 0) + Quarters(q, v)],
          t.counts[q.trait_ := At(t.counts, q.trait_, 0) + 1])
  }

  lemma AddKeepsTally(questions: seq<Question>, t: Tally, j: nat, v: int)
    requires DistinctIds(questions) && j < |questions| && questions[j].id !in t.values && Tallied(questions, t)
    ensures Tallied(questions, AddAnswer(t, questions[j], v))
  {
    hide Total, Count;
    var t' := AddAnswer(t, questions[j], v);
    forall k
      ensures At(t'.sums, k, 0) == Total(questions, t'.values, k)
      ensures At(t'.counts, k, 0) == Count(questions, t'.values, k)
    {
      OneMoreAnswer(questions, t.values, j, v, k);
    }
  }

  /** The error names the first answer at fault, and the first thing wrong with it. */
  ghost predicate Offends(questions: seq<Question>, answers: seq<Answer>, e: Error) {
    && (e.UnknownQuestion? || e.AnsweredTwice? || e.ValueOutOfRange?)
    && e.index < |answers| && Accepted(questions, answers, e.index)
    && var a := answers[e.index];
       match e
       case UnknownQuestion(_) => !Asked(questions, a.id)
       case AnsweredTwice(i) => Asked(questions, a.id) && Answered(answers[..i], a.id)
       case _ => Asked(questions, a.id) && !Answered(answers[..e.index], a.id) && !(1 <= a.value <= 5)
  }

  /** The loop over the answers: it stops at the first one that is unknown, repeated or out of range. */
  method TallyAnswers(questions: seq<Question>, answers: seq<Answer>) returns (r: Result<Tally>)
    requires DistinctIds(questions)
    ensures r.Ok? <==> Accepted(questions, answers, |answers|)
    ensures r.Ok? ==> r.value.values == ValuesOf(answers) && Tallied(questions, r.value)
    ensures r.Err? ==> Offends(questions, answers, r.error)
  {
    hide Total, Count, ValuesOf, Asked;
    var byId := ById(questions);
    var t := Tally(map[], map[], map[]);
    StartIsTallied(questions);
    for i := 0 to |answers|
      invariant Accepted(questions, answers, i)
      invariant t.values == ValuesOf(answers[..i])
      invariant Tallied(questions, t)
    {
      var a := answers[i];
      if a.id !in byId {
        return Err(UnknownQuestion(i));
      }
      ValuesKeys(answers[..i], a.id);
      if a.id in t.values {
        RepeatIsRefused(answers, i);
        return Err(AnsweredTwice(i));
      }
      if a.value < 1 || a.value > 5 {
        return Err(ValueOutOfRange(i));
      }
      NewIsDistinct(answers, i);
      var j: nat :| j < |questions| && questions[j] == byId[a.id];
      AddKeepsTally(questions, t, j, a.value);
      ValuesNext(answers, i);
      t := AddAnswer(t, byId[a.id], a.value);
    }
    assert answers[..|answers|] == answers;
    return Ok(t);
  }

  lemma StartIsTallied(questions: seq<Question>)
    ensures Tallied(questions, Tally(map[], map[], map[])) && ValuesOf([]) == map[]
  {
    forall k
      ensures Total(questions, map[], k) == 0 && Count(questions, map[], k) == 0
    {
      NothingAnswered(questions, k);
    }
  }

  lemma RepeatIsRefused(answers: seq<Answer>, i: nat)
    requires i < |answers| && Answered(answers[..i], answers[i].id)
    ensures exists j :: 0 <= j < i && answers[j].id == answers[i].id
  {
    var j :| 0 <= j < i && answers[..i][j].id == answers[i].id;
    assert answers[j].id == answers[i].id;
  }

  lemma NewIsDistinct(answers: seq<Answer>, i: nat)
    requires i < |answers| && !Answered(answers[..i], answers[i].id)
    ensures forall j | 0 <= j < i :: answers[j].id != answers[i].id
  {
    forall j | 0 <= j < i
      ensures answers[j].id != answers[i].id
    {
      assert answers[..i][j] == answers[j];
    }
  }

  lemma ValuesNext(answers: seq<Answer>, i: nat)
    requires i < |answers|
    ensures ValuesOf(answers[..i + 1]) == ValuesOf(answers[..i])[answers[i].id := answers[i].value]
  {
    assert answers[..i + 1][..i] == answers[..i];
  }

  // ---- Missing questions ----

  const MAX_LISTED := 5

  /** The codes of the questions without an answer, in bank order. */
  function UnansweredCodes(questions: seq<Question>, values: Values): seq<nat> {
    if questions == [] then []
    else
      var q := questions[|questions| - 1];
      UnansweredCodes(questions[..|questions| - 1], values) + if q.id in values then [] else [q.code]
  }

  predicate Sorted(s: seq<nat>) {
    forall i, j | 0 <= i < j < |s| :: s[i] <= s[j]
  }

  method InsertCode(sorted: seq<nat>, code: nat) returns (r: seq<nat>)
    requires Sorted(sorted)
    ensures Sorted(r) && multiset(r) == multiset(sorted) + multiset{code}
  {
    var i := 0;
    while i < |sorted| && sorted[i] <= code
      invariant 0 <= i <= |sorted|
      invariant forall j | 0 <= j < i :: sorted[j] <= code
    {
      i := i + 1;
    }
    r := sorted[..i] + [code] + sorted[i..];
    InsertionSorts(sorted, i, code);
  }

  lemma InsertionSorts(sorted: seq<nat>, i: nat, code: nat)
    requires Sorted(sorted) && i <= |sorted|
    requires forall j | 0 <= j < i :: sorted[j] <= code
    requires i < |sorted| ==> code < sorted[i]
    ensures Sorted(sorted[..i] + [code] + sorted[i..])
    ensures multiset(sorted[..i] + [code] + sorted[i..]) == multiset(sorted) + multiset{code}
  {
    assert sorted == sorted[..i] + sorted[i..];
  }

  /** sort.Strings */
  method SortCodes(codes: seq<nat>) returns (sorted: seq<nat>)
    ensures Sorted(sorted) && multiset(sorted) == multiset(codes)
  {
    sorted := [];
    for n := 0 to |codes|
      invariant Sorted(sorted) && multiset(sorted) == multiset(codes[..n])
    {
      assert codes[..n + 1] == codes[..n] + [codes[n]];
      sorted := InsertCode(sorted, codes[n]);
    }
    assert codes[..|codes|] == codes;
  }

  /** The codes still missing, sorted, five of them by name and the rest by number. */
  ghost predicate ListsMissing(codes: seq<nat>, listed: seq<nat>, more: nat) {
    exists sorted: seq<nat> ::
      && Sorted(sorted) && multiset(sorted) == multiset(codes)
      && |sorted| == |listed| + more && listed == sorted[..|listed|]
      && (if |sorted| <= 5 then more == 0 else |listed| == 5)
  }

  /** How many questions with this code have no answer. */
  function UnansweredWith(questions: seq<Question>, answers: seq<Answer>, code: nat): nat {
    if questions == [] then 0
    else
      var q := questions[|questions| - 1];
      UnansweredWith(questions[..|questions| - 1], answers, code)
        + if q.code == code && (forall i | 0 <= i < |answers| :: answers[i].id != q.id) then 1 else 0
  }

  /** The missing codes are those of the questions nobody answered, each as often as it occurs. */
  lemma {:induction false} UnansweredCodesAreMissing(questions: seq<Question>, answers: seq<Answer>, code: nat)
    ensures multiset(UnansweredCodes(questions, ValuesOf(answers)))[code] == UnansweredWith(questions, answers, code)
    decreases |questions|
  {
    hide ValuesOf;
    if questions != [] {
      var n := |questions| - 1;
      UnansweredCodesAreMissing(questions[..n], answers, code);
      ValuesKeys(answers, questions[n].id);
    }
  }

  method MissingCodes(questions: seq<Question>, values: Values) returns (listed: seq<nat>, more: nat)
    ensures ListsMissing(UnansweredCodes(questions, values), listed, more)
    ensures Lists(UnansweredCodes(questions, values), listed, more)
  {
    var missing: seq<nat> := [];
    for n := 0 to |questions|
      invariant missing == UnansweredCodes(questions[..n], values)
    {
      assert questions[..n + 1][..n] == questions[..n];
      if questions[n].id !in values {
        missing := missing + [questions[n].code];
      }
    }
    assert questions[..|questions|] == questions;
    var sorted := SortCodes(missing);
    if |sorted| > MAX_LISTED {
      listed, more := sorted[..MAX_LISTED], |sorted| - MAX_LISTED;
    } else {
      listed, more := sorted, 0;
    }
    assert listed == sorted[..|listed|];
    ListedFirst(missing, sorted, listed, more);
  }

  /** The listed codes are the least of the missing ones, in order; the others are counted. */
  ghost predicate Lists(codes: seq<nat>, listed: seq<nat>, more: nat) {
    && |listed| + more == |codes| && |listed| <= 5 && (more > 0 ==> |listed| == 5)
    && (forall i | 0 < i < |listed| :: listed[i - 1] <= listed[i])
    && (forall c | c in listed :: c in codes)
    && (forall c, d | c in codes && c !in listed && d in listed :: d <= c)
  }

  lemma ListedFirst(codes: seq<nat>, sorted: seq<nat>, listed: seq<nat>, more: nat)
    requires Sorted(sorted) && multiset(sorted) == multiset(codes)
    requires |sorted| == |listed| + more && listed == sorted[..|listed|]
    requires if |sorted| <= 5 then more == 0 else |listed| == 5
    ensures Lists(codes, listed, more)
  {
    assert |sorted| == |multiset(sorted)| == |codes|;
    forall c
      ensures c in codes <==> c in sorted
    {
      assert c in codes <==> c in multiset(codes);
      assert c in sorted <==> c in multiset(sorted);
    }
  }

  lemma {:induction false} NothingMissing(questions: seq<Question>, values: Values)
    ensures UnansweredCodes(questions, values) == [] <==> forall j | 0 <= j < |questions| :: questions[j].id in values
    decreases |questions|
  {
    if questions != [] {
      NothingMissing(questions[..|questions| - 1], values);
    }
  }

  lemma NothingListed(codes: seq<nat>, listed: seq<nat>, more: nat)
    requires ListsMissing(codes, listed, more)
    ensures listed == [] <==> codes == []
  {
    var sorted: seq<nat> :| Sorted(sorted) && multiset(sorted) == multiset(codes)
      && |sorted| == |listed| + more && listed == sorted[..|listed|]
      && (if |sorted| <= 5 then more == 0 else |listed| == 5);
    assert |multiset(sorted)| == |multiset(codes)|;
  }

  // ---- The vector ----

  lemma {:induction false} CountIsPositive(questions: seq<Question>, values: Values, key: Key)
    requires forall j | 0 <= j < |questions| :: questions[j].id in values
    ensures Count(questions, values, key) >= 1 <==> exists j :: 0 <= j < |questions| && questions[j].trait_ == key
    decreases |questions|
  {
    if questions != [] {
      var n := |questions| - 1;
      CountIsPositive(questions[..n], values, key);
      if Count(questions[..n], values, key) >= 1 {
        var j :| 0 <= j < n && questions[..n][j].trait_ == key;
        assert questions[j].trait_ == key;
      }
      if j :| 0 <= j < |questions| && questions[j].trait_ == key && j < n {
        assert questions[..n][j].trait_ == key;
      }
    }
  }

  ghost predicate HasItems(questions: seq<Question>, key: Key) {
    exists j :: 0 <= j < |questions| && questions[j].trait_ == key
  }

  method Normalize(questions: seq<Question>, t: Tally) returns (r: Result<Scores>)
    requires Tallied(questions, t)
    requires forall id | id in t.values :: InBounds(t.values[id])
    requires forall j | 0 <= j < |questions| :: questions[j].id in t.values
    ensures r.Ok? <==> forall k :: IsTraitKey(k) ==> HasItems(questions, k)
    ensures r.Ok? ==> IsScore(questions, t.values, r.value)
    ensures r.Err? ==> r.error.NoItems? && !HasItems(questions, r.error.key) && IsTraitKey(r.error.key)
  {
    hide Total, Count, Rounded, HasItems;
    var scores: Scores := map[];
    for i := 0 to |TRAIT_KEYS|
      invariant forall k :: k in scores <==> k in TRAIT_KEYS[..i]
      invariant forall j | 0 <= j < i :: HasItems(questions, TRAIT_KEYS[j])
      invariant forall k | k in scores :: Count(questions, t.values, k) >= 1
                  && scores[k] == Rounded(Total(questions, t.values, k), Count(questions, t.values, k))
                  && 0 <= scores[k] <= 10000
    {
      var key := TRAIT_KEYS[i];
      var count := At(t.counts, key, 0);
      ItemsCount(questions, t.values, key);
      if count == 0 {
        return Err(NoItems(key));
      }
      TotalBounds(questions, t.values, key);
      RoundedBounds(At(t.sums, key, 0), count);
      scores := scores[key := Rounded(At(t.sums, key, 0), count)];
    }
    AllKeys();
    for i := 0 to |TRAIT_KEYS| {
      if scores[TRAIT_KEYS[i]] < 0 || scores[TRAIT_KEYS[i]] > 10000 {
        return Err(Invalid);
      }
    }
    return Ok(scores);
  }

  lemma AllKeys()
    ensures forall k :: k in TRAIT_KEYS[..|TRAIT_KEYS|] <==> IsTraitKey(k)
  {
    assert TRAIT_KEYS[..|TRAIT_KEYS|] == TRAIT_KEYS;
    assert TRAIT_KEYS[0] == Openness && TRAIT_KEYS[1] == Conscientiousness && TRAIT_KEYS[2] == Extraversion
      && TRAIT_KEYS[3] == Agreeableness && TRAIT_KEYS[4] == Neuroticism;
  }

  lemma ItemsCount(questions: seq<Question>, values: Values, key: Key)
    requires forall j | 0 <= j < |questions| :: questions[j].id in values
    ensures Count(questions, values, key) >= 1 <==> HasItems(questions, key)
  {
    CountIsPositive(questions, values, key);
  }

  /**
    Score succeeds exactly when the answers are a bijection onto the questions with values
    1 to 5 and the bank has an item for every trait.
   */
  method Score(questions: seq<Question>, answers: seq<Answer>) returns (r: Result<Scores>)
    requires DistinctIds(questions)
    ensures r.Ok? <==> questions != [] && IsBijection(questions, answers)
                       && forall k :: IsTraitKey(k) ==> HasItems(questions, k)
    ensures r.Ok? ==> IsScore(questions, ValuesOf(answers), r.value) && IsComplete(AsVector(r.value))
    ensures questions == [] <==> r == Err(EmptyBank)
    ensures questions != [] && !Accepted(questions, answers, |answers|) <==> r.Err? && Offends(questions, answers, r.error)
    ensures (r.Err? && r.error.Missing?)
            <==> (questions != [] && Accepted(questions, answers, |answers|)
                  && exists j :: 0 <= j < |questions| && !Answered(answers, questions[j].id))
    ensures r.Err? && r.error.Missing? ==>
              && r.error.listed != []
              && Lists(UnansweredCodes(questions, ValuesOf(answers)), r.error.listed, r.error.more)
    ensures r.Err? && r.error.NoItems? ==> IsTraitKey(r.error.key) && !HasItems(questions, r.error.key)
    ensures r.Err? ==> !r.error.Invalid?
  {
    hide Total, Count, Rounded, ValuesOf, ListsMissing, HasItems, Tallied, IsComplete, Answered, Asked;
    hide Accepted, IsBijection, IsScore, InBounds, Lists;
    BijectionIs(questions, answers);
    if questions != [] && Accepted(questions, answers, |answers|) {
      NoOffence(questions, answers);
    }
    hide Offends;
    if |questions| == 0 {
      return Err(EmptyBank);
    }
    var tallied := TallyAnswers(questions, answers);
    if tallied.Err? {
      return Err(tallied.error);
    }
    var t := tallied.value;
    var listed, more := MissingCodes(questions, t.values);
    NothingListed(UnansweredCodes(questions, t.values), listed, more);
    NothingMissing(questions, t.values);
    AnsweredIsInValues(questions, answers);
    if |listed| > 0 {
      return Err(Missing(listed, more));
    }
    ValuesInBounds(answers);
    r := Normalize(questions, t);
    if r.Ok? {
      ScoreIsComplete(questions, t.values, r.value);
    }
  }

  /** Accepting every answer and leaving no question out is the bijection. */
  lemma BijectionIs(questions: seq<Question>, answers: seq<Answer>)
    ensures IsBijection(questions, answers)
            <==> Accepted(questions, answers, |answers|) && forall j | 0 <= j < |questions| :: Answered(answers, questions[j].id)
    ensures Accepted(questions, answers, |answers|) ==> forall i | 0 <= i < |answers| :: InBounds(answers[i].value)
  {
    hide Asked, Answered;
  }

  lemma NoOffence(questions: seq<Question>, answers: seq<Answer>)
    requires Accepted(questions, answers, |answers|)
    ensures forall e: Error :: !Offends(questions, answers, e)
  {
    forall e: Error | Offends(questions, answers, e)
      ensures false
    {
      var i := e.index;
      if Answered(answers[..i], answers[i].id) {
        RepeatIsRefused(answers, i);
      }
    }
  }

  lemma AnsweredIsInValues(questions: seq<Question>, answers: seq<Answer>)
    ensures (forall j | 0 <= j < |questions| :: questions[j].id in ValuesOf(answers))
            <==> forall j | 0 <= j < |questions| :: Answered(answers, questions[j].id)
  {
    forall j | 0 <= j < |questions|
      ensures questions[j].id in ValuesOf(answers) <==> Answered(answers, questions[j].id)
    {
      ValuesKeys(answers, questions[j].id);
    }
  }

  lemma {:induction false} ValuesInBounds(answers: seq<Answer>)
    requires forall i | 0 <= i < |answers| :: InBounds(answers[i].value)
    ensures forall id | id in ValuesOf(answers) :: InBounds(ValuesOf(answers)[id])
    decreases |answers|
  {
    if answers != [] {
      ValuesInBounds(answers[..|answers| - 1]);
    }
  }
}
