/**
  Service.Discover and Service.Matches: cursor parsing, the SQL keyset clauses, and the
  page building around them.
 */
module Feed {
  import opened Wrappers
  import opened Cursor
  import opened Keyset
  import Traits

  datatype Error = BadCursor | AssessmentRequired
  datatype Result<T> = Ok(value: T) | Err(error: Error)

  // ---- Discover: ORDER BY score DESC, user_id ASC ----

  /** A scored candidate; the profile columns ride along and play no part. */
  datatype Candidate = Candidate(userId: nat, score: int)

  function CandidateKey(c: Candidate): Key {
    Key(-c.score, c.userId)
  }

  predicate Ranked(a: Candidate, b: Candidate) {
    a.score > b.score || (a.score == b.score && a.userId < b.userId)
  }

  /** s.score < $15::numeric OR (s.score = $15::numeric AND s.user_id > $16), in units of 10^-10. */
  predicate PastDiscoverCursor(cursor: Option<DiscoverCursor>, c: Candidate)
    requires cursor.Some? ==> DecimalPattern(cursor.value.score)
  {
    cursor.None?
    || c.score * Power10(4) < Units(cursor.value.score)
    || (c.score * Power10(4) == Units(cursor.value.score) && c.userId > cursor.value.userId)
  }

  ghost predicate IsDiscoverAnswer(T: set<Candidate>, cursor: Option<DiscoverCursor>, limit: nat, rows: seq<Candidate>)
    requires cursor.Some? ==> DecimalPattern(cursor.value.score)
  {
    && (forall i, j | 0 <= i < j < |rows| :: Ranked(rows[i], rows[j]))
    && |rows| <= limit
    && (forall i | 0 <= i < |rows| :: rows[i] in T && PastDiscoverCursor(cursor, rows[i]))
    && (forall c | c in T && PastDiscoverCursor(cursor, c) && c !in rows ::
          |rows| == limit && forall i | 0 <= i < |rows| :: Ranked(rows[i], c))
  }

  datatype DiscoverPage = DiscoverPage(items: seq<Candidate>, next: Option<Raw<DiscoverCursor>>)

  function DiscoverPageOf(rows: seq<Candidate>, limit: nat): DiscoverPage {
    if |rows| > limit
    then DiscoverPage(rows[..limit],
                      if limit > 0 then Some(EncodeDiscover(rows[limit - 1].score, rows[limit - 1].userId)) else None)
    else DiscoverPage(rows, None)
  }

  function Position<T>(parsed: Parsed<T>): Option<T>
    requires !parsed.BadRequest?
  {
    if parsed.At? then Some(parsed.cursor) else None
  }

  /** `query` is the database: the rows it returns for a position and a LIMIT. */
  method Discover(raw: Raw<DiscoverCursor>, assessed: bool, limit: nat,
                  query: (Option<DiscoverCursor>, nat) -> seq<Candidate>)
    returns (r: Result<DiscoverPage>)
    ensures ParseDiscover(raw).BadRequest? ==> r == Err(BadCursor)
    ensures !ParseDiscover(raw).BadRequest? && !assessed ==> r == Err(AssessmentRequired)
    ensures !ParseDiscover(raw).BadRequest? && assessed ==>
              r == Ok(DiscoverPageOf(query(Position(ParseDiscover(raw)), limit + 1), limit))
    ensures !ParseDiscover(raw).BadRequest? && assessed ==>
              var rows := query(if raw.Empty? then None else Some(raw.fields), limit + 1);
              var n := if limit < |rows| then limit else |rows|;
              && r.Ok? && r.value.items == rows[..n]
              && (r.value.next.Some? <==> limit < |rows| && limit > 0)
              && (r.value.next.Some? ==>
                    r.value.next == Some(Decoded(DiscoverCursor(1, ScoreText(rows[n - 1].score), rows[n - 1].userId))))
  {
    var cursor := ParseDiscover(raw);
    if cursor.BadRequest? {
      return Err(BadCursor);
    }
    if !assessed {
      return Err(AssessmentRequired);
    }
    var candidates := query(Position(cursor), limit + 1);
    var items: seq<Candidate> := [];
    var next: Option<Raw<DiscoverCursor>> := None;
    var hasMore := |candidates| > limit;
    if hasMore {
      candidates := candidates[..limit];
    }
    for i := 0 to |candidates|
      invariant items == candidates[..i]
    {
      items := items + [candidates[i]];
    }
    assert items == candidates;
    if hasMore && |candidates| > 0 {
      var last := candidates[|candidates| - 1];
      next := Some(Decoded(DiscoverCursor(VERSION, ScoreText(last.score), last.userId)));
    }
    return Ok(DiscoverPage(items, next));
  }

  // ---- The clauses are the order ----

  ghost predicate InRange(c: Candidate) {
    0 <= c.score <= MICRO && c.userId != NIL_UUID
  }

  function CandidateKeys(rows: seq<Candidate>): seq<Key> {
    seq(|rows|, i requires 0 <= i < |rows| => CandidateKey(rows[i]))
  }

  ghost function CandidateKeySet(T: set<Candidate>): set<Key> {
    set c | c in T :: CandidateKey(c)
  }

  /** Whatever the candidate's own score, the clause is strictly after the row the cursor was made from. */
  lemma DiscoverClauseIsPast(last: Candidate, c: Candidate)
    requires InRange(last)
    ensures var raw := EncodeDiscover(last.score, last.userId);
      && ParseDiscover(raw).At?
      && (PastDiscoverCursor(Some(ParseDiscover(raw).cursor), c) <==> Less(CandidateKey(last), CandidateKey(c)))
  {
    hide ScoreText, DecimalPattern, Units;
    EmittedCursorAccepted(last.score, last.userId);
    Power10Table();
  }

  /** `raw` is the cursor made from the row with key `after`, or no cursor at all. */
  ghost predicate Names(raw: Raw<DiscoverCursor>, after: Option<Key>) {
    if raw.Empty? then after.None?
    else exists last :: InRange(last) && raw == EncodeDiscover(last.score, last.userId) && after == Some(CandidateKey(last))
  }

  lemma NamesIsPast(raw: Raw<DiscoverCursor>, after: Option<Key>, c: Candidate)
    requires Names(raw, after)
    ensures !ParseDiscover(raw).BadRequest?
    ensures PastDiscoverCursor(Position(ParseDiscover(raw)), c) <==> Past(after, CandidateKey(c))
  {
    hide ScoreText, DecimalPattern, Units;
    if !raw.Empty? {
      var last :| InRange(last) && raw == EncodeDiscover(last.score, last.userId) && after == Some(CandidateKey(last));
      DiscoverClauseIsPast(last, c);
    }
  }

  lemma DiscoverAnswerIsAnswer(
      T: set<Candidate>, raw: Raw<DiscoverCursor>, after: Option<Key>, limit: nat, rows: seq<Candidate>)
    requires Names(raw, after) && !ParseDiscover(raw).BadRequest?
    requires IsDiscoverAnswer(T, Position(ParseDiscover(raw)), limit, rows)
    ensures IsAnswer(CandidateKeySet(T), after, limit, CandidateKeys(rows))
  {
    hide ParseDiscover, PastDiscoverCursor, Names, Past;
    var keys := CandidateKeys(rows);
    forall i | 0 <= i < |rows|
      ensures keys[i] in CandidateKeySet(T) && Past(after, keys[i])
    {
      NamesIsPast(raw, after, rows[i]);
    }
    forall k | k in CandidateKeySet(T) && Past(after, k) && k !in keys
      ensures |keys| == limit && forall i | 0 <= i < |keys| :: Less(keys[i], k)
    {
      var c :| c in T && k == CandidateKey(c);
      NamesIsPast(raw, after, c);
      assert forall i | 0 <= i < |rows| :: keys[i] in keys && rows[i] != c;
    }
  }

  lemma RowsComeFromTheTable(T: set<Candidate>, raw: Raw<DiscoverCursor>, limit: nat, rows: seq<Candidate>)
    requires !ParseDiscover(raw).BadRequest? && IsDiscoverAnswer(T, Position(ParseDiscover(raw)), limit, rows)
    ensures forall i | 0 <= i < |rows| :: rows[i] in T
  {
  }

  lemma DiscoverPageKeys(rows: seq<Candidate>, limit: nat)
    requires limit >= 1 && forall i | 0 <= i < |rows| :: InRange(rows[i])
    ensures var page, keys := DiscoverPageOf(rows, limit), PageOf(CandidateKeys(rows), limit);
      && CandidateKeys(page.items) == keys.items
      && (page.next.Some? <==> keys.next.Some?)
      && (page.next.Some? ==> page.next.value.Decoded? && Names(page.next.value, keys.next))
  {
    var page, keys := DiscoverPageOf(rows, limit), PageOf(CandidateKeys(rows), limit);
    assert CandidateKeys(page.items) == keys.items;
    if |rows| > limit {
      assert InRange(rows[limit - 1]);
    }
  }

  /**
    A client following next_cursor from `raw`.  A walk over no tables is one whose cursor
    was refused.
   */
  ghost predicate IsDiscoverWalk(
      tables: seq<set<Candidate>>, answers: seq<seq<Candidate>>, limit: nat, raw: Raw<DiscoverCursor>)
    decreases |tables|
  {
    && |tables| == |answers|
    && if tables == [] then ParseDiscover(raw).BadRequest?
       else
         && !ParseDiscover(raw).BadRequest?
         && IsDiscoverAnswer(tables[0], Position(ParseDiscover(raw)), limit + 1, answers[0])
         && var next := DiscoverPageOf(answers[0], limit).next;
            if next.None? then |tables| == 1
            else IsDiscoverWalk(tables[1..], answers[1..], limit, next.value)
  }

  ghost function KeyTables(tables: seq<set<Candidate>>): seq<set<Key>> {
    seq(|tables|, i requires 0 <= i < |tables| => CandidateKeySet(tables[i]))
  }

  function KeyAnswers(answers: seq<seq<Candidate>>): seq<seq<Key>> {
    seq(|answers|, i requires 0 <= i < |answers| => CandidateKeys(answers[i]))
  }

  lemma {:induction false} DiscoverWalkIsWalk(
      tables: seq<set<Candidate>>, answers: seq<seq<Candidate>>, limit: nat, raw: Raw<DiscoverCursor>, after: Option<Key>)
    requires limit >= 1 && Names(raw, after) && IsDiscoverWalk(tables, answers, limit, raw)
    requires forall t, c | 0 <= t < |tables| && c in tables[t] :: InRange(c)
    ensures tables != [] && IsWalk(KeyTables(tables), KeyAnswers(answers), limit, after)
    decreases |tables|
  {
    hide ParseDiscover, Names, InRange, IsAnswer, PageOf, DiscoverPageOf, CandidateKeys, CandidateKeySet, IsDiscoverAnswer, Position;
    NamesIsPast(raw, after, Candidate(0, 0));
    DiscoverAnswerIsAnswer(tables[0], raw, after, limit + 1, answers[0]);
    RowsComeFromTheTable(tables[0], raw, limit + 1, answers[0]);
    DiscoverPageKeys(answers[0], limit);
    var next := DiscoverPageOf(answers[0], limit).next;
    if next.Some? {
      DiscoverWalkIsWalk(tables[1..], answers[1..], limit, next.value, PageOf(CandidateKeys(answers[0]), limit).next);
      assert KeyTables(tables)[1..] == KeyTables(tables[1..]);
      assert KeyAnswers(answers)[1..] == KeyAnswers(answers[1..]);
    }
  }

  // ---- Scores ----

  function RoundHalfAway(x: real): int {
    if x < 0.0 then -((-x + 0.5).Floor) else (x + 0.5).Floor
  }

  /** round(mean::numeric, 6), in millionths. */
  ghost function Score(viewer: Traits.Vector, candidate: Traits.Vector, w: Traits.Weights): int
    requires Traits.Sum(Traits.EffectiveWeights(w), 5) != 0.0
  {
    RoundHalfAway(Traits.SqlMean(viewer, candidate, w) * (MICRO as real))
  }

  /** A score is the millionth nearest to the mean; half a millionth is rounded away from zero. */
  lemma ScoreIsNearestToTheMean(viewer: Traits.Vector, candidate: Traits.Vector, w: Traits.Weights)
    ensures Traits.Sum(Traits.EffectiveWeights(w), 5) > 0.0
    ensures var exact, score := Traits.SqlMean(viewer, candidate, w) * 1000000.0, Score(viewer, candidate, w) as real;
      && (exact >= 0.0 ==> -0.5 < score - exact <= 0.5)
      && (exact < 0.0 ==> -0.5 <= score - exact < 0.5)
  {
    Traits.EffectiveWeightsArePositive(w);
  }

  /** Complete vectors score within [0, 1], so the feed never refuses a cursor made from one. */
  lemma CompleteScoresAreInRange(viewer: Traits.Vector, candidate: Traits.Vector, w: Traits.Weights, userId: nat)
    requires Traits.IsComplete(viewer) && Traits.IsComplete(candidate) && userId != NIL_UUID
    ensures Traits.Sum(Traits.EffectiveWeights(w), 5) > 0.0
    ensures InRange(Candidate(userId, Score(viewer, candidate, w)))
  {
    Traits.MeanIsAScore(viewer, candidate, w);
    var x := Traits.SqlMean(viewer, candidate, w) * (MICRO as real);
    assert 0.0 <= x <= MICRO as real;
  }

  /**
    Whatever numbers two stored vectors hold, the feed refuses the cursor made from their
    score exactly when the mean rounds below zero; it cannot exceed one.
   */
  lemma CursorRefusedIffMeanBelowZero(viewer: Traits.Vector, candidate: Traits.Vector, w: Traits.Weights, userId: nat)
    requires userId != NIL_UUID
    ensures Traits.Sum(Traits.EffectiveWeights(w), 5) > 0.0
    ensures ParseDiscover(EncodeDiscover(Score(viewer, candidate, w), userId)).BadRequest?
            <==> Traits.SqlMean(viewer, candidate, w) * (MICRO as real) <= -0.5
  {
    hide ScoreText, DecimalPattern, Units;
    Traits.MeanIsAtMostOne(viewer, candidate, w);
    EmittedCursorAccepted(Score(viewer, candidate, w), userId);
    NeverEmpty(Score(viewer, candidate, w), userId);
  }

  lemma NeverEmpty(score: int, userId: nat)
    ensures !ParseDiscover(EncodeDiscover(score, userId)).NoCursor?
  {
  }

  lemma {:induction false} Disagreement(e: seq<real>, a: Traits.Vector, b: Traits.Vector, n: nat)
    requires n <= 5 == |e| && forall i | 0 <= i < 5 :: e[i] == 1.0 && Traits.Agreement(a, b, i) == -8.0
    ensures Traits.Sum(e, n) == n as real && Traits.WeightedSum(e, a, b, n) == -8.0 * n as real
  {
    if n > 0 {
      Disagreement(e, a, b, n - 1);
    }
  }

  /** A vector with a value outside [0, 1] can score below zero, and then the feed refuses its own cursor. */
  lemma OutOfRangeTraitStopsTheFeed()
    ensures exists viewer: Traits.Vector, candidate: Traits.Vector, w: Traits.Weights ::
              && Traits.IsComplete(viewer)
              && Traits.Sum(Traits.EffectiveWeights(w), 5) != 0.0
              && ParseDiscover(EncodeDiscover(Score(viewer, candidate, w), 1)).BadRequest?
  {
    hide ScoreText, DecimalPattern, Units;
    var zero, nine := Traits.Fin(0.0), Traits.Fin(9.0);
    var viewer := map[Traits.Openness := zero, Traits.Conscientiousness := zero, Traits.Extraversion := zero,
                      Traits.Agreeableness := zero, Traits.Neuroticism := zero];
    var candidate := map[Traits.Openness := nine, Traits.Conscientiousness := nine, Traits.Extraversion := nine,
                         Traits.Agreeableness := nine, Traits.Neuroticism := nine];
    var w: Traits.Weights := map[];
    var e := Traits.EffectiveWeights(w);
    assert Traits.Weight(w, Traits.TRAIT_KEYS[0]) == 1.0;
    assert e == [1.0, 1.0, 1.0, 1.0, 1.0];
    Disagreement(e, viewer, candidate, 5);
    assert Traits.SqlMean(viewer, candidate, w) == -8.0;
    assert Score(viewer, candidate, w) == -8 * MICRO;
    EmittedCursorAccepted(Score(viewer, candidate, w), 1);
  }

  /** The candidate was scored from complete vectors, as all vectors the service stores are. */
  ghost predicate ScoredFromComplete(c: Candidate) {
    && c.userId != NIL_UUID
    && exists viewer, vector, w ::
         && Traits.IsComplete(viewer) && Traits.IsComplete(vector)
         && Traits.Sum(Traits.EffectiveWeights(w), 5) != 0.0
         && c.score == Score(viewer, vector, w)
  }

  lemma ScoredIsInRange(c: Candidate)
    requires ScoredFromComplete(c)
    ensures InRange(c)
  {
    var viewer, vector, w :|
      && Traits.IsComplete(viewer) && Traits.IsComplete(vector)
      && Traits.Sum(Traits.EffectiveWeights(w), 5) != 0.0
      && c.score == Score(viewer, vector, w);
    CompleteScoresAreInRange(viewer, vector, w, c.userId);
  }

  /** Page i is followed by another iff it carries a cursor, and that cursor parses. */
  ghost predicate Followed(answers: seq<seq<Candidate>>, limit: nat, i: nat)
    requires i < |answers|
  {
    var next := DiscoverPageOf(answers[i], limit).next;
    && (next.Some? <==> i + 1 < |answers|)
    && (next.Some? ==> ParseDiscover(next.value).At?)
  }

  lemma {:induction false} EveryCursorIsFollowed(
      tables: seq<set<Candidate>>, answers: seq<seq<Candidate>>, limit: nat, raw: Raw<DiscoverCursor>, after: Option<Key>)
    requires limit >= 1 && Names(raw, after) && IsDiscoverWalk(tables, answers, limit, raw)
    requires forall t, c | 0 <= t < |tables| && c in tables[t] :: InRange(c)
    ensures forall i | 0 <= i < |answers| :: Followed(answers, limit, i)
    decreases |tables|
  {
    hide ParseDiscover, Names, InRange, IsAnswer, PageOf, DiscoverPageOf, CandidateKeys, CandidateKeySet, IsDiscoverAnswer, Position;
    NamesIsPast(raw, after, Candidate(0, 0));
    RowsComeFromTheTable(tables[0], raw, limit + 1, answers[0]);
    DiscoverPageKeys(answers[0], limit);
    var next := DiscoverPageOf(answers[0], limit).next;
    if next.Some? {
      var key := PageOf(CandidateKeys(answers[0]), limit).next;
      NamesIsPast(next.value, key, Candidate(0, 0));
      DecodedParses(next.value);
      DiscoverWalkIsWalk(tables[1..], answers[1..], limit, next.value, key);
      EveryCursorIsFollowed(tables[1..], answers[1..], limit, next.value, key);
      forall i | 0 <= i < |answers|
        ensures Followed(answers, limit, i)
      {
        assert i > 0 ==> Followed(answers[1..], limit, i - 1) && answers[1..][i - 1] == answers[i];
      }
    }
  }

  lemma DecodedParses(raw: Raw<DiscoverCursor>)
    requires raw.Decoded? && !ParseDiscover(raw).BadRequest?
    ensures ParseDiscover(raw).At?
  {
  }

  /** The candidates shown, page after page. */
  function Listed(answers: seq<seq<Candidate>>, limit: nat): seq<Candidate> {
    if answers == [] then [] else DiscoverPageOf(answers[0], limit).items + Listed(answers[1..], limit)
  }

  lemma {:induction false} ListedKeys(answers: seq<seq<Candidate>>, limit: nat)
    ensures CandidateKeys(Listed(answers, limit)) == Shown(KeyAnswers(answers), limit)
    decreases |answers|
  {
    if answers != [] {
      ListedKeys(answers[1..], limit);
      assert KeyAnswers(answers)[1..] == KeyAnswers(answers[1..]);
      assert CandidateKeys(DiscoverPageOf(answers[0], limit).items) == PageOf(CandidateKeys(answers[0]), limit).items;
    }
  }

  /** No user's score changes while the walk lasts. */
  ghost predicate ScoresFixed(tables: seq<set<Candidate>>) {
    forall s, t, c, d | 0 <= s < |tables| && 0 <= t < |tables| && c in tables[s] && d in tables[t] && c.userId == d.userId ::
      c.score == d.score
  }

  lemma FixedScoresFixKeys(tables: seq<set<Candidate>>)
    requires ScoresFixed(tables)
    ensures KeysFixed(KeyTables(tables))
  {
  }

  /**
    Discover, followed to its end over a table that changes between pages, when every
    candidate is scored from complete vectors: every cursor handed out is accepted and the
    last page has none; the best score comes first, and users of one score in the order of
    their ids; only candidates that were there are shown, and one there throughout is shown
    exactly once; nobody is shown twice unless their score changed.
   */
  lemma DiscoverEnumerates(tables: seq<set<Candidate>>, answers: seq<seq<Candidate>>, limit: nat, c: Candidate)
    requires limit >= 1 && IsDiscoverWalk(tables, answers, limit, Empty)
    requires forall t, d | 0 <= t < |tables| && d in tables[t] :: ScoredFromComplete(d)
    ensures answers != [] && forall i | 0 <= i < |answers| :: Followed(answers, limit, i)
    ensures var list := Listed(answers, limit);
      && (forall i, j | 0 <= i < j < |list| ::
            list[i].score > list[j].score || (list[i].score == list[j].score && list[i].userId < list[j].userId))
      && (c in list ==> exists t :: 0 <= t < |tables| && c in tables[t])
      && ((forall t | 0 <= t < |tables| :: c in tables[t]) ==>
            exists i :: 0 <= i < |list| && list[i] == c && forall j | 0 <= j < |list| && j != i :: list[j] != c)
      && (ScoresFixed(tables) ==> forall i, j | 0 <= i < j < |list| :: list[i].userId != list[j].userId)
  {
    hide *;
    FollowedToTheEnd(tables, answers, limit);
    WalkEnumerates(KeyTables(tables), KeyAnswers(answers), limit, CandidateKey(c));
    ListedKeys(answers, limit);
    if ScoresFixed(tables) {
      FixedScoresFixKeys(tables);
    }
    ListIsOrdered(Listed(answers, limit), Shown(KeyAnswers(answers), limit));
    ListHas(tables, Listed(answers, limit), c);
  }

  lemma FollowedToTheEnd(tables: seq<set<Candidate>>, answers: seq<seq<Candidate>>, limit: nat)
    requires limit >= 1 && IsDiscoverWalk(tables, answers, limit, Empty)
    requires forall t, d | 0 <= t < |tables| && d in tables[t] :: ScoredFromComplete(d)
    ensures answers != [] && forall i | 0 <= i < |answers| :: Followed(answers, limit, i)
    ensures IsWalk(KeyTables(tables), KeyAnswers(answers), limit, None)
  {
    forall t, d | 0 <= t < |tables| && d in tables[t]
      ensures InRange(d)
    {
      hide ScoredFromComplete, InRange;
      ScoredIsInRange(d);
    }
    assert |tables| == |answers|;
    hide *;
    NothingIsNamed();
    EveryCursorIsFollowed(tables, answers, limit, Empty, None);
    DiscoverWalkIsWalk(tables, answers, limit, Empty, None);
  }

  lemma ListIsOrdered(list: seq<Candidate>, shown: seq<Key>)
    requires CandidateKeys(list) == shown && Ascending(shown)
    ensures forall i, j | 0 <= i < j < |list| ::
              list[i].score > list[j].score || (list[i].score == list[j].score && list[i].userId < list[j].userId)
    ensures (forall i, j | 0 <= i < j < |shown| :: shown[i].id != shown[j].id)
            ==> forall i, j | 0 <= i < j < |list| :: list[i].userId != list[j].userId
  {
    assert forall i | 0 <= i < |list| :: shown[i] == CandidateKey(list[i]);
    forall i, j | 0 <= i < j < |list|
      ensures list[i].score > list[j].score || (list[i].score == list[j].score && list[i].userId < list[j].userId)
    {
      assert Less(shown[i], shown[j]);
    }
  }

  /** Keys and candidates determine each other. */
  lemma ListHas(tables: seq<set<Candidate>>, list: seq<Candidate>, c: Candidate)
    requires var shown, keys, k := CandidateKeys(list), KeyTables(tables), CandidateKey(c);
      && (k in shown ==> exists t :: 0 <= t < |keys| && k in keys[t])
      && ((forall t | 0 <= t < |keys| :: k in keys[t]) ==>
            exists i :: 0 <= i < |shown| && shown[i] == k && forall j | 0 <= j < |shown| && j != i :: shown[j] != k)
    ensures c in list ==> exists t :: 0 <= t < |tables| && c in tables[t]
    ensures (forall t | 0 <= t < |tables| :: c in tables[t]) ==>
              exists i :: 0 <= i < |list| && list[i] == c && forall j | 0 <= j < |list| && j != i :: list[j] != c
  {
    var shown, keys, k := CandidateKeys(list), KeyTables(tables), CandidateKey(c);
    if c in list {
      var i :| 0 <= i < |list| && list[i] == c;
      assert shown[i] == k;
      var t :| 0 <= t < |keys| && k in keys[t];
      assert c in tables[t];
    }
    if forall t | 0 <= t < |tables| :: c in tables[t] {
      assert forall t | 0 <= t < |keys| :: k in keys[t];
      var i :| 0 <= i < |shown| && shown[i] == k && forall j | 0 <= j < |shown| && j != i :: shown[j] != k;
      assert list[i] == c;
      forall j | 0 <= j < |list| && j != i
        ensures list[j] != c
      {
        assert shown[j] == CandidateKey(list[j]);
      }
    }
  }

  lemma NothingIsNamed()
    ensures Names(Empty, None)
  {
  }
}
