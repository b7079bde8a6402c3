/**
  Service.Matches: the match list, newest first, under the row-wise keyset comparison.
 */
module MatchList {
  import opened Wrappers
  import opened Cursor
  import opened Keyset

  /** `id` is the match id, `createdAt` microseconds since the zero time. */
  datatype MatchRow = MatchRow(id: nat, createdAt: int)

  datatype MatchPage = MatchPage(items: seq<MatchRow>, next: Option<Raw<MatchCursor>>)

  function MatchKey(m: MatchRow): Key {
    Key(-m.createdAt, -(m.id as int))
  }

  /** ORDER BY created_at DESC, id DESC. */
  predicate Newer(a: MatchRow, b: MatchRow) {
    a.createdAt > b.createdAt || (a.createdAt == b.createdAt && a.id > b.id)
  }

  /** (m.created_at, m.id) < ($2, $3), compared as a row. */
  predicate PastMatchCursor(cursor: Option<MatchCursor>, m: MatchRow) {
    cursor.None?
    || m.createdAt < cursor.value.createdAt
    || (m.createdAt == cursor.value.createdAt && m.id < cursor.value.id)
  }

  ghost predicate IsMatchAnswer(T: set<MatchRow>, cursor: Option<MatchCursor>, limit: nat, rows: seq<MatchRow>) {
    && (forall i, j | 0 <= i < j < |rows| :: Newer(rows[i], rows[j]))
    && |rows| <= limit
    && (forall i | 0 <= i < |rows| :: rows[i] in T && PastMatchCursor(cursor, rows[i]))
    && (forall m | m in T && PastMatchCursor(cursor, m) && m !in rows ::
          |rows| == limit && forall i | 0 <= i < |rows| :: Newer(rows[i], m))
  }

  function MatchPageOf(rows: seq<MatchRow>, limit: nat): MatchPage {
    if |rows| > limit
    then MatchPage(rows[..limit],
                   if limit > 0 then Some(EncodeMatch(rows[limit - 1].createdAt, rows[limit - 1].id)) else None)
    else MatchPage(rows, None)
  }

  /** None is the refusal of a bad cursor. */
  method Matches(raw: Raw<MatchCursor>, limit: nat, query: (Option<MatchCursor>, nat) -> seq<MatchRow>)
    returns (r: Option<MatchPage>)
    ensures r.None? <==> ParseMatch(raw).BadRequest?
    ensures r.Some? ==>
              r.value == MatchPageOf(query(if ParseMatch(raw).At? then Some(ParseMatch(raw).cursor) else None, limit + 1), limit)
    ensures r.Some? ==>
              var rows := query(if raw.Empty? then None else Some(raw.fields), limit + 1);
              var n := if limit < |rows| then limit else |rows|;
              && r.value.items == rows[..n]
              && (r.value.next.Some? <==> limit < |rows| && limit > 0)
              && (r.value.next.Some? ==>
                    r.value.next == Some(Decoded(MatchCursor(1, rows[n - 1].createdAt, rows[n - 1].id))))
  {
    var cursor := ParseMatch(raw);
    if cursor.BadRequest? {
      return None;
    }
    var rows := query(if cursor.At? then Some(cursor.cursor) else None, limit + 1);
    var items: seq<MatchRow> := [];
    var next: Option<Raw<MatchCursor>> := None;
    var hasMore := |rows| > limit;
    if hasMore {
      rows := rows[..limit];
    }
    for i := 0 to |rows|
      invariant items == rows[..i]
    {
      items := items + [rows[i]];
    }
    assert items == rows;
    if hasMore && |rows| > 0 {
      var last := rows[|rows| - 1];
      next := Some(Decoded(MatchCursor(VERSION, last.createdAt, last.id)));
    }
    return Some(MatchPage(items, next));
  }

  ghost predicate Real(m: MatchRow) {
    m.id != NIL_UUID && m.createdAt != ZERO_TIME
  }

  /** A cursor is accepted exactly when its row has an id and a time, and then it names that row's key. */
  lemma MatchClauseIsPast(last: MatchRow, m: MatchRow)
    ensures ParseMatch(EncodeMatch(last.createdAt, last.id)).At? <==> Real(last)
    ensures Real(last) ==>
              (PastMatchCursor(Some(ParseMatch(EncodeMatch(last.createdAt, last.id)).cursor), m)
               <==> Less(MatchKey(last), MatchKey(m)))
  {
  }

  function MatchKeys(rows: seq<MatchRow>): seq<Key> {
    seq(|rows|, i requires 0 <= i < |rows| => MatchKey(rows[i]))
  }

  ghost function MatchKeySet(T: set<MatchRow>): set<Key> {
    set m | m in T :: MatchKey(m)
  }

  ghost predicate Names(raw: Raw<MatchCursor>, after: Option<Key>) {
    if raw.Empty? then after.None?
    else exists last :: Real(last) && raw == EncodeMatch(last.createdAt, last.id) && after == Some(MatchKey(last))
  }

  function Position(raw: Raw<MatchCursor>): Option<MatchCursor>
    requires !ParseMatch(raw).BadRequest?
  {
    if ParseMatch(raw).At? then Some(ParseMatch(raw).cursor) else None
  }

  lemma NamesIsPast(raw: Raw<MatchCursor>, after: Option<Key>, m: MatchRow)
    requires Names(raw, after)
    ensures !ParseMatch(raw).BadRequest?
    ensures PastMatchCursor(Position(raw), m) <==> Past(after, MatchKey(m))
  {
    if !raw.Empty? {
      var last :| Real(last) && raw == EncodeMatch(last.createdAt, last.id) && after == Some(MatchKey(last));
      MatchClauseIsPast(last, m);
    }
  }

  lemma MatchAnswerIsAnswer(T: set<MatchRow>, raw: Raw<MatchCursor>, after: Option<Key>, limit: nat, rows: seq<MatchRow>)
    requires Names(raw, after) && !ParseMatch(raw).BadRequest?
    requires IsMatchAnswer(T, Position(raw), limit, rows)
    ensures IsAnswer(MatchKeySet(T), after, limit, MatchKeys(rows))
  {
    hide ParseMatch, PastMatchCursor, Names, Past, Position;
    var keys := MatchKeys(rows);
    forall i | 0 <= i < |rows|
      ensures keys[i] in MatchKeySet(T) && Past(after, keys[i])
    {
      NamesIsPast(raw, after, rows[i]);
    }
    forall k | k in MatchKeySet(T) && Past(after, k) && k !in keys
      ensures |keys| == limit && forall i | 0 <= i < |keys| :: Less(keys[i], k)
    {
      var m :| m in T && k == MatchKey(m);
      NamesIsPast(raw, after, m);
      assert forall i | 0 <= i < |rows| :: keys[i] in keys && rows[i] != m;
    }
  }

  lemma RowsComeFromTheTable(T: set<MatchRow>, cursor: Option<MatchCursor>, limit: nat, rows: seq<MatchRow>)
    requires IsMatchAnswer(T, cursor, limit, rows)
    ensures forall i | 0 <= i < |rows| :: rows[i] in T
  {
  }

  ghost predicate IsMatchWalk(tables: seq<set<MatchRow>>, answers: seq<seq<MatchRow>>, limit: nat, raw: Raw<MatchCursor>)
    decreases |tables|
  {
    && |tables| == |answers|
    && if tables == [] then ParseMatch(raw).BadRequest?
       else
         && !ParseMatch(raw).BadRequest?
         && IsMatchAnswer(tables[0], Position(raw), limit + 1, answers[0])
         && var next := MatchPageOf(answers[0], limit).next;
            if next.None? then |tables| == 1 else IsMatchWalk(tables[1..], answers[1..], limit, next.value)
  }

  lemma MatchPageKeys(rows: seq<MatchRow>, limit: nat)
    requires limit >= 1 && forall i | 0 <= i < |rows| :: Real(rows[i])
    ensures var page, keys := MatchPageOf(rows, limit), PageOf(MatchKeys(rows), limit);
      && MatchKeys(page.items) == keys.items
      && (page.next.Some? <==> keys.next.Some?)
      && (page.next.Some? ==> page.next.value.Decoded? && Names(page.next.value, keys.next))
  {
    var page, keys := MatchPageOf(rows, limit), PageOf(MatchKeys(rows), limit);
    assert MatchKeys(page.items) == keys.items;
    if |rows| > limit {
      assert Real(rows[limit - 1]);
    }
  }

  ghost function KeyTables(tables: seq<set<MatchRow>>): seq<set<Key>> {
    seq(|tables|, i requires 0 <= i < |tables| => MatchKeySet(tables[i]))
  }

  function KeyAnswers(answers: seq<seq<MatchRow>>): seq<seq<Key>> {
    seq(|answers|, i requires 0 <= i < |answers| => MatchKeys(answers[i]))
  }

  lemma {:induction false} MatchWalkIsWalk(
      tables: seq<set<MatchRow>>, answers: seq<seq<MatchRow>>, limit: nat, raw: Raw<MatchCursor>, after: Option<Key>)
    requires limit >= 1 && Names(raw, after) && IsMatchWalk(tables, answers, limit, raw)
    requires forall t, m | 0 <= t < |tables| && m in tables[t] :: Real(m)
    ensures tables != [] && IsWalk(KeyTables(tables), KeyAnswers(answers), limit, after)
    decreases |tables|
  {
    hide ParseMatch, Names, Real, IsAnswer, PageOf, MatchPageOf, MatchKeys, MatchKeySet, IsMatchAnswer, Position;
    NamesIsPast(raw, after, MatchRow(0, 0));
    MatchAnswerIsAnswer(tables[0], raw, after, limit + 1, answers[0]);
    RowsComeFromTheTable(tables[0], Position(raw), limit + 1, answers[0]);
    MatchPageKeys(answers[0], limit);
    var next := MatchPageOf(answers[0], limit).next;
    if next.Some? {
      MatchWalkIsWalk(tables[1..], answers[1..], limit, next.value, PageOf(MatchKeys(answers[0]), limit).next);
      assert KeyTables(tables)[1..] == KeyTables(tables[1..]);
      assert KeyAnswers(answers)[1..] == KeyAnswers(answers[1..]);
    }
  }

  /** Page i is followed by another iff it carries a cursor, and that cursor parses. */
  ghost predicate Followed(answers: seq<seq<MatchRow>>, limit: nat, i: nat)
    requires i < |answers|
  {
    var next := MatchPageOf(answers[i], limit).next;
    && (next.Some? <==> i + 1 < |answers|)
    && (next.Some? ==> ParseMatch(next.value).At?)
  }

  lemma {:induction false} EveryCursorIsFollowed(
      tables: seq<set<MatchRow>>, answers: seq<seq<MatchRow>>, limit: nat, raw: Raw<MatchCursor>, after: Option<Key>)
    requires limit >= 1 && Names(raw, after) && IsMatchWalk(tables, answers, limit, raw)
    requires forall t, m | 0 <= t < |tables| && m in tables[t] :: Real(m)
    ensures forall i | 0 <= i < |answers| :: Followed(answers, limit, i)
    decreases |tables|
  {
    hide ParseMatch, Names, Real, IsAnswer, PageOf, MatchPageOf, MatchKeys, MatchKeySet, IsMatchAnswer, Position;
    NamesIsPast(raw, after, MatchRow(0, 0));
    RowsComeFromTheTable(tables[0], Position(raw), limit + 1, answers[0]);
    MatchPageKeys(answers[0], limit);
    var next := MatchPageOf(answers[0], limit).next;
    if next.Some? {
      var key := PageOf(MatchKeys(answers[0]), limit).next;
      NamesIsPast(next.value, key, MatchRow(0, 0));
      DecodedParses(next.value);
      MatchWalkIsWalk(tables[1..], answers[1..], limit, next.value, key);
      EveryCursorIsFollowed(tables[1..], answers[1..], limit, next.value, key);
      forall i | 0 <= i < |answers|
        ensures Followed(answers, limit, i)
      {
        assert i > 0 ==> Followed(answers[1..], limit, i - 1) && answers[1..][i - 1] == answers[i];
      }
    }
  }

  lemma DecodedParses(raw: Raw<MatchCursor>)
    requires raw.Decoded? && !ParseMatch(raw).BadRequest?
    ensures ParseMatch(raw).At?
  {
  }

  /** The matches shown, page after page. */
  function Listed(answers: seq<seq<MatchRow>>, limit: nat): seq<MatchRow> {
    if answers == [] then [] else MatchPageOf(answers[0], limit).items + Listed(answers[1..], limit)
  }

  lemma {:induction false} ListedKeys(answers: seq<seq<MatchRow>>, limit: nat)
    ensures MatchKeys(Listed(answers, limit)) == Shown(KeyAnswers(answers), limit)
    decreases |answers|
  {
    if answers != [] {
      ListedKeys(answers[1..], limit);
      assert KeyAnswers(answers)[1..] == KeyAnswers(answers[1..]);
      assert MatchKeys(MatchPageOf(answers[0], limit).items) == PageOf(MatchKeys(answers[0]), limit).items;
    }
  }

  /** The time of a match is set once: no id is seen with two times. */
  ghost predicate TimesFixed(tables: seq<set<MatchRow>>) {
    forall s, t, m, n | 0 <= s < |tables| && 0 <= t < |tables| && m in tables[s] && n in tables[t] && m.id == n.id ::
      m.createdAt == n.createdAt
  }

  lemma FixedTimesFixKeys(tables: seq<set<MatchRow>>)
    requires TimesFixed(tables)
    ensures KeysFixed(KeyTables(tables))
  {
  }

  /**
    The match list, followed to its end while matches are made and hidden: every cursor
    handed out is accepted and the last page has none; matches run strictly from newest to
    oldest, those of one moment by descending id; only matches that were there are shown, one
    there throughout is shown exactly once, and none is shown twice.
   */
  lemma MatchesEnumerates(tables: seq<set<MatchRow>>, answers: seq<seq<MatchRow>>, limit: nat, m: MatchRow)
    requires limit >= 1 && IsMatchWalk(tables, answers, limit, Empty)
    requires forall t, d | 0 <= t < |tables| && d in tables[t] :: Real(d)
    ensures answers != [] && forall i | 0 <= i < |answers| :: Followed(answers, limit, i)
    ensures var list := Listed(answers, limit);
      && (forall i, j | 0 <= i < j < |list| ::
            list[i].createdAt > list[j].createdAt || (list[i].createdAt == list[j].createdAt && list[i].id > list[j].id))
      && (m in list ==> exists t :: 0 <= t < |tables| && m in tables[t])
      && ((forall t | 0 <= t < |tables| :: m in tables[t]) ==>
            exists i :: 0 <= i < |list| && list[i] == m && forall j | 0 <= j < |list| && j != i :: list[j] != m)
      && (TimesFixed(tables) ==> forall i, j | 0 <= i < j < |list| :: list[i].id != list[j].id)
  {
    hide *;
    FollowedToTheEnd(tables, answers, limit);
    WalkEnumerates(KeyTables(tables), KeyAnswers(answers), limit, MatchKey(m));
    ListedKeys(answers, limit);
    if TimesFixed(tables) {
      FixedTimesFixKeys(tables);
    }
    ListIsOrdered(Listed(answers, limit), Shown(KeyAnswers(answers), limit));
    ListHas(tables, Listed(answers, limit), m);
  }

  lemma FollowedToTheEnd(tables: seq<set<MatchRow>>, answers: seq<seq<MatchRow>>, limit: nat)
    requires limit >= 1 && IsMatchWalk(tables, answers, limit, Empty)
    requires forall t, d | 0 <= t < |tables| && d in tables[t] :: Real(d)
    ensures answers != [] && forall i | 0 <= i < |answers| :: Followed(answers, limit, i)
    ensures IsWalk(KeyTables(tables), KeyAnswers(answers), limit, None)
  {
    assert |tables| == |answers|;
    hide *;
    NothingIsNamed();
    EveryCursorIsFollowed(tables, answers, limit, Empty, None);
    MatchWalkIsWalk(tables, answers, limit, Empty, None);
  }

  lemma ListIsOrdered(list: seq<MatchRow>, shown: seq<Key>)
    requires MatchKeys(list) == shown && Ascending(shown)
    ensures forall i, j | 0 <= i < j < |list| ::
              list[i].createdAt > list[j].createdAt || (list[i].createdAt == list[j].createdAt && list[i].id > list[j].id)
    ensures (forall i, j | 0 <= i < j < |shown| :: shown[i].id != shown[j].id)
            ==> forall i, j | 0 <= i < j < |list| :: list[i].id != list[j].id
  {
    assert forall i | 0 <= i < |list| :: shown[i] == MatchKey(list[i]);
    forall i, j | 0 <= i < j < |list|
      ensures list[i].createdAt > list[j].createdAt || (list[i].createdAt == list[j].createdAt && list[i].id > list[j].id)
    {
      assert Less(shown[i], shown[j]);
    }
  }

  /** Keys and matches determine each other. */
  lemma ListHas(tables: seq<set<MatchRow>>, list: seq<MatchRow>, m: MatchRow)
    requires var shown, keys, k := MatchKeys(list), KeyTables(tables), MatchKey(m);
      && (k in shown ==> exists t :: 0 <= t < |keys| && k in keys[t])
      && ((forall t | 0 <= t < |keys| :: k in keys[t]) ==>
            exists i :: 0 <= i < |shown| && shown[i] == k && forall j | 0 <= j < |shown| && j != i :: shown[j] != k)
    ensures m in list ==> exists t :: 0 <= t < |tables| && m in tables[t]
    ensures (forall t | 0 <= t < |tables| :: m in tables[t]) ==>
              exists i :: 0 <= i < |list| && list[i] == m && forall j | 0 <= j < |list| && j != i :: list[j] != m
  {
    var shown, keys, k := MatchKeys(list), KeyTables(tables), MatchKey(m);
    if m in list {
      var i :| 0 <= i < |list| && list[i] == m;
      assert shown[i] == k;
      var t :| 0 <= t < |keys| && k in keys[t];
      assert m in tables[t];
    }
    if forall t | 0 <= t < |tables| :: m in tables[t] {
      assert forall t | 0 <= t < |keys| :: k in keys[t];
      var i :| 0 <= i < |shown| && shown[i] == k && forall j | 0 <= j < |shown| && j != i :: shown[j] != k;
      assert list[i] == m;
      forall j | 0 <= j < |list| && j != i
        ensures list[j] != m
      {
        assert shown[j] == MatchKey(list[j]);
      }
    }
  }

  lemma NothingIsNamed()
    ensures Names(Empty, None)
  {
  }
}
