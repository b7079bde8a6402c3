/**
  Message history: listMessages reverses its rows in place, ListMessages drops the extra
  row at the front, and a client pages backwards through the conversation.
 */
module Messages {
  import opened Wrappers
  import Order
  import opened Keyset

  /** `id` is the message id and `createdAt` its time; the text rides along. */
  datatype Message = Message(id: nat, createdAt: int)

  /** cursor.Keyset */
  datatype Position = Position(time: int, id: nat)

  datatype Listing = Listing(items: seq<Message>, next: Option<Position>)

  function MessageKey(m: Message): Key {
    Key(-m.createdAt, -(m.id as int))
  }

  function PositionKey(p: Position): Key {
    MessageKey(Message(p.id, p.time))
  }

  predicate Earlier(a: Message, b: Message) {
    a.createdAt < b.createdAt || (a.createdAt == b.createdAt && a.id < b.id)
  }

  /** (created_at, id) < ($2, $3), compared as a row. */
  predicate Before(before: Option<Position>, m: Message) {
    before.None? || m.createdAt < before.value.time || (m.createdAt == before.value.time && m.id < before.value.id)
  }

  /** ORDER BY created_at DESC, id DESC LIMIT limit. */
  ghost predicate IsMessageAnswer(T: set<Message>, before: Option<Position>, limit: nat, rows: seq<Message>) {
    && (forall i, j | 0 <= i < j < |rows| :: Earlier(rows[j], rows[i]))
    && |rows| <= limit
    && (forall i | 0 <= i < |rows| :: rows[i] in T && Before(before, rows[i]))
    && (forall m | m in T && Before(before, m) && m !in rows ::
          |rows| == limit && forall i | 0 <= i < |rows| :: Earlier(m, rows[i]))
  }

  function Reversed<T>(s: seq<T>): seq<T> {
    seq(|s|, i requires 0 <= i < |s| => s[|s| - 1 - i])
  }

  /** The swap loop at the end of listMessages. */
  method ReverseRows<T>(descending: array<T>)
    modifies descending
    ensures descending[..] == Reversed(old(descending[..]))
  {
    ghost var was := descending[..];
    var n := descending.Length;
    var i, j := 0, n - 1;
    while i < j
      invariant 0 <= i <= n && i + j == n - 1 && i <= j + 1
      invariant forall k | 0 <= k < i :: descending[k] == was[n - 1 - k] && descending[n - 1 - k] == was[k]
      invariant forall k | i <= k <= j :: descending[k] == was[k]
    {
      descending[i], descending[j] := descending[j], descending[i];
      i, j := i + 1, j - 1;
    }
  }

  function ListingOf(rows: seq<Message>, limit: nat): Listing
    requires limit >= 1
  {
    if |rows| > limit
    then Listing(Reversed(rows)[|rows| - limit..], Some(Position(rows[limit - 1].createdAt, rows[limit - 1].id)))
    else Listing(Reversed(rows), None)
  }

  /** The page is the newest rows, oldest first, and its cursor names the first of them. */
  ghost predicate IsListing(rows: seq<Message>, limit: nat, listing: Listing) {
    var n := if limit < |rows| then limit else |rows|;
    && |listing.items| == n && (forall k | 0 <= k < n :: listing.items[k] == rows[n - 1 - k])
    && (listing.next.Some? <==> limit < |rows|)
    && (listing.next.Some? ==> n > 0 && listing.next.value == Position(rows[n - 1].createdAt, rows[n - 1].id))
  }

  lemma ListingIs(rows: seq<Message>, limit: nat)
    requires limit >= 1 && |rows| <= limit + 1
    ensures IsListing(rows, limit, ListingOf(rows, limit))
  {
  }

  /** `query` is the database. */
  method ListMessages(before: Option<Position>, limit: nat, query: (Option<Position>, nat) -> seq<Message>)
    returns (listing: Listing)
    requires limit >= 1 && |query(before, limit + 1)| <= limit + 1
    ensures listing == ListingOf(query(before, limit + 1), limit)
    ensures IsListing(query(before, limit + 1), limit, listing)
  {
    var rows := query(before, limit + 1);
    hide IsListing;
    ListingIs(rows, limit);
    var descending := new Message[|rows|](i requires 0 <= i < |rows| => rows[i]);
    assert descending[..] == rows;
    ReverseRows(descending);
    var items := descending[..];
    var next: Option<Position> := None;
    if |items| > limit {
      items := items[1..];
      var oldest := items[0];
      next := Some(Position(oldest.createdAt, oldest.id));
    }
    return Listing(items, next);
  }

  // ---- In terms of keys ----

  function Keys(rows: seq<Message>): seq<Key> {
    seq(|rows|, i requires 0 <= i < |rows| => MessageKey(rows[i]))
  }

  ghost function KeySet(T: set<Message>): set<Key> {
    set m | m in T :: MessageKey(m)
  }

  function After(before: Option<Position>): Option<Key> {
    if before.None? then None else Some(PositionKey(before.value))
  }

  lemma MessageAnswerIsAnswer(T: set<Message>, before: Option<Position>, limit: nat, rows: seq<Message>)
    requires IsMessageAnswer(T, before, limit, rows)
    ensures IsAnswer(KeySet(T), After(before), limit, Keys(rows))
  {
    var keys := Keys(rows);
    forall k | k in KeySet(T) && Past(After(before), k) && k !in keys
      ensures |keys| == limit && forall i | 0 <= i < |keys| :: Less(keys[i], k)
    {
      var m :| m in T && k == MessageKey(m);
      assert forall i | 0 <= i < |rows| :: keys[i] in keys && rows[i] != m;
    }
  }

  /** Dropping the first row of the reversed page drops the extra one. */
  lemma ListingKeys(rows: seq<Message>, limit: nat)
    requires limit >= 1 && |rows| <= limit + 1
    ensures Keys(ListingOf(rows, limit).items) == Reversed(PageOf(Keys(rows), limit).items)
    ensures After(ListingOf(rows, limit).next) == PageOf(Keys(rows), limit).next
  {
  }

  /** A client loading older and older pages. */
  ghost predicate IsScrollback(
      tables: seq<set<Message>>, answers: seq<seq<Message>>, limit: nat, before: Option<Position>)
    requires limit >= 1
    decreases |tables|
  {
    && 0 < |tables| == |answers|
    && IsMessageAnswer(tables[0], before, limit + 1, answers[0])
    && var next := ListingOf(answers[0], limit).next;
       if next.None? then |tables| == 1 else IsScrollback(tables[1..], answers[1..], limit, next)
  }

  /** The chat view: each older page is put in front. */
  function View(answers: seq<seq<Message>>, limit: nat): seq<Message>
    requires limit >= 1
  {
    if answers == [] then [] else View(answers[1..], limit) + ListingOf(answers[0], limit).items
  }

  ghost function KeyTables(tables: seq<set<Message>>): seq<set<Key>> {
    seq(|tables|, i requires 0 <= i < |tables| => KeySet(tables[i]))
  }

  function KeyAnswers(answers: seq<seq<Message>>): seq<seq<Key>> {
    seq(|answers|, i requires 0 <= i < |answers| => Keys(answers[i]))
  }

  lemma {:induction false} ScrollbackIsWalk(
      tables: seq<set<Message>>, answers: seq<seq<Message>>, limit: nat, before: Option<Position>)
    requires limit >= 1 && IsScrollback(tables, answers, limit, before)
    ensures IsWalk(KeyTables(tables), KeyAnswers(answers), limit, After(before))
    ensures Keys(View(answers, limit)) == Reversed(Shown(KeyAnswers(answers), limit))
    decreases |tables|
  {
    hide IsMessageAnswer, IsAnswer, MessageKey;
    MessageAnswerIsAnswer(tables[0], before, limit + 1, answers[0]);
    assert |answers[0]| <= limit + 1 by { AnswerLength(tables[0], before, limit + 1, answers[0]); }
    ListingKeys(answers[0], limit);
    var page, rest := PageOf(Keys(answers[0]), limit).items, KeyAnswers(answers[1..]);
    assert KeyTables(tables)[1..] == KeyTables(tables[1..]) && KeyAnswers(answers)[1..] == rest;
    var next := ListingOf(answers[0], limit).next;
    if next.Some? {
      ScrollbackIsWalk(tables[1..], answers[1..], limit, next);
    } else {
      assert answers[1..] == [];
    }
    ReversedConcat(page, Shown(rest, limit));
    KeysConcat(View(answers[1..], limit), ListingOf(answers[0], limit).items);
  }

  lemma AnswerLength(T: set<Message>, before: Option<Position>, limit: nat, rows: seq<Message>)
    requires IsMessageAnswer(T, before, limit, rows)
    ensures |rows| <= limit
  {
  }

  lemma ReversedConcat<T>(a: seq<T>, b: seq<T>)
    ensures Reversed(a + b) == Reversed(b) + Reversed(a)
  {
  }

  lemma KeysConcat(a: seq<Message>, b: seq<Message>)
    ensures Keys(a + b) == Keys(a) + Keys(b)
  {
  }

  // ---- The whole history ----

  ghost predicate IsHistory(h: seq<Message>) {
    forall i, j | 0 <= i < j < |h| :: Earlier(h[i], h[j])
  }

  /** Between the pages, messages only arrive, and later than everything the first page could see. */
  ghost predicate OnlyArrivals(tables: seq<set<Message>>) {
    forall t | 0 <= t < |tables| ::
      tables[0] <= tables[t] && forall m, n | m in tables[t] && m !in tables[0] && n in tables[0] :: Earlier(n, m)
  }

  lemma ShowsOnlyTheHistory(tables: seq<set<Message>>, answers: seq<seq<Message>>, limit: nat, k: Key)
    requires limit >= 1 && IsScrollback(tables, answers, limit, None) && OnlyArrivals(tables)
    requires k in Shown(KeyAnswers(answers), limit)
    ensures k in KeySet(tables[0])
  {
    var keys, shown := KeyTables(tables), Shown(KeyAnswers(answers), limit);
    ScrollbackIsWalk(tables, answers, limit, None);
    WalkAscends(keys, KeyAnswers(answers), limit, None);
    WalkInventsNothing(keys, KeyAnswers(answers), limit, None, k);
    FirstShownIsOld(keys, KeyAnswers(answers), limit);
    var t :| 0 <= t < |keys| && k in keys[t];
    var i :| 0 <= i < |shown| && shown[i] == k;
    var m :| m in tables[t] && MessageKey(m) == k;
    var n :| n in tables[0] && MessageKey(n) == shown[0];
    assert i > 0 ==> Less(shown[0], shown[i]);
    assert m !in tables[0] ==> Earlier(n, m);
  }

  lemma FirstShownIsOld(tables: seq<set<Key>>, answers: seq<seq<Key>>, limit: nat)
    requires limit >= 1 && IsWalk(tables, answers, limit, None) && Shown(answers, limit) != []
    ensures Shown(answers, limit)[0] in tables[0]
  {
    var rest := answers[1..];
    assert answers[0] != [] ==> Shown(answers, limit)[0] == answers[0][0];
  }

  lemma KeysAreInjective(a: seq<Message>, b: seq<Message>)
    requires Keys(a) == Keys(b)
    ensures a == b
  {
    assert |a| == |Keys(a)| == |b|;
    forall i | 0 <= i < |a|
      ensures a[i] == b[i]
    {
      assert Keys(a)[i] == Keys(b)[i];
    }
  }

  lemma HistoryIsShown(h: seq<Message>, tables: seq<set<Message>>, answers: seq<seq<Message>>, limit: nat, i: nat)
    requires limit >= 1 && IsScrollback(tables, answers, limit, None) && OnlyArrivals(tables)
    requires tables[0] == (set m | m in h) && i < |h|
    ensures MessageKey(h[i]) in Shown(KeyAnswers(answers), limit)
  {
    hide IsScrollback, MessageKey;
    ScrollbackIsWalk(tables, answers, limit, None);
    forall t | 0 <= t < |tables|
      ensures MessageKey(h[i]) in KeyTables(tables)[t]
    {
      assert h[i] in tables[0] && h[i] in tables[t];
    }
    WalkMissesNothing(KeyTables(tables), KeyAnswers(answers), limit, None, MessageKey(h[i]));
  }

  lemma NewestFirstAscends(h: seq<Message>)
    requires IsHistory(h)
    ensures Ascending(Reversed(Keys(h)))
  {
  }

  lemma SameOrder(a: seq<Key>, b: seq<Key>)
    requires Ascending(a) && Ascending(b) && forall k :: k in a <==> k in b
    ensures a == b
  {
    Order.AscendingIsUnique(Less, a, b);
  }

  lemma ReversedMembers<T>(s: seq<T>, x: T)
    ensures x in Reversed(s) <==> x in s
  {
    if x in s {
      var i :| 0 <= i < |s| && s[i] == x;
      assert Reversed(s)[|s| - 1 - i] == x;
    }
  }

  /**
    However many pages it takes, and although each page is reversed and loses its first row
    rather than its last, the pages put together are the conversation, oldest to newest,
    nothing lost and nothing twice; messages sent meanwhile do not disturb it.
   */
  lemma ScrollbackIsTheHistory(h: seq<Message>, tables: seq<set<Message>>, answers: seq<seq<Message>>, limit: nat)
    requires limit >= 1 && IsScrollback(tables, answers, limit, None) && OnlyArrivals(tables)
    requires IsHistory(h) && tables[0] == set m | m in h
    ensures View(answers, limit) == h
  {
    assert tables != [];
    hide IsScrollback, IsWalk, OnlyArrivals, MessageKey, Shown, View, IsHistory, Ascending;
    var shown, newestFirst := Shown(KeyAnswers(answers), limit), Reversed(Keys(h));
    ScrollbackIsWalk(tables, answers, limit, None);
    WalkAscends(KeyTables(tables), KeyAnswers(answers), limit, None);
    NewestFirstAscends(h);
    forall k
      ensures k in shown <==> k in newestFirst
    {
      ReversedMembers(Keys(h), k);
      if k in shown {
        ShowsOnlyTheHistory(tables, answers, limit, k);
        var m :| m in tables[0] && MessageKey(m) == k;
        var i :| 0 <= i < |h| && h[i] == m;
        assert Keys(h)[i] == k;
      }
      if k in Keys(h) {
        var i :| 0 <= i < |h| && Keys(h)[i] == k;
        HistoryIsShown(h, tables, answers, limit, i);
      }
    }
    SameOrder(shown, newestFirst);
    assert Reversed(newestFirst) == Keys(h);
    KeysAreInjective(View(answers, limit), h);
  }

  /**
    Over tables that change in any way, messages committed late with an earlier created_at
    included: the view is in order, and every message there throughout is in it exactly once.
   */
  lemma ScrollbackShowsWhatStays(tables: seq<set<Message>>, answers: seq<seq<Message>>, limit: nat, m: Message)
    requires limit >= 1 && IsScrollback(tables, answers, limit, None)
    ensures forall i, j | 0 <= i < j < |View(answers, limit)| ::
              var m, n := View(answers, limit)[i], View(answers, limit)[j];
              m.createdAt < n.createdAt || (m.createdAt == n.createdAt && m.id < n.id)
    ensures (forall t | 0 <= t < |tables| :: m in tables[t]) ==>
              exists i :: 0 <= i < |View(answers, limit)| && View(answers, limit)[i] == m
                          && forall j | 0 <= j < |View(answers, limit)| && j != i :: View(answers, limit)[j] != m
  {
    var view, shown := View(answers, limit), Shown(KeyAnswers(answers), limit);
    ScrollbackIsWalk(tables, answers, limit, None);
    WalkAscends(KeyTables(tables), KeyAnswers(answers), limit, None);
    ViewIsHistory(view, shown);
    if forall t | 0 <= t < |tables| :: m in tables[t] {
      assert forall t | 0 <= t < |tables| :: MessageKey(m) in KeyTables(tables)[t];
      WalkMissesNothing(KeyTables(tables), KeyAnswers(answers), limit, None, MessageKey(m));
      ReversedMembers(shown, MessageKey(m));
      var i :| 0 <= i < |Keys(view)| && Keys(view)[i] == MessageKey(m);
      assert view[i] == m;
      OnlyOnce(view, i);
    }
  }

  lemma ViewIsHistory(view: seq<Message>, shown: seq<Key>)
    requires Keys(view) == Reversed(shown) && Ascending(shown)
    ensures IsHistory(view)
  {
    forall i, j | 0 <= i < j < |view|
      ensures Earlier(view[i], view[j])
    {
      assert Keys(view)[i] == shown[|shown| - 1 - i] && Keys(view)[j] == shown[|shown| - 1 - j];
      assert Less(shown[|shown| - 1 - j], shown[|shown| - 1 - i]);
    }
  }

  lemma OnlyOnce(view: seq<Message>, i: nat)
    requires IsHistory(view) && i < |view|
    ensures forall j | 0 <= j < |view| && j != i :: view[j] != view[i]
  {
  }

  /** Every page is itself oldest to newest. */
  lemma PagesRunForward(T: set<Message>, before: Option<Position>, limit: nat, rows: seq<Message>)
    requires limit >= 1 && IsMessageAnswer(T, before, limit + 1, rows)
    ensures IsHistory(ListingOf(rows, limit).items) && |ListingOf(rows, limit).items| <= limit
    ensures var items := ListingOf(rows, limit).items;
      forall i | 0 < i < |items| :: items[i - 1].createdAt <= items[i].createdAt
  {
  }
}
