/**
  Notifications and their cached unread counters, one service call at a time: the rows in
  Postgres, the counter keys in Redis, and what every call does to both.
 */
module UnreadCounters {
  import opened Wrappers

  type User = nat
  type EventId = nat

  /** A notification's id is its position; an empty event id is stored as NULL. */
  datatype Row = Row(user: User, event: Option<EventId>, read: bool)

  /** `clamped` records whether the script of decrIfCached ever saw a negative counter. */
  datatype State = State(rows: seq<Row>, counters: map<User, int>, clamped: bool)

  const EMPTY := State([], map[], false)

  /** SELECT COUNT(*) .. WHERE read_at IS NULL */
  function Unread(rows: seq<Row>, u: User): nat {
    if rows == [] then 0
    else
      var last := rows[|rows| - 1];
      Unread(rows[..|rows| - 1], u) + if last.user == u && !last.read then 1 else 0
  }

  predicate Notified(rows: seq<Row>, u: User, event: Option<EventId>) {
    event.Some? && exists i :: 0 <= i < |rows| && rows[i].user == u && rows[i].event == event
  }

  /** incrIfCached */
  function Increment(counters: map<User, int>, u: User): map<User, int> {
    if u in counters then counters[u := counters[u] + 1] else counters
  }

  /** insert, then the counter if a row was created. */
  function Notify(s: State, u: User, event: Option<EventId>): State {
    if Notified(s.rows, u, event) then s
    else s.(rows := s.rows + [Row(u, event, false)], counters := Increment(s.counters, u))
  }

  /** OnMatchCreated, failing after `done` of its two recipients. */
  function MatchCreated(s: State, event: Option<EventId>, a: User, b: User, done: nat): State {
    if done == 0 then s
    else if done == 1 then Notify(s, a, event)
    else Notify(Notify(s, a, event), b, event)
  }

  predicate Markable(s: State, u: User, id: nat) {
    id < |s.rows| && s.rows[id].user == u && !s.rows[id].read
  }

  /** decrIfCached */
  function Decrement(s: State, u: User): State {
    if u !in s.counters then s
    else if s.counters[u] - 1 < 0 then s.(counters := s.counters[u := 0], clamped := true)
    else s.(counters := s.counters[u := s.counters[u] - 1])
  }

  function MarkOne(s: State, u: User, id: nat): State {
    if Markable(s, u, id) then Decrement(s.(rows := s.rows[id := s.rows[id].(read := true)]), u) else s
  }

  function AllRead(rows: seq<Row>, u: User): seq<Row> {
    seq(|rows|, i requires 0 <= i < |rows| => if rows[i].user == u then rows[i].(read := true) else rows[i])
  }

  function MarkAll(s: State, u: User): State {
    s.(rows := AllRead(s.rows, u), counters := s.counters[u := 0])
  }

  /** UnreadCount: the cached counter, or a count that is then cached. */
  function Answer(s: State, u: User): int {
    if u in s.counters then s.counters[u] else Unread(s.rows, u)
  }

  datatype Step =
    | DeliverMatch(event: Option<EventId>, a: User, b: User, done: nat)
    | DeliverMessage(event: Option<EventId>, recipient: User)
    | MarkRead(user: User, id: nat)
    | MarkAllRead(user: User)
    | UnreadCount(user: User)
    | Expire(user: User)

  function Do(s: State, step: Step): State {
    match step
    case DeliverMatch(event, a, b, done) => MatchCreated(s, event, a, b, done)
    case DeliverMessage(event, u) => Notify(s, u, event)
    case MarkRead(u, id) => MarkOne(s, u, id)
    case MarkAllRead(u) => MarkAll(s, u)
    case UnreadCount(u) => s.(counters := s.counters[u := Answer(s, u)])
    case Expire(u) => s.(counters := s.counters - {u})
  }

  function After(s: State, steps: seq<Step>): State
    decreases |steps|
  {
    if steps == [] then s else After(Do(s, steps[0]), steps[1..])
  }

  ghost predicate Exact(s: State) {
    forall u | u in s.counters :: s.counters[u] == Unread(s.rows, u)
  }

  ghost predicate Deduplicated(rows: seq<Row>) {
    forall i, j | 0 <= i < j < |rows| :: rows[i].user == rows[j].user && rows[i].event == rows[j].event ==> rows[i].event.None?
  }

  ghost predicate Inv(s: State) {
    Exact(s) && Deduplicated(s.rows) && !s.clamped
  }

  // ---- Counting ----

  lemma UnreadAppend(rows: seq<Row>, r: Row, u: User)
    ensures Unread(rows + [r], u) == Unread(rows, u) + if r.user == u && !r.read then 1 else 0
  {
    assert (rows + [r])[..|rows|] == rows;
  }

  lemma {:induction false} UnreadMarked(rows: seq<Row>, id: nat, u: User)
    requires id < |rows| && !rows[id].read
    ensures Unread(rows[id := rows[id].(read := true)], u) == Unread(rows, u) - if rows[id].user == u then 1 else 0
    decreases |rows|
  {
    var n := |rows| - 1;
    var marked := rows[id := rows[id].(read := true)];
    if id == n {
      assert marked[..n] == rows[..n];
    } else {
      UnreadMarked(rows[..n], id, u);
      assert marked[..n] == rows[..n][id := rows[..n][id].(read := true)];
    }
  }

  lemma {:induction false} UnreadAllRead(rows: seq<Row>, u: User, v: User)
    ensures Unread(AllRead(rows, u), v) == if u == v then 0 else Unread(rows, v)
    decreases |rows|
  {
    if rows != [] {
      var n := |rows| - 1;
      UnreadAllRead(rows[..n], u, v);
      assert AllRead(rows, u)[..n] == AllRead(rows[..n], u);
    }
  }

  // ---- Every call keeps the counters exact ----

  lemma NotifyKeepsInv(s: State, u: User, event: Option<EventId>)
    requires Inv(s)
    ensures Inv(Notify(s, u, event))
  {
    hide Unread;
    var s' := Notify(s, u, event);
    if !Notified(s.rows, u, event) {
      forall v | v in s'.counters
        ensures s'.counters[v] == Unread(s'.rows, v)
      {
        UnreadAppend(s.rows, Row(u, event, false), v);
      }
    }
  }

  lemma MarkOneKeepsInv(s: State, u: User, id: nat)
    requires Inv(s)
    ensures Inv(MarkOne(s, u, id))
  {
    hide Unread;
    if Markable(s, u, id) {
      var s' := MarkOne(s, u, id);
      UnreadMarked(s.rows, id, u);
      forall v | v in s'.counters
        ensures s'.counters[v] == Unread(s'.rows, v)
      {
        UnreadMarked(s.rows, id, v);
      }
    }
  }

  lemma StepKeepsInv(s: State, step: Step)
    requires Inv(s)
    ensures Inv(Do(s, step))
  {
    hide Unread, Notify, MarkOne;
    match step
    case DeliverMatch(event, a, b, done) =>
      NotifyKeepsInv(s, a, event);
      NotifyKeepsInv(Notify(s, a, event), b, event);
    case DeliverMessage(event, u) => NotifyKeepsInv(s, u, event);
    case MarkRead(u, id) => MarkOneKeepsInv(s, u, id);
    case MarkAllRead(u) =>
      forall v | v in MarkAll(s, u).counters
        ensures MarkAll(s, u).counters[v] == Unread(MarkAll(s, u).rows, v)
      {
        UnreadAllRead(s.rows, u, v);
      }
    case _ =>
  }

  lemma {:induction false} RunsKeepInv(s: State, steps: seq<Step>)
    requires Inv(s)
    ensures Inv(After(s, steps))
    decreases |steps|
  {
    hide Inv, Do;
    if steps != [] {
      StepKeepsInv(s, steps[0]);
      RunsKeepInv(Do(s, steps[0]), steps[1..]);
    }
  }

  /**
    After any sequence of calls, redeliveries, half-failed deliveries and key expiries, what
    UnreadCount answers is the number of unread rows, and the clamp has never fired.
   */
  lemma CountersAreExact(steps: seq<Step>, u: User)
    ensures var s := After(EMPTY, steps);
      Answer(s, u) == Unread(s.rows, u) && !s.clamped
  {
    RunsKeepInv(EMPTY, steps);
  }

  /** However often an event is delivered, a user has at most one notification of it. */
  lemma OneNotificationPerEvent(steps: seq<Step>, i: nat, j: nat)
    requires i < |After(EMPTY, steps).rows| && j < |After(EMPTY, steps).rows|
    requires var rows := After(EMPTY, steps).rows;
             rows[i].user == rows[j].user && rows[i].event == rows[j].event && rows[i].event.Some?
    ensures i == j
  {
    RunsKeepInv(EMPTY, steps);
  }

  // ---- Retries ----

  lemma NotifyTwice(s: State, u: User, event: Option<EventId>)
    requires event.Some?
    ensures Notified(Notify(s, u, event).rows, u, event)
    ensures Notify(Notify(s, u, event), u, event) == Notify(s, u, event)
  {
    if !Notified(s.rows, u, event) {
      assert Notify(s, u, event).rows[|s.rows|] == Row(u, event, false);
    }
  }

  lemma NotifiedStays(s: State, u: User, v: User, event: Option<EventId>)
    requires Notified(s.rows, u, event)
    ensures Notified(Notify(s, v, event).rows, u, event)
  {
    var i :| 0 <= i < |s.rows| && s.rows[i].user == u && s.rows[i].event == event;
    assert Notify(s, v, event).rows[i] == s.rows[i];
  }

  /** A delivery that failed half way and is then repeated comes to the same as one that went through. */
  lemma RedeliveryCompletes(s: State, event: Option<EventId>, a: User, b: User, done: nat)
    requires event.Some?
    ensures MatchCreated(MatchCreated(s, event, a, b, done), event, a, b, 2) == MatchCreated(s, event, a, b, 2)
  {
    hide Notify, Notified;
    var s1 := Notify(s, a, event);
    NotifyTwice(s, a, event);
    if done >= 2 {
      var s2 := Notify(s1, b, event);
      NotifiedStays(s1, a, b, event);
      NotifyTwice(s1, b, event);
      AlreadyNotified(s2, a, event);
    }
  }

  lemma AlreadyNotified(s: State, u: User, event: Option<EventId>)
    requires Notified(s.rows, u, event)
    ensures Notify(s, u, event) == s
  {
  }

  /** Without an event id there is nothing to recognise a redelivery by: the user is notified again. */
  lemma NoEventIdNoDedupe(s: State, u: User)
    ensures |Notify(Notify(s, u, None), u, None).rows| == |s.rows| + 2
  {
  }

  // ---- Who is notified ----

  /** How many notifications of `event` a user has. */
  function Of(rows: seq<Row>, u: User, event: Option<EventId>): nat {
    if rows == [] then 0
    else
      var last := rows[|rows| - 1];
      Of(rows[..|rows| - 1], u, event) + if last.user == u && last.event == event then 1 else 0
  }

  lemma OfAppend(rows: seq<Row>, r: Row, u: User, event: Option<EventId>)
    ensures Of(rows + [r], u, event) == Of(rows, u, event) + if r.user == u && r.event == event then 1 else 0
  {
    assert (rows + [r])[..|rows|] == rows;
  }

  lemma {:induction false} NotifiedIffSome(rows: seq<Row>, u: User, event: Option<EventId>)
    requires event.Some?
    ensures Notified(rows, u, event) <==> Of(rows, u, event) > 0
    decreases |rows|
  {
    if rows != [] {
      var n := |rows| - 1;
      NotifiedIffSome(rows[..n], u, event);
      if Notified(rows[..n], u, event) {
        var i :| 0 <= i < n && rows[..n][i].user == u && rows[..n][i].event == event;
        assert rows[i].user == u;
      }
      if Notified(rows, u, event) && !(rows[n].user == u && rows[n].event == event) {
        var i :| 0 <= i < |rows| && rows[i].user == u && rows[i].event == event;
        assert rows[..n][i] == rows[i];
      }
    }
  }

  /** One notification adds at most one unread row, the user's, and none if the event was there. */
  lemma NotifyAdds(s: State, u: User, event: Option<EventId>)
    ensures var s' := Notify(s, u, event);
            var added := if event.Some? && Of(s.rows, u, event) > 0 then 0 else 1;
      && |s'.rows| == |s.rows| + added && s'.rows[..|s.rows|] == s.rows
      && (forall v, e :: Of(s'.rows, v, e) == Of(s.rows, v, e) + if v == u && e == event then added else 0)
      && (forall v :: Unread(s'.rows, v) == Unread(s.rows, v) + if v == u then added else 0)
      && s'.counters.Keys == s.counters.Keys
  {
    if event.Some? {
      NotifiedIffSome(s.rows, u, event);
    }
    if !Notified(s.rows, u, event) {
      forall v, e
        ensures Of(s.rows + [Row(u, event, false)], v, e) == Of(s.rows, v, e) + if v == u && e == event then 1 else 0
      {
        OfAppend(s.rows, Row(u, event, false), v, e);
      }
      forall v
        ensures Unread(s.rows + [Row(u, event, false)], v) == Unread(s.rows, v) + if v == u then 1 else 0
      {
        UnreadAppend(s.rows, Row(u, event, false), v);
      }
    }
  }

  /**
    Both participants of a match learn of it, each once: whoever had no notification of the
    event has one more unread row, whoever had one has no more, and nobody else hears of it.
   */
  lemma BothAreNotified(s: State, event: Option<EventId>, a: User, b: User, v: User)
    requires event.Some? && a != b
    ensures var s' := MatchCreated(s, event, a, b, 2);
            var added := if (v == a || v == b) && Of(s.rows, v, event) == 0 then 1 else 0;
      && Of(s'.rows, v, event) == Of(s.rows, v, event) + added
      && Unread(s'.rows, v) == Unread(s.rows, v) + added
      && s'.rows[..|s.rows|] == s.rows
  {
    hide Unread, Of, Notify;
    NotifyAdds(s, a, event);
    NotifyAdds(Notify(s, a, event), b, event);
  }

  /** So after an unfailed delivery each of them has exactly one, in every reachable state. */
  lemma EachHasExactlyOne(s: State, event: Option<EventId>, a: User, b: User)
    requires Inv(s) && event.Some? && a != b
    ensures var rows := MatchCreated(s, event, a, b, 2).rows;
      Of(rows, a, event) == 1 && Of(rows, b, event) == 1
  {
    hide Unread, Of;
    BothAreNotified(s, event, a, b, a);
    BothAreNotified(s, event, a, b, b);
    AtMostOne(s.rows, a, event);
    AtMostOne(s.rows, b, event);
  }

  lemma {:induction false} AtMostOne(rows: seq<Row>, u: User, event: Option<EventId>)
    requires Deduplicated(rows) && event.Some?
    ensures Of(rows, u, event) <= 1
    decreases |rows|
  {
    if rows != [] {
      var n := |rows| - 1;
      AtMostOne(rows[..n], u, event);
      NotifiedIffSome(rows[..n], u, event);
    }
  }

  /** A new message is notified to its recipient, once. */
  lemma RecipientHasExactlyOne(s: State, u: User, event: Option<EventId>)
    requires Inv(s) && event.Some?
    ensures Of(Notify(s, u, event).rows, u, event) == 1
  {
    NotifyAdds(s, u, event);
    AtMostOne(s.rows, u, event);
  }

  /** Without an event id both get a row every time. */
  lemma BothAreNotifiedAgain(s: State, a: User, b: User)
    ensures MatchCreated(s, None, a, b, 2).rows == s.rows + [Row(a, None, false), Row(b, None, false)]
  {
  }

  /** A delivery that fails at the second recipient has notified the first and nobody else. */
  lemma FirstIsNotifiedAlone(s: State, event: Option<EventId>, a: User, b: User, v: User)
    requires event.Some?
    ensures MatchCreated(s, event, a, b, 0) == s
    ensures var s' := MatchCreated(s, event, a, b, 1);
            var added := if v == a && Of(s.rows, v, event) == 0 then 1 else 0;
      && Of(s'.rows, v, event) == Of(s.rows, v, event) + added
      && Unread(s'.rows, v) == Unread(s.rows, v) + added
  {
    NotifyAdds(s, a, event);
  }

  // ---- Reading ----

  /** Marking reads exactly the one row, and only the user's own; the user's count goes down with it. */
  lemma MarkOneReads(s: State, u: User, id: nat, i: nat, v: User)
    requires i < |s.rows|
    ensures var s' := MarkOne(s, u, id);
      && |s'.rows| == |s.rows|
      && s'.rows[i] == s.rows[i].(read := s.rows[i].read || (i == id && s.rows[i].user == u))
      && Unread(s'.rows, v)
         == Unread(s.rows, v) - (if v == u && id < |s.rows| && s.rows[id].user == u && !s.rows[id].read then 1 else 0)
      && s'.counters.Keys == s.counters.Keys
  {
    if Markable(s, u, id) {
      UnreadMarked(s.rows, id, v);
    }
  }

  /** Marking all reads every row of the user and no other, and leaves a count of zero. */
  lemma MarkAllReads(s: State, u: User, i: nat, v: User)
    requires i < |s.rows|
    ensures var s' := MarkAll(s, u);
      && |s'.rows| == |s.rows|
      && s'.rows[i] == s.rows[i].(read := s.rows[i].read || s.rows[i].user == u)
      && Unread(s'.rows, v) == (if v == u then 0 else Unread(s.rows, v))
      && Answer(s', u) == 0 && s'.counters.Keys == s.counters.Keys + {u}
  {
    UnreadAllRead(s.rows, u, v);
  }
}
