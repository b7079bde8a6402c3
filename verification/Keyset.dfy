/**
  Keyset pagination: pages of `limit` rows of an ordered table, each fetched with one row
  more than it shows, each starting after the last row of the page before.
 */
module Keyset {
  import opened Wrappers
  import opened Basics
  import Order

  /** A sort key: the column ordered by, then the row's id.  Rows come in ascending key order. */
  datatype Key = Key(major: int, id: int)

  predicate Less(a: Key, b: Key) {
    a.major < b.major || (a.major == b.major && a.id < b.id)
  }

  /** Past the cursor, if there is one. */
  predicate Past(after: Option<Key>, k: Key) {
    after.Some? ==> Less(after.value, k)
  }

  ghost predicate Ascending(s: seq<Key>) {
    Order.Ascending(Less, s)
  }

  /** WHERE past the cursor ORDER BY key LIMIT limit, on a table holding the keys T. */
  ghost predicate IsAnswer(T: set<Key>, after: Option<Key>, limit: nat, rows: seq<Key>) {
    && Ascending(rows)
    && |rows| <= limit
    && (forall i | 0 <= i < |rows| :: rows[i] in T && Past(after, rows[i]))
    && (forall k | k in T && Past(after, k) && k !in rows ::
          |rows| == limit && forall i | 0 <= i < |rows| :: Less(rows[i], k))
  }

  datatype Page = Page(items: seq<Key>, next: Option<Key>)

  /** What Discover and Matches make of the rows of a LIMIT limit + 1 query. */
  function PageOf(rows: seq<Key>, limit: nat): Page {
    if |rows| > limit then Page(rows[..limit], if limit > 0 then Some(rows[limit - 1]) else None)
    else Page(rows, None)
  }

  /** Following next_cursor to the end; the k-th request finds the table as tables[k]. */
  ghost predicate IsWalk(tables: seq<set<Key>>, answers: seq<seq<Key>>, limit: nat, after: Option<Key>)
    decreases |tables|
  {
    && 0 < |tables| == |answers|
    && IsAnswer(tables[0], after, limit + 1, answers[0])
    && var next := PageOf(answers[0], limit).next;
       if next.None? then |tables| == 1 else IsWalk(tables[1..], answers[1..], limit, next)
  }

  /** All items of all pages, in the order they are shown. */
  function Shown(answers: seq<seq<Key>>, limit: nat): seq<Key> {
    if answers == [] then [] else PageOf(answers[0], limit).items + Shown(answers[1..], limit)
  }

  /** A page's items are all the rows there are, or all up to the cursor. */
  lemma PageIsAPrefix(T: set<Key>, after: Option<Key>, limit: nat, rows: seq<Key>, k: Key)
    requires limit >= 1 && IsAnswer(T, after, limit + 1, rows)
    requires k in T && Past(after, k) && k !in PageOf(rows, limit).items
    ensures PageOf(rows, limit).next.Some? && Less(PageOf(rows, limit).next.value, k)
  {
    var items := PageOf(rows, limit).items;
    assert forall i | 0 <= i < |items| :: items[i] == rows[i] && rows[i] in items;
    if k in rows {
      var i :| 0 <= i < |rows| && rows[i] == k;
      assert i >= |items|;
    }
  }

  lemma PageAscends(T: set<Key>, after: Option<Key>, limit: nat, rows: seq<Key>)
    requires limit >= 1 && IsAnswer(T, after, limit + 1, rows)
    ensures var page := PageOf(rows, limit);
      && Ascending(page.items)
      && (forall i | 0 <= i < |page.items| :: page.items[i] in T && Past(after, page.items[i]))
      && (page.next.Some? ==>
            && Past(after, page.next.value)
            && forall i | 0 <= i < |page.items| :: page.items[i] == page.next.value || Less(page.items[i], page.next.value))
  {
  }

  lemma {:induction false} WalkAscends(tables: seq<set<Key>>, answers: seq<seq<Key>>, limit: nat, after: Option<Key>)
    requires limit >= 1 && IsWalk(tables, answers, limit, after)
    ensures Ascending(Shown(answers, limit))
    ensures forall i | 0 <= i < |Shown(answers, limit)| :: Past(after, Shown(answers, limit)[i])
    decreases |tables|
  {
    var page := PageOf(answers[0], limit);
    PageAscends(tables[0], after, limit, answers[0]);
    if page.next.None? {
      assert answers[1..] == [];
    } else {
      WalkAscends(tables[1..], answers[1..], limit, page.next);
    }
  }

  lemma {:induction false} WalkMissesNothing(
      tables: seq<set<Key>>, answers: seq<seq<Key>>, limit: nat, after: Option<Key>, k: Key)
    requires limit >= 1 && IsWalk(tables, answers, limit, after) && Past(after, k)
    requires forall t | 0 <= t < |tables| :: k in tables[t]
    ensures k in Shown(answers, limit)
    decreases |tables|
  {
    var page := PageOf(answers[0], limit);
    if k !in page.items {
      PageIsAPrefix(tables[0], after, limit, answers[0], k);
      WalkMissesNothing(tables[1..], answers[1..], limit, page.next, k);
    }
  }

  lemma {:induction false} WalkInventsNothing(
      tables: seq<set<Key>>, answers: seq<seq<Key>>, limit: nat, after: Option<Key>, k: Key)
    requires limit >= 1 && IsWalk(tables, answers, limit, after) && k in Shown(answers, limit)
    ensures exists t :: 0 <= t < |tables| && k in tables[t]
    decreases |tables|
  {
    var page := PageOf(answers[0], limit);
    assert page.next.None? ==> answers[1..] == [];
    if k in page.items {
      PageAscends(tables[0], after, limit, answers[0]);
      assert k in tables[0];
    } else {
      WalkInventsNothing(tables[1..], answers[1..], limit, page.next, k);
      var t :| 0 <= t < |tables[1..]| && k in tables[1..][t];
      assert k in tables[t + 1];
    }
  }

  /** No row's sort key changes while the walk lasts. */
  ghost predicate KeysFixed(tables: seq<set<Key>>) {
    forall s, t, k, l | 0 <= s < |tables| && 0 <= t < |tables| && k in tables[s] && l in tables[t] && k.id == l.id :: k == l
  }

  /**
    Rows may come and go between the pages.  The walk is strictly ordered, shows only rows
    that were there, and shows every row that was there throughout exactly once; no id is
    shown twice unless its sort key changed.
   */
  lemma WalkEnumerates(tables: seq<set<Key>>, answers: seq<seq<Key>>, limit: nat, k: Key)
    requires limit >= 1 && IsWalk(tables, answers, limit, None)
    ensures var shown := Shown(answers, limit);
      && Ascending(shown)
      && (k in shown ==> exists t :: 0 <= t < |tables| && k in tables[t])
      && ((forall t | 0 <= t < |tables| :: k in tables[t]) ==>
            exists i :: 0 <= i < |shown| && shown[i] == k && forall j | 0 <= j < |shown| && j != i :: shown[j] != k)
      && (KeysFixed(tables) ==> forall i, j | 0 <= i < j < |shown| :: shown[i].id != shown[j].id)
  {
    hide IsWalk, Shown;
    var shown := Shown(answers, limit);
    WalkAscends(tables, answers, limit, None);
    if k in shown {
      WalkInventsNothing(tables, answers, limit, None, k);
    }
    if forall t | 0 <= t < |tables| :: k in tables[t] {
      WalkMissesNothing(tables, answers, limit, None, k);
      var i :| 0 <= i < |shown| && shown[i] == k;
      assert forall j | 0 <= j < |shown| && j != i :: shown[j] != k;
    }
    if KeysFixed(tables) {
      forall i, j | 0 <= i < j < |shown|
        ensures shown[i].id != shown[j].id
      {
        WalkInventsNothing(tables, answers, limit, None, shown[i]);
        WalkInventsNothing(tables, answers, limit, None, shown[j]);
        assert Less(shown[i], shown[j]);
      }
    }
  }

  /** So the query has one answer. */
  lemma AnswerIsUnique(T: set<Key>, after: Option<Key>, limit: nat, a: seq<Key>, b: seq<Key>)
    requires IsAnswer(T, after, limit, a) && IsAnswer(T, after, limit, b)
    ensures a == b
  {
    SameAnswer(T, after, limit, a, b);
    SameAnswer(T, after, limit, b, a);
    Order.AscendingIsUnique(Less, a, b);
  }

  lemma SameAnswer(T: set<Key>, after: Option<Key>, limit: nat, a: seq<Key>, b: seq<Key>)
    requires IsAnswer(T, after, limit, a) && IsAnswer(T, after, limit, b)
    ensures forall k | k in a :: k in b
  {
    forall k | k in a
      ensures k in b
    {
      if k !in b {
        // b is full, and everything in it comes before k; so b is a part of a.
        forall l | l in b
          ensures l in a
        {
        }
        var as_, bs := set l | l in a, set l | l in b;
        CountAscending(a);
        CountAscending(b);
        assert bs <= as_ - {k};
        SubsetSize(bs, as_ - {k});
      }
    }
  }

  lemma {:induction false} CountAscending(a: seq<Key>)
    requires Ascending(a)
    ensures |set k | k in a| == |a|
    decreases |a|
  {
    if a != [] {
      CountAscending(a[1..]);
      forall k
        ensures k in a[1..] <==> k in a && k != a[0]
      {
        Order.TailMembers(Less, a, k);
      }
      assert (set k | k in a) == (set k | k in a[1..]) + {a[0]};
    } else {
      assert (set k | k in a) == {};
    }
  }

}
