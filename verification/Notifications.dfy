/**
  notifications.Service over its two stores, each call as the Go code makes it.
 */
module Notifications {
  import opened Wrappers
  import opened UnreadCounters

  datatype Error = NotFound

  class Service {
    var rows: seq<Row>
    var counters: map<User, int>
    var clamped: bool

    ghost function View(): State
      reads this
    {
      State(rows, counters, clamped)
    }

    /** Counters exact, no event notified twice, the clamp never needed. */
    ghost predicate Valid()
      reads this
    {
      Inv(View())
    }

    constructor ()
      ensures Valid() && View() == EMPTY
    {
      rows, counters, clamped := [], map[], false;
    }

    /** store.insert: ON CONFLICT (user_id, event_id) WHERE event_id IS NOT NULL DO NOTHING. */
    method Insert(user: User, event: Option<EventId>) returns (created: bool)
      modifies this`rows
      ensures created <==> event.None? || forall i | 0 <= i < |old(rows)| :: old(rows)[i].user != user || old(rows)[i].event != event
      ensures rows == if created then old(rows) + [Row(user, event, false)] else old(rows)
    {
      if Notified(rows, user, event) {
        return false;
      }
      rows := rows + [Row(user, event, false)];
      return true;
    }

    /** One recipient: the row first, then the counter, and only if the row is new. */
    method NotifyOne(user: User, event: Option<EventId>)
      requires Valid()
      modifies this
      ensures Valid()
      ensures View() == Notify(old(View()), user, event)
    {
      NotifyKeepsInv(View(), user, event);
      var created := Insert(user, event);
      if created && user in counters {
        counters := counters[user := counters[user] + 1];
      }
    }

    /** `failAt` is the recipient whose name lookup or insert fails, if one does. */
    method OnMatchCreated(event: Option<EventId>, a: User, b: User, failAt: Option<nat>) returns (failed: bool)
      requires Valid()
      modifies this
      ensures Valid()
      ensures failed == (failAt.Some? && failAt.value < 2)
      ensures View() == Do(old(View()), DeliverMatch(event, a, b, if failed then failAt.value else 2))
      ensures !failed && event.Some? && a != b ==> Of(rows, a, event) == 1 && Of(rows, b, event) == 1
      ensures !failed && event.None? ==> rows == old(rows) + [Row(a, None, false), Row(b, None, false)]
      ensures failAt == Some(0) ==> View() == old(View())
    {
      var recipients := [a, b];
      failed := false;
      for k := 0 to 2
        invariant Valid()
        invariant View() == MatchCreated(old(View()), event, a, b, k)
        invariant failAt.Some? ==> k <= failAt.value
      {
        if failAt == Some(k) {
          return true;
        }
        NotifyOne(recipients[k], event);
      }
      if event.Some? && a != b {
        EachHasExactlyOne(old(View()), event, a, b);
      } else if event.None? {
        BothAreNotifiedAgain(old(View()), a, b);
      }
    }

    method OnMessageCreated(event: Option<EventId>, recipient: User, fails: bool) returns (failed: bool)
      requires Valid()
      modifies this
      ensures Valid()
      ensures failed == fails
      ensures View() == if failed then old(View()) else Do(old(View()), DeliverMessage(event, recipient))
      ensures !failed && event.Some? ==> Of(rows, recipient, event) == 1
    {
      if fails {
        return true;
      }
      NotifyOne(recipient, event);
      if event.Some? {
        RecipientHasExactlyOne(old(View()), recipient, event);
      }
      return false;
    }

    /** markRead's UPDATE changes the row only if it is the user's and unread; the counter follows the row. */
    method MarkAsRead(user: User, id: nat) returns (err: Option<Error>)
      requires Valid()
      modifies this
      ensures Valid()
      ensures err == if id < |old(rows)| && old(rows)[id].user == user then None else Some(NotFound)
      ensures View() == Do(old(View()), MarkRead(user, id))
      ensures rows == if err.None? then old(rows)[id := old(rows)[id].(read := true)] else old(rows)
    {
      MarkOneKeepsInv(View(), user, id);
      if id < |rows| && rows[id].user == user && !rows[id].read {
        rows := rows[id := rows[id].(read := true)];
        if user in counters {
          var v := counters[user] - 1;
          counters := counters[user := if v < 0 then 0 else v];
          clamped := clamped || v < 0;
        }
        return None;
      }
      return if id < |rows| && rows[id].user == user then None else Some(NotFound);
    }

    method MarkAllAsRead(user: User)
      requires Valid()
      modifies this
      ensures Valid()
      ensures View() == Do(old(View()), MarkAllRead(user))
      ensures |rows| == |old(rows)| && user in counters && counters[user] == 0
      ensures forall i | 0 <= i < |rows| :: rows[i] == if old(rows)[i].user == user then old(rows)[i].(read := true) else old(rows)[i]
    {
      StepKeepsInv(View(), MarkAllRead(user));
      rows := AllRead(rows, user);
      counters := counters[user := 0];
    }

    /** With exact counters the answer is the number of unread rows, cached or not. */
    method CountUnread(user: User) returns (n: int)
      requires Valid()
      modifies this`counters
      ensures Valid()
      ensures n == Unread(old(rows), user)
      ensures View() == Do(old(View()), UnreadCount(user))
    {
      StepKeepsInv(View(), UnreadCount(user));
      if user in counters {
        assert counters == counters[user := counters[user]];
        return counters[user];
      }
      n := Unread(rows, user);
      counters := counters[user := n];
    }
  }
}
