/**
  outbox/drainer.go as one drainer runs it: claim a batch, publish and mark each event,
  and keep going while full batches come back.
 */
module OutboxDrainer {
  import opened Wrappers
  import opened OutboxRows
  import opened Basics

  /** How the claim may go: not reach the database, take effect unheard, or take effect and answer. */
  datatype Outcome = NotDone | DoneUnheard | Answered

  class Drainer {
    var rows: seq<Row>
    const maxAttempts: nat
    const batch: nat
    ghost var calls: nat
    ghost var delivered: set<nat>

    ghost predicate Valid()
      reads this
    {
      && batch >= 1
      && (forall i | 0 <= i < |rows| :: rows[i].publishedAt.Some? ==> i in delivered)
    }

    constructor (batch: nat, maxAttempts: nat)
      ensures Valid() && rows == [] && this.maxAttempts == (if maxAttempts == 0 then 10 else maxAttempts)
      ensures this.batch == if batch == 0 then 100 else batch
    {
      this.batch := if batch == 0 then 100 else batch;
      this.maxAttempts := if maxAttempts == 0 then 10 else maxAttempts;
      rows := [];
      calls, delivered := 0, {};
    }

    /** outbox.Enqueue, once the caller's transaction has committed. */
    method Enqueue(now: Time)
      requires Valid()
      modifies this`rows
      ensures Valid() && rows == old(rows) + [Row(0, now, None, now)]
      ensures Budget(rows, maxAttempts) == Budget(old(rows), maxAttempts) + maxAttempts
    {
      assert (rows + [Row(0, now, None, now)])[..|rows|] == rows;
      rows := rows + [Row(0, now, None, now)];
    }

    /** The next row of the claim's ORDER BY, if any is due. */
    method NextDue(now: Time) returns (next: Option<nat>)
      ensures next.None? ==> forall j | 0 <= j < |rows| :: !Claimable(rows[j], maxAttempts, now)
      ensures next.Some? ==>
                && next.value < |rows| && Claimable(rows[next.value], maxAttempts, now)
                && forall j | 0 <= j < |rows| && Claimable(rows[j], maxAttempts, now) :: NotAfter(rows[next.value], rows[j])
    {
      hide Claimable;
      next := None;
      for i := 0 to |rows|
        invariant next.None? ==> forall j | 0 <= j < i :: !Claimable(rows[j], maxAttempts, now)
        invariant next.Some? ==>
                    && next.value < i && Claimable(rows[next.value], maxAttempts, now)
                    && forall j | 0 <= j < i && Claimable(rows[j], maxAttempts, now) :: NotAfter(rows[next.value], rows[j])
      {
        if Claimable(rows[i], maxAttempts, now) && (next.None? || !NotAfter(rows[next.value], rows[i])) {
          next := Some(i);
        }
      }
    }

    /** Takes due rows in order until the batch is full or none is left. */
    method Claim(now: Time) returns (events: seq<nat>, ghost ids: set<nat>)
      requires Valid()
      modifies this`rows
      ensures Valid()
      ensures forall i | i in ids :: i < |old(rows)| && Claimable(old(rows)[i], maxAttempts, now)
      ensures rows == ClaimRows(old(rows), ids, now)
      ensures |rows| == |old(rows)|
      ensures forall i | 0 <= i < |rows| ::
                rows[i] == if i in ids then Row(old(rows)[i].attempts + 1, now + Lease(old(rows)[i].attempts),
                                                old(rows)[i].publishedAt, old(rows)[i].createdAt)
                           else old(rows)[i]
      ensures |events| == |ids| <= batch && forall i :: i in events <==> i in ids
      ensures forall k, l | 0 <= k < l < |events| :: events[k] != events[l]
      ensures |ids| < batch ==> forall i | 0 <= i < |old(rows)| && i !in ids :: !Claimable(old(rows)[i], maxAttempts, now)
      ensures InOrder(old(rows), events, maxAttempts, now)
    {
      hide Claimed, Claimable, ClaimRows, NotAfter, InOrder;
      ghost var before := rows;
      events, ids := [], {};
      NothingClaimed(rows, now);
      NothingInOrder(rows, maxAttempts, now);
      while |events| < batch
        invariant |rows| == |before| && |events| == |ids| <= batch
        invariant forall i :: i in events <==> i in ids
        invariant forall k, l | 0 <= k < l < |events| :: events[k] != events[l]
        invariant forall j | j in ids :: j < |before| && Claimable(before[j], maxAttempts, now)
        invariant rows == ClaimRows(before, ids, now)
        invariant InOrder(before, events, maxAttempts, now)
        decreases batch - |events|
      {
        StillClaimable(before, ids, maxAttempts, now);
        var next := NextDue(now);
        if next.None? {
          ClaimedRows(before, ids, now);
          return;
        }
        var i := next.value;
        OneMoreClaim(before, ids, i, now);
        OneMoreInOrder(before, events, i, maxAttempts, now);
        events := events + [i];
        ids := ids + {i};
        rows := rows[i := Claimed(rows[i], now)];
      }
      ClaimedRows(before, ids, now);
    }

    /**
      DrainOnce.  `claim` is how the claim goes, `sends` and `marks` are what the transport
      and the bookkeeping update do with the k-th event, and the caller's context ends in front
      of event `cancelAt`, if it ends at all.
     */
    method DrainOnce(now: Time, claim: Outcome, sends: nat -> bool, marks: nat -> bool, cancelAt: Option<nat>)
      returns (published: nat, err: bool, ghost events: seq<nat>)
      requires Valid()
      modifies this
      ensures Valid()
      ensures claim.NotDone? ==> events == []
      ensures |events| <= batch && InOrder(old(rows), events, maxAttempts, now)
      ensures !claim.NotDone? && |events| < batch ==>
                forall i | 0 <= i < |old(rows)| && i !in events :: !Claimable(old(rows)[i], maxAttempts, now)
      ensures forall i | i in events :: i < |old(rows)| && Claimable(old(rows)[i], maxAttempts, now)
      ensures var tried := if claim.Answered? then Tried(|events|, cancelAt) else 0;
                && (err <==> !claim.Answered? || tried < |events|)
                && Passed(old(rows), rows, events, tried, sends, marks, now)
                && calls == old(calls) + tried
                && delivered == old(delivered) + Sent(events, tried, sends)
      ensures forall k | 0 <= k < |events| ::
                && events[k] < |rows|
                && rows[events[k]].publishedAt
                   == (if claim.Answered? && (cancelAt.Some? ==> k < cancelAt.value) && sends(k) && marks(k) then Some(now) else None)
                && (claim.Answered? && (cancelAt.Some? ==> k < cancelAt.value) && sends(k) ==> events[k] in delivered)
      ensures PublishedCount(rows) == PublishedCount(old(rows)) + published
      ensures Budget(rows, maxAttempts) + published <= Budget(old(rows), maxAttempts)
      ensures calls + Budget(rows, maxAttempts) <= old(calls) + Budget(old(rows), maxAttempts)
      ensures published <= batch
    {
      hide Claimable, Passed, InOrder, Sent;
      ghost var before := rows;
      published, err, events := 0, false, [];
      if claim.NotDone? {
        NothingPassed(before, sends, marks, now);
        NothingInOrder(before, maxAttempts, now);
        return 0, true, [];
      }
      var claimed, ids := Claim(now);
      events := claimed;
      ClaimSpends(before, ids, maxAttempts, now);
      ClaimPublishesNothing(before, ids, now);
      ClaimPasses(before, ids, events, sends, marks, maxAttempts, now);
      NothingSent(events, sends);
      if claim.DoneUnheard? {
        PassedMeans(before, rows, events, 0, sends, marks, now);
        return 0, true, events;
      }
      published, err := PublishClaimed(claimed, now, sends, marks, cancelAt, before);
      PassedMeans(before, rows, events, Tried(|events|, cancelAt), sends, marks, now);
    }

    /** The loop of DrainOnce over what it has claimed. */
    method PublishClaimed(events: seq<nat>, now: Time, sends: nat -> bool, marks: nat -> bool, cancelAt: Option<nat>,
                          ghost before: seq<Row>)
      returns (published: nat, err: bool)
      requires Valid() && Passed(before, rows, events, 0, sends, marks, now)
      modifies this
      ensures Valid()
      ensures var tried := Tried(|events|, cancelAt);
                && (err <==> tried < |events|)
                && Passed(before, rows, events, tried, sends, marks, now)
                && calls == old(calls) + tried
                && delivered == old(delivered) + Sent(events, tried, sends)
      ensures published <= |events| && calls <= old(calls) + |events|
      ensures PublishedCount(rows) == PublishedCount(old(rows)) + published
      ensures Budget(rows, maxAttempts) <= Budget(old(rows), maxAttempts)
    {
      hide Passed, Sent;
      NothingSent(events, sends);
      published, err := 0, false;
      var k := 0;
      while k < |events|
        invariant 0 <= k <= |events| && published <= k && !err
        invariant cancelAt.Some? && cancelAt.value < |events| ==> k <= cancelAt.value
        invariant Valid() && calls == old(calls) + k && delivered == old(delivered) + Sent(events, k, sends)
        invariant Passed(before, rows, events, k, sends, marks, now)
        invariant PublishedCount(rows) == PublishedCount(old(rows)) + published
        invariant Budget(rows, maxAttempts) <= Budget(old(rows), maxAttempts)
      {
        if cancelAt == Some(k) {
          return published, true;
        }
        calls := calls + 1;
        OneMorePassed(before, rows, events, k, sends, marks, now);
        OneMoreSent(events, k, sends);
        if sends(k) {
          delivered := delivered + {events[k]};
          if marks(k) {
            MarkPublished(events[k], now);
            published := published + 1;
          }
        }
        k := k + 1;
      }
    }

    /** markPublished */
    method MarkPublished(id: nat, now: Time)
      requires Valid() && id < |rows| && rows[id].publishedAt.None? && id in delivered
      modifies this`rows
      ensures Valid() && rows == old(rows)[id := old(rows)[id].(publishedAt := Some(now))]
      ensures PublishedCount(rows) == PublishedCount(old(rows)) + 1
      ensures Budget(rows, maxAttempts) <= Budget(old(rows), maxAttempts)
    {
      MarkSpends(rows, id, maxAttempts, now);
      MarkPublishesOne(rows, id, now);
      rows := MarkRow(rows, id, now);
    }

    /**
      The inner loop of Run: it goes on exactly as long as full batches come back, it ends, and
      everything it sends was paid for by the budget.
     */
    method DrainBacklog(start: Time) returns (err: bool, ghost passes: seq<nat>)
      requires Valid()
      modifies this
      ensures Valid()
      ensures passes != [] && forall i | 0 <= i < |passes| - 1 :: passes[i] == batch
      ensures err || passes[|passes| - 1] < batch
      ensures PublishedCount(rows) == PublishedCount(old(rows)) + Sum(passes)
      ensures calls + Budget(rows, maxAttempts) <= old(calls) + Budget(old(rows), maxAttempts)
    {
      var now := start;
      passes := [];
      while true
        invariant Valid()
        invariant forall i | 0 <= i < |passes| :: passes[i] == batch
        invariant PublishedCount(rows) == PublishedCount(old(rows)) + Sum(passes)
        invariant calls + Budget(rows, maxAttempts) <= old(calls) + Budget(old(rows), maxAttempts)
        decreases Budget(rows, maxAttempts)
      {
        var claim: Outcome, cancelAt: Option<nat> := *, *;
        var sends: nat -> bool, marks: nat -> bool := *, *;
        var published, failed, _ := DrainOnce(now, claim, sends, marks, cancelAt);
        assert (passes + [published])[..|passes|] == passes;
        passes := passes + [published];
        if failed || published < batch {
          return failed, passes;
        }
        var elapsed: nat := *;
        now := now + elapsed;
      }
    }
  }

  function Sum(s: seq<nat>): nat {
    if s == [] then 0 else Sum(s[..|s| - 1]) + s[|s| - 1]
  }

  lemma NothingClaimed(rows: seq<Row>, now: Time)
    ensures ClaimRows(rows, {}, now) == rows
  {
  }

  lemma ClaimedRows(rows: seq<Row>, ids: set<nat>, now: Time)
    ensures |ClaimRows(rows, ids, now)| == |rows|
    ensures forall i | 0 <= i < |rows| ::
              ClaimRows(rows, ids, now)[i] == if i in ids then Row(rows[i].attempts + 1, now + Lease(rows[i].attempts),
                                                                   rows[i].publishedAt, rows[i].createdAt)
                                              else rows[i]
  {
    hide Claimed;
    forall i | 0 <= i < |rows|
      ensures Claimed(rows[i], now) == Row(rows[i].attempts + 1, now + Lease(rows[i].attempts), rows[i].publishedAt, rows[i].createdAt)
    {
      ClaimLeases(rows[i], now);
    }
  }

  lemma OneMoreClaim(rows: seq<Row>, ids: set<nat>, i: nat, now: Time)
    requires i < |rows| && i !in ids
    ensures |ClaimRows(rows, ids, now)| == |rows| && ClaimRows(rows, ids, now)[i] == rows[i]
    ensures ClaimRows(rows, ids + {i}, now) == ClaimRows(rows, ids, now)[i := Claimed(rows[i], now)]
  {
  }

  /** Every row claimed has been due for as long as every due row left behind, and among equals is as old. */
  ghost predicate InOrder(rows: seq<Row>, events: seq<nat>, maxAttempts: nat, now: Time) {
    forall i, j | i in events && i < |rows| && 0 <= j < |rows| && j !in events && Claimable(rows[j], maxAttempts, now) ::
      rows[i].availableAt < rows[j].availableAt
      || (rows[i].availableAt == rows[j].availableAt && rows[i].createdAt <= rows[j].createdAt)
  }

  /** A lease takes a row off the due ones, and leaves the others as they are. */
  lemma StillClaimable(rows: seq<Row>, ids: set<nat>, maxAttempts: nat, now: Time)
    ensures |ClaimRows(rows, ids, now)| == |rows|
    ensures forall j | 0 <= j < |rows| ::
              && (Claimable(ClaimRows(rows, ids, now)[j], maxAttempts, now)
                  <==> j !in ids && Claimable(rows[j], maxAttempts, now))
              && (j !in ids ==> ClaimRows(rows, ids, now)[j] == rows[j])
  {
    forall j | 0 <= j < |rows|
      ensures Backoff(rows[j].attempts) > 0
    {
      BackoffIsBounded(rows[j].attempts);
    }
  }

  // ---- What one pass has done after k events ----

  /** How many of n events are reached before the context ends. */
  function Tried(n: nat, cancelAt: Option<nat>): nat {
    if cancelAt.Some? && cancelAt.value < n then cancelAt.value else n
  }

  /** The ids the transport accepted among the first k events. */
  ghost function Sent(events: seq<nat>, k: nat, sends: nat -> bool): set<nat>
    requires k <= |events|
  {
    set l | 0 <= l < k && sends(l) :: events[l]
  }

  /**
    Every event is leased, one attempt older; of the first k, exactly those sent and marked
    are published; no other row is touched.
   */
  ghost predicate Passed(
      before: seq<Row>, after: seq<Row>, events: seq<nat>, k: nat, sends: nat -> bool, marks: nat -> bool, now: Time)
  {
    && |after| == |before|
    && (forall i, j | 0 <= i < j < |events| :: events[i] != events[j])
    && (forall i | 0 <= i < |before| && i !in events :: after[i] == before[i])
    && (forall l | 0 <= l < |events| ::
          var id := events[l];
          && id < |before|
          && after[id] == Row(before[id].attempts + 1, now + Lease(before[id].attempts),
                              if l < k && sends(l) && marks(l) then Some(now) else None, before[id].createdAt))
  }

  lemma PassedMeans(before: seq<Row>, after: seq<Row>, events: seq<nat>, k: nat,
                    sends: nat -> bool, marks: nat -> bool, now: Time)
    requires Passed(before, after, events, k, sends, marks, now) && k <= |events|
    ensures forall l | 0 <= l < |events| ::
              && events[l] < |after|
              && after[events[l]].publishedAt == (if l < k && sends(l) && marks(l) then Some(now) else None)
              && (l < k && sends(l) ==> events[l] in Sent(events, k, sends))
  {
    hide Lease;
  }

  lemma NothingPassed(rows: seq<Row>, sends: nat -> bool, marks: nat -> bool, now: Time)
    ensures Passed(rows, rows, [], 0, sends, marks, now)
    ensures Sent([], 0, sends) == {}
  {
  }

  lemma NothingInOrder(rows: seq<Row>, maxAttempts: nat, now: Time)
    ensures InOrder(rows, [], maxAttempts, now)
  {
  }

  lemma OneMoreInOrder(rows: seq<Row>, events: seq<nat>, i: nat, maxAttempts: nat, now: Time)
    requires InOrder(rows, events, maxAttempts, now) && i < |rows|
    requires forall j | 0 <= j < |rows| && j !in events && Claimable(rows[j], maxAttempts, now) :: NotAfter(rows[i], rows[j])
    ensures InOrder(rows, events + [i], maxAttempts, now)
  {
  }

  lemma NothingSent(events: seq<nat>, sends: nat -> bool)
    ensures Sent(events, 0, sends) == {}
  {
  }

  lemma ClaimPasses(rows: seq<Row>, ids: set<nat>, events: seq<nat>, sends: nat -> bool, marks: nat -> bool,
                    maxAttempts: nat, now: Time)
    requires forall i | i in ids :: i < |rows| && Claimable(rows[i], maxAttempts, now)
    requires forall i :: i in events <==> i in ids
    requires forall i, j | 0 <= i < j < |events| :: events[i] != events[j]
    ensures Passed(rows, ClaimRows(rows, ids, now), events, 0, sends, marks, now)
  {
    hide ClaimRows;
    ClaimedRows(rows, ids, now);
    forall l | 0 <= l < |events|
      ensures events[l] in ids
    {
      assert events[l] in events;
    }
  }

  lemma OneMorePassed(before: seq<Row>, after: seq<Row>, events: seq<nat>, k: nat,
                      sends: nat -> bool, marks: nat -> bool, now: Time)
    requires Passed(before, after, events, k, sends, marks, now) && k < |events|
    ensures events[k] < |after| && after[events[k]].publishedAt.None?
    ensures Passed(before, if sends(k) && marks(k) then after[events[k] := after[events[k]].(publishedAt := Some(now))] else after,
                   events, k + 1, sends, marks, now)
  {
    hide Lease;
    var id := events[k];
    assert id in events;
    forall l | 0 <= l < |events| && l != k
      ensures events[l] != id
    {
      assert l < k || k < l;
    }
  }

  lemma OneMoreSent(events: seq<nat>, k: nat, sends: nat -> bool)
    requires k < |events|
    ensures Sent(events, k + 1, sends) == Sent(events, k, sends) + if sends(k) then {events[k]} else {}
  {
  }
}
