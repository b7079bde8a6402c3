/**
  A row of outbox_events, the lease its claim takes, and the sum that bounds all retries.
 */
module OutboxRows {
  import opened Wrappers

  // Microseconds on the database clock.
  type Time = int

  const SECOND: Time := 1000000

  /** A row's id is its position in insertion order. */
  datatype Row = Row(attempts: nat, availableAt: Time, publishedAt: Option<Time>, createdAt: Time)

  function Power2(n: nat): nat {
    if n == 0 then 1 else 2 * Power2(n - 1)
  }

  /** interval '1 second' * 5 * power(2, least(attempts, 6)). */
  function Backoff(attempts: nat): Time {
    5 * SECOND * Power2(if attempts < 6 then attempts else 6)
  }

  /** The leases by attempts already made, in microseconds; from the seventh claim on they stay. */
  const LEASES: seq<Time> := [5000000, 10000000, 20000000, 40000000, 80000000, 160000000, 320000000]

  function Lease(attempts: nat): Time {
    LEASES[if attempts < 6 then attempts else 6]
  }

  /** 5 seconds at first, doubled by each attempt up to the sixth, 320 seconds from then on. */
  lemma BackoffDoubles(attempts: nat)
    ensures Backoff(0) == 5000000
    ensures attempts < 6 ==> Backoff(attempts + 1) == 2 * Backoff(attempts)
    ensures attempts >= 6 ==> Backoff(attempts) == 320000000
    ensures Backoff(attempts) == Lease(attempts)
  {
    assert Power2(1) == 2 && Power2(2) == 4 && Power2(3) == 8 && Power2(4) == 16 && Power2(5) == 32 && Power2(6) == 64;
  }

  /** The longest lease is 320 seconds, the shortest 5. */
  lemma BackoffIsBounded(attempts: nat)
    ensures 5 * SECOND <= Backoff(attempts) <= 320 * SECOND
  {
    assert Power2(2) == 4 && Power2(4) == 16 && Power2(6) == 64;
    Power2Grows(if attempts < 6 then attempts else 6, 6);
  }

  lemma {:induction false} Power2Grows(m: nat, n: nat)
    requires m <= n
    ensures 1 <= Power2(m) <= Power2(n)
    decreases n
  {
    if m < n {
      Power2Grows(m, n - 1);
    } else if 0 < m {
      Power2Grows(m - 1, m - 1);
    }
  }

  predicate Claimable(r: Row, maxAttempts: nat, now: Time) {
    r.publishedAt.None? && r.availableAt <= now && r.attempts < maxAttempts
  }

  /** ORDER BY available_at, created_at */
  predicate NotAfter(a: Row, b: Row) {
    a.availableAt < b.availableAt || (a.availableAt == b.availableAt && a.createdAt <= b.createdAt)
  }

  function Claimed(r: Row, now: Time): Row {
    r.(attempts := r.attempts + 1, availableAt := now + Backoff(r.attempts))
  }

  /** A claim costs an attempt and leases the row; it changes nothing else. */
  lemma ClaimLeases(r: Row, now: Time)
    ensures Claimed(r, now) == Row(r.attempts + 1, now + Lease(r.attempts), r.publishedAt, r.createdAt)
  {
    BackoffDoubles(r.attempts);
  }

  /** One UPDATE .. RETURNING over the chosen rows. */
  function ClaimRows(rows: seq<Row>, ids: set<nat>, now: Time): seq<Row> {
    seq(|rows|, i requires 0 <= i < |rows| => if i in ids then Claimed(rows[i], now) else rows[i])
  }

  /** UPDATE .. SET published_at WHERE id = $1 AND published_at IS NULL. */
  function MarkRow(rows: seq<Row>, id: nat, now: Time): seq<Row> {
    if id < |rows| && rows[id].publishedAt.None? then rows[id := rows[id].(publishedAt := Some(now))] else rows
  }

  /** What a row can still cost: the attempts it has left. */
  function Left(r: Row, maxAttempts: nat): nat {
    if r.publishedAt.None? && r.attempts < maxAttempts then maxAttempts - r.attempts else 0
  }

  /** The sum of (MaxAttempts - attempts) over the unpublished rows. */
  function Budget(rows: seq<Row>, maxAttempts: nat): nat {
    if rows == [] then 0
    else Budget(rows[..|rows| - 1], maxAttempts) + Left(rows[|rows| - 1], maxAttempts)
  }

  /** Claiming spends the budget one for one. */
  lemma {:induction false} ClaimSpends(rows: seq<Row>, ids: set<nat>, maxAttempts: nat, now: Time)
    requires forall i | i in ids :: i < |rows| && Claimable(rows[i], maxAttempts, now)
    ensures Budget(ClaimRows(rows, ids, now), maxAttempts) + |ids| == Budget(rows, maxAttempts)
    decreases |rows|
  {
    if rows == [] {
      assert ids == {};
    } else {
      var n := |rows| - 1;
      var rest := ids - {n};
      assert ClaimRows(rows, ids, now)[..n] == ClaimRows(rows[..n], rest, now);
      ClaimSpends(rows[..n], rest, maxAttempts, now);
      assert n in ids ==> ids == rest + {n};
      assert n !in ids ==> ids == rest;
    }
  }

  lemma {:induction false} MarkSpends(rows: seq<Row>, id: nat, maxAttempts: nat, now: Time)
    ensures Budget(MarkRow(rows, id, now), maxAttempts) <= Budget(rows, maxAttempts)
    decreases |rows|
  {
    if id < |rows| && rows[id].publishedAt.None? {
      var n := |rows| - 1;
      if id == n {
        assert MarkRow(rows, id, now)[..n] == rows[..n];
      } else {
        assert MarkRow(rows, id, now)[..n] == MarkRow(rows[..n], id, now);
        MarkSpends(rows[..n], id, maxAttempts, now);
      }
    }
  }

  /** How many rows are published. */
  function PublishedCount(rows: seq<Row>): nat {
    if rows == [] then 0
    else PublishedCount(rows[..|rows| - 1]) + if rows[|rows| - 1].publishedAt.Some? then 1 else 0
  }

  lemma {:induction false} ClaimPublishesNothing(rows: seq<Row>, ids: set<nat>, now: Time)
    ensures PublishedCount(ClaimRows(rows, ids, now)) == PublishedCount(rows)
    decreases |rows|
  {
    if rows != [] {
      var n := |rows| - 1;
      ClaimPublishesNothing(rows[..n], ids, now);
      assert ClaimRows(rows, ids, now)[..n] == ClaimRows(rows[..n], ids, now);
    }
  }

  lemma {:induction false} MarkPublishesOne(rows: seq<Row>, id: nat, now: Time)
    requires id < |rows| && rows[id].publishedAt.None?
    ensures PublishedCount(MarkRow(rows, id, now)) == PublishedCount(rows) + 1
    decreases |rows|
  {
    var n := |rows| - 1;
    if id == n {
      assert MarkRow(rows, id, now)[..n] == rows[..n];
    } else {
      assert MarkRow(rows, id, now)[..n] == MarkRow(rows[..n], id, now);
      MarkPublishesOne(rows[..n], id, now);
    }
  }
}
