/**
  Any number of drainers over one outbox table.  A claim is one statement (FOR UPDATE SKIP
  LOCKED), so it takes some set of claimable rows; publishing and marking are separate
  steps, and a drainer may die between any two, taking any of its unfinished work with it.
 */
module OutboxProtocol {
  import opened Wrappers
  import opened OutboxRows

  datatype Config = Config(maxAttempts: nat, batch: nat)

  /** One claim of a row: when, and how many attempts it had before. */
  datatype Claim = Claim(at: Time, attempts: nat)

  /**
    `history[i]` lists the claims of row i, `toPublish` and `toMark` the row ids drainers
    still hold, `delivered` the ids Publish has returned nil for, `calls` all Publish calls.
   */
  datatype State = State(
    rows: seq<Row>,
    now: Time,
    history: seq<seq<Claim>>,
    toPublish: multiset<nat>,
    toMark: multiset<nat>,
    delivered: set<nat>,
    calls: nat)

  function Start(now: Time): State {
    State([], now, [], multiset{}, multiset{}, {}, 0)
  }

  datatype Step =
    | Enqueue(now: Time)
    | ClaimBatch(ids: set<nat>, now: Time)
    | PublishOk(id: nat)
    | PublishFails(id: nat)
    | Mark(id: nat, now: Time)
    | MarkFails(id: nat)
    | Crash(unpublished: multiset<nat>, unmarked: multiset<nat>)

  ghost predicate Enabled(c: Config, s: State, step: Step) {
    match step
    case Enqueue(now) => s.now <= now
    case ClaimBatch(ids, now) =>
      && s.now <= now && |ids| <= c.batch
      && (forall i | i in ids :: i < |s.rows| && Claimable(s.rows[i], c.maxAttempts, now))
    case PublishOk(id) => id in s.toPublish
    case PublishFails(id) => id in s.toPublish
    case Mark(id, now) => id in s.toMark && s.now <= now
    case MarkFails(id) => id in s.toMark
    case Crash(a, b) => a <= s.toPublish && b <= s.toMark
  }

  function Do(s: State, step: Step): State
  {
    match step
    case Enqueue(now) =>
      s.(rows := s.rows + [Row(0, now, None, now)], history := s.history + [[]], now := now)
    case ClaimBatch(ids, now) =>
      s.(rows := ClaimRows(s.rows, ids, now),
         history := seq(|s.history|, i requires 0 <= i < |s.history| =>
                      if i in ids && i < |s.rows| then s.history[i] + [Claim(now, s.rows[i].attempts)]
                      else s.history[i]),
         toPublish := s.toPublish + multiset(ids),
         now := now)
    case PublishOk(id) =>
      s.(toPublish := s.toPublish - multiset{id}, toMark := s.toMark + multiset{id},
         delivered := s.delivered + {id}, calls := s.calls + 1)
    case PublishFails(id) =>
      s.(toPublish := s.toPublish - multiset{id}, calls := s.calls + 1)
    case Mark(id, now) =>
      s.(rows := MarkRow(s.rows, id, now), toMark := s.toMark - multiset{id}, now := now)
    case MarkFails(id) =>
      s.(toMark := s.toMark - multiset{id})
    case Crash(a, b) =>
      s.(toPublish := s.toPublish - a, toMark := s.toMark - b)
  }

  ghost predicate IsRun(c: Config, s: State, steps: seq<Step>)
    decreases |steps|
  {
    steps != [] ==> Enabled(c, s, steps[0]) && IsRun(c, Do(s, steps[0]), steps[1..])
  }

  function After(s: State, steps: seq<Step>): State
    decreases |steps|
  {
    if steps == [] then s else After(Do(s, steps[0]), steps[1..])
  }

  /** The k-th claim found k attempts, and left the row alone for the backoff of k. */
  ghost predicate Spaced(claims: seq<Claim>) {
    && (forall k | 0 <= k < |claims| :: claims[k].attempts == k)
    && (forall k, l | 0 <= k < l < |claims| :: claims[k].at + Backoff(k) <= claims[l].at)
  }

  ghost predicate RowInv(c: Config, s: State, i: nat)
    requires i < |s.rows| == |s.history|
  {
    var r, claims := s.rows[i], s.history[i];
    && Spaced(claims)
    && r.attempts == |claims| <= c.maxAttempts
    && (claims != [] ==>
          var last := claims[|claims| - 1];
          last.at <= s.now && r.availableAt == last.at + Backoff(last.attempts))
    && (claims == [] ==> r.availableAt <= s.now)
    && (r.publishedAt.Some? ==> i in s.delivered)
  }

  ghost predicate Inv(c: Config, s: State) {
    && |s.rows| == |s.history|
    && (forall i | 0 <= i < |s.rows| :: RowInv(c, s, i))
    && (forall id | id in s.toMark :: id in s.delivered)
  }

  lemma LastAttempts(claims: seq<Claim>)
    requires Spaced(claims) && claims != []
    ensures claims[|claims| - 1].attempts == |claims| - 1
  {
  }

  lemma SpacedExtends(claims: seq<Claim>, now: Time)
    requires Spaced(claims)
    requires claims != [] ==> claims[|claims| - 1].at + Backoff(|claims| - 1) <= now
    ensures Spaced(claims + [Claim(now, |claims|)])
  {
    hide Backoff;
    if claims != [] {
      var last := |claims| - 1;
      BackoffIsBounded(last);
      forall k | 0 <= k < last
        ensures claims[k].at + Backoff(k) <= now
      {
        assert claims[k].at + Backoff(k) <= claims[last].at;
      }
    }
  }

  lemma ClaimKeepsRow(c: Config, s: State, ids: set<nat>, now: Time, i: nat)
    requires Inv(c, s) && Enabled(c, s, ClaimBatch(ids, now)) && i < |s.rows|
    ensures |Do(s, ClaimBatch(ids, now)).rows| == |Do(s, ClaimBatch(ids, now)).history| == |s.rows|
    ensures RowInv(c, Do(s, ClaimBatch(ids, now)), i)
  {
    hide Backoff, Spaced;
    assert RowInv(c, s, i);
    if i in ids {
      var claims := s.history[i];
      if claims != [] {
        LastAttempts(claims);
      }
      SpacedExtends(claims, now);
    }
  }

  /** What RowInv says survives as long as the row is at most marked, and only once delivered. */
  ghost predicate AtMostMarked(s: State, s': State, i: nat)
    requires i < |s.rows| == |s.history|
  {
    && i < |s'.rows| == |s'.history| && s'.history[i] == s.history[i]
    && s.now <= s'.now && s.delivered <= s'.delivered
    && s'.rows[i].attempts == s.rows[i].attempts && s'.rows[i].availableAt == s.rows[i].availableAt
    && (s'.rows[i] == s.rows[i] || i in s'.delivered)
  }

  lemma AtMostMarkedKeepsRow(c: Config, s: State, s': State, i: nat)
    requires i < |s.rows| == |s.history| && RowInv(c, s, i) && AtMostMarked(s, s', i)
    ensures RowInv(c, s', i)
  {
    hide Backoff, Spaced;
  }

  lemma EnqueueKeepsRow(c: Config, s: State, now: Time, i: nat)
    requires Inv(c, s) && s.now <= now && i <= |s.rows|
    ensures RowInv(c, Do(s, Enqueue(now)), i)
  {
    hide Backoff;
    if i < |s.rows| {
      assert RowInv(c, s, i);
      AtMostMarkedKeepsRow(c, s, Do(s, Enqueue(now)), i);
    }
  }

  lemma MarkKeepsRow(c: Config, s: State, id: nat, now: Time, i: nat)
    requires Inv(c, s) && Enabled(c, s, Mark(id, now)) && i < |s.rows|
    ensures |Do(s, Mark(id, now)).rows| == |s.rows| && RowInv(c, Do(s, Mark(id, now)), i)
  {
    assert RowInv(c, s, i);
    hide RowInv;
    AtMostMarkedKeepsRow(c, s, Do(s, Mark(id, now)), i);
  }

  /** Publishing, and whatever fails or dies, changes no row. */
  lemma RowsUntouched(c: Config, s: State, step: Step)
    requires Enabled(c, s, step) && !step.ClaimBatch? && !step.Enqueue? && !step.Mark?
    ensures var s' := Do(s, step);
      s'.rows == s.rows && s'.history == s.history && s'.now == s.now && s.delivered <= s'.delivered
  {
    hide ClaimRows, MarkRow, Claimable;
  }

  lemma OtherStepsKeepRow(c: Config, s: State, step: Step, i: nat)
    requires Inv(c, s) && Enabled(c, s, step) && !step.ClaimBatch?
    ensures var s' := Do(s, step);
      |s'.rows| == |s'.history| && (i < |s'.rows| ==> RowInv(c, s', i))
  {
    hide RowInv, ClaimRows, MarkRow, Claimable;
    if step.Enqueue? {
      if i <= |s.rows| {
        EnqueueKeepsRow(c, s, step.now, i);
      }
    } else if step.Mark? {
      MarkLength(s.rows, step.id, step.now);
      if i < |s.rows| {
        MarkKeepsRow(c, s, step.id, step.now, i);
      }
    } else {
      RowsUntouched(c, s, step);
      hide Do, Enabled;
      if i < |s.rows| {
        AtMostMarkedKeepsRow(c, s, Do(s, step), i);
      }
    }
  }

  lemma MarkLength(rows: seq<Row>, id: nat, now: Time)
    ensures |MarkRow(rows, id, now)| == |rows|
  {
  }

  lemma StepKeepsInv(c: Config, s: State, step: Step)
    requires Inv(c, s) && Enabled(c, s, step)
    ensures Inv(c, Do(s, step))
  {
    hide RowInv;
    var s' := Do(s, step);
    forall i | 0 <= i < |s'.rows|
      ensures |s'.rows| == |s'.history| && RowInv(c, s', i)
    {
      if step.ClaimBatch? {
        ClaimKeepsRow(c, s, step.ids, step.now, i);
      } else {
        OtherStepsKeepRow(c, s, step, i);
      }
    }
  }

  lemma {:induction false} RunsKeepInv(c: Config, s: State, steps: seq<Step>)
    requires Inv(c, s) && IsRun(c, s, steps)
    ensures Inv(c, After(s, steps))
    decreases |steps|
  {
    hide Inv, Enabled, Do;
    if steps != [] {
      StepKeepsInv(c, s, steps[0]);
      RunsKeepInv(c, Do(s, steps[0]), steps[1..]);
    }
  }

  lemma SpacedLeases(claims: seq<Claim>)
    requires Spaced(claims)
    ensures forall k, l | 0 <= k < l < |claims| ::
              claims[k].attempts == k && claims[k].at + Lease(k) <= claims[l].at
  {
    hide Backoff;
    forall k, l | 0 <= k < l < |claims|
      ensures claims[k].at + Lease(k) <= claims[l].at
    {
      BackoffDoubles(k);
    }
  }

  lemma DueAgain(c: Config, s: State, i: nat, now: Time)
    requires i < |s.rows| == |s.history| && RowInv(c, s, i) && s.now <= now
    ensures s.rows[i].attempts == |s.history[i]| <= c.maxAttempts
    ensures s.rows[i].publishedAt.Some? ==> i in s.delivered
    ensures Claimable(s.rows[i], c.maxAttempts, now) <==>
              && s.rows[i].publishedAt.None? && |s.history[i]| < c.maxAttempts
              && (s.history[i] != [] ==>
                    var last := |s.history[i]| - 1;
                    s.history[i][last].at + Lease(last) <= now)
  {
    hide Backoff;
    if s.history[i] != [] {
      LastAttempts(s.history[i]);
      BackoffDoubles(|s.history[i]| - 1);
    }
  }

  /**
    Whatever drainers do: claim k of a row finds k attempts and leaves the row alone for 5
    seconds, doubled with every attempt up to 320; attempts never exceed the maximum; a row is
    marked published only after Publish returned nil for it; and a row can be claimed now iff it
    is unpublished, has attempts left and the lease of its last claim is over.
   */
  lemma LeasesHold(c: Config, start: Time, steps: seq<Step>, i: nat, now: Time)
    requires IsRun(c, Start(start), steps)
    requires i < |After(Start(start), steps).rows| && After(Start(start), steps).now <= now
    ensures var s := After(Start(start), steps);
      && i < |s.history|
      && (forall k, l | 0 <= k < l < |s.history[i]| ::
            s.history[i][k].attempts == k
            && s.history[i][k].at + Lease(k) <= s.history[i][l].at)
      && s.rows[i].attempts == |s.history[i]| <= c.maxAttempts
      && (s.rows[i].publishedAt.Some? ==> i in s.delivered)
      && (Claimable(s.rows[i], c.maxAttempts, now) <==>
            && s.rows[i].publishedAt.None? && |s.history[i]| < c.maxAttempts
            && (s.history[i] != [] ==>
                  var last := |s.history[i]| - 1;
                  s.history[i][last].at + Lease(last) <= now))
  {
    hide Claimable;
    RunsKeepInv(c, Start(start), steps);
    var s := After(Start(start), steps);
    assert RowInv(c, s, i);
    hide RowInv, IsRun, After;
    SpacedLeases(s.history[i]);
    DueAgain(c, s, i, now);
  }

  // ---- One event, start to finish ----

  /** The steps of a drainer that takes one row: claim, publish, and mark what Publish accepted. */
  function OneEvent(id: nat, now: Time, sent: bool, marked: bool): seq<Step> {
    [ClaimBatch({id}, now)] + Publishing(id, now, sent, marked)
  }

  function Publishing(id: nat, now: Time, sent: bool, marked: bool): seq<Step> {
    if sent then [PublishOk(id)] + [if marked then Mark(id, now) else MarkFails(id)] else [PublishFails(id)]
  }

  /**
    Left alone with one due row, a drainer publishes it iff Publish returned nil and the
    bookkeeping went through; otherwise the row is leased, one attempt older, and will be
    tried again.
   */
  lemma OneEventAlone(c: Config, s: State, id: nat, now: Time, sent: bool, marked: bool)
    requires |s.rows| == |s.history| && c.batch >= 1 && s.now <= now
    requires id < |s.rows| && Claimable(s.rows[id], c.maxAttempts, now) && id !in s.toPublish && id !in s.toMark
    ensures IsRun(c, s, OneEvent(id, now, sent, marked))
    ensures var s' := After(s, OneEvent(id, now, sent, marked));
      && s'.rows == s.rows[id := Row(s.rows[id].attempts + 1, now + Lease(s.rows[id].attempts),
                                     if sent && marked then Some(now) else None, s.rows[id].createdAt)]
      && s'.delivered == (if sent then s.delivered + {id} else s.delivered)
      && s'.calls == s.calls + 1 && s'.toPublish == s.toPublish && s'.toMark == s.toMark
  {
    ClaimsOne(c, s, id, now);
    var s1 := Do(s, ClaimBatch({id}, now));
    assert s1.toMark == s.toMark && id in s1.toPublish;
    assert Enabled(c, s, ClaimBatch({id}, now));
    hide Do, Enabled, Claimable, Publishing;
    PublishesOne(c, s1, id, now, sent, marked);
    Prepend(c, s, ClaimBatch({id}, now), Publishing(id, now, sent, marked));
    assert s1.toPublish - multiset{id} == s.toPublish;
  }

  lemma PublishesOne(c: Config, s: State, id: nat, now: Time, sent: bool, marked: bool)
    requires id in s.toPublish && id !in s.toMark && s.now == now && id < |s.rows| && s.rows[id].publishedAt.None?
    ensures IsRun(c, s, Publishing(id, now, sent, marked))
    ensures var s' := After(s, Publishing(id, now, sent, marked));
      && s'.rows == (if sent && marked then s.rows[id := s.rows[id].(publishedAt := Some(now))] else s.rows)
      && s'.delivered == (if sent then s.delivered + {id} else s.delivered)
      && s'.calls == s.calls + 1 && s'.toPublish == s.toPublish - multiset{id} && s'.toMark == s.toMark
  {
    if sent {
      var s1 := Do(s, PublishOk(id));
      var step := if marked then Mark(id, now) else MarkFails(id);
      var s2 := Do(s1, step);
      assert s2.toMark == s.toMark;
      Prepend(c, s1, step, []);
      assert [step] + [] == [step];
      Prepend(c, s, PublishOk(id), [step]);
    } else {
      Prepend(c, s, PublishFails(id), []);
      assert [PublishFails(id)] + [] == [PublishFails(id)];
    }
  }

  lemma ClaimsOne(c: Config, s: State, id: nat, now: Time)
    requires |s.rows| == |s.history| && id < |s.rows|
    ensures var s1 := Do(s, ClaimBatch({id}, now));
      && s1.rows == s.rows[id := Row(s.rows[id].attempts + 1, now + Lease(s.rows[id].attempts),
                                     s.rows[id].publishedAt, s.rows[id].createdAt)]
      && s1.toPublish == s.toPublish + multiset{id} && s1.toMark == s.toMark
      && s1.delivered == s.delivered && s1.calls == s.calls && s1.now == now
  {
    hide Claimed;
    ClaimLeases(s.rows[id], now);
    assert multiset({id}) == multiset{id};
  }

  lemma Prepend(c: Config, s: State, step: Step, rest: seq<Step>)
    requires Enabled(c, s, step) && IsRun(c, Do(s, step), rest)
    ensures IsRun(c, s, [step] + rest) && After(s, [step] + rest) == After(Do(s, step), rest)
  {
    assert ([step] + rest)[1..] == rest;
  }

  // ---- The budget of Publish calls ----

  /** Publish calls already made, promised, or still possible. */
  function Exposure(c: Config, s: State): nat {
    s.calls + |s.toPublish| + Budget(s.rows, c.maxAttempts)
  }

  lemma StepSpends(c: Config, s: State, step: Step)
    requires Enabled(c, s, step) && !step.Enqueue?
    ensures Exposure(c, Do(s, step)) <= Exposure(c, s)
    ensures Budget(Do(s, step).rows, c.maxAttempts) + (if step.ClaimBatch? then |step.ids| else 0)
            <= Budget(s.rows, c.maxAttempts)
  {
    match step
    case ClaimBatch(ids, now) =>
      ClaimSpends(s.rows, ids, c.maxAttempts, now);
      SetAsMultiset(ids);
    case Mark(id, now) =>
      MarkSpends(s.rows, id, c.maxAttempts, now);
    case _ =>
  }

  lemma {:induction false} SetAsMultiset(ids: set<nat>)
    ensures |multiset(ids)| == |ids|
  {
    if ids != {} {
      var x :| x in ids;
      SetAsMultiset(ids - {x});
      assert multiset(ids) == multiset(ids - {x}) + multiset{x};
    }
  }

  /** Without new rows, all the Publish calls still to come fit the attempts still left. */
  lemma PublishCallsAreBounded(c: Config, s: State, steps: seq<Step>)
    requires IsRun(c, s, steps)
    requires forall k | 0 <= k < |steps| :: !steps[k].Enqueue?
    ensures After(s, steps).calls <= s.calls + |s.toPublish| + Budget(s.rows, c.maxAttempts)
  {
    ExposureNeverGrows(c, s, steps);
  }

  lemma {:induction false} ExposureNeverGrows(c: Config, s: State, steps: seq<Step>)
    requires IsRun(c, s, steps)
    requires forall k | 0 <= k < |steps| :: !steps[k].Enqueue?
    ensures Exposure(c, After(s, steps)) <= Exposure(c, s)
    decreases |steps|
  {
    hide Enabled, Do, Exposure;
    if steps != [] {
      StepSpends(c, s, steps[0]);
      ExposureNeverGrows(c, Do(s, steps[0]), steps[1..]);
    }
  }

  // ---- Published rows ----

  lemma PublishedStays(c: Config, s: State, step: Step, i: nat)
    requires Enabled(c, s, step) && i < |s.rows| == |s.history| && s.rows[i].publishedAt.Some?
    ensures var s' := Do(s, step);
      i < |s'.rows| == |s'.history| && s'.rows[i] == s.rows[i] && s'.history[i] == s.history[i]
  {
    hide Backoff;
  }

  /** A row once marked published is never claimed again, nor changed. */
  lemma {:induction false} PublishedIsFinal(c: Config, s: State, steps: seq<Step>, i: nat)
    requires IsRun(c, s, steps) && i < |s.rows| == |s.history| && s.rows[i].publishedAt.Some?
    ensures var s' := After(s, steps);
      i < |s'.rows| == |s'.history| && s'.rows[i] == s.rows[i] && s'.history[i] == s.history[i]
    decreases |steps|
  {
    hide Enabled, Do;
    if steps != [] {
      PublishedStays(c, s, steps[0], i);
      PublishedIsFinal(c, Do(s, steps[0]), steps[1..], i);
    }
  }
}
