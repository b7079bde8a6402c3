/**
  The results about whole runs of the session protocol.
 */
module SessionTheorems {
  import opened Wrappers
  import opened SessionRows
  import opened SessionProtocol
  import opened SessionSafety

  lemma {:induction false} RunsKeepInv(s: State, steps: seq<Step>)
    requires Inv(s) && IsRun(s, steps)
    ensures Inv(After(s, steps))
    decreases |steps|
  {
    hide Inv, Do, Enabled;
    if steps != [] {
      StepKeepsInv(s, steps[0]);
      RunsKeepInv(Do(s, steps[0]), steps[1..]);
    }
  }

  /** Whatever runs, refreshes racing included, no refresh token is accepted twice. */
  lemma NoTokenIsAcceptedTwice(steps: seq<Step>)
    requires IsRun(INIT, steps)
    ensures var a := After(INIT, steps).accepted;
            forall i, j | 0 <= i < j < |a| :: a[i].hash != a[j].hash
  {
    RunsKeepInv(INIT, steps);
  }

  /** Live hashes never collide, an old hash is an accepted one, and rotations are counted exactly. */
  lemma RowsTellTheTruth(steps: seq<Step>)
    requires IsRun(INIT, steps)
    ensures var s := After(INIT, steps);
      && (forall a, b | a in s.rows && b in s.rows && a != b ::
            && s.rows[a].current != s.rows[b].current
            && Some(s.rows[a].current) != s.rows[b].previous
            && (s.rows[a].previous.Some? ==> s.rows[a].previous != s.rows[b].previous))
      && (forall a | a in s.rows ::
            && Some(s.rows[a].current) != s.rows[a].previous
            && (s.rows[a].previous.Some? ==> Was(s.accepted, s.rows[a].previous.value))
            && s.rows[a].rotations == CountFor(s.accepted, a))
  {
    RunsKeepInv(INIT, steps);
    var s := After(INIT, steps);
    forall a, b | a in s.rows && b in s.rows && a != b
      ensures Disjoint(s.rows[a], s.rows[b]) && Disjoint(s.rows[b], s.rows[a])
    {
    }
    assert forall a | a in s.rows :: RowHashes(s, a);
  }

  /** No link of a password reset is redeemed twice. */
  lemma NoResetLinkIsRedeemedTwice(steps: seq<Step>)
    requires IsRun(INIT, steps)
    ensures var r := After(INIT, steps).redeemed;
            forall i, j | 0 <= i < j < |r| :: r[i] != r[j]
  {
    RunsKeepInv(INIT, steps);
  }

  lemma ClosedIsNeverAccepted(s: State, step: Step, sid: Sid)
    requires Inv(s) && Enabled(s, step) && sid in s.closed
    ensures sid in Do(s, step).closed
    ensures CountFor(Do(s, step).accepted, sid) == CountFor(s.accepted, sid)
  {
    hide HashInv, CountInv, Picks, Active, Sweepable;
    if step.CommitRefresh? {
      assert RefreshLocks(s, step.id);
      CountAppend(s.accepted, Accepted(s.txs[step.id].presented, s.txs[step.id].sid, s.txs[step.id].newHash), sid);
    }
  }

  /** A closed session is never refreshed again, whatever runs. */
  lemma {:induction false} ClosedForGood(s: State, steps: seq<Step>, sid: Sid)
    requires Inv(s) && IsRun(s, steps) && sid in s.closed
    ensures CountFor(After(s, steps).accepted, sid) == CountFor(s.accepted, sid)
    ensures Settled(After(s, steps).rows, sid)
    decreases |steps|
  {
    hide Do, Enabled, HashInv, CountInv, LockInv;
    if steps != [] {
      ClosedIsNeverAccepted(s, steps[0], sid);
      StepKeepsInv(s, steps[0]);
      ClosedForGood(Do(s, steps[0]), steps[1..], sid);
    }
  }

  /**
    A replayed token ends its session: once the revoke that follows the rollback has run,
    no refresh of that session succeeds again, whatever was interleaved before it.
   */
  lemma ReplayEndsTheSession(before: seq<Step>, id: TxId, now: Time, after: seq<Step>)
    requires IsRun(INIT, before)
    requires var s := After(INIT, before);
             Enabled(s, RevokeReplayed(id, now)) && IsRun(Do(s, RevokeReplayed(id, now)), after)
    ensures var s := After(INIT, before);
            var s' := Do(s, RevokeReplayed(id, now));
            var sid := s.txs[id].sid;
            && CountFor(After(s', after).accepted, sid) == CountFor(s.accepted, sid)
            && Settled(After(s', after).rows, sid)
  {
    RunsKeepInv(INIT, before);
    var s := After(INIT, before);
    assert RefreshLocks(s, id);
    hide Inv;
    StepKeepsInv(s, RevokeReplayed(id, now));
    ClosedForGood(Do(s, RevokeReplayed(id, now)), after, s.txs[id].sid);
  }

  /** No step takes a session off the list a reset is working through. */
  lemma SeenIsKept(s: State, id: TxId, step: Step)
    requires Enabled(s, step) && ResetAt(s, id, AtMark)
    ensures id in Do(s, step).txs ==> ResetAt(Do(s, step), id, AtMark) && Do(s, step).txs[id].seen == s.txs[id].seen
  {
    hide Picks, Active, Sweepable, RevokeAll, Presents, Rotated, Revoked;
    if Actor(step) != Some(id) {
      hide Do, Enabled;
      OnlyTheActorChanges(s, step);
    }
  }

  /** The run never ends transaction `id`. */
  ghost predicate Throughout(s: State, steps: seq<Step>, id: TxId)
    requires IsRun(s, steps)
    decreases |steps|
  {
    id in s.txs && (steps != [] ==> Throughout(Do(s, steps[0]), steps[1..], id))
  }

  lemma {:induction false} SeenThroughout(s: State, steps: seq<Step>, id: TxId)
    requires IsRun(s, steps) && Throughout(s, steps, id) && ResetAt(s, id, AtMark)
    ensures ResetAt(After(s, steps), id, AtMark) && After(s, steps).txs[id].seen == s.txs[id].seen
    decreases |steps|
  {
    hide Do, Enabled;
    if steps != [] {
      SeenIsKept(s, id, steps[0]);
      assert id in Do(s, steps[0]).txs;
      SeenThroughout(Do(s, steps[0]), steps[1..], id);
    }
  }

  lemma ScanLists(s: State, id: TxId, sid: Sid)
    requires Enabled(s, Scan(id)) && sid in s.rows && s.rows[sid].user == s.tokens[s.txs[id].token].user
    ensures ResetAt(Do(s, Scan(id)), id, AtMark) && sid in Do(s, Scan(id)).txs[id].seen
  {
  }

  /** What the list covers is closed once the reset commits. */
  lemma CommitCloses(s: State, id: TxId, now: Time, after: seq<Step>, sid: Sid)
    requires Inv(s) && Enabled(s, CommitReset(id, now)) && sid in s.txs[id].seen
    requires IsRun(Do(s, CommitReset(id, now)), after)
    ensures var s' := Do(s, CommitReset(id, now));
            && CountFor(After(s', after).accepted, sid) == CountFor(s.accepted, sid)
            && Settled(After(s', after).rows, sid)
  {
    StepKeepsInv(s, CommitReset(id, now));
    hide Inv;
    ClosedForGood(Do(s, CommitReset(id, now)), after, sid);
  }

  /**
    A password reset ends every session its user has when the revoking statement begins,
    whatever runs while the statement works through them, rotations included: from its
    commit on, none of them is ever refreshed again.
   */
  lemma ResetEndsEverySession(
      before: seq<Step>, id: TxId, mid: seq<Step>, now: Time, after: seq<Step>, sid: Sid)
    requires IsRun(INIT, before) && Enabled(After(INIT, before), Scan(id))
    requires var scanned := Do(After(INIT, before), Scan(id));
             && IsRun(scanned, mid) && Throughout(scanned, mid, id)
             && Enabled(After(scanned, mid), CommitReset(id, now))
             && IsRun(Do(After(scanned, mid), CommitReset(id, now)), after)
    requires var s := After(INIT, before);
             sid in s.rows && s.rows[sid].user == s.tokens[s.txs[id].token].user
    ensures var s := After(Do(After(INIT, before), Scan(id)), mid);
            var s' := Do(s, CommitReset(id, now));
            && CountFor(After(s', after).accepted, sid) == CountFor(s.accepted, sid)
            && Settled(After(s', after).rows, sid)
  {
    RunsKeepInv(INIT, before);
    var s0 := After(INIT, before);
    StepKeepsInv(s0, Scan(id));
    ScanLists(s0, id, sid);
    hide Inv, Do, Enabled;
    var s1 := Do(s0, Scan(id));
    RunsKeepInv(s1, mid);
    SeenThroughout(s1, mid, id);
    CommitCloses(After(s1, mid), id, now, after, sid);
  }

  // ---- The refreshes of one session are a chain ----

  /** The row remembers the hash its last refresh presented and holds the one it was issued. */
  ghost predicate Remembers(s: State, sid: Sid)
    requires sid in s.rows
  {
    match LastFor(s.accepted, sid)
    case None => s.rows[sid].previous.None?
    case Some(a) => s.rows[sid].previous == Some(a.hash) && s.rows[sid].current == a.issued
  }

  ghost predicate Linked(accepted: seq<Accepted>, j: nat)
    requires j < |accepted|
  {
    var before := LastFor(accepted[..j], accepted[j].sid);
    before.Some? ==> accepted[j].hash == before.value.issued
  }

  ghost predicate ChainInv(s: State) {
    && (forall sid | sid in s.rows :: Remembers(s, sid))
    && (forall j | 0 <= j < |s.accepted| :: Linked(s.accepted, j))
  }

  lemma {:induction false} UnknownHasNoLast(accepted: seq<Accepted>, sid: Sid)
    requires forall i | 0 <= i < |accepted| :: accepted[i].sid != sid
    ensures LastFor(accepted, sid).None?
  {
    if accepted != [] {
      UnknownHasNoLast(accepted[..|accepted| - 1], sid);
    }
  }

  lemma LastAppend(accepted: seq<Accepted>, e: Accepted, sid: Sid)
    ensures LastFor(accepted + [e], sid) == if e.sid == sid then Some(e) else LastFor(accepted, sid)
  {
    assert (accepted + [e])[..|accepted|] == accepted;
  }

  lemma CommitKeepsChain(s: State, id: TxId)
    requires Inv(s) && ChainInv(s) && Enabled(s, CommitRefresh(id))
    ensures ChainInv(Do(s, CommitRefresh(id)))
  {
    hide HashInv, CountInv, ClosedInv;
    var tx, s' := s.txs[id], Do(s, CommitRefresh(id));
    var e := Accepted(tx.presented, tx.sid, tx.newHash);
    assert RefreshLocks(s, id);
    forall sid | sid in s'.rows
      ensures Remembers(s', sid)
    {
      LastAppend(s.accepted, e, sid);
      assert Remembers(s, sid);
    }
    forall j | 0 <= j < |s'.accepted|
      ensures Linked(s'.accepted, j)
    {
      assert s'.accepted[..j] == s.accepted[..j];
      assert j < |s.accepted| ==> Linked(s.accepted, j);
      assert Remembers(s, tx.sid) && s.accepted[..|s.accepted|] == s.accepted;
    }
  }

  lemma QuietKeepsChain(s: State, s': State)
    requires ChainInv(s) && SameHashes(s, s')
    ensures ChainInv(s')
  {
    hide LastFor;
    assert forall sid | sid in s'.rows :: Remembers(s, sid);
  }

  lemma LoginKeepsChain(s: State, step: Step)
    requires CountInv(s) && ChainInv(s) && Enabled(s, step) && step.Login?
    ensures ChainInv(Do(s, step))
  {
    UnknownHasNoLast(s.accepted, step.sid);
    hide LastFor;
    assert forall x | x in s.rows :: Remembers(s, x);
  }

  lemma StepKeepsChain(s: State, step: Step)
    requires Inv(s) && ChainInv(s) && Enabled(s, step)
    ensures ChainInv(Do(s, step))
  {
    hide Do, ChainInv, SameHashes;
    match step
    case Login(_, _, _, _) =>
      LoginKeepsChain(s, step);
    case CommitRefresh(id) =>
      CommitKeepsChain(s, id);
    case BeginRefresh(_, _, _, _) =>
      BeginKeepsRows(s, step);
      QuietKeepsChain(s, Do(s, step));
    case _ =>
      QuietStepsKeepHashes(s, step);
      QuietKeepsChain(s, Do(s, step));
  }

  lemma {:induction false} RunsKeepChain(s: State, steps: seq<Step>)
    requires Inv(s) && ChainInv(s) && IsRun(s, steps)
    ensures ChainInv(After(s, steps))
    decreases |steps|
  {
    hide Inv, ChainInv, Do, Enabled;
    if steps != [] {
      StepKeepsChain(s, steps[0]);
      StepKeepsInv(s, steps[0]);
      RunsKeepChain(Do(s, steps[0]), steps[1..]);
    }
  }

  /**
    In every run each refresh of a session presents the token the refresh before it issued,
    and the row holds the last token issued and remembers the last one presented.
   */
  lemma RefreshesFormAChain(steps: seq<Step>, j: nat, sid: Sid)
    requires IsRun(INIT, steps)
    ensures var s := After(INIT, steps);
      && (j < |s.accepted| && LastFor(s.accepted[..j], s.accepted[j].sid).Some? ==>
            s.accepted[j].hash == LastFor(s.accepted[..j], s.accepted[j].sid).value.issued)
      && (sid in s.rows && s.rows[sid].rotations > 0 ==>
            var last := LastFor(s.accepted, sid);
            last.Some? && s.rows[sid].previous == Some(last.value.hash) && s.rows[sid].current == last.value.issued)
      && (sid in s.rows && s.rows[sid].rotations == 0 ==> s.rows[sid].previous.None?)
  {
    RunsKeepInv(INIT, steps);
    RunsKeepChain(INIT, steps);
    var s := After(INIT, steps);
    assert j < |s.accepted| ==> Linked(s.accepted, j);
    if sid in s.rows {
      assert Remembers(s, sid);
      CountedIffLast(s.accepted, sid);
    }
  }

  lemma {:induction false} CountedIffLast(accepted: seq<Accepted>, sid: Sid)
    ensures CountFor(accepted, sid) > 0 <==> LastFor(accepted, sid).Some?
  {
    if accepted != [] {
      CountedIffLast(accepted[..|accepted| - 1], sid);
    }
  }

  // ---- Logout and reset links ----

  /** A logout ends its session: nothing afterwards refreshes it. */
  lemma LogoutEndsTheSession(before: seq<Step>, sid: Sid, now: Time, after: seq<Step>)
    requires IsRun(INIT, before) && sid in After(INIT, before).rows
    requires var s := After(INIT, before); Enabled(s, Logout(sid, now)) && IsRun(Do(s, Logout(sid, now)), after)
    ensures var s := After(INIT, before);
            var s' := Do(s, Logout(sid, now));
            && CountFor(After(s', after).accepted, sid) == CountFor(s.accepted, sid)
            && Settled(After(s', after).rows, sid)
            && forall x | x in s.rows && x != sid :: x in s'.rows && s'.rows[x] == s.rows[x]
  {
    RunsKeepInv(INIT, before);
    var s := After(INIT, before);
    assert s.rows.Keys <= s.ids;
    hide Inv;
    StepKeepsInv(s, Logout(sid, now));
    ClosedForGood(Do(s, Logout(sid, now)), after, sid);
  }

  ghost predicate OneLive(tokens: map<Hash, ResetToken>) {
    forall a, b | a in tokens && b in tokens && a != b && tokens[a].user == tokens[b].user ::
      tokens[a].used || tokens[b].used
  }

  /** A reset link is only ever used up, and a new one uses up all the user had. */
  lemma StepKeepsOneLive(s: State, step: Step)
    requires OneLive(s.tokens) && Enabled(s, step)
    ensures OneLive(Do(s, step).tokens)
  {
    hide Picks, Active, Sweepable, RevokeAll, Presents, Rotated, Revoked;
  }

  lemma {:induction false} RunsKeepOneLive(s: State, steps: seq<Step>)
    requires OneLive(s.tokens) && IsRun(s, steps)
    ensures OneLive(After(s, steps).tokens)
    decreases |steps|
  {
    hide OneLive, Do, Enabled;
    if steps != [] {
      StepKeepsOneLive(s, steps[0]);
      RunsKeepOneLive(Do(s, steps[0]), steps[1..]);
    }
  }

  /** In every run a user has at most one reset link that still works. */
  lemma AtMostOneLiveResetLink(steps: seq<Step>, a: Hash, b: Hash)
    requires IsRun(INIT, steps)
    requires var tokens := After(INIT, steps).tokens;
             a in tokens && b in tokens && tokens[a].user == tokens[b].user && !tokens[a].used && !tokens[b].used
    ensures a == b
  {
    RunsKeepOneLive(INIT, steps);
  }

  /** A link is honoured iff it was sent, has not been used, and has not expired; otherwise the reset ends there. */
  lemma LinkIsHonouredIffLive(s: State, id: TxId, now: Time)
    requires Enabled(s, Claim(id, now))
    ensures var s', token := Do(s, Claim(id, now)), s.txs[id].token;
      && s'.rows == s.rows && s'.tokens == s.tokens
      && (id in s'.txs <==> token in s.tokens && !s.tokens[token].used && now < s.tokens[token].expires)
      && (id in s'.txs ==> ResetAt(s', id, AtScan) && token in s'.tokenLocks && s'.tokenLocks[token] == id)
  {
  }

  /** Under its row lock a refresh that has passed its checks always rotates: the WHERE of the UPDATE never misses. */
  lemma RotationIsNeverLost(steps: seq<Step>, id: TxId)
    requires IsRun(INIT, steps) && Enabled(After(INIT, steps), Rotate(id))
    ensures RefreshAt(Do(After(INIT, steps), Rotate(id)), id) && Do(After(INIT, steps), Rotate(id)).txs[id].pc == AtCommit
  {
    RunsKeepInv(INIT, steps);
    assert RefreshLocks(After(INIT, steps), id);
  }

  // ---- Whose sessions ----

  /** No step gives a session to somebody else, and only a login makes one. */
  lemma OwnersNeverChange(s: State, step: Step, sid: Sid)
    requires Enabled(s, step) && sid in Do(s, step).rows
    requires step.CommitRefresh? ==> s.txs[step.id].sid in s.rows
    ensures sid !in s.rows ==>
              step.Login? && sid == step.sid
              && Do(s, step).rows[sid] == Session(step.user, step.hash, None, 0, step.expires, None)
    ensures sid in s.rows && !(step.Login? && sid == step.sid) ==> Do(s, step).rows[sid].user == s.rows[sid].user
  {
    hide Picks, Active, Sweepable, Presents;
  }

  lemma LinksKeepTheirUser(s: State, step: Step, token: Hash)
    requires Enabled(s, step) && token in s.tokens
    ensures token in Do(s, step).tokens && Do(s, step).tokens[token].user == s.tokens[token].user
  {
    hide Picks, Active, Sweepable, Presents, RevokeAll, Rotated, Revoked;
  }

  /** What a reset works on are sessions of the user its link was sent to. */
  ghost predicate WorksForItsUser(s: State, id: TxId) {
    && (id in s.txs && s.txs[id].Reset? && s.txs[id].rpc != AtMark ==> s.txs[id].marked == {})
    && (ResetAt(s, id, AtMark) ==>
          && s.txs[id].token in s.tokens
          && s.txs[id].marked <= s.txs[id].seen && s.txs[id].todo <= s.txs[id].seen && s.txs[id].seen <= s.ids
          && forall sid | sid in s.txs[id].seen && sid in s.rows :: s.rows[sid].user == s.tokens[s.txs[id].token].user)
  }

  lemma OwnStepKeepsWorking(s: State, step: Step)
    requires Enabled(s, step) && ResetStep(step) && WorksForItsUser(s, step.id)
    requires s.rows.Keys <= s.ids
    ensures WorksForItsUser(Do(s, step), step.id)
  {
    hide Picks, Active, Sweepable, Presents, Rotated, Revoked;
  }

  lemma OtherStepKeepsWorking(s: State, step: Step, id: TxId)
    requires Inv(s) && Enabled(s, step) && WorksForItsUser(s, id) && Actor(step) != Some(id)
    ensures WorksForItsUser(Do(s, step), id)
  {
    StepRespects(s, step);
    OnlyTheActorChanges(s, step);
    hide Inv, HashInv, CountInv, LockInv, ClosedInv, Respects;
    var s' := Do(s, step);
    if ResetAt(s', id, AtMark) {
      assert id in s.txs && s'.txs[id] == s.txs[id];
      LinksKeepTheirUser(s, step, s.txs[id].token);
      forall sid | sid in s'.txs[id].seen && sid in s'.rows
        ensures s'.rows[sid].user == s'.tokens[s'.txs[id].token].user
      {
        assert sid in s.rows;
        NoLoginReuses(s, step, sid);
        OwnersNeverChange(s, step, sid);
      }
    }
  }

  lemma NoLoginReuses(s: State, step: Step, sid: Sid)
    requires Enabled(s, step) && sid in s.ids
    ensures step.Login? ==> step.sid != sid
    ensures step.CommitRefresh? ==> s.txs[step.id].sid in s.rows
  {
  }

  lemma {:induction false} RunsKeepWorking(s: State, steps: seq<Step>, id: TxId)
    requires Inv(s) && IsRun(s, steps) && WorksForItsUser(s, id)
    ensures WorksForItsUser(After(s, steps), id)
    decreases |steps|
  {
    if steps != [] {
      assert s.rows.Keys <= s.ids;
      hide Inv, WorksForItsUser, Do, Enabled;
      if Actor(steps[0]) == Some(id) {
        ActorKeepsWorking(s, steps[0]);
      } else {
        OtherStepKeepsWorking(s, steps[0], id);
      }
      StepKeepsInv(s, steps[0]);
      RunsKeepWorking(Do(s, steps[0]), steps[1..], id);
    }
  }

  lemma ActorKeepsWorking(s: State, step: Step)
    requires Enabled(s, step) && !Single(step) && WorksForItsUser(s, step.id) && s.rows.Keys <= s.ids
    ensures WorksForItsUser(Do(s, step), step.id)
  {
    if ResetStep(step) {
      OwnStepKeepsWorking(s, step);
    } else {
      NoLongerResetting(s, step);
    }
  }

  lemma NoLongerResetting(s: State, step: Step)
    requires Enabled(s, step) && !Single(step) && !ResetStep(step)
    ensures step.id in Do(s, step).txs ==> Do(s, step).txs[step.id].Refresh?
  {
    hide Picks, Active, Sweepable, Presents, Rotated, Revoked;
  }

  /** A reset signs out its own user and nobody else: every other user's rows come through untouched. */
  lemma ResetTouchesNobodyElse(steps: seq<Step>, id: TxId, now: Time, sid: Sid)
    requires IsRun(INIT, steps) && Enabled(After(INIT, steps), CommitReset(id, now))
    requires var s := After(INIT, steps);
             sid in s.rows && s.rows[sid].user != s.tokens[s.txs[id].token].user
    ensures var s := After(INIT, steps);
            var s' := Do(s, CommitReset(id, now));
            sid in s'.rows && s'.rows[sid] == s.rows[sid]
  {
    RunsKeepWorking(INIT, steps, id);
  }

  /** Sending a link uses up the user's others and nobody else's; the new one works until it expires. */
  lemma NewLinkReplaces(s: State, token: Hash, user: UserId, expires: Time, other: Hash)
    requires Enabled(s, RequestReset(token, user, expires)) && other in s.tokens
    ensures var s' := Do(s, RequestReset(token, user, expires));
      && token in s'.tokens && s'.tokens[token] == ResetToken(user, expires, false) && s'.rows == s.rows
      && other in s'.tokens
      && s'.tokens[other] == s.tokens[other].(used := s.tokens[other].used || s.tokens[other].user == user)
  {
  }

  /** The sweep takes what it says, only what can no longer be refreshed or was revoked a week ago, and leaves the rest. */
  lemma SweepTakesTheDead(s: State, gone: set<Sid>, now: Time, sid: Sid)
    requires Enabled(s, Sweep(gone, now)) && sid in s.rows
    ensures var s' := Do(s, Sweep(gone, now));
      && (sid in s'.rows <==> sid !in gone) && (sid in s'.rows ==> s'.rows[sid] == s.rows[sid])
      && (sid !in s'.rows ==>
            s.rows[sid].expires < now || (s.rows[sid].revokedAt.Some? && s.rows[sid].revokedAt.value < now - 604800))
  {
  }
}
