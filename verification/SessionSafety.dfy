/**
  What every step of the session protocol keeps.
 */
module SessionSafety {
  import opened Wrappers
  import opened SessionRows
  import opened SessionProtocol

  // ---- Hashes: live hashes are disjoint and an accepted hash is never current again ----

  ghost predicate Was(accepted: seq<Accepted>, h: Hash) {
    exists i :: 0 <= i < |accepted| && accepted[i].hash == h
  }

  ghost predicate RowHashes(s: State, sid: Sid)
    requires sid in s.rows
  {
    var r := s.rows[sid];
    && sid in s.ids
    && r.current in s.minted
    && !Was(s.accepted, r.current)
    && (r.previous.Some? ==> r.previous.value in s.minted && Was(s.accepted, r.previous.value))
  }

  /** No hash appears in two rows, as current or as previous. */
  ghost predicate Disjoint(a: Session, b: Session) {
    a.current != b.current && !Presents(a, b.current) && (a.previous.Some? ==> a.previous != b.previous)
  }

  /** A hash waiting in a refresh is known to nobody. */
  ghost predicate Unissued(s: State, id: TxId)
    requires RefreshAt(s, id)
  {
    var h := s.txs[id].newHash;
    && h in s.minted
    && !Was(s.accepted, h)
    && (forall sid | sid in s.rows :: !Presents(s.rows[sid], h))
    && (forall j | j in s.txs && j != id && s.txs[j].Refresh? :: s.txs[j].newHash != h)
  }

  ghost predicate HashInv(s: State) {
    && (forall sid | sid in s.rows :: RowHashes(s, sid))
    && (forall a, b | a in s.rows && b in s.rows && a != b :: Disjoint(s.rows[a], s.rows[b]))
    && (forall id | RefreshAt(s, id) :: Unissued(s, id))
    && (forall i | 0 <= i < |s.accepted| :: s.accepted[i].hash in s.minted)
    && (forall i, j | 0 <= i < j < |s.accepted| :: s.accepted[i].hash != s.accepted[j].hash)
  }

  // ---- Counts: rotation_count is the number of committed rotations ----

  ghost predicate CountInv(s: State) {
    && (forall sid | sid in s.rows :: sid in s.ids && s.rows[sid].rotations == CountFor(s.accepted, sid))
    && (forall i | 0 <= i < |s.accepted| :: s.accepted[i].sid in s.ids)
  }

  // ---- Locks: what a transaction has read under a lock is still so ----

  ghost predicate RefreshLocks(s: State, id: TxId)
    requires RefreshAt(s, id)
  {
    var tx := s.txs[id];
    && (tx.pc != AtFind ==> tx.sid in s.ids)
    && (tx.pc.AtCheck? || tx.pc == AtRotate || tx.pc == AtCommit ==>
          && tx.sid in s.locks && s.locks[tx.sid] == id && tx.sid in s.rows)
    && (tx.pc == AtCheck(true) || tx.pc == AtRotate || tx.pc == AtCommit ==>
          s.rows[tx.sid].current == tx.presented)
    && (tx.pc == AtCheck(false) ==> s.rows[tx.sid].previous == Some(tx.presented))
    && (tx.pc == AtRotate || tx.pc == AtCommit ==> s.rows[tx.sid].revokedAt.None?)
  }

  ghost predicate ResetLocks(s: State, id: TxId)
    requires id in s.txs && s.txs[id].Reset?
  {
    var tx := s.txs[id];
    && (tx.rpc != AtClaim ==>
          && tx.token in s.tokenLocks && s.tokenLocks[tx.token] == id
          && tx.token in s.tokens && !s.tokens[tx.token].used)
    && tx.seen <= s.ids
    && (forall sid | sid in tx.marked :: sid in s.locks && s.locks[sid] == id && sid in s.rows)
    && (forall sid | sid in tx.seen :: Settled(s.rows, sid) || sid in tx.todo || sid in tx.marked)
  }

  /** The session can never be refreshed again. */
  predicate Settled(rows: map<Sid, Session>, sid: Sid) {
    sid in rows ==> rows[sid].revokedAt.Some?
  }

  ghost predicate LockInv(s: State) {
    && (forall id | RefreshAt(s, id) :: RefreshLocks(s, id))
    && (forall id | id in s.txs && s.txs[id].Reset? :: ResetLocks(s, id))
  }

  // ---- Closed sessions and redeemed tokens ----

  ghost predicate ClosedInv(s: State) {
    && s.rows.Keys <= s.ids
    && (forall sid | sid in s.closed :: sid in s.ids && Settled(s.rows, sid))
    && (forall i | 0 <= i < |s.redeemed| :: s.redeemed[i] in s.tokens && s.tokens[s.redeemed[i]].used)
    && (forall i, j | 0 <= i < j < |s.redeemed| :: s.redeemed[i] != s.redeemed[j])
  }

  ghost predicate Inv(s: State) {
    HashInv(s) && CountInv(s) && LockInv(s) && ClosedInv(s)
  }

  // ---- How rows evolve ----

  /** Apart from a login and a rotation, no step touches a hash, a count or an owner. */
  ghost predicate SameHashes(s: State, s': State) {
    && s'.accepted == s.accepted && s.ids == s'.ids
    && (forall sid | sid in s'.rows ::
          && sid in s.rows
          && s'.rows[sid].current == s.rows[sid].current
          && s'.rows[sid].previous == s.rows[sid].previous
          && s'.rows[sid].rotations == s.rows[sid].rotations)
  }

  /** No row comes back and no revocation is undone. */
  ghost predicate Monotone(s: State, s': State) {
    && s.ids <= s'.ids
    && (forall sid | sid in s'.rows && sid !in s.rows :: sid !in s.ids)
    && (forall sid | sid in s'.rows && sid in s.rows && s.rows[sid].revokedAt.Some? :: s'.rows[sid].revokedAt.Some?)
  }

  /** Locks of everybody but `actor`, and the rows under them, are left alone. */
  ghost predicate Respects(s: State, s': State, actor: Option<TxId>) {
    && (forall sid | sid in s.locks && Some(s.locks[sid]) != actor ::
          && sid in s'.locks && s'.locks[sid] == s.locks[sid]
          && (sid in s.rows ==> sid in s'.rows && s'.rows[sid] == s.rows[sid]))
    && (forall t | t in s.tokenLocks && Some(s.tokenLocks[t]) != actor ::
          && t in s'.tokenLocks && s'.tokenLocks[t] == s.tokenLocks[t]
          && (t in s.tokens && !s.tokens[t].used ==> t in s'.tokens && !s'.tokens[t].used))
  }

  function Actor(step: Step): Option<TxId> {
    if Single(step) then None else Some(step.id)
  }

  predicate Quiet(step: Step) {
    !step.Login? && !step.BeginRefresh? && !step.CommitRefresh?
  }

  ghost predicate NothingMinted(s: State, s': State) {
    && s'.minted == s.minted
    && (forall id | RefreshAt(s', id) :: RefreshAt(s, id) && s'.txs[id].newHash == s.txs[id].newHash)
  }

  lemma QuietSingles(s: State, step: Step)
    requires Single(step) && Quiet(step)
    ensures SameHashes(s, DoSingle(s, step)) && NothingMinted(s, DoSingle(s, step))
  {
  }

  lemma QuietRefreshes(s: State, step: Step)
    requires Enabled(s, step) && RefreshStep(step) && Quiet(step)
    ensures SameHashes(s, DoRefresh(s, step)) && NothingMinted(s, DoRefresh(s, step))
  {
    hide Picks, Active, Presents;
    if step.RevokeReplayed? {
      assert RefreshAt(s, step.id);
    } else {
      hide SameHashes;
      ReadingChangesNoHash(s, step);
    }
  }

  lemma ReadingChangesNoHash(s: State, step: Step)
    requires Enabled(s, step) && RefreshStep(step) && Quiet(step) && !step.RevokeReplayed?
    ensures SameHashes(s, DoRefresh(s, step))
  {
    hide Picks, Active, Presents;
  }

  lemma QuietResets(s: State, step: Step)
    requires Enabled(s, step) && ResetStep(step)
    ensures SameHashes(s, DoReset(s, step)) && NothingMinted(s, DoReset(s, step))
  {
  }

  lemma QuietStepsKeepHashes(s: State, step: Step)
    requires Enabled(s, step) && Quiet(step)
    ensures SameHashes(s, Do(s, step)) && NothingMinted(s, Do(s, step))
  {
    hide Enabled, DoSingle, DoRefresh, DoReset;
    if Single(step) {
      QuietSingles(s, step);
    } else if RefreshStep(step) {
      QuietRefreshes(s, step);
    } else if ResetStep(step) {
      QuietResets(s, step);
    }
  }

  lemma QuietKeepsHashInv(s: State, s': State)
    requires HashInv(s) && SameHashes(s, s') && NothingMinted(s, s')
    ensures HashInv(s')
  {
    forall id | RefreshAt(s', id)
      ensures Unissued(s', id)
    {
      assert Unissued(s, id);
    }
    forall sid | sid in s'.rows
      ensures RowHashes(s', sid)
    {
      assert RowHashes(s, sid);
    }
    forall a, b | a in s'.rows && b in s'.rows && a != b
      ensures Disjoint(s'.rows[a], s'.rows[b])
    {
      assert Disjoint(s.rows[a], s.rows[b]);
    }
  }

  lemma LoginKeepsHashInv(s: State, step: Step)
    requires HashInv(s) && CountInv(s) && Enabled(s, step) && step.Login?
    ensures HashInv(Do(s, step))
  {
    var s' := Do(s, step);
    forall id | RefreshAt(s', id)
      ensures Unissued(s', id)
    {
      assert Unissued(s, id);
    }
    forall sid | sid in s'.rows
      ensures RowHashes(s', sid)
    {
      assert sid in s.rows ==> RowHashes(s, sid);
    }
    forall a, b | a in s'.rows && b in s'.rows && a != b
      ensures Disjoint(s'.rows[a], s'.rows[b])
    {
      assert a in s.rows ==> RowHashes(s, a);
      assert b in s.rows ==> RowHashes(s, b);
      assert a in s.rows && b in s.rows ==> Disjoint(s.rows[a], s.rows[b]);
    }
  }

  lemma BeginKeepsHashInv(s: State, step: Step)
    requires HashInv(s) && Enabled(s, step) && step.BeginRefresh?
    ensures HashInv(Do(s, step))
  {
    var s' := Do(s, step);
    forall sid | sid in s'.rows
      ensures RowHashes(s', sid)
    {
      assert RowHashes(s, sid);
    }
    forall id | RefreshAt(s', id)
      ensures Unissued(s', id)
    {
      assert id != step.id ==> Unissued(s, id);
      assert forall j | j in s.txs && s.txs[j].Refresh? :: RefreshAt(s, j) && Unissued(s, j);
      assert forall sid | sid in s.rows :: RowHashes(s, sid);
    }
  }

  lemma WasAppend(accepted: seq<Accepted>, e: Accepted, h: Hash)
    ensures Was(accepted + [e], h) <==> Was(accepted, h) || h == e.hash
  {
    if Was(accepted, h) {
      var i :| 0 <= i < |accepted| && accepted[i].hash == h;
      assert (accepted + [e])[i].hash == h;
    }
    assert (accepted + [e])[|accepted|] == e;
  }

  /** A rotation retires the presented hash for good and installs one nobody has seen. */
  lemma CommitKeepsHashInv(s: State, id: TxId)
    requires HashInv(s) && LockInv(s) && Enabled(s, CommitRefresh(id))
    ensures HashInv(Do(s, CommitRefresh(id)))
  {
    var s' := Do(s, CommitRefresh(id));
    var tx := s.txs[id];
    assert RefreshLocks(s, id) && Unissued(s, id) && RowHashes(s, tx.sid);
    var e := Accepted(tx.presented, tx.sid, tx.newHash);
    forall h
      ensures Was(s'.accepted, h) <==> Was(s.accepted, h) || h == tx.presented
    {
      WasAppend(s.accepted, e, h);
    }
    forall sid | sid in s'.rows
      ensures RowHashes(s', sid)
    {
      assert RowHashes(s, sid);
      assert sid != tx.sid ==> Disjoint(s.rows[sid], s.rows[tx.sid]);
    }
    forall j | RefreshAt(s', j)
      ensures Unissued(s', j)
    {
      assert Unissued(s, j);
    }
    forall a, b | a in s'.rows && b in s'.rows && a != b
      ensures Disjoint(s'.rows[a], s'.rows[b])
    {
      assert Disjoint(s.rows[a], s.rows[b]) && Disjoint(s.rows[b], s.rows[a]);
    }
    assert forall i | 0 <= i < |s.accepted| :: Was(s.accepted, s.accepted[i].hash);
  }

  lemma StepKeepsHashInv(s: State, step: Step)
    requires Inv(s) && Enabled(s, step)
    ensures HashInv(Do(s, step))
  {
    hide Do;
    match step
    case Login(_, _, _, _) => LoginKeepsHashInv(s, step);
    case BeginRefresh(_, _, _, _) => BeginKeepsHashInv(s, step);
    case CommitRefresh(id) => CommitKeepsHashInv(s, id);
    case _ =>
      QuietStepsKeepHashes(s, step);
      QuietKeepsHashInv(s, Do(s, step));
  }

  lemma {:induction false} UnknownHasNoCount(accepted: seq<Accepted>, sid: Sid)
    requires forall i | 0 <= i < |accepted| :: accepted[i].sid != sid
    ensures CountFor(accepted, sid) == 0
  {
    if accepted != [] {
      UnknownHasNoCount(accepted[..|accepted| - 1], sid);
    }
  }

  lemma CountAppend(accepted: seq<Accepted>, e: Accepted, sid: Sid)
    ensures CountFor(accepted + [e], sid) == CountFor(accepted, sid) + if e.sid == sid then 1 else 0
  {
    assert (accepted + [e])[..|accepted|] == accepted;
  }

  lemma CommitKeepsCountInv(s: State, id: TxId)
    requires CountInv(s) && LockInv(s) && Enabled(s, CommitRefresh(id))
    ensures CountInv(Do(s, CommitRefresh(id)))
  {
    var s' := Do(s, CommitRefresh(id));
    var e := Accepted(s.txs[id].presented, s.txs[id].sid, s.txs[id].newHash);
    assert RefreshLocks(s, id);
    forall sid | sid in s'.rows
      ensures s'.rows[sid].rotations == CountFor(s'.accepted, sid)
    {
      CountAppend(s.accepted, e, sid);
    }
  }

  lemma StepKeepsCountInv(s: State, step: Step)
    requires Inv(s) && Enabled(s, step)
    ensures CountInv(Do(s, step))
  {
    hide HashInv, LockInv, ClosedInv, DoReset, DoRefresh;
    match step
    case Login(sid, _, _, _) =>
      UnknownHasNoCount(s.accepted, sid);
    case BeginRefresh(_, _, _, _) =>
      BeginKeepsRows(s, step);
    case CommitRefresh(id) =>
      CommitKeepsCountInv(s, id);
    case _ =>
      QuietStepsKeepHashes(s, step);
  }

  lemma BeginKeepsRows(s: State, step: Step)
    requires Enabled(s, step) && step.BeginRefresh?
    ensures SameHashes(s, Do(s, step)) && Do(s, step).rows == s.rows
  {
  }

  // ---- Lock discipline ----

  lemma SinglesRespect(s: State, step: Step)
    requires Inv(s) && Enabled(s, step) && Single(step)
    ensures Monotone(s, DoSingle(s, step)) && Respects(s, DoSingle(s, step), None)
  {
    hide HashInv, CountInv;
    if step.RequestReset? {
      forall t | t in s.tokenLocks && t in s.tokens && !s.tokens[t].used
        ensures s.tokens[t].user != step.user
      {
      }
    }
  }

  /** The refresh statements that write no row. */
  predicate Reading(step: Step) {
    RefreshStep(step) && !step.CommitRefresh? && !step.RevokeReplayed?
  }

  lemma ReadingWritesNothing(s: State, step: Step)
    requires Enabled(s, step) && Reading(step)
    ensures var s' := DoRefresh(s, step);
            && s'.rows == s.rows && s.ids == s'.ids && s'.tokens == s.tokens
            && s'.closed == s.closed && s'.redeemed == s.redeemed
  {
    hide Picks, Active, Presents;
  }

  lemma ReadingKeepsOtherLocks(s: State, step: Step)
    requires Enabled(s, step) && Reading(step)
    ensures var s' := DoRefresh(s, step);
            && (forall sid | sid in s.locks && s.locks[sid] != step.id ::
                  sid in s'.locks && s'.locks[sid] == s.locks[sid])
            && (forall t | t in s.tokenLocks && s.tokenLocks[t] != step.id ::
                  t in s'.tokenLocks && s'.tokenLocks[t] == s.tokenLocks[t])
  {
    hide Picks, Active, Presents;
  }

  lemma RefreshesRespect(s: State, step: Step)
    requires Inv(s) && Enabled(s, step) && RefreshStep(step)
    ensures Monotone(s, DoRefresh(s, step)) && Respects(s, DoRefresh(s, step), Some(step.id))
  {
    hide HashInv, CountInv, Picks, Active;
    if Reading(step) {
      hide DoRefresh;
      ReadingWritesNothing(s, step);
      ReadingKeepsOtherLocks(s, step);
    } else {
      assert RefreshLocks(s, step.id);
    }
  }

  lemma ResetsRespect(s: State, step: Step)
    requires Inv(s) && Enabled(s, step) && ResetStep(step)
    ensures Monotone(s, DoReset(s, step)) && Respects(s, DoReset(s, step), Some(step.id))
  {
    hide HashInv, CountInv;
    assert !step.BeginReset? ==> ResetLocks(s, step.id);
  }

  lemma StepRespects(s: State, step: Step)
    requires Inv(s) && Enabled(s, step)
    ensures Monotone(s, Do(s, step)) && Respects(s, Do(s, step), Actor(step))
  {
    hide Inv, Enabled, DoSingle, DoRefresh, DoReset;
    if Single(step) {
      SinglesRespect(s, step);
    } else if RefreshStep(step) {
      RefreshesRespect(s, step);
    } else if ResetStep(step) {
      ResetsRespect(s, step);
    }
  }

  lemma OthersKeepLocks(s: State, s': State, actor: Option<TxId>, j: TxId)
    requires LockInv(s) && Monotone(s, s') && Respects(s, s', actor)
    requires j in s.txs && j in s'.txs && s'.txs[j] == s.txs[j] && Some(j) != actor
    ensures s'.txs[j].Refresh? ==> RefreshLocks(s', j)
    ensures s'.txs[j].Reset? ==> ResetLocks(s', j)
  {
    if s.txs[j].Refresh? {
      assert RefreshLocks(s, j);
    } else {
      assert ResetLocks(s, j);
    }
  }

  /** The stepping transaction knows what it has just read. */
  lemma RefreshKeepsOwnLocks(s: State, step: Step)
    requires Inv(s) && Enabled(s, step) && RefreshStep(step) && step.id in DoRefresh(s, step).txs
    ensures RefreshAt(DoRefresh(s, step), step.id) && RefreshLocks(DoRefresh(s, step), step.id)
  {
    hide HashInv, CountInv;
    assert RefreshAt(s, step.id) ==> RefreshLocks(s, step.id);
  }

  lemma ResetKeepsOwnLocks(s: State, step: Step)
    requires Inv(s) && Enabled(s, step) && ResetStep(step) && step.id in DoReset(s, step).txs
    ensures DoReset(s, step).txs[step.id].Reset? && ResetLocks(DoReset(s, step), step.id)
  {
    hide HashInv, CountInv;
    assert !step.BeginReset? ==> ResetLocks(s, step.id);
  }

  lemma OnlyTheActorChanges(s: State, step: Step)
    requires Enabled(s, step)
    ensures forall j | j in Do(s, step).txs && Some(j) != Actor(step) ::
              j in s.txs && Do(s, step).txs[j] == s.txs[j]
  {
    hide Picks, Active, Sweepable, RevokeAll, Presents, Rotated, Revoked;
  }

  lemma StepKeepsLockInv(s: State, step: Step)
    requires Inv(s) && Enabled(s, step)
    ensures LockInv(Do(s, step))
  {
    var s' := Do(s, step);
    StepRespects(s, step);
    OnlyTheActorChanges(s, step);
    forall j | j in s'.txs
      ensures s'.txs[j].Refresh? ==> RefreshLocks(s', j)
      ensures s'.txs[j].Reset? ==> ResetLocks(s', j)
    {
      OwnOrOther(s, step, j);
    }
  }

  lemma OwnOrOther(s: State, step: Step, j: TxId)
    requires Inv(s) && Enabled(s, step) && j in Do(s, step).txs
    requires Monotone(s, Do(s, step)) && Respects(s, Do(s, step), Actor(step))
    requires Some(j) != Actor(step) ==> j in s.txs && Do(s, step).txs[j] == s.txs[j]
    ensures Do(s, step).txs[j].Refresh? ==> RefreshLocks(Do(s, step), j)
    ensures Do(s, step).txs[j].Reset? ==> ResetLocks(Do(s, step), j)
  {
    hide Enabled, DoSingle, DoRefresh, DoReset, HashInv, CountInv, Monotone, Respects, RefreshLocks, ResetLocks;
    if Some(j) != Actor(step) {
      OthersKeepLocks(s, Do(s, step), Actor(step), j);
    } else if RefreshStep(step) {
      RefreshKeepsOwnLocks(s, step);
    } else if ResetStep(step) {
      ResetKeepsOwnLocks(s, step);
    }
  }

  // ---- Closed sessions ----

  lemma SinglesKeepClosedInv(s: State, step: Step)
    requires Inv(s) && Enabled(s, step) && Single(step)
    ensures ClosedInv(DoSingle(s, step))
  {
    hide HashInv, CountInv, LockInv;
  }

  lemma RefreshesKeepClosedInv(s: State, step: Step)
    requires Inv(s) && Enabled(s, step) && RefreshStep(step)
    ensures ClosedInv(DoRefresh(s, step))
  {
    hide HashInv, CountInv, Picks, Active;
    if Reading(step) {
      hide DoRefresh;
      ReadingWritesNothing(s, step);
    } else {
      assert RefreshLocks(s, step.id);
    }
  }

  /** At its commit a reset has revoked, or seen revoked, every session its scan saw. */
  lemma ResetsKeepClosedInv(s: State, step: Step)
    requires Inv(s) && Enabled(s, step) && ResetStep(step)
    ensures ClosedInv(DoReset(s, step))
  {
    hide HashInv, CountInv;
    assert !step.BeginReset? ==> ResetLocks(s, step.id);
  }

  lemma StepKeepsClosedInv(s: State, step: Step)
    requires Inv(s) && Enabled(s, step)
    ensures ClosedInv(Do(s, step))
  {
    hide Enabled, DoSingle, DoRefresh, DoReset, HashInv, CountInv, LockInv;
    if Single(step) {
      SinglesKeepClosedInv(s, step);
    } else if RefreshStep(step) {
      RefreshesKeepClosedInv(s, step);
    } else if ResetStep(step) {
      ResetsKeepClosedInv(s, step);
    }
  }

  lemma StepKeepsInv(s: State, step: Step)
    requires Inv(s) && Enabled(s, step)
    ensures Inv(Do(s, step))
  {
    hide Enabled, Do, HashInv, CountInv, LockInv, ClosedInv;
    StepKeepsHashInv(s, step);
    StepKeepsCountInv(s, step);
    StepKeepsLockInv(s, step);
    StepKeepsClosedInv(s, step);
  }
}
