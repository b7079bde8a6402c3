/**
  auth/repo.go and the session half of auth/service.go as they run: one table updated in
  place, one method a statement.
 */
module SessionStore {
  import opened Wrappers
  import opened SessionRows
  import opened SessionProtocol

  datatype Reply =
    | Issued(sid: Sid, token: Hash)
    | TokenInvalid
    | TokenReused

  /** The unique index uq_auth_sessions_token. */
  ghost predicate UniqueTokens(rows: map<Sid, Session>) {
    forall a, b | a in rows && b in rows && a != b :: rows[a].current != rows[b].current
  }

  /** The token is the session's current one and the session is live. */
  predicate Usable(rows: map<Sid, Session>, sid: Sid, h: Hash, now: Time) {
    sid in rows && rows[sid].current == h && rows[sid].revokedAt.None? && now < rows[sid].expires
  }

  /** The token is the one the session's last rotation retired. */
  predicate Retired(rows: map<Sid, Session>, sid: Sid, h: Hash) {
    sid in rows && rows[sid].previous == Some(h)
  }

  /**
    What one refresh may come to.  Issued: h was the live token of the session, which now
    has the new one and remembers h.  Reused: h is nobody's current token but was retired by
    a session's last rotation, and that session is revoked unless the database fails.
    Invalid: anything else, and nothing changes.
   */
  ghost predicate Refreshed(
      before: map<Sid, Session>, after: map<Sid, Session>,
      h: Hash, newHash: Hash, newExpiry: Time, now: Time, userExists: bool, revokeFails: bool, reply: Reply)
  {
    match reply
    case Issued(sid, token) =>
      && userExists && token == newHash && Usable(before, sid, h, now)
      && after == before[sid := Session(before[sid].user, newHash, Some(h), before[sid].rotations + 1, newExpiry, None)]
    case TokenReused =>
      && (forall x | x in before :: before[x].current != h)
      && exists sid :: Retired(before, sid, h) && after == if revokeFails then before else RevokedAt(before, sid, now)
    case TokenInvalid =>
      && after == before
      && !(userExists && exists sid :: Usable(before, sid, h, now))
      && !((forall x | x in before :: before[x].current != h) && exists sid :: Retired(before, sid, h))
  }

  /** The table with one session revoked; an earlier revocation keeps its time. */
  function RevokedAt(rows: map<Sid, Session>, sid: Sid, now: Time): map<Sid, Session>
    requires sid in rows
  {
    if rows[sid].revokedAt.Some? then rows else rows[sid := rows[sid].(revokedAt := Some(now))]
  }

  class Store {
    var rows: map<Sid, Session>

    constructor ()
      ensures rows == map[]
    {
      rows := map[];
    }

    method CreateSession(sid: Sid, user: UserId, h: Hash, expires: Time)
      requires sid !in rows
      modifies this
      ensures rows == old(rows)[sid := Session(user, h, None, 0, expires, None)]
    {
      rows := rows[sid := Session(user, h, None, 0, expires, None)];
    }

    /** ORDER BY (refresh_token_hash = $1) DESC LIMIT 1. */
    method FindSessionByToken(h: Hash) returns (found: Option<Sid>, isCurrent: bool)
      ensures Picks(rows, h, found)
      ensures found.None? <==> forall sid | sid in rows :: rows[sid].current != h && rows[sid].previous != Some(h)
      ensures found.Some? && !isCurrent ==>
                && found.value in rows && rows[found.value].previous == Some(h)
                && forall sid | sid in rows :: rows[sid].current != h
      ensures isCurrent <==> found.Some? && rows[found.value].current == h
    {
      if sid :| sid in rows && rows[sid].current == h {
        return Some(sid), true;
      } else if sid :| sid in rows && rows[sid].previous == Some(h) {
        return Some(sid), false;
      }
      return None, false;
    }

    method RotateSession(sid: Sid, expected: Hash, newHash: Hash, expires: Time) returns (ok: bool)
      modifies this
      ensures ok <==> sid in old(rows) && old(rows)[sid].current == expected && old(rows)[sid].revokedAt.None?
      ensures ok ==> rows == old(rows)[sid := Session(old(rows)[sid].user, newHash, Some(expected),
                                                      old(rows)[sid].rotations + 1, expires, None)]
      ensures !ok ==> rows == old(rows)
    {
      ok := sid in rows && rows[sid].current == expected && rows[sid].revokedAt.None?;
      if ok {
        rows := rows[sid := Rotated(rows[sid], newHash, expires)];
      }
    }

    method RevokeSession(sid: Sid, now: Time) returns (changed: bool)
      modifies this
      ensures changed <==> sid in old(rows) && old(rows)[sid].revokedAt.None?
      ensures rows == if changed then old(rows)[sid := old(rows)[sid].(revokedAt := Some(now))] else old(rows)
    {
      changed := sid in rows && rows[sid].revokedAt.None?;
      if changed {
        rows := rows[sid := Revoked(rows[sid], now)];
      }
    }

    /** Every live session of the user, except at most one. */
    method RevokeUserSessions(user: UserId, now: Time, except: Option<Sid>)
      modifies this
      ensures rows.Keys == old(rows).Keys
      ensures forall sid | sid in rows ::
                rows[sid] == if old(rows)[sid].user == user && Some(sid) != except && old(rows)[sid].revokedAt.None?
                             then old(rows)[sid].(revokedAt := Some(now)) else old(rows)[sid]
    {
      rows := map sid | sid in rows ::
        if rows[sid].user == user && Some(sid) != except then Revoked(rows[sid], now) else rows[sid];
    }

    /** Sessions past their expiry go, and those revoked more than a week ago. */
    method DeleteExpiredSessions(now: Time)
      modifies this
      ensures forall sid :: sid in rows <==>
                sid in old(rows) && now <= old(rows)[sid].expires
                && (old(rows)[sid].revokedAt.Some? ==> now - 604800 <= old(rows)[sid].revokedAt.value)
      ensures forall sid | sid in rows :: rows[sid] == old(rows)[sid]
    {
      rows := map sid | sid in rows && !Sweepable(rows[sid], now) :: rows[sid];
    }

    /**
      Refresh, when nothing overlaps it.  The revoke of a replayed session comes after the
      rollback; `revokeFails` is the database error that leaves the live token usable.
     */
    method Refresh(h: Hash, newHash: Hash, newExpiry: Time, now: Time, userExists: bool, revokeFails: bool)
      returns (reply: Reply)
      requires UniqueTokens(rows)
      modifies this
      ensures Refreshed(old(rows), rows, h, newHash, newExpiry, now, userExists, revokeFails, reply)
    {
      var rows0 := rows;
      var found, isCurrent := FindSessionByToken(h);
      if found.None? {
        return TokenInvalid;
      }
      var sid := found.value;
      if !isCurrent {
        assert Retired(old(rows), sid, h);
        if !revokeFails {
          var _ := RevokeSession(sid, now);
          assert rows == RevokedAt(old(rows), sid, now);
        }
        return TokenReused;
      }
      if !Active(rows[sid], now) {
        return TokenInvalid;
      }
      assert Usable(old(rows), sid, h, now);
      var ok := RotateSession(sid, h, newHash, newExpiry);
      if !ok || !userExists {
        rows := rows0;
        return TokenInvalid;
      }
      return Issued(sid, newHash);
    }
  }

  // ---- One call after the other ----

  /** What SessionTheorems.RowsTellTheTruth says of every reachable table. */
  ghost predicate HashesDisjoint(rows: map<Sid, Session>) {
    && (forall a | a in rows :: Some(rows[a].current) != rows[a].previous)
    && forall a, b | a in rows && b in rows && a != b ::
         && rows[a].current != rows[b].current
         && Some(rows[a].current) != rows[b].previous
         && (rows[a].previous.Some? ==> rows[a].previous != rows[b].previous)
  }

  ghost predicate Unknown(rows: map<Sid, Session>, h: Hash) {
    forall sid | sid in rows :: rows[sid].current != h && rows[sid].previous != Some(h)
  }

  lemma RefreshKeepsHashesDisjoint(
      before: map<Sid, Session>, after: map<Sid, Session>,
      h: Hash, newHash: Hash, newExpiry: Time, now: Time, userExists: bool, revokeFails: bool, reply: Reply)
    requires HashesDisjoint(before) && Unknown(before, newHash)
    requires Refreshed(before, after, h, newHash, newExpiry, now, userExists, revokeFails, reply)
    ensures HashesDisjoint(after)
  {
  }

  /**
    The same token presented twice: the second time it is known for a replay, whatever is
    asked for, and the session it belonged to is revoked; the token issued in between, in
    whosever hands it is, is worth nothing from then on.
   */
  lemma ReplayIsCaught(
      r0: map<Sid, Session>, r1: map<Sid, Session>, r2: map<Sid, Session>, r3: map<Sid, Session>, h: Hash,
      h1: Hash, e1: Time, t1: Time, first: Reply,
      h2: Hash, e2: Time, t2: Time, exists2: bool, second: Reply,
      h3: Hash, e3: Time, t3: Time, exists3: bool, fails3: bool, third: Reply)
    requires HashesDisjoint(r0) && Unknown(r0, h1)
    requires Refreshed(r0, r1, h, h1, e1, t1, true, false, first) && first.Issued?
    requires Refreshed(r1, r2, h, h2, e2, t2, exists2, false, second)
    requires Refreshed(r2, r3, h1, h3, e3, t3, exists3, fails3, third)
    ensures second == TokenReused
    ensures r2 == r1[first.sid := r1[first.sid].(revokedAt := Some(t2))]
    ensures third == TokenInvalid && r3 == r2
  {
    assert Retired(r1, first.sid, h);
    assert r2[first.sid].current == h1;
  }

  // ---- The same calls in the interleaving model ----

  lemma Prepend(s: State, step: Step, rest: seq<Step>)
    requires Enabled(s, step) && IsRun(Do(s, step), rest)
    ensures IsRun(s, [step] + rest) && After(s, [step] + rest) == After(Do(s, step), rest)
  {
    assert ([step] + rest)[1..] == rest;
  }

  /** A refresh transaction holding its row lock, about to look at the row. */
  ghost predicate Holding(s: State, id: TxId, tx: Tx)
  {
    id in s.txs && s.txs[id] == tx && tx.Refresh? && tx.pc.AtCheck? && tx.sid in s.rows && tx.sid in s.locks && s.locks[tx.sid] == id
  }

  /** Reading and locking change no row. */
  lemma LockingAlone(s: State, id: TxId, h: Hash, newHash: Hash, newExpiry: Time, sid: Sid)
    requires id !in s.txs && newHash !in s.minted && sid !in s.locks && Picks(s.rows, h, Some(sid))
    ensures exists s' ::
              && Reaches(s, [BeginRefresh(id, h, newHash, newExpiry), Find(id, Some(sid)), Lock(id)], s')
              && s'.rows == s.rows
              && Holding(s', id, Refresh(h, newHash, newExpiry, AtCheck(s.rows[sid].current == h), sid))
  {
    var s1 := Do(s, BeginRefresh(id, h, newHash, newExpiry));
    var s2 := Do(s1, Find(id, Some(sid)));
    var s3 := Do(s2, Lock(id));
    Prepend(s2, Lock(id), []);
    Prepend(s1, Find(id, Some(sid)), [Lock(id)]);
    assert [Find(id, Some(sid))] + [Lock(id)] == [Find(id, Some(sid)), Lock(id)];
    Prepend(s, BeginRefresh(id, h, newHash, newExpiry), [Find(id, Some(sid)), Lock(id)]);
    assert [BeginRefresh(id, h, newHash, newExpiry)] + [Find(id, Some(sid)), Lock(id)]
        == [BeginRefresh(id, h, newHash, newExpiry), Find(id, Some(sid)), Lock(id)];
    assert Reaches(s, [BeginRefresh(id, h, newHash, newExpiry), Find(id, Some(sid)), Lock(id)], s3);
  }

  ghost predicate Reaches(s: State, steps: seq<Step>, s': State) {
    IsRun(s, steps) && After(s, steps) == s'
  }

  /** From there, a live current token is rotated and accepted, as Refresh does it. */
  lemma AcceptingAlone(s: State, id: TxId, tx: Tx, now: Time)
    requires Holding(s, id, tx) && tx.pc.isCurrent && Usable(s.rows, tx.sid, tx.presented, now)
    ensures exists s' ::
              && Reaches(s, [Check(id, now), Rotate(id), CommitRefresh(id)], s')
              && s'.rows == s.rows[tx.sid := Session(s.rows[tx.sid].user, tx.newHash, Some(tx.presented),
                                                     s.rows[tx.sid].rotations + 1, tx.newExpiry, None)]
              && s'.accepted == s.accepted + [Accepted(tx.presented, tx.sid, tx.newHash)]
  {
    var s1 := Do(s, Check(id, now));
    var s2 := Do(s1, Rotate(id));
    var s3 := Do(s2, CommitRefresh(id));
    Prepend(s2, CommitRefresh(id), []);
    Prepend(s1, Rotate(id), [CommitRefresh(id)]);
    assert [Rotate(id)] + [CommitRefresh(id)] == [Rotate(id), CommitRefresh(id)];
    Prepend(s, Check(id, now), [Rotate(id), CommitRefresh(id)]);
    assert [Check(id, now)] + [Rotate(id), CommitRefresh(id)] == [Check(id, now), Rotate(id), CommitRefresh(id)];
    assert Reaches(s, [Check(id, now), Rotate(id), CommitRefresh(id)], s3);
  }

  /** A current token of a session that is revoked or has expired gets nothing. */
  lemma RefusingAlone(s: State, id: TxId, tx: Tx, now: Time)
    requires Holding(s, id, tx) && tx.pc.isCurrent && !Usable(s.rows, tx.sid, tx.presented, now)
    requires s.rows[tx.sid].current == tx.presented
    ensures exists s' ::
              && Reaches(s, [Check(id, now)], s')
              && s'.rows == s.rows && s'.accepted == s.accepted && id !in s'.txs
  {
    var s1 := Do(s, Check(id, now));
    Prepend(s, Check(id, now), []);
    assert [Check(id, now)] + [] == [Check(id, now)];
    assert Reaches(s, [Check(id, now)], s1);
  }

  /** And a retired one gets its session revoked after the rollback, as Refresh does it. */
  lemma RevokingAlone(s: State, id: TxId, tx: Tx, now: Time)
    requires Holding(s, id, tx) && !tx.pc.isCurrent
    ensures exists s' ::
              && Reaches(s, [Check(id, now), RevokeReplayed(id, now)], s')
              && s'.rows == RevokedAt(s.rows, tx.sid, now)
              && s'.accepted == s.accepted
  {
    var s1 := Do(s, Check(id, now));
    var s2 := Do(s1, RevokeReplayed(id, now));
    Prepend(s1, RevokeReplayed(id, now), []);
    Prepend(s, Check(id, now), [RevokeReplayed(id, now)]);
    assert [Check(id, now)] + [RevokeReplayed(id, now)] == [Check(id, now), RevokeReplayed(id, now)];
    assert Reaches(s, [Check(id, now), RevokeReplayed(id, now)], s2);
  }
}
