/**
  Login, refresh, logout, password reset and the sweep as concurrent transactions.
  A row lock is held from FOR UPDATE (or UPDATE) to the end of its transaction, and a
  statement that had to wait re-evaluates its WHERE clause on the row it then finds.
 */
module SessionProtocol {
  import opened Wrappers
  import opened SessionRows

  type TxId = nat

  datatype RefreshPc =
    | AtFind                     // SELECT .. FOR UPDATE has not read anything yet
    | AtWait                     // it picked a row and waits for its lock
    | AtCheck(isCurrent: bool)   // it holds the lock; is_current was evaluated under it
    | AtRotate
    | AtCommit
    | AtRevoke                   // replay seen, transaction rolled back, revoke still to come

  datatype ResetPc = AtClaim | AtScan | AtMark

  datatype Tx =
    | Refresh(presented: Hash, newHash: Hash, newExpiry: Time, pc: RefreshPc, sid: Sid)
    | Reset(token: Hash, rpc: ResetPc, seen: set<Sid>, todo: set<Sid>, marked: set<Sid>)

  datatype ResetToken = ResetToken(user: UserId, expires: Time, used: bool)

  /** A committed refresh: the hash presented, its session, and the hash issued for it. */
  datatype Accepted = Accepted(hash: Hash, sid: Sid, issued: Hash)

  /**
    `minted` and `ids` are all hashes and session ids ever generated, `accepted` lists the
    committed refreshes, `redeemed` the committed resets, and `closed` the sessions a
    completed revoke statement has covered.
   */
  datatype State = State(
    rows: map<Sid, Session>,
    locks: map<Sid, TxId>,
    tokens: map<Hash, ResetToken>,
    tokenLocks: map<Hash, TxId>,
    txs: map<TxId, Tx>,
    minted: set<Hash>,
    ids: set<Sid>,
    accepted: seq<Accepted>,
    redeemed: seq<Hash>,
    closed: set<Sid>)

  const INIT := State(map[], map[], map[], map[], map[], {}, {}, [], [], {})

  datatype Step =
    | Login(sid: Sid, user: UserId, hash: Hash, expires: Time)
    | BeginRefresh(id: TxId, presented: Hash, newHash: Hash, newExpiry: Time)
    | Find(id: TxId, choice: Option<Sid>)
    | Lock(id: TxId)
    | Check(id: TxId, now: Time)
    | Rotate(id: TxId)
    | CommitRefresh(id: TxId)
    | RevokeReplayed(id: TxId, now: Time)
    | RevokeFails(id: TxId)
    | Abort(id: TxId)
    | Logout(sid: Sid, now: Time)
    | RequestReset(token: Hash, user: UserId, expires: Time)
    | BeginReset(id: TxId, token: Hash)
    | Claim(id: TxId, now: Time)
    | Scan(id: TxId)
    | Mark(id: TxId, sid: Sid)
    | CommitReset(id: TxId, now: Time)
    | Sweep(gone: set<Sid>, now: Time)

  predicate RefreshAt(s: State, id: TxId) {
    id in s.txs && s.txs[id].Refresh?
  }

  predicate ResetAt(s: State, id: TxId, pc: ResetPc) {
    id in s.txs && s.txs[id].Reset? && s.txs[id].rpc == pc
  }

  /** FindSessionByToken: the row where the hash is current wins over one where it is previous. */
  ghost predicate Picks(rows: map<Sid, Session>, h: Hash, choice: Option<Sid>) {
    match choice
    case None => forall sid | sid in rows :: !Presents(rows[sid], h)
    case Some(sid) =>
      && sid in rows && Presents(rows[sid], h)
      && (rows[sid].current == h || forall x | x in rows :: rows[x].current != h)
  }

  ghost predicate Enabled(s: State, step: Step) {
    match step
    case Login(sid, _, h, _) => sid !in s.ids && h !in s.minted
    case BeginRefresh(id, _, newHash, _) => id !in s.txs && newHash !in s.minted
    case Find(id, choice) =>
      RefreshAt(s, id) && s.txs[id].pc == AtFind && Picks(s.rows, s.txs[id].presented, choice)
    case Lock(id) => RefreshAt(s, id) && s.txs[id].pc == AtWait && s.txs[id].sid !in s.locks
    case Check(id, _) => RefreshAt(s, id) && s.txs[id].pc.AtCheck? && s.txs[id].sid in s.rows
    case Rotate(id) => RefreshAt(s, id) && s.txs[id].pc == AtRotate
    case CommitRefresh(id) => RefreshAt(s, id) && s.txs[id].pc == AtCommit && s.txs[id].sid in s.rows
    case RevokeReplayed(id, _) => RefreshAt(s, id) && s.txs[id].pc == AtRevoke && s.txs[id].sid !in s.locks
    case RevokeFails(id) => RefreshAt(s, id) && s.txs[id].pc == AtRevoke
    case Abort(id) => id in s.txs && !(s.txs[id].Refresh? && s.txs[id].pc == AtRevoke)
    case Logout(sid, _) => sid !in s.locks
    case RequestReset(token, user, _) =>
      token !in s.tokens && forall t | t in s.tokens && s.tokens[t].user == user && !s.tokens[t].used :: t !in s.tokenLocks
    case BeginReset(id, _) => id !in s.txs
    case Claim(id, _) => ResetAt(s, id, AtClaim) && s.txs[id].token !in s.tokenLocks
    case Scan(id) => ResetAt(s, id, AtScan) && s.txs[id].token in s.tokens
    case Mark(id, sid) => ResetAt(s, id, AtMark) && sid in s.txs[id].todo && sid !in s.locks
    case CommitReset(id, _) => ResetAt(s, id, AtMark) && s.txs[id].todo == {} && s.txs[id].token in s.tokens
    case Sweep(gone, now) => forall sid | sid in gone :: sid in s.rows && sid !in s.locks && Sweepable(s.rows[sid], now)
  }

  /** Ends a transaction without effect: its row locks are released. */
  function Release(s: State, id: TxId): State {
    s.(txs := s.txs - {id},
       locks := map k | k in s.locks && s.locks[k] != id :: s.locks[k],
       tokenLocks := map k | k in s.tokenLocks && s.tokenLocks[k] != id :: s.tokenLocks[k])
  }

  function Next(s: State, id: TxId, tx: Tx): State {
    s.(txs := s.txs[id := tx])
  }

  /** RevokeSession: UPDATE .. WHERE id = $1 AND revoked_at IS NULL. */
  function RevokeRow(s: State, sid: Sid, now: Time): State {
    s.(rows := if sid in s.rows then s.rows[sid := Revoked(s.rows[sid], now)] else s.rows,
       closed := if sid in s.ids then s.closed + {sid} else s.closed)
  }

  /** Login, logout, a reset request and the sweep: single statements that commit at once. */
  predicate Single(step: Step) {
    step.Login? || step.Logout? || step.RequestReset? || step.Sweep?
  }

  predicate RefreshStep(step: Step) {
    step.BeginRefresh? || step.Find? || step.Lock? || step.Check? || step.Rotate? || step.CommitRefresh?
    || step.RevokeReplayed? || step.RevokeFails?
  }

  predicate ResetStep(step: Step) {
    step.BeginReset? || step.Claim? || step.Scan? || step.Mark? || step.CommitReset?
  }

  function DoSingle(s: State, step: Step): State
    requires Single(step)
  {
    match step
    case Login(sid, user, h, expires) =>
      s.(rows := s.rows[sid := Session(user, h, None, 0, expires, None)],
         minted := s.minted + {h}, ids := s.ids + {sid})
    case Logout(sid, now) => RevokeRow(s, sid, now)
    case RequestReset(token, user, expires) =>
      s.(tokens := (map t | t in s.tokens ::
                      if s.tokens[t].user == user then s.tokens[t].(used := true) else s.tokens[t])
                   [token := ResetToken(user, expires, false)])
    case Sweep(gone, now) => s.(rows := s.rows - gone)
  }

  function DoRefresh(s: State, step: Step): State
    requires RefreshStep(step) && Enabled(s, step)
  {
    match step
    case BeginRefresh(id, presented, newHash, newExpiry) =>
      Next(s, id, Refresh(presented, newHash, newExpiry, AtFind, 0)).(minted := s.minted + {newHash})
    case Find(id, choice) =>
      if choice.None? then Release(s, id)
      else Next(s, id, s.txs[id].(pc := AtWait, sid := choice.value))
    case Lock(id) =>
      var tx := s.txs[id];
      if tx.sid in s.rows && Presents(s.rows[tx.sid], tx.presented) then
        Next(s, id, tx.(pc := AtCheck(s.rows[tx.sid].current == tx.presented))).(locks := s.locks[tx.sid := id])
      else Release(s, id)
    case Check(id, now) =>
      var tx := s.txs[id];
      if !tx.pc.isCurrent then Next(Release(s, id), id, tx.(pc := AtRevoke))
      else if !Active(s.rows[tx.sid], now) then Release(s, id)
      else Next(s, id, tx.(pc := AtRotate))
    case Rotate(id) =>
      var tx := s.txs[id];
      if tx.sid in s.rows && s.rows[tx.sid].current == tx.presented && s.rows[tx.sid].revokedAt.None?
      then Next(s, id, tx.(pc := AtCommit))
      else Release(s, id)
    case CommitRefresh(id) =>
      var tx := s.txs[id];
      Release(s, id).(rows := s.rows[tx.sid := Rotated(s.rows[tx.sid], tx.newHash, tx.newExpiry)],
                      accepted := s.accepted + [Accepted(tx.presented, tx.sid, tx.newHash)])
    case RevokeReplayed(id, now) => RevokeRow(Release(s, id), s.txs[id].sid, now)
    case RevokeFails(id) => Release(s, id)
  }

  function DoReset(s: State, step: Step): State
    requires ResetStep(step) && Enabled(s, step)
  {
    match step
    case BeginReset(id, token) => Next(s, id, Reset(token, AtClaim, {}, {}, {}))
    case Claim(id, now) =>
      var tx := s.txs[id];
      if tx.token in s.tokens && !s.tokens[tx.token].used && now < s.tokens[tx.token].expires
      then Next(s, id, tx.(rpc := AtScan)).(tokenLocks := s.tokenLocks[tx.token := id])
      else Release(s, id)
    case Scan(id) =>
      var tx := s.txs[id];
      var seen := set sid | sid in s.rows && s.rows[sid].user == s.tokens[tx.token].user;
      Next(s, id, tx.(rpc := AtMark, seen := seen, todo := set sid | sid in seen && s.rows[sid].revokedAt.None?))
    case Mark(id, sid) =>
      var tx := s.txs[id];
      if sid in s.rows && s.rows[sid].revokedAt.None?
      then Next(s, id, tx.(todo := tx.todo - {sid}, marked := tx.marked + {sid})).(locks := s.locks[sid := id])
      else Next(s, id, tx.(todo := tx.todo - {sid}))
    case CommitReset(id, now) =>
      var tx := s.txs[id];
      Release(s, id).(rows := RevokeAll(s.rows, tx.marked, now),
                      tokens := s.tokens[tx.token := s.tokens[tx.token].(used := true)],
                      redeemed := s.redeemed + [tx.token],
                      closed := s.closed + tx.seen)
  }

  function RevokeAll(rows: map<Sid, Session>, marked: set<Sid>, now: Time): map<Sid, Session> {
    map sid | sid in rows :: if sid in marked then Revoked(rows[sid], now) else rows[sid]
  }

  function Do(s: State, step: Step): State
    requires Enabled(s, step)
  {
    if Single(step) then DoSingle(s, step)
    else if RefreshStep(step) then DoRefresh(s, step)
    else if ResetStep(step) then DoReset(s, step)
    else Release(s, step.id)
  }

  ghost predicate IsRun(s: State, steps: seq<Step>)
    decreases |steps|
  {
    steps != [] ==> Enabled(s, steps[0]) && IsRun(Do(s, steps[0]), steps[1..])
  }

  ghost function After(s: State, steps: seq<Step>): State
    requires IsRun(s, steps)
    decreases |steps|
  {
    if steps == [] then s else After(Do(s, steps[0]), steps[1..])
  }

  function CountFor(accepted: seq<Accepted>, sid: Sid): nat {
    if accepted == [] then 0
    else CountFor(accepted[..|accepted| - 1], sid) + if accepted[|accepted| - 1].sid == sid then 1 else 0
  }

  /** The last committed refresh of a session. */
  function LastFor(accepted: seq<Accepted>, sid: Sid): Option<Accepted> {
    if accepted == [] then None
    else if accepted[|accepted| - 1].sid == sid then Some(accepted[|accepted| - 1])
    else LastFor(accepted[..|accepted| - 1], sid)
  }
}
