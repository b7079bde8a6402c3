/**
  Swipe, Block and Unblock as concurrent READ COMMITTED transactions, one SQL statement
  a step.  Uncommitted writes live in the transaction and nobody else sees them; any
  transaction may abort between two statements.

  The state carries a history variable `log`: an entry is appended when a call takes its
  place in the serial order (a swipe: at its BlockDirections read) and is resolved in
  place when the call ends.  Entries never move.
 */
module SwipeProtocol {
  import opened Wrappers
  import opened MatchTables

  type TxId = nat

  /** `key` is the advisory-lock key of a canonical pair: any function, so hashes may collide. */
  datatype Config = Config(users: set<User>, key: Pair -> int)

  datatype Status = Open | Done(reply: Reply) | Dropped

  datatype Entry = Entry(op: Op, status: Status)

  /** The statement a swipe executes next. */
  datatype Pc =
    | AtLock | AtExists | AtBlocks | AtInsert
    | AtGetSwipe | AtFindMatch
    | AtHasLiked | AtInsertMatch | AtEnqueue
    | AtCommit

  datatype BlockPc = AtBlockExists | AtInsertBlock | AtEnqueueBlock | AtCommitBlock

  datatype Tx =
    | SwipeTx(op: Op, pc: Pc, slot: Option<nat>, writes: Writes, result: SwipeResult)
    | BlockTx(op: Op, bpc: BlockPc, slot: Option<nat>, created: bool)

  datatype State = State(db: Tables, locks: map<int, TxId>, txs: map<TxId, Tx>, log: seq<Entry>)

  const INIT := State(EMPTY, map[], map[], [])

  datatype Step =
    | BeginSwipe(id: TxId, viewer: User, target: User, action: Action, newId: MatchId)
    | BeginBlock(id: TxId, blocker: User, blocked: User)
    | Advance(id: TxId)
    | Abort(id: TxId)
    | Unblock(id: TxId, blocker: User, blocked: User)

  ghost predicate TxShape(tx: Tx) {
    match tx
    case SwipeTx(op, _, _, _, _) => op.SwipeOp? && op.viewer != op.target
    case BlockTx(op, _, _, _) => op.BlockOp? && op.blocker != op.blocked
  }

  /** A unique index makes an insert wait for another transaction's uncommitted row of the same key. */
  ghost predicate NoRivalSwipe(s: State, id: TxId, key: Pair) {
    forall j | j in s.txs && j != id && s.txs[j].SwipeTx? && s.txs[j].writes.swipe.Some? ::
      s.txs[j].writes.swipe.value.0 != key
  }

  ghost predicate NoRivalMatch(s: State, id: TxId, key: Pair) {
    forall j | j in s.txs && j != id && s.txs[j].SwipeTx? && s.txs[j].writes.match_.Some? ::
      s.txs[j].writes.match_.value.0 != key
  }

  ghost predicate NoRivalBlock(s: State, id: TxId, op: Op) {
    forall j | j in s.txs && j != id && s.txs[j].BlockTx? && s.txs[j].created :: s.txs[j].op != op
  }

  ghost predicate Enabled(c: Config, s: State, step: Step) {
    match step
    case BeginSwipe(id, v, w, _, _) => id !in s.txs && v != w
    case BeginBlock(id, a, b) => id !in s.txs && a != b
    case Abort(id) => id in s.txs
    case Unblock(id, _, _) => id !in s.txs
    case Advance(id) =>
      && id in s.txs
      && TxShape(s.txs[id])
      && match s.txs[id] {
           case SwipeTx(op, AtLock, _, _, _) => c.key(PairOf(op)) !in s.locks
           case SwipeTx(op, AtInsert, _, _, _) => NoRivalSwipe(s, id, (op.viewer, op.target))
           case SwipeTx(op, AtInsertMatch, _, _, _) => NoRivalMatch(s, id, PairOf(op))
           case SwipeTx(_, _, _, _, _) => true
           case BlockTx(op, AtInsertBlock, _, _) => NoRivalBlock(s, id, op)
           case BlockTx(_, _, _, _) => true
         }
  }

  /** Ends a transaction: the row is gone and every lock it held is released. */
  function End(s: State, id: TxId): State {
    s.(txs := s.txs - {id}, locks := map k | k in s.locks && s.locks[k] != id :: s.locks[k])
  }

  function Resolve(s: State, slot: Option<nat>, status: Status): State {
    if slot.Some? && slot.value < |s.log|
    then s.(log := s.log[slot.value := s.log[slot.value].(status := status)])
    else s
  }

  function Record(s: State, op: Op, status: Status): State {
    s.(log := s.log + [Entry(op, status)])
  }

  function Next(s: State, id: TxId, tx: Tx): State {
    s.(txs := s.txs[id := tx])
  }

  function AdvanceSwipe(c: Config, s: State, id: TxId): State
    requires id in s.txs && s.txs[id].SwipeTx? && s.txs[id].op.SwipeOp?
  {
    var tx := s.txs[id];
    var op := tx.op;
    var here := (op.viewer, op.target);
    var pair := PairOf(op);
    match tx.pc
    case AtLock =>
      Next(s, id, tx.(pc := AtExists)).(locks := s.locks[c.key(pair) := id])
    case AtExists =>
      if op.target !in c.users then End(Record(s, op, Done(NotFound)), id)
      else Next(s, id, tx.(pc := AtBlocks))
    case AtBlocks =>
      if here in s.db.blocks then End(Record(s, op, Done(BlockedByYou)), id)
      else if (op.target, op.viewer) in s.db.blocks then End(Record(s, op, Done(NotFound)), id)
      else Record(Next(s, id, tx.(pc := AtInsert, slot := Some(|s.log|))), op, Open)
    case AtInsert =>
      if here in s.db.swipes then
        Next(s, id, tx.(pc := AtGetSwipe))
      else if op.viewer !in c.users then
        End(Resolve(s, tx.slot, Done(NotFound)), id)
      else
        Next(s, id, tx.(writes := tx.writes.(swipe := Some((here, op.action))),
                        pc := if op.action == Like then AtHasLiked else AtCommit))
    case AtGetSwipe =>
      if here in s.db.swipes then
        Next(s, id, tx.(pc := AtFindMatch, result := tx.result.(duplicate := true, action := s.db.swipes[here])))
      else
        End(Resolve(s, tx.slot, Dropped), id)
    case AtFindMatch =>
      Next(s, id, tx.(pc := AtCommit,
                      result := if pair in s.db.matches
                                then tx.result.(matched := true, matchId := Some(s.db.matches[pair]))
                                else tx.result))
    case AtHasLiked =>
      Next(s, id, tx.(pc := if Liked(s.db, op.target, op.viewer) then AtInsertMatch else AtCommit))
    case AtInsertMatch =>
      if pair in s.db.matches then
        Next(s, id, tx.(pc := AtCommit,
                        result := tx.result.(matched := true, matchId := Some(s.db.matches[pair]))))
      else
        Next(s, id, tx.(pc := AtEnqueue, writes := tx.writes.(match_ := Some((pair, op.newId))),
                        result := tx.result.(matched := true, matchId := Some(op.newId))))
    case AtEnqueue =>
      Next(s, id, tx.(pc := AtCommit,
                      writes := tx.writes.(event := Some(MatchCreated(op.newId, pair.0, pair.1)))))
    case AtCommit =>
      End(Resolve(s.(db := Apply(s.db, tx.writes)), tx.slot, Done(Swiped(tx.result))), id)
  }

  function AdvanceBlock(c: Config, s: State, id: TxId): State
    requires id in s.txs && s.txs[id].BlockTx? && s.txs[id].op.BlockOp?
  {
    var tx := s.txs[id];
    var op := tx.op;
    var row := (op.blocker, op.blocked);
    match tx.bpc
    case AtBlockExists =>
      if op.blocked !in c.users then End(Record(s, op, Done(NotFound)), id)
      else Next(s, id, tx.(bpc := AtInsertBlock))
    case AtInsertBlock =>
      if row in s.db.blocks then
        Record(Next(s, id, tx.(bpc := AtCommitBlock, slot := Some(|s.log|))), op, Open)
      else if op.blocker !in c.users then
        End(Record(s, op, Done(Failed)), id)
      else
        Next(s, id, tx.(bpc := AtEnqueueBlock, created := true))
    case AtEnqueueBlock =>
      Next(s, id, tx.(bpc := AtCommitBlock))
    case AtCommitBlock =>
      if tx.created then
        var db := s.db.(blocks := s.db.blocks + {row},
                        outbox := s.db.outbox + multiset{UserBlocked(op.blocker, op.blocked)});
        End(Record(s.(db := db), op, Done(BlockStored(true))), id)
      else
        End(Resolve(s, tx.slot, Done(BlockStored(false))), id)
  }

  function Do(c: Config, s: State, step: Step): State
    requires Enabled(c, s, step)
  {
    match step
    case BeginSwipe(id, v, w, action, newId) =>
      Next(s, id, SwipeTx(SwipeOp(v, w, action, newId), AtLock, None, NO_WRITES,
                          SwipeResult(action, false, None, false)))
    case BeginBlock(id, a, b) =>
      Next(s, id, BlockTx(BlockOp(a, b), AtBlockExists, None, false))
    case Advance(id) =>
      if s.txs[id].SwipeTx? then AdvanceSwipe(c, s, id) else AdvanceBlock(c, s, id)
    case Abort(id) =>
      End(Resolve(s, s.txs[id].slot, Dropped), id)
    case Unblock(_, a, b) =>
      Record(s.(db := s.db.(blocks := s.db.blocks - {(a, b)})), UnblockOp(a, b), Done(BlockRemoved))
  }

  /** `steps` is a run of the system from `s`. */
  ghost predicate IsRun(c: Config, s: State, steps: seq<Step>)
    decreases |steps|
  {
    steps != [] ==> Enabled(c, s, steps[0]) && IsRun(c, Do(c, s, steps[0]), steps[1..])
  }

  ghost function After(c: Config, s: State, steps: seq<Step>): State
    requires IsRun(c, s, steps)
    decreases |steps|
  {
    if steps == [] then s else After(c, Do(c, s, steps[0]), steps[1..])
  }

  /** The serial run: the resolved calls of the log, one after the other. */
  ghost function Replay(users: set<User>, log: seq<Entry>): Tables {
    if log == [] then EMPTY
    else
      var last := log[|log| - 1];
      var t := Replay(users, log[..|log| - 1]);
      if last.status.Done? then Serial(users, t, last.op).0 else t
  }

  /** The tables just before entry k of the serial run. */
  ghost function At(users: set<User>, log: seq<Entry>, k: nat): Tables
    requires k <= |log|
  {
    Replay(users, log[..k])
  }

  /** Every answer given is the answer of the serial run. */
  ghost predicate RepliesMatch(users: set<User>, log: seq<Entry>) {
    forall i | 0 <= i < |log| && log[i].status.Done? ::
      log[i].status.reply == Serial(users, At(users, log, i), log[i].op).1
  }
}
