/**
  The results about whole runs of the matching service.
 */
module SwipeTheorems {
  import opened Wrappers
  import opened MatchTables
  import opened SwipeProtocol
  import opened SwipeSerializable

  lemma {:induction false} RunsKeepInv(c: Config, s: State, steps: seq<Step>)
    requires Inv(c, s) && IsRun(c, s, steps)
    ensures Inv(c, After(c, s, steps))
    decreases |steps|
  {
    if steps != [] {
      StepKeepsInv(c, s, steps[0]);
      RunsKeepInv(c, Do(c, s, steps[0]), steps[1..]);
    }
  }

  /**
    Serializability: after any interleaving with aborts and lock-key collisions, the
    committed tables are those of the serial run of the log, and every answer given is
    the serial answer.
   */
  lemma EveryRunIsSerial(c: Config, steps: seq<Step>)
    requires IsRun(c, INIT, steps)
    ensures var s := After(c, INIT, steps);
            s.db == Replay(c.users, s.log) && RepliesMatch(c.users, s.log)
  {
    RunsKeepInv(c, INIT, steps);
  }

  lemma {:induction false} SerialRunsKeepMutualMatches(users: set<User>, log: seq<Entry>)
    requires forall i | 0 <= i < |log| :: WellFormed(log[i].op)
    ensures MutualMatches(Replay(users, log))
  {
    if log != [] {
      var n := |log| - 1;
      SerialRunsKeepMutualMatches(users, log[..n]);
      SerialKeepsMutualMatches(users, Replay(users, log[..n]), log[n].op);
    }
  }

  /** In every reachable state both likes are committed iff the match row is, and each row has its one event. */
  lemma MutualLikesIffMatched(c: Config, steps: seq<Step>)
    requires IsRun(c, INIT, steps)
    ensures MutualMatches(After(c, INIT, steps).db)
  {
    RunsKeepInv(c, INIT, steps);
    SerialRunsKeepMutualMatches(c.users, After(c, INIT, steps).log);
  }

  /** The serial order is only ever extended, and an entry once settled never changes. */
  lemma HistoryIsStable(c: Config, s: State, step: Step)
    requires Inv(c, s) && Enabled(c, s, step)
    ensures |s.log| <= |Do(c, s, step).log| <= |s.log| + 1
    ensures forall i | 0 <= i < |s.log| ::
              && Do(c, s, step).log[i].op == s.log[i].op
              && (s.log[i].status.Open? || Do(c, s, step).log[i] == s.log[i])
  {
    if step.id in s.txs {
      assert TxInv(c, s, step.id);
    }
  }

  /** A swipe takes its place in that order exactly when it reads the blocks, and keeps it. */
  lemma PlaceIsTheBlocksRead(c: Config, s: State, step: Step, id: TxId)
    requires Enabled(c, s, step)
    requires id in s.txs && id in Do(c, s, step).txs && s.txs[id].SwipeTx?
    requires s.txs[id].slot != Do(c, s, step).txs[id].slot
    ensures step == Advance(id) && s.txs[id].pc.AtBlocks?
    ensures Do(c, s, step).txs[id].slot == Some(|s.log|)
  {
    hide NoRivalSwipe, NoRivalMatch, NoRivalBlock, Apply;
  }

  /** A committing swipe settles its own entry with the answer it gives its caller. */
  lemma CommitSettlesItsPlace(c: Config, s: State, id: TxId)
    requires Inv(c, s) && Enabled(c, s, Advance(id)) && s.txs[id].SwipeTx? && s.txs[id].pc.AtCommit?
    ensures id !in Do(c, s, Advance(id)).txs
    ensures s.txs[id].slot.Some? && s.txs[id].slot.value < |Do(c, s, Advance(id)).log|
    ensures Do(c, s, Advance(id)).log[s.txs[id].slot.value] == Entry(s.txs[id].op, Done(Swiped(s.txs[id].result)))
  {
    assert TxInv(c, s, id);
  }

  /** A committing swipe never meets a row of its keys: no unique constraint fires and nothing is overwritten. */
  lemma CommitsNeverCollide(c: Config, s: State, id: TxId)
    requires Inv(c, s) && id in s.txs && s.txs[id].SwipeTx? && s.txs[id].pc.AtCommit?
    ensures s.txs[id].writes.swipe.Some? ==> s.txs[id].writes.swipe.value.0 !in s.db.swipes
    ensures s.txs[id].writes.match_.Some? ==> s.txs[id].writes.match_.value.0 !in s.db.matches
  {
    assert TxInv(c, s, id);
  }

  /** Two swipes of one pair, in either direction, are never both past the lock. */
  lemma OneSwipePerPair(c: Config, s: State, i: TxId, j: TxId)
    requires Inv(c, s) && i in s.txs && j in s.txs && i != j
    requires s.txs[i].SwipeTx? && s.txs[j].SwipeTx? && s.txs[i].op.SwipeOp? && s.txs[j].op.SwipeOp?
    requires c.key(PairOf(s.txs[i].op)) == c.key(PairOf(s.txs[j].op))
    ensures s.txs[i].pc.AtLock? || s.txs[j].pc.AtLock?
  {
    assert TxInv(c, s, i) && TxInv(c, s, j);
  }

  /**
    In every run: a swipe that was answered with a decision, a duplicate included, found its
    target there and no block in either direction when it took its place; one refused for a
    block of the viewer's own found that block.
   */
  lemma NoRunSwipesAcrossABlock(c: Config, steps: seq<Step>, k: nat)
    requires IsRun(c, INIT, steps)
    requires var log := After(c, INIT, steps).log; k < |log| && log[k].op.SwipeOp? && log[k].status.Done?
    ensures var log := After(c, INIT, steps).log;
      var op, blocks := log[k].op, At(c.users, log, k).blocks;
      && (log[k].status.reply.Swiped? ==>
            op.target in c.users && (op.viewer, op.target) !in blocks && (op.target, op.viewer) !in blocks)
      && (log[k].status.reply == BlockedByYou <==> op.target in c.users && (op.viewer, op.target) in blocks)
      && ((op.target, op.viewer) in blocks && (op.viewer, op.target) !in blocks ==> log[k].status.reply == NotFound)
  {
    EveryRunIsSerial(c, steps);
    var log := After(c, INIT, steps).log;
    var op := log[k].op;
    NobodySwipesAcrossABlock(c.users, At(c.users, log, k), op.viewer, op.target, op.action, op.newId);
  }

  /** What the blocks read does: a block of either side ends the call there, with nothing written. */
  lemma BlocksReadDecides(c: Config, s: State, id: TxId)
    requires Enabled(c, s, Advance(id)) && s.txs[id].SwipeTx? && s.txs[id].pc.AtBlocks?
    ensures var op, s' := s.txs[id].op, Do(c, s, Advance(id));
      && s'.db == s.db && |s'.log| == |s.log| + 1 && s'.log[..|s.log|] == s.log && s'.log[|s.log|].op == op
      && ((op.viewer, op.target) in s.db.blocks ==> id !in s'.txs && s'.log[|s.log|].status == Done(BlockedByYou))
      && ((op.target, op.viewer) in s.db.blocks && (op.viewer, op.target) !in s.db.blocks ==>
            id !in s'.txs && s'.log[|s.log|].status == Done(NotFound))
      && ((op.viewer, op.target) !in s.db.blocks && (op.target, op.viewer) !in s.db.blocks ==>
            id in s'.txs && s'.txs[id] == s.txs[id].(pc := AtInsert, slot := Some(|s.log|)) && s'.log[|s.log|].status.Open?)
  {
  }
}
