/**
  The transactions of the protocol, left alone, are the whole calls of MatchTables: what
  Swipe and Block are proved to do, their statements do one after the other.
 */
module SwipeAlone {
  import opened Wrappers
  import opened MatchTables
  import opened SwipeProtocol

  ghost predicate Only(steps: seq<Step>, step: Step) {
    forall k | 0 <= k < |steps| :: steps[k] == step
  }

  /** Transaction `id`, advancing alone, ends with tables t and log `log`, its locks released, the others as they were. */
  ghost predicate Finishes(c: Config, s: State, id: TxId, t: Tables, log: seq<Entry>) {
    exists steps: seq<Step> ::
      && IsRun(c, s, steps) && Only(steps, Advance(id))
      && After(c, s, steps) == State(t, Kept(s.locks, id), s.txs - {id}, log)
  }

  function Kept(locks: map<int, TxId>, id: TxId): map<int, TxId> {
    map k | k in locks && locks[k] != id :: locks[k]
  }

  lemma Ends(c: Config, s: State, id: TxId, t: Tables, log: seq<Entry>)
    requires Enabled(c, s, Advance(id))
    requires Do(c, s, Advance(id)) == State(t, Kept(s.locks, id), s.txs - {id}, log)
    ensures Finishes(c, s, id, t, log)
  {
    hide Do, Enabled;
    var steps := [Advance(id)];
    assert steps[1..] == [];
    assert After(c, Do(c, s, Advance(id)), []) == Do(c, s, Advance(id));
    assert IsRun(c, s, steps) && Only(steps, Advance(id));
  }

  lemma GoesOn(c: Config, s: State, id: TxId, t: Tables, log: seq<Entry>)
    requires Enabled(c, s, Advance(id))
    requires var s1 := Do(c, s, Advance(id));
             s1.txs - {id} == s.txs - {id} && Kept(s1.locks, id) == Kept(s.locks, id) && Finishes(c, s1, id, t, log)
    ensures Finishes(c, s, id, t, log)
  {
    hide Do, Enabled;
    var s1 := Do(c, s, Advance(id));
    var rest: seq<Step> :| IsRun(c, s1, rest) && Only(rest, Advance(id))
      && After(c, s1, rest) == State(t, Kept(s1.locks, id), s1.txs - {id}, log);
    var steps := [Advance(id)] + rest;
    assert steps[1..] == rest;
    assert IsRun(c, s, steps) && Only(steps, Advance(id));
  }

  /** No other transaction holds an uncommitted row of this swipe's keys. */
  ghost predicate NoRivals(s: State, id: TxId, op: Op)
    requires op.SwipeOp?
  {
    NoRivalSwipe(s, id, (op.viewer, op.target)) && NoRivalMatch(s, id, PairOf(op))
  }

  ghost predicate At(s: State, id: TxId, pc: Pc) {
    && id in s.txs && TxShape(s.txs[id]) && s.txs[id].SwipeTx? && s.txs[id].pc == pc
    && (pc == AtLock || pc == AtExists || pc == AtBlocks ||
        (s.txs[id].slot.Some? && s.txs[id].slot.value < |s.log| && s.log[s.txs[id].slot.value].op == s.txs[id].op))
  }

  /** The log with this swipe's entry settled. */
  function Settled(s: State, id: TxId, reply: Reply): seq<Entry>
    requires id in s.txs && s.txs[id].slot.Some? && s.txs[id].slot.value < |s.log|
  {
    s.log[s.txs[id].slot.value := Entry(s.txs[id].op, Done(reply))]
  }

  lemma CommitsAlone(c: Config, s: State, id: TxId)
    requires At(s, id, AtCommit)
    ensures Finishes(c, s, id, Apply(s.db, s.txs[id].writes), Settled(s, id, Swiped(s.txs[id].result)))
  {
    hide Apply, Finishes;
    Ends(c, s, id, Apply(s.db, s.txs[id].writes), Settled(s, id, Swiped(s.txs[id].result)));
  }

  /** A first decision with nothing to answer yet. */
  ghost predicate Fresh(s: State, id: TxId, pc: Pc) {
    && At(s, id, pc)
    && s.txs[id].result == SwipeResult(s.txs[id].op.action, false, None, false)
    && NoRivals(s, id, s.txs[id].op)
  }

  lemma ReadsDuplicateAlone(c: Config, s: State, id: TxId)
    requires Fresh(s, id, AtGetSwipe) && s.txs[id].writes == NO_WRITES
    requires (s.txs[id].op.viewer, s.txs[id].op.target) in s.db.swipes
    ensures var op := s.txs[id].op;
      var p := PairOf(op);
      Finishes(c, s, id, s.db,
               Settled(s, id, Swiped(SwipeResult(s.db.swipes[(op.viewer, op.target)], p in s.db.matches,
                                                 if p in s.db.matches then Some(s.db.matches[p]) else None, true))))
  {
    hide Finishes, NoRivals;
    var s1 := Do(c, s, Advance(id));
    var s2 := Do(c, s1, Advance(id));
    CommitsAlone(c, s2, id);
    GoesOn(c, s1, id, s.db, Settled(s2, id, Swiped(s2.txs[id].result)));
    GoesOn(c, s, id, s.db, Settled(s2, id, Swiped(s2.txs[id].result)));
  }

  lemma MatchesAlone(c: Config, s: State, id: TxId)
    requires Fresh(s, id, AtInsertMatch) && s.txs[id].op.action == Like
    requires s.txs[id].writes == NO_WRITES.(swipe := Some(((s.txs[id].op.viewer, s.txs[id].op.target), Like)))
    ensures var op := s.txs[id].op;
      var p := PairOf(op);
      var made := p !in s.db.matches;
      var matchId := if made then op.newId else s.db.matches[p];
      Finishes(c, s, id,
               Apply(s.db, if made then s.txs[id].writes.(match_ := Some((p, op.newId)), event := Some(MatchCreated(op.newId, p.0, p.1)))
                           else s.txs[id].writes),
               Settled(s, id, Swiped(SwipeResult(Like, true, Some(matchId), false))))
  {
    assert Enabled(c, s, Advance(id));
    hide Finishes, Apply, NoRivals;
    var s1 := Do(c, s, Advance(id));
    if s1.txs[id].pc.AtCommit? {
      CommitsAlone(c, s1, id);
      GoesOn(c, s, id, Apply(s.db, s1.txs[id].writes), Settled(s1, id, Swiped(s1.txs[id].result)));
    } else {
      var s2 := Do(c, s1, Advance(id));
      CommitsAlone(c, s2, id);
      GoesOn(c, s1, id, Apply(s.db, s2.txs[id].writes), Settled(s2, id, Swiped(s2.txs[id].result)));
      GoesOn(c, s, id, Apply(s.db, s2.txs[id].writes), Settled(s2, id, Swiped(s2.txs[id].result)));
    }
  }

  lemma InsertsAlone(c: Config, s: State, id: TxId)
    requires Fresh(s, id, AtInsert) && s.txs[id].writes == NO_WRITES
    ensures var op := s.txs[id].op;
      var d := Decide(c.users, s.db, op.viewer, op.target, op.action, op.newId);
      Finishes(c, s, id, Apply(s.db, d.0), Settled(s, id, d.1))
  {
    hide Finishes;
    var op := s.txs[id].op;
    var s1 := Do(c, s, Advance(id));
    if (op.viewer, op.target) in s.db.swipes {
      ReadsDuplicateAlone(c, s1, id);
      GoesOn(c, s, id, s.db, Settled(s, id, Decide(c.users, s.db, op.viewer, op.target, op.action, op.newId).1));
    } else if op.viewer !in c.users {
      Ends(c, s, id, s.db, Settled(s, id, NotFound));
    } else {
      DecidesAlone(c, s, id);
    }
  }

  lemma DecidesAlone(c: Config, s: State, id: TxId)
    requires Fresh(s, id, AtInsert) && s.txs[id].writes == NO_WRITES
    requires (s.txs[id].op.viewer, s.txs[id].op.target) !in s.db.swipes && s.txs[id].op.viewer in c.users
    ensures var op := s.txs[id].op;
      var d := Decide(c.users, s.db, op.viewer, op.target, op.action, op.newId);
      Finishes(c, s, id, Apply(s.db, d.0), Settled(s, id, d.1))
  {
    assert Enabled(c, s, Advance(id));
    hide Finishes, Apply, NoRivals;
    var op := s.txs[id].op;
    var d := Decide(c.users, s.db, op.viewer, op.target, op.action, op.newId);
    var s1 := Do(c, s, Advance(id));
    if op.action != Like {
      CommitsAlone(c, s1, id);
    } else {
      var s2 := Do(c, s1, Advance(id));
      SameRivals(s, s2, id, op);
      if Liked(s.db, op.target, op.viewer) {
        MatchesAlone(c, s2, id);
      } else {
        CommitsAlone(c, s2, id);
      }
      GoesOn(c, s1, id, Apply(s.db, d.0), Settled(s2, id, d.1));
    }
    GoesOn(c, s, id, Apply(s.db, d.0), Settled(s, id, d.1));
  }

  lemma SameRivals(s: State, s': State, id: TxId, op: Op)
    requires op.SwipeOp? && NoRivals(s, id, op) && s'.txs - {id} == s.txs - {id}
    ensures NoRivals(s', id, op)
  {
    forall j | j in s'.txs && j != id
      ensures j in s.txs && s'.txs[j] == s.txs[j]
    {
      assert j in s'.txs - {id};
      assert (s'.txs - {id})[j] == (s.txs - {id})[j];
    }
  }

  /**
    A swipe that nothing overlaps, from the lock to the commit, changes the tables and
    answers its caller exactly as the whole call does.
   */
  lemma SwipeIsItsStatements(c: Config, s: State, id: TxId)
    requires Fresh(s, id, AtLock) && s.txs[id].writes == NO_WRITES && c.key(PairOf(s.txs[id].op)) !in s.locks
    ensures var (t, reply) := Serial(c.users, s.db, s.txs[id].op);
      Finishes(c, s, id, t, s.log + [Entry(s.txs[id].op, Done(reply))])
  {
    hide Finishes, Decide, Apply, NoRivals;
    var op := s.txs[id].op;
    var s1 := Do(c, s, Advance(id));
    var s2 := Do(c, s1, Advance(id));
    var (t, reply) := Serial(c.users, s.db, op);
    var log := s.log + [Entry(op, Done(reply))];
    assert Kept(s1.locks, id) == Kept(s.locks, id);
    if op.target !in c.users {
      Ends(c, s1, id, t, log);
    } else {
      var s3 := Do(c, s2, Advance(id));
      if BlockedEitherWay(s.db, op.viewer, op.target) {
        Ends(c, s2, id, t, log);
      } else {
        SameRivals(s, s3, id, op);
        InsertsAlone(c, s3, id);
        assert Settled(s3, id, reply) == log;
        GoesOn(c, s2, id, t, log);
      }
      GoesOn(c, s1, id, t, log);
    }
    GoesOn(c, s, id, t, log);
  }

  /** And so is a block. */
  lemma BlockIsItsStatements(c: Config, s: State, id: TxId)
    requires id in s.txs && TxShape(s.txs[id]) && NoRivalBlock(s, id, s.txs[id].op)
    requires s.txs[id].BlockTx? && s.txs[id].bpc.AtBlockExists? && !s.txs[id].created
    ensures var (t, reply) := Serial(c.users, s.db, s.txs[id].op);
      Finishes(c, s, id, t, s.log + [Entry(s.txs[id].op, Done(reply))])
  {
    hide Finishes;
    var op := s.txs[id].op;
    var (t, reply) := Serial(c.users, s.db, op);
    var log := s.log + [Entry(op, Done(reply))];
    if op.blocked !in c.users {
      Ends(c, s, id, t, log);
    } else {
      var s1 := Do(c, s, Advance(id));
      if (op.blocker, op.blocked) in s.db.blocks {
        var s2 := Do(c, s1, Advance(id));
        Ends(c, s2, id, t, log);
        GoesOn(c, s1, id, t, log);
      } else if op.blocker !in c.users {
        Ends(c, s1, id, t, log);
      } else {
        StoresAlone(c, s1, id);
      }
      GoesOn(c, s, id, t, log);
    }
  }

  lemma StoresAlone(c: Config, s: State, id: TxId)
    requires id in s.txs && TxShape(s.txs[id]) && NoRivalBlock(s, id, s.txs[id].op)
    requires s.txs[id].BlockTx? && s.txs[id].bpc.AtInsertBlock?
    requires (s.txs[id].op.blocker, s.txs[id].op.blocked) !in s.db.blocks && s.txs[id].op.blocker in c.users
    ensures var op := s.txs[id].op;
      Finishes(c, s, id,
               s.db.(blocks := s.db.blocks + {(op.blocker, op.blocked)},
                     outbox := s.db.outbox + multiset{UserBlocked(op.blocker, op.blocked)}),
               s.log + [Entry(op, Done(BlockStored(true)))])
  {
    hide Finishes;
    var op := s.txs[id].op;
    var s1 := Do(c, s, Advance(id));
    var s2 := Do(c, s1, Advance(id));
    var s3 := Do(c, s2, Advance(id));
    Ends(c, s2, id, s3.db, s3.log);
    GoesOn(c, s1, id, s3.db, s3.log);
    GoesOn(c, s, id, s3.db, s3.log);
  }

  // ---- From the caller's side ----

  /** A swipe asked for, and then left alone while nobody works on its pair, is the whole call. */
  lemma SwipeAsAsked(c: Config, s: State, id: TxId, v: User, w: User, action: Action, newId: MatchId)
    requires Enabled(c, s, BeginSwipe(id, v, w, action, newId)) && c.key(OrderPair(v, w)) !in s.locks
    requires NoRivals(s, id, SwipeOp(v, w, action, newId))
    ensures var op := SwipeOp(v, w, action, newId);
      var (t, reply) := Serial(c.users, s.db, op);
      Finishes(c, Do(c, s, BeginSwipe(id, v, w, action, newId)), id, t, s.log + [Entry(op, Done(reply))])
  {
    hide Finishes, Serial, NoRivals;
    var s1 := Do(c, s, BeginSwipe(id, v, w, action, newId));
    assert s1.txs - {id} == s.txs - {id};
    SameRivals(s, s1, id, SwipeOp(v, w, action, newId));
    SwipeIsItsStatements(c, s1, id);
  }

  lemma BlockAsAsked(c: Config, s: State, id: TxId, a: User, b: User)
    requires Enabled(c, s, BeginBlock(id, a, b)) && NoRivalBlock(s, id, BlockOp(a, b))
    ensures var (t, reply) := Serial(c.users, s.db, BlockOp(a, b));
      Finishes(c, Do(c, s, BeginBlock(id, a, b)), id, t, s.log + [Entry(BlockOp(a, b), Done(reply))])
  {
    hide Finishes, Serial;
    BlockIsItsStatements(c, Do(c, s, BeginBlock(id, a, b)), id);
  }

  /** An aborted call has changed no table, gives up its locks, and counts for nothing in the serial order. */
  lemma AbortLeavesNothing(c: Config, s: State, id: TxId)
    requires Enabled(c, s, Abort(id))
    ensures var s' := Do(c, s, Abort(id));
      && s'.db == s.db && s'.txs == s.txs - {id} && s'.locks == Kept(s.locks, id) && |s'.log| == |s.log|
      && forall k | 0 <= k < |s.log| ::
           s'.log[k] == if s.txs[id].slot == Some(k) then Entry(s.log[k].op, Dropped) else s.log[k]
  {
  }
}
