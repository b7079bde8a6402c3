/**
  Every interleaving of Swipe, Block and Unblock is the serial run of its log, and in
  every reachable state mutual likes and match rows coincide.
 */
module SwipeSerializable {
  import opened Wrappers
  import opened MatchTables
  import opened SwipeProtocol

  // ---- What a swipe can see of its pair, and why writes to other pairs commute ----

  /** t and t' agree on everything a swipe of pair p reads after its block check. */
  ghost predicate SameView(t: Tables, t': Tables, p: Pair) {
    && (p in t.swipes <==> p in t'.swipes)
    && (p in t.swipes ==> t.swipes[p] == t'.swipes[p])
    && ((p.1, p.0) in t.swipes <==> (p.1, p.0) in t'.swipes)
    && ((p.1, p.0) in t.swipes ==> t.swipes[(p.1, p.0)] == t'.swipes[(p.1, p.0)])
    && (p in t.matches <==> p in t'.matches)
    && (p in t.matches ==> t.matches[p] == t'.matches[p])
  }

  /** w writes no row outside pair p. */
  ghost predicate Local(w: Writes, p: Pair) {
    && (w.swipe.Some? ==> w.swipe.value.0 == p || w.swipe.value.0 == (p.1, p.0))
    && (w.match_.Some? ==> w.match_.value.0 == p)
  }

  /** An entry that is, or may yet become, an effective swipe of pair p. */
  ghost predicate Touches(e: Entry, p: Pair) {
    e.op.SwipeOp? && PairOf(e.op) == p && !e.status.Dropped?
  }

  lemma DecideDependsOnView(users: set<User>, t: Tables, t': Tables, v: User, w: User, action: Action, id: MatchId)
    requires SameView(t, t', OrderPair(v, w))
    ensures Decide(users, t, v, w, action, id) == Decide(users, t', v, w, action, id)
    ensures Local(Decide(users, t, v, w, action, id).0, OrderPair(v, w))
  {
  }

  lemma PutsCommute<K, V>(m: map<K, V>, a: Option<(K, V)>, b: Option<(K, V)>)
    requires a.Some? && b.Some? ==> a.value.0 != b.value.0
    ensures Put(Put(m, a), b) == Put(Put(m, b), a)
  {
    assert Put(Put(m, a), b) == Put(Put(m, b), a);
  }

  lemma AppliesCommute(t: Tables, d: Writes, w: Writes, p: Pair, q: Pair)
    requires Local(w, p) && Local(d, q) && p != q && p.0 <= p.1 && q.0 <= q.1
    ensures Apply(Apply(t, w), d) == Apply(Apply(t, d), w)
  {
    PutsCommute(t.swipes, w.swipe, d.swipe);
    PutsCommute(t.matches, w.match_, d.match_);
    assert Emit(Emit(t.outbox, w.event), d.event) == Emit(Emit(t.outbox, d.event), w.event);
  }

  lemma OtherViewKept(t: Tables, d: Writes, p: Pair, q: Pair)
    requires Local(d, q) && p != q && p.0 <= p.1 && q.0 <= q.1
    ensures SameView(t, Apply(t, d), p)
  {
  }

  lemma OtherSwipesCommute(users: set<User>, t: Tables, op: Op, w: Writes, p: Pair)
    requires Local(w, p) && p.0 <= p.1
    requires op.SwipeOp? && PairOf(op) != p
    ensures Serial(users, Apply(t, w), op) == (Apply(Serial(users, t, op).0, w), Serial(users, t, op).1)
    ensures SameView(t, Serial(users, t, op).0, p)
  {
    hide Decide, Put, Emit;
    var SwipeOp(v, x, action, id) := op;
    var q := PairOf(op);
    OtherViewKept(t, w, q, p);
    DecideDependsOnView(users, t, Apply(t, w), v, x, action, id);
    var d := Decide(users, t, v, x, action, id).0;
    AppliesCommute(t, d, w, p, q);
    OtherViewKept(t, d, p, q);
  }

  lemma BlocksCommute(users: set<User>, t: Tables, op: Op, w: Writes, p: Pair)
    requires !op.SwipeOp?
    ensures Serial(users, Apply(t, w), op) == (Apply(Serial(users, t, op).0, w), Serial(users, t, op).1)
    ensures SameView(t, Serial(users, t, op).0, p)
  {
    hide Put, Decide, Unreachable;
    if op.BlockOp? {
      var e := multiset{UserBlocked(op.blocker, op.blocked)};
      assert Emit(t.outbox + e, w.event) == Emit(t.outbox, w.event) + e;
    }
  }

  lemma OtherPairsCommute(users: set<User>, t: Tables, op: Op, w: Writes, p: Pair)
    requires Local(w, p) && p.0 <= p.1
    requires op.SwipeOp? ==> PairOf(op) != p
    ensures Serial(users, Apply(t, w), op) == (Apply(Serial(users, t, op).0, w), Serial(users, t, op).1)
    ensures SameView(t, Serial(users, t, op).0, p)
  {
    hide Serial, Apply;
    if op.SwipeOp? {
      OtherSwipesCommute(users, t, op, w, p);
    } else {
      BlocksCommute(users, t, op, w, p);
    }
  }

  lemma {:induction false} ViewPersists(users: set<User>, log: seq<Entry>, slot: nat, k: nat, p: Pair)
    requires slot <= k <= |log| && p.0 <= p.1
    requires forall j | slot <= j < k :: !(log[j].status.Done? && Touches(log[j], p))
    ensures SameView(At(users, log, slot), At(users, log, k), p)
  {
    if slot < k {
      ViewPersists(users, log, slot, k - 1, p);
      assert log[..k][..k - 1] == log[..k - 1];
      if log[k - 1].status.Done? {
        OtherPairsCommute(users, At(users, log, k - 1), log[k - 1].op, NO_WRITES, p);
      }
    }
  }

  /** Resolving an open entry in the middle of the log adds exactly its writes to every later prefix. */
  lemma {:induction false} InsertionCommutes(users: set<User>, log: seq<Entry>, slot: nat, reply: Reply, w: Writes, p: Pair, k: nat)
    requires slot < k <= |log| && p.0 <= p.1 && Local(w, p)
    requires !log[slot].status.Done?
    requires Serial(users, At(users, log, slot), log[slot].op) == (Apply(At(users, log, slot), w), reply)
    requires forall j | slot < j < k :: !(log[j].status.Done? && Touches(log[j], p))
    ensures At(users, log[slot := log[slot].(status := Done(reply))], k) == Apply(At(users, log, k), w)
  {
    hide Serial, Apply, Local;
    var log' := log[slot := log[slot].(status := Done(reply))];
    assert log'[..slot] == log[..slot];
    assert log[..k][..k - 1] == log[..k - 1] && log'[..k][..k - 1] == log'[..k - 1];
    if slot + 1 < k {
      InsertionCommutes(users, log, slot, reply, w, p, k - 1);
      if log[k - 1].status.Done? {
        OtherPairsCommute(users, At(users, log, k - 1), log[k - 1].op, w, p);
      }
    }
  }

  lemma ResolvedRepliesMatch(users: set<User>, log: seq<Entry>, slot: nat, reply: Reply, w: Writes, p: Pair)
    requires slot < |log| && p.0 <= p.1 && Local(w, p)
    requires !log[slot].status.Done?
    requires Serial(users, At(users, log, slot), log[slot].op) == (Apply(At(users, log, slot), w), reply)
    requires forall j | slot < j < |log| :: !(log[j].status.Done? && Touches(log[j], p))
    requires RepliesMatch(users, log)
    ensures var log' := log[slot := log[slot].(status := Done(reply))];
            RepliesMatch(users, log') && Replay(users, log') == Apply(Replay(users, log), w)
  {
    var log' := log[slot := log[slot].(status := Done(reply))];
    assert log[..|log|] == log && log'[..|log|] == log';
    InsertionCommutes(users, log, slot, reply, w, p, |log|);
    forall i | 0 <= i < |log'| && log'[i].status.Done?
      ensures log'[i].status.reply == Serial(users, At(users, log', i), log'[i].op).1
    {
      if i <= slot {
        assert log'[..i] == log[..i];
      } else {
        InsertionCommutes(users, log, slot, reply, w, p, i);
        OtherPairsCommute(users, At(users, log, i), log[i].op, w, p);
      }
    }
  }

  lemma {:induction false} DroppingChangesNothing(users: set<User>, log: seq<Entry>, slot: nat, k: nat)
    requires slot < |log| && k <= |log| && log[slot].status.Open?
    ensures At(users, log[slot := log[slot].(status := Dropped)], k) == At(users, log, k)
  {
    var log' := log[slot := log[slot].(status := Dropped)];
    if k > 0 {
      DroppingChangesNothing(users, log, slot, k - 1);
      assert log[..k][..k - 1] == log[..k - 1] && log'[..k][..k - 1] == log'[..k - 1];
    }
  }

  lemma AppendReplays(users: set<User>, log: seq<Entry>, e: Entry)
    requires RepliesMatch(users, log)
    requires e.status.Done? ==> e.status.reply == Serial(users, Replay(users, log), e.op).1
    ensures RepliesMatch(users, log + [e])
    ensures Replay(users, log + [e])
            == if e.status.Done? then Serial(users, Replay(users, log), e.op).0 else Replay(users, log)
  {
    var log' := log + [e];
    assert log'[..|log|] == log;
    forall i | 0 <= i < |log'| && log'[i].status.Done?
      ensures log'[i].status.reply == Serial(users, At(users, log', i), log'[i].op).1
    {
      assert i < |log| ==> log'[..i] == log[..i];
    }
  }

  // ---- The invariant ----

  /** The transaction's place in the log is still open and carries its call. */
  ghost predicate Placed(log: seq<Entry>, tx: Tx) {
    tx.slot.Some? && tx.slot.value < |log| && log[tx.slot.value] == Entry(tx.op, Open)
  }

  /** What a swipe past its block check has established, statement by statement. */
  ghost predicate Progress(users: set<User>, t: Tables, tx: Tx)
    requires tx.SwipeTx? && tx.op.SwipeOp?
  {
    var SwipeTx(op, pc, _, w, r) := tx;
    var here := (op.viewer, op.target);
    var p := PairOf(op);
    var initial := SwipeResult(op.action, false, None, false);
    match pc
    case AtLock | AtExists | AtBlocks | AtInsert => w == NO_WRITES && r == initial
    case AtGetSwipe => here in t.swipes && w == NO_WRITES && r == initial
    case AtFindMatch =>
      here in t.swipes && w == NO_WRITES && r == initial.(action := t.swipes[here], duplicate := true)
    case AtHasLiked =>
      && here !in t.swipes && op.viewer in users && op.action == Like
      && w == NO_WRITES.(swipe := Some((here, op.action))) && r == initial
    case AtInsertMatch =>
      && here !in t.swipes && op.viewer in users && op.action == Like && Liked(t, op.target, op.viewer)
      && w == NO_WRITES.(swipe := Some((here, op.action))) && r == initial
    case AtEnqueue =>
      && here !in t.swipes && op.viewer in users && op.action == Like && Liked(t, op.target, op.viewer)
      && p !in t.matches
      && w == NO_WRITES.(swipe := Some((here, op.action)), match_ := Some((p, op.newId)))
      && r == SwipeResult(op.action, true, Some(op.newId), false)
    case AtCommit => (w, Swiped(r)) == Decide(users, t, op.viewer, op.target, op.action, op.newId)
  }

  ghost predicate PastBlocks(tx: Tx) {
    tx.SwipeTx? && !tx.pc.AtLock? && !tx.pc.AtExists? && !tx.pc.AtBlocks?
  }

  ghost predicate TxInv(c: Config, s: State, id: TxId)
    requires id in s.txs
  {
    var tx := s.txs[id];
    && TxShape(tx)
    && match tx {
         case SwipeTx(op, pc, slot, w, r) =>
           && Progress(c.users, s.db, tx)
           && Local(w, PairOf(op))
           && (!pc.AtLock? ==> c.key(PairOf(op)) in s.locks && s.locks[c.key(PairOf(op))] == id)
           && (pc.AtLock? || pc.AtExists? || op.target in c.users)
           && (slot.Some? <==> PastBlocks(tx))
           && (PastBlocks(tx) ==>
                 && Placed(s.log, tx)
                 && Unreachable(c.users, At(c.users, s.log, slot.value), op.viewer, op.target) == None
                 && forall j | slot.value < j < |s.log| :: !Touches(s.log[j], PairOf(op)))
         case BlockTx(op, bpc, slot, created) =>
           && (!bpc.AtBlockExists? ==> op.blocked in c.users)
           && (bpc.AtBlockExists? || bpc.AtInsertBlock? ==> slot.None? && !created)
           && (bpc.AtEnqueueBlock? ==> created)
           && (bpc.AtCommitBlock? ==> (created <==> slot.None?))
           && (created ==> op.blocker in c.users && (op.blocker, op.blocked) !in s.db.blocks && slot.None?)
           && (slot.Some? ==>
                 && Placed(s.log, tx)
                 && (op.blocker, op.blocked) in At(c.users, s.log, slot.value).blocks)
       }
  }

  ghost predicate Apart(a: Tx, b: Tx) {
    && (a.slot.Some? ==> a.slot != b.slot)
    && (a.BlockTx? && b.BlockTx? && a.created && b.created ==> a.op != b.op)
  }

  ghost predicate Faithful(c: Config, s: State) {
    && Replay(c.users, s.log) == s.db
    && RepliesMatch(c.users, s.log)
    && (forall i | 0 <= i < |s.log| :: WellFormed(s.log[i].op))
  }

  ghost predicate Inv(c: Config, s: State) {
    && Faithful(c, s)
    && (forall id | id in s.txs :: TxInv(c, s, id))
    && (forall i, j | i in s.txs && j in s.txs && i != j :: Apart(s.txs[i], s.txs[j]))
  }

  // ---- Every step keeps it ----

  ghost predicate Holds(c: Config, s: State, id: TxId, p: Pair) {
    c.key(p) in s.locks && s.locks[c.key(p)] == id
  }

  /** The step of `id` from s to s' disturbs no other transaction. */
  ghost predicate Steady(c: Config, s: State, s': State, id: TxId) {
    && (forall k | k in s.locks && s.locks[k] != id :: k in s'.locks && s'.locks[k] == s.locks[k])
    && |s.log| <= |s'.log|
    && (forall i | 0 <= i < |s.log| ::
          s'.log[i] == s.log[i]
          || (s.log[i].status.Open? && id in s.txs && s.txs[id].slot == Some(i) && s'.log[i].op == s.log[i].op))
    && (forall i | |s.log| <= i < |s'.log| && s'.log[i].op.SwipeOp? :: Holds(c, s, id, PairOf(s'.log[i].op)))
    && (forall k | 0 <= k <= |s.log| ::
          At(c.users, s'.log, k).blocks == At(c.users, s.log, k).blocks)
    && (forall q: Pair | q.0 <= q.1 && !Holds(c, s, id, q) :: SameView(s.db, s'.db, q))
    && (forall row | row in s'.db.blocks && row !in s.db.blocks ::
          id in s.txs && s.txs[id].BlockTx? && s.txs[id].created && s.txs[id].op == BlockOp(row.0, row.1))
  }

  lemma OthersUndisturbed(c: Config, s: State, s': State, id: TxId, j: TxId)
    requires Inv(c, s) && Steady(c, s, s', id)
    requires j in s.txs && j != id && j in s'.txs && s'.txs[j] == s.txs[j]
    ensures TxInv(c, s', j)
  {
    var tx := s.txs[j];
    assert TxInv(c, s, j);
    assert id in s.txs ==> Apart(tx, s.txs[id]);
    match tx
    case SwipeTx(op, pc, slot, w, r) =>
      if !pc.AtLock? {
        var k := c.key(PairOf(op));
        assert k in s'.locks && s'.locks[k] == j;
        assert !Holds(c, s, id, PairOf(op));
        assert SameView(s.db, s'.db, PairOf(op));
        DecideDependsOnView(c.users, s.db, s'.db, op.viewer, op.target, op.action, op.newId);
      }
      if PastBlocks(tx) {
        forall i | slot.value < i < |s'.log|
          ensures !Touches(s'.log[i], PairOf(op))
        {
          assert i < |s.log| ==> !Touches(s.log[i], PairOf(op));
        }
      }
    case BlockTx(op, bpc, slot, created) =>
  }

  /** The row of the stepping transaction, when it is still there, keeps the invariant too. */
  ghost predicate OwnRowOk(c: Config, s: State, s': State, id: TxId) {
    && (forall j | j in s'.txs && j != id :: j in s.txs && s'.txs[j] == s.txs[j])
    && (id in s'.txs ==>
          && TxInv(c, s', id)
          && forall j | j in s.txs && j != id :: Apart(s'.txs[id], s.txs[j]) && Apart(s.txs[j], s'.txs[id]))
  }

  lemma Assemble(c: Config, s: State, s': State, id: TxId)
    requires Inv(c, s) && Steady(c, s, s', id)
    requires Faithful(c, s')
    requires OwnRowOk(c, s, s', id)
    ensures Inv(c, s')
  {
    forall j | j in s'.txs
      ensures TxInv(c, s', j)
    {
      if j != id {
        OthersUndisturbed(c, s, s', id, j);
      }
    }
  }

  /** A statement that only reads, or writes inside its own transaction. */
  lemma PrivateStep(c: Config, s: State, s': State, id: TxId)
    requires Inv(c, s)
    requires s' == s.(txs := s'.txs, locks := s'.locks)
    requires forall k | k in s.locks :: k in s'.locks && s'.locks[k] == s.locks[k]
    requires OwnRowOk(c, s, s', id)
    ensures Inv(c, s')
  {
    Assemble(c, s, s', id);
  }

  ghost predicate LocksKept(s: State, s': State, id: TxId) {
    forall k | k in s.locks && s.locks[k] != id :: k in s'.locks && s'.locks[k] == s.locks[k]
  }

  /** A block row can only come from the transaction that inserted it. */
  ghost predicate NewBlocksAreOwn(s: State, s': State, id: TxId) {
    forall row | row in s'.db.blocks && row !in s.db.blocks ::
      id in s.txs && s.txs[id].BlockTx? && s.txs[id].created && s.txs[id].op == BlockOp(row.0, row.1)
  }

  /** A call takes its place at the end of the log and, when it is done, leaves its serial effect. */
  lemma RecordIsSteady(c: Config, s: State, s': State, id: TxId, e: Entry)
    requires Faithful(c, s) && WellFormed(e.op)
    requires s'.log == s.log + [e]
    requires e.status.Done? ==> (s'.db, e.status.reply) == Serial(c.users, s.db, e.op)
    requires !e.status.Done? || e.op.SwipeOp? ==> s'.db == s.db
    requires LocksKept(s, s', id) && NewBlocksAreOwn(s, s', id)
    requires e.op.SwipeOp? ==> Holds(c, s, id, PairOf(e.op))
    ensures Faithful(c, s') && Steady(c, s, s', id)
  {
    hide Decide, Serial, SameView;
    AppendReplays(c.users, s.log, e);
    assert forall k | 0 <= k <= |s.log| :: s'.log[..k] == s.log[..k];
    if e.status.Done? && !e.op.SwipeOp? {
      BlockingKeepsPairs(c.users, s.db, e.op);
    }
    forall q: Pair
      ensures SameView(s.db, s'.db, q)
    {
      EqualViews(s.db, s'.db, q);
    }
  }

  lemma BlockingKeepsPairs(users: set<User>, t: Tables, op: Op)
    requires !op.SwipeOp?
    ensures Serial(users, t, op).0.swipes == t.swipes && Serial(users, t, op).0.matches == t.matches
  {
  }

  lemma EqualViews(t: Tables, t': Tables, q: Pair)
    requires t.swipes == t'.swipes && t.matches == t'.matches
    ensures SameView(t, t', q)
  {
  }

  lemma RecordStep(c: Config, s: State, s': State, id: TxId, e: Entry)
    requires Inv(c, s) && WellFormed(e.op)
    requires s'.log == s.log + [e]
    requires e.status.Done? ==> (s'.db, e.status.reply) == Serial(c.users, s.db, e.op)
    requires !e.status.Done? || e.op.SwipeOp? ==> s'.db == s.db
    requires LocksKept(s, s', id) && NewBlocksAreOwn(s, s', id)
    requires e.op.SwipeOp? ==> Holds(c, s, id, PairOf(e.op))
    requires OwnRowOk(c, s, s', id)
    ensures Inv(c, s')
  {
    RecordIsSteady(c, s, s', id, e);
    Assemble(c, s, s', id);
  }

  /** The writes w to pair p are what the call at `slot` does, alone, at its place in the log. */
  ghost predicate SerialEffect(c: Config, s: State, slot: nat, reply: Reply, w: Writes, p: Pair)
    requires slot < |s.log|
  {
    var t := At(c.users, s.log, slot);
    && p.0 <= p.1 && Local(w, p)
    && Serial(c.users, t, s.log[slot].op) == (Apply(t, w), reply)
    && (forall j | slot < j < |s.log| :: !(s.log[j].status.Done? && Touches(s.log[j], p)))
  }

  /** A placed call ends with an answer; its writes reach the tables. */
  lemma ResolvingKeepsBlocks(users: set<User>, log: seq<Entry>, slot: nat, reply: Reply, w: Writes, p: Pair, k: nat)
    requires slot < |log| && k <= |log| && p.0 <= p.1 && Local(w, p)
    requires !log[slot].status.Done?
    requires Serial(users, At(users, log, slot), log[slot].op) == (Apply(At(users, log, slot), w), reply)
    requires forall j | slot < j < |log| :: !(log[j].status.Done? && Touches(log[j], p))
    ensures At(users, log[slot := log[slot].(status := Done(reply))], k).blocks == At(users, log, k).blocks
  {
    hide Serial, Replay;
    if k <= slot {
      assert log[slot := log[slot].(status := Done(reply))][..k] == log[..k];
    } else {
      InsertionCommutes(users, log, slot, reply, w, p, k);
    }
  }

  lemma ResolveIsFaithful(c: Config, s: State, id: TxId, reply: Reply, w: Writes, p: Pair)
    requires Faithful(c, s) && id in s.txs && Placed(s.log, s.txs[id])
    requires SerialEffect(c, s, s.txs[id].slot.value, reply, w, p)
    ensures Faithful(c, End(Resolve(s.(db := Apply(s.db, w)), s.txs[id].slot, Done(reply)), id))
  {
    hide Serial, Replay, Apply;
    ResolvedRepliesMatch(c.users, s.log, s.txs[id].slot.value, reply, w, p);
  }

  lemma ResolveIsSteady(c: Config, s: State, id: TxId, reply: Reply, w: Writes, p: Pair)
    requires id in s.txs && Placed(s.log, s.txs[id])
    requires SerialEffect(c, s, s.txs[id].slot.value, reply, w, p)
    requires w == NO_WRITES || Holds(c, s, id, p)
    ensures Steady(c, s, End(Resolve(s.(db := Apply(s.db, w)), s.txs[id].slot, Done(reply)), id), id)
  {
    hide Serial, Replay;
    var s' := End(Resolve(s.(db := Apply(s.db, w)), s.txs[id].slot, Done(reply)), id);
    var slot := s.txs[id].slot.value;
    forall k | 0 <= k <= |s.log|
      ensures At(c.users, s'.log, k).blocks == At(c.users, s.log, k).blocks
    {
      ResolvingKeepsBlocks(c.users, s.log, slot, reply, w, p, k);
    }
    forall q: Pair | q.0 <= q.1 && !Holds(c, s, id, q)
      ensures SameView(s.db, s'.db, q)
    {
      if w != NO_WRITES {
        OtherViewKept(s.db, w, q, p);
      }
    }
  }

  lemma ResolveStep(c: Config, s: State, id: TxId, reply: Reply, w: Writes, p: Pair)
    requires Inv(c, s) && id in s.txs && Placed(s.log, s.txs[id])
    requires SerialEffect(c, s, s.txs[id].slot.value, reply, w, p)
    requires w == NO_WRITES || Holds(c, s, id, p)
    ensures Inv(c, End(Resolve(s.(db := Apply(s.db, w)), s.txs[id].slot, Done(reply)), id))
  {
    hide Serial, Replay, Apply;
    ResolveIsFaithful(c, s, id, reply, w, p);
    ResolveIsSteady(c, s, id, reply, w, p);
    Assemble(c, s, End(Resolve(s.(db := Apply(s.db, w)), s.txs[id].slot, Done(reply)), id), id);
  }

  lemma AbortIsSteady(c: Config, s: State, id: TxId)
    requires Faithful(c, s) && id in s.txs
    requires s.txs[id].slot.Some? ==> Placed(s.log, s.txs[id])
    ensures var s' := End(Resolve(s, s.txs[id].slot, Dropped), id);
            Faithful(c, s') && Steady(c, s, s', id)
  {
    var s' := End(Resolve(s, s.txs[id].slot, Dropped), id);
    var slot := s.txs[id].slot;
    if slot.Some? {
      forall k | 0 <= k <= |s.log|
        ensures At(c.users, s'.log, k) == At(c.users, s.log, k)
      {
        DroppingChangesNothing(c.users, s.log, slot.value, k);
      }
      assert s'.log[..|s.log|] == s'.log && s.log[..|s.log|] == s.log;
      assert At(c.users, s'.log, |s.log|) == At(c.users, s.log, |s.log|);
    }
  }

  lemma AbortKeepsInv(c: Config, s: State, id: TxId)
    requires Inv(c, s) && id in s.txs
    ensures Inv(c, End(Resolve(s, s.txs[id].slot, Dropped), id))
  {
    assert TxInv(c, s, id);
    AbortIsSteady(c, s, id);
    Assemble(c, s, End(Resolve(s, s.txs[id].slot, Dropped), id), id);
  }

  /** What a placed swipe decides at its slot is what it decides on today's tables. */
  lemma SwipeResolves(c: Config, s: State, id: TxId)
    requires Inv(c, s) && id in s.txs && s.txs[id].SwipeTx? && PastBlocks(s.txs[id])
    ensures var tx := s.txs[id];
            var op := tx.op;
            Placed(s.log, tx) && op.SwipeOp? &&
            (var t := At(c.users, s.log, tx.slot.value);
             var d := Decide(c.users, s.db, op.viewer, op.target, op.action, op.newId);
             Serial(c.users, t, op) == (Apply(t, d.0), d.1))
  {
    var tx := s.txs[id];
    assert TxInv(c, s, id);
    var op := tx.op;
    ViewPersists(c.users, s.log, tx.slot.value, |s.log|, PairOf(op));
    assert s.log[..|s.log|] == s.log;
    var t := At(c.users, s.log, tx.slot.value);
    DecideDependsOnView(c.users, t, s.db, op.viewer, op.target, op.action, op.newId);
  }

  /** LockPair, then UserExists and BlockDirections under the lock. */
  lemma SwipeEntersInv(c: Config, s: State, id: TxId)
    requires Inv(c, s) && Enabled(c, s, Advance(id)) && s.txs[id].SwipeTx?
    requires s.txs[id].pc.AtLock? || s.txs[id].pc.AtExists?
    ensures Inv(c, AdvanceSwipe(c, s, id))
  {
    hide Replay;
    var s' := AdvanceSwipe(c, s, id);
    var tx := s.txs[id];
    assert TxInv(c, s, id);
    if tx.pc.AtExists? && tx.op.target !in c.users {
      RecordStep(c, s, s', id, Entry(tx.op, Done(NotFound)));
    } else {
      PrivateStep(c, s, s', id);
    }
  }

  lemma SwipeReadsBlocksInv(c: Config, s: State, id: TxId)
    requires Inv(c, s) && Enabled(c, s, Advance(id)) && s.txs[id].SwipeTx?
    requires s.txs[id].pc.AtBlocks?
    ensures Inv(c, AdvanceSwipe(c, s, id))
  {
    hide Replay;
    var s' := AdvanceSwipe(c, s, id);
    var op := s.txs[id].op;
    assert TxInv(c, s, id);
    if BlockedEitherWay(s.db, op.viewer, op.target) {
      RecordStep(c, s, s', id, s'.log[|s.log|]);
    } else {
      assert s'.log[..|s.log|] == s.log;
      RecordStep(c, s, s', id, Entry(op, Open));
    }
  }

  /** A duplicate reads the old decision and the old match, and writes nothing. */
  lemma DuplicateReadsInv(c: Config, s: State, id: TxId)
    requires Inv(c, s) && Enabled(c, s, Advance(id)) && s.txs[id].SwipeTx?
    requires s.txs[id].pc.AtGetSwipe? || s.txs[id].pc.AtFindMatch?
    ensures Inv(c, AdvanceSwipe(c, s, id))
  {
    hide Replay, Serial, Unreachable;
    assert TxInv(c, s, id);
    PrivateStep(c, s, AdvanceSwipe(c, s, id), id);
  }

  /** HasLiked reads, and decides whether there is a match to insert. */
  lemma SwipeAsksInv(c: Config, s: State, id: TxId)
    requires Inv(c, s) && Enabled(c, s, Advance(id)) && s.txs[id].SwipeTx? && s.txs[id].pc.AtHasLiked?
    ensures Inv(c, AdvanceSwipe(c, s, id))
  {
    hide Replay, Serial, Unreachable;
    assert TxInv(c, s, id);
    PrivateStep(c, s, AdvanceSwipe(c, s, id), id);
  }

  /** InsertMatch finds the row or writes one nobody else can see. */
  lemma SwipeMatchesInv(c: Config, s: State, id: TxId)
    requires Inv(c, s) && Enabled(c, s, Advance(id)) && s.txs[id].SwipeTx? && s.txs[id].pc.AtInsertMatch?
    ensures Inv(c, AdvanceSwipe(c, s, id))
  {
    hide Replay, Serial, Unreachable;
    assert TxInv(c, s, id);
    PrivateStep(c, s, AdvanceSwipe(c, s, id), id);
  }

  /** Enqueue writes an event nobody else can see. */
  lemma SwipeEnqueuesInv(c: Config, s: State, id: TxId)
    requires Inv(c, s) && Enabled(c, s, Advance(id)) && s.txs[id].SwipeTx? && s.txs[id].pc.AtEnqueue?
    ensures Inv(c, AdvanceSwipe(c, s, id))
  {
    hide Replay, Serial, Unreachable;
    assert TxInv(c, s, id);
    PrivateStep(c, s, AdvanceSwipe(c, s, id), id);
  }

  lemma SwipeInsertsInv(c: Config, s: State, id: TxId)
    requires Inv(c, s) && Enabled(c, s, Advance(id)) && s.txs[id].SwipeTx?
    requires s.txs[id].pc.AtInsert?
    ensures Inv(c, AdvanceSwipe(c, s, id))
  {
    hide Replay;
    var s' := AdvanceSwipe(c, s, id);
    var op := s.txs[id].op;
    assert TxInv(c, s, id);
    if (op.viewer, op.target) !in s.db.swipes && op.viewer !in c.users {
      SwipeResolves(c, s, id);
      ResolveStep(c, s, id, NotFound, NO_WRITES, PairOf(op));
    } else {
      PrivateStep(c, s, s', id);
    }
  }

  lemma SwipeCommitsInv(c: Config, s: State, id: TxId)
    requires Inv(c, s) && Enabled(c, s, Advance(id)) && s.txs[id].SwipeTx?
    requires s.txs[id].pc.AtCommit?
    ensures Inv(c, AdvanceSwipe(c, s, id))
  {
    var tx := s.txs[id];
    assert TxInv(c, s, id);
    SwipeResolves(c, s, id);
    ResolveStep(c, s, id, Swiped(tx.result), tx.writes, PairOf(tx.op));
  }

  /** Nobody swipes on themselves, so no entry touches a diagonal pair. */
  lemma NoSwipeOfSelf(log: seq<Entry>)
    requires forall i | 0 <= i < |log| :: WellFormed(log[i].op)
    ensures forall i | 0 <= i < |log| :: !Touches(log[i], (0, 0))
  {
  }

  lemma BlockWorksInv(c: Config, s: State, id: TxId)
    requires Inv(c, s) && Enabled(c, s, Advance(id)) && s.txs[id].BlockTx?
    requires !s.txs[id].bpc.AtCommitBlock?
    ensures Inv(c, AdvanceBlock(c, s, id))
  {
    hide Replay;
    var s' := AdvanceBlock(c, s, id);
    var tx := s.txs[id];
    var op := tx.op;
    assert TxInv(c, s, id);
    if tx.bpc.AtBlockExists? && op.blocked !in c.users {
      RecordStep(c, s, s', id, Entry(op, Done(NotFound)));
    } else if tx.bpc.AtInsertBlock? && (op.blocker, op.blocked) in s.db.blocks {
      assert s'.log[..|s.log|] == s.log;
      RecordStep(c, s, s', id, Entry(op, Open));
    } else if tx.bpc.AtInsertBlock? && op.blocker !in c.users {
      RecordStep(c, s, s', id, Entry(op, Done(Failed)));
    } else {
      PrivateStep(c, s, s', id);
    }
  }

  lemma BlockCommitsInv(c: Config, s: State, id: TxId)
    requires Inv(c, s) && Enabled(c, s, Advance(id)) && s.txs[id].BlockTx?
    requires s.txs[id].bpc.AtCommitBlock?
    ensures Inv(c, AdvanceBlock(c, s, id))
  {
    var s' := AdvanceBlock(c, s, id);
    var tx := s.txs[id];
    assert TxInv(c, s, id);
    if tx.created {
      RecordStep(c, s, s', id, Entry(tx.op, Done(BlockStored(true))));
    } else {
      NoSwipeOfSelf(s.log);
      ResolveStep(c, s, id, BlockStored(false), NO_WRITES, (0, 0));
    }
  }

  lemma StepKeepsInv(c: Config, s: State, step: Step)
    requires Inv(c, s) && Enabled(c, s, step)
    ensures Inv(c, Do(c, s, step))
  {
    var s' := Do(c, s, step);
    match step
    case BeginSwipe(id, _, _, _, _) =>
      PrivateStep(c, s, s', id);
    case BeginBlock(id, _, _) =>
      PrivateStep(c, s, s', id);
    case Advance(id) =>
      if s.txs[id].BlockTx? {
        if s.txs[id].bpc.AtCommitBlock? { BlockCommitsInv(c, s, id); } else { BlockWorksInv(c, s, id); }
      } else {
        match s.txs[id].pc
        case AtLock | AtExists => SwipeEntersInv(c, s, id);
        case AtBlocks => SwipeReadsBlocksInv(c, s, id);
        case AtInsert => SwipeInsertsInv(c, s, id);
        case AtCommit => SwipeCommitsInv(c, s, id);
        case AtGetSwipe | AtFindMatch => DuplicateReadsInv(c, s, id);
        case AtHasLiked => SwipeAsksInv(c, s, id);
        case AtInsertMatch => SwipeMatchesInv(c, s, id);
        case AtEnqueue => SwipeEnqueuesInv(c, s, id);
      }
    case Abort(id) =>
      AbortKeepsInv(c, s, id);
    case Unblock(id, a, b) =>
      RecordStep(c, s, s', id, Entry(UnblockOp(a, b), Done(BlockRemoved)));
  }
}
