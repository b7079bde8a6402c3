/**
  The committed tables of the matching domain and what one whole call means when
  nothing else runs: the reference the transaction interleavings are compared with.
 */
module MatchTables {
  import opened Wrappers

  // A UUID read as its big-endian number (see module Uuid).
  type User = nat
  type MatchId = nat
  type Pair = (User, User)

  datatype Action = Like | Pass

  datatype Event =
    | MatchCreated(matchId: MatchId, userA: User, userB: User)
    | UserBlocked(blocker: User, blocked: User)

  /** swipes and matches carry their unique constraint as the map key. */
  datatype Tables = Tables(
    swipes: map<Pair, Action>,
    matches: map<Pair, MatchId>,
    blocks: set<Pair>,
    outbox: multiset<Event>)

  const EMPTY := Tables(map[], map[], {}, multiset{})

  datatype SwipeResult = SwipeResult(action: Action, matched: bool, matchId: Option<MatchId>, duplicate: bool)

  datatype Reply =
    | Swiped(result: SwipeResult)
    | BlockedByYou
    | NotFound
    | BlockStored(created: bool)
    | BlockRemoved
    | Failed

  function OrderPair(a: User, b: User): (p: Pair) {
    if a < b then (a, b) else (b, a)
  }

  predicate Liked(t: Tables, from: User, to: User) {
    (from, to) in t.swipes && t.swipes[(from, to)] == Like
  }

  predicate BlockedEitherWay(t: Tables, a: User, b: User) {
    (a, b) in t.blocks || (b, a) in t.blocks
  }

  /** One whole call of the service; `newId` is the id the database would mint for a match. */
  datatype Op =
    | SwipeOp(viewer: User, target: User, action: Action, newId: MatchId)
    | BlockOp(blocker: User, blocked: User)
    | UnblockOp(blocker: User, blocked: User)

  function PairOf(op: Op): Pair
    requires op.SwipeOp?
  {
    OrderPair(op.viewer, op.target)
  }

  /** assertReachable: why a swipe is refused before it touches anything. */
  function Unreachable(users: set<User>, t: Tables, viewer: User, target: User): Option<Reply> {
    if target !in users then Some(NotFound)
    else if (viewer, target) in t.blocks then Some(BlockedByYou)
    else if (target, viewer) in t.blocks then Some(NotFound)
    else None
  }

  /** The writes of one swipe, and nothing else: at most one row per table. */
  datatype Writes = Writes(swipe: Option<(Pair, Action)>, match_: Option<(Pair, MatchId)>, event: Option<Event>)

  const NO_WRITES := Writes(None, None, None)

  function Put<K, V>(m: map<K, V>, row: Option<(K, V)>): map<K, V> {
    if row.Some? then m[row.value.0 := row.value.1] else m
  }

  function Emit(outbox: multiset<Event>, e: Option<Event>): multiset<Event> {
    if e.Some? then outbox + multiset{e.value} else outbox
  }

  function Apply(t: Tables, w: Writes): Tables {
    Tables(Put(t.swipes, w.swipe), Put(t.matches, w.match_), t.blocks, Emit(t.outbox, w.event))
  }

  /** What a reachable swipe writes and answers. */
  function Decide(users: set<User>, t: Tables, viewer: User, target: User, action: Action, newId: MatchId)
    : (Writes, Reply)
  {
    var p := OrderPair(viewer, target);
    if (viewer, target) in t.swipes then
      (NO_WRITES, Swiped(SwipeResult(t.swipes[(viewer, target)], p in t.matches,
                                     if p in t.matches then Some(t.matches[p]) else None, true)))
    else if viewer !in users then
      (NO_WRITES, NotFound)
    else
      var swipe := Some(((viewer, target), action));
      if action != Like || !Liked(t, target, viewer) then
        (Writes(swipe, None, None), Swiped(SwipeResult(action, false, None, false)))
      else if p in t.matches then
        (Writes(swipe, None, None), Swiped(SwipeResult(action, true, Some(t.matches[p]), false)))
      else
        (Writes(swipe, Some((p, newId)), Some(MatchCreated(newId, p.0, p.1))),
         Swiped(SwipeResult(action, true, Some(newId), false)))
  }

  /** One whole call, run alone. */
  function Serial(users: set<User>, t: Tables, op: Op): (Tables, Reply) {
    match op
    case SwipeOp(v, w, action, newId) =>
      var refused := Unreachable(users, t, v, w);
      if refused.Some? then (t, refused.value)
      else
        var d := Decide(users, t, v, w, action, newId);
        (Apply(t, d.0), d.1)
    case BlockOp(a, b) =>
      if b !in users then (t, NotFound)
      else if (a, b) in t.blocks then (t, BlockStored(false))
      else if a !in users then (t, Failed)
      else (t.(blocks := t.blocks + {(a, b)}, outbox := t.outbox + multiset{UserBlocked(a, b)}), BlockStored(true))
    case UnblockOp(a, b) =>
      (t.(blocks := t.blocks - {(a, b)}), BlockRemoved)
  }

  // ---- Who is refused, and what stays when nobody is ----

  /**
    A swipe is recorded only where no block stands in either direction.  The block one made
    oneself is admitted to; the other side's, like a missing user, is not, and a refusal
    leaves every table alone.
   */
  lemma NobodySwipesAcrossABlock(users: set<User>, t: Tables, v: User, w: User, action: Action, id: MatchId)
    ensures var (t', r) := Serial(users, t, SwipeOp(v, w, action, id));
      && (r == BlockedByYou <==> w in users && (v, w) in t.blocks)
      && ((w, v) in t.blocks && (v, w) !in t.blocks ==> r == NotFound)
      && (r.Swiped? <==> w in users && (v, w) !in t.blocks && (w, v) !in t.blocks && (v in users || (v, w) in t.swipes))
      && (!r.Swiped? ==> (r == BlockedByYou || r == NotFound) && t' == t)
  {
  }

  /** The first decision of a direction is recorded as it was made; nothing else about swipes or blocks changes. */
  lemma FirstDecisionIsKept(users: set<User>, t: Tables, v: User, w: User, action: Action, id: MatchId)
    requires Serial(users, t, SwipeOp(v, w, action, id)).1.Swiped?
    ensures var (t', r) := Serial(users, t, SwipeOp(v, w, action, id));
      && t'.blocks == t.blocks
      && (r.result.duplicate <==> (v, w) in t.swipes)
      && (v, w) in t'.swipes && r.result.action == t'.swipes[(v, w)]
      && t'.swipes[(v, w)] == (if (v, w) in t.swipes then t.swipes[(v, w)] else action)
      && forall p | p != (v, w) :: (p in t'.swipes <==> p in t.swipes) && (p in t.swipes ==> t'.swipes[p] == t.swipes[p])
  {
  }

  /**
    A stored block parts the two: the blocker is told of it, the other side finds nobody.
    It is the blocker's alone, tells its event once, and touches no swipe or match.
   */
  lemma BlockParts(users: set<User>, t: Tables, a: User, b: User, x: Action, y: Action, i: MatchId, j: MatchId)
    requires a != b && Serial(users, t, BlockOp(a, b)).1.BlockStored?
    ensures var (t', r) := Serial(users, t, BlockOp(a, b));
      && t'.swipes == t.swipes && t'.matches == t.matches
      && (forall p :: p in t'.blocks <==> p in t.blocks || p == (a, b))
      && (r.created <==> (a, b) !in t.blocks)
      && t'.outbox == t.outbox + (if (a, b) in t.blocks then multiset{} else multiset{UserBlocked(a, b)})
      && Serial(users, t', SwipeOp(a, b, x, i)) == (t', BlockedByYou)
      && ((b, a) !in t.blocks ==> Serial(users, t', SwipeOp(b, a, y, j)) == (t', NotFound))
  {
  }

  /** Who may not block: nobody blocks a user who is not there, and the refusal leaves nothing. */
  lemma BlockIsRefusedIffAbsent(users: set<User>, t: Tables, a: User, b: User)
    ensures var (t', r) := Serial(users, t, BlockOp(a, b));
      && (r == NotFound <==> b !in users)
      && (r.BlockStored? <==> b in users && ((a, b) in t.blocks || a in users))
      && (!r.BlockStored? ==> (r == NotFound || r == Failed) && t' == t)
  {
  }

  /** An unblock undoes a new block, but not its event; the other side's block it does not reach. */
  lemma UnblockUndoes(users: set<User>, t: Tables, a: User, b: User)
    requires (a, b) !in t.blocks && a != b && Serial(users, t, BlockOp(a, b)).1.BlockStored?
    ensures var t1 := Serial(users, t, BlockOp(a, b)).0;
      var (t2, r) := Serial(users, t1, UnblockOp(a, b));
      && r == BlockRemoved
      && t2 == t.(outbox := t.outbox + multiset{UserBlocked(a, b)})
      && Serial(users, t1, UnblockOp(b, a)).0.blocks == (t.blocks - {(b, a)}) + {(a, b)}
  {
    var t1 := Serial(users, t, BlockOp(a, b)).0;
    assert (t.blocks + {(a, b)}) - {(a, b)} == t.blocks;
    assert (t.blocks + {(a, b)}) - {(b, a)} == (t.blocks - {(b, a)}) + {(a, b)};
  }

  ghost predicate WellFormed(op: Op) {
    match op
    case SwipeOp(v, w, _, _) => v != w
    case BlockOp(a, b) => a != b
    case UnblockOp(_, _) => true
  }

  /** A match row exists for exactly the pairs that like each other, with one event per row. */
  ghost predicate MutualMatches(t: Tables) {
    && (forall a: User, b: User | a < b :: (Liked(t, a, b) && Liked(t, b, a)) <==> (a, b) in t.matches)
    && (forall p | p in t.matches :: p.0 < p.1)
    && (forall id, a, b :: t.outbox[MatchCreated(id, a, b)]
                           == if (a, b) in t.matches && t.matches[(a, b)] == id then 1 else 0)
  }

  lemma SwipeKeepsMatchIffLikes(users: set<User>, t: Tables, op: Op)
    requires MutualMatches(t) && WellFormed(op) && op.SwipeOp?
    ensures var t' := Serial(users, t, op).0;
            && (forall a: User, b: User | a < b :: (Liked(t', a, b) && Liked(t', b, a)) <==> (a, b) in t'.matches)
            && (forall p | p in t'.matches :: p.0 < p.1)
  {
    var SwipeOp(v, w, action, newId) := op;
    var (t', reply) := Serial(users, t, op);
    var p := OrderPair(v, w);
    assert (Liked(t, p.0, p.1) && Liked(t, p.1, p.0)) <==> p in t.matches;
    if reply.Swiped? && !reply.result.duplicate {
      assert t'.matches == t.matches || t'.matches == t.matches[p := newId];
      forall a: User, b: User | a < b
        ensures (Liked(t', a, b) && Liked(t', b, a)) <==> (a, b) in t'.matches
      {
        assert (Liked(t, a, b) && Liked(t, b, a)) <==> (a, b) in t.matches;
        if (a, b) != p {
          assert Liked(t', a, b) == Liked(t, a, b) && Liked(t', b, a) == Liked(t, b, a);
        }
      }
    }
  }

  /** The event count follows the match rows: one new event exactly with one new row. */
  lemma SwipeEmitsOneEvent(users: set<User>, t: Tables, op: Op)
    requires MutualMatches(t) && WellFormed(op) && op.SwipeOp?
    ensures var t' := Serial(users, t, op).0;
            forall id, a, b :: t'.outbox[MatchCreated(id, a, b)]
                               == if (a, b) in t'.matches && t'.matches[(a, b)] == id then 1 else 0
  {
    var t' := Serial(users, t, op).0;
    var p := PairOf(op);
    var e := MatchCreated(op.newId, p.0, p.1);
    assert (t'.matches == t.matches && t'.outbox == t.outbox)
        || (p !in t.matches && t'.matches == t.matches[p := op.newId] && t'.outbox == t.outbox + multiset{e});
  }

  lemma SerialKeepsMutualMatches(users: set<User>, t: Tables, op: Op)
    requires MutualMatches(t) && WellFormed(op)
    ensures MutualMatches(Serial(users, t, op).0)
  {
    if op.SwipeOp? {
      SwipeKeepsMatchIffLikes(users, t, op);
      SwipeEmitsOneEvent(users, t, op);
    } else {
      var t' := Serial(users, t, op).0;
      assert t'.swipes == t.swipes && t'.matches == t.matches;
      assert forall id, a, b :: t'.outbox[MatchCreated(id, a, b)] == t.outbox[MatchCreated(id, a, b)];
      assert forall a, b :: Liked(t', a, b) == Liked(t, a, b);
    }
  }
}
