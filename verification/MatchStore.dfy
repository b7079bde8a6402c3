/**
  matching/service.go and matching/repo.go as they run: tables updated in place, one
  method a statement, and Swipe and Block as transactions that roll back on error.
 */
module MatchStore {
  import opened Wrappers
  import opened MatchTables

  class Store {
    var swipes: map<Pair, Action>
    var matches: map<Pair, MatchId>
    var blocks: set<Pair>
    var outbox: multiset<Event>
    const users: set<User>

    constructor (users: set<User>)
      ensures View() == EMPTY && this.users == users
    {
      this.users := users;
      swipes, matches, blocks, outbox := map[], map[], {}, multiset{};
    }

    ghost function View(): Tables
      reads this
    {
      Tables(swipes, matches, blocks, outbox)
    }

    /** assertReachable: user first, then the viewer's own block, then the target's. */
    method AssertReachable(viewer: User, target: User) returns (refused: Option<Reply>)
      ensures refused.None? <==> target in users && !BlockedEitherWay(View(), viewer, target)
      ensures refused == Some(BlockedByYou) <==> target in users && (viewer, target) in blocks
      ensures refused in {None, Some(BlockedByYou), Some(NotFound)}
    {
      if target !in users {
        return Some(NotFound);
      }
      var viewerBlocked, blockedByTarget := (viewer, target) in blocks, (target, viewer) in blocks;
      if viewerBlocked {
        return Some(BlockedByYou);
      }
      if blockedByTarget {
        return Some(NotFound);
      }
      return None;
    }

    /** INSERT .. ON CONFLICT DO NOTHING RETURNING id. */
    method InsertSwipe(from: User, to: User, action: Action) returns (inserted: bool, foreignKey: bool)
      modifies this`swipes
      ensures inserted ==> (from, to) !in old(swipes) && swipes == old(swipes)[(from, to) := action]
      ensures !inserted ==> swipes == old(swipes)
      ensures foreignKey <==> (from, to) !in old(swipes) && (from !in users || to !in users)
      ensures inserted <==> (from, to) !in old(swipes) && !foreignKey
    {
      if (from, to) in swipes {
        return false, false;
      }
      if from !in users || to !in users {
        return false, true;
      }
      swipes := swipes[(from, to) := action];
      return true, false;
    }

    method InsertMatch(a: User, b: User, newId: MatchId) returns (id: MatchId, created: bool)
      modifies this`matches
      ensures created <==> OrderPair(a, b) !in old(matches)
      ensures matches == if created then old(matches)[OrderPair(a, b) := newId] else old(matches)
      ensures OrderPair(a, b) in matches && id == matches[OrderPair(a, b)]
    {
      var p := OrderPair(a, b);
      if p !in matches {
        matches := matches[p := newId];
        return newId, true;
      }
      return matches[p], false;
    }

    /**
      Swipe.  `commitFails` stands for any error the database raises before the commit is
      acknowledged as done: InTx then rolls everything back.
     */
    method Swipe(viewer: User, target: User, action: Action, newId: MatchId, commitFails: bool)
      returns (reply: Option<Reply>)
      requires viewer != target
      modifies this
      ensures commitFails ==> reply.None? && View() == old(View())
      ensures !commitFails ==>
                reply.Some? && (View(), reply.value)
                               == Serial(users, old(View()), SwipeOp(viewer, target, action, newId))
    {
      var swipes0, matches0, outbox0 := swipes, matches, outbox;
      var answer := SwipeBody(viewer, target, action, newId);
      if commitFails || !answer.Swiped? {
        swipes, matches, outbox := swipes0, matches0, outbox0;
      }
      reply := if commitFails then None else Some(answer);
    }

    /** The function Swipe hands to InTx; a rejected swipe has written nothing. */
    method SwipeBody(viewer: User, target: User, action: Action, newId: MatchId) returns (reply: Reply)
      requires viewer != target
      modifies this
      ensures blocks == old(blocks)
      ensures (View(), reply) == Serial(users, old(View()), SwipeOp(viewer, target, action, newId))
      ensures !reply.Swiped? ==> View() == old(View())
    {
      var refused := AssertReachable(viewer, target);
      if refused.Some? {
        return refused.value;
      }
      var result := SwipeResult(action, false, None, false);
      var inserted, foreignKey := InsertSwipe(viewer, target, action);
      if foreignKey {
        return NotFound;
      }
      var p := OrderPair(viewer, target);
      if !inserted {
        result := result.(duplicate := true, action := swipes[(viewer, target)]);
        if p in matches {
          result := result.(matched := true, matchId := Some(matches[p]));
        }
        return Swiped(result);
      }
      if action != Like {
        return Swiped(result);
      }
      var reciprocated := (target, viewer) in swipes && swipes[(target, viewer)] == Like;
      if !reciprocated {
        return Swiped(result);
      }
      var id, created := InsertMatch(viewer, target, newId);
      result := result.(matched := true, matchId := Some(id));
      if created {
        outbox := outbox + multiset{MatchCreated(id, p.0, p.1)};
      }
      return Swiped(result);
    }

    method Block(blocker: User, blocked: User, commitFails: bool) returns (reply: Option<Reply>)
      requires blocker != blocked
      modifies this
      ensures commitFails ==> reply.None? && View() == old(View())
      ensures !commitFails ==>
                reply.Some? && (View(), reply.value) == Serial(users, old(View()), BlockOp(blocker, blocked))
    {
      var blocks0, outbox0 := blocks, outbox;
      var answer := BlockBody(blocker, blocked);
      if commitFails || !answer.BlockStored? {
        blocks, outbox := blocks0, outbox0;
      }
      reply := if commitFails then None else Some(answer);
    }

    /** The function Block hands to InTx. */
    method BlockBody(blocker: User, blocked: User) returns (reply: Reply)
      requires blocker != blocked
      modifies this
      ensures swipes == old(swipes) && matches == old(matches)
      ensures (View(), reply) == Serial(users, old(View()), BlockOp(blocker, blocked))
      ensures !reply.BlockStored? ==> View() == old(View())
    {
      if blocked !in users {
        return NotFound;
      }
      if (blocker, blocked) in blocks {
        return BlockStored(false);
      }
      if blocker !in users {
        return Failed;
      }
      blocks := blocks + {(blocker, blocked)};
      outbox := outbox + multiset{UserBlocked(blocker, blocked)};
      return BlockStored(true);
    }

    method Unblock(blocker: User, blocked: User)
      modifies this`blocks
      ensures View() == Serial(users, old(View()), UnblockOp(blocker, blocked)).0
      ensures blocks == old(blocks) - {(blocker, blocked)}
    {
      blocks := blocks - {(blocker, blocked)};
    }
  }

  /** After an answered swipe the tables hold exactly the decision and the match the answer names. */
  lemma FirstAnswerIsRecorded(users: set<User>, t: Tables, v: User, w: User, a: Action, id: MatchId)
    requires MutualMatches(t) && v != w
    requires Serial(users, t, SwipeOp(v, w, a, id)).1.Swiped?
    ensures var (t', r) := Serial(users, t, SwipeOp(v, w, a, id));
            var p := OrderPair(v, w);
            && w in users && (v, w) !in t'.blocks && (w, v) !in t'.blocks
            && (v, w) in t'.swipes && t'.swipes[(v, w)] == r.result.action
            && (p in t'.matches <==> r.result.matched)
            && r.result.matchId == (if p in t'.matches then Some(t'.matches[p]) else None)
  {
    var p := OrderPair(v, w);
    assert (Liked(t, p.0, p.1) && Liked(t, p.1, p.0)) <==> p in t.matches;
  }

  /** Asking twice gives the same recorded decision: the second call answers, marks itself a duplicate and writes nothing. */
  lemma SwipeIsIdempotent(users: set<User>, t: Tables, v: User, w: User, a1: Action, id1: MatchId, a2: Action, id2: MatchId)
    requires MutualMatches(t) && v != w
    requires Serial(users, t, SwipeOp(v, w, a1, id1)).1.Swiped?
    ensures var once := Serial(users, t, SwipeOp(v, w, a1, id1));
            var twice := Serial(users, once.0, SwipeOp(v, w, a2, id2));
            && twice.0 == once.0
            && twice.1 == Swiped(once.1.result.(duplicate := true))
  {
    var once := Serial(users, t, SwipeOp(v, w, a1, id1)).0;
    FirstAnswerIsRecorded(users, t, v, w, a1, id1);
  }

  /** Whoever likes second makes the match, whichever side it is, and the row is the same. */
  lemma SecondLikeMatches(users: set<User>, t: Tables, a: User, b: User, id1: MatchId, id2: MatchId)
    requires MutualMatches(t) && a != b && a in users && b in users && !BlockedEitherWay(t, a, b)
    requires (a, b) !in t.swipes && (b, a) !in t.swipes
    ensures var t1 := Serial(users, t, SwipeOp(a, b, Like, id1)).0;
            var (t2, r) := Serial(users, t1, SwipeOp(b, a, Like, id2));
            && OrderPair(a, b) !in t1.matches
            && r == Swiped(SwipeResult(Like, true, Some(id2), false))
            && t2.matches == t.matches[OrderPair(a, b) := id2]
            && t2.outbox == t.outbox + multiset{MatchCreated(id2, OrderPair(a, b).0, OrderPair(a, b).1)}
  {
    var p := OrderPair(a, b);
    assert (Liked(t, p.0, p.1) && Liked(t, p.1, p.0)) <==> p in t.matches;
    var t1 := Serial(users, t, SwipeOp(a, b, Like, id1)).0;
    assert t1.matches == t.matches && t1.outbox == t.outbox;
  }
}
