/**
  queue.go's process as one worker executes it, alone and with every command succeeding.
 */
module QueueConsumer {
  import opened QueueProtocol

  function Acked(r: Redis, e: nat): Redis {
    var r' := Ack(r, e);
    r'.(attempts := r'.attempts - {e})
  }

  /** One delivery of entry e with event id `id`; `ok` is what the handler answers if it is called. */
  function Processed(maxAttempts: nat, r: Redis, e: nat, id: EventId, ok: bool): Redis {
    if id in r.done then Acked(r, e)
    else
      var n := Attempts(r, e) + 1;
      var counted := r.(attempts := r.attempts[e := n]);
      if ok then Acked(counted.(done := r.done + {id}), e)
      else if n >= maxAttempts then Acked(counted.(dead := r.dead + [Copy(e, id, n)]), e)
      else counted
  }

  class Consumer {
    var redis: Redis
    const maxAttempts: nat

    constructor (maxAttempts: nat)
      ensures this.maxAttempts == if maxAttempts == 0 then 5 else maxAttempts
      ensures redis == INIT.redis
    {
      this.maxAttempts := if maxAttempts == 0 then 5 else maxAttempts;
      redis := INIT.redis;
    }

    method AckEntry(e: nat)
      modifies this`redis
      ensures redis == Acked(old(redis), e)
      ensures redis == old(redis).(pending := old(redis).pending - {e},
                                   acked := old(redis).acked + (if e in old(redis).pending then {e} else {}),
                                   attempts := old(redis).attempts - {e})
    {
      if e in redis.pending {
        redis := redis.(pending := redis.pending - {e}, acked := redis.acked + {e});
      }
      redis := redis.(attempts := redis.attempts - {e});
    }

    method DeadLetter(e: nat, id: EventId, attempt: nat)
      modifies this`redis
      ensures redis == old(redis).(dead := old(redis).dead + [Copy(e, id, attempt)])
    {
      redis := redis.(dead := redis.dead + [Copy(e, id, attempt)]);
    }

    /**
      The handler is called unless the event id is already done.  The entry is acknowledged, and
      its counter dropped, once the event is done or this was its last attempt; a success is
      remembered, and a last failure leaves a copy.
     */
    method Process(e: nat, id: EventId, ok: bool) returns (called: bool)
      modifies this`redis
      ensures called == (id !in old(redis).done)
      ensures var was := old(redis);
              var n := (if e in was.attempts then was.attempts[e] else 0) + 1;
              var acked := !called || ok || maxAttempts <= n;
              && redis.pending == (if acked then was.pending - {e} else was.pending)
              && redis.acked == (if acked && e in was.pending then was.acked + {e} else was.acked)
              && redis.done == (if called && ok then was.done + {id} else was.done)
              && redis.attempts == (if acked then was.attempts - {e} else was.attempts[e := n])
              && redis.dead == (if called && !ok && maxAttempts <= n then was.dead + [Copy(e, id, n)] else was.dead)
      ensures redis == Processed(maxAttempts, old(redis), e, id, ok)
    {
      if id in redis.done {
        AckEntry(e);
        return false;
      }
      var attempt := (if e in redis.attempts then redis.attempts[e] else 0) + 1;
      redis := redis.(attempts := redis.attempts[e := attempt]);
      if !ok {
        if attempt >= maxAttempts {
          DeadLetter(e, id, attempt);
          AckEntry(e);
        }
        return true;
      }
      redis := redis.(done := redis.done + {id});
      AckEntry(e);
      return true;
    }
  }

  ghost predicate Only(steps: seq<Step>, step: Step) {
    forall k | 0 <= k < |steps| :: steps[k] == step
  }

  /** Steps of one worker, alone, that take the system from s to s'. */
  ghost predicate Alone(maxAttempts: nat, s: State, step: Step, s': State) {
    exists steps: seq<Step> ::
      IsRun(maxAttempts, s, steps) && Only(steps, step) && After(maxAttempts, s, steps) == s'
  }

  lemma AloneStep(maxAttempts: nat, s: State, step: Step, s': State)
    requires Enabled(s, step) && Alone(maxAttempts, Do(maxAttempts, s, step), step, s')
    ensures Alone(maxAttempts, s, step, s')
  {
    var rest :| IsRun(maxAttempts, Do(maxAttempts, s, step), rest) && Only(rest, step)
      && After(maxAttempts, Do(maxAttempts, s, step), rest) == s';
    Prepend(maxAttempts, s, step, rest);
    assert Only([step] + rest, step);
  }

  lemma AloneEnds(maxAttempts: nat, s: State, step: Step)
    ensures Alone(maxAttempts, s, step, s)
  {
    assert IsRun(maxAttempts, s, []) && Only([], step);
  }

  /** XACK and DEL, the two commands every completed delivery ends with. */
  lemma AckingAlone(maxAttempts: nat, s: State, t: TaskId, ok: bool)
    requires Enabled(s, Advance(t, ok)) && s.tasks[t].pc.AtAck?
    ensures Alone(maxAttempts, s, Advance(t, ok),
                  s.(redis := Acked(s.redis, s.tasks[t].entry), tasks := s.tasks - {t}))
  {
    var step := Advance(t, ok);
    var s1 := Do(maxAttempts, s, step);
    var s2 := Do(maxAttempts, s1, step);
    assert s2 == s.(redis := Acked(s.redis, s.tasks[t].entry), tasks := s.tasks - {t}) by {
      assert s2.tasks == s.tasks - {t};
    }
    AloneEnds(maxAttempts, s2, step);
    AloneStep(maxAttempts, s1, step, s2);
    AloneStep(maxAttempts, s, step, s2);
  }

  /** What a worker alone leaves behind when it is done with its entry. */
  ghost predicate Finishes(maxAttempts: nat, s: State, t: TaskId, ok: bool, redis: Redis, runs: seq<bool>)
    requires t in s.tasks && s.tasks[t].entry < |s.runs|
  {
    exists s' ::
      && Alone(maxAttempts, s, Advance(t, ok), s')
      && s'.redis == redis && s'.tasks == s.tasks - {t} && s'.runs == s.runs[s.tasks[t].entry := runs]
  }

  lemma FinishStep(maxAttempts: nat, s: State, t: TaskId, ok: bool, redis: Redis, runs: seq<bool>)
    requires Enabled(s, Advance(t, ok)) && t in Do(maxAttempts, s, Advance(t, ok)).tasks
    requires var s1 := Do(maxAttempts, s, Advance(t, ok));
             && s1.tasks[t].entry == s.tasks[t].entry < |s1.runs|
             && s1.tasks - {t} == s.tasks - {t}
             && s1.runs[s.tasks[t].entry := runs] == s.runs[s.tasks[t].entry := runs]
             && Finishes(maxAttempts, s1, t, ok, redis, runs)
    ensures Finishes(maxAttempts, s, t, ok, redis, runs)
  {
    hide Do, Enabled, Alone;
    var s1 := Do(maxAttempts, s, Advance(t, ok));
    var s' :| Alone(maxAttempts, s1, Advance(t, ok), s')
      && s'.redis == redis && s'.tasks == s1.tasks - {t} && s'.runs == s1.runs[s1.tasks[t].entry := runs];
    AloneStep(maxAttempts, s, Advance(t, ok), s');
  }

  lemma AckFinishes(maxAttempts: nat, s: State, t: TaskId, ok: bool)
    requires Enabled(s, Advance(t, ok)) && s.tasks[t].pc.AtAck?
    ensures Finishes(maxAttempts, s, t, ok, Acked(s.redis, s.tasks[t].entry), s.runs[s.tasks[t].entry])
  {
    hide Alone, Acked;
    AckingAlone(maxAttempts, s, t, ok);
    var e := s.tasks[t].entry;
    assert s.runs[e := s.runs[e]] == s.runs;
  }

  lemma HandlerFinishes(maxAttempts: nat, s: State, t: TaskId, ok: bool)
    requires Enabled(s, Advance(t, ok)) && s.tasks[t].pc.AtHandler?
    ensures var e, n := s.tasks[t].entry, s.tasks[t].pc.attempt;
            Finishes(maxAttempts, s, t, ok,
                     if ok then Acked(s.redis.(done := s.redis.done + {s.events[e]}), e)
                     else if n >= maxAttempts then Acked(s.redis.(dead := s.redis.dead + [Copy(e, s.events[e], n)]), e)
                     else s.redis,
                     s.runs[e] + [ok])
  {
    hide Alone, Acked, Finishes;
    var step := Advance(t, ok);
    var e, n := s.tasks[t].entry, s.tasks[t].pc.attempt;
    var s1 := Do(maxAttempts, s, step);
    if t in s1.tasks {
      var s2 := Do(maxAttempts, s1, step);
      AckFinishes(maxAttempts, s2, t, ok);
      FinishStep(maxAttempts, s1, t, ok, Acked(s2.redis, e), s.runs[e] + [ok]);
      FinishStep(maxAttempts, s, t, ok, Acked(s2.redis, e), s.runs[e] + [ok]);
    } else {
      GivenUp(maxAttempts, s, t);
    }
  }

  lemma GivenUp(maxAttempts: nat, s: State, t: TaskId)
    requires Enabled(s, Advance(t, false)) && s.tasks[t].pc.AtHandler? && s.tasks[t].pc.attempt < maxAttempts
    ensures Finishes(maxAttempts, s, t, false, s.redis, s.runs[s.tasks[t].entry] + [false])
  {
    var s1 := Do(maxAttempts, s, Advance(t, false));
    AloneEnds(maxAttempts, s1, Advance(t, false));
    AloneStep(maxAttempts, s, Advance(t, false), s1);
  }

  /**
    A worker left alone with a delivery does in the protocol exactly what Process does to
    Redis, and calls the handler exactly when Process says it does.
   */
  lemma ProcessIsAWorkerAlone(maxAttempts: nat, s: State, t: TaskId, ok: bool)
    requires Enabled(s, Advance(t, ok)) && s.tasks[t].pc.AtExists?
    ensures var e := s.tasks[t].entry;
            Finishes(maxAttempts, s, t, ok,
                     Processed(maxAttempts, s.redis, e, s.events[e], ok),
                     if s.events[e] in s.redis.done then s.runs[e] else s.runs[e] + [ok])
  {
    hide Alone, Acked, Finishes;
    var step := Advance(t, ok);
    var e := s.tasks[t].entry;
    var s1 := Do(maxAttempts, s, step);
    if s.events[e] in s.redis.done {
      AckFinishes(maxAttempts, s1, t, ok);
      FinishStep(maxAttempts, s, t, ok, Acked(s.redis, e), s.runs[e]);
    } else {
      var s2 := Do(maxAttempts, s1, step);
      HandlerFinishes(maxAttempts, s2, t, ok);
      var redis := Processed(maxAttempts, s.redis, e, s.events[e], ok);
      FinishStep(maxAttempts, s1, t, ok, redis, s.runs[e] + [ok]);
      FinishStep(maxAttempts, s, t, ok, redis, s.runs[e] + [ok]);
    }
  }
}
