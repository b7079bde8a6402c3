/**
  The consumer side of a Redis stream: any number of workers, one Redis command a step.
  A worker may crash between any two commands, a command may fail, a pending entry may be
  reclaimed while its worker is still busy, and the dedupe and attempts keys may expire.
 */
module QueueProtocol {

  type EventId = nat
  type TaskId = nat

  /** A dead-letter copy of stream entry `entry`. */
  datatype Copy = Copy(entry: nat, id: EventId, attempt: nat)

  /** What Redis holds for one consumer group; an entry is named by its stream position. */
  datatype Redis = Redis(
    pending: set<nat>,
    acked: set<nat>,
    done: set<EventId>,
    attempts: map<nat, nat>,
    dead: seq<Copy>)

  function Attempts(r: Redis, e: nat): nat {
    if e in r.attempts then r.attempts[e] else 0
  }

  /** XACK removes the entry from the pending list, if it is there. */
  function Ack(r: Redis, e: nat): Redis {
    if e in r.pending then r.(pending := r.pending - {e}, acked := r.acked + {e}) else r
  }

  /** The command a worker executes next; `AtHandler` is the handler call itself. */
  datatype Pc =
    | AtExists | AtIncr
    | AtHandler(attempt: nat)
    | AtDead(attempt: nat)
    | AtSetDone
    | AtAck | AtDel

  datatype Task = Task(entry: nat, pc: Pc)

  /**
    `runs[e]` lists the results of the handler calls for entry e, `handled` the event ids
    whose handler has returned nil, `lost` the entries whose dead-letter write failed.
   */
  datatype State = State(
    events: seq<EventId>,
    delivered: nat,
    redis: Redis,
    tasks: map<TaskId, Task>,
    runs: seq<seq<bool>>,
    handled: set<EventId>,
    lost: set<nat>)

  const INIT := State([], 0, Redis({}, {}, {}, map[], []), map[], [], {}, {})

  datatype Step =
    | Publish(id: EventId)
    | Deliver(t: TaskId)
    | Reclaim(t: TaskId, entry: nat)
    | Advance(t: TaskId, ok: bool)
    | Fault(t: TaskId)
    | LoseDeadLetter(t: TaskId)
    | Crash(t: TaskId)
    | ExpireDone(id: EventId)
    | ExpireAttempts(entry: nat)

  ghost predicate Enabled(s: State, step: Step) {
    match step
    case Publish(_) => true
    case Deliver(t) => t !in s.tasks && s.delivered < |s.events|
    case Reclaim(t, e) => t !in s.tasks && e in s.redis.pending
    case Advance(t, _) => t in s.tasks && s.tasks[t].entry < |s.events| == |s.runs|
    case Fault(t) => t in s.tasks && !s.tasks[t].pc.AtHandler? && !s.tasks[t].pc.AtDead?
    case LoseDeadLetter(t) => t in s.tasks && s.tasks[t].pc.AtDead?
    case Crash(t) => t in s.tasks
    case ExpireDone(_) => true
    case ExpireAttempts(_) => true
  }

  function Next(s: State, t: TaskId, pc: Pc): State
    requires t in s.tasks
  {
    s.(tasks := s.tasks[t := s.tasks[t].(pc := pc)])
  }

  function Drop(s: State, t: TaskId): State {
    s.(tasks := s.tasks - {t})
  }

  function Proceed(maxAttempts: nat, s: State, t: TaskId, ok: bool): State
    requires t in s.tasks && s.tasks[t].entry < |s.events| == |s.runs|
  {
    var e := s.tasks[t].entry;
    var id := s.events[e];
    match s.tasks[t].pc
    case AtExists =>
      Next(s, t, if id in s.redis.done then AtAck else AtIncr)
    case AtIncr =>
      var n := Attempts(s.redis, e) + 1;
      Next(s, t, AtHandler(n)).(redis := s.redis.(attempts := s.redis.attempts[e := n]))
    case AtHandler(n) =>
      var s' := s.(runs := s.runs[e := s.runs[e] + [ok]]);
      if ok then Next(s', t, AtSetDone).(handled := s.handled + {id})
      else if n >= maxAttempts then Next(s', t, AtDead(n))
      else Drop(s', t)
    case AtDead(n) =>
      Next(s, t, AtAck).(redis := s.redis.(dead := s.redis.dead + [Copy(e, id, n)]))
    case AtSetDone =>
      Next(s, t, AtAck).(redis := s.redis.(done := s.redis.done + {id}))
    case AtAck =>
      Next(s, t, AtDel).(redis := Ack(s.redis, e))
    case AtDel =>
      Drop(s, t).(redis := s.redis.(attempts := s.redis.attempts - {e}))
  }

  /** A failed command changes nothing in Redis; the worker carries on as process does. */
  function CarryOn(s: State, t: TaskId): State
    requires t in s.tasks && !s.tasks[t].pc.AtHandler? && !s.tasks[t].pc.AtDead?
  {
    match s.tasks[t].pc
    case AtExists => Next(s, t, AtIncr)
    case AtIncr => Next(s, t, AtHandler(0))
    case AtSetDone => Next(s, t, AtAck)
    case AtAck => Next(s, t, AtDel)
    case AtDel => Drop(s, t)
  }

  function Do(maxAttempts: nat, s: State, step: Step): State
    requires Enabled(s, step)
  {
    match step
    case Publish(id) => s.(events := s.events + [id], runs := s.runs + [[]])
    case Deliver(t) =>
      s.(delivered := s.delivered + 1,
         redis := s.redis.(pending := s.redis.pending + {s.delivered}),
         tasks := s.tasks[t := Task(s.delivered, AtExists)])
    case Reclaim(t, e) => s.(tasks := s.tasks[t := Task(e, AtExists)])
    case Advance(t, ok) => Proceed(maxAttempts, s, t, ok)
    case Fault(t) => CarryOn(s, t)
    case LoseDeadLetter(t) => Next(s, t, AtAck).(lost := s.lost + {s.tasks[t].entry})
    case Crash(t) => Drop(s, t)
    case ExpireDone(id) => s.(redis := s.redis.(done := s.redis.done - {id}))
    case ExpireAttempts(e) => s.(redis := s.redis.(attempts := s.redis.attempts - {e}))
  }

  ghost predicate IsRun(maxAttempts: nat, s: State, steps: seq<Step>)
    decreases |steps|
  {
    steps != [] ==> Enabled(s, steps[0]) && IsRun(maxAttempts, Do(maxAttempts, s, steps[0]), steps[1..])
  }

  ghost function After(maxAttempts: nat, s: State, steps: seq<Step>): State
    requires IsRun(maxAttempts, s, steps)
    decreases |steps|
  {
    if steps == [] then s else After(maxAttempts, Do(maxAttempts, s, steps[0]), steps[1..])
  }

  // ---- Nothing is acknowledged before it is dealt with ----

  ghost predicate HasCopy(s: State, e: nat) {
    exists k :: 0 <= k < |s.redis.dead| && s.redis.dead[k].entry == e
  }

  ghost predicate Settled(s: State, e: nat)
    requires e < |s.events|
  {
    s.events[e] in s.handled || HasCopy(s, e) || e in s.lost
  }

  ghost predicate TaskInv(s: State, t: TaskId)
    requires t in s.tasks
  {
    var Task(e, pc) := s.tasks[t];
    && e < s.delivered <= |s.events|
    && (pc.AtSetDone? ==> s.events[e] in s.handled)
    && (pc.AtAck? || pc.AtDel? ==> Settled(s, e))
  }

  ghost predicate Inv(s: State) {
    && |s.runs| == |s.events| && s.delivered <= |s.events|
    && s.redis.done <= s.handled
    && (forall e :: e in s.redis.pending || e in s.redis.acked <==> 0 <= e < s.delivered)
    && s.redis.pending !! s.redis.acked
    && (forall e | e in s.redis.acked :: e < s.delivered && Settled(s, e))
    && (forall t | t in s.tasks :: TaskInv(s, t))
    && (forall k | 0 <= k < |s.redis.dead| ::
          s.redis.dead[k].entry < |s.events| && s.redis.dead[k].id == s.events[s.redis.dead[k].entry])
  }

  /** Every step leaves what is settled settled. */
  lemma SettledStays(maxAttempts: nat, s: State, step: Step, e: nat)
    requires Inv(s) && Enabled(s, step) && e < |s.events| && Settled(s, e)
    ensures e < |Do(maxAttempts, s, step).events| && Settled(Do(maxAttempts, s, step), e)
  {
    var s' := Do(maxAttempts, s, step);
    assert s'.events[e] == s.events[e];
    if HasCopy(s, e) {
      var k :| 0 <= k < |s.redis.dead| && s.redis.dead[k].entry == e;
      assert s'.redis.dead[k] == s.redis.dead[k];
    }
  }

  /** The step itself settles its entry before its worker reaches the acknowledgement. */
  lemma ActorKeepsInv(maxAttempts: nat, s: State, step: Step, t: TaskId)
    requires Inv(s) && Enabled(s, step)
    requires step.Advance? || step.LoseDeadLetter? || step.Fault?
    requires t == step.t && t in Do(maxAttempts, s, step).tasks
    ensures TaskInv(Do(maxAttempts, s, step), t)
  {
    assert TaskInv(s, t);
    var s' := Do(maxAttempts, s, step);
    if s.tasks[t].pc.AtDead? && step.Advance? {
      assert s'.redis.dead[|s.redis.dead|].entry == s.tasks[t].entry;
    } else if s.tasks[t].pc.AtAck? {
      SettledStays(maxAttempts, s, step, s.tasks[t].entry);
    }
  }

  lemma TasksKeepInv(maxAttempts: nat, s: State, step: Step, t: TaskId)
    requires Inv(s) && Enabled(s, step) && t in Do(maxAttempts, s, step).tasks
    ensures TaskInv(Do(maxAttempts, s, step), t)
  {
    if (step.Advance? || step.LoseDeadLetter? || step.Fault?) && t == step.t {
      ActorKeepsInv(maxAttempts, s, step, t);
    } else if t in s.tasks {
      assert TaskInv(s, t);
      if Settled(s, s.tasks[t].entry) {
        SettledStays(maxAttempts, s, step, s.tasks[t].entry);
      }
    }
  }

  lemma AckedKeepInv(maxAttempts: nat, s: State, step: Step, e: nat)
    requires Inv(s) && Enabled(s, step) && e in Do(maxAttempts, s, step).redis.acked
    ensures e < |s.events| && Settled(Do(maxAttempts, s, step), e)
  {
    hide HasCopy;
    if e !in s.redis.acked {
      assert TaskInv(s, step.t);
    }
    SettledStays(maxAttempts, s, step, e);
  }

  lemma StepKeepsInv(maxAttempts: nat, s: State, step: Step)
    requires Inv(s) && Enabled(s, step)
    ensures Inv(Do(maxAttempts, s, step))
  {
    hide HasCopy, Settled;
    var s' := Do(maxAttempts, s, step);
    forall t | t in s'.tasks
      ensures TaskInv(s', t)
    {
      TasksKeepInv(maxAttempts, s, step, t);
    }
    forall e | e in s'.redis.acked
      ensures e < s'.delivered && Settled(s', e)
    {
      AckedKeepInv(maxAttempts, s, step, e);
    }
    if step.Advance? {
      assert TaskInv(s, step.t);
    }
  }

  lemma {:induction false} RunsKeepInv(maxAttempts: nat, s: State, steps: seq<Step>)
    requires Inv(s) && IsRun(maxAttempts, s, steps)
    ensures Inv(After(maxAttempts, s, steps))
    ensures (forall k | 0 <= k < |steps| :: !steps[k].LoseDeadLetter?) ==>
              After(maxAttempts, s, steps).lost == s.lost
    decreases |steps|
  {
    hide Inv, Enabled;
    if steps != [] {
      StepKeepsInv(maxAttempts, s, steps[0]);
      RunsKeepInv(maxAttempts, Do(maxAttempts, s, steps[0]), steps[1..]);
    }
  }

  /**
    In every run, whatever crashes, faults, reclaims and expiries it has: an entry is
    acknowledged only if the handler returned nil for its event or its copy is in the dead
    stream, unless the write of that copy is what failed.
   */
  lemma AckedMeansDealtWith(maxAttempts: nat, steps: seq<Step>, e: nat)
    requires IsRun(maxAttempts, INIT, steps)
    requires e in After(maxAttempts, INIT, steps).redis.acked
    ensures var s := After(maxAttempts, INIT, steps);
      && e < |s.events|
      && (s.events[e] in s.handled || HasCopy(s, e) || e in s.lost)
      && ((forall k | 0 <= k < |steps| :: !steps[k].LoseDeadLetter?) ==> s.events[e] in s.handled || HasCopy(s, e))
  {
    RunsKeepInv(maxAttempts, INIT, steps);
  }

  /** A dead-letter copy is a faithful one, and a delivered entry is pending until it is acknowledged. */
  lemma NothingIsDropped(maxAttempts: nat, steps: seq<Step>, e: nat)
    requires IsRun(maxAttempts, INIT, steps)
    requires e < After(maxAttempts, INIT, steps).delivered
    ensures var s := After(maxAttempts, INIT, steps);
      && (e in s.redis.pending <==> e !in s.redis.acked)
      && (forall k | 0 <= k < |s.redis.dead| && s.redis.dead[k].entry == e ::
            e < |s.events| && s.redis.dead[k].id == s.events[e])
  {
    RunsKeepInv(maxAttempts, INIT, steps);
  }

  /**
    In any run: if the write of the copy of a pending entry fails, and the event has been
    neither handled nor copied, the worker's next command acknowledges it as it is.
   */
  lemma FailedDeadLetterIsAcknowledged(maxAttempts: nat, steps: seq<Step>, t: TaskId, ok: bool)
    requires IsRun(maxAttempts, INIT, steps)
    requires Enabled(After(maxAttempts, INIT, steps), LoseDeadLetter(t))
    ensures var s := After(maxAttempts, INIT, steps);
      var s1 := Do(maxAttempts, s, LoseDeadLetter(t));
      && Enabled(s1, Advance(t, ok))
      && var s2 := Do(maxAttempts, s1, Advance(t, ok));
         var e := s.tasks[t].entry;
         && e < |s.events|
         && e in s2.redis.acked && e in s2.lost
         && (s.events[e] !in s.handled && !HasCopy(s, e) ==> s.events[e] !in s2.handled && !HasCopy(s2, e))
  {
    hide HasCopy;
    RunsKeepInv(maxAttempts, INIT, steps);
    var s := After(maxAttempts, INIT, steps);
    assert TaskInv(s, t);
    var s2 := Do(maxAttempts, Do(maxAttempts, s, LoseDeadLetter(t)), Advance(t, ok));
    SameCopies(s, s2, s.tasks[t].entry);
  }

  lemma SameCopies(s: State, s': State, e: nat)
    requires s.redis.dead == s'.redis.dead
    ensures HasCopy(s, e) == HasCopy(s', e)
  {
  }

  lemma Prepend(maxAttempts: nat, s: State, step: Step, rest: seq<Step>)
    requires Enabled(s, step) && IsRun(maxAttempts, Do(maxAttempts, s, step), rest)
    ensures IsRun(maxAttempts, s, [step] + rest)
    ensures After(maxAttempts, s, [step] + rest) == After(maxAttempts, Do(maxAttempts, s, step), rest)
  {
    assert ([step] + rest)[1..] == rest;
  }

  // ---- A completed event is not handled again ----

  /** The dedupe key is set, and no worker is past its look at the key for an entry of this event. */
  ghost predicate Remembered(s: State, id: EventId) {
    && id in s.redis.done
    && forall t | t in s.tasks && s.tasks[t].entry < |s.events| && s.events[s.tasks[t].entry] == id ::
         !s.tasks[t].pc.AtIncr? && !s.tasks[t].pc.AtHandler? && !s.tasks[t].pc.AtDead?
  }

  /** The step neither expires the dedupe key of `id` nor is a failed EXISTS on it. */
  ghost predicate KeyAnswers(s: State, step: Step, id: EventId)
    requires Enabled(s, step)
  {
    && (step.ExpireDone? ==> step.id != id)
    && (step.Fault? && s.tasks[step.t].pc.AtExists? && s.tasks[step.t].entry < |s.events| ==>
          s.events[s.tasks[step.t].entry] != id)
  }

  ghost predicate KeyAnswersThroughout(maxAttempts: nat, s: State, steps: seq<Step>, id: EventId)
    requires IsRun(maxAttempts, s, steps)
    decreases |steps|
  {
    steps != [] ==>
      KeyAnswers(s, steps[0], id) && KeyAnswersThroughout(maxAttempts, Do(maxAttempts, s, steps[0]), steps[1..], id)
  }

  lemma RememberedActor(maxAttempts: nat, s: State, step: Step, e: nat)
    requires Enabled(s, step) && e < |s.events| && Remembered(s, s.events[e])
    requires step.Advance? || step.Fault? || step.LoseDeadLetter?
    requires KeyAnswers(s, step, s.events[e])
    requires s.tasks[step.t].entry < |s.events| && s.events[s.tasks[step.t].entry] == s.events[e]
    ensures var s' := Do(maxAttempts, s, step);
      step.t in s'.tasks ==> var pc := s'.tasks[step.t].pc; !pc.AtIncr? && !pc.AtHandler? && !pc.AtDead?
  {
  }

  lemma RememberedTask(maxAttempts: nat, s: State, step: Step, e: nat, t: TaskId)
    requires Inv(s) && Enabled(s, step) && e < |s.events| && Remembered(s, s.events[e])
    requires KeyAnswers(s, step, s.events[e])
    requires var s' := Do(maxAttempts, s, step);
      t in s'.tasks && s'.tasks[t].entry < |s'.events| && s'.events[s'.tasks[t].entry] == s.events[e]
    ensures var pc := Do(maxAttempts, s, step).tasks[t].pc; !pc.AtIncr? && !pc.AtHandler? && !pc.AtDead?
  {
    hide Settled, HasCopy;
    assert t in s.tasks ==> TaskInv(s, t);
    if (step.Advance? || step.Fault? || step.LoseDeadLetter?) && step.t == t {
      SameEntry(maxAttempts, s, step);
      hide Do, Enabled, KeyAnswers, Remembered;
      RememberedActor(maxAttempts, s, step, e);
    } else {
      hide KeyAnswers;
    }
  }

  lemma SameEntry(maxAttempts: nat, s: State, step: Step)
    requires Enabled(s, step) && (step.Advance? || step.Fault? || step.LoseDeadLetter?)
    ensures var s' := Do(maxAttempts, s, step);
      s'.events == s.events && (step.t in s'.tasks ==> s'.tasks[step.t].entry == s.tasks[step.t].entry)
  {
  }

  lemma RememberedStays(maxAttempts: nat, s: State, step: Step, e: nat)
    requires Inv(s) && Enabled(s, step) && e < |s.events| && Remembered(s, s.events[e])
    requires KeyAnswers(s, step, s.events[e])
    ensures var s' := Do(maxAttempts, s, step);
      e < |s'.events| == |s'.runs| && s'.events[e] == s.events[e]
      && s'.runs[e] == s.runs[e] && Remembered(s', s.events[e])
  {
    hide Settled, HasCopy;
    var s' := Do(maxAttempts, s, step);
    if step.Advance? {
      assert TaskInv(s, step.t);
    }
    assert s.events[e] in s'.redis.done;
    forall t | t in s'.tasks && s'.tasks[t].entry < |s'.events| && s'.events[s'.tasks[t].entry] == s.events[e]
      ensures !s'.tasks[t].pc.AtIncr? && !s'.tasks[t].pc.AtHandler? && !s'.tasks[t].pc.AtDead?
    {
      RememberedTask(maxAttempts, s, step, e, t);
    }
  }

  /**
    A worker may die between setting the dedupe key and acknowledging: whoever reclaims the
    entry finds the key, and the handler is not called again while the key lasts.
   */
  lemma {:induction false} DoneIsNotHandledAgain(maxAttempts: nat, s: State, steps: seq<Step>, e: nat)
    requires Inv(s) && IsRun(maxAttempts, s, steps) && e < |s.events| && Remembered(s, s.events[e])
    requires KeyAnswersThroughout(maxAttempts, s, steps, s.events[e])
    ensures e < |After(maxAttempts, s, steps).runs| && After(maxAttempts, s, steps).runs[e] == s.runs[e]
    decreases |steps|
  {
    hide Enabled, Remembered, KeyAnswers;
    if steps != [] {
      RememberedStays(maxAttempts, s, steps[0], e);
      StepKeepsInv(maxAttempts, s, steps[0]);
      hide Inv;
      DoneIsNotHandledAgain(maxAttempts, Do(maxAttempts, s, steps[0]), steps[1..], e);
    }
  }

  /** Success is remembered: the step behind a successful handler sets the dedupe key. */
  lemma SuccessIsRemembered(maxAttempts: nat, s: State, t: TaskId, ok: bool)
    requires Enabled(s, Advance(t, ok)) && s.tasks[t].pc.AtSetDone?
    requires forall u | u in s.tasks && u != t && s.tasks[u].entry < |s.events|
                        && s.events[s.tasks[u].entry] == s.events[s.tasks[t].entry] ::
               !s.tasks[u].pc.AtIncr? && !s.tasks[u].pc.AtHandler? && !s.tasks[u].pc.AtDead?
    ensures Remembered(Do(maxAttempts, s, Advance(t, ok)), s.events[s.tasks[t].entry])
  {
  }

  /**
    So a crash anywhere between that step and the acknowledgement is harmless: whatever is
    delivered, reclaimed or published afterwards, while the key answers no worker calls the
    handler for any entry of that event again.
   */
  lemma SuccessIsFinal(maxAttempts: nat, s: State, t: TaskId, ok: bool, steps: seq<Step>, e: nat)
    requires Inv(s) && Enabled(s, Advance(t, ok)) && s.tasks[t].pc.AtSetDone?
    requires forall u | u in s.tasks && u != t && s.tasks[u].entry < |s.events|
                        && s.events[s.tasks[u].entry] == s.events[s.tasks[t].entry] ::
               !s.tasks[u].pc.AtIncr? && !s.tasks[u].pc.AtHandler? && !s.tasks[u].pc.AtDead?
    requires var s1 := Do(maxAttempts, s, Advance(t, ok));
             IsRun(maxAttempts, s1, steps) && KeyAnswersThroughout(maxAttempts, s1, steps, s.events[s.tasks[t].entry])
    requires e < |s.events| && s.events[e] == s.events[s.tasks[t].entry]
    ensures var s1 := Do(maxAttempts, s, Advance(t, ok));
      e < |After(maxAttempts, s1, steps).runs| && After(maxAttempts, s1, steps).runs[e] == s.runs[e]
  {
    SuccessIsRemembered(maxAttempts, s, t, ok);
    StepKeepsInv(maxAttempts, s, Advance(t, ok));
    hide Inv, IsRun, KeyAnswersThroughout, Remembered;
    DoneIsNotHandledAgain(maxAttempts, Do(maxAttempts, s, Advance(t, ok)), steps, e);
  }

  // ---- No copy before the last attempt ----

  ghost predicate DeadLate(maxAttempts: nat, s: State) {
    && (forall k | 0 <= k < |s.redis.dead| :: maxAttempts <= s.redis.dead[k].attempt)
    && (forall t | t in s.tasks && s.tasks[t].pc.AtDead? :: maxAttempts <= s.tasks[t].pc.attempt)
  }

  lemma {:induction false} RunsKeepDeadLate(maxAttempts: nat, s: State, steps: seq<Step>)
    requires DeadLate(maxAttempts, s) && IsRun(maxAttempts, s, steps)
    ensures DeadLate(maxAttempts, After(maxAttempts, s, steps))
    decreases |steps|
  {
    if steps != [] {
      StepKeepsDeadLate(maxAttempts, s, steps[0]);
      hide DeadLate, Enabled, Do;
      RunsKeepDeadLate(maxAttempts, Do(maxAttempts, s, steps[0]), steps[1..]);
    }
  }

  lemma StepKeepsDeadLate(maxAttempts: nat, s: State, step: Step)
    requires DeadLate(maxAttempts, s) && Enabled(s, step)
    ensures DeadLate(maxAttempts, Do(maxAttempts, s, step))
  {
  }

  /** In every run, whatever fails or expires, no copy is made before the counter has reached the maximum. */
  lemma NothingDiesEarly(maxAttempts: nat, steps: seq<Step>, k: nat)
    requires IsRun(maxAttempts, INIT, steps)
    requires k < |After(maxAttempts, INIT, steps).redis.dead|
    ensures maxAttempts <= After(maxAttempts, INIT, steps).redis.dead[k].attempt
  {
    RunsKeepDeadLate(maxAttempts, INIT, steps);
  }

  /** A delivery whose INCR failed counts for nothing: if its handler fails too, the entry waits for the next one. */
  lemma UncountedFailureIsRetried(maxAttempts: nat, s: State, t: TaskId)
    requires maxAttempts >= 1 && Enabled(s, Fault(t)) && s.tasks[t].pc.AtIncr?
    requires s.tasks[t].entry < |s.events| == |s.runs|
    ensures Enabled(Do(maxAttempts, s, Fault(t)), Advance(t, false))
    ensures var s' := Do(maxAttempts, Do(maxAttempts, s, Fault(t)), Advance(t, false));
      && s'.redis == s.redis && s'.tasks == s.tasks - {t} && s'.lost == s.lost && s'.handled == s.handled
      && s'.runs == s.runs[s.tasks[t].entry := s.runs[s.tasks[t].entry] + [false]]
  {
    var s1 := Do(maxAttempts, s, Fault(t));
    assert s1.tasks - {t} == s.tasks - {t};
  }

  /** A success whose SET failed is acknowledged all the same, and only the memory of it is missing. */
  lemma FailedSetIsAcknowledged(maxAttempts: nat, s: State, t: TaskId, ok: bool)
    requires Enabled(s, Fault(t)) && s.tasks[t].pc.AtSetDone?
    requires s.tasks[t].entry in s.redis.pending && s.tasks[t].entry < |s.events| == |s.runs|
    ensures Enabled(Do(maxAttempts, s, Fault(t)), Advance(t, ok))
    ensures var s', e := Do(maxAttempts, Do(maxAttempts, s, Fault(t)), Advance(t, ok)), s.tasks[t].entry;
      && s'.redis == s.redis.(pending := s.redis.pending - {e}, acked := s.redis.acked + {e})
      && s'.runs == s.runs && s'.handled == s.handled
  {
  }

  /** A failed XACK leaves the entry to be reclaimed, but its counter goes: the next delivery counts from one again. */
  lemma FailedAckStartsOver(maxAttempts: nat, s: State, t: TaskId, ok: bool)
    requires Enabled(s, Fault(t)) && s.tasks[t].pc.AtAck? && s.tasks[t].entry < |s.events| == |s.runs|
    ensures Enabled(Do(maxAttempts, s, Fault(t)), Advance(t, ok))
    ensures var s', e := Do(maxAttempts, Do(maxAttempts, s, Fault(t)), Advance(t, ok)), s.tasks[t].entry;
      && s'.redis == s.redis.(attempts := s.redis.attempts - {e}) && Attempts(s'.redis, e) == 0
      && s'.tasks == s.tasks - {t}
  {
    var s1 := Do(maxAttempts, s, Fault(t));
    assert s1.tasks - {t} == s.tasks - {t};
  }
}
