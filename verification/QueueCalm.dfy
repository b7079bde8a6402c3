/**
  Runs in which no worker crashes, no command fails but the write of a dead-letter copy, no
  key expires, event ids are fresh and nobody reclaims an entry a worker still holds.  There
  the retry counter is exact, and so is what becomes of an event.
 */
module QueueCalm {
  import opened QueueProtocol

  ghost predicate Held(s: State, e: nat) {
    exists t :: t in s.tasks && s.tasks[t].entry == e
  }

  ghost predicate Calm(s: State, step: Step) {
    match step
    case Publish(id) => id !in s.events
    case Deliver(_) => true
    case Reclaim(_, e) => !Held(s, e)
    case Advance(_, _) => true
    case LoseDeadLetter(_) => true
    case _ => false
  }

  ghost predicate IsCalmRun(maxAttempts: nat, s: State, steps: seq<Step>)
    decreases |steps|
  {
    steps != [] ==>
      && Enabled(s, steps[0]) && Calm(s, steps[0])
      && IsCalmRun(maxAttempts, Do(maxAttempts, s, steps[0]), steps[1..])
  }

  ghost function CalmAfter(maxAttempts: nat, s: State, steps: seq<Step>): State
    requires IsCalmRun(maxAttempts, s, steps)
    decreases |steps|
  {
    if steps == [] then s else CalmAfter(maxAttempts, Do(maxAttempts, s, steps[0]), steps[1..])
  }

  /** How many dead-letter copies of entry e there are. */
  function Copies(dead: seq<Copy>, e: nat): nat {
    if dead == [] then 0
    else Copies(dead[..|dead| - 1], e) + if dead[|dead| - 1].entry == e then 1 else 0
  }

  lemma CopiesAppend(dead: seq<Copy>, copy: Copy, e: nat)
    ensures Copies(dead + [copy], e) == Copies(dead, e) + if copy.entry == e then 1 else 0
  {
    assert (dead + [copy])[..|dead|] == dead;
  }

  /** Only the last call can have succeeded. */
  ghost predicate AllFailed(runs: seq<bool>) {
    forall k | 0 <= k < |runs| :: !runs[k]
  }

  ghost predicate Won(maxAttempts: nat, runs: seq<bool>) {
    && 1 <= |runs| <= maxAttempts
    && runs[|runs| - 1]
    && AllFailed(runs[..|runs| - 1])
  }

  ghost predicate Exhausted(maxAttempts: nat, runs: seq<bool>) {
    |runs| == maxAttempts && AllFailed(runs)
  }

  /** Entry e still has a call to come. */
  ghost predicate Trying(maxAttempts: nat, s: State, e: nat)
    requires e < |s.events| == |s.runs|
  {
    && AllFailed(s.runs[e]) && |s.runs[e]| < maxAttempts
    && Attempts(s.redis, e) == |s.runs[e]|
    && s.events[e] !in s.redis.done
    && Undead(s, e)
  }

  /** Neither a dead-letter copy of e nor a failed attempt to write one. */
  ghost predicate Undead(s: State, e: nat) {
    Copies(s.redis.dead, e) == 0 && e !in s.lost
  }

  ghost predicate Decided(maxAttempts: nat, s: State, e: nat)
    requires e < |s.events| == |s.runs|
  {
    if Undead(s, e) then Won(maxAttempts, s.runs[e])
    else
      && Exhausted(maxAttempts, s.runs[e])
      && Copies(s.redis.dead, e) == if e in s.lost then 0 else 1
  }

  /** What the counters say about an entry whose worker is at `pc`. */
  ghost predicate HeldTally(maxAttempts: nat, s: State, e: nat, pc: Pc)
    requires e < |s.events| == |s.runs|
  {
    var runs := s.runs[e];
    match pc
    case AtExists => e in s.redis.pending && Trying(maxAttempts, s, e)
    case AtIncr => e in s.redis.pending && Trying(maxAttempts, s, e)
    case AtHandler(n) =>
      && e in s.redis.pending
      && AllFailed(runs) && n == |runs| + 1 <= maxAttempts && Attempts(s.redis, e) == n
      && s.events[e] !in s.redis.done && Undead(s, e)
    case AtDead(n) =>
      e in s.redis.pending && n == maxAttempts && Exhausted(maxAttempts, runs) && Undead(s, e)
    case AtSetDone => e in s.redis.pending && Won(maxAttempts, runs) && Undead(s, e)
    case AtAck => e in s.redis.pending && Decided(maxAttempts, s, e)
    case AtDel => e in s.redis.acked && Decided(maxAttempts, s, e)
  }

  ghost predicate FreeTally(maxAttempts: nat, s: State, e: nat)
    requires e < |s.events| == |s.runs|
  {
    if e >= s.delivered then s.runs[e] == [] && Trying(maxAttempts, s, e)
    else if e in s.redis.pending then Trying(maxAttempts, s, e)
    else Decided(maxAttempts, s, e)
  }

  ghost predicate EntryInv(maxAttempts: nat, s: State, e: nat)
    requires e < |s.events| == |s.runs|
  {
    && (!Held(s, e) ==> FreeTally(maxAttempts, s, e))
    && (forall t | t in s.tasks && s.tasks[t].entry == e :: HeldTally(maxAttempts, s, e, s.tasks[t].pc))
  }

  ghost predicate OneHolder(s: State) {
    forall t, u | t in s.tasks && u in s.tasks && s.tasks[t].entry == s.tasks[u].entry :: t == u
  }

  ghost predicate Distinct(events: seq<EventId>) {
    forall i, j | 0 <= i < j < |events| :: events[i] != events[j]
  }

  ghost predicate CalmInv(maxAttempts: nat, s: State) {
    && |s.runs| == |s.events|
    && s.delivered <= |s.events|
    && Distinct(s.events)
    && OneHolder(s)
    && (forall t | t in s.tasks :: s.tasks[t].entry < s.delivered)
    && (forall e | e in s.redis.pending || e in s.redis.acked :: e < s.delivered)
    && (forall e | 0 <= e < s.delivered :: e in s.redis.pending <==> e !in s.redis.acked)
    && (forall id | id in s.redis.done :: id in s.events)
    && (forall e | e in s.redis.attempts :: e < |s.events|)
    && (forall k | 0 <= k < |s.redis.dead| :: s.redis.dead[k].entry < |s.events|)
    && (forall e | e in s.lost :: e < |s.events|)
    && (forall e | 0 <= e < |s.events| :: EntryInv(maxAttempts, s, e))
  }

  // ---- One step, one entry ----

  /** Everything EntryInv says about e depends on this much of the state. */
  ghost predicate SameEntry(s: State, s': State, e: nat)
    requires e < |s.events| == |s.runs| && e < |s'.events| == |s'.runs|
  {
    && s.events[e] == s'.events[e] && s.runs[e] == s'.runs[e]
    && (e in s.redis.pending <==> e in s'.redis.pending)
    && (e in s.redis.acked <==> e in s'.redis.acked)
    && (e < s.delivered <==> e < s'.delivered)
    && (s.events[e] in s.redis.done <==> s.events[e] in s'.redis.done)
    && Attempts(s.redis, e) == Attempts(s'.redis, e)
    && Copies(s.redis.dead, e) == Copies(s'.redis.dead, e)
    && (e in s.lost <==> e in s'.lost)
    && SameTasks(s, s', e)
  }

  ghost predicate SameTasks(s: State, s': State, e: nat) {
    && (forall t :: t in s.tasks && s.tasks[t].entry == e <==> t in s'.tasks && s'.tasks[t].entry == e)
    && (forall t | t in s.tasks && s.tasks[t].entry == e :: s.tasks[t] == s'.tasks[t])
  }

  lemma SameEntryKeepsInv(maxAttempts: nat, s: State, s': State, e: nat)
    requires e < |s.events| == |s.runs| && e < |s'.events| == |s'.runs|
    requires SameEntry(s, s', e) && EntryInv(maxAttempts, s, e)
    ensures EntryInv(maxAttempts, s', e)
  {
    hide AllFailed, Won, Attempts, Copies;
    if Held(s, e) {
      var t :| t in s.tasks && s.tasks[t].entry == e;
      assert t in s'.tasks;
    }
  }

  lemma AdvanceLeavesOtherTasks(maxAttempts: nat, s: State, t: TaskId, ok: bool, e: nat)
    requires Enabled(s, Advance(t, ok)) && e != s.tasks[t].entry
    ensures SameTasks(s, Do(maxAttempts, s, Advance(t, ok)), e)
  {
  }

  /** A step about one entry leaves every other entry's facts alone. */
  lemma AdvanceLeavesOthers(maxAttempts: nat, s: State, t: TaskId, ok: bool, e: nat)
    requires Enabled(s, Advance(t, ok)) && e < |s.events|
    requires e != s.tasks[t].entry && s.events[e] != s.events[s.tasks[t].entry]
    ensures |Do(maxAttempts, s, Advance(t, ok)).events| == |Do(maxAttempts, s, Advance(t, ok)).runs| == |s.events|
    ensures SameEntry(s, Do(maxAttempts, s, Advance(t, ok)), e)
  {
    hide Copies, SameTasks;
    AdvanceLeavesOtherTasks(maxAttempts, s, t, ok, e);
    var Task(a, pc) := s.tasks[t];
    if pc.AtDead? {
      CopiesAppend(s.redis.dead, Copy(a, s.events[a], pc.attempt), e);
    }
  }

  lemma OthersSame(maxAttempts: nat, s: State, step: Step, e: nat)
    requires CalmInv(maxAttempts, s) && Enabled(s, step) && Calm(s, step) && e < |s.events|
    requires step.Deliver? ==> e != s.delivered
    requires step.Reclaim? ==> e != step.entry
    requires step.Advance? || step.LoseDeadLetter? ==> e != s.tasks[step.t].entry
    ensures |Do(maxAttempts, s, step).events| == |Do(maxAttempts, s, step).runs| >= |s.events|
    ensures SameEntry(s, Do(maxAttempts, s, step), e)
  {
    hide EntryInv, Copies, OneHolder, Proceed;
    if step.Advance? {
      var a := s.tasks[step.t].entry;
      assert s.events[a] != s.events[e];
      AdvanceLeavesOthers(maxAttempts, s, step.t, step.ok, e);
    }
  }

  lemma AdvanceKeepsEntry(maxAttempts: nat, s: State, t: TaskId, ok: bool)
    requires CalmInv(maxAttempts, s) && Enabled(s, Advance(t, ok)) && maxAttempts >= 1
    ensures var s' := Do(maxAttempts, s, Advance(t, ok));
            |s'.events| == |s'.runs| == |s.events| && EntryInv(maxAttempts, s', s.tasks[t].entry)
  {
    hide Copies, Distinct;
    var Task(e, pc) := s.tasks[t];
    var s' := Do(maxAttempts, s, Advance(t, ok));
    assert EntryInv(maxAttempts, s, e);
    assert HeldTally(maxAttempts, s, e, pc);
    if pc.AtDead? {
      CopiesAppend(s.redis.dead, Copy(e, s.events[e], pc.attempt), e);
    }
    if pc.AtHandler? {
      assert s'.runs[e][..|s.runs[e]|] == s.runs[e];
    }
    if t in s'.tasks {
      assert HeldTally(maxAttempts, s', e, s'.tasks[t].pc);
    } else {
      assert FreeTally(maxAttempts, s', e);
    }
  }

  /** A failed dead-letter write leaves the worker to acknowledge an exhausted entry all the same. */
  lemma LossKeepsEntry(maxAttempts: nat, s: State, t: TaskId)
    requires CalmInv(maxAttempts, s) && Enabled(s, LoseDeadLetter(t))
    ensures var s' := Do(maxAttempts, s, LoseDeadLetter(t));
            |s'.events| == |s'.runs| && s.tasks[t].entry < |s'.events| && EntryInv(maxAttempts, s', s.tasks[t].entry)
  {
    hide Copies, Distinct;
    var Task(e, pc) := s.tasks[t];
    var s' := Do(maxAttempts, s, LoseDeadLetter(t));
    assert EntryInv(maxAttempts, s, e);
    assert HeldTally(maxAttempts, s, e, pc);
    assert HeldTally(maxAttempts, s', e, AtAck);
    assert t in s'.tasks && s'.tasks[t].entry == e;
  }

  lemma ArrivalKeepsEntry(maxAttempts: nat, s: State, step: Step, e: nat)
    requires CalmInv(maxAttempts, s) && Enabled(s, step) && Calm(s, step)
    requires (step.Deliver? && e == s.delivered) || (step.Reclaim? && e == step.entry)
    ensures var s' := Do(maxAttempts, s, step);
            e < |s'.events| == |s'.runs| && EntryInv(maxAttempts, s', e)
  {
    assert EntryInv(maxAttempts, s, e);
  }

  lemma {:induction false} NoCopies(dead: seq<Copy>, e: nat)
    requires forall k | 0 <= k < |dead| :: dead[k].entry < e
    ensures Copies(dead, e) == 0
    decreases |dead|
  {
    if dead != [] {
      NoCopies(dead[..|dead| - 1], e);
    }
  }

  lemma PublishKeepsNewcomer(maxAttempts: nat, s: State, id: EventId)
    requires CalmInv(maxAttempts, s) && id !in s.events && maxAttempts >= 1
    ensures EntryInv(maxAttempts, Do(maxAttempts, s, Publish(id)), |s.events|)
  {
    NoCopies(s.redis.dead, |s.events|);
  }

  lemma EntriesKeepInv(maxAttempts: nat, s: State, step: Step, e: nat)
    requires CalmInv(maxAttempts, s) && Enabled(s, step) && Calm(s, step) && maxAttempts >= 1
    requires e < |Do(maxAttempts, s, step).events|
    ensures |Do(maxAttempts, s, step).events| == |Do(maxAttempts, s, step).runs|
    ensures EntryInv(maxAttempts, Do(maxAttempts, s, step), e)
  {
    hide EntryInv, Distinct, OneHolder, SameEntry;
    if step.Advance? && e == s.tasks[step.t].entry {
      AdvanceKeepsEntry(maxAttempts, s, step.t, step.ok);
    } else if step.LoseDeadLetter? && e == s.tasks[step.t].entry {
      LossKeepsEntry(maxAttempts, s, step.t);
    } else if (step.Deliver? && e == s.delivered) || (step.Reclaim? && e == step.entry) {
      ArrivalKeepsEntry(maxAttempts, s, step, e);
    } else if step.Publish? && e == |s.events| {
      PublishKeepsNewcomer(maxAttempts, s, step.id);
    } else {
      OthersSame(maxAttempts, s, step, e);
      assert EntryInv(maxAttempts, s, e);
      SameEntryKeepsInv(maxAttempts, s, Do(maxAttempts, s, step), e);
    }
  }

  lemma StepKeepsHolders(maxAttempts: nat, s: State, step: Step)
    requires CalmInv(maxAttempts, s) && Enabled(s, step) && Calm(s, step)
    ensures OneHolder(Do(maxAttempts, s, step))
    ensures Distinct(Do(maxAttempts, s, step).events)
  {
    hide EntryInv;
    if step.Deliver? {
      assert forall t | t in s.tasks :: s.tasks[t].entry != s.delivered;
    }
  }

  lemma StepKeepsCalm(maxAttempts: nat, s: State, step: Step)
    requires CalmInv(maxAttempts, s) && Enabled(s, step) && Calm(s, step) && maxAttempts >= 1
    ensures CalmInv(maxAttempts, Do(maxAttempts, s, step))
  {
    hide EntryInv, Distinct, OneHolder;
    var s' := Do(maxAttempts, s, step);
    forall e | 0 <= e < |s'.events|
      ensures |s'.events| == |s'.runs| && EntryInv(maxAttempts, s', e)
    {
      EntriesKeepInv(maxAttempts, s, step, e);
    }
    StepKeepsHolders(maxAttempts, s, step);
  }

  lemma {:induction false} CalmRunsKeepInv(maxAttempts: nat, s: State, steps: seq<Step>)
    requires CalmInv(maxAttempts, s) && IsCalmRun(maxAttempts, s, steps) && maxAttempts >= 1
    ensures CalmInv(maxAttempts, CalmAfter(maxAttempts, s, steps))
    decreases |steps|
  {
    hide CalmInv, Enabled, Calm;
    if steps != [] {
      StepKeepsCalm(maxAttempts, s, steps[0]);
      CalmRunsKeepInv(maxAttempts, Do(maxAttempts, s, steps[0]), steps[1..]);
    }
  }

  /**
    In a calm run the handler runs at most MaxAttempts times for an entry and never again
    after it succeeded, and the write of a dead-letter copy is tried at most once, and only
    when all MaxAttempts calls failed.
   */
  lemma RetriesAreBounded(maxAttempts: nat, steps: seq<Step>, e: nat)
    requires maxAttempts >= 1 && IsCalmRun(maxAttempts, INIT, steps)
    requires e < |CalmAfter(maxAttempts, INIT, steps).events|
    ensures var s := CalmAfter(maxAttempts, INIT, steps);
      && e < |s.runs| && |s.runs[e]| <= maxAttempts
      && (forall k | 0 <= k < |s.runs[e]| - 1 :: !s.runs[e][k])
      && Copies(s.redis.dead, e) <= (if e in s.lost then 0 else 1)
      && (Copies(s.redis.dead, e) == 1 || e in s.lost ==>
            |s.runs[e]| == maxAttempts && forall k | 0 <= k < maxAttempts :: !s.runs[e][k])
  {
    hide Copies, Attempts;
    CalmRunsKeepInv(maxAttempts, INIT, steps);
    var s := CalmAfter(maxAttempts, INIT, steps);
    assert EntryInv(maxAttempts, s, e);
    RunsOf(maxAttempts, s, e);
  }

  lemma RunsOf(maxAttempts: nat, s: State, e: nat)
    requires e < |s.events| == |s.runs| && EntryInv(maxAttempts, s, e)
    ensures Won(maxAttempts, s.runs[e]) || (AllFailed(s.runs[e]) && |s.runs[e]| <= maxAttempts)
    ensures Undead(s, e)
            || (Exhausted(maxAttempts, s.runs[e]) && Copies(s.redis.dead, e) == if e in s.lost then 0 else 1)
  {
    hide Copies, Attempts, AllFailed;
    if Held(s, e) {
      var t :| t in s.tasks && s.tasks[t].entry == e;
      assert HeldTally(maxAttempts, s, e, s.tasks[t].pc);
    }
  }

  lemma {:induction false} NothingLost(maxAttempts: nat, s: State, steps: seq<Step>)
    requires IsCalmRun(maxAttempts, s, steps) && forall k | 0 <= k < |steps| :: !steps[k].LoseDeadLetter?
    ensures CalmAfter(maxAttempts, s, steps).lost == s.lost
    decreases |steps|
  {
    if steps != [] {
      NothingLost(maxAttempts, Do(maxAttempts, s, steps[0]), steps[1..]);
    }
  }

  /**
    And once nobody holds the entry the counters are the whole story: it is dead-lettered
    iff every one of MaxAttempts calls failed and the write of the copy did not, and
    acknowledged iff all calls failed or one succeeded.
   */
  lemma DeadIffAllFailed(maxAttempts: nat, steps: seq<Step>, e: nat)
    requires maxAttempts >= 1 && IsCalmRun(maxAttempts, INIT, steps)
    requires e < |CalmAfter(maxAttempts, INIT, steps).events|
    requires !Held(CalmAfter(maxAttempts, INIT, steps), e)
    ensures var s := CalmAfter(maxAttempts, INIT, steps);
      && e < |s.runs|
      && (Copies(s.redis.dead, e) == 1
          <==> e !in s.lost && |s.runs[e]| == maxAttempts && forall k | 0 <= k < maxAttempts :: !s.runs[e][k])
      && (e in s.redis.acked <==> true in s.runs[e] || |s.runs[e]| == maxAttempts)
      && ((forall k | 0 <= k < |steps| :: !steps[k].LoseDeadLetter?) ==> e !in s.lost)
  {
    hide Copies, Attempts;
    CalmRunsKeepInv(maxAttempts, INIT, steps);
    var s := CalmAfter(maxAttempts, INIT, steps);
    assert EntryInv(maxAttempts, s, e);
    if forall k | 0 <= k < |steps| :: !steps[k].LoseDeadLetter? {
      NothingLost(maxAttempts, INIT, steps);
    }
  }

  /**
    When an event is lost: an acknowledged entry nobody holds has neither a successful call
    nor a dead-letter copy iff the write of its copy failed.
   */
  lemma LostIffDeadLetterFailed(maxAttempts: nat, steps: seq<Step>, e: nat)
    requires maxAttempts >= 1 && IsCalmRun(maxAttempts, INIT, steps)
    requires e < |CalmAfter(maxAttempts, INIT, steps).events|
    requires !Held(CalmAfter(maxAttempts, INIT, steps), e)
    requires e in CalmAfter(maxAttempts, INIT, steps).redis.acked
    ensures var s := CalmAfter(maxAttempts, INIT, steps);
      && e < |s.runs|
      && (true !in s.runs[e] && Copies(s.redis.dead, e) == 0 <==> e in s.lost)
  {
    hide Copies, Attempts;
    CalmRunsKeepInv(maxAttempts, INIT, steps);
    var s := CalmAfter(maxAttempts, INIT, steps);
    assert EntryInv(maxAttempts, s, e);
  }

  // ---- Events can be lost ----

  lemma PrependCalm(maxAttempts: nat, s: State, step: Step, rest: seq<Step>)
    requires Enabled(s, step) && Calm(s, step) && IsCalmRun(maxAttempts, Do(maxAttempts, s, step), rest)
    ensures IsCalmRun(maxAttempts, s, [step] + rest)
    ensures CalmAfter(maxAttempts, s, [step] + rest) == CalmAfter(maxAttempts, Do(maxAttempts, s, step), rest)
  {
    assert ([step] + rest)[1..] == rest;
  }

  /** Some calm run leads from s to s'. */
  ghost predicate Leads(maxAttempts: nat, s: State, s': State) {
    exists steps: seq<Step> :: IsCalmRun(maxAttempts, s, steps) && CalmAfter(maxAttempts, s, steps) == s'
  }

  lemma LeadsNowhere(maxAttempts: nat, s: State)
    ensures Leads(maxAttempts, s, s)
  {
    assert IsCalmRun(maxAttempts, s, []);
  }

  lemma LeadsStep(maxAttempts: nat, s: State, step: Step, s': State)
    requires Enabled(s, step) && Calm(s, step) && Leads(maxAttempts, Do(maxAttempts, s, step), s')
    ensures Leads(maxAttempts, s, s')
  {
    hide Enabled, Calm, Do;
    var rest :| IsCalmRun(maxAttempts, Do(maxAttempts, s, step), rest)
      && CalmAfter(maxAttempts, Do(maxAttempts, s, step), rest) == s';
    PrependCalm(maxAttempts, s, step, rest);
  }

  function Failures(n: nat): seq<bool> {
    seq(n, _ => false)
  }

  /** One entry, delivered for the (k + 1)-th time after k failures. */
  function Again(k: nat): State {
    State([7], 1, Redis({0}, {}, {}, if k == 0 then map[] else map[0 := k], []),
          map[0 := Task(0, AtExists)], [Failures(k)], {}, {})
  }

  function Handling(k: nat): State {
    State([7], 1, Redis({0}, {}, {}, map[0 := k + 1], []), map[0 := Task(0, AtHandler(k + 1))], [Failures(k)], {}, {})
  }

  lemma DeliveryLeads(maxAttempts: nat, k: nat, s': State)
    requires Leads(maxAttempts, Handling(k), s')
    ensures Leads(maxAttempts, Again(k), s')
  {
    hide Leads, Failures;
    var s := Again(k);
    var s1 := Do(maxAttempts, s, Advance(0, false));
    assert Do(maxAttempts, s1, Advance(0, false)) == Handling(k);
    LeadsStep(maxAttempts, s1, Advance(0, false), s');
    LeadsStep(maxAttempts, s, Advance(0, false), s');
  }

  lemma FailingAgain(k: nat)
    ensures Failures(k) + [false] == Failures(k + 1)
  {
  }

  lemma RetryLeads(maxAttempts: nat, k: nat, s': State)
    requires k + 1 < maxAttempts && Leads(maxAttempts, Again(k + 1), s')
    ensures Leads(maxAttempts, Again(k), s')
  {
    hide Leads, Failures;
    FailingAgain(k);
    var s := Handling(k);
    var s1 := Do(maxAttempts, s, Advance(0, false));
    assert Do(maxAttempts, s1, Reclaim(0, 0)) == Again(k + 1);
    LeadsStep(maxAttempts, s1, Reclaim(0, 0), s');
    LeadsStep(maxAttempts, s, Advance(0, false), s');
    DeliveryLeads(maxAttempts, k, s');
  }

  /** The last call fails too, the copy is not written, and the entry is acknowledged all the same. */
  function Gone(maxAttempts: nat): State {
    State([7], 1, Redis({}, {0}, {}, map[], []), map[], [Failures(maxAttempts)], {}, {0})
  }

  lemma LossLeads(maxAttempts: nat)
    requires maxAttempts >= 1
    ensures Leads(maxAttempts, Handling(maxAttempts - 1), Gone(maxAttempts))
  {
    hide Leads, Failures;
    FailingAgain(maxAttempts - 1);
    var s := Handling(maxAttempts - 1);
    var s1 := Do(maxAttempts, s, Advance(0, false));
    var s2 := Do(maxAttempts, s1, LoseDeadLetter(0));
    var s3 := Do(maxAttempts, s2, Advance(0, false));
    assert Do(maxAttempts, s3, Advance(0, false)) == Gone(maxAttempts);
    LeadsNowhere(maxAttempts, Gone(maxAttempts));
    LeadsStep(maxAttempts, s3, Advance(0, false), Gone(maxAttempts));
    LeadsStep(maxAttempts, s2, Advance(0, false), Gone(maxAttempts));
    LeadsStep(maxAttempts, s1, LoseDeadLetter(0), Gone(maxAttempts));
    LeadsStep(maxAttempts, s, Advance(0, false), Gone(maxAttempts));
  }

  lemma {:induction false} RetriesLead(maxAttempts: nat, k: nat)
    requires k < maxAttempts
    ensures Leads(maxAttempts, Again(k), Gone(maxAttempts))
    decreases maxAttempts - k
  {
    hide Leads, Again, Gone, Handling;
    if k + 1 < maxAttempts {
      RetriesLead(maxAttempts, k + 1);
      RetryLeads(maxAttempts, k, Gone(maxAttempts));
    } else {
      LossLeads(maxAttempts);
      DeliveryLeads(maxAttempts, k, Gone(maxAttempts));
    }
  }

  /** Whatever MaxAttempts is, an event can be lost: acknowledged, never handled, and nowhere to be found. */
  lemma FailedDeadLetterLosesTheEvent(maxAttempts: nat)
    requires maxAttempts >= 1
    ensures exists steps: seq<Step> ::
              && IsCalmRun(maxAttempts, INIT, steps)
              && var s := CalmAfter(maxAttempts, INIT, steps);
                 && 0 in s.redis.acked && !Held(s, 0)
                 && s.handled == {} && s.redis.dead == []
  {
    RetriesLead(maxAttempts, 0);
    var s1 := Do(maxAttempts, INIT, Publish(7));
    assert Failures(0) == [];
    assert Do(maxAttempts, s1, Deliver(0)) == Again(0);
    LeadsStep(maxAttempts, s1, Deliver(0), Gone(maxAttempts));
    LeadsStep(maxAttempts, INIT, Publish(7), Gone(maxAttempts));
    var steps :| IsCalmRun(maxAttempts, INIT, steps) && CalmAfter(maxAttempts, INIT, steps) == Gone(maxAttempts);
  }

  /** One entry, MaxAttempts 1, and two workers that both found no dedupe key. */
  const BOTH_HOLD := State([7], 1, Redis({0}, {}, {}, map[], []),
                           map[0 := Task(0, AtIncr), 1 := Task(0, AtIncr)], [[]], {}, {})

  lemma BothCanHold()
    ensures exists steps: seq<Step> :: IsRun(1, INIT, steps) && After(1, INIT, steps) == BOTH_HOLD
  {
    var s1 := Do(1, INIT, Publish(7));
    var s2 := Do(1, s1, Deliver(0));
    var s3 := Do(1, s2, Reclaim(1, 0));
    var s4 := Do(1, s3, Advance(0, false));
    assert Do(1, s4, Advance(1, false)) == BOTH_HOLD;
    Prepend(1, s4, Advance(1, false), []);
    Prepend(1, s3, Advance(0, false), [Advance(1, false)]);
    var tail := [Advance(0, false)] + [Advance(1, false)];
    Prepend(1, s2, Reclaim(1, 0), tail);
    Prepend(1, s1, Deliver(0), [Reclaim(1, 0)] + tail);
    Prepend(1, INIT, Publish(7), [Deliver(0)] + ([Reclaim(1, 0)] + tail));
  }

  lemma BothThenRun()
    ensures exists steps: seq<Step> ::
              && IsRun(1, BOTH_HOLD, steps)
              && var s := After(1, BOTH_HOLD, steps);
                 |s.runs| == 1 && s.runs[0] == [false, true] && |s.redis.dead| == 1
  {
    var s1 := Do(1, BOTH_HOLD, Advance(0, false));
    var s2 := Do(1, s1, Advance(1, false));
    var s3 := Do(1, s2, Advance(0, false));
    var s4 := Do(1, s3, Advance(0, false));
    var s5 := Do(1, s4, Advance(1, true));
    assert s5.runs[0] == [false, true];
    Prepend(1, s4, Advance(1, true), []);
    Prepend(1, s3, Advance(0, false), [Advance(1, true)]);
    var tail := [Advance(0, false)] + [Advance(1, true)];
    Prepend(1, s2, Advance(0, false), tail);
    Prepend(1, s1, Advance(1, false), [Advance(0, false)] + tail);
    Prepend(1, BOTH_HOLD, Advance(0, false), [Advance(1, false)] + ([Advance(0, false)] + tail));
  }

  lemma {:induction false} Chain(maxAttempts: nat, s: State, first: seq<Step>, second: seq<Step>)
    requires IsRun(maxAttempts, s, first) && IsRun(maxAttempts, After(maxAttempts, s, first), second)
    ensures IsRun(maxAttempts, s, first + second)
    ensures After(maxAttempts, s, first + second) == After(maxAttempts, After(maxAttempts, s, first), second)
    decreases |first|
  {
    hide Enabled;
    if first == [] {
      assert first + second == second;
    } else {
      Chain(maxAttempts, Do(maxAttempts, s, first[0]), first[1..], second);
      assert (first + second)[1..] == first[1..] + second;
    }
  }

  /**
    The proviso matters: an entry reclaimed while its worker is still in the handler runs
    more often than MaxAttempts, and can be dead-lettered although a call succeeded.
   */
  lemma ReclaimWhileHeldBreaksTheBound()
    ensures exists steps: seq<Step> ::
              && IsRun(1, INIT, steps)
              && var s := After(1, INIT, steps);
                 |s.runs| == 1 && s.runs[0] == [false, true] && |s.redis.dead| == 1
  {
    BothCanHold();
    BothThenRun();
    var first :| IsRun(1, INIT, first) && After(1, INIT, first) == BOTH_HOLD;
    var second :| IsRun(1, BOTH_HOLD, second)
      && |After(1, BOTH_HOLD, second).runs| == 1
      && After(1, BOTH_HOLD, second).runs[0] == [false, true]
      && |After(1, BOTH_HOLD, second).redis.dead| == 1;
    Chain(1, INIT, first, second);
  }
}
