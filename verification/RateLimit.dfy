/**
  The fixed-window limiter: INCR and TTL are one atomic round trip, EXPIRE is another
  that may be late, repeated, or lost.
 */
module RateLimit {
  import opened Wrappers

  // ---- The Redis key and the commands the limiter sends ----

  type Time = int

  /** A counter key: `expiry` is absent until some EXPIRE reaches it. */
  datatype Key = Key(count: nat, expiry: Option<Time>)

  /** The key as a command arriving at `now` finds it: an expired key is gone. */
  function Live(k: Option<Key>, now: Time): Option<Key> {
    if k.Some? && k.value.expiry.Some? && k.value.expiry.value <= now then None else k
  }

  function Incr(k: Option<Key>, now: Time): Key {
    match Live(k, now)
    case None => Key(1, None)
    case Some(key) => key.(count := key.count + 1)
  }

  /** EXPIRE on a key that is gone does nothing. */
  function Expire(k: Option<Key>, now: Time, window: nat): Option<Key> {
    match Live(k, now)
    case None => None
    case Some(key) => Some(key.(expiry := Some(now + window)))
  }

  datatype Result = Result(allowed: bool, limit: nat, remaining: nat, retryAfter: int)

  /** How a command may go: not reach the server, take effect unheard, or take effect and answer. */
  datatype Outcome = NotDone | DoneUnheard | Answered

  class RedisLimiter {
    var key: Option<Key>

    constructor ()
      ensures key.None?
    {
      key := None;
    }

    /**
      One call that nothing overlaps; `now` is the server clock at its commands, `pipeline`
      and `expire` are how they go.  No result is an error return.
     */
    method Allow(limit: nat, window: nat, now: Time, pipeline: Outcome, expire: Outcome) returns (r: Option<Result>)
      requires window > 0
      modifies this
      ensures var live := old(key).Some? && (old(key).value.expiry.Some? ==> now < old(key).value.expiry.value);
              var running := live && old(key).value.expiry.Some?;
              var count := if live then old(key).value.count + 1 else 1;
              var expiry := if running then old(key).value.expiry.value else now + window;
              && (r.Some? <==> pipeline.Answered? && (running || expire.Answered?))
              && key == (if pipeline.NotDone? then old(key)
                         else if running || (pipeline.Answered? && !expire.NotDone?) then Some(Key(count, Some(expiry)))
                         else Some(Key(count, None)))
              && (r.Some? ==>
                    r.value == if count <= limit then Result(true, limit, limit - count, 0)
                               else Result(false, limit, 0, expiry - now))
      ensures r.Some? ==> key == Some(Allowed(old(key), now, window))
    {
      if pipeline.NotDone? {
        return None;
      }
      key := Some(Incr(key, now));
      if pipeline.DoneUnheard? {
        return None;
      }
      var count := key.value.count;
      var ttl := if key.value.expiry.Some? then key.value.expiry.value - now else -1;
      if ttl < 0 {
        if !expire.NotDone? {
          key := Expire(key, now, window);
        }
        if !expire.Answered? {
          return None;
        }
        ttl := window;
      }
      var left := if count <= limit then limit - count else 0;
      if count <= limit {
        return Some(Result(true, limit, left, 0));
      }
      return Some(Result(false, limit, 0, ttl));
    }
  }

  // ---- Every interleaving ----

  /** What the server sees, in order.  Any command may come from any call, late or twice. */
  datatype Command =
    | IncrAndTtl(now: Time)
    | SendExpire(now: Time)

  /** One INCR as the server answered it: the `count`-th of key lifetime `life`. */
  datatype Counted = Counted(at: Time, life: nat, count: nat)

  /** `births` holds the start of every key lifetime so far, `calls` every INCR. */
  datatype State = State(key: Option<Key>, now: Time, births: seq<Time>, calls: seq<Counted>)

  function Start(now: Time): State {
    State(None, now, [], [])
  }

  function Do(s: State, c: Command, window: nat): State {
    match c
    case IncrAndTtl(now) =>
      var births := if Live(s.key, now).None? then s.births + [now] else s.births;
      var key := Incr(s.key, now);
      State(Some(key), now, births, s.calls + [Counted(now, |births|, key.count)])
    case SendExpire(now) =>
      s.(key := Expire(s.key, now, window), now := now)
  }

  /** The key after a call of Allow that nothing overlaps. */
  function Allowed(k: Option<Key>, now: Time, window: nat): Key {
    var counted := Incr(k, now);
    if counted.expiry.None? then counted.(expiry := Some(now + window)) else counted
  }

  /** Allow alone is its INCR and, if the key had no expiry, the EXPIRE right behind it. */
  lemma AllowIsItsCommands(s: State, now: Time, window: nat)
    requires window > 0
    ensures var counted := Do(s, IncrAndTtl(now), window);
      (if counted.key.value.expiry.None? then Do(counted, SendExpire(now), window) else counted).key
      == Some(Allowed(s.key, now, window))
  {
  }

  /** The server clock never runs backwards. */
  ghost predicate IsRun(s: State, cs: seq<Command>, window: nat)
    decreases |cs|
  {
    cs != [] ==> s.now <= cs[0].now && IsRun(Do(s, cs[0], window), cs[1..], window)
  }

  function After(s: State, cs: seq<Command>, window: nat): State
    decreases |cs|
  {
    if cs == [] then s else After(Do(s, cs[0], window), cs[1..], window)
  }

  /** Lifetimes are at least a window apart. */
  ghost predicate Spaced(births: seq<Time>, window: nat) {
    forall i | 0 < i < |births| :: SpacedAt(births, i, window)
  }

  predicate SpacedAt(births: seq<Time>, i: nat, window: nat)
    requires 0 < i < |births|
  {
    births[i - 1] + window <= births[i]
  }

  /** Every call falls inside its lifetime, and its first call opens it. */
  ghost predicate Within(births: seq<Time>, c: Counted) {
    && 1 <= c.life <= |births| && c.count >= 1
    && births[c.life - 1] <= c.at
    && (c.life < |births| ==> c.at <= births[c.life])
    && (c.count == 1 ==> c.at == births[c.life - 1])
  }

  /** Calls come in order and each lifetime numbers its own 1, 2, 3.. */
  predicate Follows(calls: seq<Counted>, i: nat)
    requires 0 < i < |calls|
  {
    var a, b := calls[i - 1], calls[i];
    && a.at <= b.at
    && ((b.life == a.life && b.count == a.count + 1) || (b.life == a.life + 1 && b.count == 1))
  }

  ghost predicate Inv(s: State, window: nat) {
    && Spaced(s.births, window)
    && (forall i | 0 <= i < |s.calls| :: Within(s.births, s.calls[i]) && s.calls[i].at <= s.now)
    && (forall i | 0 < i < |s.calls| :: Follows(s.calls, i))
    && (s.calls == [] ==> s.births == [])
    && (s.calls != [] ==> s.calls[0].life == 1 && s.calls[0].count == 1)
    && (s.calls != [] ==> s.calls[|s.calls| - 1].life == |s.births|)
    && (s.births != [] ==> s.births[|s.births| - 1] <= s.now)
    && (s.key.Some? ==>
          && s.calls != [] && s.key.value.count == s.calls[|s.calls| - 1].count
          && (s.key.value.expiry.Some? ==> s.births[|s.births| - 1] + window <= s.key.value.expiry.value))
    && (s.key.None? && s.births != [] ==> s.births[|s.births| - 1] + window <= s.now)
  }

  lemma ExpireKeepsInv(s: State, now: Time, window: nat)
    requires Inv(s, window) && s.now <= now
    ensures Inv(Do(s, SendExpire(now), window), window)
  {
    var s' := Do(s, SendExpire(now), window);
    assert forall i | 0 < i < |s.calls| :: Follows(s.calls, i) ==> Follows(s'.calls, i);
  }

  lemma IncrKeepsInv(s: State, now: Time, window: nat)
    requires Inv(s, window) && s.now <= now
    ensures Inv(Do(s, IncrAndTtl(now), window), window)
  {
    var s' := Do(s, IncrAndTtl(now), window);
    forall i | 0 < i < |s'.births|
      ensures SpacedAt(s'.births, i, window)
    {
      assert i < |s.births| ==> SpacedAt(s.births, i, window);
    }
    forall i | 0 <= i < |s'.calls|
      ensures Within(s'.births, s'.calls[i]) && s'.calls[i].at <= now
    {
      assert i < |s.calls| ==> Within(s.births, s.calls[i]);
    }
    forall i | 0 < i < |s'.calls|
      ensures Follows(s'.calls, i)
    {
      assert i < |s.calls| ==> Follows(s.calls, i);
      assert Within(s.births, s.calls[|s.calls| - 1]);
    }
  }

  lemma StepKeepsInv(s: State, c: Command, window: nat)
    requires Inv(s, window) && s.now <= c.now
    ensures Inv(Do(s, c, window), window)
  {
    hide Inv, Do;
    match c
    case IncrAndTtl(now) => IncrKeepsInv(s, now, window);
    case SendExpire(now) => ExpireKeepsInv(s, now, window);
  }

  lemma {:induction false} RunsKeepInv(s: State, cs: seq<Command>, window: nat)
    requires Inv(s, window) && IsRun(s, cs, window)
    ensures Inv(After(s, cs, window), window)
    decreases |cs|
  {
    if cs != [] {
      StepKeepsInv(s, cs[0], window);
      RunsKeepInv(Do(s, cs[0], window), cs[1..], window);
    }
  }

  // ---- What is admitted ----

  /** How many INCRs of its own lifetime the i-th call comes after, itself included. */
  function Nth(calls: seq<Counted>, i: nat): nat
    requires i < |calls|
  {
    if i == 0 || calls[i - 1].life != calls[i].life then 1 else Nth(calls, i - 1) + 1
  }

  function Admits(c: Counted, limit: nat): bool {
    c.count <= limit
  }

  lemma {:induction false} CountIsNth(calls: seq<Counted>, i: nat)
    requires i < |calls| && calls[0].count == 1
    requires forall k | 0 < k < |calls| :: Follows(calls, k)
    ensures calls[i].count == Nth(calls, i)
  {
    if i > 0 {
      CountIsNth(calls, i - 1);
      assert Follows(calls, i);
    }
  }

  /** Each lifetime lasts at least a window and admits exactly its first `limit` INCRs. */
  lemma EachLifetimeAdmitsItsFirst(start: Time, cs: seq<Command>, window: nat, limit: nat)
    requires IsRun(Start(start), cs, window)
    ensures var s := After(Start(start), cs, window);
            && Spaced(s.births, window)
            && (forall i | 0 <= i < |s.calls| ::
                  Within(s.births, s.calls[i]) && (Admits(s.calls[i], limit) <==> Nth(s.calls, i) <= limit))
  {
    RunsKeepInv(Start(start), cs, window);
    var s := After(Start(start), cs, window);
    forall i | 0 <= i < |s.calls|
      ensures Admits(s.calls[i], limit) <==> Nth(s.calls, i) <= limit
    {
      CountIsNth(s.calls, i);
    }
  }

  /** Calls admitted in the half-open interval [from, to). */
  function AdmittedIn(calls: seq<Counted>, limit: nat, from: Time, to: Time): nat {
    if calls == [] then 0
    else
      var last := calls[|calls| - 1];
      AdmittedIn(calls[..|calls| - 1], limit, from, to)
      + if from <= last.at < to && Admits(last, limit) then 1 else 0
  }

  /** Calls of lifetime `life` numbered from `least` to `limit`. */
  function AdmittedOf(calls: seq<Counted>, life: nat, least: nat, limit: nat): nat {
    if calls == [] then 0
    else
      var last := calls[|calls| - 1];
      AdmittedOf(calls[..|calls| - 1], life, least, limit)
      + if last.life == life && least <= last.count <= limit then 1 else 0
  }

  lemma {:induction false} OneLifetimeIsBounded(calls: seq<Counted>, life: nat, least: nat, limit: nat)
    requires 1 <= least <= limit + 1
    requires calls != [] ==> calls[0].count == 1
    requires forall k | 0 < k < |calls| :: Follows(calls, k)
    ensures AdmittedOf(calls, life, least, limit) <= limit - least + 1
    ensures calls != [] && calls[|calls| - 1].life < life ==> AdmittedOf(calls, life, least, limit) == 0
    ensures calls != [] && calls[|calls| - 1].life == life ==>
              var c := calls[|calls| - 1].count;
              AdmittedOf(calls, life, least, limit) == if c < least then 0 else (if c <= limit then c else limit) - least + 1
    decreases |calls|
  {
    if |calls| > 1 {
      var rest := calls[..|calls| - 1];
      assert forall k | 0 < k < |rest| :: Follows(calls, k) && Follows(rest, k);
      OneLifetimeIsBounded(rest, life, least, limit);
      assert Follows(calls, |calls| - 1);
    } else if |calls| == 1 {
      assert calls[..0] == [];
    }
  }

  /** A call of the interval belongs to the lifetime of its first call or to the next one. */
  lemma OnlyTwoLifetimes(s: State, window: nat, from: Time, first: nat, j: nat)
    requires Inv(s, window) && first <= j < |s.calls|
    requires from <= s.calls[first].at && s.calls[j].at < from + window
    ensures s.calls[j].life == s.calls[first].life || s.calls[j].life == s.calls[first].life + 1
    ensures s.calls[first].count == 1 ==> s.calls[j].life == s.calls[first].life
    ensures s.calls[first].count > 1 && s.calls[j].life == s.calls[first].life ==> s.calls[j].count > 1
  {
    var a, b := s.calls[first], s.calls[j];
    assert Within(s.births, a) && Within(s.births, b);
    InOrder(s, window, first, j);
    if a.life + 1 < b.life {
      BirthsSpaced(s.births, window, a.life, b.life - 1);
    } else if a.life + 1 == b.life && a.count == 1 {
      BirthsSpaced(s.births, window, a.life - 1, b.life - 1);
    }
  }

  /** So the admitted calls of the interval are at most those two lifetimes can give. */
  function Cover(calls: seq<Counted>, first: Counted, limit: nat): nat {
    if first.count == 1 then AdmittedOf(calls, first.life, 1, limit)
    else AdmittedOf(calls, first.life, 2, limit) + AdmittedOf(calls, first.life + 1, 1, limit)
  }

  lemma {:induction false} TwoLifetimesCover(s: State, window: nat, limit: nat, from: Time, n: nat, first: nat)
    requires Inv(s, window) && first < n <= |s.calls|
    requires from <= s.calls[first].at < from + window
    requires forall i | 0 <= i < first :: s.calls[i].at < from
    ensures AdmittedIn(s.calls[..n], limit, from, from + window) <= Cover(s.calls[..n], s.calls[first], limit)
    decreases n
  {
    var calls := s.calls;
    var last := calls[n - 1];
    assert calls[..n][..n - 1] == calls[..n - 1];
    if last.at < from + window {
      OnlyTwoLifetimes(s, window, from, first, n - 1);
    }
    if n - 1 == first {
      NoneBefore(calls, limit, from, from + window, first);
    } else {
      TwoLifetimesCover(s, window, limit, from, n - 1, first);
    }
  }

  lemma {:induction false} NoneBefore(calls: seq<Counted>, limit: nat, from: Time, to: Time, n: nat)
    requires n <= |calls| && forall i | 0 <= i < n :: calls[i].at < from
    ensures AdmittedIn(calls[..n], limit, from, to) == 0
  {
    if n > 0 {
      NoneBefore(calls, limit, from, to, n - 1);
      assert calls[..n][..n - 1] == calls[..n - 1];
    }
  }

  lemma {:induction false} InOrder(s: State, window: nat, i: nat, j: nat)
    requires Inv(s, window) && i <= j < |s.calls|
    ensures s.calls[i].at <= s.calls[j].at && s.calls[i].life <= s.calls[j].life
    ensures s.calls[i].life == s.calls[j].life ==> s.calls[i].count + (j - i) == s.calls[j].count
    decreases j - i
  {
    if i < j {
      InOrder(s, window, i, j - 1);
      assert Follows(s.calls, j);
    }
  }

  lemma {:induction false} BirthsSpaced(births: seq<Time>, window: nat, i: nat, j: nat)
    requires Spaced(births, window) && i < j < |births|
    ensures births[i] + window <= births[j]
    decreases j - i
  {
    assert SpacedAt(births, j, window);
    if i + 1 < j {
      BirthsSpaced(births, window, i, j - 1);
    }
  }

  /** Any window-long interval admits at most 2 * limit - 1 calls, however late or lost the EXPIREs are. */
  lemma WindowAdmitsAtMost(start: Time, cs: seq<Command>, window: nat, limit: nat, from: Time)
    requires IsRun(Start(start), cs, window) && limit >= 1
    ensures AdmittedIn(After(Start(start), cs, window).calls, limit, from, from + window) <= 2 * limit - 1
  {
    RunsKeepInv(Start(start), cs, window);
    var s := After(Start(start), cs, window);
    var n := |s.calls|;
    assert s.calls[..n] == s.calls;
    var first := FirstFrom(s.calls, from);
    if first < n && s.calls[first].at < from + window {
      TwoLifetimesCover(s, window, limit, from, n, first);
      CoverIsBounded(s.calls, s.calls[first], limit);
    } else {
      NoneBefore(s.calls, limit, from, from + window, first);
      NoneAfter(s, limit, window, from, first, n);
    }
  }

  lemma CoverIsBounded(calls: seq<Counted>, first: Counted, limit: nat)
    requires limit >= 1
    requires calls != [] ==> calls[0].count == 1
    requires forall k | 0 < k < |calls| :: Follows(calls, k)
    ensures Cover(calls, first, limit) <= 2 * limit - 1
  {
    OneLifetimeIsBounded(calls, first.life, 1, limit);
    OneLifetimeIsBounded(calls, first.life, 2, limit);
    OneLifetimeIsBounded(calls, first.life + 1, 1, limit);
  }

  /** The first call not before `from`. */
  function FirstFrom(calls: seq<Counted>, from: Time): (k: nat)
    ensures k <= |calls|
    ensures forall i | 0 <= i < k :: calls[i].at < from
    ensures k < |calls| ==> from <= calls[k].at
  {
    if calls == [] || from <= calls[0].at then 0 else 1 + FirstFrom(calls[1..], from)
  }

  lemma {:induction false} NoneAfter(s: State, limit: nat, window: nat, from: Time, first: nat, n: nat)
    requires Inv(s, window) && first <= n <= |s.calls|
    requires first < |s.calls| ==> from + window <= s.calls[first].at
    requires AdmittedIn(s.calls[..first], limit, from, from + window) == 0
    ensures AdmittedIn(s.calls[..n], limit, from, from + window) == 0
    decreases n
  {
    if first < n {
      NoneAfter(s, limit, window, from, first, n - 1);
      assert s.calls[..n][..n - 1] == s.calls[..n - 1];
      InOrder(s, window, first, n - 1);
    }
  }

  // ---- The bound is attained ----

  /** n INCRs at one moment. */
  function Burst(now: Time, n: nat): seq<Command> {
    if n == 0 then [] else [IncrAndTtl(now)] + Burst(now, n - 1)
  }

  /** What they are answered, from `count` on. */
  function Answers(now: Time, life: nat, count: nat, n: nat): seq<Counted> {
    if n == 0 then [] else Answers(now, life, count, n - 1) + [Counted(now, life, count + n)]
  }

  lemma {:induction false} RunsAppend(s: State, a: seq<Command>, b: seq<Command>, window: nat)
    requires IsRun(s, a, window) && IsRun(After(s, a, window), b, window)
    ensures IsRun(s, a + b, window) && After(s, a + b, window) == After(After(s, a, window), b, window)
    decreases |a|
  {
    hide Do;
    if a == [] {
      assert a + b == b;
    } else {
      assert (a + b)[1..] == a[1..] + b;
      RunsAppend(Do(s, a[0], window), a[1..], b, window);
    }
  }

  lemma {:induction false} AnswersPrepend(now: Time, life: nat, count: nat, n: nat)
    ensures [Counted(now, life, count + 1)] + Answers(now, life, count + 1, n) == Answers(now, life, count, n + 1)
  {
    if n > 0 {
      AnswersPrepend(now, life, count, n - 1);
    }
  }

  lemma {:induction false} BurstRuns(s: State, now: Time, n: nat, window: nat)
    requires s.now <= now && s.key.Some? && Live(s.key, now).Some?
    ensures IsRun(s, Burst(now, n), window)
    ensures After(s, Burst(now, n), window)
            == State(Some(s.key.value.(count := s.key.value.count + n)), if n == 0 then s.now else now, s.births,
                     s.calls + Answers(now, |s.births|, s.key.value.count, n))
    decreases n
  {
    if n > 0 {
      var s1 := Do(s, IncrAndTtl(now), window);
      BurstRuns(s1, now, n - 1, window);
      assert Burst(now, n)[1..] == Burst(now, n - 1);
      AnswersPrepend(now, |s.births|, s.key.value.count, n - 1);
      assert s.calls + ([Counted(now, |s.births|, s.key.value.count + 1)] + Answers(now, |s.births|, s.key.value.count + 1, n - 1))
          == s1.calls + Answers(now, |s.births|, s.key.value.count + 1, n - 1);
    } else {
      assert s.calls + [] == s.calls;
    }
  }

  /** All of them are admitted while the limit lasts. */
  lemma {:induction false} AnswersAdmitted(
      calls: seq<Counted>, now: Time, life: nat, count: nat, n: nat, limit: nat, from: Time, to: Time)
    requires from <= now < to && count + n <= limit
    ensures AdmittedIn(calls + Answers(now, life, count, n), limit, from, to) == AdmittedIn(calls, limit, from, to) + n
    decreases n
  {
    if n == 0 {
      assert calls + [] == calls;
    } else {
      AnswersAdmitted(calls, now, life, count, n - 1, limit, from, to);
      var last := Counted(now, life, count + n);
      var front := calls + Answers(now, life, count, n - 1);
      assert calls + Answers(now, life, count, n) == front + [last];
      assert (front + [last])[..|front|] == front;
    }
  }

  /** A lifetime opened at 0 with its EXPIRE, spent to the limit at the last tick of the window. */
  function EarlyHalf(limit: nat, window: nat): seq<Command>
    requires limit >= 1 && window >= 1
  {
    [IncrAndTtl(0), SendExpire(0)] + Burst(window - 1, limit - 1)
  }

  lemma EarlyHalfRuns(limit: nat, window: nat)
    requires limit >= 1 && window >= 2
    ensures IsRun(Start(0), EarlyHalf(limit, window), window)
    ensures var s := After(Start(0), EarlyHalf(limit, window), window);
      && s.key == Some(Key(limit, Some(window))) && s.births == [0] && s.now <= window - 1
      && s.calls == [Counted(0, 1, 1)] + Answers(window - 1, 1, 1, limit - 1)
  {
    var opening := [IncrAndTtl(0), SendExpire(0)];
    var s1 := Do(Start(0), opening[0], window);
    var s2 := Do(s1, opening[1], window);
    assert opening[1..] == [SendExpire(0)] && opening[1..][1..] == [];
    assert IsRun(s1, opening[1..], window) && After(s1, opening[1..], window) == s2;
    BurstRuns(s2, window - 1, limit - 1, window);
    RunsAppend(Start(0), opening, Burst(window - 1, limit - 1), window);
  }

  /** One tick later the key has expired, and a new lifetime admits as many again. */
  lemma LateHalfRuns(s: State, limit: nat, window: nat)
    requires limit >= 1 && s.key == Some(Key(limit, Some(window))) && s.births == [0] && s.now <= window
    ensures IsRun(s, Burst(window, limit), window)
    ensures After(s, Burst(window, limit), window).calls
            == s.calls + [Counted(window, 2, 1)] + Answers(window, 2, 1, limit - 1)
  {
    var s1 := Do(s, IncrAndTtl(window), window);
    BurstRuns(s1, window, limit - 1, window);
    assert Burst(window, limit)[1..] == Burst(window, limit - 1);
  }

  /** For every limit, and every window of at least two ticks, some run attains the bound. */
  lemma BoundIsReached(limit: nat, window: nat)
    requires limit >= 1 && window >= 2
    ensures exists cs: seq<Command> ::
              && IsRun(Start(0), cs, window)
              && AdmittedIn(After(Start(0), cs, window).calls, limit, window - 1, window - 1 + window) == 2 * limit - 1
  {
    hide IsRun, After, Do;
    var from: Time := window - 1;
    var to := from + window;
    EarlyHalfRuns(limit, window);
    var s := After(Start(0), EarlyHalf(limit, window), window);
    LateHalfRuns(s, limit, window);
    var cs := EarlyHalf(limit, window) + Burst(window, limit);
    RunsAppend(Start(0), EarlyHalf(limit, window), Burst(window, limit), window);
    var first := [Counted(0, 1, 1)];
    assert first[..0] == [];
    assert AdmittedIn(first, limit, from, to) == 0;
    AnswersAdmitted(first, window - 1, 1, 1, limit - 1, limit, from, to);
    var next := Counted(window, 2, 1);
    assert (s.calls + [next])[..|s.calls|] == s.calls;
    assert AdmittedIn(s.calls + [next], limit, from, to) == limit;
    AnswersAdmitted(s.calls + [next], window, 2, 1, limit - 1, limit, from, to);
    assert AdmittedIn(After(Start(0), cs, window).calls, limit, from, from + window) == 2 * limit - 1;
  }

  // ---- A window of one tick ----

  /** A key alive at a tick outlives that tick, so a later lifetime starts strictly later. */
  ghost predicate Strict(s: State) {
    && (forall i | 0 <= i < |s.calls| && 1 <= s.calls[i].life < |s.births| :: s.calls[i].at < s.births[s.calls[i].life])
    && (s.calls != [] && s.key.Some? && s.key.value.expiry.Some? ==>
          s.calls[|s.calls| - 1].at < s.key.value.expiry.value)
    && (s.calls != [] && s.key.None? ==> s.calls[|s.calls| - 1].at < s.now)
  }

  lemma {:induction false} InTimeOrder(calls: seq<Counted>, i: nat, j: nat)
    requires i <= j < |calls| && forall k | 0 < k < |calls| :: Follows(calls, k)
    ensures calls[i].at <= calls[j].at
    decreases j - i
  {
    if i < j {
      InTimeOrder(calls, i, j - 1);
      assert Follows(calls, j);
    }
  }

  lemma StepKeepsStrict(s: State, c: Command, window: nat)
    requires window >= 1 && Inv(s, window) && Strict(s) && s.now <= c.now
    ensures Strict(Do(s, c, window))
  {
    var s' := Do(s, c, window);
    if c.IncrAndTtl? {
      forall i | 0 <= i < |s'.calls| && 1 <= s'.calls[i].life < |s'.births|
        ensures s'.calls[i].at < s'.births[s'.calls[i].life]
      {
        if i < |s.calls| {
          assert Within(s.births, s.calls[i]);
          InTimeOrder(s.calls, i, |s.calls| - 1);
        }
      }
    }
  }

  lemma {:induction false} RunsKeepStrict(s: State, cs: seq<Command>, window: nat)
    requires window >= 1 && Inv(s, window) && Strict(s) && IsRun(s, cs, window)
    ensures Strict(After(s, cs, window))
    decreases |cs|
  {
    hide Inv, Strict, Do;
    if cs != [] {
      StepKeepsInv(s, cs[0], window);
      StepKeepsStrict(s, cs[0], window);
      RunsKeepStrict(Do(s, cs[0], window), cs[1..], window);
    }
  }

  lemma OneTickOneLifetime(s: State, window: nat, i: nat, j: nat)
    requires Inv(s, window) && Strict(s) && i <= j < |s.calls| && s.calls[i].at == s.calls[j].at
    ensures s.calls[i].life == s.calls[j].life
  {
    var a, b := s.calls[i], s.calls[j];
    assert Within(s.births, a) && Within(s.births, b);
    InOrder(s, window, i, j);
    if a.life < b.life - 1 {
      BirthsSpaced(s.births, window, a.life, b.life - 1);
    }
  }

  lemma {:induction false} OneLifetimeCovers(calls: seq<Counted>, limit: nat, tick: Time, life: nat)
    requires forall i | 0 <= i < |calls| :: calls[i].count >= 1
    requires forall i | 0 <= i < |calls| && calls[i].at == tick :: calls[i].life == life
    ensures AdmittedIn(calls, limit, tick, tick + 1) <= AdmittedOf(calls, life, 1, limit)
    decreases |calls|
  {
    if calls != [] {
      OneLifetimeCovers(calls[..|calls| - 1], limit, tick, life);
    }
  }

  lemma TickHasOneLifetime(s: State, window: nat, tick: Time) returns (life: nat)
    requires Inv(s, window) && Strict(s)
    ensures forall i | 0 <= i < |s.calls| && s.calls[i].at == tick :: s.calls[i].life == life
    ensures forall i | 0 <= i < |s.calls| :: s.calls[i].count >= 1
  {
    assert forall i | 0 <= i < |s.calls| :: Within(s.births, s.calls[i]);
    life := 0;
    if k :| 0 <= k < |s.calls| && s.calls[k].at == tick {
      life := s.calls[k].life;
      forall i | 0 <= i < |s.calls| && s.calls[i].at == tick
        ensures s.calls[i].life == life
      {
        hide Inv, Strict;
        OneTickOneLifetime(s, window, if i < k then i else k, if i < k then k else i);
      }
    }
  }

  /** A window of one tick admits no more than the limit. */
  lemma OneTickAdmitsAtMost(start: Time, cs: seq<Command>, limit: nat, tick: Time)
    requires IsRun(Start(start), cs, 1) && limit >= 1
    ensures AdmittedIn(After(Start(start), cs, 1).calls, limit, tick, tick + 1) <= limit
  {
    RunsKeepInv(Start(start), cs, 1);
    RunsKeepStrict(Start(start), cs, 1);
    var s := After(Start(start), cs, 1);
    hide IsRun, After, Strict;
    var life := TickHasOneLifetime(s, 1, tick);
    OneLifetimeCovers(s.calls, limit, tick, life);
    OneLifetimeIsBounded(s.calls, life, 1, limit);
  }

  lemma OneBurstRuns(limit: nat)
    requires limit >= 1
    ensures IsRun(Start(0), Burst(0, limit), 1)
    ensures After(Start(0), Burst(0, limit), 1).calls == [Counted(0, 1, 1)] + Answers(0, 1, 1, limit - 1)
  {
    var s1 := Do(Start(0), IncrAndTtl(0), 1);
    BurstRuns(s1, 0, limit - 1, 1);
    assert Burst(0, limit)[1..] == Burst(0, limit - 1);
  }

  /** And attains it. */
  lemma OneTickBoundIsReached(limit: nat)
    requires limit >= 1
    ensures exists cs: seq<Command> ::
              IsRun(Start(0), cs, 1) && AdmittedIn(After(Start(0), cs, 1).calls, limit, 0, 1) == limit
  {
    hide IsRun, After, Do;
    OneBurstRuns(limit);
    var first := [Counted(0, 1, 1)];
    assert first[..0] == [];
    assert AdmittedIn(first, limit, 0, 1) == 1;
    AnswersAdmitted(first, 0, 1, 1, limit - 1, limit, 0, 1);
    assert AdmittedIn(After(Start(0), Burst(0, limit), 1).calls, limit, 0, 1) == limit;
  }
}
