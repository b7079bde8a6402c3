/**
  The in-process TTL cache as its critical sections: what each section held under the
  mutex does to the map, in any interleaving.
 */
module CacheSteps {
  import opened Wrappers
  import opened Basics

  type Key = nat
  type Time = int

  datatype Entry<V> = Entry(value: V, expiresAt: Time)

  type Items<V> = map<Key, Entry<V>>

  /** now.After(e.expiresAt) */
  predicate Expired<V>(e: Entry<V>, now: Time) {
    now > e.expiresAt
  }

  /** What dropping the expired entries leaves. */
  function Live<V>(items: Items<V>, now: Time): Items<V> {
    map k | k in items && !Expired(items[k], now) :: items[k]
  }

  function Target(n: nat): nat {
    if n / 100 < 1 then 1 else n / 100
  }

  /** `kept` is a part of `items`, each entry as it was. */
  ghost predicate PartOf<V>(kept: Items<V>, items: Items<V>) {
    forall k | k in kept :: k in items && kept[k] == items[k]
  }

  /** What evictLocked may leave: the live entries or, when those still fill the map, a sample fewer. */
  ghost predicate Evicts<V>(items: Items<V>, now: Time, maxEntries: nat, kept: Items<V>) {
    var live := Live(items, now);
    if |live| < maxEntries then kept == live
    else PartOf(kept, live) && |kept| + Target(|live|) == |live|
  }

  ghost predicate MustEvict<V>(items: Items<V>, key: Key, maxEntries: nat) {
    |items| >= maxEntries && key !in items
  }

  /** What a Set of `key` keeps of the entries it finds. */
  ghost predicate Keeps<V>(items: Items<V>, key: Key, now: Time, maxEntries: nat, kept: Items<V>) {
    if MustEvict(items, key, maxEntries) then Evicts(items, now, maxEntries, kept) else kept == items
  }

  /** A Get between its two sections, with the write it would have to answer for. */
  datatype Pending<V> = Pending(key: Key, found: Option<Entry<V>>, expected: Option<Entry<V>>)

  /** `last[k]` is the last Set of k not followed by a Delete. */
  datatype State<V> = State(items: Items<V>, gets: map<nat, Pending<V>>, last: map<Key, Entry<V>>)

  datatype Step<V> =
    | Read(g: nat, key: Key)
    | Return(g: nat, now: Time)
    | Expire(g: nat, now: Time)
    | Set(key: Key, value: V, ttl: Time, now: Time, kept: Items<V>)
    | Delete(keys: set<Key>)
    | Sweep(now: Time)

  function LastOf<V>(last: map<Key, Entry<V>>, key: Key): Option<Entry<V>> {
    if key in last then Some(last[key]) else None
  }

  ghost predicate Enabled<V>(maxEntries: nat, s: State<V>, step: Step<V>) {
    match step
    case Read(g, _) => g !in s.gets
    case Return(g, now) => g in s.gets && (s.gets[g].found.Some? ==> !Expired(s.gets[g].found.value, now))
    case Expire(g, _) => g in s.gets && s.gets[g].found.Some?
    case Set(key, _, ttl, now, kept) =>
      ttl > 0 && Keeps(s.items, key, now, maxEntries, kept)
    case Delete(_) => true
    case Sweep(_) => true
  }

  ghost function Do<V>(s: State<V>, step: Step<V>): State<V> {
    match step
    case Read(g, key) =>
      s.(gets := s.gets[g := Pending(key, if key in s.items then Some(s.items[key]) else None, LastOf(s.last, key))])
    case Return(g, _) => s.(gets := s.gets - {g})
    case Expire(g, now) =>
      var key := if g in s.gets then s.gets[g].key else 0;
      s.(gets := s.gets - {g},
         items := if key in s.items && now >= s.items[key].expiresAt then s.items - {key} else s.items)
    case Set(key, value, ttl, now, kept) =>
      s.(items := kept[key := Entry(value, now + ttl)], last := s.last[key := Entry(value, now + ttl)])
    case Delete(keys) => s.(items := s.items - keys, last := s.last - keys)
    case Sweep(now) => s.(items := Live(s.items, now))
  }

  ghost predicate IsRun<V>(maxEntries: nat, s: State<V>, steps: seq<Step<V>>)
    decreases |steps|
  {
    steps != [] ==> Enabled(maxEntries, s, steps[0]) && IsRun(maxEntries, Do(s, steps[0]), steps[1..])
  }

  ghost function After<V>(s: State<V>, steps: seq<Step<V>>): State<V>
    decreases |steps|
  {
    if steps == [] then s else After(Do(s, steps[0]), steps[1..])
  }

  ghost function Start<V>(): State<V> {
    State(map[], map[], map[])
  }

  /** What is cached is what was last set. */
  ghost predicate Faithful<V>(items: Items<V>, last: map<Key, Entry<V>>) {
    forall k | k in items :: LastOf(last, k) == Some(items[k])
  }

  ghost predicate Inv<V>(maxEntries: nat, s: State<V>) {
    && |s.items| <= maxEntries
    && Faithful(s.items, s.last)
    && (forall g | g in s.gets && s.gets[g].found.Some? :: s.gets[g].expected == s.gets[g].found)
  }

  lemma PartIsSmaller<V>(kept: Items<V>, items: Items<V>)
    requires PartOf(kept, items)
    ensures |kept| <= |items|
    ensures |kept| == |items| ==> kept == items
  {
    SubsetSize(kept.Keys, items.Keys);
    assert |kept.Keys| == |kept| && |items.Keys| == |items|;
    if |kept| == |items| {
      assert kept.Keys == items.Keys;
      assert kept == items;
    }
  }

  lemma LiveIsPart<V>(items: Items<V>, now: Time)
    ensures PartOf(Live(items, now), items) && |Live(items, now)| <= |items|
  {
    PartIsSmaller(Live(items, now), items);
  }

  /** Eviction always makes room for one more. */
  lemma EvictionMakesRoom<V>(items: Items<V>, now: Time, maxEntries: nat, kept: Items<V>)
    requires |items| <= maxEntries && maxEntries >= 1 && Evicts(items, now, maxEntries, kept)
    ensures PartOf(kept, items) && |kept| < maxEntries
  {
    LiveIsPart(items, now);
  }

  lemma SetKeepsInv<V>(maxEntries: nat, s: State<V>, step: Step<V>)
    requires maxEntries >= 1 && Inv(maxEntries, s) && Enabled(maxEntries, s, step) && step.Set?
    ensures Inv(maxEntries, Do(s, step))
  {
    hide Evicts, Live;
    var Set(key, value, ttl, now, kept) := step;
    if MustEvict(s.items, key, maxEntries) {
      EvictionMakesRoom(s.items, now, maxEntries, kept);
    }
    InsertSize(kept, key, Entry(value, now + ttl), maxEntries);
  }

  /** Sections that only take entries out, or none. */
  lemma RemovalKeepsInv<V>(maxEntries: nat, s: State<V>, step: Step<V>)
    requires Inv(maxEntries, s) && Enabled(maxEntries, s, step) && !step.Set?
    ensures PartOf(Do(s, step).items, s.items)
    ensures |Do(s, step).items| <= maxEntries && Faithful(Do(s, step).items, Do(s, step).last)
  {
    PartIsSmaller(Do(s, step).items, s.items);
  }

  lemma StepKeepsInv<V>(maxEntries: nat, s: State<V>, step: Step<V>)
    requires maxEntries >= 1 && Inv(maxEntries, s) && Enabled(maxEntries, s, step)
    ensures Inv(maxEntries, Do(s, step))
  {
    if step.Set? {
      SetKeepsInv(maxEntries, s, step);
    } else {
      RemovalKeepsInv(maxEntries, s, step);
      hide Live;
    }
  }

  lemma InsertSize<V>(items: Items<V>, key: Key, e: Entry<V>, maxEntries: nat)
    requires |items| <= maxEntries && (key !in items ==> |items| < maxEntries)
    ensures |items[key := e]| <= maxEntries
  {
    assert items[key := e].Keys == items.Keys + {key};
  }

  lemma {:induction false} RunsKeepInv<V>(maxEntries: nat, s: State<V>, steps: seq<Step<V>>)
    requires maxEntries >= 1 && Inv(maxEntries, s) && IsRun(maxEntries, s, steps)
    ensures Inv(maxEntries, After(s, steps))
    decreases |steps|
  {
    hide Inv, Enabled, Do;
    if steps != [] {
      StepKeepsInv(maxEntries, s, steps[0]);
      RunsKeepInv(maxEntries, Do(s, steps[0]), steps[1..]);
    }
  }

  /** In every interleaving the cache stays within its bound, and a Get finds only the last Set not yet deleted. */
  lemma CacheIsBoundedAndFaithful<V>(maxEntries: nat, steps: seq<Step<V>>, g: nat)
    requires maxEntries >= 1 && IsRun(maxEntries, Start(), steps)
    ensures |After(Start(), steps).items| <= maxEntries
    ensures g in After(Start(), steps).gets && After(Start(), steps).gets[g].found.Some? ==>
              After(Start(), steps).gets[g].found == After(Start(), steps).gets[g].expected
  {
    RunsKeepInv(maxEntries, Start(), steps);
  }

  /**
    What can make an entry disappear: a Delete of its key; its own expiry; or, when a Set
    of a new key finds the cache full, eviction, which touches an unexpired entry only if
    nothing at all has expired.
   */
  lemma WhyEntriesGo<V>(maxEntries: nat, s: State<V>, step: Step<V>, k: Key)
    requires maxEntries >= 1 && Inv(maxEntries, s) && Enabled(maxEntries, s, step)
    requires k in s.items && k !in Do(s, step).items
    ensures step.Delete? || step.Expire? || step.Sweep? || step.Set?
    ensures step.Delete? ==> k in step.keys
    ensures step.Expire? ==> s.items[k].expiresAt <= step.now
    ensures step.Sweep? ==> s.items[k].expiresAt < step.now
    ensures step.Set? ==> k != step.key && |s.items| == maxEntries && step.key !in s.items
    ensures step.Set? && step.now <= s.items[k].expiresAt ==>
              && (forall j | j in s.items :: step.now <= s.items[j].expiresAt)
              && |Do(s, step).items| + Target(maxEntries) == maxEntries + 1
  {
    if step.Set? {
      var live := Live(s.items, step.now);
      LiveIsPart(s.items, step.now);
      if step.now <= s.items[k].expiresAt {
        assert k in live;
        PartIsSmaller(live, s.items);
        assert live == s.items;
        assert Do(s, step).items.Keys == step.kept.Keys + {step.key};
      }
    }
  }

  /**
    And what can make one appear, or change: a Set of its key, which leaves the value set and
    the time it was given to live.  A Delete leaves none of its keys, a sweep nothing expired.
   */
  lemma WhyEntriesCome<V>(maxEntries: nat, s: State<V>, step: Step<V>, k: Key)
    requires maxEntries >= 1 && Inv(maxEntries, s) && Enabled(maxEntries, s, step)
    ensures step.Set? ==>
              step.key in Do(s, step).items && Do(s, step).items[step.key] == Entry(step.value, step.now + step.ttl)
    ensures k in Do(s, step).items && !(k in s.items && Do(s, step).items[k] == s.items[k]) ==> step.Set? && k == step.key
    ensures step.Delete? && k in step.keys ==> k !in Do(s, step).items
    ensures step.Sweep? && k in Do(s, step).items ==> step.now <= s.items[k].expiresAt
  {
    if step.Set? && MustEvict(s.items, step.key, maxEntries) {
      EvictionMakesRoom(s.items, step.now, maxEntries, step.kept);
    }
  }
}
