/**
  cache.Memory, one call at a time, and the trait read-through of personality.Service on
  top of it.
 */
module Cache {
  import opened Wrappers
  import opened CacheSteps
  import BigFive = Traits
  import ScoreSpec
  import Scoring

  /** An unexpired entry is given up only when nothing at all has expired. */
  ghost predicate Spares<V>(before: Items<V>, after: Items<V>, now: Time) {
    forall k | k in before && now <= before[k].expiresAt && k !in after ::
      forall j | j in before :: now <= before[j].expiresAt
  }

  class Memory<V(==)> {
    var items: Items<V>
    const maxEntries: nat

    ghost predicate Valid()
      reads this
    {
      maxEntries >= 1 && |items| <= maxEntries
    }

    constructor (maxEntries: int)
      ensures Valid() && items == map[]
      ensures this.maxEntries == if maxEntries <= 0 then 50000 else maxEntries
    {
      this.maxEntries := if maxEntries <= 0 then 50000 else maxEntries;
      items := map[];
    }

    /** `now` and `later` are its two looks at the clock. */
    method Get(key: Key, now: Time, later: Time) returns (hit: Option<V>)
      requires Valid() && now <= later
      modifies this`items
      ensures Valid()
      ensures hit == if key in old(items) && now <= old(items)[key].expiresAt then Some(old(items)[key].value) else None
      ensures items == if key in old(items) && old(items)[key].expiresAt < now then old(items) - {key} else old(items)
    {
      if key !in items {
        return None;
      }
      var e := items[key];
      if Expired(e, now) {
        if key in items && later >= items[key].expiresAt {
          PartIsSmaller(items - {key}, items);
          items := items - {key};
        }
        return None;
      }
      return Some(e.value);
    }

    method Set(key: Key, value: V, ttl: Time, now: Time)
      requires Valid()
      modifies this`items
      ensures Valid()
      ensures ttl <= 0 ==> items == old(items)
      ensures ttl > 0 ==>
                exists kept :: Keeps(old(items), key, now, maxEntries, kept) && items == kept[key := Entry(value, now + ttl)]
      ensures ttl > 0 ==> key in items && items[key] == Entry(value, now + ttl)
      ensures forall k | k in items && k != key :: k in old(items) && items[k] == old(items)[k]
      ensures ttl > 0 && (key in old(items) || |old(items)| < maxEntries) ==> forall k | k in old(items) :: k in items
      ensures Spares(old(items), items, now)
    {
      if ttl <= 0 {
        return;
      }
      if |items| >= maxEntries {
        if key !in items {
          Evict(now);
        }
      }
      ghost var kept := items;
      assert Keeps(old(items), key, now, maxEntries, kept);
      InsertSize(items, key, Entry(value, now + ttl), maxEntries);
      KeptOf(old(items), key, now, maxEntries, kept);
      items := items[key := Entry(value, now + ttl)];
    }

    /** evictLocked; `:|` is the map's random iteration order. */
    method Evict(now: Time)
      requires Valid()
      modifies this`items
      ensures Evicts(old(items), now, maxEntries, items)
      ensures |items| < maxEntries
      ensures forall k | k in items :: k in old(items) && items[k] == old(items)[k] && now <= old(items)[k].expiresAt
      ensures var live := |Live(old(items), now)|;
              |items| == if live < maxEntries then live else if live < 200 then live - 1 else live - live / 100
    {
      DropExpired(now);
      EvictionNeeds(old(items), now, maxEntries);
      if |items| < maxEntries {
        return;
      }
      ghost var live := items;
      var target := |items| / 100;
      if target < 1 {
        target := 1;
      }
      while target > 0
        invariant 0 <= target <= |items|
        invariant PartOf(items, live)
        invariant |items| + Target(|live|) == |live| + target
        decreases target
      {
        var k :| k in items;
        assert (items - {k}).Keys == items.Keys - {k};
        items := items - {k};
        target := target - 1;
      }
    }

    /** The sweep of the janitor, and the first loop of evictLocked. */
    method DropExpired(now: Time)
      requires Valid()
      modifies this`items
      ensures Valid() && items == Live(old(items), now)
      ensures forall k :: k in items <==> k in old(items) && now <= old(items)[k].expiresAt
      ensures forall k | k in items :: items[k] == old(items)[k]
    {
      var left := items.Keys;
      while left != {}
        invariant left <= items.Keys && PartOf(items, old(items)) && |items| <= maxEntries
        invariant forall k | k in old(items) :: k in items <==> k in left || !Expired(old(items)[k], now)
        decreases |left|
      {
        var k :| k in left;
        left := left - {k};
        if Expired(items[k], now) {
          PartIsSmaller(items - {k}, items);
          items := items - {k};
        }
      }
      assert items == Live(old(items), now);
    }

    method Delete(keys: seq<Key>)
      requires Valid()
      modifies this`items
      ensures Valid()
      ensures items == old(items) - (set k | k in keys)
      ensures forall k :: k in items <==> k in old(items) && k !in keys
    {
      for i := 0 to |keys|
        invariant PartOf(items, old(items)) && |items| <= maxEntries
        invariant forall k :: k in items <==> k in old(items) && k !in keys[..i]
      {
        PartIsSmaller(items - {keys[i]}, items);
        assert keys[..i + 1] == keys[..i] + [keys[i]];
        items := items - {keys[i]};
      }
      assert keys[..|keys|] == keys;
    }
  }

  lemma KeptOf<V>(items: Items<V>, key: Key, now: Time, maxEntries: nat, kept: Items<V>)
    requires |items| <= maxEntries && Keeps(items, key, now, maxEntries, kept)
    ensures PartOf(kept, items)
    ensures Spares(items, kept, now)
  {
    var live := Live(items, now);
    LiveIsPart(items, now);
    PartIsSmaller(live, items);
    forall k | k in items && now <= items[k].expiresAt && k !in kept
      ensures live == items
    {
      assert k in live;
    }
  }

  lemma EvictionNeeds<V>(items: Items<V>, now: Time, maxEntries: nat)
    requires |items| <= maxEntries
    ensures |Live(items, now)| <= maxEntries
  {
    LiveIsPart(items, now);
  }

  /** A Get left alone between its two sections does what Memory.Get does. */
  lemma GetIsItsTwoSections<V>(s: State<V>, maxEntries: nat, g: nat, key: Key, now: Time, later: Time)
    requires g !in s.gets && now <= later
    ensures var read := Do(s, Read(g, key));
      if key !in s.items || !Expired(s.items[key], now) then
        Enabled(maxEntries, read, Return(g, now)) && Do(read, Return(g, now)).items == s.items
      else
        Enabled(maxEntries, read, Expire(g, later)) && Do(read, Expire(g, later)).items == s.items - {key}
  {
  }

  // ---- The trait read-through ----

  datatype Assessment = Assessment(traits: BigFive.Vector, assessedAt: Time)

  datatype Error = NoAnswers | RetakeTooSoon | NotScored(reason: Scoring.Error) | NotFound
  datatype Result<T> = Ok(value: T) | Err(error: Error)

  /** A user's cache key is the user. */
  class TraitService {
    const cache: Memory<BigFive.Vector>
    const ttl: Time
    const retakeIn: Time
    var stored: map<Key, Assessment>

    /** What is cached is what is stored. */
    ghost predicate Valid()
      reads this, cache
    {
      && cache.Valid()
      && forall u | u in cache.items :: u in stored && cache.items[u].value == stored[u].traits
    }

    constructor (cache: Memory<BigFive.Vector>, ttl: Time, retakeIn: Time)
      requires cache.Valid() && cache.items == map[]
      ensures Valid() && stored == map[]
      ensures this.cache == cache && this.ttl == ttl && this.retakeIn == retakeIn
    {
      this.cache, this.ttl, this.retakeIn := cache, ttl, retakeIn;
      stored := map[];
    }

    /** The last assessment is not yet `retakeIn` old, and there is such a limit. */
    ghost predicate TooSoon(user: Key, now: Time)
      reads this`stored
    {
      retakeIn > 0 && user in stored && now - stored[user].assessedAt < retakeIn
    }

    /** What Score accepts is stored as it is, and is complete. */
    method Submit(user: Key, questions: seq<ScoreSpec.Question>, answers: seq<ScoreSpec.Answer>, now: Time)
      returns (r: Result<BigFive.Vector>)
      requires Valid() && ScoreSpec.DistinctIds(questions)
      modifies this`stored, cache`items
      ensures Valid()
      ensures answers == [] <==> r == Err(NoAnswers)
      ensures answers != [] && old(TooSoon(user, now)) <==> r == Err(RetakeTooSoon)
      ensures r.Err? ==> !r.error.NotFound?
      ensures r.Ok? <==>
                && answers != [] && !old(TooSoon(user, now))
                && questions != [] && ScoreSpec.IsBijection(questions, answers)
                && forall k :: BigFive.IsTraitKey(k) ==> Scoring.HasItems(questions, k)
      ensures r.Ok? ==>
                && BigFive.IsComplete(r.value)
                && exists scores :: r.value == ScoreSpec.AsVector(scores)
                                    && ScoreSpec.IsScore(questions, ScoreSpec.ValuesOf(answers), scores)
      ensures stored == if r.Ok? then old(stored)[user := Assessment(r.value, now)] else old(stored)
    {
      if |answers| == 0 {
        return Err(NoAnswers);
      }
      if user in stored && retakeIn > 0 && stored[user].assessedAt + retakeIn > now {
        return Err(RetakeTooSoon);
      }
      var scored := Scoring.Score(questions, answers);
      if scored.Err? {
        return Err(NotScored(scored.error));
      }
      var traits := ScoreSpec.AsVector(scored.value);
      stored := stored[user := Assessment(traits, now)];
      cache.Delete([user]);
      return Ok(traits);
    }

    /** repo.Get: an incomplete vector counts as none. */
    method Load(user: Key) returns (r: Result<BigFive.Vector>)
      ensures r == if user in stored && BigFive.IsComplete(stored[user].traits) then Ok(stored[user].traits)
                   else Err(NotFound)
    {
      if user !in stored {
        return Err(NotFound);
      }
      var complete := BigFive.Complete(stored[user].traits);
      BigFive.CompleteMeans(stored[user].traits);
      return if complete then Ok(stored[user].traits) else Err(NotFound);
    }

    /** Whatever the cache holds, has evicted or has expired, the answer is the stored vector, if it is complete. */
    method Traits(user: Key, now: Time, later: Time) returns (r: Result<BigFive.Vector>)
      requires Valid() && now <= later
      modifies cache`items
      ensures Valid()
      ensures r == if user in stored && BigFive.IsComplete(stored[user].traits) then Ok(stored[user].traits)
                   else Err(NotFound)
      ensures r.Ok? && ttl > 0 ==> user in cache.items && cache.items[user].value == r.value
    {
      hide BigFive.IsComplete, Keeps, Spares;
      var hit := cache.Get(user, now, later);
      if hit.Some? {
        var complete := BigFive.Complete(hit.value);
        BigFive.CompleteMeans(hit.value);
        if complete {
          return Ok(hit.value);
        }
        cache.Delete([user]);
      }
      r := Load(user);
      if r.Err? {
        return;
      }
      cache.Set(user, r.value, ttl, later);
    }
  }
}
