/** Cache-aside fetching over a `PersistentCache`: depending on the policy, answer from the
    cache, ask the origin (`request`) and store its answer, or both. */
module CacheProvider {
  import opened Wrappers
  import opened MemoryCache
  import PersistentStorage
  import KeyValueStorage
  import opened PersistentCache

  /** What a completion handler receives: a value, an error, both or neither. */
  datatype Reply<V, E> = Reply(value: Option<V>, error: Option<E>)

  /** The outcome of one `fetch`: whether `request` was invoked, what `completion` received
      (`None` when it was not called), and the hot tier afterwards. `reply` is the answer the
      origin gives, or `None` when `request` never calls back (the base class's `request`
      does nothing). */
  function FetchOutcome<K(==), V, E>(hot: map<K, CacheItem<V>>, key: K, policy: CachePolicy, now: int, defaultLifetime: int,
                                     reply: Option<Reply<V, E>>): (r: (bool, Option<Reply<V, E>>, map<K, CacheItem<V>>))
    ensures r.0 <==> policy.IgnoreCache? || (!policy.OnlyCached? && ReadThrough(hot, key, policy, now).0.None?)
    ensures !r.0 ==> r.1 == Some(Reply(ReadThrough(hot, key, policy, now).0, None)) && r.2 == ReadThrough(hot, key, policy, now).1
    ensures r.0 ==> r.1 == reply
    ensures r.0 && reply.None? && !policy.IgnoreCache? ==> r.2 == ReadThrough(hot, key, policy, now).1
    ensures r.0 && reply.Some? && !policy.IgnoreCache? ==>
              r.2 == WriteThrough(ReadThrough(hot, key, policy, now).1, key, reply.value.value, policy, now, defaultLifetime)
    ensures policy.IgnoreCache? && reply.Some? && reply.value.value.Some? ==>
              r.2 == UpdateThrough(hot, key, reply.value.value.value, now, defaultLifetime)
    ensures policy.IgnoreCache? && reply.Some? && reply.value.value.None? && reply.value.error.None? ==> r.2 == hot - {key}
    ensures policy.IgnoreCache? && (reply.None? || (reply.value.value.None? && reply.value.error.Some?)) ==> r.2 == hot
  {
    match policy
    case OnlyCached =>
      var (cached, hot') := ReadThrough(hot, key, policy, now);
      (false, Some(Reply(cached, None)), hot')
    case IgnoreCache =>
      (match reply
       case None => (true, None, hot)
       case Some(Reply(value, error)) =>
         if value.Some? then (true, reply, UpdateThrough(hot, key, value.value, now, defaultLifetime))
         else if error.None? then (true, reply, WriteThrough(hot, key, None, OnlyIfCache, now, defaultLifetime))
         else (true, reply, hot))
    case OnlyIfCache | MaxAge(_) | Immutable =>
      var (cached, hot') := ReadThrough(hot, key, policy, now);
      if cached.Some? then (false, Some(Reply(cached, None)), hot')
      else
        match reply
        case None => (true, None, hot')
        case Some(Reply(value, _)) => (true, reply, WriteThrough(hot', key, value, policy, now, defaultLifetime))
  }

  /** Whether a fetch touches the cache and so runs its first hydration: every policy but
      `ignoreCache` reads it, and `ignoreCache` writes to it only when the origin answers with
      a value, or with neither value nor error. */
  predicate Hydrates<V, E>(policy: CachePolicy, reply: Option<Reply<V, E>>)
  {
    !policy.IgnoreCache? || (reply.Some? && (reply.value.value.Some? || reply.value.error.None?))
  }

  /** After a miss answered with a value, the next fetch at the same instant under the same
      storing policy is a hit that returns that value without asking the origin. */
  lemma FetchThenHit<K, V, E>(hot: map<K, CacheItem<V>>, key: K, policy: CachePolicy, now: int, defaultLifetime: int, v: V, error: Option<E>)
    requires policy.OnlyIfCache? || policy.MaxAge? || policy.Immutable?
    requires Lifetime(policy, defaultLifetime) >= 0
    requires ReadThrough(hot, key, policy, now).0.None?
    ensures var first := FetchOutcome(hot, key, policy, now, defaultLifetime, Some(Reply(Some(v), error)));
            var second := FetchOutcome<K, V, E>(first.2, key, policy, now, defaultLifetime, None);
            !second.0 && second.1 == Some(Reply(Some(v), None))
  {
    WriteThenRead(ReadThrough(hot, key, policy, now).1, key, v, policy, now, defaultLifetime);
  }

  /** A miss answered with no value removes the key, even when an error came with it. */
  lemma MissWithoutValueRemoves<K, V, E>(hot: map<K, CacheItem<V>>, key: K, policy: CachePolicy, now: int, defaultLifetime: int, error: Option<E>)
    requires policy.OnlyIfCache? || policy.MaxAge? || policy.Immutable?
    requires ReadThrough(hot, key, policy, now).0.None?
    ensures key !in FetchOutcome(hot, key, policy, now, defaultLifetime, Some(Reply(None, error))).2
  {
  }

  /** `ignoreCache` keeps a live entry's own lifetime when it refreshes it. */
  lemma IgnoreCacheKeepsLifetime<K, V, E>(hot: map<K, CacheItem<V>>, key: K, now: int, defaultLifetime: int, v: V, error: Option<E>)
    requires key in Live(hot, now)
    ensures var r := FetchOutcome(hot, key, IgnoreCache, now, defaultLifetime, Some(Reply(Some(v), error)));
            key in r.2 && r.2[key] == CacheItem(now, hot[key].maxage, v)
  {
  }

  /** A fetch under `onlyCached` never asks the origin, whatever the origin would answer. */
  lemma OnlyCachedNeverRequests<K, V, E>(hot: map<K, CacheItem<V>>, key: K, now: int, defaultLifetime: int, reply: Option<Reply<V, E>>)
    ensures !FetchOutcome(hot, key, OnlyCached, now, defaultLifetime, reply).0
    ensures FetchOutcome(hot, key, OnlyCached, now, defaultLifetime, reply) == FetchOutcome<K, V, E>(hot, key, OnlyCached, now, defaultLifetime, None)
  {
  }

  class PersistentCacheProvider<K(==), V(==), E> {
    const persistentCache: PersistentCache<K, V>

    constructor (persistentCache: PersistentCache<K, V>)
      ensures this.persistentCache == persistentCache
    {
      this.persistentCache := persistentCache;
    }

    /** `fetch(key:policy:completion:)`, with the origin's answer given as `reply`. */
    method Fetch(key: K, policy: CachePolicy, now: int, reply: Option<Reply<V, E>>) returns (requested: bool, completion: Option<Reply<V, E>>)
      requires persistentCache.Valid()
      modifies persistentCache, persistentCache.memoryCache, persistentCache.persistentStorage
      ensures persistentCache.Valid()
      ensures (requested, completion, persistentCache.HotTier(now))
              == FetchOutcome(old(persistentCache.HotTier(now)), key, policy, now, persistentCache.defaultLifetime, reply)
      ensures persistentCache.DurableTier(now) == old(persistentCache.DurableTier(now))
      ensures persistentCache.hydrated == (old(persistentCache.hydrated) || Hydrates(policy, reply))
      ensures persistentCache.persistentStorage.haveChanges
              == (old(persistentCache.persistentStorage.haveChanges) || (Hydrates(policy, reply) && old(persistentCache.HydrationDirties(now))))
      ensures !persistentCache.hydrated ==> persistentCache.persistentStorage.Table() == old(persistentCache.persistentStorage.Table())
      ensures persistentCache.persistentStorage.storage == old(persistentCache.persistentStorage.storage)
      ensures persistentCache.persistentStorage.writes == old(persistentCache.persistentStorage.writes)
    {
      match policy
      case OnlyCached =>
        var value := persistentCache.Get(key, policy, now);
        return false, Some(Reply(value, None));
      case IgnoreCache =>
        requested, completion := true, reply;
        if reply.Some? {
          if reply.value.value.Some? {
            persistentCache.Update(key, reply.value.value.value, now);
          } else if reply.value.error.None? {
            persistentCache.Set(key, None, OnlyIfCache, now);
          }
        }
      case OnlyIfCache | MaxAge(_) | Immutable =>
        var value := persistentCache.Get(key, policy, now);
        if value.Some? {
          return false, Some(Reply(value, None));
        }
        requested, completion := true, reply;
        if reply.Some? {
          persistentCache.Set(key, reply.value.value, policy, now);
        }
    }

    /** `reset()`: empties the hot tier, then synchronises, so the durable tier keeps only its
        own live entries. The store is written exactly when it was dirty or had an outdated
        entry, and stays dirty exactly when that write failed. */
    method Reset(now: int)
      requires persistentCache.Valid()
      modifies persistentCache, persistentCache.memoryCache, persistentCache.persistentStorage
      ensures persistentCache.Valid()
      ensures persistentCache.HotTier(now) == map[]
      ensures persistentCache.persistentStorage.Table() == Live(old(persistentCache.persistentStorage.Table()), now)
      ensures !(old(persistentCache.persistentStorage.haveChanges) || !AllLive(old(persistentCache.persistentStorage.Table()), now)) ==>
                !persistentCache.persistentStorage.haveChanges
                && persistentCache.persistentStorage.storage == old(persistentCache.persistentStorage.storage)
                && persistentCache.persistentStorage.writes == old(persistentCache.persistentStorage.writes)
      ensures (old(persistentCache.persistentStorage.haveChanges) || !AllLive(old(persistentCache.persistentStorage.Table()), now)) ==>
                (!persistentCache.persistentStorage.haveChanges, persistentCache.persistentStorage.storage)
                == PersistentStorage.Write(old(persistentCache.persistentStorage.storage), KeyValueStorage.Snapshot(persistentCache.persistentStorage.Table()))
                && persistentCache.persistentStorage.writes == old(persistentCache.persistentStorage.writes) + 1
    {
      ghost var table0 := persistentCache.persistentStorage.Table();
      persistentCache.RemoveAll(now);
      LiveShrinks(table0, now, now);
      LiveUnchangedIff(table0, now);
      var _ := persistentCache.Synchronize(now);
    }
  }
}
