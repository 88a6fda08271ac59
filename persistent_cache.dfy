/** The two-tier cache: a memory cache (the hot tier) hydrated lazily from a persistent
    key-value store of the same entries (the durable tier), a five-case policy for reads and
    writes, and a `synchronize` that copies the hot tier back. */
module PersistentCache {
  import opened Wrappers
  import opened MemoryCache
  import opened PersistentStorage
  import opened KeyValueStorage

  /** Seven days, the lifetime a cache gives entries unless told otherwise. */
  const DefaultLifetime: int := 7 * 24 * 60 * 60

  datatype CachePolicy = OnlyIfCache | IgnoreCache | MaxAge(age: int) | Immutable | OnlyCached

  /** The read table: the value a read under `policy` returns and the hot tier afterwards. */
  function ReadThrough<K(==), V>(hot: map<K, CacheItem<V>>, key: K, policy: CachePolicy, now: int): (r: (Option<V>, map<K, CacheItem<V>>))
    ensures policy.IgnoreCache? ==> r == (None, hot)
    ensures !policy.IgnoreCache? ==> r.1 == Lookup(hot, key, now).1
    ensures (policy.OnlyIfCache? || policy.Immutable? || policy.OnlyCached?) ==> (r.0.Some? <==> key in Live(hot, now))
    ensures policy.MaxAge? ==> (r.0.Some? <==> key in Live(hot, now) && now - hot[key].created <= policy.age)
    ensures r.0.Some? ==> key in Live(hot, now) && r.0.value == hot[key].value
    ensures Live(r.1, now) == Live(hot, now)
  {
    match policy
    case IgnoreCache => (None, hot)
    case MaxAge(age) =>
      var (cached, hot') := Lookup(hot, key, now);
      if cached.Some? && now - cached.value.created <= age then (Some(cached.value.value), hot') else (None, hot')
    case OnlyIfCache | Immutable | OnlyCached =>
      var (cached, hot') := Lookup(hot, key, now);
      (if cached.Some? then Some(cached.value.value) else None, hot')
  }

  /** The lifetime a storing write under `policy` gives its entry. */
  function Lifetime(policy: CachePolicy, defaultLifetime: int): int
    requires policy.OnlyIfCache? || policy.MaxAge? || policy.Immutable?
  {
    match policy
    case OnlyIfCache => defaultLifetime
    case MaxAge(age) => age
    case Immutable => 0
  }

  /** The write table: the hot tier after writing `value` under `policy`. */
  function WriteThrough<K(==), V>(hot: map<K, CacheItem<V>>, key: K, value: Option<V>, policy: CachePolicy, now: int, defaultLifetime: int): (r: map<K, CacheItem<V>>)
    ensures (value.None? || policy.IgnoreCache?) ==> r == hot - {key}
    ensures (value.Some? && policy.OnlyCached?) ==> r == hot
    ensures (value.Some? && (policy.OnlyIfCache? || policy.MaxAge? || policy.Immutable?)) ==>
              r == Store(hot, key, Some(CacheItem(now, Lifetime(policy, defaultLifetime), value.value)), now)
    ensures policy.OnlyIfCache? && value.Some? ==> key in r && r[key].maxage == defaultLifetime
    ensures policy.Immutable? && value.Some? ==> key in r && r[key].maxage == 0
  {
    match value
    case None => Store(hot, key, None, now)
    case Some(v) =>
      match policy
      case OnlyIfCache => Store(hot, key, Some(CacheItem(now, defaultLifetime, v)), now)
      case IgnoreCache => Store(hot, key, None, now)
      case MaxAge(age) => Store(hot, key, Some(CacheItem(now, age, v)), now)
      case Immutable => Store(hot, key, Some(CacheItem(now, 0, v)), now)
      case OnlyCached => hot
  }

  /** `update(key:value:)`: a live entry keeps its own `maxage` and is restamped; an absent
      or outdated one is written as under `onlyIfCache`. */
  function UpdateThrough<K(==), V>(hot: map<K, CacheItem<V>>, key: K, value: V, now: int, defaultLifetime: int): (r: map<K, CacheItem<V>>)
    ensures key in r
    ensures r[key] == CacheItem(now, if key in Live(hot, now) then hot[key].maxage else defaultLifetime, value)
    ensures key in Live(hot, now) ==> r == Store(hot, key, Some(CacheItem(now, hot[key].maxage, value)), now)
    ensures key !in Live(hot, now) ==> r == WriteThrough(hot, key, Some(value), OnlyIfCache, now, defaultLifetime)
  {
    var (cached, hot') := Lookup(hot, key, now);
    if cached.Some? then
      Store(hot', key, Some(CacheItem(now, cached.value.maxage, value)), now)
    else
      assert Store(hot', key, Some(CacheItem(now, defaultLifetime, value)), now)
          == Store(hot, key, Some(CacheItem(now, defaultLifetime, value)), now);
      WriteThrough(hot', key, Some(value), OnlyIfCache, now, defaultLifetime)
  }

  /** The durable tier after `synchronize`: its live entries, overwritten by every live
      hot-tier entry. */
  function Flush<K(==), V>(durable: map<K, CacheItem<V>>, hot: map<K, CacheItem<V>>, now: int): (r: map<K, CacheItem<V>>)
    ensures r.Keys == Live(durable, now).Keys + Live(hot, now).Keys
    ensures forall k :: k in Live(hot, now) ==> r[k] == hot[k]
    ensures forall k :: k in Live(durable, now) && k !in Live(hot, now) ==> r[k] == durable[k]
    ensures AllLive(r, now)
  {
    Live(durable, now) + Live(hot, now)
  }

  /** Whether synchronising changes the durable table: it holds an outdated entry, or the
      hot tier holds a live entry that the live durable table does not already hold. */
  ghost predicate FlushChanges<K, V>(durable: map<K, CacheItem<V>>, hot: map<K, CacheItem<V>>, now: int) {
    (exists k :: k in durable && IsOutdated(durable[k], now))
    || Differs(Live(durable, now), Live(hot, now))
  }

  /** The flush leaves the durable table as it was exactly when neither purging nor copying
      has anything to do. */
  lemma FlushChangesIff<K, V>(durable: map<K, CacheItem<V>>, hot: map<K, CacheItem<V>>, now: int)
    ensures Flush(durable, hot, now) != durable <==> FlushChanges(durable, hot, now)
  {
    var r := Flush(durable, hot, now);
    if !FlushChanges(durable, hot, now) {
      LiveOfAllLive(durable, now);
      assert r.Keys == durable.Keys;
    } else if exists k :: k in durable && IsOutdated(durable[k], now) {
      var k :| k in durable && IsOutdated(durable[k], now);
      assert k !in r || r[k] != durable[k];
    } else {
      var k :| k in Live(hot, now) && Find(Live(durable, now), k) != Some(Live(hot, now)[k]);
      assert r[k] == hot[k];
    }
  }

  /** A storing write is read back at once under the same policy, when its lifetime is not
      negative. */
  lemma WriteThenRead<K, V>(hot: map<K, CacheItem<V>>, key: K, value: V, policy: CachePolicy, now: int, defaultLifetime: int)
    requires policy.OnlyIfCache? || policy.MaxAge? || policy.Immutable?
    requires Lifetime(policy, defaultLifetime) >= 0
    ensures ReadThrough(WriteThrough(hot, key, Some(value), policy, now, defaultLifetime), key, policy, now).0 == Some(value)
  {
    var r := WriteThrough(hot, key, Some(value), policy, now, defaultLifetime);
    assert key in Live(r, now);
  }

  /** After a removing write, every read misses. */
  lemma RemoveThenRead<K, V>(hot: map<K, CacheItem<V>>, key: K, value: Option<V>, policy: CachePolicy, readPolicy: CachePolicy, now: int, defaultLifetime: int)
    requires value.None? || policy.IgnoreCache?
    ensures ReadThrough(WriteThrough(hot, key, value, policy, now, defaultLifetime), key, readPolicy, now).0 == None
  {
  }

  /** `onlyCached` and `immutable` read exactly like `onlyIfCache`: `onlyCached` does not
      bypass the expiry check. */
  lemma OnlyCachedHonoursExpiry<K, V>(hot: map<K, CacheItem<V>>, key: K, now: int)
    ensures ReadThrough(hot, key, OnlyCached, now) == ReadThrough(hot, key, OnlyIfCache, now)
    ensures ReadThrough(hot, key, Immutable, now) == ReadThrough(hot, key, OnlyIfCache, now)
    ensures key in hot && IsOutdated(hot[key], now) ==> ReadThrough(hot, key, OnlyCached, now) == (None, hot - {key})
  {
  }

  /** Synchronising keeps durable entries that are live even when the hot tier no longer
      holds them, and never keeps an outdated one. */
  lemma FlushKeepsLiveDurable<K, V>(durable: map<K, CacheItem<V>>, hot: map<K, CacheItem<V>>, now: int, key: K)
    ensures key in durable && !IsOutdated(durable[key], now) && key !in hot ==> key in Flush(durable, hot, now) && Flush(durable, hot, now)[key] == durable[key]
    ensures key in durable && IsOutdated(durable[key], now) && key !in Live(hot, now) ==> key !in Flush(durable, hot, now)
  {
  }

  /** Whether some entry of `entries` is not already in `table`. */
  ghost predicate Differs<K, V>(table: map<K, V>, entries: map<K, V>) {
    exists k :: k in entries && Find(table, k) != Some(entries[k])
  }

  lemma DiffersStep<K, V>(table: map<K, V>, done: map<K, V>, key: K, value: V)
    ensures Differs(table, done[key := value]) <==> Differs(table, done - {key}) || Find(table, key) != Some(value)
  {
    if Differs(table, done[key := value]) {
      var k :| k in done[key := value] && Find(table, k) != Some(done[key := value][k]);
      if k != key {
        assert k in done - {key};
      }
    }
    if Differs(table, done - {key}) {
      var k :| k in done - {key} && Find(table, k) != Some((done - {key})[k]);
      assert k in done[key := value];
    }
  }

  /** `persistentStorage[key] = entries[key]` for every key of `entries`: the store is
      overwritten by `entries` and becomes dirty exactly when some entry differs. */
  method CopyInto<K(==), V(==)>(kv: PersistentKeyValueStorage<K, V>, entries: map<K, V>)
    requires kv.Valid()
    modifies kv
    ensures kv.Valid() && kv.loaded == (old(kv.loaded) || entries != map[])
    ensures kv.Table() == old(kv.Table()) + entries
    ensures kv.haveChanges == (old(kv.haveChanges) || Differs(old(kv.Table()), entries))
    ensures kv.storage == old(kv.storage) && kv.writes == old(kv.writes)
  {
    ghost var table0 := kv.Table();
    ghost var dirty0 := kv.haveChanges;
    var pending := entries.Keys;
    while pending != {}
      invariant pending <= entries.Keys
      invariant kv.Valid() && kv.loaded == (old(kv.loaded) || pending != entries.Keys)
      invariant kv.Table() == table0 + (entries - pending)
      invariant kv.haveChanges == (dirty0 || Differs(table0, entries - pending))
      invariant kv.storage == old(kv.storage) && kv.writes == old(kv.writes)
      decreases pending
    {
      var key :| key in pending;
      assert Find(kv.Table(), key) == Find(table0, key);
      kv.Set(key, Some(entries[key]));
      assert entries - (pending - {key}) == (entries - pending)[key := entries[key]];
      DiffersStep(table0, entries - pending, key, entries[key]);
      assert (entries - pending)[key := entries[key]] - {key} == entries - pending;
      pending := pending - {key};
    }
    assert entries - pending == entries;
    assert entries == map[] <==> entries.Keys == {};
  }

  /** The purge at the start of `synchronize`: every entry of the store outdated at `now` is
      deleted, which makes the store dirty exactly when there was one. */
  method Purge<K(==), V(==)>(kv: PersistentKeyValueStorage<K, CacheItem<V>>, now: int)
    requires kv.Valid()
    modifies kv
    ensures kv.Valid() && kv.loaded
    ensures kv.Table() == Live(old(kv.Table()), now)
    ensures kv.haveChanges == (old(kv.haveChanges) || exists k :: k in old(kv.Table()) && IsOutdated(old(kv.Table())[k], now))
    ensures kv.storage == old(kv.storage) && kv.writes == old(kv.writes)
  {
    var durable := kv.Entries();
    var outdated := OutdatedKeys(durable, now);
    RemoveKeys(kv, outdated);
    OutdatedRemoved(durable, outdated, now);
  }

  /** Removing the collected outdated keys leaves the live part of the table, and a key was
      removed exactly when the table had an outdated entry. */
  lemma OutdatedRemoved<K, V>(m: map<K, CacheItem<V>>, keys: seq<K>, now: int)
    requires forall k :: k in keys <==> k in m && IsOutdated(m[k], now)
    ensures m - (set k | k in keys) == Live(m, now)
    ensures (exists k :: k in keys && k in m) <==> exists k :: k in m && IsOutdated(m[k], now)
  {
    assert (m - (set k | k in keys)).Keys == Live(m, now).Keys;
  }

  class PersistentCache<K(==), V(==)> {
    const defaultLifetime: int
    const persistentStorage: PersistentKeyValueStorage<K, CacheItem<V>>
    /** The lazily hydrated hot tier; `hydrated` says whether the hydration has run. */
    const memoryCache: TimeOutMemoryCache<K, V>
    var hydrated: bool

    ghost predicate Valid()
      reads this, persistentStorage, memoryCache
    {
      persistentStorage.Valid() && (!hydrated ==> memoryCache.cache == map[])
    }

    /** The hot tier as an access at `now` sees it, hydrating first if it has not yet. */
    ghost function HotTier(now: int): map<K, CacheItem<V>>
      reads this, persistentStorage, memoryCache
    {
      if hydrated then memoryCache.cache else Live(persistentStorage.Table(), now)
    }

    /** The durable tier as it is once the hot tier has been hydrated at `now`. */
    ghost function DurableTier(now: int): map<K, CacheItem<V>>
      reads this, persistentStorage
    {
      if hydrated then persistentStorage.Table() else Live(persistentStorage.Table(), now)
    }

    /** Whether the next access hydrates and finds outdated durable entries to delete, which
        marks the durable store dirty. */
    ghost predicate HydrationDirties(now: int)
      reads this, persistentStorage
    {
      !hydrated && exists k :: k in persistentStorage.Table() && IsOutdated(persistentStorage.Table()[k], now)
    }

    constructor (persistentStorage: PersistentKeyValueStorage<K, CacheItem<V>>, defaultLifetime: int := DefaultLifetime)
      requires persistentStorage.Valid()
      ensures Valid() && !hydrated && fresh(memoryCache)
      ensures this.persistentStorage == persistentStorage && this.defaultLifetime == defaultLifetime
    {
      this.defaultLifetime := defaultLifetime;
      this.persistentStorage := persistentStorage;
      memoryCache := new TimeOutMemoryCache(defaultLifetime);
      hydrated := false;
    }

    /** The first pass of hydration: live entries of `durable` are stored into the (empty) hot
        tier one by one, and the keys of outdated ones are collected. */
    method CopyLive(durable: map<K, CacheItem<V>>, now: int) returns (outdated: seq<K>)
      requires memoryCache.cache == map[]
      modifies memoryCache
      ensures memoryCache.cache == Live(durable, now)
      ensures forall k :: k in outdated <==> k in durable && IsOutdated(durable[k], now)
    {
      outdated := [];
      var pending := durable.Keys;
      while pending != {}
        modifies memoryCache
        invariant pending <= durable.Keys
        invariant forall k :: k in outdated <==> k in durable && k !in pending && IsOutdated(durable[k], now)
        invariant memoryCache.cache == map k | k in durable && k !in pending && !IsOutdated(durable[k], now) :: durable[k]
        decreases pending
      {
        var key :| key in pending;
        var value := durable[key];
        if IsOutdated(value, now) {
          outdated := outdated + [key];
        } else {
          LiveOfAllLive(memoryCache.cache, now);
          memoryCache.Set(key, Some(CacheItem(value.created, value.maxage, value.value)), now);
        }
        pending := pending - {key};
      }
    }

    /** The lazy initialiser of the hot tier: with one clock reading, live durable entries are
        copied into the hot tier and outdated ones are deleted from the durable tier, which
        becomes dirty exactly when there was something outdated to delete. */
    method Hydrate(now: int)
      requires Valid() && !hydrated
      modifies this, memoryCache, persistentStorage
      ensures Valid() && hydrated && persistentStorage.loaded
      ensures memoryCache.cache == Live(old(persistentStorage.Table()), now)
      ensures persistentStorage.Table() == Live(old(persistentStorage.Table()), now)
      ensures persistentStorage.haveChanges == (old(persistentStorage.haveChanges)
                || exists k :: k in old(persistentStorage.Table()) && IsOutdated(old(persistentStorage.Table())[k], now))
      ensures persistentStorage.storage == old(persistentStorage.storage) && persistentStorage.writes == old(persistentStorage.writes)
    {
      var durable := persistentStorage.Entries();
      var outdated := CopyLive(durable, now);
      RemoveKeys(persistentStorage, outdated);
      OutdatedRemoved(durable, outdated, now);
      hydrated := true;
    }

    /** What every access to the lazy hot tier does first. */
    method EnsureHydrated(now: int)
      requires Valid()
      modifies this, memoryCache, persistentStorage
      ensures Valid() && hydrated
      ensures persistentStorage.haveChanges == (old(persistentStorage.haveChanges) || old(HydrationDirties(now)))
      ensures HotTier(now) == old(HotTier(now)) && DurableTier(now) == old(DurableTier(now))
      ensures persistentStorage.storage == old(persistentStorage.storage) && persistentStorage.writes == old(persistentStorage.writes)
    {
      if !hydrated {
        Hydrate(now);
      }
    }

    /** `subscript(forKey:policy:)` get; `subscript(forKey:)` is this under `onlyIfCache`. */
    method Get(key: K, policy: CachePolicy, now: int) returns (value: Option<V>)
      requires Valid()
      modifies this, memoryCache, persistentStorage
      ensures Valid() && hydrated == (old(hydrated) || !policy.IgnoreCache?)
      ensures (value, HotTier(now)) == ReadThrough(old(HotTier(now)), key, policy, now)
      ensures persistentStorage.haveChanges
              == (old(persistentStorage.haveChanges) || (!policy.IgnoreCache? && old(HydrationDirties(now))))
      ensures !hydrated ==> persistentStorage.Table() == old(persistentStorage.Table())
      ensures DurableTier(now) == old(DurableTier(now))
      ensures persistentStorage.storage == old(persistentStorage.storage) && persistentStorage.writes == old(persistentStorage.writes)
    {
      match policy
      case IgnoreCache =>
        return None;
      case MaxAge(age) =>
        EnsureHydrated(now);
        var cached := memoryCache.Get(key, now);
        if cached.None? {
          return None;
        }
        if now - cached.value.created <= age {
          return Some(cached.value.value);
        }
        return None;
      case OnlyIfCache | Immutable | OnlyCached =>
        EnsureHydrated(now);
        var cached := memoryCache.Get(key, now);
        value := if cached.Some? then Some(cached.value.value) else None;
    }

    /** `subscript(forKey:policy:)` set; `subscript(forKey:)` is this under `onlyIfCache`. */
    method Set(key: K, value: Option<V>, policy: CachePolicy, now: int)
      requires Valid()
      modifies this, memoryCache, persistentStorage
      ensures Valid() && hydrated == (old(hydrated) || value.None? || !policy.OnlyCached?)
      ensures HotTier(now) == WriteThrough(old(HotTier(now)), key, value, policy, now, defaultLifetime)
      ensures persistentStorage.haveChanges
              == (old(persistentStorage.haveChanges) || ((value.None? || !policy.OnlyCached?) && old(HydrationDirties(now))))
      ensures !hydrated ==> persistentStorage.Table() == old(persistentStorage.Table())
      ensures DurableTier(now) == old(DurableTier(now))
      ensures persistentStorage.storage == old(persistentStorage.storage) && persistentStorage.writes == old(persistentStorage.writes)
    {
      if value.None? {
        EnsureHydrated(now);
        memoryCache.Set(key, None, now);
        return;
      }
      match policy
      case OnlyIfCache =>
        EnsureHydrated(now);
        memoryCache.Set(key, Some(CacheItem(now, defaultLifetime, value.value)), now);
      case IgnoreCache =>
        EnsureHydrated(now);
        memoryCache.Set(key, None, now);
      case MaxAge(age) =>
        EnsureHydrated(now);
        memoryCache.Set(key, Some(CacheItem(now, age, value.value)), now);
      case Immutable =>
        EnsureHydrated(now);
        memoryCache.Set(key, Some(CacheItem(now, 0, value.value)), now);
      case OnlyCached =>
    }

    /** `update(key:value:)`. */
    method Update(key: K, value: V, now: int)
      requires Valid()
      modifies this, memoryCache, persistentStorage
      ensures Valid() && hydrated
      ensures HotTier(now) == UpdateThrough(old(HotTier(now)), key, value, now, defaultLifetime)
      ensures persistentStorage.haveChanges == (old(persistentStorage.haveChanges) || old(HydrationDirties(now)))
      ensures DurableTier(now) == old(DurableTier(now))
      ensures persistentStorage.storage == old(persistentStorage.storage) && persistentStorage.writes == old(persistentStorage.writes)
    {
      EnsureHydrated(now);
      var cached := memoryCache.Get(key, now);
      if cached.Some? {
        memoryCache.Set(key, Some(CacheItem(now, cached.value.maxage, value)), now);
      } else {
        Set(key, Some(value), OnlyIfCache, now);
      }
    }

    /** Purges outdated durable entries, copies every live hot-tier entry over the durable
        tier, and writes the durable tier back if it is dirty. */
    method Synchronize(now: int) returns (ok: bool)
      requires Valid()
      modifies this, memoryCache, persistentStorage
      ensures Valid() && hydrated
      ensures HotTier(now) == Live(old(HotTier(now)), now)
      ensures persistentStorage.Table() == Flush(old(persistentStorage.Table()), old(HotTier(now)), now)
      ensures persistentStorage.haveChanges == !ok
      ensures !(old(persistentStorage.haveChanges) || persistentStorage.Table() != old(persistentStorage.Table())) ==>
                ok && persistentStorage.storage == old(persistentStorage.storage) && persistentStorage.writes == old(persistentStorage.writes)
      ensures (old(persistentStorage.haveChanges) || persistentStorage.Table() != old(persistentStorage.Table())) ==>
                (ok, persistentStorage.storage) == Write(old(persistentStorage.storage), Snapshot(persistentStorage.Table()))
                && persistentStorage.writes == old(persistentStorage.writes) + 1
    {
      ghost var hot0 := HotTier(now);
      ghost var durable0 := persistentStorage.Table();
      Purge(persistentStorage, now);
      assert persistentStorage.Table() == Live(durable0, now);
      assert hot0 == if hydrated then memoryCache.cache else Live(persistentStorage.Table(), now) by {
        LiveShrinks(durable0, now, now);
      }
      assert !exists k :: k in persistentStorage.Table() && IsOutdated(persistentStorage.Table()[k], now);
      EnsureHydrated(now);
      assert persistentStorage.Table() == Live(durable0, now);
      var hot := memoryCache.Entries(now);
      assert hot == Live(hot0, now);
      CopyInto(persistentStorage, hot);
      FlushChangesIff(durable0, hot0, now);
      ok := persistentStorage.Synchronize();
    }

    /** `removeAll()`: empties the hot tier only. */
    method RemoveAll(now: int)
      requires Valid()
      modifies this, memoryCache, persistentStorage
      ensures Valid() && hydrated
      ensures HotTier(now) == map[]
      ensures persistentStorage.haveChanges == (old(persistentStorage.haveChanges) || old(HydrationDirties(now)))
      ensures DurableTier(now) == old(DurableTier(now))
      ensures persistentStorage.storage == old(persistentStorage.storage) && persistentStorage.writes == old(persistentStorage.writes)
    {
      EnsureHydrated(now);
      memoryCache.RemoveAll();
    }

    /** `count`: entries of the hot tier, outdated ones not yet evicted included. */
    method Count(now: int) returns (n: nat)
      requires Valid()
      modifies this, memoryCache, persistentStorage
      ensures Valid() && hydrated && n == |old(HotTier(now))|
      ensures persistentStorage.haveChanges == (old(persistentStorage.haveChanges) || old(HydrationDirties(now)))
      ensures HotTier(now) == old(HotTier(now)) && DurableTier(now) == old(DurableTier(now))
      ensures persistentStorage.storage == old(persistentStorage.storage) && persistentStorage.writes == old(persistentStorage.writes)
    {
      EnsureHydrated(now);
      n := memoryCache.Count();
    }

    /** `makeIterator`: sweeps the hot tier and yields its live entries. */
    method Entries(now: int) returns (entries: map<K, CacheItem<V>>)
      requires Valid()
      modifies this, memoryCache, persistentStorage
      ensures Valid() && hydrated
      ensures entries == Live(old(HotTier(now)), now) && HotTier(now) == entries
      ensures persistentStorage.haveChanges == (old(persistentStorage.haveChanges) || old(HydrationDirties(now)))
      ensures DurableTier(now) == old(DurableTier(now))
      ensures persistentStorage.storage == old(persistentStorage.storage) && persistentStorage.writes == old(persistentStorage.writes)
    {
      EnsureHydrated(now);
      entries := memoryCache.Entries(now);
    }
  }
}
