/** The hot tier: an in-memory table of entries that carry their own time-to-live.
    Expired entries are evicted lazily, by a read of that key or by a full sweep. */
module MemoryCache {
  import opened Wrappers

  /** One cache entry: when it was stored, how long it may live (0 = forever) and the value.
      Time is whole seconds on the caller's clock. */
  datatype CacheItem<V> = CacheItem(created: int, maxage: int, value: V)

  /** An entry is outdated once it is strictly older than a non-zero `maxage`. */
  predicate IsOutdated<V>(item: CacheItem<V>, now: int)
    ensures IsOutdated(item, now) ==> item.maxage != 0 && now > item.created + item.maxage
    ensures item.maxage > 0 && now <= item.created ==> !IsOutdated(item, now)
  {
    item.maxage != 0 && now - item.created > item.maxage
  }

  /** The part of a table a reader may still see at `now`. */
  function Live<K(==), V>(m: map<K, CacheItem<V>>, now: int): (r: map<K, CacheItem<V>>)
    ensures r.Keys <= m.Keys
    ensures forall k :: k in r ==> r[k] == m[k] && !IsOutdated(m[k], now)
    ensures forall k :: k in m && !IsOutdated(m[k], now) ==> k in r
  {
    map k | k in m && !IsOutdated(m[k], now) :: m[k]
  }

  /** Whether no entry of the table is outdated at `now`. */
  ghost predicate AllLive<K, V>(m: map<K, CacheItem<V>>, now: int) {
    forall k :: k in m ==> !IsOutdated(m[k], now)
  }

  /** The getter of `subscript(forKey:)`: an outdated hit evicts exactly that key and misses. */
  function Lookup<K(==), V>(m: map<K, CacheItem<V>>, key: K, now: int): (r: (Option<CacheItem<V>>, map<K, CacheItem<V>>))
    ensures r.0.Some? <==> key in Live(m, now)
    ensures r.0.Some? ==> r.0.value == m[key]
    ensures r.1.Keys == if key in m && IsOutdated(m[key], now) then m.Keys - {key} else m.Keys
    ensures forall k :: k in r.1 ==> r.1[k] == m[k]
    ensures Live(r.1, now) == Live(m, now)
  {
    if key !in m then (None, m)
    else if IsOutdated(m[key], now) then (None, m - {key})
    else (Some(m[key]), m)
  }

  /** The setter of `subscript(forKey:)`: `nil` removes the key; any other entry is stored
      after a sweep of everything outdated at `now`. */
  function Store<K(==), V>(m: map<K, CacheItem<V>>, key: K, element: Option<CacheItem<V>>, now: int): (r: map<K, CacheItem<V>>)
    ensures element.None? ==> key !in r && r.Keys == m.Keys - {key}
    ensures element.Some? ==> key in r && r[key] == element.value
    ensures element.Some? ==> forall k :: k in r && k != key ==> !IsOutdated(r[k], now)
    ensures forall k :: k in m && k != key && (element.None? || !IsOutdated(m[k], now)) ==> k in r && r[k] == m[k]
    ensures forall k :: k in r && k != key ==> k in m && r[k] == m[k]
  {
    if element.None? then m - {key} else Live(m, now)[key := element.value]
  }

  /** An entry with `maxage == 0` never expires. */
  lemma ImmutableNeverExpires<V>(item: CacheItem<V>, now: int)
    requires item.maxage == 0
    ensures !IsOutdated(item, now)
  {
  }

  /** An entry exactly `maxage` old is still live; one second later it is outdated. */
  lemma ExpiryBoundary<V>(item: CacheItem<V>)
    requires item.maxage > 0
    ensures !IsOutdated(item, item.created + item.maxage)
    ensures IsOutdated(item, item.created + item.maxage + 1)
  {
  }

  /** Once outdated, an entry stays outdated as the clock advances, so the live part of a
      table only shrinks over time. */
  lemma LiveShrinks<K, V>(m: map<K, CacheItem<V>>, earlier: int, later: int)
    requires earlier <= later
    ensures Live(m, later).Keys <= Live(m, earlier).Keys
    ensures Live(Live(m, earlier), later) == Live(m, later)
  {
  }

  /** Sweeping a table whose entries are all live changes nothing. */
  lemma LiveOfAllLive<K, V>(m: map<K, CacheItem<V>>, now: int)
    requires AllLive(m, now)
    ensures Live(m, now) == m
  {
  }

  /** A sweep changes the table exactly when some entry is outdated. */
  lemma LiveUnchangedIff<K, V>(m: map<K, CacheItem<V>>, now: int)
    ensures Live(m, now) == m <==> AllLive(m, now)
  {
    if !AllLive(m, now) {
      var k :| k in m && IsOutdated(m[k], now);
      assert k !in Live(m, now);
    }
  }

  /** What a store means to a reader at the same instant: the live view gains (or loses)
      exactly that key and is otherwise unchanged. */
  lemma StoreLiveView<K, V>(m: map<K, CacheItem<V>>, key: K, element: Option<CacheItem<V>>, now: int)
    ensures element.None? || IsOutdated(element.value, now) ==> Live(Store(m, key, element, now), now) == Live(m, now) - {key}
    ensures element.Some? && !IsOutdated(element.value, now) ==> Live(Store(m, key, element, now), now) == Live(m, now)[key := element.value]
  {
    var r := Store(m, key, element, now);
    if element.None? || IsOutdated(element.value, now) {
      assert Live(r, now).Keys == Live(m, now).Keys - {key};
    } else {
      assert Live(r, now).Keys == Live(m, now).Keys + {key};
    }
  }

  /** A stored live entry is what the next read at the same instant returns. */
  lemma StoreThenLookup<K, V>(m: map<K, CacheItem<V>>, key: K, item: CacheItem<V>, now: int)
    requires !IsOutdated(item, now)
    ensures Lookup(Store(m, key, Some(item), now), key, now).0 == Some(item)
  {
  }

  /** The keys of `m` whose entries are outdated at `now`: the collection pass of
      `processCache`, which visits the dictionary in unspecified order. */
  method OutdatedKeys<K(==), V>(m: map<K, CacheItem<V>>, now: int) returns (keys: seq<K>)
    ensures forall k :: k in keys <==> k in m && IsOutdated(m[k], now)
    ensures forall i, j :: 0 <= i < j < |keys| ==> keys[i] != keys[j]
  {
    keys := [];
    var pending := m.Keys;
    while pending != {}
      invariant pending <= m.Keys
      invariant forall k :: k in keys <==> k in m && k !in pending && IsOutdated(m[k], now)
      invariant forall i, j :: 0 <= i < j < |keys| ==> keys[i] != keys[j]
      decreases pending
    {
      var k :| k in pending;
      if IsOutdated(m[k], now) {
        keys := keys + [k];
      }
      pending := pending - {k};
    }
  }

  /** The memory cache itself. `cache` is the dictionary the source keeps private. */
  class TimeOutMemoryCache<K(==), V> {
    const defaultLifetime: int
    var cache: map<K, CacheItem<V>>

    /** `init(defaultLifetime:)`: five minutes unless told otherwise. */
    constructor (defaultLifetime: int := 5 * 60)
      ensures this.defaultLifetime == defaultLifetime
      ensures cache == map[]
    {
      this.defaultLifetime := defaultLifetime;
      cache := map[];
    }

    /** `count`: the number of stored entries, outdated ones included (no sweep). */
    function Count(): (n: nat)
      reads this
      ensures n == 0 <==> cache == map[]
      ensures forall k :: k in cache ==> n > 0
    {
      |cache|
    }

    /** `removeAll()`. */
    method RemoveAll()
      modifies this
      ensures cache == map[] && Count() == 0
    {
      cache := map[];
    }

    /** `subscript(forKey:)` get. */
    method Get(key: K, now: int) returns (item: Option<CacheItem<V>>)
      modifies this
      ensures (item, cache) == Lookup(old(cache), key, now)
    {
      if key !in cache {
        return None;
      }
      var found := cache[key];
      if IsOutdated(found, now) {
        RemoveValue(key);
        return None;
      }
      return Some(found);
    }

    /** `subscript(forKey:)` set. The source sweeps whenever the dictionary's capacity is at
        least its count, which always holds, so every non-nil store sweeps. */
    method Set(key: K, element: Option<CacheItem<V>>, now: int)
      modifies this
      ensures cache == Store(old(cache), key, element, now)
    {
      if element.None? {
        RemoveValue(key);
        return;
      }
      ProcessCache(now);
      cache := cache[key := element.value];
    }

    /** `removeValue(forKey:)` on the dictionary: what storing `nil` does. */
    method RemoveValue(key: K)
      modifies this
      ensures cache == old(cache) - {key}
    {
      cache := cache - {key};
    }

    /** Removes exactly the entries outdated at one snapshot of the clock. */
    method ProcessCache(now: int)
      modifies this
      ensures cache == Live(old(cache), now)
    {
      var keys := OutdatedKeys(cache, now);
      var i := 0;
      while i < |keys|
        invariant 0 <= i <= |keys|
        invariant cache == old(cache) - (set j | 0 <= j < i :: keys[j])
      {
        RemoveValue(keys[i]);
        assert (set j | 0 <= j < i + 1 :: keys[j]) == (set j | 0 <= j < i :: keys[j]) + {keys[i]};
        i := i + 1;
      }
      assert (set j | 0 <= j < |keys| :: keys[j]) == old(cache).Keys - Live(old(cache), now).Keys by {
        forall k | k in old(cache).Keys - Live(old(cache), now).Keys
          ensures k in (set j | 0 <= j < |keys| :: keys[j])
        {
          var j :| 0 <= j < |keys| && keys[j] == k;
        }
      }
    }

    /** `makeIterator`: sweeps, then yields every remaining (live) entry. */
    method Entries(now: int) returns (entries: map<K, CacheItem<V>>)
      modifies this
      ensures cache == Live(old(cache), now)
      ensures entries == cache
    {
      ProcessCache(now);
      entries := cache;
    }
  }
}
