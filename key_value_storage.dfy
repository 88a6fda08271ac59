/** The durable key-value layer: a whole map stored as one value, loaded lazily on first
    access, changed in memory with a dirty flag, and written back in bulk by `synchronize`. */
module KeyValueStorage {
  import opened Wrappers
  import opened PersistentStorage

  /** The value `key` maps to, if any (the dictionary subscript getter). */
  function Find<K(==), V>(m: map<K, V>, key: K): (r: Option<V>)
    ensures r.Some? <==> key in m
    ensures r.Some? ==> r.value == m[key]
  {
    if key in m then Some(m[key]) else None
  }

  /** The dictionary subscript setter: `nil` removes the key, a value replaces it. */
  function Assign<K(==), V>(m: map<K, V>, key: K, value: Option<V>): (r: map<K, V>)
    ensures Find(r, key) == value
    ensures forall k :: k in m.Keys + r.Keys && k != key ==> Find(r, k) == Find(m, k)
  {
    match value
    case None => m - {key}
    case Some(v) => m[key := v]
  }

  /** Assigning changes the map exactly when the new value differs from the current one. */
  lemma AssignChangesIff<K, V>(m: map<K, V>, key: K, value: Option<V>)
    ensures Assign(m, key, value) == m <==> Find(m, key) == value
  {
    if Find(m, key) == value {
      assert Assign(m, key, value).Keys == m.Keys;
    } else {
      assert Find(Assign(m, key, value), key) != Find(m, key);
    }
  }

  /** What the lazy initialiser produces from the backing store: the stored map, or the
      empty map when nothing (or an empty map) could be read. */
  function Hydrated<K(==), V>(ps: PersistentStorage<map<K, V>>): (m: map<K, V>)
    ensures Read(ps) == None ==> m == map[]
    ensures Read(ps).Some? ==> m == Read(ps).value
  {
    var items := Read(ps);
    if items.None? || |items.value| == 0 then map[] else items.value
  }

  /** What `synchronize` hands to the store: the whole map, or `nil` (a delete) when empty. */
  function Snapshot<K, V>(m: map<K, V>): (r: Option<map<K, V>>)
    ensures r.None? <==> m == map[]
    ensures r.Some? ==> r.value == m
  {
    if |m| > 0 then Some(m) else None
  }

  /** What a successful synchronisation stores is what the next lazy load produces,
      provided the coder and the compression round-trip on it. */
  lemma SnapshotThenHydrate<K, V>(ps: PersistentStorage<map<K, V>>, m: map<K, V>)
    requires ps.storage.SlotStorage?
    requires CoderRoundTrips(ps.coder, m)
    requires Encode(ps.coder, m).Some? ==> CompressionRoundTrips(ps.compression, Encode(ps.coder, m).value)
    ensures Write(ps, Snapshot(m)).0 ==> Hydrated(Write(ps, Snapshot(m)).1) == m
  {
    if Snapshot(m).None? {
      DeleteThenRead(ps);
    } else {
      WriteThenRead(ps, m);
    }
  }

  class PersistentKeyValueStorage<K(==), V(==)> {
    /** The backing store; writes replace it. */
    var storage: PersistentStorage<map<K, V>>
    /** Whether the lazy map has been initialised; until then `memoryKeyValue` is unused. */
    var loaded: bool
    var memoryKeyValue: map<K, V>
    var haveChanges: bool
    /** How many writes were issued to the backing store. */
    ghost var writes: nat

    /** Only a loaded map can have unsaved changes. */
    ghost predicate Valid()
      reads this
    {
      haveChanges ==> loaded
    }

    /** The map as every accessor sees it: the first access loads it from the store. */
    function Table(): map<K, V>
      reads this
    {
      if loaded then memoryKeyValue else Hydrated(storage)
    }

    constructor (storage: PersistentStorage<map<K, V>>)
      ensures Valid() && !loaded && !haveChanges && writes == 0
      ensures this.storage == storage
      ensures Table() == Hydrated(storage)
    {
      this.storage := storage;
      loaded := false;
      memoryKeyValue := map[];
      haveChanges := false;
      writes := 0;
    }

    /** Forces the lazy initialisation of the in-memory map. */
    method Load()
      requires Valid()
      modifies this
      ensures Valid() && loaded
      ensures Table() == old(Table())
      ensures storage == old(storage) && haveChanges == old(haveChanges) && writes == old(writes)
    {
      if !loaded {
        memoryKeyValue := Hydrated(storage);
        loaded := true;
      }
    }

    method Count() returns (n: nat)
      requires Valid()
      modifies this
      ensures Valid() && loaded && n == |old(Table())|
      ensures Table() == old(Table())
      ensures storage == old(storage) && haveChanges == old(haveChanges) && writes == old(writes)
    {
      Load();
      n := |memoryKeyValue|;
    }

    /** `subscript(forKey:)` get: only loads, never changes the map or the flag. */
    method Get(key: K) returns (value: Option<V>)
      requires Valid()
      modifies this
      ensures Valid() && loaded && value == Find(old(Table()), key)
      ensures Table() == old(Table())
      ensures storage == old(storage) && haveChanges == old(haveChanges) && writes == old(writes)
    {
      Load();
      value := Find(memoryKeyValue, key);
    }

    /** `subscript(forKey:)` set: marks the map dirty only if the value really changes. */
    method Set(key: K, value: Option<V>)
      requires Valid()
      modifies this
      ensures Valid() && loaded && Table() == Assign(old(Table()), key, value)
      ensures haveChanges == (old(haveChanges) || Find(old(Table()), key) != value)
      ensures storage == old(storage) && writes == old(writes)
    {
      Load();
      if Find(memoryKeyValue, key) == value {
        AssignChangesIff(memoryKeyValue, key, value);
        return;
      }
      haveChanges := true;
      memoryKeyValue := Assign(memoryKeyValue, key, value);
    }

    method RemoveAll()
      requires Valid()
      modifies this
      ensures Valid() && loaded && Table() == map[]
      ensures haveChanges == (old(haveChanges) || old(Table()) != map[])
      ensures storage == old(storage) && writes == old(writes)
    {
      Load();
      if |memoryKeyValue| > 0 {
        haveChanges := true;
        memoryKeyValue := map[];
      }
    }

    /** `makeIterator`: the (key, value) pairs, in no particular order. */
    method Entries() returns (entries: map<K, V>)
      requires Valid()
      modifies this
      ensures Valid() && loaded && entries == old(Table())
      ensures Table() == old(Table())
      ensures storage == old(storage) && haveChanges == old(haveChanges) && writes == old(writes)
    {
      Load();
      entries := memoryKeyValue;
    }

    /** Writes the whole map back if it is dirty; a failed write keeps it dirty. */
    method Synchronize() returns (ok: bool)
      requires Valid()
      modifies this
      ensures Valid() && Table() == old(Table())
      ensures haveChanges == !ok
      ensures !old(haveChanges) ==> ok && storage == old(storage) && writes == old(writes)
      ensures old(haveChanges) ==> (ok, storage) == Write(old(storage), Snapshot(old(Table())))
      ensures old(haveChanges) ==> writes == old(writes) + 1
    {
      if !haveChanges {
        return true;
      }
      var model := Snapshot(memoryKeyValue);
      var written := Write(storage, model);
      storage := written.1;
      writes := writes + 1;
      ok := written.0;
      haveChanges := !ok;
    }
  }

  /** `kv[key] = nil` for each of `keys` in turn, the deletion loop every client of the
      store runs: it loses exactly those keys and becomes dirty exactly when one of them was
      present. */
  method RemoveKeys<K(==), V(==)>(kv: PersistentKeyValueStorage<K, V>, keys: seq<K>)
    requires kv.Valid()
    modifies kv
    ensures kv.Valid() && kv.loaded == (old(kv.loaded) || keys != [])
    ensures kv.Table() == old(kv.Table()) - (set k | k in keys)
    ensures kv.haveChanges == (old(kv.haveChanges) || exists k :: k in keys && k in old(kv.Table()))
    ensures kv.storage == old(kv.storage) && kv.writes == old(kv.writes)
  {
    var i := 0;
    while i < |keys|
      invariant 0 <= i <= |keys|
      invariant kv.Valid() && kv.loaded == (old(kv.loaded) || i > 0)
      invariant kv.Table() == old(kv.Table()) - (set j | 0 <= j < i :: keys[j])
      invariant kv.haveChanges == (old(kv.haveChanges) || exists j :: 0 <= j < i && keys[j] in old(kv.Table()))
      invariant kv.storage == old(kv.storage) && kv.writes == old(kv.writes)
    {
      kv.Set(keys[i], None);
      assert (set j | 0 <= j < i + 1 :: keys[j]) == (set j | 0 <= j < i :: keys[j]) + {keys[i]};
      i := i + 1;
    }
    assert (set j | 0 <= j < |keys| :: keys[j]) == (set k | k in keys);
    assert (exists j :: 0 <= j < |keys| && keys[j] in old(kv.Table())) == (exists k :: k in keys && k in old(kv.Table()));
  }
}
