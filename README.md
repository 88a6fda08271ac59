# Dependencies: caches, persistent storage and transactions, in Dafny

This project models the core of the Swift package *Dependencies*:

- **The memory cache with expiry** (`TimeOutMemoryCache`). Each entry carries its creation time and a `maxage`. An entry is outdated when it is strictly older than its `maxage`, and `maxage == 0` means it never expires. Outdated entries are evicted when they are read, when any non-nil value is stored, and when the cache is enumerated.
- **The single-value persistent storage** (`PersistentStorage`). A stored value is encoded, optionally compressed and written to a byte backend. Reading runs the same steps in reverse. Every failure becomes `nil` on the read path and `false` on the write path. The null backend and the null coder are part of it.
- **The key-value storage** (`PersistentKeyValueStorage`). A whole dictionary is stored as one value. It is loaded lazily and changed in memory, with a dirty flag set only by real changes. `synchronize` writes it back in bulk, and an empty dictionary is written as a delete.
- **The two-tier cache** (`PersistentCache`). The hot tier is a memory cache, hydrated lazily from the durable key-value store. Reads and writes follow a five-case policy: `onlyIfCache`, `ignoreCache`, `maxAge`, `immutable` and `onlyCached`. `synchronize` purges outdated durable entries, copies the live hot tier over the durable tier and saves it.
- **The cache-aside provider** (`PersistentCacheProvider`). `fetch` answers from the cache or asks the origin, then stores the answer. `reset` empties the hot tier and synchronises.
- **Transactions** (`Transaction`, `TransactionChain`, `TransactionRegister`):
  - Records are immutable.
  - A chain accepts a record only if it has the same id, is not a duplicate, is not earlier, and makes a legal state change (in progress, then finished or failed).
  - The register is a persistent map from id to chain. It supports validated appends, removal by current state, membership queries and queries sorted by creation time.
- **The number-input validator** (`StringNumberValidator`). It accepts partial decimal numbers.
- **The execution queue** (`ExecutionQueue`). It holds pending completion handlers, which are all called in order with one result.

Modelling conventions:

- **Time and clocks.** Time is an integer number of seconds. The clock is a parameter `now`, and every reading of the clock within one operation sees the same `now`.
- **Laziness.** Lazy properties are an explicit `loaded`/`hydrated` flag. Each class has a view function that shows what the next access would see: `PersistentKeyValueStorage.Table()`, and `PersistentCache.HotTier(now)` and `DurableTier(now)`.
- **Shape of the proofs.** Each imperative operation is a method whose `ensures` ties its result and new state to a function over values. For example, `Get` is tied to `ReadThrough`, `Set` to `WriteThrough` and `Synchronize` to `Flush`. The lemmas state properties of those functions.
- **The memory cache's sweep.** In `set`, the memory cache sweeps when `cache.capacity >= cache.count`. That condition always holds, so the model sweeps on every non-nil store.

## Model

| member | source | states |
|---|---|---|
| MemoryCache.Live | PersistentCache/TimeOutMemoryCache.swift:107-125 | the cache after a sweep keeps exactly the entries that are not outdated, unchanged |
| MemoryCache.IsOutdated | PersistentCache/TimeOutMemoryCache.swift:123-125 | an outdated entry has a non-zero maxage and is strictly older than it; an entry with a positive maxage is never outdated before its creation time |
| MemoryCache.Lookup | PersistentCache/TimeOutMemoryCache.swift:77-88 | a read returns the entry iff it is present and live; an outdated entry is removed and reads as nil; nothing else changes |
| MemoryCache.Store | PersistentCache/TimeOutMemoryCache.swift:90-101 | storing nil removes just the key; storing a value sweeps outdated entries and then sets the key |
| MemoryCache.ImmutableNeverExpires | PersistentCache/TimeOutMemoryCache.swift:123-125 | an entry with maxage 0 is never outdated, at any time |
| MemoryCache.ExpiryBoundary | PersistentCache/TimeOutMemoryCache.swift:123-125 | an entry with a positive maxage is still live exactly `maxage` seconds after creation and outdated one second later |
| MemoryCache.LiveShrinks | PersistentCache/TimeOutMemoryCache.swift:123-125 | as the clock advances the live keys only shrink, and a sweep followed by a later sweep equals the later sweep alone |
| MemoryCache.LiveOfAllLive | PersistentCache/TimeOutMemoryCache.swift:107-121 | sweeping a cache with no outdated entry changes nothing |
| MemoryCache.LiveUnchangedIff | PersistentCache/TimeOutMemoryCache.swift:107-125 | a sweep leaves the table as it was exactly when no entry is outdated |
| MemoryCache.StoreLiveView | PersistentCache/TimeOutMemoryCache.swift:90-101 | to a reader at the same instant, a store sets the key in the live view, or removes it when the value is nil or already outdated, and changes nothing else |
| MemoryCache.StoreThenLookup | PersistentCache/TimeOutMemoryCache.swift:77-101 | a live entry just stored is read back unchanged |
| MemoryCache.OutdatedKeys | PersistentCache/TimeOutMemoryCache.swift:108-116 | the collection pass of the sweep lists each outdated key exactly once and no other key |
| MemoryCache.TimeOutMemoryCache.constructor | PersistentCache/TimeOutMemoryCache.swift:19-22 | a new cache is empty, with the given default lifetime (five minutes by default) |
| MemoryCache.TimeOutMemoryCache.Count | PersistentCache/TimeOutMemoryCache.swift:31-33 | the count is zero exactly when the cache is empty and counts outdated entries too |
| MemoryCache.TimeOutMemoryCache.RemoveAll | PersistentCache/TimeOutMemoryCache.swift:39-41 | the cache is empty afterwards |
| MemoryCache.TimeOutMemoryCache.Get | PersistentCache/TimeOutMemoryCache.swift:77-88 | the result and the new cache are those of `Lookup` on the old cache |
| MemoryCache.TimeOutMemoryCache.Set | PersistentCache/TimeOutMemoryCache.swift:90-101 | the new cache is `Store` of the old one |
| MemoryCache.TimeOutMemoryCache.RemoveValue | PersistentCache/TimeOutMemoryCache.swift:91-93 | removes exactly the key |
| MemoryCache.TimeOutMemoryCache.ProcessCache | PersistentCache/TimeOutMemoryCache.swift:107-121 | the loop removes exactly the outdated entries, with one clock reading |
| MemoryCache.TimeOutMemoryCache.Entries | PersistentCache/TimeOutMemoryCache.swift:47-50 | enumeration sweeps first and yields exactly the live entries |
| PersistentStorage.ReadData | Components/PersistenceStarage/DataStorage/NullPersistentDataStorage.swift:26-28 | the null backend reads nothing; a slot backend reads its last blob |
| PersistentStorage.WriteData | Components/PersistenceStarage/DataStorage/NullPersistentDataStorage.swift:30-32 | the null backend accepts every write; a slot backend's successful write is read back and a failed one changes nothing |
| PersistentStorage.Encode | PersistenceStarage/PersistenceStarage.swift:16-28 | the base coder always throws; the null coder encodes anything to empty data |
| PersistentStorage.Decode | Components/PersistenceStarage/DataStorage/NullPersistentDataStorage.swift:18-22 | the base coder and the null coder (which inherits decoding) always throw |
| PersistentStorage.Decompress | Components/Compression/Data+Compression.swift:54-55 | decompressing empty data fails |
| PersistentStorage.Read | PersistenceStarage/PersistenceStarage.swift:62-74 | nothing read, or a failed decompression, gives nil; otherwise the result is the coder's decode of the bytes read (decompressed first when compression is set), so a decode failure gives nil; only a custom coder ever yields a value |
| PersistentStorage.Write | PersistenceStarage/PersistenceStarage.swift:76-104 | nil deletes; an encode or compression failure returns false and writes nothing; otherwise the encoded (and compressed) bytes go to the backend and its answer is returned |
| PersistentStorage.NullPersistentStorage | Components/PersistenceStarage/DataStorage/NullPersistentDataStorage.swift:11-15 | the null storage is the null backend, no compression, the null coder |
| PersistentStorage.BaseCoderAlwaysFails | PersistenceStarage/PersistenceStarage.swift:16-28 | with the base coder nothing is read and every value write fails without effect |
| PersistentStorage.NullStorageBehaviour | Components/PersistenceStarage/DataStorage/NullPersistentDataStorage.swift:11-32 | the null storage reads nil and accepts every write without changing |
| PersistentStorage.WriteThenRead | PersistenceStarage/PersistenceStarage.swift:62-104 | a successful write is read back as the same value, when the coder and the compression round-trip |
| PersistentStorage.DeleteThenRead | PersistenceStarage/PersistenceStarage.swift:76-80 | a successful write of nil makes the storage read nothing |
| KeyValueStorage.Find | PersistentKeyValueStorage/PersistentKeyValueStorage.swift:53-56 | the subscript getter gives the stored value exactly for present keys |
| KeyValueStorage.Assign | PersistentKeyValueStorage/PersistentKeyValueStorage.swift:58-65 | the subscript setter: the key reads back the new value (nil removes), every other key is unchanged |
| KeyValueStorage.AssignChangesIff | PersistentKeyValueStorage/PersistentKeyValueStorage.swift:58-65 | the dictionary changes exactly when the new value differs from the current one, which is the dirty-flag guard |
| KeyValueStorage.Hydrated | PersistentKeyValueStorage/PersistentKeyValueStorage.swift:23-28 | the lazy load yields the stored dictionary, or an empty one when nothing could be read |
| KeyValueStorage.Snapshot | PersistentKeyValueStorage/PersistentKeyValueStorage.swift:75 | an empty dictionary is saved as nil (a delete), any other as itself |
| KeyValueStorage.SnapshotThenHydrate | PersistentKeyValueStorage/PersistentKeyValueStorage.swift:23-28 | what a successful synchronise saves is exactly what the next lazy load produces, empty dictionary included |
| KeyValueStorage.PersistentKeyValueStorage.constructor | PersistentKeyValueStorage/PersistentKeyValueStorage.swift:30-32 | nothing is loaded and nothing is dirty; the table is what the store holds |
| KeyValueStorage.PersistentKeyValueStorage.Load | PersistentKeyValueStorage/PersistentKeyValueStorage.swift:23-28 | forcing the lazy load changes nothing observable |
| KeyValueStorage.PersistentKeyValueStorage.Count | PersistentKeyValueStorage/PersistentKeyValueStorage.swift:36-38 | the number of entries of the table, which is unchanged |
| KeyValueStorage.PersistentKeyValueStorage.Get | PersistentKeyValueStorage/PersistentKeyValueStorage.swift:53-56 | reads `Find` of the table without changing the table or the flag |
| KeyValueStorage.PersistentKeyValueStorage.Set | PersistentKeyValueStorage/PersistentKeyValueStorage.swift:58-65 | the table becomes `Assign` of the old one; it becomes dirty exactly when the value differed |
| KeyValueStorage.PersistentKeyValueStorage.RemoveAll | PersistentKeyValueStorage/PersistentKeyValueStorage.swift:44-49 | the table is empty; it becomes dirty exactly when it was not already empty |
| KeyValueStorage.PersistentKeyValueStorage.Entries | PersistentKeyValueStorage/PersistentKeyValueStorage.swift:86-88 | yields the table, unchanged |
| KeyValueStorage.PersistentKeyValueStorage.Synchronize | PersistentKeyValueStorage/PersistentKeyValueStorage.swift:70-80 | a clean table writes nothing and succeeds; a dirty one writes `Snapshot` of the table once, and stays dirty exactly when the write failed |
| KeyValueStorage.RemoveKeys | TransactionStorage/TransactionRegister.swift:85-87 | setting nil for each listed key removes exactly those keys and dirties the table exactly when one was present |
| PersistentCache.ReadThrough | PersistentCache/PersistentCache.swift:80-108 | the read table per policy: `ignoreCache` never reads or evicts; `maxAge` hits only live entries no older than the age; the others hit exactly the live entries; a hit returns the stored value; only outdated entries are evicted |
| PersistentCache.WriteThrough | PersistentCache/PersistentCache.swift:110-135 | the write table: nil and `ignoreCache` remove the key; `onlyCached` stores nothing; the storing policies store with the default lifetime, the given age, or 0 for `immutable` |
| PersistentCache.UpdateThrough | PersistentCache/PersistentCache.swift:140-146 | update restamps the entry at now, keeping a live entry's own maxage and otherwise using the default lifetime |
| PersistentCache.Flush | PersistentCache/PersistentCache.swift:151-171 | after synchronising, the durable keys are the live durable ones plus the live hot ones; hot entries win; nothing outdated remains |
| PersistentCache.FlushChangesIff | PersistentCache/PersistentCache.swift:151-171 | the durable table changes exactly when there is an outdated durable entry to purge or a live hot entry that the durable table lacks |
| PersistentCache.WriteThenRead | PersistentCache/PersistentCache.swift:80-135 | a value stored under a storing policy (with non-negative lifetime) is read back at once under that policy |
| PersistentCache.RemoveThenRead | PersistentCache/PersistentCache.swift:80-135 | after writing nil or writing under `ignoreCache`, every read misses |
| PersistentCache.OnlyCachedHonoursExpiry | PersistentCache/PersistentCache.swift:80-108 | `onlyCached` and `immutable` read exactly like `onlyIfCache`, so `onlyCached` still evicts outdated entries |
| PersistentCache.FlushKeepsLiveDurable | PersistentCache/PersistentCache.swift:151-171 | synchronising keeps live durable entries the hot tier lacks and drops outdated ones |
| PersistentCache.CopyInto | PersistentCache/PersistentCache.swift:165-168 | copying the hot entries overwrites the durable table with them and dirties it exactly when some entry differed |
| PersistentCache.Purge | PersistentCache/PersistentCache.swift:152-163 | the purge leaves exactly the live durable entries and dirties the table exactly when one was outdated |
| PersistentCache.PersistentCache.constructor | PersistentCache/PersistentCache.swift:62-65 | nothing is hydrated yet; the default lifetime is seven days unless given |
| PersistentCache.PersistentCache.CopyLive | PersistentCache/PersistentCache.swift:39-51 | the hydration loop puts exactly the live durable entries in the hot tier and collects exactly the outdated keys |
| PersistentCache.PersistentCache.Hydrate | PersistentCache/PersistentCache.swift:37-60 | after hydration both tiers hold the live durable entries; the durable tier becomes dirty exactly when something was outdated |
| PersistentCache.PersistentCache.EnsureHydrated | PersistentCache/PersistentCache.swift:37-60 | the first access hydrates, which changes neither tier's view |
| PersistentCache.PersistentCache.Get | PersistentCache/PersistentCache.swift:69-108 | the value and new hot tier are `ReadThrough` of the old hot tier; `ignoreCache` does not even hydrate; the durable store becomes dirty exactly when this read runs the first hydration and it finds outdated entries; when no hydration has happened the durable table is unchanged |
| PersistentCache.PersistentCache.Set | PersistentCache/PersistentCache.swift:110-135 | the new hot tier is `WriteThrough` of the old; a value under `onlyCached` does not hydrate; the store becomes dirty exactly when this call runs the first hydration and it finds outdated entries; when no hydration has happened the durable table is unchanged |
| PersistentCache.PersistentCache.Update | PersistentCache/PersistentCache.swift:140-146 | the new hot tier is `UpdateThrough` of the old; the dirty flag changes only through the first hydration |
| PersistentCache.PersistentCache.Synchronize | PersistentCache/PersistentCache.swift:151-171 | the durable table becomes `Flush` of the old tiers; the hot tier is swept; the store is written exactly when something changed or was pending, and the result says whether that write succeeded |
| PersistentCache.PersistentCache.RemoveAll | PersistentCache/PersistentCache.swift:183-185 | empties the hot tier only; the dirty flag changes only through the first hydration |
| PersistentCache.PersistentCache.Count | PersistentCache/PersistentCache.swift:175-177 | the number of hot entries, outdated ones included; the dirty flag changes only through the first hydration |
| PersistentCache.PersistentCache.Entries | PersistentCache/PersistentCache.swift:191-193 | yields exactly the live hot entries, after a sweep; the dirty flag changes only through the first hydration |
| CacheProvider.FetchOutcome | PersistentCache/PersistentCacheProvider.swift:23-53 | the origin is asked exactly under `ignoreCache` or on a miss outside `onlyCached`; otherwise the completion gets the cached value and no error; an answer is stored per policy |
| CacheProvider.FetchThenHit | PersistentCache/PersistentCacheProvider.swift:25-34 | a miss answered with a value is a hit on the next fetch, with no request |
| CacheProvider.MissWithoutValueRemoves | PersistentCache/PersistentCacheProvider.swift:31-34 | a miss answered without a value removes the key, even with an error |
| CacheProvider.IgnoreCacheKeepsLifetime | PersistentCache/PersistentCacheProvider.swift:38-46 | refreshing a live entry under `ignoreCache` keeps its maxage |
| CacheProvider.OnlyCachedNeverRequests | PersistentCache/PersistentCacheProvider.swift:48-51 | `onlyCached` never asks the origin and ignores what it would say |
| CacheProvider.PersistentCacheProvider.constructor | PersistentCache/PersistentCacheProvider.swift:17-19 | wraps the given cache |
| CacheProvider.PersistentCacheProvider.Fetch | PersistentCache/PersistentCacheProvider.swift:23-53 | the request flag, the completion and the new hot tier are `FetchOutcome`; the cache is hydrated exactly when the policy reads it or an `ignoreCache` answer is stored (`Hydrates`), and the store becomes dirty exactly when that first hydration purges outdated entries; without hydration the durable table is unchanged; the live durable view is unchanged and nothing is written to the backing store |
| CacheProvider.PersistentCacheProvider.Reset | PersistentCache/PersistentCacheProvider.swift:57-60 | the hot tier is empty and the durable tier keeps only its own live entries; the store is written once, with that table, exactly when it was dirty or held an outdated entry, and stays dirty exactly when that write failed; otherwise nothing is written and it is clean |
| Transactions.RawValue | Components/TransactionStorage/Transaction.swift:12-16 | the states are encoded as 0, 1 and 2, one each |
| Transactions.FromRawValue | Components/TransactionStorage/Transaction.swift:12-16 | only 0, 1 and 2 decode, to the state that encodes to them |
| Transactions.RawValueRoundTrip | Components/TransactionStorage/Transaction.swift:12-16 | decoding an encoded state gives it back; distinct states have distinct raw values |
| Transactions.NewTransaction | Components/TransactionStorage/Transaction.swift:23-28 | the record carries exactly the given id, uuid, time and state |
| Transactions.DefaultStateIsInProgress | Components/TransactionStorage/Transaction.swift:23 | a record made without a state is in progress |
| Transactions.SetState | Components/TransactionStorage/Transaction.swift:32-34 | a state change is a new record of the same transaction with the new state, time and uuid |
| Transactions.SetStateIsNewRecord | Components/TransactionStorage/Transaction.swift:23-34 | with a fresh uuid the new record never equals the old, even with the same state and time |
| TransactionChains.Start | TransactionStorage/TransactionChain.swift:14-16 | a new chain holds just the record; its id and current record are the record's |
| TransactionChains.Id | TransactionStorage/TransactionChain.swift:22-24 | a well-formed chain's id is its current record's id |
| TransactionChains.Current | TransactionStorage/TransactionChain.swift:30-32 | the current record belongs to the chain and, in a well-formed chain, is the latest |
| TransactionChains.CurrentState | TransactionStorage/TransactionChain.swift:26-28 | a well-formed chain of two records is finished or failed |
| TransactionChains.Append | TransactionStorage/TransactionChain.swift:43-75 | an empty chain accepts; otherwise the checks run in order (id, duplicate, time, state) and each failing check gives its own error exactly when the earlier ones pass; acceptance iff all pass, and then the record is added at the end |
| TransactionChains.WellFormedOrdered | TransactionStorage/TransactionChain.swift:43-75 | a chain built by appends has one id throughout and non-decreasing creation times |
| TransactionChains.AppendPreservesWellFormed | TransactionStorage/TransactionChain.swift:43-75 | appending keeps a chain well formed and its id; a finished or failed chain accepts nothing |
| TransactionChains.SameInstantAccepted | TransactionStorage/TransactionChain.swift:56-58 | a completion with the same creation time as the start is accepted |
| TransactionChains.BuildWellFormed | TransactionStorage/TransactionChain.swift:14-75 | any chain built from `init` and successful appends holds exactly the given records, at most two, in progress then finished or failed |
| TransactionRegistry.AppendTo | TransactionStorage/TransactionRegister.swift:30-52 | an unknown id starts a new chain without checks; a known id's chain is extended iff the chain accepts; a rejection changes nothing |
| TransactionRegistry.CurrentOf | TransactionStorage/TransactionRegister.swift:56-61 | the latest record of the chain, exactly for known ids |
| TransactionRegistry.AppendToThenCurrent | TransactionStorage/TransactionRegister.swift:30-61 | an accepted append becomes the id's latest record, other ids are unaffected, and the register stays valid |
| TransactionRegistry.ContainsStates | TransactionStorage/TransactionRegister.swift:100-104 | a non-empty register and a non-empty state list are needed for a match |
| TransactionRegistry.ContainsState | TransactionStorage/TransactionRegister.swift:106-110 | `contains(state:)` is `contains(states:)` with the one state |
| TransactionRegistry.ContainsId | TransactionStorage/TransactionRegister.swift:112-114 | an id is contained exactly when `subscript(id:)` gives a record for it |
| TransactionRegistry.ContainsAgree | TransactionStorage/TransactionRegister.swift:100-110 | a list of states is contained exactly when one of its states is |
| TransactionRegistry.WithoutState | TransactionStorage/TransactionRegister.swift:76-88 | removal keeps exactly the chains whose current state differs, unchanged |
| TransactionRegistry.WithoutStateProperties | TransactionStorage/TransactionRegister.swift:76-88 | afterwards no chain is in that state, the register stays valid, and removing again changes nothing |
| TransactionRegistry.IdsInState | TransactionStorage/TransactionRegister.swift:77-83 | collects exactly the ids whose current state is the one given |
| TransactionRegistry.FindByUuid | TransactionStorage/TransactionRegister.swift:63-72 | returns a stored record with that uuid, and nil exactly when no chain holds one |
| TransactionRegistry.InsertByCreated | TransactionStorage/TransactionRegister.swift:123-125 | inserting into an ordered list keeps it ordered and adds exactly the record |
| TransactionRegistry.SortByCreated | TransactionStorage/TransactionRegister.swift:123-125 | the sort yields an ordering by creation time that is a permutation of the input |
| TransactionRegistry.CurrentsOfMembers | TransactionStorage/TransactionRegister.swift:134-139 | the collected records are exactly the latest records of the listed chains in one of the states |
| TransactionRegistry.RecordsOfMembers | TransactionStorage/TransactionRegister.swift:152-156 | the collected records are exactly the records of the listed chains |
| TransactionRegistry.CollectCurrents | TransactionStorage/TransactionRegister.swift:134-139 | the collection pass visits each key once and keeps the latest records in one of the states |
| TransactionRegistry.CurrentsMembership | TransactionStorage/TransactionRegister.swift:100-145 | the query result is non-empty exactly when `contains(states:)` holds |
| TransactionRegistry.TransactionsIn | TransactionStorage/TransactionRegister.swift:133-145 | ordered by creation time, a permutation of the collected records, holding exactly the latest records in one of the states; non-empty iff `contains(states:)` |
| TransactionRegistry.AllTransactions | TransactionStorage/TransactionRegister.swift:118-127 | ordered by creation time, exactly the latest record of every chain; empty iff the register is |
| TransactionRegistry.History | TransactionStorage/TransactionRegister.swift:149-163 | ordered by creation time, a permutation of every record of every chain |
| TransactionRegistry.TransactionRegister.constructor | TransactionStorage/TransactionRegister.swift:18-21 | the register's table is what the backing store holds, loaded lazily, and nothing is dirty |
| TransactionRegistry.TransactionRegister.Synchronize | TransactionStorage/TransactionRegister.swift:23-26 | delegates to the key-value synchronisation |
| TransactionRegistry.TransactionRegister.Append | TransactionStorage/TransactionRegister.swift:30-52 | the result and the new table are `AppendTo` of the old table; an accepted append marks the store dirty and a rejected one leaves the flag as it was |
| TransactionRegistry.TransactionRegister.RemoveTransactions | TransactionStorage/TransactionRegister.swift:76-88 | the new table is `WithoutState` of the old table; the store becomes dirty exactly when some chain was in that state |
| NumberValidator.Validate | Components/Validator/StringNumberValidator.swift:12-60 | the scan returns true exactly when every scalar is allowed: whitespace and digits anywhere, the separator once after a digit, the minus sign once before any digit; non-strings and empty strings pass |
| NumberValidator.WhitespaceOnlyAccepted | Components/Validator/StringNumberValidator.swift:30-32 | whitespace alone is accepted |
| NumberValidator.StrayScalarRejects | Components/Validator/StringNumberValidator.swift:57 | any other scalar rejects |
| NumberValidator.SecondSeparatorRejects | Components/Validator/StringNumberValidator.swift:39-46 | a second separator rejects |
| NumberValidator.SeparatorNeedsDigit | Components/Validator/StringNumberValidator.swift:39-46 | a separator before any digit rejects |
| NumberValidator.MinusRules | Components/Validator/StringNumberValidator.swift:48-55 | a minus sign after a digit or after another minus sign rejects |
| NumberValidator.PartialNumbersAccepted | Components/Validator/StringNumberValidator.swift:12-59 | a lone sign, a trailing separator, grouped digits with spaces and the empty string are accepted |
| NumberValidator.MalformedNumbersRejected | Components/Validator/StringNumberValidator.swift:29-58 | a leading separator, two separators, a trailing minus sign and an exponent are rejected |
| ExecutionQueue.Invocations | Components/ExecutionQueue/ExecutionQueue.swift:25-34 | each pending handler is called once, in order, with the same data and error |
| ExecutionQueue.InvocationsAppend | Components/ExecutionQueue/ExecutionQueue.swift:20-34 | handlers appended later are called after the earlier ones |
| ExecutionQueue.ExecutionQueue.constructor | Components/ExecutionQueue/ExecutionQueue.swift:14 | a new queue is empty |
| ExecutionQueue.ExecutionQueue.IsEmpty | Components/ExecutionQueue/ExecutionQueue.swift:16-18 | the queue is empty exactly when no handler is pending |
| ExecutionQueue.ExecutionQueue.Append | Components/ExecutionQueue/ExecutionQueue.swift:20-23 | the handler joins the end and the queue is not empty |
| ExecutionQueue.ExecutionQueue.Execute | Components/ExecutionQueue/ExecutionQueue.swift:25-34 | the calls made are `Invocations` of the queue at the call; the queue is emptied exactly when `clearQueue` is set |

## Left out

- File system and `UserDefaults` backends: modelled as one abstract slot backend that holds the last blob and may refuse writes (I/O).
- The JSON coder and the compression algorithms: modelled as arbitrary partial functions; their round-trip is a hypothesis of the round-trip lemmas (foreign code).
- Dates and `TimeInterval` are doubles in the source: the model uses integer seconds and one clock reading per operation (floating point, clock).
- The `request` callback is asynchronous: the origin's answer is an input, and the completion is assumed to run at the same instant as the fetch (concurrency).
- `PersistentCacheProvider.Fetch`: the default policy `onlyIfCache` is not a default argument here, and a nil completion is modelled as a completion whose argument is simply discarded.
- The application observer that synchronises on entering the background: an OS notification hook.
- `capacity`, `minimumCapacity` initialisers and the `Collection` index plumbing of the cache and the key-value storage: they do not change contents.
- `transactions(state:)`, `removeFinishedTransactions` and `removeFailedTransaction` are one-line delegations to `TransactionsIn` and `RemoveTransactions` with a fixed state.
- The register's read-only queries are modelled as functions and methods over its table (`storage.Table()`), not as methods of the class; the lazy load they trigger does not change the table.
- TransactionRegistry.TransactionsIn, AllTransactions, History: the library sort's order among records with equal creation times is not modelled, only ordered plus permutation.
- TransactionRegistry.FindByUuid: dictionary iteration order is not modelled, so which record is found when several share a uuid is left open.
- UUIDs are drawn at random in the source: here a record's uuid is a parameter.
- Transactions.NewTransaction: the source defaults `id` to a fresh random UUID string; here the id is always given (randomness).
- NumberValidator.IsDigit: only ASCII digits; the other Unicode decimal digits of `CharacterSet.decimalDigits` are not modelled. A locale separator that is not one scalar is modelled as no separator.
- `DEBUG` prints: no effect on state.
- TransactionRegistry.ContainsStates, ContainsState, WithoutState, IdsInState, TransactionsIn, AllTransactions and RemoveTransactions require every chain to be non-empty: the source reads each chain's last record through a force unwrap; `ContainsId` needs no such requirement.
- ExecutionQueue.Execute: a handler that appends to the queue while it runs is not modelled; handlers are opaque values here, so the contract states the queue only for handlers that do not re-enter. In the source such a task stays pending, after the old tasks when `clearQueue` is false (re-entrancy).
