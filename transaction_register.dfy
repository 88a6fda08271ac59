/** The register of all transactions: a persistent map from transaction id to its chain, with
    validated appends, removal by current state, and queries sorted by creation time. */
module TransactionRegistry {
  import opened Wrappers
  import opened Transactions
  import opened TransactionChains
  import opened PersistentStorage
  import opened KeyValueStorage

  /** The register's contents: transaction id to chain. */
  type Table = map<string, TransactionChain>

  /** Every stored chain has a last record (the queries unwrap it unconditionally). */
  ghost predicate NonEmptyChains(m: Table) {
    forall id :: id in m ==> |m[id].chain| > 0
  }

  /** The invariant appends keep: each chain is well formed and filed under its own id. */
  ghost predicate ValidRegister(m: Table) {
    forall id :: id in m ==> WellFormed(m[id]) && Id(m[id]) == id
  }

  /** `append(_:)` on the table: an unknown id gets a new one-record chain without any
      check; a known id's chain is extended if the chain accepts the record, and otherwise
      nothing changes. */
  function AppendTo(m: Table, t: Transaction): (r: (bool, Table))
    ensures t.id !in m ==> r == (true, m[t.id := Start(t)])
    ensures t.id in m ==> (r.0 <==> Append(m[t.id], t).Ok?)
    ensures t.id in m && r.0 ==> r.1 == m[t.id := TransactionChain(m[t.id].chain + [t])]
    ensures !r.0 ==> r.1 == m
  {
    if t.id !in m then (true, m[t.id := Start(t)])
    else
      match Append(m[t.id], t)
      case Err(_) => (false, m)
      case Ok(c) => (true, m[t.id := c])
  }

  /** `subscript(id:)`: the transaction's latest record, if the id is known. */
  function CurrentOf(m: Table, id: string): (r: Option<Transaction>)
    requires id in m ==> |m[id].chain| > 0
    ensures r.Some? <==> id in m
    ensures r.Some? ==> r.value == m[id].chain[|m[id].chain| - 1]
  {
    if id in m then Some(Current(m[id])) else None
  }

  /** An accepted append makes the record the transaction's latest, and keeps the register
      valid; a rejected one changes nothing. */
  lemma AppendToThenCurrent(m: Table, t: Transaction)
    requires ValidRegister(m)
    ensures ValidRegister(AppendTo(m, t).1)
    ensures AppendTo(m, t).0 ==> CurrentOf(AppendTo(m, t).1, t.id) == Some(t)
    ensures forall id :: id != t.id && id in m ==> CurrentOf(AppendTo(m, t).1, id) == CurrentOf(m, id)
  {
    if t.id in m {
      AppendPreservesWellFormed(m[t.id], t);
    }
  }

  /** `contains(states:)`: some chain is currently in one of `states`. */
  predicate ContainsStates(m: Table, states: seq<State>)
    requires NonEmptyChains(m)
    ensures ContainsStates(m, states) ==> m != map[] && states != []
  {
    exists id :: id in m && CurrentState(m[id]) in states
  }

  /** `contains(state:)`: the one-state case of `contains(states:)`. */
  predicate ContainsState(m: Table, state: State)
    requires NonEmptyChains(m)
    ensures ContainsState(m, state) <==> ContainsStates(m, [state])
  {
    exists id :: id in m && state == CurrentState(m[id])
  }

  /** `contains(id:)`: whether the id has a chain, that is, whether `subscript(id:)` gives a
      record. */
  predicate ContainsId(m: Table, id: string)
    ensures NonEmptyChains(m) ==> (ContainsId(m, id) <==> CurrentOf(m, id).Some?)
  {
    id in m
  }

  /** A list of states is contained exactly when one of its states is. */
  lemma ContainsAgree(m: Table, states: seq<State>)
    requires NonEmptyChains(m)
    ensures ContainsStates(m, states) <==> exists i :: 0 <= i < |states| && ContainsState(m, states[i])
  {
    if ContainsStates(m, states) {
      var id :| id in m && CurrentState(m[id]) in states;
      var i :| 0 <= i < |states| && states[i] == CurrentState(m[id]);
      assert ContainsState(m, states[i]);
    }
  }

  /** What `removeTransactions(by:)` leaves: the chains whose current state differs. */
  function WithoutState(m: Table, state: State): (r: Table)
    requires NonEmptyChains(m)
    ensures r.Keys <= m.Keys
    ensures forall id :: id in r ==> r[id] == m[id] && CurrentState(m[id]) != state
    ensures forall id :: id in m && CurrentState(m[id]) != state ==> id in r
  {
    map id | id in m && CurrentState(m[id]) != state :: m[id]
  }

  /** After removal no chain is in that state, the register stays valid, and removing again
      changes nothing. */
  lemma WithoutStateProperties(m: Table, state: State)
    requires NonEmptyChains(m)
    ensures NonEmptyChains(WithoutState(m, state))
    ensures !ContainsState(WithoutState(m, state), state)
    ensures ValidRegister(m) ==> ValidRegister(WithoutState(m, state))
    ensures WithoutState(WithoutState(m, state), state) == WithoutState(m, state)
  {
  }

  /** The ids whose chain is currently in `state`: the collection pass of
      `removeTransactions(by:)`. */
  method IdsInState(m: Table, state: State) returns (ids: seq<string>)
    requires NonEmptyChains(m)
    ensures forall id :: id in ids <==> id in m && CurrentState(m[id]) == state
  {
    ids := [];
    var pending := m.Keys;
    while pending != {}
      invariant pending <= m.Keys
      invariant forall id :: id in ids <==> id in m && id !in pending && CurrentState(m[id]) == state
      decreases pending
    {
      var id :| id in pending;
      if CurrentState(m[id]) == state {
        ids := ids + [id];
      }
      pending := pending - {id};
    }
  }

  /** The collected ids hit the table exactly when some chain is in that state. */
  lemma SomeIdInState(m: Table, ids: seq<string>, state: State)
    requires NonEmptyChains(m)
    requires forall id :: id in ids <==> id in m && CurrentState(m[id]) == state
    ensures (exists id :: id in ids && id in m) <==> exists id :: id in m && CurrentState(m[id]) == state
  {
  }

  /** `subscript(uuid:)`: a record with that uuid from some chain, and `None` exactly when no
      chain holds one. Chains are visited in unspecified order. */
  method FindByUuid(m: Table, uuid: Uuid) returns (r: Option<Transaction>)
    ensures r.Some? ==> r.value.uuid == uuid && exists id :: id in m && r.value in m[id].chain
    ensures r.None? ==> forall id, i :: id in m && 0 <= i < |m[id].chain| ==> m[id].chain[i].uuid != uuid
  {
    var pending := m.Keys;
    while pending != {}
      invariant pending <= m.Keys
      invariant forall id, i :: id in m && id !in pending && 0 <= i < |m[id].chain| ==> m[id].chain[i].uuid != uuid
      decreases pending
    {
      var id :| id in pending;
      var chain := m[id].chain;
      var i := 0;
      while i < |chain|
        invariant 0 <= i <= |chain|
        invariant forall j :: 0 <= j < i ==> chain[j].uuid != uuid
      {
        if chain[i].uuid == uuid {
          return Some(chain[i]);
        }
        i := i + 1;
      }
      pending := pending - {id};
    }
    return None;
  }

  /** Records ordered by non-decreasing creation time. */
  ghost predicate SortedByCreated(s: seq<Transaction>) {
    forall i, j :: 0 <= i < j < |s| ==> s[i].created <= s[j].created
  }

  function InsertByCreated(t: Transaction, s: seq<Transaction>): (r: seq<Transaction>)
    requires SortedByCreated(s)
    ensures SortedByCreated(r)
    ensures multiset(r) == multiset(s) + multiset{t}
    decreases |s|
  {
    if s == [] || t.created <= s[0].created then [t] + s
    else
      var rest := InsertByCreated(t, s[1..]);
      assert s == [s[0]] + s[1..];
      HeadIsEarliest(s);
      PrependSorted(s[0], rest);
      [s[0]] + rest
  }

  /** The head of an ordered sequence is no later than anything after it. */
  lemma HeadIsEarliest(s: seq<Transaction>)
    requires SortedByCreated(s) && |s| > 0
    ensures forall x :: x in multiset(s[1..]) ==> s[0].created <= x.created
  {
    forall x | x in multiset(s[1..])
      ensures s[0].created <= x.created
    {
      var j :| 0 <= j < |s[1..]| && s[1..][j] == x;
      assert s[j + 1] == x;
    }
  }

  /** Putting a record in front of an ordered sequence of later-or-equal records keeps it
      ordered. */
  lemma PrependSorted(h: Transaction, rest: seq<Transaction>)
    requires SortedByCreated(rest)
    requires forall x :: x in multiset(rest) ==> h.created <= x.created
    ensures SortedByCreated([h] + rest)
  {
    forall j | 0 <= j < |rest|
      ensures h.created <= rest[j].created
    {
      assert rest[j] in multiset(rest);
    }
  }

  /** The `sort { $0.created < $1.created }` the queries end with: the library sort promises
      only that the result is ordered and a permutation, which is what this states. */
  function SortByCreated(s: seq<Transaction>): (r: seq<Transaction>)
    ensures SortedByCreated(r)
    ensures multiset(r) == multiset(s)
    decreases |s|
  {
    if s == [] then []
    else
      assert s == [s[0]] + s[1..];
      InsertByCreated(s[0], SortByCreated(s[1..]))
  }

  /** `ks` lists every key of `m` exactly once: one unspecified iteration order. */
  ghost predicate Enumerates(ks: seq<string>, m: Table) {
    (forall k :: k in ks <==> k in m) && forall i, j :: 0 <= i < j < |ks| ==> ks[i] != ks[j]
  }

  /** The latest records of the chains listed in `ks` whose state is among `states`, in that
      order. */
  function CurrentsOf(m: Table, ks: seq<string>, states: seq<State>): seq<Transaction>
    requires forall k :: k in ks ==> k in m && |m[k].chain| > 0
    decreases |ks|
  {
    if ks == [] then []
    else
      var k := ks[|ks| - 1];
      CurrentsOf(m, ks[..|ks| - 1], states) + (if CurrentState(m[k]) in states then [Current(m[k])] else [])
  }

  lemma {:induction false} CurrentsOfMembers(m: Table, ks: seq<string>, states: seq<State>, t: Transaction)
    requires forall k :: k in ks ==> k in m && |m[k].chain| > 0
    ensures t in CurrentsOf(m, ks, states) <==> exists k :: k in ks && CurrentState(m[k]) in states && Current(m[k]) == t
    decreases |ks|
  {
    if ks != [] {
      var init := ks[..|ks| - 1];
      CurrentsOfMembers(m, init, states, t);
      assert forall k :: k in ks <==> k in init || k == ks[|ks| - 1];
    }
  }

  /** Every record of the chains listed in `ks`, chain by chain. */
  function RecordsOf(m: Table, ks: seq<string>): seq<Transaction>
    requires forall k :: k in ks ==> k in m
    decreases |ks|
  {
    if ks == [] then [] else RecordsOf(m, ks[..|ks| - 1]) + m[ks[|ks| - 1]].chain
  }

  lemma {:induction false} RecordsOfMembers(m: Table, ks: seq<string>, t: Transaction)
    requires forall k :: k in ks ==> k in m
    ensures t in RecordsOf(m, ks) <==> exists k :: k in ks && t in m[k].chain
    decreases |ks|
  {
    if ks != [] {
      var init := ks[..|ks| - 1];
      RecordsOfMembers(m, init, t);
      assert forall k :: k in ks <==> k in init || k == ks[|ks| - 1];
    }
  }

  /** The `compactMap` pass of `transactions(states:)`: the latest records of the chains in
      one of `states`, in one unspecified order of the keys. */
  method CollectCurrents(m: Table, states: seq<State>) returns (found: seq<Transaction>, ghost ks: seq<string>)
    requires NonEmptyChains(m)
    ensures Enumerates(ks, m) && found == CurrentsOf(m, ks, states)
  {
    found := [];
    ks := [];
    var pending := m.Keys;
    while pending != {}
      invariant pending <= m.Keys
      invariant forall k :: k in ks <==> k in m && k !in pending
      invariant forall i, j :: 0 <= i < j < |ks| ==> ks[i] != ks[j]
      invariant found == CurrentsOf(m, ks, states)
      decreases pending
    {
      var id :| id in pending;
      if CurrentState(m[id]) in states {
        found := found + [Current(m[id])];
      }
      ks := ks + [id];
      assert ks[..|ks| - 1] == ks[..|ks| - 1];
      pending := pending - {id};
    }
  }

  /** Any permutation of the collected records holds exactly the latest records in one of
      `states`, and is non-empty exactly when `contains(states:)` holds. */
  lemma CurrentsMembership(m: Table, ks: seq<string>, states: seq<State>, r: seq<Transaction>)
    requires NonEmptyChains(m) && Enumerates(ks, m)
    requires multiset(r) == multiset(CurrentsOf(m, ks, states))
    ensures forall t :: t in r <==> exists id :: id in m && CurrentState(m[id]) in states && Current(m[id]) == t
    ensures |r| > 0 <==> ContainsStates(m, states)
  {
    forall t
      ensures t in r <==> exists id :: id in m && CurrentState(m[id]) in states && Current(m[id]) == t
    {
      assert t in r <==> t in multiset(r);
      CurrentsOfMembers(m, ks, states, t);
    }
    if ContainsStates(m, states) {
      var id :| id in m && CurrentState(m[id]) in states;
      assert Current(m[id]) in r;
    }
    if |r| > 0 {
      assert r[0] in r;
    }
  }

  /** `transactions(states:)`: the latest record of every chain whose current state is listed,
      oldest first. It is non-empty exactly when `contains(states:)` holds. */
  method TransactionsIn(m: Table, states: seq<State>) returns (r: seq<Transaction>)
    requires NonEmptyChains(m)
    ensures SortedByCreated(r)
    ensures exists ks :: Enumerates(ks, m) && multiset(r) == multiset(CurrentsOf(m, ks, states))
    ensures forall t :: t in r <==> exists id :: id in m && CurrentState(m[id]) in states && Current(m[id]) == t
    ensures |r| > 0 <==> ContainsStates(m, states)
  {
    var found, ks := CollectCurrents(m, states);
    r := SortByCreated(found);
    CurrentsMembership(m, ks, states, r);
  }

  /** Every state there is. */
  const AllStates: seq<State> := [InProgress, Finished, Failed]

  /** `transactions`: the latest record of every chain, oldest first. */
  method AllTransactions(m: Table) returns (r: seq<Transaction>)
    requires NonEmptyChains(m)
    ensures SortedByCreated(r)
    ensures exists ks :: Enumerates(ks, m) && multiset(r) == multiset(CurrentsOf(m, ks, AllStates))
    ensures forall t :: t in r <==> exists id :: id in m && Current(m[id]) == t
    ensures |r| == 0 <==> m == map[]
  {
    r := TransactionsIn(m, AllStates);
    forall id | id in m
      ensures CurrentState(m[id]) in AllStates
    {
      var st := CurrentState(m[id]);
      assert st == AllStates[0] || st == AllStates[1] || st == AllStates[2];
    }
    if m != map[] {
      var id :| id in m;
    }
  }

  /** `history`: every record of every chain, oldest first. */
  method History(m: Table) returns (r: seq<Transaction>)
    ensures SortedByCreated(r)
    ensures exists ks :: Enumerates(ks, m) && multiset(r) == multiset(RecordsOf(m, ks))
    ensures forall t :: t in r <==> exists id :: id in m && t in m[id].chain
  {
    var records: seq<Transaction> := [];
    ghost var ks: seq<string> := [];
    var pending := m.Keys;
    while pending != {}
      invariant pending <= m.Keys
      invariant forall k :: k in ks <==> k in m && k !in pending
      invariant forall i, j :: 0 <= i < j < |ks| ==> ks[i] != ks[j]
      invariant records == RecordsOf(m, ks)
      decreases pending
    {
      var id :| id in pending;
      var chain := m[id].chain;
      var i := 0;
      while i < |chain|
        invariant 0 <= i <= |chain|
        invariant records == RecordsOf(m, ks) + chain[..i]
      {
        records := records + [chain[i]];
        assert chain[..i + 1] == chain[..i] + [chain[i]];
        i := i + 1;
      }
      assert chain[..i] == chain;
      ks := ks + [id];
      assert ks[..|ks| - 1] == ks[..|ks| - 1];
      pending := pending - {id};
    }
    r := SortByCreated(records);
    assert Enumerates(ks, m);
    forall t
      ensures t in r <==> exists id :: id in m && t in m[id].chain
    {
      assert t in r <==> t in multiset(records);
      RecordsOfMembers(m, ks, t);
    }
  }

  class TransactionRegister {
    const storage: PersistentKeyValueStorage<string, TransactionChain>

    /** `init(storage:)`: the register's table is loaded lazily from `backing`. */
    constructor (backing: PersistentStorage<Table>)
      ensures fresh(storage) && storage.Valid() && !storage.haveChanges
      ensures storage.Table() == Hydrated(backing)
    {
      storage := new PersistentKeyValueStorage(backing);
    }

    method Synchronize() returns (ok: bool)
      requires storage.Valid()
      modifies storage
      ensures storage.Valid() && storage.Table() == old(storage.Table())
      ensures storage.haveChanges == !ok
      ensures old(storage.haveChanges) ==> (ok, storage.storage) == Write(old(storage.storage), Snapshot(old(storage.Table())))
      ensures !old(storage.haveChanges) ==> ok && storage.storage == old(storage.storage)
    {
      ok := storage.Synchronize();
    }

    /** `append(_:)`. */
    method Append(t: Transaction) returns (ok: bool)
      requires storage.Valid()
      modifies storage
      ensures storage.Valid()
      ensures (ok, storage.Table()) == AppendTo(old(storage.Table()), t)
      ensures storage.haveChanges == (old(storage.haveChanges) || ok)
      ensures storage.storage == old(storage.storage)
    {
      var transactions := storage.Get(t.id);
      if transactions.None? {
        storage.Set(t.id, Some(Start(t)));
        return true;
      }
      var extended := TransactionChains.Append(transactions.value, t);
      if extended.Err? {
        return false;
      }
      storage.Set(t.id, Some(extended.value));
      return true;
    }

    /** `removeTransactions(by:)`: drops every chain currently in `state`. */
    method RemoveTransactions(state: State)
      requires storage.Valid() && NonEmptyChains(storage.Table())
      modifies storage
      ensures storage.Valid()
      ensures storage.Table() == WithoutState(old(storage.Table()), state)
      ensures storage.haveChanges == (old(storage.haveChanges)
                || exists id :: id in old(storage.Table()) && CurrentState(old(storage.Table())[id]) == state)
      ensures storage.storage == old(storage.storage)
    {
      var entries := storage.Entries();
      var ids := IdsInState(entries, state);
      SomeIdInState(entries, ids, state);
      RemoveKeys(storage, ids);
      assert storage.Table() == WithoutState(entries, state) by {
        assert storage.Table().Keys == WithoutState(entries, state).Keys;
      }
    }
  }
}
