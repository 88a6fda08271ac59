/** One step of a business transaction: which transaction (`id`), which record (`uuid`),
    when, and in what state. Values are immutable; a state change makes a new record. */
module Transactions {
  import opened Wrappers

  datatype State = InProgress | Finished | Failed

  /** The integer raw value each state is encoded with. */
  function RawValue(s: State): (raw: int)
    ensures 0 <= raw < 3
    ensures raw == 0 <==> s == InProgress
    ensures raw == 1 <==> s == Finished
  {
    match s
    case InProgress => 0
    case Finished => 1
    case Failed => 2
  }

  /** Decoding a raw value: only 0, 1 and 2 name a state. */
  function FromRawValue(raw: int): (r: Option<State>)
    ensures r.Some? <==> 0 <= raw < 3
    ensures r.Some? ==> RawValue(r.value) == raw
  {
    if raw == 0 then Some(InProgress)
    else if raw == 1 then Some(Finished)
    else if raw == 2 then Some(Failed)
    else None
  }

  /** The raw encoding round-trips, so distinct states have distinct raw values. */
  lemma RawValueRoundTrip(s: State, t: State)
    ensures FromRawValue(RawValue(s)) == Some(s)
    ensures RawValue(s) == RawValue(t) ==> s == t
  {
  }

  /** A record identifier. The source draws a fresh random UUID for each record; here the
      caller supplies it. */
  type Uuid = nat

  datatype Transaction = Transaction(id: string, uuid: Uuid, created: int, state: State)

  /** `init(id:state:created:)`, with the freshly drawn `uuid` as an input; a new transaction
      starts in progress unless told otherwise. */
  function NewTransaction(id: string, uuid: Uuid, created: int, state: State := InProgress): (t: Transaction)
    ensures t.id == id && t.uuid == uuid && t.created == created && t.state == state
  {
    Transaction(id, uuid, created, state)
  }

  /** `setState(state:created:)`: a new record of the same transaction. It goes through the
      initialiser, so it carries the fresh `uuid` drawn for it, not the original one. */
  function SetState(t: Transaction, state: State, created: int, uuid: Uuid): (r: Transaction)
    ensures r.id == t.id && r.state == state && r.created == created
    ensures r.uuid == uuid
  {
    NewTransaction(t.id, uuid, created, state)
  }

  /** A new record with a fresh uuid never equals the original, even when state and time are
      repeated: equality compares every field. */
  lemma SetStateIsNewRecord(t: Transaction, uuid: Uuid)
    requires uuid != t.uuid
    ensures SetState(t, t.state, t.created, uuid) != t
    ensures SetState(t, t.state, t.created, uuid).id == t.id
  {
  }

  /** A transaction built without a state is in progress. */
  lemma DefaultStateIsInProgress(id: string, uuid: Uuid, created: int)
    ensures NewTransaction(id, uuid, created).state == InProgress
  {
  }
}
