/** The history of one transaction: its records in order. Appending validates the new record
    against the last one: same transaction, not a duplicate, not earlier, and a legal state
    change (in progress, then finished or failed). */
module TransactionChains {
  import opened Wrappers
  import opened Transactions

  datatype ChainError = NotEqualIdError | IncorrectCreationTimeError | DuplicatedTransactionError | InvalidTransactionStateError

  datatype TransactionChain = TransactionChain(chain: seq<Transaction>)

  /** `init(transaction:)`. */
  function Start(t: Transaction): (c: TransactionChain)
    ensures c.chain == [t]
    ensures Id(c) == t.id && Current(c) == t
  {
    TransactionChain([t])
  }

  /** `id`: the id of the first record. */
  function Id(c: TransactionChain): (id: string)
    requires |c.chain| > 0
    ensures WellFormed(c) ==> id == Current(c).id
  {
    c.chain[0].id
  }

  /** `transaction`: the last record. */
  function Current(c: TransactionChain): (t: Transaction)
    requires |c.chain| > 0
    ensures t in c.chain
    ensures WellFormed(c) ==> forall i :: 0 <= i < |c.chain| ==> c.chain[i].created <= t.created
  {
    c.chain[|c.chain| - 1]
  }

  /** `state`: the state of the last record. */
  function CurrentState(c: TransactionChain): (state: State)
    requires |c.chain| > 0
    ensures WellFormed(c) && |c.chain| == 2 ==> state != InProgress
  {
    Current(c).state
  }

  /** Whether `next` may follow `last`: in progress, then finished or failed, and nothing after. */
  predicate StateMayFollow(last: State, next: State) {
    last == InProgress && next != InProgress
  }

  /** `append(_:)`: the extended chain, or the first check that fails. */
  function Append(c: TransactionChain, t: Transaction): (r: Result<TransactionChain, ChainError>)
    ensures |c.chain| == 0 ==> r == Ok(Start(t))
    ensures |c.chain| > 0 && Current(c).id != t.id ==> r == Err(NotEqualIdError)
    ensures |c.chain| > 0 && Current(c).id == t.id && Current(c) == t ==> r == Err(DuplicatedTransactionError)
    ensures |c.chain| > 0 && Current(c).id == t.id && Current(c) != t && Current(c).created > t.created ==>
              r == Err(IncorrectCreationTimeError)
    ensures r.Ok? <==> (|c.chain| == 0
                        || (Current(c).id == t.id && Current(c) != t && Current(c).created <= t.created
                            && StateMayFollow(CurrentState(c), t.state)))
    ensures r.Ok? ==> r.value.chain == c.chain + [t]
    ensures (|c.chain| > 0 && Current(c).id == t.id && Current(c) != t && Current(c).created <= t.created
             && !StateMayFollow(CurrentState(c), t.state)) ==> r == Err(InvalidTransactionStateError)
  {
    if |c.chain| == 0 then Ok(TransactionChain([t]))
    else
      var last := c.chain[|c.chain| - 1];
      if last.id != t.id then Err(NotEqualIdError)
      else if last == t then Err(DuplicatedTransactionError)
      else if last.created > t.created then Err(IncorrectCreationTimeError)
      else if !StateMayFollow(last.state, t.state) then Err(InvalidTransactionStateError)
      else Ok(TransactionChain(c.chain + [t]))
  }

  /** The shape every chain built by `init` and successful appends has: one record, or an
      in-progress record followed by a finished or failed one of the same transaction and no
      earlier; hence one id throughout and non-decreasing creation times. */
  predicate WellFormed(c: TransactionChain) {
    (|c.chain| == 1
     || (|c.chain| == 2 && c.chain[0].id == c.chain[1].id && c.chain[0].created <= c.chain[1].created
         && StateMayFollow(c.chain[0].state, c.chain[1].state)))
  }

  /** Every record of a well-formed chain belongs to its transaction, in time order. */
  lemma WellFormedOrdered(c: TransactionChain)
    requires WellFormed(c)
    ensures forall i :: 0 <= i < |c.chain| ==> c.chain[i].id == Id(c)
    ensures forall i, j :: 0 <= i <= j < |c.chain| ==> c.chain[i].created <= c.chain[j].created
  {
  }

  /** Appending keeps a chain well formed, and a completed chain accepts nothing more. */
  lemma AppendPreservesWellFormed(c: TransactionChain, t: Transaction)
    requires WellFormed(c)
    ensures Append(c, t).Ok? ==> WellFormed(Append(c, t).value) && Id(Append(c, t).value) == Id(c)
    ensures CurrentState(c) != InProgress ==> Append(c, t).Err?
    ensures |c.chain| == 2 ==> Append(c, t).Err?
  {
  }

  /** Equal creation times are accepted: a record may complete its transaction at the very
      instant it started. */
  lemma SameInstantAccepted(t: Transaction, uuid: Uuid, state: State)
    requires t.state == InProgress && state != InProgress
    ensures Append(Start(t), SetState(t, state, t.created, uuid)).Ok?
  {
  }

  /** A chain built by starting with the first record and appending the rest in order; `None`
      when some append is rejected. */
  function Build(ts: seq<Transaction>): (r: Option<TransactionChain>)
    requires |ts| > 0
    decreases |ts|
  {
    if |ts| == 1 then Some(Start(ts[0]))
    else
      match Build(ts[..|ts| - 1])
      case None => None
      case Some(c) =>
        match Append(c, ts[|ts| - 1])
        case Err(_) => None
        case Ok(c') => Some(c')
  }

  /** What a built chain holds is exactly the records given, and it is well formed: at most
      two records, one id, non-decreasing times, in progress then finished or failed. */
  lemma {:induction false} BuildWellFormed(ts: seq<Transaction>)
    requires |ts| > 0
    ensures Build(ts).Some? ==> Build(ts).value.chain == ts && WellFormed(Build(ts).value)
    ensures Build(ts).Some? ==> |ts| <= 2
    decreases |ts|
  {
    if |ts| > 1 && Build(ts).Some? {
      var init := ts[..|ts| - 1];
      BuildWellFormed(init);
      var c := Build(init).value;
      AppendPreservesWellFormed(c, ts[|ts| - 1]);
      assert init + [ts[|ts| - 1]] == ts;
    }
  }
}
