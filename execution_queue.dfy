/** A first-in, first-out list of pending completion handlers that are all called with the
    same data and error when the awaited result arrives. */
module ExecutionQueue {
  import opened Wrappers

  /** One call of a pending handler: which handler, with which data and error. */
  datatype Call<T, D, E> = Call(task: T, data: D, error: Option<E>)

  /** The calls running `tasks` makes: each task once, in order, all with the same arguments. */
  function Invocations<T, D, E>(tasks: seq<T>, data: D, error: Option<E>): (r: seq<Call<T, D, E>>)
    ensures |r| == |tasks|
    ensures forall i :: 0 <= i < |r| ==> r[i].task == tasks[i] && r[i].data == data && r[i].error == error
    decreases |tasks|
  {
    if tasks == [] then [] else Invocations(tasks[..|tasks| - 1], data, error) + [Call(tasks[|tasks| - 1], data, error)]
  }

  /** Running a queue that grew by one task makes exactly one more call, last. */
  lemma {:induction false} InvocationsAppend<T, D, E>(tasks: seq<T>, more: seq<T>, data: D, error: Option<E>)
    ensures Invocations(tasks + more, data, error) == Invocations(tasks, data, error) + Invocations(more, data, error)
    decreases |more|
  {
    if more != [] {
      var init := more[..|more| - 1];
      InvocationsAppend(tasks, init, data, error);
      assert (tasks + more)[..|tasks + more| - 1] == tasks + init;
      assert Invocations(more, data, error) == Invocations(init, data, error) + [Call(more[|more| - 1], data, error)];
    } else {
      assert tasks + more == tasks;
    }
  }

  /** `T` stands for a completion handler, `D` for the data handed to it and `E` for the
      error type. */
  class ExecutionQueue<T, D, E> {
    var queue: seq<T>

    constructor ()
      ensures queue == []
    {
      queue := [];
    }

    /** `isEmpty`. */
    predicate IsEmpty()
      reads this
      ensures IsEmpty() <==> queue == []
    {
      |queue| == 0
    }

    /** `append(completion:)`: the handler joins the end of the queue. */
    method Append(task: T)
      modifies this
      ensures queue == old(queue) + [task]
      ensures !IsEmpty()
    {
      queue := queue + [task];
    }

    /** `execute(_:error:clearQueue:)`: calls every handler pending at the call, in order,
        from a snapshot; with `clearQueue` the queue is emptied first, otherwise the same
        handlers stay pending and run again next time. */
    method Execute(data: D, error: Option<E>, clearQueue: bool := true) returns (calls: seq<Call<T, D, E>>)
      modifies this
      ensures calls == Invocations(old(queue), data, error)
      ensures queue == if clearQueue then [] else old(queue)
    {
      var snapshot := queue;
      if clearQueue {
        queue := [];
      }
      calls := [];
      for i := 0 to |snapshot|
        invariant calls == Invocations(snapshot[..i], data, error)
      {
        assert snapshot[..i + 1][..i] == snapshot[..i];
        calls := calls + [Call(snapshot[i], data, error)];
      }
      assert snapshot[..|snapshot|] == snapshot;
    }
  }
}
