/**
 The queue the pool's threads share.  Every method runs under the mutex, so each is one atomic step.
 */
module ThreadSafeQueues {

  class ThreadSafeQueue<T> {
    var queue: seq<T>

    constructor ()
      ensures queue == []
    {
      queue := [];
    }

    method Push(newValue: T)
      modifies this
      ensures queue == old(queue) + [newValue]
    {
      queue := queue + [newValue];
    }

    /** An empty queue is left alone and value is kept. */
    method TryPop(value: T) returns (ok: bool, popped: T)
      modifies this
      ensures ok == (old(queue) != [])
      ensures if ok then old(queue) == [popped] + queue else queue == old(queue) && popped == value
    {
      if queue == [] {
        return false, value;
      }
      popped := queue[0];
      queue := queue[1..];
      ok := true;
    }

    method Empty() returns (empty: bool)
      ensures empty == (queue == [])
    {
      empty := |queue| == 0;
    }
  }
}
