/**
 * The blocking FIFO queue with a stop flag. The lock and the condition variable
 * are not modelled: pop's wait becomes its precondition (it proceeds only once the
 * queue is non-empty or stopped), and each method is the step it runs while
 * holding the lock.
 */
module BlockingQueue {
  import opened Wrappers

  class ConcurrentQueue<T> {
    var items: seq<T>
    var stopped: bool

    constructor ()
      ensures items == [] && !stopped
    {
      items := [];
      stopped := false;
    }

    /** push: appends at the back, stopped or not. */
    method Push(x: T)
      modifies this
      ensures items == old(items) + [x] && stopped == old(stopped)
    {
      items := items + [x];
    }

    /**
     * pop, once its wait is over: nothing when the queue is stopped and empty,
     * otherwise the front element, which is removed.
     */
    method Pop() returns (r: Option<T>)
      requires items != [] || stopped
      modifies this
      ensures r.None? <==> old(items) == []
      ensures r.None? ==> items == old(items)
      ensures r.Some? ==> r.value == old(items)[0] && items == old(items)[1..]
      ensures stopped == old(stopped)
    {
      if stopped && items == [] {
        return None;
      }
      r := Some(items[0]);
      items := items[1..];
    }

    /** try_pop: never waits; nothing and no change on an empty queue, else the front element. */
    method TryPop() returns (r: Option<T>)
      modifies this
      ensures r.None? <==> old(items) == []
      ensures r.None? ==> items == old(items)
      ensures r.Some? ==> r.value == old(items)[0] && items == old(items)[1..]
      ensures stopped == old(stopped)
    {
      if items == [] {
        return None;
      }
      r := Some(items[0]);
      items := items[1..];
    }

    /** stop: raises the flag and keeps every queued element. */
    method Stop()
      modifies this
      ensures stopped && items == old(items)
    {
      stopped := true;
    }
  }

  /** stop discards nothing: a pop after it still returns the front element. */
  method StopThenPop<T>(q: ConcurrentQueue<T>) returns (r: Option<T>)
    requires q.items != []
    modifies q
    ensures q.stopped && r == Some(old(q.items)[0]) && q.items == old(q.items)[1..]
  {
    q.Stop();
    r := q.Pop();
  }

  /** The queue after pushing xs one element at a time. */
  function PushAll<T>(q: seq<T>, xs: seq<T>): seq<T>
    decreases |xs|
  {
    if xs == [] then q else PushAll(q + [xs[0]], xs[1..])
  }

  /** The elements n successive pops return, as long as there are any. */
  function PopAll<T>(q: seq<T>, n: nat): seq<T>
  {
    if n == 0 || q == [] then [] else [q[0]] + PopAll(q[1..], n - 1)
  }

  lemma {:induction false} PushAllAppends<T>(q: seq<T>, xs: seq<T>)
    ensures PushAll(q, xs) == q + xs
    decreases |xs|
  {
    if xs != [] {
      PushAllAppends(q + [xs[0]], xs[1..]);
      assert q + [xs[0]] + xs[1..] == q + xs;
    }
  }

  lemma {:induction false} PopAllTakesFront<T>(q: seq<T>, n: nat)
    ensures PopAll(q, n) == q[..if n < |q| then n else |q|]
  {
    if n != 0 && q != [] {
      PopAllTakesFront(q[1..], n - 1);
    }
  }

  /** FIFO: elements pushed onto a queue come out of it in the order they were pushed. */
  lemma FifoOrder<T>(q: seq<T>, xs: seq<T>)
    ensures PopAll(PushAll(q, xs), |q| + |xs|) == q + xs
  {
    var all := q + xs;
    PushAllAppends(q, xs);
    PopAllTakesFront(all, |all|);
    assert all[..|all|] == all;
  }
}
