/**
 * The per-worker work-stealing deque: the owner pushes and pops at the front (LIFO),
 * other workers steal from the back (FIFO). The lock is not modelled; tasks are
 * abstract identifiers.
 */
module StealingDeque {
  import opened Wrappers

  /** A task, identified by a number; running it is outside this model. */
  type Task = nat

  class WorkStealingQueue {
    var deque: seq<Task>

    constructor ()
      ensures deque == []
    {
      deque := [];
    }

    /** push: the task goes to the front. */
    method Push(task: Task)
      modifies this
      ensures deque == [task] + old(deque)
    {
      deque := [task] + deque;
    }

    /** pop: the owner takes the most recently pushed task, at the front. */
    method Pop() returns (r: Option<Task>)
      modifies this
      ensures r.None? <==> old(deque) == []
      ensures r.None? ==> deque == old(deque)
      ensures r.Some? ==> r.value == old(deque)[0] && deque == old(deque)[1..]
    {
      if deque == [] {
        return None;
      }
      r := Some(deque[0]);
      deque := deque[1..];
    }

    /** steal: a thief takes the oldest task, at the back. */
    method Steal() returns (r: Option<Task>)
      modifies this
      ensures r.None? <==> old(deque) == []
      ensures r.None? ==> deque == old(deque)
      ensures r.Some? ==> r.value == old(deque)[|old(deque)| - 1] && deque == old(deque)[..|old(deque)| - 1]
    {
      if deque == [] {
        return None;
      }
      r := Some(deque[|deque| - 1]);
      deque := deque[..|deque| - 1];
    }

    /** A push followed by a pop by the owner hands back the same task and restores the deque. */
    method PushThenPop(task: Task) returns (r: Option<Task>)
      modifies this
      ensures r == Some(task) && deque == old(deque)
    {
      Push(task);
      r := Pop();
    }

    /** empty: whether the deque holds no task. */
    method IsEmpty() returns (e: bool)
      ensures e <==> |deque| == 0
    {
      e := deque == [];
    }
  }

  /** The deque after the owner pushes xs one task at a time. */
  function PushAll(d: seq<Task>, xs: seq<Task>): seq<Task>
    decreases |xs|
  {
    if xs == [] then d else PushAll([xs[0]] + d, xs[1..])
  }

  /** The tasks n successive owner pops return. */
  function PopAll(d: seq<Task>, n: nat): seq<Task>
  {
    if n == 0 || d == [] then [] else [d[0]] + PopAll(d[1..], n - 1)
  }

  /** The tasks n successive steals return. */
  function StealAll(d: seq<Task>, n: nat): seq<Task>
  {
    if n == 0 || d == [] then [] else [d[|d| - 1]] + StealAll(d[..|d| - 1], n - 1)
  }

  function Reverse(s: seq<Task>): (r: seq<Task>)
    ensures |r| == |s|
  {
    if s == [] then [] else Reverse(s[1..]) + [s[0]]
  }

  lemma {:induction false} PushAllPrepends(d: seq<Task>, xs: seq<Task>)
    ensures PushAll(d, xs) == Reverse(xs) + d
    decreases |xs|
  {
    if xs != [] {
      PushAllPrepends([xs[0]] + d, xs[1..]);
      assert Reverse(xs[1..]) + ([xs[0]] + d) == Reverse(xs) + d;
    }
  }

  lemma {:induction false} PopAllTakesFront(d: seq<Task>)
    ensures PopAll(d, |d|) == d
  {
    if d != [] {
      PopAllTakesFront(d[1..]);
    }
  }

  lemma {:induction false} StealAllReverses(d: seq<Task>)
    ensures StealAll(d, |d|) == Reverse(d)
  {
    if d != [] {
      StealAllReverses(d[..|d| - 1]);
      ReverseSnoc(d[..|d| - 1], d[|d| - 1]);
      assert d[..|d| - 1] + [d[|d| - 1]] == d;
    }
  }

  lemma {:induction false} ReverseSnoc(s: seq<Task>, x: Task)
    ensures Reverse(s + [x]) == [x] + Reverse(s)
  {
    if s != [] {
      assert (s + [x])[1..] == s[1..] + [x];
      ReverseSnoc(s[1..], x);
    }
  }

  lemma {:induction false} ReverseInvolutive(s: seq<Task>)
    ensures Reverse(Reverse(s)) == s
  {
    if s != [] {
      ReverseInvolutive(s[1..]);
      ReverseSnoc(Reverse(s[1..]), s[0]);
    }
  }

  /** LIFO: the owner gets its tasks back most recent first. */
  lemma OwnerPopsNewestFirst(xs: seq<Task>)
    ensures PopAll(PushAll([], xs), |xs|) == Reverse(xs)
  {
    PushAllPrepends([], xs);
    assert Reverse(xs) + [] == Reverse(xs);
    PopAllTakesFront(Reverse(xs));
  }

  /** FIFO: thieves get the tasks in the order they were pushed. */
  lemma ThievesStealOldestFirst(xs: seq<Task>)
    ensures StealAll(PushAll([], xs), |xs|) == xs
  {
    PushAllPrepends([], xs);
    assert Reverse(xs) + [] == Reverse(xs);
    StealAllReverses(Reverse(xs));
    ReverseInvolutive(xs);
  }
}
