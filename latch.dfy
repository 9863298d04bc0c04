/**
 * The one-shot count-down latch. The waiting of wait() becomes a query that
 * says whether a waiter would return now; the count is the whole state.
 */
module CountDownLatch {

  /** The count after k calls to count_down from count: one less each time, never below zero. */
  function CountDowns(count: int, k: nat): (r: int)
    ensures r <= count
    ensures count >= 0 ==> r >= 0
    ensures count <= 0 ==> r == count
    ensures count > 0 && k > 0 ==> r < count
    decreases k
  {
    if k == 0 then count
    else if count > 0 then CountDowns(count - 1, k - 1)
    else CountDowns(count, k - 1)
  }

  /** k count-downs leave max(count - k, 0): in particular count of them open the latch. */
  lemma {:induction false} CountDownsClamp(count: nat, k: nat)
    ensures CountDowns(count, k) == if k >= count then 0 else count - k
    decreases k
  {
    if k > 0 {
      if count > 0 {
        CountDownsClamp(count - 1, k - 1);
      } else {
        CountDownsClamp(count, k - 1);
      }
    }
  }

  /** An open latch stays open: once the count is zero no count_down changes it. */
  lemma {:induction false} OpenLatchStaysOpen(k: nat)
    ensures CountDowns(0, k) == 0
    decreases k
  {
    if k > 0 {
      OpenLatchStaysOpen(k - 1);
    }
  }

  /** The counter is lowered only while it is positive: more count-downs never raise it. */
  lemma {:induction false} CountDownsMonotone(count: nat, j: nat, k: nat)
    requires j <= k
    ensures CountDowns(count, k) <= CountDowns(count, j)
  {
    CountDownsClamp(count, j);
    CountDownsClamp(count, k);
  }

  class Latch {
    var count: int

    /** The count is never negative. */
    ghost predicate Valid()
      reads this
    {
      count >= 0
    }

    /** A negative initial count is clamped to zero: such a latch is open from the start. */
    constructor (initialCount: int)
      ensures Valid()
      ensures initialCount >= 0 ==> count == initialCount
      ensures initialCount < 0 ==> IsOpen()
    {
      count := initialCount;
      if initialCount < 0 {
        count := 0;
      }
    }

    /** Whether the latch is open, that is whether wait() returns without blocking. */
    predicate IsOpen()
      reads this
      ensures IsOpen() ==> CountDowns(count, 1) == count
    {
      count == 0
    }

    /**
     * count_down: one less when the count is positive, nothing otherwise.
     * released is true exactly when this call brought the count to zero and so
     * woke the waiters.
     */
    method CountDown() returns (released: bool)
      requires Valid()
      modifies this
      ensures Valid()
      ensures count == CountDowns(old(count), 1)
      ensures released <==> old(count) == 1
      ensures old(IsOpen()) ==> IsOpen()
    {
      released := false;
      if count > 0 {
        count := count - 1;
        if count == 0 {
          released := true;
        }
      }
    }

    /** k calls to count_down in a row. */
    method CountDownTimes(k: nat)
      requires Valid()
      modifies this
      ensures Valid() && count == CountDowns(old(count), k)
    {
      var i := 0;
      while i < k
        invariant i <= k && Valid()
        invariant count == CountDowns(old(count), i)
      {
        CountDownsStep(old(count), i);
        var _ := CountDown();
        i := i + 1;
      }
    }

    /** wait: returns now exactly when the count is zero, and never changes the count. */
    method Wait() returns (returnsNow: bool)
      ensures returnsNow <==> IsOpen()
    {
      returnsNow := count == 0;
    }
  }

  /** One more count-down after i of them. */
  lemma CountDownsStep(count: nat, i: nat)
    ensures CountDowns(count, i + 1) == CountDowns(CountDowns(count, i), 1)
  {
    CountDownsClamp(count, i);
    CountDownsClamp(count, i + 1);
    CountDownsClamp(CountDowns(count, i), 1);
  }
}
