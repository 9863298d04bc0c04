/**
 * The counting semaphore. acquire() blocks until the count is positive: here
 * that wait is its precondition, and a trace of calls that would block forever
 * has no outcome.
 */
module CountingSemaphore {
  import opened Wrappers

  /** The calls a thread can make on a semaphore. */
  datatype Call = Release | Acquire | TryAcquire

  /** The count after one call, or None when the call is an acquire that would block. */
  function Step(count: int, call: Call): (r: Option<int>)
    ensures call == Acquire ==> (r.Some? <==> count > 0)
    ensures call != Acquire ==> r.Some?
    ensures call == Release ==> r == Some(count + 1)
    ensures call != Release && count > 0 ==> r == Some(count - 1)
    ensures call == TryAcquire && count <= 0 ==> r == Some(count)
  {
    match call
    case Release => Some(count + 1)
    case Acquire => if count > 0 then Some(count - 1) else None
    case TryAcquire => if count > 0 then Some(count - 1) else Some(count)
  }

  /** The count after a sequence of calls by one thread, or None if one of them would block forever. */
  function Run(count: int, calls: seq<Call>): (r: Option<int>)
    ensures calls == [] ==> r == Some(count)
    ensures r.Some? ==> count - |calls| <= r.value <= count + |calls|
    ensures (forall k :: 0 <= k < |calls| ==> calls[k] != Acquire) ==> r.Some?
    decreases |calls|
  {
    if calls == [] then Some(count)
    else match Step(count, calls[0])
      case None => None
      case Some(c) => Run(c, calls[1..])
  }

  /** k copies of a call. */
  function Repeat(call: Call, k: nat): (r: seq<Call>)
    ensures |r| == k && forall i :: 0 <= i < k ==> r[i] == call
  {
    if k == 0 then [] else [call] + Repeat(call, k - 1)
  }

  /** Running two sequences of calls one after the other. */
  lemma {:induction false} RunAppend(count: int, xs: seq<Call>, ys: seq<Call>)
    ensures Run(count, xs + ys) == match Run(count, xs) case None => None case Some(c) => Run(c, ys)
    decreases |xs|
  {
    if xs == [] {
      assert xs + ys == ys;
    } else {
      assert (xs + ys)[0] == xs[0] && (xs + ys)[1..] == xs[1..] + ys;
      match Step(count, xs[0])
      case None =>
      case Some(c) => RunAppend(c, xs[1..], ys);
    }
  }

  /** k releases raise the count by k. */
  lemma {:induction false} ReleasesAdd(count: int, k: nat)
    ensures Run(count, Repeat(Release, k)) == Some(count + k)
    decreases k
  {
    if k > 0 {
      assert Repeat(Release, k)[1..] == Repeat(Release, k - 1);
      ReleasesAdd(count + 1, k - 1);
    }
  }

  /** k acquires from a count of at least k lower it by k without blocking. */
  lemma {:induction false} AcquiresSubtract(count: int, k: nat)
    requires count >= k
    ensures Run(count, Repeat(Acquire, k)) == Some(count - k)
    decreases k
  {
    if k > 0 {
      assert Repeat(Acquire, k)[1..] == Repeat(Acquire, k - 1);
      AcquiresSubtract(count - 1, k - 1);
    }
  }

  /** k releases followed by k acquires give back the original count, from any non-negative count. */
  lemma ReleasesThenAcquiresRestore(count: int, k: nat)
    requires count >= 0
    ensures Run(count, Repeat(Release, k) + Repeat(Acquire, k)) == Some(count)
  {
    RunAppend(count, Repeat(Release, k), Repeat(Acquire, k));
    ReleasesAdd(count, k);
    AcquiresSubtract(count + k, k);
  }

  /** A count that starts non-negative stays non-negative, whatever the calls. */
  lemma {:induction false} RunKeepsNonNegative(count: int, calls: seq<Call>)
    requires count >= 0
    ensures Run(count, calls).Some? ==> Run(count, calls).value >= 0
    decreases |calls|
  {
    if calls != [] {
      match Step(count, calls[0])
      case None =>
      case Some(c) => RunKeepsNonNegative(c, calls[1..]);
    }
  }

  class Semaphore {
    var count: int

    /** The initial count is stored as given, zero by default; it is not checked. */
    constructor (initialCount: int := 0)
      ensures count == initialCount
    {
      count := initialCount;
    }

    /** release: one more. */
    method Release()
      modifies this
      ensures Some(count) == Step(old(count), Call.Release)
    {
      count := count + 1;
    }

    /** acquire, once its wait is over: the count was positive and is one less. */
    method Acquire()
      requires count > 0
      modifies this
      ensures Some(count) == Step(old(count), Call.Acquire)
    {
      count := count - 1;
    }

    /** try_acquire: succeeds and takes one exactly when the count is positive, else changes nothing. */
    method TryAcquire() returns (acquired: bool)
      modifies this
      ensures acquired <==> old(count) > 0
      ensures Some(count) == Step(old(count), Call.TryAcquire)
    {
      if count > 0 {
        count := count - 1;
        return true;
      }
      return false;
    }

    /** The calls of calls in order, when none of them would block. */
    method RunCalls(calls: seq<Call>)
      requires Run(count, calls).Some?
      modifies this
      ensures Some(count) == Run(old(count), calls)
    {
      var i := 0;
      while i < |calls|
        invariant i <= |calls|
        invariant Run(old(count), calls) == Run(count, calls[i..])
      {
        assert calls[i..][1..] == calls[i + 1..];
        match calls[i] {
          case Release => Release();
          case Acquire => Acquire();
          case TryAcquire => var _ := TryAcquire();
        }
        i := i + 1;
      }
    }
  }
}
