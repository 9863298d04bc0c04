/**
 * The timer scheduler: a priority queue of timed entries, earliest first, and
 * the drain step of its loop, which hands every entry that is due to the pool
 * and puts periodic ones back one interval later. Time points and durations
 * are integers, the clock reading is a parameter, and handing a task to the
 * pool is recording the fired entry.
 */
module TimerScheduler {

  /** A task is identified by a number; running it is outside this model. */
  type Task = nat

  /** A queued entry: when it is due, its period (zero for a one-shot task), and its task. */
  datatype Entry = Entry(time: int, interval: int, task: Task)

  /** TaskComparer: a ranks below b in the queue when it is due later. */
  predicate RanksBelow(a: Entry, b: Entry)
  {
    a.time > b.time
  }

  /** The position of the top of the queue: an entry that ranks below no other one. */
  function Top(q: seq<Entry>): (i: nat)
    requires q != []
    ensures i < |q|
    ensures forall j :: 0 <= j < |q| ==> !RanksBelow(q[i], q[j])
  {
    if |q| == 1 then 0
    else
      var i := Top(q[1..]);
      if q[i + 1].time < q[0].time then i + 1 else 0
  }

  /** The queue without its i-th entry. */
  function Remove(q: seq<Entry>, i: nat): (r: seq<Entry>)
    requires i < |q|
    ensures |r| == |q| - 1
    ensures forall x :: x in r ==> x in q
    ensures multiset(r) == multiset(q) - multiset{q[i]}
  {
    assert q == q[..i] + [q[i]] + q[i + 1..];
    q[..i] + q[i + 1..]
  }

  /** What the drain step does to a fired entry: a periodic one comes back one interval later, a one-shot one is gone. */
  function Requeue(e: Entry): (r: seq<Entry>)
    ensures e.interval > 0 ==> r == [e.(time := e.time + e.interval)]
    ensures e.interval <= 0 ==> r == []
  {
    if e.interval > 0 then [e.(time := e.time + e.interval)] else []
  }

  /** How many times entry e fires in drains at clock now: once if it is due, and again each interval while still due. */
  function Firings(e: Entry, now: int): nat
    decreases if e.time <= now then now - e.time + 1 else 0
  {
    if e.time > now then 0
    else if e.interval <= 0 then 1
    else 1 + Firings(e.(time := e.time + e.interval), now)
  }

  /** The entries drains at clock now hand over for e: e itself, then e one interval later, and so on while due. */
  function Fires(e: Entry, now: int): (r: seq<Entry>)
    ensures |r| == Firings(e, now)
    decreases if e.time <= now then now - e.time + 1 else 0
  {
    if e.time > now then []
    else if e.interval <= 0 then [e]
    else [e] + Fires(e.(time := e.time + e.interval), now)
  }

  /** What is left of e in the queue after drains at clock now: e moved past now, or nothing for a due one-shot entry. */
  function Leftover(e: Entry, now: int): (r: seq<Entry>)
    ensures |r| <= 1
    ensures r == [] <==> e.time <= now && e.interval <= 0
    decreases if e.time <= now then now - e.time + 1 else 0
  {
    if e.time > now then [e]
    else if e.interval <= 0 then []
    else Leftover(e.(time := e.time + e.interval), now)
  }

  /** The firings still owed to all entries of a queue at clock now. */
  function Owed(q: seq<Entry>, now: int): nat
  {
    if q == [] then 0 else Owed(q[..|q| - 1], now) + Firings(q[|q| - 1], now)
  }

  /** The entries drains at clock now hand over for a whole queue, listed entry by entry. */
  function FiresOf(q: seq<Entry>, now: int): seq<Entry>
  {
    if q == [] then [] else FiresOf(q[..|q| - 1], now) + Fires(q[|q| - 1], now)
  }

  /** The queue drains at clock now leave behind, listed entry by entry. */
  function LeftoverOf(q: seq<Entry>, now: int): seq<Entry>
  {
    if q == [] then [] else LeftoverOf(q[..|q| - 1], now) + Leftover(q[|q| - 1], now)
  }

  /**
   * The k-th firing of e is e moved k intervals on, and due; what is left of
   * a periodic entry is e moved past every firing, and not due.
   */
  lemma {:induction false} ExpandTimes(e: Entry, now: int)
    ensures forall k :: 0 <= k < |Fires(e, now)| ==>
      Fires(e, now)[k] == e.(time := e.time + k * e.interval) && Fires(e, now)[k].time <= now
    ensures Leftover(e, now) != [] ==>
      Leftover(e, now) == [e.(time := e.time + Firings(e, now) * e.interval)] && Leftover(e, now)[0].time > now
    decreases if e.time <= now then now - e.time + 1 else 0
  {
    if e.time <= now && e.interval > 0 {
      var e' := e.(time := e.time + e.interval);
      ExpandTimes(e', now);
      var f, f' := Fires(e, now), Fires(e', now);
      assert f == [e] + f';
      forall k | 0 <= k < |f|
        ensures f[k] == e.(time := e.time + k * e.interval) && f[k].time <= now
      {
        if k > 0 {
          assert f[k] == f'[k - 1];
          assert (k - 1) * e.interval + e.interval == k * e.interval;
        }
      }
      var n' := Firings(e', now);
      assert e'.time + n' * e.interval == e.time + (n' + 1) * e.interval;
    }
  }

  /** A one-shot entry fires once if it is due and never otherwise. */
  lemma OneShotFiresOnce(time: int, task: Task, now: int)
    ensures Firings(Entry(time, 0, task), now) == if time <= now then 1 else 0
  {
  }

  /**
   * A periodic entry first due at first fires at first, first + interval, ...:
   * k times at clock now, where the k-th occurrence is due and the next is not.
   */
  lemma {:induction false} PeriodicFirings(first: int, interval: int, task: Task, now: int)
    requires interval > 0 && first <= now
    ensures var k := Firings(Entry(first, interval, task), now);
            k >= 1 && first + (k - 1) * interval <= now < first + k * interval
    decreases now - first
  {
    var next := first + interval;
    if next <= now {
      PeriodicFirings(next, interval, task, now);
      var k := Firings(Entry(next, interval, task), now);
      assert next + (k - 1) * interval == first + k * interval;
      assert next + k * interval == first + (k + 1) * interval;
    }
  }

  /** Owed over a concatenation. */
  lemma {:induction false} OwedAppend(q: seq<Entry>, r: seq<Entry>, now: int)
    ensures Owed(q + r, now) == Owed(q, now) + Owed(r, now)
    decreases |r|
  {
    if r == [] {
      assert q + r == q;
    } else {
      var last := |r| - 1;
      OwedAppend(q, r[..last], now);
      assert (q + r)[..|q + r| - 1] == q + r[..last];
    }
  }

  /** FiresOf over a concatenation. */
  lemma {:induction false} FiresAppend(q: seq<Entry>, r: seq<Entry>, now: int)
    ensures FiresOf(q + r, now) == FiresOf(q, now) + FiresOf(r, now)
    decreases |r|
  {
    if r == [] {
      assert q + r == q;
    } else {
      var last := |r| - 1;
      FiresAppend(q, r[..last], now);
      var qr := q + r;
      assert qr[..|qr| - 1] == q + r[..last] && qr[|qr| - 1] == r[last];
      var a, b, c := FiresOf(q, now), FiresOf(r[..last], now), Fires(r[last], now);
      assert FiresOf(qr, now) == a + b + c;
      assert FiresOf(r, now) == b + c;
    }
  }

  /** LeftoverOf over a concatenation. */
  lemma {:induction false} LeftoverAppend(q: seq<Entry>, r: seq<Entry>, now: int)
    ensures LeftoverOf(q + r, now) == LeftoverOf(q, now) + LeftoverOf(r, now)
    decreases |r|
  {
    if r == [] {
      assert q + r == q;
    } else {
      var last := |r| - 1;
      LeftoverAppend(q, r[..last], now);
      var qr := q + r;
      assert qr[..|qr| - 1] == q + r[..last] && qr[|qr| - 1] == r[last];
      var a, b, c := LeftoverOf(q, now), LeftoverOf(r[..last], now), Leftover(r[last], now);
      assert LeftoverOf(qr, now) == a + b + c;
      assert LeftoverOf(r, now) == b + c;
    }
  }

  /** The three sums over a concatenation. */
  lemma AllAppend(q: seq<Entry>, r: seq<Entry>, now: int)
    ensures Owed(q + r, now) == Owed(q, now) + Owed(r, now)
    ensures FiresOf(q + r, now) == FiresOf(q, now) + FiresOf(r, now)
    ensures LeftoverOf(q + r, now) == LeftoverOf(q, now) + LeftoverOf(r, now)
  {
    OwedAppend(q, r, now);
    FiresAppend(q, r, now);
    LeftoverAppend(q, r, now);
  }

  /** The three sums over a one-entry queue. */
  lemma AllSingle(e: Entry, now: int)
    ensures Owed([e], now) == Firings(e, now)
    ensures FiresOf([e], now) == Fires(e, now)
    ensures LeftoverOf([e], now) == Leftover(e, now)
  {
    assert [e][..0] == [];
  }

  /** Removing the i-th entry removes what it owes. */
  lemma OwedRemove(q: seq<Entry>, i: nat, now: int)
    requires i < |q|
    ensures Owed(q, now) == Owed(Remove(q, i), now) + Firings(q[i], now)
    ensures multiset(FiresOf(q, now)) == multiset(FiresOf(Remove(q, i), now)) + multiset(Fires(q[i], now))
    ensures multiset(LeftoverOf(q, now)) == multiset(LeftoverOf(Remove(q, i), now)) + multiset(Leftover(q[i], now))
  {
    assert q == q[..i] + ([q[i]] + q[i + 1..]);
    AllAppend(q[..i], [q[i]] + q[i + 1..], now);
    AllAppend([q[i]], q[i + 1..], now);
    AllAppend(q[..i], q[i + 1..], now);
    AllSingle(q[i], now);
  }

  /** Firing a due entry and requeueing it pays off exactly one firing. */
  lemma FireOwesOneLess(q: seq<Entry>, i: nat, now: int)
    requires i < |q| && q[i].time <= now
    ensures Owed(Remove(q, i) + Requeue(q[i]), now) + 1 == Owed(q, now)
  {
    OwedRemove(q, i, now);
    OwedAppend(Remove(q, i), Requeue(q[i]), now);
    var e := q[i];
    if e.interval > 0 {
      AllSingle(e.(time := e.time + e.interval), now);
    }
  }

  /** Firing a due entry and requeueing it hands over that entry and leaves the rest of its firings owed. */
  lemma FireHandsOver(q: seq<Entry>, i: nat, now: int)
    requires i < |q| && q[i].time <= now
    ensures multiset(FiresOf(Remove(q, i) + Requeue(q[i]), now)) + multiset{q[i]} == multiset(FiresOf(q, now))
  {
    var e, rest := q[i], Remove(q, i);
    OwedRemove(q, i, now);
    if e.interval > 0 {
      var e' := e.(time := e.time + e.interval);
      FiresAppend(rest, Requeue(e), now);
      AllSingle(e', now);
      assert Fires(e, now) == [e] + Fires(e', now);
      assert FiresOf(rest + Requeue(e), now) == FiresOf(rest, now) + Fires(e', now);
      ShiftOne(FiresOf(rest, now), Fires(e', now), e);
    } else {
      assert Fires(e, now) == [e];
      assert rest + Requeue(e) == rest;
    }
  }

  /** Multiset bookkeeping: moving e from the front of b out of a concatenation. */
  lemma ShiftOne(a: seq<Entry>, b: seq<Entry>, e: Entry)
    ensures multiset(a + b) + multiset{e} == multiset(a) + multiset([e] + b)
  {
    assert multiset([e] + b) == multiset{e} + multiset(b);
  }

  /** Firing a due entry and requeueing it leaves the same entries behind. */
  lemma FireKeepsLeftover(q: seq<Entry>, i: nat, now: int)
    requires i < |q| && q[i].time <= now
    ensures multiset(LeftoverOf(Remove(q, i) + Requeue(q[i]), now)) == multiset(LeftoverOf(q, now))
  {
    OwedRemove(q, i, now);
    var e, rest := q[i], Remove(q, i);
    LeftoverAppend(rest, Requeue(e), now);
    if e.interval > 0 {
      var e' := e.(time := e.time + e.interval);
      AllSingle(e', now);
      assert LeftoverOf(rest + Requeue(e), now) == LeftoverOf(rest, now) + Leftover(e, now);
    } else {
      assert Leftover(e, now) == [];
      assert rest + Requeue(e) == rest;
    }
  }

  /** Firing q[i] keeps every entry at or after t when q[i] and all of q are. */
  lemma NotBeforeAfterFire(q: seq<Entry>, i: nat, t: int)
    requires i < |q| && NotBefore(q, t) && t <= q[i].time
    ensures NotBefore(Remove(q, i) + Requeue(q[i]), t)
  {
    var r := Remove(q, i) + Requeue(q[i]);
    forall j | 0 <= j < |r|
      ensures t <= r[j].time
    {
      if j < |q| - 1 {
        assert r[j] in q;
      }
    }
  }

  /** Nothing is owed when no entry is due. */
  lemma {:induction false} NothingDueOwesNothing(q: seq<Entry>, now: int)
    requires forall j :: 0 <= j < |q| ==> q[j].time > now
    ensures Owed(q, now) == 0
    ensures FiresOf(q, now) == [] && LeftoverOf(q, now) == q
    decreases |q|
  {
    if q != [] {
      NothingDueOwesNothing(q[..|q| - 1], now);
      assert q == q[..|q| - 1] + [q[|q| - 1]];
    }
  }

  /**
   * The drain's books after firing fired from q0 and keeping q: every firing
   * owed to q0 is either in fired or still owed to q, and q leaves behind
   * what q0 would.
   */
  predicate Accounted(fired: seq<Entry>, q: seq<Entry>, q0: seq<Entry>, now: int)
  {
    && |fired| + Owed(q, now) == Owed(q0, now)
    && multiset(fired) + multiset(FiresOf(q, now)) == multiset(FiresOf(q0, now))
    && multiset(LeftoverOf(q, now)) == multiset(LeftoverOf(q0, now))
  }

  /** Firing the i-th entry of q, which is due, keeps the books. */
  lemma AccountedStep(fired: seq<Entry>, q: seq<Entry>, q0: seq<Entry>, i: nat, now: int)
    requires i < |q| && q[i].time <= now
    requires Accounted(fired, q, q0, now)
    ensures Accounted(fired + [q[i]], Remove(q, i) + Requeue(q[i]), q0, now)
  {
    FireOwesOneLess(q, i, now);
    FireHandsOver(q, i, now);
    FireKeepsLeftover(q, i, now);
    assert multiset(fired + [q[i]]) == multiset(fired) + multiset{q[i]};
  }

  /** Books kept from q0 to q, then through one firing e from q to q', are kept from q0 to q'. */
  lemma AccountedThen(fired: seq<Entry>, e: Entry, q: seq<Entry>, q': seq<Entry>, q0: seq<Entry>, now: int)
    requires Accounted(fired, q, q0, now) && Accounted([e], q', q, now)
    ensures Accounted(fired + [e], q', q0, now)
  {
    assert multiset(fired + [e]) == multiset(fired) + multiset([e]);
  }

  /** Once no entry of q is due, the books say fired is all that was owed to q0 and q is what q0 leaves behind. */
  lemma AccountedDone(fired: seq<Entry>, q: seq<Entry>, q0: seq<Entry>, now: int)
    requires Accounted(fired, q, q0, now)
    requires q != [] ==> q[Top(q)].time > now
    ensures |fired| == Owed(q0, now)
    ensures multiset(fired) == multiset(FiresOf(q0, now))
    ensures multiset(q) == multiset(LeftoverOf(q0, now))
    ensures forall j :: 0 <= j < |q| ==> q[j].time > now
  {
    TopNotDue(q, now);
  }

  /** The entries of fired come out in non-decreasing time order. */
  predicate InTimeOrder(fired: seq<Entry>)
  {
    forall a, b :: 0 <= a < b < |fired| ==> fired[a].time <= fired[b].time
  }

  /** No entry of q is due before t. */
  predicate NotBefore(q: seq<Entry>, t: int)
  {
    forall j :: 0 <= j < |q| ==> t <= q[j].time
  }

  /** Every entry of fired was due at clock now. */
  predicate AllDue(fired: seq<Entry>, now: int)
  {
    forall k :: 0 <= k < |fired| ==> fired[k].time <= now
  }

  /** Appending an entry due no earlier than the last one keeps the time order. */
  lemma InTimeOrderSnoc(fired: seq<Entry>, e: Entry)
    requires InTimeOrder(fired)
    requires fired != [] ==> fired[|fired| - 1].time <= e.time
    ensures InTimeOrder(fired + [e])
  {
  }

  /** Firing the top entry of q, which is due, after entries fired no later than any entry of q keeps the fired ones due and in time order. */
  lemma FiredInOrder(fired: seq<Entry>, q: seq<Entry>, e: Entry, now: int)
    requires AllDue(fired, now) && InTimeOrder(fired)
    requires fired != [] ==> NotBefore(q, fired[|fired| - 1].time)
    requires q != [] && e == q[Top(q)] && e.time <= now
    ensures AllDue(fired + [e], now) && InTimeOrder(fired + [e])
  {
    InTimeOrderSnoc(fired, e);
  }

  /** The drain loop's invariant: fired so far is due and in time order, q holds nothing earlier than its last, and the books are kept from q0. */
  predicate DrainedSoFar(fired: seq<Entry>, q: seq<Entry>, q0: seq<Entry>, now: int)
  {
    && AllDue(fired, now) && InTimeOrder(fired)
    && (fired != [] ==> NotBefore(q, fired[|fired| - 1].time))
    && Accounted(fired, q, q0, now)
  }

  /** Firing the top entry e of q, which is due, and keeping q' keeps the drain loop's invariant and owes less. */
  lemma DrainStep(fired: seq<Entry>, e: Entry, q: seq<Entry>, q': seq<Entry>, q0: seq<Entry>, now: int)
    requires DrainedSoFar(fired, q, q0, now)
    requires q != [] && e == q[Top(q)] && e.time <= now
    requires Accounted([e], q', q, now) && NotBefore(q', e.time)
    ensures DrainedSoFar(fired + [e], q', q0, now)
    ensures Owed(q', now) < Owed(q, now)
  {
    FiredInOrder(fired, q, e, now);
    AccountedThen(fired, e, q, q', q0, now);
  }

  /** When the top entry is not due, no entry is, and nothing is owed. */
  lemma TopNotDue(q: seq<Entry>, now: int)
    requires q != [] ==> q[Top(q)].time > now
    ensures forall j :: 0 <= j < |q| ==> q[j].time > now
    ensures Owed(q, now) == 0
    ensures FiresOf(q, now) == [] && LeftoverOf(q, now) == q
  {
    if q != [] {
      var t := Top(q);
      assert forall j :: 0 <= j < |q| ==> !RanksBelow(q[t], q[j]);
    }
    NothingDueOwesNothing(q, now);
  }

  class Scheduler {
    var tasks: seq<Entry>
    var stop: bool

    constructor ()
      ensures tasks == [] && !stop
    {
      tasks := [];
      stop := false;
    }

    /** schedule_at: one one-shot entry at the absolute time given. */
    method ScheduleAt(time: int, task: Task)
      modifies this
      ensures tasks == old(tasks) + [Entry(time, 0, task)] && stop == old(stop)
    {
      tasks := tasks + [Entry(time, 0, task)];
    }

    /** schedule_after: schedule_at the clock reading now plus delay. */
    method ScheduleAfter(now: int, delay: int, task: Task)
      modifies this
      ensures tasks == old(tasks) + [Entry(now + delay, 0, task)] && stop == old(stop)
    {
      ScheduleAt(now + delay, task);
    }

    /** schedule_periodic: an entry first due at firstTime, repeating every interval; a zero interval is ignored. */
    method SchedulePeriodic(firstTime: int, interval: int, task: Task)
      modifies this
      ensures interval == 0 ==> tasks == old(tasks)
      ensures interval != 0 ==> tasks == old(tasks) + [Entry(firstTime, interval, task)]
      ensures stop == old(stop)
    {
      if interval == 0 {
        return;
      }
      tasks := tasks + [Entry(firstTime, interval, task)];
    }

    /** The destructor's part: set the stop flag. */
    method Stop()
      modifies this
      ensures stop && tasks == old(tasks)
    {
      stop := true;
    }

    /** One pass of the drain loop: take the top entry, which is due, and requeue it if it is periodic. */
    method FireTop(now: int) returns (e: Entry)
      requires tasks != [] && tasks[Top(tasks)].time <= now
      modifies this
      ensures e == old(tasks)[Top(old(tasks))]
      ensures tasks == Remove(old(tasks), Top(old(tasks))) + Requeue(e)
      ensures Accounted([e], tasks, old(tasks), now)
      ensures NotBefore(old(tasks), e.time) && NotBefore(tasks, e.time)
      ensures stop == old(stop)
    {
      var i := Top(tasks);
      e := tasks[i];
      assert Accounted([], tasks, tasks, now);
      AccountedStep([], tasks, tasks, i, now);
      assert NotBefore(tasks, e.time);
      NotBeforeAfterFire(tasks, i, e.time);
      tasks := Remove(tasks, i) + Requeue(e);
    }

    /**
     * The drain at clock now: fires the top entry while it is due. Every fired
     * entry was due, they come out earliest first, the fired entries are
     * exactly the firings owed to the queue, each once, and the queue keeps
     * exactly what is left of every entry, none of it due.
     */
    method Drain(now: int) returns (fired: seq<Entry>)
      modifies this
      ensures AllDue(fired, now) && InTimeOrder(fired)
      ensures multiset(fired) == old(multiset(FiresOf(tasks, now)))
      ensures multiset(tasks) == old(multiset(LeftoverOf(tasks, now)))
      ensures |fired| == old(Owed(tasks, now))
      ensures forall j :: 0 <= j < |tasks| ==> tasks[j].time > now
      ensures stop == old(stop)
    {
      fired := [];
      ghost var q0 := tasks;
      assert Accounted(fired, tasks, q0, now);
      while tasks != [] && tasks[Top(tasks)].time <= now
        invariant DrainedSoFar(fired, tasks, q0, now)
        invariant stop == old(stop)
        decreases Owed(tasks, now)
      {
        ghost var before := tasks;
        var e := FireTop(now);
        DrainStep(fired, e, before, tasks, q0, now);
        fired := fired + [e];
      }
      AccountedDone(fired, tasks, q0, now);
    }

    /** One turn of scheduler_loop once its wait is over: nothing when stop is set, else a drain. */
    method LoopTurn(now: int) returns (fired: seq<Entry>)
      modifies this
      ensures stop == old(stop)
      ensures old(stop) ==> fired == [] && tasks == old(tasks)
      ensures !old(stop) ==> AllDue(fired, now) && InTimeOrder(fired)
      ensures !old(stop) ==> multiset(fired) == old(multiset(FiresOf(tasks, now))) && multiset(tasks) == old(multiset(LeftoverOf(tasks, now)))
      ensures !old(stop) ==> |fired| == old(Owed(tasks, now))
      ensures !old(stop) ==> forall j :: 0 <= j < |tasks| ==> tasks[j].time > now
    {
      if stop {
        return [];
      }
      fired := Drain(now);
    }
  }
}
