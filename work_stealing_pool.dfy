/**
 * The routing rules of the work-stealing thread pool: where submit puts a task,
 * in which order a worker looks for work, which victims try_steal visits, and the
 * worker's idle spin counter. Threads, futures, sleeping and waking are not
 * modelled; the random start index of a steal and the stop flag are parameters.
 */
module StealingPool {
  import opened Wrappers
  import opened StealingDeque
  import opened BlockingQueue

  /** The thread-local index of a thread that is not a worker: size_t(-1). */
  const NoWorker: nat := 0xFFFF_FFFF_FFFF_FFFF

  /** The idle rounds a worker spins before it parks and starts counting again. */
  const SpinThreshold: nat := 4000

  /** The number of workers and local queues for a requested thread count: 0 gives one. */
  function WorkerCount(numThreads: nat): (n: nat)
    ensures n >= 1
    ensures numThreads > 0 ==> n == numThreads
  {
    if numThreads == 0 then 1 else numThreads
  }

  /** Where submit puts a task. */
  datatype Destination = Local(index: nat) | Global

  /** The queue a task submitted from the thread with index myIndex goes to, with n local queues. */
  function SubmitTarget(myIndex: nat, n: nat): (t: Destination)
    ensures t.Local? <==> myIndex != NoWorker && myIndex < n
    ensures t.Local? ==> t.index == myIndex
  {
    if myIndex != NoWorker && myIndex < n then Local(myIndex) else Global
  }

  /** The deques of a sequence of local queues, in order. */
  ghost function Deques(qs: seq<WorkStealingQueue>): (ds: seq<seq<Task>>)
    reads qs
    ensures |ds| == |qs| && forall i :: 0 <= i < |qs| ==> ds[i] == qs[i].deque
  {
    seq(|qs|, i requires 0 <= i < |qs| reads qs => qs[i].deque)
  }

  /**
   * The i-th queue try_steal looks at, (start + i) % n, written without the
   * remainder: start is drawn from 0 .. n - 1 and i runs over 0 .. n - 1.
   */
  function Target(start: nat, i: nat, n: nat): (t: nat)
    requires start < n && i < n
    ensures t < n
  {
    if start + i < n then start + i else start + i - n
  }

  lemma TargetIsRemainder(start: nat, i: nat, n: nat)
    requires start < n && i < n
    ensures Target(start, i, n) == (start + i) % n
  {
  }

  /** The victims try_steal visits from the i-th on: Target(start, j, n) for j = i .. n - 1, skipping the caller. */
  function VisitOrder(start: nat, n: nat, myIndex: nat, i: nat): (order: seq<nat>)
    requires start < n && i <= n
    ensures forall j :: 0 <= j < |order| ==> order[j] < n && order[j] != myIndex
    decreases n - i
  {
    if i == n then []
    else
      var target := Target(start, i, n);
      if target == myIndex then VisitOrder(start, n, myIndex, i + 1)
      else [target] + VisitOrder(start, n, myIndex, i + 1)
  }

  /** The position in order of the first victim whose deque is not empty. */
  function FirstNonEmpty(ds: seq<seq<Task>>, order: seq<nat>): (p: Option<nat>)
    requires forall j :: 0 <= j < |order| ==> order[j] < |ds|
    ensures p.Some? ==> p.value < |order| && ds[order[p.value]] != []
                        && forall j :: 0 <= j < p.value ==> ds[order[j]] == []
    ensures p.None? <==> forall j :: 0 <= j < |order| ==> ds[order[j]] == []
  {
    if order == [] then None
    else if ds[order[0]] != [] then Some(0)
    else match FirstNonEmpty(ds, order[1..])
      case None => None
      case Some(p) => Some(p + 1)
  }

  /** The queue try_steal takes from, visiting the others from start on; none when there is at most one queue. */
  function StealVictim(ds: seq<seq<Task>>, start: nat, myIndex: nat, i: nat): (v: Option<nat>)
    requires start < |ds| && i <= |ds|
    ensures v.Some? ==> v.value < |ds| && v.value != myIndex && ds[v.value] != []
  {
    if |ds| <= 1 then None
    else
      var order := VisitOrder(start, |ds|, myIndex, i);
      match FirstNonEmpty(ds, order)
      case None => None
      case Some(p) => Some(order[p])
  }

  /** The deques after a steal from victim: its back task is gone. */
  function AfterSteal(ds: seq<seq<Task>>, victim: nat): (ds': seq<seq<Task>>)
    requires victim < |ds| && ds[victim] != []
    ensures |ds'| == |ds| && ds'[victim] == ds[victim][..|ds[victim]| - 1]
    ensures forall j :: 0 <= j < |ds| && j != victim ==> ds'[j] == ds[j]
  {
    ds[victim := ds[victim][..|ds[victim]| - 1]]
  }

  /** One step of the visit: the target (start + i) % n is skipped when it is the caller, taken when it has work. */
  lemma VisitStep(ds: seq<seq<Task>>, start: nat, myIndex: nat, i: nat)
    requires 1 < |ds| && start < |ds| && i < |ds|
    ensures var target := Target(start, i, |ds|);
            StealVictim(ds, start, myIndex, i)
            == if target != myIndex && ds[target] != [] then Some(target)
               else StealVictim(ds, start, myIndex, i + 1)
  {
    var n, target := |ds|, Target(start, i, |ds|);
    var rest := VisitOrder(start, n, myIndex, i + 1);
    if target != myIndex {
      var order := [target] + rest;
      assert VisitOrder(start, n, myIndex, i) == order;
      assert order[0] == target && order[1..] == rest;
    } else {
      assert VisitOrder(start, n, myIndex, i) == rest;
    }
  }

  /** The visit finds its victim at position i when the earlier targets were the caller or empty. */
  lemma {:induction false} VisitHits(ds: seq<seq<Task>>, start: nat, myIndex: nat, i: nat)
    requires 1 < |ds| && start < |ds| && i < |ds|
    requires forall j :: 0 <= j < i ==> Target(start, j, |ds|) == myIndex || ds[Target(start, j, |ds|)] == []
    requires Target(start, i, |ds|) != myIndex && ds[Target(start, i, |ds|)] != []
    ensures StealVictim(ds, start, myIndex, 0) == Some(Target(start, i, |ds|))
  {
    var k := i;
    while k > 0
      invariant 0 <= k <= i
      invariant StealVictim(ds, start, myIndex, k) == Some(Target(start, i, |ds|))
    {
      k := k - 1;
      VisitStep(ds, start, myIndex, k);
    }
    VisitStep(ds, start, myIndex, i);
  }

  /** The visit finds nothing when every target is the caller or empty. */
  lemma VisitMisses(ds: seq<seq<Task>>, start: nat, myIndex: nat)
    requires 1 < |ds| && start < |ds|
    requires forall j :: 0 <= j < |ds| ==> Target(start, j, |ds|) == myIndex || ds[Target(start, j, |ds|)] == []
    ensures StealVictim(ds, start, myIndex, 0) == None
  {
    var k := |ds|;
    while k > 0
      invariant 0 <= k <= |ds|
      invariant StealVictim(ds, start, myIndex, k) == None
    {
      k := k - 1;
      VisitStep(ds, start, myIndex, k);
    }
  }

  /** The visit from position i on holds exactly the targets of positions i .. n - 1 other than the caller. */
  lemma {:induction false} VisitOrderMembers(start: nat, n: nat, myIndex: nat, i: nat)
    requires start < n && i <= n
    ensures forall v :: v in VisitOrder(start, n, myIndex, i) <==> v != myIndex && exists j :: i <= j < n && Target(start, j, n) == v
    decreases n - i
  {
    if i < n {
      VisitOrderMembers(start, n, myIndex, i + 1);
    }
  }

  /** No element of s occurs twice. */
  predicate Distinct(s: seq<nat>)
  {
    forall a, b :: 0 <= a < b < |s| ==> s[a] != s[b]
  }

  /** No queue is visited twice. */
  lemma {:induction false} VisitOrderDistinct(start: nat, n: nat, myIndex: nat, i: nat)
    requires start < n && i <= n
    ensures Distinct(VisitOrder(start, n, myIndex, i))
    decreases n - i
  {
    if i < n {
      var target, rest := Target(start, i, n), VisitOrder(start, n, myIndex, i + 1);
      VisitOrderDistinct(start, n, myIndex, i + 1);
      VisitOrderMembers(start, n, myIndex, i + 1);
      if target != myIndex {
        assert target !in rest;
        var order := [target] + rest;
        forall a, b | 0 <= a < b < |order|
          ensures order[a] != order[b]
        {
          assert order[b] == rest[b - 1] && rest[b - 1] in rest;
          if a == 0 {
            assert order[a] == target;
          } else {
            assert order[a] == rest[a - 1];
            assert rest[a - 1] != rest[b - 1];
          }
        }
        assert VisitOrder(start, n, myIndex, i) == order;
      }
    }
  }

  /** Every queue other than the caller's is visited. */
  lemma VisitOrderCoversOthers(start: nat, n: nat, myIndex: nat)
    requires start < n
    ensures forall v :: 0 <= v < n && v != myIndex ==> v in VisitOrder(start, n, myIndex, 0)
  {
    VisitOrderMembers(start, n, myIndex, 0);
    forall v | 0 <= v < n && v != myIndex
      ensures v in VisitOrder(start, n, myIndex, 0)
    {
      var j := if v >= start then v - start else v + n - start;
      assert Target(start, j, n) == v;
    }
  }

  /** try_steal comes back empty-handed exactly when every other queue is empty. */
  lemma StealFailsOnlyWhenOthersEmpty(ds: seq<seq<Task>>, start: nat, myIndex: nat)
    requires |ds| > 1 && start < |ds|
    ensures StealVictim(ds, start, myIndex, 0).None? <==> forall v :: 0 <= v < |ds| && v != myIndex ==> ds[v] == []
  {
    var order := VisitOrder(start, |ds|, myIndex, 0);
    VisitOrderCoversOthers(start, |ds|, myIndex);
    if StealVictim(ds, start, myIndex, 0).None? {
      forall v | 0 <= v < |ds| && v != myIndex
        ensures ds[v] == []
      {
        assert v in order;
        var j :| 0 <= j < |order| && order[j] == v;
        assert FirstNonEmpty(ds, order).None?;
      }
    }
  }

  /** The idle counter after one round of the worker loop. */
  function NextSpin(spin: nat, ranTask: bool): (next: nat)
    requires spin < SpinThreshold
    ensures next < SpinThreshold
    ensures ranTask ==> next == 0
    ensures !ranTask ==> next == (spin + 1) % SpinThreshold
  {
    if ranTask then 0
    else if spin + 1 < SpinThreshold then spin + 1
    else 0
  }

  /** The counter after k idle rounds from spin. */
  function IdleRounds(spin: nat, k: nat): nat
    requires spin < SpinThreshold
    decreases k
  {
    if k == 0 then spin else NextSpin(IdleRounds(spin, k - 1), false)
  }

  /** k idle rounds from a fresh counter leave it at k modulo the threshold: it parks every 4000 rounds. */
  lemma {:induction false} IdleRoundsWrap(spin: nat, k: nat)
    requires spin < SpinThreshold
    ensures IdleRounds(spin, k) == (spin + k) % SpinThreshold
    decreases k
  {
    if k > 0 {
      IdleRoundsWrap(spin, k - 1);
    }
  }

  /** Where a worker found the task it ran in one round. */
  datatype Source = FromLocal | FromGlobal | FromSteal | Idle

  /** The tasks held by a list of deques. */
  function Held(ds: seq<seq<Task>>): multiset<Task>
  {
    if ds == [] then multiset{} else Held(ds[..|ds| - 1]) + multiset(ds[|ds| - 1])
  }

  /** The tasks held by a list of deques are those of deque v and those of the others. */
  lemma {:induction false} HeldSplit(ds: seq<seq<Task>>, v: nat)
    requires v < |ds|
    ensures Held(ds) == Held(ds[v := []]) + multiset(ds[v])
    decreases |ds|
  {
    var last := |ds| - 1;
    var front := ds[..last];
    if v < last {
      HeldSplit(front, v);
      assert ds[v := []][..last] == front[v := []];
      assert front[v] == ds[v] && ds[v := []][last] == ds[last];
    } else {
      assert ds[v := []][..last] == front;
    }
  }

  /** The tasks waiting in a pool: in the local deques and in the global queue. */
  function Pending(ds: seq<seq<Task>>, g: seq<Task>): multiset<Task>
  {
    Held(ds) + multiset(g)
  }

  /** What one round of worker_thread takes and leaves behind. */
  datatype RoundResult = RoundResult(source: Source, task: Option<Task>, deques: seq<seq<Task>>, global: seq<Task>)

  /**
   * One round of worker index: the front of its own deque, else the front of
   * the global queue, else the back of the first victim try_steal reaches from
   * start, else nothing.
   */
  function Round(ds: seq<seq<Task>>, g: seq<Task>, index: nat, start: nat): (r: RoundResult)
    requires index < |ds| && start < |ds|
    ensures |r.deques| == |ds|
    ensures r.task.None? <==> r.source == Idle
  {
    if ds[index] != [] then RoundResult(FromLocal, Some(ds[index][0]), ds[index := ds[index][1..]], g)
    else if g != [] then RoundResult(FromGlobal, Some(g[0]), ds, g[1..])
    else match StealVictim(ds, start, index, 0)
      case Some(v) => RoundResult(FromSteal, Some(ds[v][|ds[v]| - 1]), AfterSteal(ds, v), g)
      case None => RoundResult(Idle, None, ds, g)
  }

  /** The tasks an optional task stands for. */
  function Taken(t: Option<Task>): multiset<Task>
  {
    if t.Some? then multiset{t.value} else multiset{}
  }

  /** No deque holds a task. */
  predicate NoWork(ds: seq<seq<Task>>)
  {
    forall v :: 0 <= v < |ds| ==> ds[v] == []
  }

  /** A worker stays idle for a round exactly when no queue of the pool holds a task, and an idle round changes nothing. */
  lemma IdleOnlyWhenNoWork(ds: seq<seq<Task>>, g: seq<Task>, index: nat, start: nat)
    requires index < |ds| && start < |ds|
    ensures Round(ds, g, index, start).source == Idle <==> g == [] && NoWork(ds)
    ensures Round(ds, g, index, start).source == Idle ==> Round(ds, g, index, start) == RoundResult(Idle, None, ds, g)
  {
    if |ds| > 1 {
      StealFailsOnlyWhenOthersEmpty(ds, start, index);
    }
  }

  /** Replacing deque v by d, which holds the same tasks but t, takes t out of the deques. */
  lemma HeldTake(ds: seq<seq<Task>>, v: nat, d: seq<Task>, t: Task)
    requires v < |ds| && multiset(ds[v]) == multiset(d) + multiset{t}
    ensures Held(ds[v := d]) + multiset{t} == Held(ds)
  {
    var e := ds[v := d];
    HeldSplit(ds, v);
    HeldSplit(e, v);
    assert e[v := []] == ds[v := []];
  }

  /** Popping the front of deque v removes exactly that task from the deques. */
  lemma HeldPopFront(ds: seq<seq<Task>>, v: nat)
    requires v < |ds| && ds[v] != []
    ensures Held(ds[v := ds[v][1..]]) + multiset{ds[v][0]} == Held(ds)
  {
    var d := ds[v];
    assert d == [d[0]] + d[1..];
    HeldTake(ds, v, d[1..], d[0]);
  }

  /** Stealing the back of deque v removes exactly that task from the deques. */
  lemma HeldPopBack(ds: seq<seq<Task>>, v: nat)
    requires v < |ds| && ds[v] != []
    ensures Held(AfterSteal(ds, v)) + multiset{ds[v][|ds[v]| - 1]} == Held(ds)
  {
    var d := ds[v];
    var rest := d[..|d| - 1];
    assert d == rest + [d[|d| - 1]];
    HeldTake(ds, v, rest, d[|d| - 1]);
  }

  /** A round moves at most one task out of the pool and loses or copies none. */
  lemma RoundConservesTasks(ds: seq<seq<Task>>, g: seq<Task>, index: nat, start: nat)
    requires index < |ds| && start < |ds|
    ensures var r := Round(ds, g, index, start);
            Pending(r.deques, r.global) + Taken(r.task) == Pending(ds, g)
  {
    if ds[index] != [] {
      HeldPopFront(ds, index);
    } else if g != [] {
      assert g == [g[0]] + g[1..];
    } else if StealVictim(ds, start, index, 0).Some? {
      HeldPopBack(ds, StealVictim(ds, start, index, 0).value);
    }
  }

  class WorkStealingPool {
    const queues: seq<WorkStealingQueue>
    const global: ConcurrentQueue<Task>

    ghost predicate Valid()
      reads this
    {
      |queues| >= 1 && forall i, j :: 0 <= i < j < |queues| ==> queues[i] != queues[j]
    }

    /** One empty local queue per worker, WorkerCount(numThreads) of them, and an empty global queue. */
    constructor (numThreads: nat)
      ensures Valid() && |queues| == WorkerCount(numThreads)
      ensures forall i :: 0 <= i < |queues| ==> fresh(queues[i]) && queues[i].deque == []
      ensures fresh(global) && global.items == [] && !global.stopped
    {
      var n := WorkerCount(numThreads);
      var qs: seq<WorkStealingQueue> := [];
      while |qs| < n
        invariant |qs| <= n
        invariant forall i :: 0 <= i < |qs| ==> fresh(qs[i]) && qs[i].deque == []
        invariant forall i, j :: 0 <= i < j < |qs| ==> qs[i] != qs[j]
      {
        var q := new WorkStealingQueue();
        qs := qs + [q];
      }
      queues := qs;
      global := new ConcurrentQueue<Task>();
    }

    /**
     * submit from the thread whose index is myIndex: a worker of this pool pushes
     * to the front of its own queue, any other thread appends to the global queue.
     * Exactly that one queue grows by the task.
     */
    method Submit(myIndex: nat, task: Task)
      requires Valid()
      modifies queues, global
      ensures match SubmitTarget(myIndex, |queues|)
              case Local(i) =>
                queues[i].deque == [task] + old(queues[i].deque) && global.items == old(global.items)
                && forall j :: 0 <= j < |queues| && j != i ==> queues[j].deque == old(queues[j].deque)
              case Global =>
                global.items == old(global.items) + [task]
                && forall j :: 0 <= j < |queues| ==> queues[j].deque == old(queues[j].deque)
      ensures global.stopped == old(global.stopped)
    {
      if myIndex != NoWorker && myIndex < |queues| {
        queues[myIndex].Push(task);
      } else {
        global.Push(task);
      }
    }

    /**
     * try_steal by the worker myIndex, starting at start: the first victim in
     * VisitOrder with a non-empty deque loses its back task, which is returned;
     * when there is none, or only one queue, nothing changes.
     */
    method TrySteal(myIndex: nat, start: nat) returns (r: Option<Task>)
      requires Valid() && start < |queues|
      modifies queues
      ensures var ds := old(Deques(queues));
              match StealVictim(ds, start, myIndex, 0)
              case None => r.None? && Deques(queues) == ds
              case Some(v) => r == Some(ds[v][|ds[v]| - 1]) && Deques(queues) == AfterSteal(ds, v)
    {
      var n := |queues|;
      ghost var ds := Deques(queues);
      if n <= 1 {
        return None;
      }
      var i := 0;
      while i < n
        invariant i <= n && Deques(queues) == ds
        invariant forall j :: 0 <= j < i ==> Target(start, j, n) == myIndex || ds[Target(start, j, n)] == []
      {
        var target := (start + i) % n;
        TargetIsRemainder(start, i, n);
        if target != myIndex {
          r := StealFrom(target);
          if r.Some? {
            VisitHits(ds, start, myIndex, i);
            return;
          }
        }
        i := i + 1;
      }
      VisitMisses(ds, start, myIndex);
      r := None;
    }

    /**
     * One round of worker_thread for worker index, with start the random first
     * victim of its steal: the queues lose the task Round picks, and the idle
     * counter is reset after a task and advanced after an idle round.
     */
    method WorkerRound(index: nat, start: nat, spin: nat) returns (source: Source, task: Option<Task>, spin': nat)
      requires Valid() && index < |queues| && start < |queues| && spin < SpinThreshold
      modifies queues, global
      ensures var r := Round(old(Deques(queues)), old(global.items), index, start);
              source == r.source && task == r.task && Deques(queues) == r.deques && global.items == r.global
      ensures spin' == NextSpin(spin, task.Some?)
      ensures global.stopped == old(global.stopped)
      ensures Pending(Deques(queues), global.items) + Taken(task) == old(Pending(Deques(queues), global.items))
      ensures task.None? <==> old(global.items) == [] && NoWork(old(Deques(queues)))
      ensures task.None? ==> Deques(queues) == old(Deques(queues)) && global.items == old(global.items)
    {
      ghost var ds, g := Deques(queues), global.items;
      RoundConservesTasks(ds, g, index, start);
      IdleOnlyWhenNoWork(ds, g, index, start);
      task := PopOwn(index);
      if task.Some? {
        return FromLocal, task, 0;
      }
      task := global.TryPop();
      if task.Some? {
        assert Deques(queues) == ds;
        return FromGlobal, task, 0;
      }
      task := TrySteal(index, start);
      if task.Some? {
        return FromSteal, task, 0;
      }
      source := Idle;
      spin' := NextSpin(spin, false);
    }

    /**
     * The rounds worker index runs before it sees the stop flag, one per entry
     * of starts. Every task it runs was waiting in the pool, and none twice;
     * with no work in the pool it runs nothing and its counter only advances.
     */
    method WorkerRounds(index: nat, starts: seq<nat>, spin: nat) returns (ran: seq<Task>, spin': nat)
      requires Valid() && index < |queues| && spin < SpinThreshold
      requires forall k :: 0 <= k < |starts| ==> starts[k] < |queues|
      modifies queues, global
      ensures spin' < SpinThreshold
      ensures multiset(ran) + Pending(Deques(queues), global.items) == old(Pending(Deques(queues), global.items))
      ensures old(global.items) == [] && NoWork(old(Deques(queues))) ==> ran == [] && spin' == IdleRounds(spin, |starts|)
    {
      ghost var ds0, g0 := Deques(queues), global.items;
      ghost var empty := g0 == [] && NoWork(ds0);
      ran, spin' := [], spin;
      var k := 0;
      while k < |starts|
        invariant k <= |starts| && spin' < SpinThreshold
        invariant multiset(ran) + Pending(Deques(queues), global.items) == Pending(ds0, g0)
        invariant empty ==> ran == [] && Deques(queues) == ds0 && global.items == g0 && spin' == IdleRounds(spin, k)
      {
        var source, task;
        source, task, spin' := WorkerRound(index, starts[k], spin');
        if task.Some? {
          ran := ran + [task.value];
        }
        k := k + 1;
      }
    }

    /** pop on the caller's own queue: only that deque changes. */
    method PopOwn(index: nat) returns (r: Option<Task>)
      requires Valid() && index < |queues|
      modifies queues[index]
      ensures var ds := old(Deques(queues));
              if ds[index] == [] then r.None? && Deques(queues) == ds
              else r == Some(ds[index][0]) && Deques(queues) == ds[index := ds[index][1..]]
    {
      ghost var ds := Deques(queues);
      r := queues[index].Pop();
      if r.Some? {
        assert Deques(queues) == ds[index := ds[index][1..]];
      } else {
        assert Deques(queues) == ds;
      }
    }

    /** steal on the queue of worker victim: only that deque changes. */
    method StealFrom(victim: nat) returns (r: Option<Task>)
      requires Valid() && victim < |queues|
      modifies queues[victim]
      ensures var ds := old(Deques(queues));
              if ds[victim] == [] then r.None? && Deques(queues) == ds
              else r == Some(ds[victim][|ds[victim]| - 1]) && Deques(queues) == AfterSteal(ds, victim)
    {
      ghost var ds := Deques(queues);
      r := queues[victim].Steal();
      if r.Some? {
        assert Deques(queues) == AfterSteal(ds, victim);
      } else {
        assert Deques(queues) == ds;
      }
    }
  }
}
