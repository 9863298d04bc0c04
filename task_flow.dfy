/**
 * The task graph: nodes in insertion order, each with its successor list and a
 * static in-degree, and a run that counts down a copy of the in-degrees and
 * schedules a node once its count reaches zero. Handles are node positions,
 * None being the null handle; the pool's scheduling order is taken to be
 * first-in first-out, and running a node's work is recording its position.
 */
module TaskGraph {
  import opened Wrappers

  /** A node's work is identified by a number; what it does is outside this model. */
  type Work = nat

  datatype TaskNode = TaskNode(work: Work, successors: seq<nat>, inDegree: nat)

  /** How often v occurs in s. */
  function Count(v: nat, s: seq<nat>): nat
  {
    multiset(s)[v]
  }

  /** The occurrences of v in the successor lists of the nodes below k that are not in done. */
  function Into(nodes: seq<TaskNode>, v: nat, done: set<nat>, k: nat): nat
    requires k <= |nodes|
    decreases k
  {
    if k == 0 then 0
    else Into(nodes, v, done, k - 1) + (if k - 1 in done then 0 else Count(v, nodes[k - 1].successors))
  }

  /** The number of edges into v, duplicates included. */
  function Appearances(nodes: seq<TaskNode>, v: nat): nat
  {
    Into(nodes, v, {}, |nodes|)
  }

  /** Every successor is a node of the graph, and every static in-degree counts the edges into its node. */
  ghost predicate GraphValid(nodes: seq<TaskNode>)
  {
    (forall u :: 0 <= u < |nodes| ==> forall w :: w in nodes[u].successors ==> w < |nodes|)
    && forall v :: 0 <= v < |nodes| ==> nodes[v].inDegree == Appearances(nodes, v)
  }

  /** The graph has no cycle: some ranking of the nodes grows along every edge. */
  ghost predicate Ranked(nodes: seq<TaskNode>, rank: seq<nat>)
  {
    |rank| == |nodes|
    && forall u, w :: 0 <= u < |nodes| && w in nodes[u].successors && w < |nodes| ==> rank[u] < rank[w]
  }

  ghost predicate Acyclic(nodes: seq<TaskNode>)
  {
    exists rank :: Ranked(nodes, rank)
  }

  /** The nodes that have run. */
  function Done(executed: seq<nat>): set<nat>
  {
    set y | y in executed
  }

  predicate Distinct(s: seq<nat>)
  {
    forall a, b :: 0 <= a < b < |s| ==> s[a] != s[b]
  }

  /** Each node of executed ran only after every node with an edge into it. */
  ghost predicate PredecessorsFirst(nodes: seq<TaskNode>, executed: seq<nat>)
  {
    forall p, u :: 0 <= p < |executed| && 0 <= u < |nodes| && executed[p] in nodes[u].successors
                   ==> u in executed[..p]
  }

  // ---------------------------------------------------------------------------
  // Counting edges

  /** Taking x out of the pending nodes removes its edges. */
  lemma {:induction false} IntoAdd(nodes: seq<TaskNode>, v: nat, done: set<nat>, x: nat, k: nat)
    requires x < k <= |nodes| && x !in done
    ensures Into(nodes, v, done, k) == Into(nodes, v, done + {x}, k) + Count(v, nodes[x].successors)
    decreases k
  {
    if x < k - 1 {
      IntoAdd(nodes, v, done, x, k - 1);
    } else {
      IntoSame(nodes, v, done, done + {x}, k - 1);
    }
  }

  /** Into only looks at the pending nodes below k. */
  lemma {:induction false} IntoSame(nodes: seq<TaskNode>, v: nat, done: set<nat>, done': set<nat>, k: nat)
    requires k <= |nodes|
    requires forall u :: 0 <= u < k ==> (u in done <==> u in done')
    ensures Into(nodes, v, done, k) == Into(nodes, v, done', k)
    decreases k
  {
    if k > 0 {
      IntoSame(nodes, v, done, done', k - 1);
    }
  }

  /** No pending edge into v: no pending node below k has v as a successor. */
  lemma {:induction false} IntoZero(nodes: seq<TaskNode>, v: nat, done: set<nat>, k: nat, u: nat)
    requires k <= |nodes| && u < k && u !in done
    ensures Into(nodes, v, done, k) == 0 ==> v !in nodes[u].successors
    decreases k
  {
    if u < k - 1 {
      IntoZero(nodes, v, done, k - 1, u);
    }
  }

  /** Some pending edge into v: a pending node below k has v as a successor. */
  lemma {:induction false} IntoPositive(nodes: seq<TaskNode>, v: nat, done: set<nat>, k: nat) returns (u: nat)
    requires k <= |nodes| && Into(nodes, v, done, k) > 0
    ensures u < k && u !in done && v in nodes[u].successors
    decreases k
  {
    if Into(nodes, v, done, k - 1) > 0 {
      u := IntoPositive(nodes, v, done, k - 1);
    } else {
      u := k - 1;
    }
  }

  /** Nodes with the same successor lists have the same edges. */
  lemma {:induction false} IntoSameEdges(nodes: seq<TaskNode>, nodes': seq<TaskNode>, v: nat, k: nat)
    requires k <= |nodes| && k <= |nodes'|
    requires forall u :: 0 <= u < k ==> nodes[u].successors == nodes'[u].successors
    ensures Into(nodes, v, {}, k) == Into(nodes', v, {}, k)
    decreases k
  {
    if k > 0 {
      IntoSameEdges(nodes, nodes', v, k - 1);
    }
  }

  /** A node no list names has no edge into it. */
  lemma {:induction false} IntoAbsent(nodes: seq<TaskNode>, v: nat, k: nat)
    requires k <= |nodes|
    requires forall u :: 0 <= u < k ==> v !in nodes[u].successors
    ensures Into(nodes, v, {}, k) == 0
    decreases k
  {
    if k > 0 {
      IntoAbsent(nodes, v, k - 1);
    }
  }

  /** One more edge from a to b adds one edge into b and none elsewhere. */
  lemma {:induction false} IntoNewEdge(nodes: seq<TaskNode>, nodes': seq<TaskNode>, a: nat, b: nat, v: nat, k: nat)
    requires k <= |nodes| == |nodes'| && a < |nodes|
    requires forall u :: 0 <= u < |nodes| && u != a ==> nodes'[u].successors == nodes[u].successors
    requires nodes'[a].successors == nodes[a].successors + [b]
    ensures Into(nodes', v, {}, k) == Into(nodes, v, {}, k) + (if a < k && v == b then 1 else 0)
    decreases k
  {
    if k > 0 {
      IntoNewEdge(nodes, nodes', a, b, v, k - 1);
      if k - 1 == a {
        assert multiset(nodes'[a].successors) == multiset(nodes[a].successors) + multiset{b};
      }
    }
  }

  /** The graph with one more edge a -> b: b is appended to a's successors and b's in-degree grows by one. */
  function AddEdge(nodes: seq<TaskNode>, a: nat, b: nat): (r: seq<TaskNode>)
    requires a < |nodes| && b < |nodes|
    ensures |r| == |nodes|
    ensures forall u :: 0 <= u < |nodes| ==>
              r[u].work == nodes[u].work
              && r[u].successors == nodes[u].successors + (if u == a then [b] else [])
              && r[u].inDegree == nodes[u].inDegree + (if u == b then 1 else 0)
  {
    var n1 := nodes[a := nodes[a].(successors := nodes[a].successors + [b])];
    n1[b := n1[b].(inDegree := n1[b].inDegree + 1)]
  }

  /** Adding an edge between two nodes keeps every static in-degree equal to the number of edges into its node. */
  lemma AddEdgeKeepsValid(nodes: seq<TaskNode>, a: nat, b: nat)
    requires GraphValid(nodes) && a < |nodes| && b < |nodes|
    ensures GraphValid(AddEdge(nodes, a, b))
  {
    var r := AddEdge(nodes, a, b);
    forall v | 0 <= v < |r|
      ensures r[v].inDegree == Appearances(r, v)
    {
      IntoNewEdge(nodes, r, a, b, v, |r|);
    }
  }

  // ---------------------------------------------------------------------------
  // Counting nodes

  /** The nodes below n. */
  function Range(n: nat): (r: set<nat>)
    ensures forall i: nat :: i in r <==> i < n
    ensures |r| == n
  {
    if n == 0 then {} else Range(n - 1) + {n - 1}
  }

  lemma {:induction false} SubsetCard(a: set<nat>, b: set<nat>)
    requires a <= b
    ensures |a| <= |b|
    decreases |a|
  {
    if a != {} {
      var x :| x in a;
      SubsetCard(a - {x}, b - {x});
    }
  }

  lemma {:induction false} DistinctCard(s: seq<nat>)
    requires Distinct(s)
    ensures |Done(s)| == |s|
    decreases |s|
  {
    if s != [] {
      var front := s[..|s| - 1];
      DistinctCard(front);
      assert Done(s) == Done(front) + {s[|s| - 1]};
      assert s[|s| - 1] !in front;
    }
  }

  /** A repetition-free list of nodes names at most all of them, and all of them exactly when it is that long. */
  lemma DistinctBounded(s: seq<nat>, n: nat)
    requires Distinct(s) && forall i :: 0 <= i < |s| ==> s[i] < n
    ensures |s| <= n
    ensures (forall v :: 0 <= v < n ==> v in s) <==> |s| == n
  {
    DistinctCard(s);
    assert Done(s) <= Range(n);
    SubsetCard(Done(s), Range(n));
    if forall v :: 0 <= v < n ==> v in s {
      assert Done(s) == Range(n);
    } else {
      var v :| 0 <= v < n && v !in s;
      assert Done(s) <= Range(n) - {v};
      SubsetCard(Done(s), Range(n) - {v});
    }
  }

  /** The first position of v in s, or |s| when v does not occur. */
  function IndexOf(s: seq<nat>, v: nat): (i: nat)
    ensures i <= |s|
    ensures i < |s| <==> v in s
    ensures i < |s| ==> s[i] == v
    ensures forall j :: 0 <= j < i ==> s[j] != v
  {
    if s == [] then 0
    else if s[0] == v then 0
    else 1 + IndexOf(s[1..], v)
  }

  /**
   * A run that got through every node ranks them: each node's position in the
   * run is above those of its predecessors, so the graph has no cycle.
   */
  lemma CompleteRunRanks(nodes: seq<TaskNode>, executed: seq<nat>)
    requires NodeList(executed, |nodes|) && |executed| == |nodes|
    requires PredecessorsFirst(nodes, executed)
    ensures Acyclic(nodes)
  {
    var n := |nodes|;
    DistinctBounded(executed, n);
    var rank: seq<nat> := seq(n, v requires 0 <= v => IndexOf(executed, v));
    forall u, w | 0 <= u < n && w in nodes[u].successors && w < n
      ensures rank[u] < rank[w]
    {
      var p := IndexOf(executed, w);
      assert executed[p] == w;
      assert u in executed[..p];
      var q :| 0 <= q < p && executed[..p][q] == u;
      assert executed[q] == u;
      var r := IndexOf(executed, u);
      assert r <= q;
    }
    assert Ranked(nodes, rank);
  }

  // ---------------------------------------------------------------------------
  // Running the graph

  /** Fewer pending nodes, fewer pending edges. */
  lemma {:induction false} IntoAtMostAll(nodes: seq<TaskNode>, v: nat, done: set<nat>, k: nat)
    requires k <= |nodes|
    ensures Into(nodes, v, done, k) <= Into(nodes, v, {}, k)
    decreases k
  {
    if k > 0 {
      IntoAtMostAll(nodes, v, done, k - 1);
    }
  }

  /** The nodes left pending in an acyclic graph, each with a pending edge into it, are none. */
  lemma {:induction false} BlockedNodesRun(nodes: seq<TaskNode>, rank: seq<nat>, done: set<nat>, v: nat)
    requires Ranked(nodes, rank) && v < |nodes|
    requires forall w :: 0 <= w < |nodes| && w !in done ==> Into(nodes, w, done, |nodes|) > 0
    ensures v in done
    decreases rank[v]
  {
    if v !in done {
      var u := IntoPositive(nodes, v, done, |nodes|);
      BlockedNodesRun(nodes, rank, done, u);
    }
  }

  /** Only nodes of the graph, none twice. */
  ghost predicate NodeList(s: seq<nat>, n: nat)
  {
    Distinct(s) && forall i :: 0 <= i < |s| ==> s[i] < n
  }

  /** Each count is the number of pending edges into its node plus its appearances in rest. */
  ghost predicate CountsAhead(nodes: seq<TaskNode>, done: set<nat>, indeg: seq<int>, rest: seq<nat>)
  {
    |indeg| == |nodes| && forall v :: 0 <= v < |nodes| ==> indeg[v] == Into(nodes, v, done, |nodes|) + Count(v, rest)
  }

  /** A node has run or is scheduled exactly when its count is zero. */
  ghost predicate ZeroScheduled(nodes: seq<TaskNode>, executed: seq<nat>, ready: seq<nat>, indeg: seq<int>)
    requires |indeg| == |nodes|
  {
    forall v :: 0 <= v < |nodes| ==> (v in executed || v in ready <==> indeg[v] == 0)
  }

  /**
   * What holds between two scheduled nodes of run: each node has run or is
   * scheduled at most once; each remaining count is the number of edges into
   * its node from nodes that have not run; a node is scheduled or has run
   * exactly when its count is zero; and the nodes ran after their predecessors.
   */
  ghost predicate RunState(nodes: seq<TaskNode>, executed: seq<nat>, ready: seq<nat>, indeg: seq<int>)
  {
    NodeList(executed + ready, |nodes|)
    && CountsAhead(nodes, Done(executed), indeg, [])
    && ZeroScheduled(nodes, executed, ready, indeg)
    && PredecessorsFirst(nodes, executed)
  }

  /** A node whose predecessors have all run may run next. */
  lemma PredecessorsFirstSnoc(nodes: seq<TaskNode>, executed: seq<nat>, x: nat)
    requires PredecessorsFirst(nodes, executed)
    requires forall u :: 0 <= u < |nodes| && x in nodes[u].successors ==> u in executed
    ensures PredecessorsFirst(nodes, executed + [x])
  {
    var executed' := executed + [x];
    forall p, u | 0 <= p < |executed'| && 0 <= u < |nodes| && executed'[p] in nodes[u].successors
      ensures u in executed'[..p]
    {
      if p < |executed| {
        assert executed'[p] == executed[p] && executed'[..p] == executed[..p];
      } else {
        assert executed'[..p] == executed;
      }
    }
  }

  /** Running the first scheduled node x: its predecessors have all run, and its edges are the ones left to count down. */
  lemma RunNext(nodes: seq<TaskNode>, executed: seq<nat>, ready: seq<nat>, indeg: seq<int>)
    requires GraphValid(nodes) && RunState(nodes, executed, ready, indeg) && ready != []
    ensures var x, executed' := ready[0], executed + [ready[0]];
            x < |nodes| && x !in executed && |executed| + |ready| <= |nodes|
            && executed' + ready[1..] == executed + ready
            && PredecessorsFirst(nodes, executed')
            && ZeroScheduled(nodes, executed', ready[1..], indeg)
  {
    var n, x := |nodes|, ready[0];
    var done, executed' := Done(executed), executed + [x];
    assert executed' + ready[1..] == executed + ready;
    assert (executed + ready)[|executed|] == x;
    DistinctBounded(executed + ready, n);
    forall k | 0 <= k < |executed|
      ensures executed[k] != x
    {
      assert (executed + ready)[k] == executed[k];
    }
    forall u | 0 <= u < n && x in nodes[u].successors
      ensures u in executed
    {
      if u !in done {
        IntoZero(nodes, x, done, n, u);
      }
    }
    PredecessorsFirstSnoc(nodes, executed, x);
  }

  /** The pending nodes after x has run are the ones before and x. */
  lemma DoneSnoc(executed: seq<nat>, x: nat)
    ensures Done(executed + [x]) == Done(executed) + {x}
  {
    var executed' := executed + [x];
    assert forall y :: y in executed' <==> y in executed || y == x;
  }

  /** Once x has run, the remaining counts exceed the pending edges by exactly the edges out of x. */
  lemma RunCounts(nodes: seq<TaskNode>, executed: seq<nat>, indeg: seq<int>, x: nat)
    requires x < |nodes| && x !in executed && CountsAhead(nodes, Done(executed), indeg, [])
    ensures CountsAhead(nodes, Done(executed + [x]), indeg, nodes[x].successors)
  {
    DoneSnoc(executed, x);
    forall v | 0 <= v < |nodes|
      ensures indeg[v] == Into(nodes, v, Done(executed) + {x}, |nodes|) + Count(v, nodes[x].successors)
    {
      IntoAdd(nodes, v, Done(executed), x, |nodes|);
    }
  }

  /**
   * When nothing is scheduled any more: every entry node has run, and in an
   * acyclic graph every node has.
   */
  lemma RunEnd(nodes: seq<TaskNode>, executed: seq<nat>, indeg: seq<int>)
    requires GraphValid(nodes) && RunState(nodes, executed, [], indeg)
    ensures |executed| <= |nodes|
    ensures forall v :: 0 <= v < |nodes| && nodes[v].inDegree == 0 ==> v in executed
    ensures Acyclic(nodes) ==> |executed| == |nodes|
  {
    var n, done := |nodes|, Done(executed);
    assert executed + [] == executed;
    DistinctBounded(executed, n);
    forall v | 0 <= v < n && nodes[v].inDegree == 0
      ensures v in executed
    {
      IntoAtMostAll(nodes, v, done, n);
    }
    if Acyclic(nodes) {
      var rank :| Ranked(nodes, rank);
      forall v | 0 <= v < n
        ensures v in executed
      {
        BlockedNodesRun(nodes, rank, done, v);
      }
      DistinctBounded(executed, n);
    }
  }

  /** A node not yet listed may be added to the list. */
  lemma NodeListSnoc(s: seq<nat>, x: nat, n: nat)
    requires NodeList(s, n) && x < n && x !in s
    ensures NodeList(s + [x], n)
  {
  }

  /** Counting down s, the next successor: its count was positive, so it had neither run nor been scheduled. */
  lemma CountDownStep(nodes: seq<TaskNode>, done: set<nat>, executed: seq<nat>, ready: seq<nat>,
                      indeg: seq<int>, s: nat, rest: seq<nat>)
    requires s < |nodes| && CountsAhead(nodes, done, indeg, [s] + rest)
    requires ZeroScheduled(nodes, executed, ready, indeg)
    ensures var indeg' := indeg[s := indeg[s] - 1];
            CountsAhead(nodes, done, indeg', rest) && indeg'[s] >= 0
            && s !in executed && s !in ready
            && (indeg'[s] == 0 ==> ZeroScheduled(nodes, executed, ready + [s], indeg'))
            && (indeg'[s] != 0 ==> ZeroScheduled(nodes, executed, ready, indeg'))
  {
    var indeg' := indeg[s := indeg[s] - 1];
    assert indeg[s] == Into(nodes, s, done, |nodes|) + Count(s, [s] + rest);
    forall v | 0 <= v < |nodes|
      ensures indeg'[v] == Into(nodes, v, done, |nodes|) + Count(v, rest)
    {
      assert Count(v, [s] + rest) == Count(v, rest) + if v == s then 1 else 0;
    }
  }

  /**
   * The part of schedule_node after x's work: each successor's remaining count
   * goes down by one, and a successor whose count reaches zero is scheduled,
   * that is appended to ready. executed already ends with x.
   */
  method ReleaseSuccessors(nodes: seq<TaskNode>, x: nat, indeg: seq<int>, ready: seq<nat>, ghost executed: seq<nat>)
    returns (indeg': seq<int>, ready': seq<nat>)
    requires x < |nodes| && forall w :: w in nodes[x].successors ==> w < |nodes|
    requires NodeList(executed + ready, |nodes|)
    requires CountsAhead(nodes, Done(executed), indeg, nodes[x].successors)
    requires ZeroScheduled(nodes, executed, ready, indeg)
    ensures CountsAhead(nodes, Done(executed), indeg', [])
    ensures ZeroScheduled(nodes, executed, ready', indeg')
    ensures NodeList(executed + ready', |nodes|)
    ensures exists added :: ready' == ready + added
  {
    ghost var done := Done(executed);
    var succ := nodes[x].successors;
    indeg', ready' := indeg, ready;
    ghost var added: seq<nat> := [];
    var j := 0;
    while j < |succ|
      invariant j <= |succ| && CountsAhead(nodes, done, indeg', succ[j..])
      invariant ZeroScheduled(nodes, executed, ready', indeg')
      invariant NodeList(executed + ready', |nodes|)
      invariant ready' == ready + added
    {
      var s := succ[j];
      assert s in nodes[x].successors;
      assert succ[j..] == [s] + succ[j + 1..];
      CountDownStep(nodes, done, executed, ready', indeg', s, succ[j + 1..]);
      indeg' := indeg'[s := indeg'[s] - 1];
      if indeg'[s] == 0 {
        NodeListSnoc(executed + ready', s, |nodes|);
        assert executed + (ready' + [s]) == (executed + ready') + [s];
        ready', added := ready' + [s], added + [s];
      }
      j := j + 1;
    }
  }

  class TaskFlow {
    var nodes: seq<TaskNode>

    ghost predicate Valid()
      reads this
    {
      GraphValid(nodes)
    }

    constructor ()
      ensures Valid() && nodes == []
    {
      nodes := [];
    }

    /** emplace: one new last node with the work, no successors and in-degree zero; its handle is its position. */
    method Emplace(work: Work) returns (handle: nat)
      requires Valid()
      modifies this
      ensures Valid()
      ensures nodes == old(nodes) + [TaskNode(work, [], 0)]
      ensures handle == |old(nodes)| && nodes[handle].work == work
    {
      var old_nodes := nodes;
      nodes := nodes + [TaskNode(work, [], 0)];
      forall v | 0 <= v < |nodes|
        ensures nodes[v].inDegree == Appearances(nodes, v)
      {
        IntoSameEdges(old_nodes, nodes, v, |old_nodes|);
        if v == |old_nodes| {
          IntoAbsent(old_nodes, v, |old_nodes|);
        }
      }
      handle := |old_nodes|;
    }

    /**
     * precede: with two non-null handles, pre gains succ as its last successor
     * and succ's in-degree grows by one; with a null handle nothing changes.
     */
    method Precede(pre: Option<nat>, succ: Option<nat>)
      requires Valid()
      requires pre.Some? ==> pre.value < |nodes|
      requires succ.Some? ==> succ.value < |nodes|
      modifies this
      ensures Valid() && |nodes| == |old(nodes)|
      ensures pre.None? || succ.None? ==> nodes == old(nodes)
      ensures pre.Some? && succ.Some? ==>
                forall u :: 0 <= u < |nodes| ==>
                  nodes[u].work == old(nodes[u].work)
                  && nodes[u].successors == old(nodes[u].successors) + (if u == pre.value then [succ.value] else [])
                  && nodes[u].inDegree == old(nodes[u].inDegree) + (if u == succ.value then 1 else 0)
    {
      if pre.None? || succ.None? {
        return;
      }
      AddEdgeKeepsValid(nodes, pre.value, succ.value);
      nodes := AddEdge(nodes, pre.value, succ.value);
    }

    /**
     * run: the nodes with static in-degree zero start, and each node is
     * scheduled once its remaining count reaches zero. Returns the entry nodes,
     * the nodes in the order they ran, and whether completion was signalled.
     */
    method Run() returns (entries: seq<nat>, executed: seq<nat>, completed: bool)
      requires Valid()
      ensures forall v :: 0 <= v < |nodes| ==> (v in entries <==> nodes[v].inDegree == 0)
      ensures forall i, j :: 0 <= i < j < |entries| ==> entries[i] < entries[j]
      ensures NodeList(executed, |nodes|)
      ensures PredecessorsFirst(nodes, executed)
      ensures forall v :: v in entries ==> v in executed
      ensures completed <==> |executed| == |nodes|
      ensures completed <==> Acyclic(nodes)
    {
      var n := |nodes|;
      if n == 0 {
        assert Ranked(nodes, []);
        return [], [], true;
      }
      var indeg := CopyInDegrees(nodes);
      entries := EntryNodes(nodes);
      var ready: seq<nat> := entries;
      executed := [];
      RunStart(nodes, indeg, entries);
      var remaining := n;
      completed := false;
      while ready != []
        invariant RunState(nodes, executed, ready, indeg)
        invariant remaining == n - |executed| && (completed <==> remaining == 0)
        decreases n - |executed|
      {
        executed, ready, indeg := RunFirst(nodes, executed, ready, indeg);
        remaining := remaining - 1;
        if remaining == 0 {
          completed := true;
        }
      }
      assert executed + ready == executed;
      RunEnd(nodes, executed, indeg);
      if completed {
        CompleteRunRanks(nodes, executed);
      }
    }
  }

  /** Before run's first step: the entry nodes are scheduled, nothing has run, and every count is the static in-degree. */
  lemma RunStart(nodes: seq<TaskNode>, indeg: seq<int>, entries: seq<nat>)
    requires GraphValid(nodes)
    requires |indeg| == |nodes| && forall v :: 0 <= v < |nodes| ==> indeg[v] == nodes[v].inDegree
    requires forall v :: 0 <= v < |nodes| ==> (v in entries <==> nodes[v].inDegree == 0)
    requires forall a :: 0 <= a < |entries| ==> entries[a] < |nodes|
    requires forall a, b :: 0 <= a < b < |entries| ==> entries[a] < entries[b]
    ensures RunState(nodes, [], entries, indeg)
  {
    assert Done([]) == {} && [] + entries == entries;
  }

  /** One step of run: the first scheduled node runs and releases its successors. */
  method RunFirst(nodes: seq<TaskNode>, executed: seq<nat>, ready: seq<nat>, indeg: seq<int>)
    returns (executed': seq<nat>, ready': seq<nat>, indeg': seq<int>)
    requires GraphValid(nodes) && RunState(nodes, executed, ready, indeg) && ready != []
    ensures RunState(nodes, executed', ready', indeg')
    ensures executed' == executed + [ready[0]] && |executed'| <= |nodes|
  {
    var x := ready[0];
    RunNext(nodes, executed, ready, indeg);
    RunCounts(nodes, executed, indeg, x);
    executed' := executed + [x];
    indeg', ready' := ReleaseSuccessors(nodes, x, indeg, ready[1..], executed');
  }

  /** The copy of the static in-degrees that run counts down. */
  method CopyInDegrees(nodes: seq<TaskNode>) returns (indeg: seq<int>)
    ensures |indeg| == |nodes| && forall v :: 0 <= v < |nodes| ==> indeg[v] == nodes[v].inDegree
  {
    indeg := [];
    var i := 0;
    while i < |nodes|
      invariant i <= |nodes| && |indeg| == i
      invariant forall v :: 0 <= v < i ==> indeg[v] == nodes[v].inDegree
    {
      indeg := indeg + [nodes[i].inDegree];
      i := i + 1;
    }
  }

  /** The entry nodes of run: those with static in-degree zero, in insertion order. */
  method EntryNodes(nodes: seq<TaskNode>) returns (entries: seq<nat>)
    ensures forall v :: 0 <= v < |nodes| ==> (v in entries <==> nodes[v].inDegree == 0)
    ensures forall a :: 0 <= a < |entries| ==> entries[a] < |nodes|
    ensures forall a, b :: 0 <= a < b < |entries| ==> entries[a] < entries[b]
  {
    entries := [];
    var i := 0;
    while i < |nodes|
      invariant i <= |nodes|
      invariant forall v :: 0 <= v < |nodes| ==> (v in entries <==> v < i && nodes[v].inDegree == 0)
      invariant forall a :: 0 <= a < |entries| ==> entries[a] < i
      invariant forall a, b :: 0 <= a < b < |entries| ==> entries[a] < entries[b]
    {
      if nodes[i].inDegree == 0 {
        entries := entries + [i];
      }
      i := i + 1;
    }
  }
}
