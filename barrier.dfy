/**
 * The reusable barrier. A thread's arrive_and_wait is split into its arrival,
 * which runs under the lock and returns the generation it recorded, and its
 * wait, which ends once the generation differs from the recorded one.
 */
module CyclicBarrier {
  import opened Wrappers

  /** The mutable part of a barrier: arrivals in the current generation, and the generation. */
  datatype Phase = Phase(current: nat, generation: nat)

  /** Why a barrier cannot be built. */
  datatype BarrierError = InvalidArgument(message: string)

  const NotPositiveMessage := "Barrier party count must be positive."

  /** One arrival with party parties: the last of a generation starts the next one. */
  function NextPhase(party: nat, s: Phase): (r: Phase)
    requires 0 < party && s.current < party
    ensures r.current < party
    ensures r.generation != s.generation <==> s.current + 1 == party
    ensures r.generation == s.generation ==> r.current == s.current + 1
    ensures r.generation != s.generation ==> r == Phase(0, s.generation + 1)
  {
    if s.current + 1 == party then Phase(0, s.generation + 1)
    else Phase(s.current + 1, s.generation)
  }

  /** The phase after k arrivals. */
  function Arrivals(party: nat, s: Phase, k: nat): (r: Phase)
    requires 0 < party && s.current < party
    ensures r.current < party
    decreases k
  {
    if k == 0 then s else Arrivals(party, NextPhase(party, s), k - 1)
  }

  /** Arrivals in two batches. */
  lemma {:induction false} ArrivalsCompose(party: nat, s: Phase, a: nat, b: nat)
    requires 0 < party && s.current < party
    ensures Arrivals(party, s, a + b) == Arrivals(party, Arrivals(party, s, a), b)
    decreases a
  {
    if a > 0 {
      ArrivalsCompose(party, NextPhase(party, s), a - 1, b);
    }
  }

  /** Arrivals that do not complete the round only count up. */
  lemma {:induction false} PartialRound(party: nat, s: Phase, j: nat)
    requires 0 < party && s.current + j < party
    ensures Arrivals(party, s, j) == Phase(s.current + j, s.generation)
    decreases j
  {
    if j > 0 {
      PartialRound(party, NextPhase(party, s), j - 1);
    }
  }

  /** party arrivals from the start of a generation release it and reset the count. */
  lemma FullRound(party: nat, g: nat)
    requires 0 < party
    ensures Arrivals(party, Phase(0, g), party) == Phase(0, g + 1)
  {
    ArrivalsCompose(party, Phase(0, g), party - 1, 1);
    PartialRound(party, Phase(0, g), party - 1);
  }

  /** After k times party arrivals on a new barrier, generation k has begun with no arrival counted. */
  lemma {:induction false} RoundsComplete(party: nat, k: nat)
    requires 0 < party
    ensures Arrivals(party, Phase(0, 0), k * party) == Phase(0, k)
    decreases k
  {
    if k > 0 {
      RoundsComplete(party, k - 1);
      assert k * party == (k - 1) * party + party;
      ArrivalsCompose(party, Phase(0, 0), (k - 1) * party, party);
      FullRound(party, k - 1);
    }
  }

  /** The generation never goes back. */
  lemma {:induction false} GenerationGrows(party: nat, s: Phase, k: nat)
    requires 0 < party && s.current < party
    ensures Arrivals(party, s, k).generation >= s.generation
    decreases k
  {
    if k > 0 {
      GenerationGrows(party, NextPhase(party, s), k - 1);
    }
  }

  /**
   * A thread that arrives at phase s and is not the last records generation
   * s.generation and waits; after j more arrivals it may leave exactly when
   * those complete its round, that is when j reaches the parties still missing.
   */
  lemma WaiterReleased(party: nat, s: Phase, j: nat)
    requires 0 < party && s.current + 1 < party
    ensures Arrivals(party, NextPhase(party, s), j).generation != s.generation <==> j >= party - s.current - 1
  {
    var t := NextPhase(party, s);
    var missing := party - s.current - 1;
    if j < missing {
      PartialRound(party, t, j);
    } else {
      ArrivalsCompose(party, t, missing, j - missing);
      PartialRound(party, t, missing - 1);
      ArrivalsCompose(party, t, missing - 1, 1);
      GenerationGrows(party, Arrivals(party, t, missing), j - missing);
    }
  }

  class Barrier {
    const partyCount: int
    var currentCount: int
    var generation: int

    /** Between calls: a positive party count and fewer arrivals than parties. */
    ghost predicate Valid()
      reads this
    {
      0 < partyCount && 0 <= currentCount < partyCount && 0 <= generation
    }

    /** The phase of a valid barrier. */
    function State(): Phase
      reads this
      requires Valid()
    {
      Phase(currentCount, generation)
    }

    /** A barrier for partyCount parties, in generation 0 with no arrival. */
    constructor (partyCount: int)
      requires partyCount > 0
      ensures Valid() && this.partyCount == partyCount && State() == Phase(0, 0)
    {
      this.partyCount := partyCount;
      currentCount := 0;
      generation := 0;
    }

    /** The arrival half of arrive_and_wait: the generation it recorded, and whether it was the last. */
    method Arrive() returns (myGeneration: int, last: bool)
      requires Valid()
      modifies this
      ensures Valid() && State() == NextPhase(partyCount, old(State()))
      ensures myGeneration == old(generation)
      ensures last <==> MayLeave(myGeneration)
    {
      myGeneration := generation;
      currentCount := currentCount + 1;
      last := false;
      if currentCount == partyCount {
        generation := generation + 1;
        currentCount := 0;
        last := true;
      }
    }

    /** k arrivals in a row, each by a different party. */
    method ArriveTimes(k: nat)
      requires Valid()
      modifies this
      ensures Valid() && State() == Arrivals(partyCount, old(State()), k)
    {
      var i := 0;
      while i < k
        invariant i <= k && Valid()
        invariant Arrivals(partyCount, old(State()), k) == Arrivals(partyCount, State(), k - i)
      {
        var _, _ := Arrive();
        i := i + 1;
      }
    }

    /** The wait half of arrive_and_wait: a waiter may leave once the generation has moved on. */
    predicate MayLeave(myGeneration: int)
      reads this
    {
      generation != myGeneration
    }

    /**
     * arrive_and_wait by one party followed by others more arrivals: it may
     * leave exactly when its own arrival and the later ones reach the party
     * count, whether it was the last of its generation or a waiter.
     */
    method ArriveAndWait(others: nat) returns (leave: bool)
      requires Valid()
      modifies this
      ensures Valid() && State() == Arrivals(partyCount, NextPhase(partyCount, old(State())), others)
      ensures leave <==> old(currentCount) + 1 + others >= partyCount
    {
      ghost var s := State();
      var myGeneration, last := Arrive();
      ghost var t := State();
      ArriveTimes(others);
      leave := MayLeave(myGeneration);
      if last {
        GenerationGrows(partyCount, t, others);
      } else {
        WaiterReleased(partyCount, s, others);
      }
    }
  }

  /** Building a barrier: a party count of zero or less is rejected with invalid_argument. */
  method NewBarrier(partyCount: int) returns (r: Result<Barrier, BarrierError>)
    ensures r.Ok? <==> partyCount > 0
    ensures r.Err? ==> r.error == InvalidArgument(NotPositiveMessage)
    ensures r.Ok? ==> fresh(r.value) && r.value.Valid() && r.value.partyCount == partyCount
                      && r.value.State() == Phase(0, 0)
  {
    if partyCount <= 0 {
      return Err(InvalidArgument(NotPositiveMessage));
    }
    var b := new Barrier(partyCount);
    return Ok(b);
  }
}
