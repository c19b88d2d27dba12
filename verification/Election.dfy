/** Inference targets and the two ways of picking one from a list. */
module Election {
  import opened Division

  datatype Target =
    | NoTarget
    | Local(port: nat)
    | Remote(peer: nat)
    | MoeLocal(port: nat)
    | MoeRemote(peer: nat)

  const COUNTER_LIMIT: nat := 0x1_0000_0000_0000_0000

  function PickSticky(candidates: seq<Target>, key: nat): Target {
    if candidates == [] then NoTarget else candidates[key % |candidates|]
  }

  // The round-robin counter shared by every clone of the routing table.
  class ModelTargets {
    var counter: nat

    constructor ()
      ensures counter == 0
    {
      counter := 0;
    }

    // `fetch_add` wraps around at 2^64; an empty list does not use the counter.
    method PickFrom(candidates: seq<Target>) returns (target: Target)
      requires counter < COUNTER_LIMIT
      modifies this
      ensures target == PickSticky(candidates, old(counter))
      ensures counter == NextCounter(candidates, old(counter)) < COUNTER_LIMIT
    {
      if candidates == [] {
        return NoTarget;
      }
      target := candidates[counter % |candidates|];
      counter := (counter + 1) % COUNTER_LIMIT;
    }
  }

  function NextCounter(candidates: seq<Target>, counter: nat): nat {
    if candidates == [] then counter else (counter + 1) % COUNTER_LIMIT
  }

  // A list is gone through from its start, round after round.
  lemma RoundRobin(candidates: seq<Target>, i: nat, round: nat)
    ensures candidates == [] ==> PickSticky(candidates, i) == NoTarget
    ensures i < |candidates| ==> PickSticky(candidates, round * |candidates| + i) == candidates[i]
  {
    if i < |candidates| {
      Remainder(round * |candidates| + i, round, |candidates|, i);
    }
  }
}
