/** Experts drafted in snake order, so that hot and cold ones balance. */
module SnakeDraft {
  import opened Experts
  import opened Division

  // The node that drafts the i-th remaining expert.
  function SnakeNode(i: nat, n: nat): (k: nat)
    requires n > 0
    ensures k < n
  {
    if i / n % 2 == 0 then i % n else n - 1 - i % n
  }

  // The positions node `k` drafts.
  function Drafts(n: nat, k: nat): nat -> bool
    requires n > 0
  {
    (i: nat) => SnakeNode(i, n) == k
  }

  // What node `k` drafts from the remaining experts, in draft order.
  function Share(remaining: seq<nat>, n: nat, k: nat): seq<nat>
    requires n > 0
  {
    Picked(remaining, Drafts(n, k))
  }

  function SnakeAssignments(ranking: seq<nat>, nNodes: nat, replicate: nat): seq<NodeAssignment> {
    if nNodes <= 1 || replicate >= |ranking| then Unsplit(ranking, nNodes)
    else seq(nNodes, k requires 0 <= k < nNodes => SnakeAssignment(ranking, nNodes, replicate, k))
  }

  function SnakeAssignment(ranking: seq<nat>, n: nat, replicate: nat, k: nat): NodeAssignment
    requires n > 0 && replicate <= |ranking|
  {
    var own := Share(ranking[replicate..], n, k);
    NodeAssignment(Sort(ranking[..replicate] + own), replicate, |own|)
  }

  method ComputeSnakeDraftAssignments(ranking: seq<nat>, nNodes: nat, replicate: nat) returns (r: seq<NodeAssignment>)
    ensures r == SnakeAssignments(ranking, nNodes, replicate)
  {
    if nNodes <= 1 || replicate >= |ranking| {
      return Unsplit(ranking, nNodes);
    }
    var sharedCore, remaining := ranking[..replicate], ranking[replicate..];
    var nodeExperts := new seq<nat>[nNodes](_ => []);
    for i := 0 to |remaining|
      invariant forall k :: 0 <= k < nNodes ==> nodeExperts[k] == Share(remaining[..i], nNodes, k)
    {
      var round, pos := i / nNodes, i % nNodes;
      var node := if round % 2 == 0 then pos else nNodes - 1 - pos;
      assert remaining[..i + 1][..i] == remaining[..i];
      nodeExperts[node] := nodeExperts[node] + [remaining[i]];
    }
    assert remaining[..|remaining|] == remaining;
    r := [];
    for k := 0 to nNodes
      invariant |r| == k
      invariant forall j :: 0 <= j < k ==>
                  r[j] == SnakeAssignment(ranking, nNodes, replicate, j)
    {
      r := r + [NodeAssignment(Sort(sharedCore + nodeExperts[k]), |sharedCore|, |nodeExperts[k]|)];
    }
  }

  /* ----- weights ----- */

  function WeightOf(experts: seq<nat>, weight: nat -> real): real {
    if experts == [] then 0.0
    else WeightOf(experts[..|experts| - 1], weight) + weight(experts[|experts| - 1])
  }

  // The weight at a position of the draft, zero beyond its end.
  function At(remaining: seq<nat>, weight: nat -> real, i: nat): real {
    if i < |remaining| then weight(remaining[i]) else 0.0
  }

  // The weight node `k` has drafted from the first `i` positions.
  function Drafted(remaining: seq<nat>, weight: nat -> real, n: nat, k: nat, i: nat): real
    requires n > 0
  {
    if i == 0 then 0.0
    else
      Drafted(remaining, weight, n, k, i - 1)
      + if SnakeNode(i - 1, n) == k then At(remaining, weight, i - 1) else 0.0
  }

  predicate NonIncreasing(remaining: seq<nat>, weight: nat -> real) {
    && (forall i :: 0 <= i < |remaining| ==> weight(remaining[i]) >= 0.0)
    && (forall i, j :: 0 <= i < j < |remaining| ==> weight(remaining[i]) >= weight(remaining[j]))
  }

  lemma AtFalls(remaining: seq<nat>, weight: nat -> real, i: nat, j: nat)
    requires NonIncreasing(remaining, weight) && i <= j
    ensures At(remaining, weight, i) >= At(remaining, weight, j) >= 0.0
  {}

  lemma {:induction false} DraftedIsShare(remaining: seq<nat>, weight: nat -> real, n: nat, k: nat, i: nat)
    requires n > 0 && i <= |remaining|
    ensures Drafted(remaining, weight, n, k, i) == WeightOf(Share(remaining[..i], n, k), weight)
  {
    hide SnakeNode;
    if i > 0 {
      DraftedIsShare(remaining, weight, n, k, i - 1);
      hide Drafted;
      assert remaining[..i][..i - 1] == remaining[..i - 1];
      var before, x := Share(remaining[..i - 1], n, k), remaining[i - 1];
      assert Share(remaining[..i], n, k) == before + if SnakeNode(i - 1, n) == k then [x] else [];
      hide Share;
      assert before + [] == before;
      WeightOfMore(before, x, weight);
      DraftedStep(remaining, weight, n, k, i);
    }
  }

  lemma WeightOfMore(experts: seq<nat>, x: nat, weight: nat -> real)
    ensures WeightOf(experts + [x], weight) == WeightOf(experts, weight) + weight(x)
  {
    assert (experts + [x])[..|experts|] == experts;
  }

  lemma DraftedStep(remaining: seq<nat>, weight: nat -> real, n: nat, k: nat, i: nat)
    requires n > 0 && 0 < i <= |remaining|
    ensures Drafted(remaining, weight, n, k, i)
         == Drafted(remaining, weight, n, k, i - 1) + if SnakeNode(i - 1, n) == k then weight(remaining[i - 1]) else 0.0
  {
    hide SnakeNode;
  }

  // Nothing is drafted beyond the end.
  lemma {:induction false} DraftedPastEnd(remaining: seq<nat>, weight: nat -> real, n: nat, k: nat, i: nat)
    requires n > 0 && i >= |remaining|
    ensures Drafted(remaining, weight, n, k, i) == Drafted(remaining, weight, n, k, |remaining|)
    decreases i
  {
    hide SnakeNode;
    if i > |remaining| {
      DraftedPastEnd(remaining, weight, n, k, i - 1);
    }
  }

  // The position node `k` drafts in round `r`.
  function Slot(r: nat, n: nat, k: nat): (p: nat)
    requires k < n
    ensures r * n <= p < r * n + n
  {
    r * n + if r % 2 == 0 then k else n - 1 - k
  }

  // A stretch of the draft in which a node drafts one slot and nothing else.
  lemma {:induction false} StretchDrafts(remaining: seq<nat>, weight: nat -> real, n: nat, k: nat, start: nat,
                                         slot: nat, j: nat)
    requires n > 0 && start <= slot && forall p: nat :: start <= p < start + j ==> (SnakeNode(p, n) == k <==> slot == p)
    ensures Drafted(remaining, weight, n, k, start + j)
            == Drafted(remaining, weight, n, k, start) + if slot < start + j then At(remaining, weight, slot) else 0.0
    decreases j
  {
    hide At;
    hide SnakeNode;
    if j > 0 {
      StretchDrafts(remaining, weight, n, k, start, slot, j - 1);
      assert SnakeNode(start + j - 1, n) == k <==> slot == start + j - 1;
    }
  }

  // In round `r` a node drafts its slot and nothing else.
  lemma RoundDrafts(remaining: seq<nat>, weight: nat -> real, n: nat, k: nat, r: nat, j: nat)
    requires k < n && j <= n
    ensures Drafted(remaining, weight, n, k, r * n + j)
            == Drafted(remaining, weight, n, k, r * n)
               + if Slot(r, n, k) < r * n + j then At(remaining, weight, Slot(r, n, k)) else 0.0
  {
    hide At;
    hide Drafted;
    hide SnakeNode;
    var start, slot := r * n, Slot(r, n, k);
    forall p: nat | start <= p < start + j
      ensures SnakeNode(p, n) == k <==> slot == p
    {
      DraftsItsSlot(n, k, r, p - start);
    }
    hide Slot;
    StretchDrafts(remaining, weight, n, k, start, slot, j);
  }

  lemma DraftsItsSlot(n: nat, k: nat, r: nat, j: nat)
    requires k < n && j < n
    ensures SnakeNode(r * n + j, n) == k <==> Slot(r, n, k) == r * n + j
  {
    Remainder(r * n + j, r, n, j);
  }

  // After whole rounds two nodes differ by no more than the weights have fallen.
  lemma {:induction false} RoundsBalance(remaining: seq<nat>, weight: nat -> real, n: nat, k: nat, l: nat, r: nat)
    requires k < n && l < n && NonIncreasing(remaining, weight)
    ensures var d := Drafted(remaining, weight, n, k, r * n) - Drafted(remaining, weight, n, l, r * n);
            var fall := At(remaining, weight, 0) - At(remaining, weight, r * n);
            -fall <= d <= fall
    decreases r
  {
    hide Drafted;
    hide At;
    hide Slot;
    if r == 0 {
      DraftedStart(remaining, weight, n, k);
      DraftedStart(remaining, weight, n, l);
    } else {
      var q := r - 1;
      RoundsBalance(remaining, weight, n, k, l, q);
      assert q * n + n == r * n;
      RoundDrafts(remaining, weight, n, k, q, n);
      RoundDrafts(remaining, weight, n, l, q, n);
      AtFalls(remaining, weight, q * n, Slot(q, n, k));
      AtFalls(remaining, weight, q * n, Slot(q, n, l));
      AtFalls(remaining, weight, Slot(q, n, k), r * n);
      AtFalls(remaining, weight, Slot(q, n, l), r * n);
    }
  }

  lemma DraftedStart(remaining: seq<nat>, weight: nat -> real, n: nat, k: nat)
    requires n > 0
    ensures Drafted(remaining, weight, n, k, 0 * n) == 0.0
  {}

  lemma SharesBalance(remaining: seq<nat>, weight: nat -> real, n: nat, k: nat, l: nat)
    requires k < n && l < n && NonIncreasing(remaining, weight) && remaining != []
    ensures var d := WeightOf(Share(remaining, n, k), weight) - WeightOf(Share(remaining, n, l), weight);
            -weight(remaining[0]) <= d <= weight(remaining[0])
  {
    hide Drafted;
    hide Share;
    var m := |remaining|;
    assert m * n >= m;
    RoundsBalance(remaining, weight, n, k, l, m);
    DraftedPastEnd(remaining, weight, n, k, m * n);
    DraftedPastEnd(remaining, weight, n, l, m * n);
    assert remaining[..m] == remaining;
    DraftedIsShare(remaining, weight, n, k, m);
    DraftedIsShare(remaining, weight, n, l, m);
    AtFalls(remaining, weight, 0, m * n);
  }

  lemma {:induction false} UnitWeight(experts: seq<nat>)
    ensures WeightOf(experts, _ => 1.0) == |experts| as real
    decreases |experts|
  {
    if experts != [] {
      UnitWeight(experts[..|experts| - 1]);
    }
  }

  // For weights that fall along the ranking: unique weights differ by at most the weight of the
  // first expert that is not replicated, and unique counts by at most one.
  lemma SnakeDraftBalances(ranking: seq<nat>, nNodes: nat, replicate: nat, weight: nat -> real, k: nat, l: nat)
    requires nNodes >= 2 && replicate < |ranking| && k < nNodes && l < nNodes
    requires NonIncreasing(ranking[replicate..], weight)
    ensures var remaining := ranking[replicate..];
            var d := WeightOf(Share(remaining, nNodes, k), weight) - WeightOf(Share(remaining, nNodes, l), weight);
            -weight(ranking[replicate]) <= d <= weight(ranking[replicate])
    ensures var r := SnakeAssignments(ranking, nNodes, replicate);
            -1 <= r[k].nUnique - r[l].nUnique <= 1
  {
    hide Share;
    hide WeightOf;
    var remaining := ranking[replicate..];
    SharesBalance(remaining, weight, nNodes, k, l);
    var unit: nat -> real := _ => 1.0;
    SharesBalance(remaining, unit, nNodes, k, l);
    UnitWeight(Share(remaining, nNodes, k));
    UnitWeight(Share(remaining, nNodes, l));
  }

  // For a duplicate-free ranking: every list is strictly ascending and of the stated length, the
  // replicated experts are on every node and each other expert on exactly one.
  lemma SnakeDraftCovers(ranking: seq<nat>, nNodes: nat, replicate: nat)
    requires nNodes >= 2 && replicate < |ranking| && Distinct(ranking)
    ensures var r := SnakeAssignments(ranking, nNodes, replicate);
            && |r| == nNodes
            && (forall k :: 0 <= k < nNodes ==>
                  && Ascending(r[k].experts) && Distinct(r[k].experts)
                  && |r[k].experts| == r[k].nShared + r[k].nUnique && r[k].nShared == replicate)
            && (forall k, i :: 0 <= k < nNodes && 0 <= i < |ranking| ==>
                  (ranking[i] in r[k].experts <==> i < replicate || SnakeNode(i - replicate, nNodes) == k))
            && (forall k, x :: 0 <= k < nNodes && x in r[k].experts ==> x in ranking)
  {
    hide Share;
    hide SnakeNode;
    hide Sort;
    var r := SnakeAssignments(ranking, nNodes, replicate);
    forall k | 0 <= k < nNodes
      ensures Ascending(r[k].experts) && Distinct(r[k].experts)
      ensures |r[k].experts| == r[k].nShared + r[k].nUnique && r[k].nShared == replicate
      ensures forall i :: 0 <= i < |ranking| ==>
                (ranking[i] in r[k].experts <==> i < replicate || SnakeNode(i - replicate, nNodes) == k)
      ensures forall x :: x in r[k].experts ==> x in ranking
    {
      SnakeNodeCovers(ranking, nNodes, replicate, k);
    }
  }

  lemma SnakeNodeCovers(ranking: seq<nat>, n: nat, replicate: nat, k: nat)
    requires n >= 2 && replicate < |ranking| && Distinct(ranking) && k < n
    ensures var a := SnakeAssignment(ranking, n, replicate, k);
            && Ascending(a.experts) && Distinct(a.experts) && |a.experts| == a.nShared + a.nUnique
            && a.nShared == replicate
            && (forall i :: 0 <= i < |ranking| ==>
                  (ranking[i] in a.experts <==> i < replicate || SnakeNode(i - replicate, n) == k))
            && (forall x :: x in a.experts ==> x in ranking)
  {
    hide SnakeNode;
    hide Sort;
    hide Distinct;
    hide Ascending;
    hide Picked;
    var core, remaining := ranking[..replicate], ranking[replicate..];
    assert core + remaining == ranking;
    NodeHolds(ranking, replicate, Drafts(n, k));
    PickedDistinct(core, remaining, Drafts(n, k));
    SortDistinct(core + Share(remaining, n, k));
  }

  // The first round goes from the first node to the last, the second back, and so on.
  lemma SnakeOrder(n: nat, i: nat)
    requires n > 0
    ensures i < n ==> SnakeNode(i, n) == i && SnakeNode(n + i, n) == n - 1 - i
    ensures SnakeNode(i + 2 * n, n) == SnakeNode(i, n)
  {
    if i < n {
      Remainder(i, 0, n, i);
      Remainder(n + i, 1, n, i);
    }
    var q, r := i / n, i % n;
    assert i + 2 * n == (q + 2) * n + r;
    Remainder(i + 2 * n, q + 2, n, r);
  }

  // Without a split every node, and there is at least one, holds the whole ranking.
  lemma NothingSplit(ranking: seq<nat>, nNodes: nat, replicate: nat)
    requires nNodes <= 1 || replicate >= |ranking|
    ensures var r := SnakeAssignments(ranking, nNodes, replicate);
            && |r| == (if nNodes == 0 then 1 else nNodes)
            && forall k :: 0 <= k < |r| ==> r[k].experts == ranking && r[k].nShared == |ranking| && r[k].nUnique == 0
  {}
}
