/** Experts dealt round-robin with a number of copies each. */
module Overlap {
  import opened Experts
  import opened Division
  import opened Sets

  // The requested copies, at least one and at most one per node.
  function Copies(overlap: nat, nNodes: nat): nat {
    var capped := if overlap < nNodes then overlap else nNodes;
    if capped > 1 then capped else 1
  }

  // How many nodes after the i-th, cyclically, node `k` comes.
  function Steps(i: nat, n: nat, k: nat): (s: nat)
    requires n > 0
    ensures s < n
  {
    (k - i) % n
  }

  // Node `k` is one of the `c` nodes from the i-th on, cyclically.
  predicate Holds(i: nat, n: nat, c: nat, k: nat)
    requires n > 0
  {
    Steps(i, n, k) < c
  }

  // The positions dealt to node `k`.
  function Dealt(n: nat, c: nat, k: nat): nat -> bool
    requires n > 0
  {
    (i: nat) => Holds(i, n, c, k)
  }

  // The remaining experts dealt to node `k`, in ranking order.
  function Share(remaining: seq<nat>, n: nat, c: nat, k: nat): seq<nat>
    requires n > 0
  {
    Picked(remaining, Dealt(n, c, k))
  }

  function OverlapAssignments(ranking: seq<nat>, nNodes: nat, minExperts: nat, overlap: nat): seq<NodeAssignment> {
    if nNodes <= 1 || minExperts >= |ranking| then Unsplit(ranking, nNodes)
    else
      var c := Copies(overlap, nNodes);
      seq(nNodes, k requires 0 <= k < nNodes =>
        Assigned(ranking[..minExperts], Share(ranking[minExperts..], nNodes, c, k)))
  }

  // `k` is reached from `i` in exactly that many steps.
  lemma StepsTo(i: nat, n: nat, k: nat, j: nat)
    requires k < n && j < n
    ensures (i + j) % n == k <==> j == Steps(i, n, k)
  {
    var s := Steps(i, n, k);
    var q := (k - i) / n;
    assert k - i == q * n + s;
    assert i + s == (-q) * n + k;
    Remainder(i + s, -q, n, k);
    if (i + j) % n == k {
      var p := (i + j) / n;
      assert i + j == p * n + k;
      assert k - i == (-p) * n + j;
      Remainder(k - i, -p, n, j);
    }
  }

  lemma StepsToAll(i: nat, n: nat, j: nat)
    requires j < n
    ensures (i + j) % n < n
    ensures forall k: nat :: k < n ==> (Steps(i, n, k) == j <==> k == (i + j) % n)
  {
    forall k: nat | k < n ensures Steps(i, n, k) == j <==> k == (i + j) % n {
      StepsTo(i, n, k, j);
    }
  }

  method ComputeAssignmentsWithOverlap(ranking: seq<nat>, nNodes: nat, minExperts: nat, overlap: nat)
    returns (r: seq<NodeAssignment>)
    ensures r == OverlapAssignments(ranking, nNodes, minExperts, overlap)
  {
    var c := Copies(overlap, nNodes);
    if nNodes <= 1 || minExperts >= |ranking| {
      return Unsplit(ranking, nNodes);
    }
    hide Share;
    hide Sort;
    hide Dedup;
    hide Copies;
    var sharedCore, remaining := ranking[..minExperts], ranking[minExperts..];
    var nodeExperts := new seq<nat>[nNodes](_ => []);
    NothingDealt(nNodes, c);
    for i := 0 to |remaining|
      invariant forall k :: 0 <= k < nNodes ==> nodeExperts[k] == Share(remaining[..i], nNodes, c, k)
    {
      DealOne(nodeExperts, remaining, i, c);
    }
    assert remaining[..|remaining|] == remaining;
    r := [];
    for k := 0 to nNodes
      invariant |r| == k
      invariant forall j :: 0 <= j < k ==> r[j] == Assigned(sharedCore, Share(remaining, nNodes, c, j))
    {
      var experts := Dedup(Sort(sharedCore + nodeExperts[k]));
      r := r + [NodeAssignment(experts, minExperts, |nodeExperts[k]|)];
    }
  }

  lemma NothingDealt(n: nat, c: nat)
    requires n > 0
    ensures forall k :: 0 <= k < n ==> Share([], n, c, k) == []
  {}

  // The inner loop: the i-th remaining expert goes to `c` consecutive nodes.
  method DealOne(nodeExperts: array<seq<nat>>, remaining: seq<nat>, i: nat, c: nat)
    requires i < |remaining| && 0 < nodeExperts.Length && c <= nodeExperts.Length
    requires forall k :: 0 <= k < nodeExperts.Length ==>
               nodeExperts[k] == Share(remaining[..i], nodeExperts.Length, c, k)
    modifies nodeExperts
    ensures forall k :: 0 <= k < nodeExperts.Length ==>
              nodeExperts[k] == Share(remaining[..i + 1], nodeExperts.Length, c, k)
  {
    var n := nodeExperts.Length;
    ghost var before := nodeExperts[..];
    for j := 0 to c
      invariant nodeExperts.Length == n && |before| == n
      invariant forall k :: 0 <= k < n ==>
                  nodeExperts[k] == before[k] + if Steps(i, n, k) < j then [remaining[i]] else []
    {
      hide Steps;
      var node := (i + j) % n;
      StepsToAll(i, n, j);
      nodeExperts[node] := nodeExperts[node] + [remaining[i]];
    }
    assert remaining[..i + 1][..i] == remaining[..i];
  }

  /* ----- who holds what ----- */

  // The nodes that hold the i-th remaining expert, among the first so many.
  ghost function HoldersAmong(i: nat, n: nat, c: nat, nodes: nat): set<nat>
    requires n > 0
  {
    set k: nat | k < nodes && Holds(i, n, c, k)
  }

  ghost function Holders(i: nat, n: nat, c: nat): set<nat>
    requires n > 0
  {
    HoldersAmong(i, n, c, n)
  }

  lemma {:induction false} HoldersCount(i: nat, n: nat, c: nat)
    requires 0 < n && c <= n
    ensures |Holders(i, n, c)| == c
    decreases c
  {
    if c == 0 {
      assert Holders(i, n, 0) == {};
    } else {
      HoldersCount(i, n, c - 1);
      hide Steps;
      var k := (i + (c - 1)) % n;
      StepsToAll(i, n, c - 1);
      assert Holders(i, n, c) == Holders(i, n, c - 1) + {k};
      assert k !in Holders(i, n, c - 1);
    }
  }

  /* ----- how much a node holds ----- */

  function Count(n: nat, c: nat, k: nat, m: nat): nat
    requires n > 0
  {
    if m == 0 then 0 else Count(n, c, k, m - 1) + if Holds(m - 1, n, c, k) then 1 else 0
  }

  lemma {:induction false} ShareLength(remaining: seq<nat>, n: nat, c: nat, k: nat)
    requires n > 0
    ensures |Share(remaining, n, c, k)| == Count(n, c, k, |remaining|)
    decreases |remaining|
  {
    hide Holds;
    if remaining != [] {
      ShareLength(remaining[..|remaining| - 1], n, c, k);
    }
  }

  function Min(a: int, b: int): int { if a < b then a else b }
  function Max(a: int, b: int): int { if a > b then a else b }

  // Within the first n positions the distance falls from k to 0 and then from n - 1 on.
  lemma {:induction false} FirstRound(n: nat, c: nat, k: nat, m: nat)
    requires k < n && c <= n && m <= n
    ensures Count(n, c, k, m) == Max(0, Min(m, k + 1) - Max(0, k - c + 1)) + Max(0, m - (n + k - c + 1))
    decreases m
  {
    if m > 0 {
      FirstRound(n, c, k, m - 1);
      var i := m - 1;
      if i <= k {
        Remainder(k - i, 0, n, k - i);
      } else {
        assert k - i == (-1) * n + (n + k - i);
        Remainder(k - i, -1, n, n + k - i);
      }
    }
  }

  lemma HoldsPeriodic(i: nat, n: nat, c: nat, k: nat)
    requires k < n
    ensures Holds(i + n, n, c, k) <==> Holds(i, n, c, k)
  {
    var q, r := (k - i) / n, (k - i) % n;
    assert k - i == q * n + r;
    assert k - (i + n) == (q - 1) * n + r;
    Remainder(k - (i + n), q - 1, n, r);
  }

  // Every block of n positions adds exactly c.
  lemma {:induction false} CountPeriodic(n: nat, c: nat, k: nat, m: nat)
    requires k < n && c <= n
    ensures Count(n, c, k, m + n) == Count(n, c, k, m) + c
    decreases m
  {
    hide Holds;
    if m == 0 {
      FirstRound(n, c, k, n);
    } else {
      CountPeriodic(n, c, k, m - 1);
      HoldsPeriodic(m - 1, n, c, k);
      assert m - 1 + n == m + n - 1;
    }
  }

  lemma {:induction false} CountBounds(n: nat, c: nat, k: nat, m: nat)
    requires k < n && c <= n
    ensures c * (m / n) <= Count(n, c, k, m) <= c * (m / n) + c
    decreases m
  {
    hide Holds;
    hide Count;
    if m < n {
      FirstRound(n, c, k, m);
      Remainder(m, 0, n, m);
    } else {
      CountBounds(n, c, k, m - n);
      CountPeriodic(n, c, k, m - n);
      OneRoundMore(n, c, m);
    }
  }

  lemma OneRoundMore(n: nat, c: nat, m: nat)
    requires 0 < n <= m
    ensures c * (m / n) == c * ((m - n) / n) + c
  {
    var q := (m - n) / n;
    Remainder(m, q + 1, n, (m - n) % n);
    assert m / n == q + 1;
    assert c * (q + 1) == c * q + c;
  }

  function TotalUnique(r: seq<NodeAssignment>): nat {
    if r == [] then 0 else TotalUnique(r[..|r| - 1]) + r[|r| - 1].nUnique
  }

  // The experts counted over the first `nodes` nodes.
  function TotalCount(n: nat, c: nat, m: nat, nodes: nat): nat
    requires n > 0
  {
    if nodes == 0 then 0 else TotalCount(n, c, m, nodes - 1) + Count(n, c, nodes - 1, m)
  }

  lemma {:induction false} TotalCountStep(n: nat, c: nat, m: nat, nodes: nat)
    requires 0 < n && nodes <= n
    ensures TotalCount(n, c, m + 1, nodes) == TotalCount(n, c, m, nodes) + |HoldersAmong(m, n, c, nodes)|
    decreases nodes
  {
    hide Holds;
    var now := HoldersAmong(m, n, c, nodes);
    if nodes == 0 {
      assert now == {};
    } else {
      TotalCountStep(n, c, m, nodes - 1);
      var before := HoldersAmong(m, n, c, nodes - 1);
      if Holds(m, n, c, nodes - 1) {
        assert now == before + {nodes - 1};
      } else {
        assert now == before;
      }
    }
  }

  lemma {:induction false} TotalCountIs(n: nat, c: nat, m: nat)
    requires 0 < n && c <= n
    ensures TotalCount(n, c, m, n) == c * m
    decreases m
  {
    hide Holds;
    if m == 0 {
      NothingCounted(n, c, n);
    } else {
      TotalCountIs(n, c, m - 1);
      TotalCountStep(n, c, m - 1, n);
      HoldersCount(m - 1, n, c);
      assert c * m == c * (m - 1) + c;
    }
  }

  lemma {:induction false} NothingCounted(n: nat, c: nat, nodes: nat)
    requires n > 0
    ensures TotalCount(n, c, 0, nodes) == 0
  {
    if nodes > 0 {
      NothingCounted(n, c, nodes - 1);
    }
  }

  lemma {:induction false} TotalUniqueIs(core: seq<nat>, remaining: seq<nat>, n: nat, c: nat, r: seq<NodeAssignment>)
    requires 0 < n && |r| <= n
    requires forall k :: 0 <= k < |r| ==> r[k] == Assigned(core, Share(remaining, n, c, k))
    ensures TotalUnique(r) == TotalCount(n, c, |remaining|, |r|)
    decreases |r|
  {
    if r != [] {
      TotalUniqueIs(core, remaining, n, c, r[..|r| - 1]);
      ShareLength(remaining, n, c, |r| - 1);
    }
  }

  /* ----- the promises ----- */

  // Counts: c copies of every remaining expert in all, and any two nodes within c of each other.
  lemma OverlapCounts(ranking: seq<nat>, nNodes: nat, minExperts: nat, overlap: nat)
    requires nNodes >= 2 && minExperts < |ranking|
    ensures var r := OverlapAssignments(ranking, nNodes, minExperts, overlap);
            var c := Copies(overlap, nNodes);
            && |r| == nNodes
            && TotalUnique(r) == c * (|ranking| - minExperts)
            && (forall k, l :: 0 <= k < nNodes && 0 <= l < nNodes ==> r[k].nUnique - r[l].nUnique <= c)
            && (forall k :: 0 <= k < nNodes ==> r[k].nUnique >= c * ((|ranking| - minExperts) / nNodes))
  {
    hide Share;
    hide Assigned;
    var r := OverlapAssignments(ranking, nNodes, minExperts, overlap);
    var c := Copies(overlap, nNodes);
    var core, remaining := ranking[..minExperts], ranking[minExperts..];
    TotalUniqueIs(core, remaining, nNodes, c, r);
    TotalCountIs(nNodes, c, |remaining|);
    forall k | 0 <= k < nNodes
      ensures c * (|remaining| / nNodes) <= r[k].nUnique <= c * (|remaining| / nNodes) + c
    {
      ShareLength(remaining, nNodes, c, k);
      CountBounds(nNodes, c, k, |remaining|);
      AssignedCounts(core, Share(remaining, nNodes, c, k));
    }
  }

  lemma AssignedCounts(core: seq<nat>, own: seq<nat>)
    ensures Assigned(core, own).nUnique == |own|
  {}

  lemma OverlapNode(ranking: seq<nat>, n: nat, minExperts: nat, c: nat, k: nat)
    requires n >= 2 && minExperts < |ranking| && Distinct(ranking) && k < n
    ensures var a := Assigned(ranking[..minExperts], Share(ranking[minExperts..], n, c, k));
            && Ascending(a.experts) && Distinct(a.experts) && |a.experts| == a.nShared + a.nUnique
            && a.nShared == minExperts
            && (forall i :: 0 <= i < |ranking| ==>
                  (ranking[i] in a.experts <==> i < minExperts || Holds(i - minExperts, n, c, k)))
            && (forall x :: x in a.experts ==> x in ranking)
  {
    hide Assigned;
    hide Picked;
    hide Holds;
    hide Distinct;
    hide Ascending;
    NodeHolds(ranking, minExperts, Dealt(n, c, k));
  }

  // The nodes whose list has an expert.
  ghost function NodesWith(r: seq<NodeAssignment>, x: nat): set<nat> {
    set k: nat | k < |r| && x in r[k].experts
  }

  // Every node's list is strictly ascending and of the stated length; a core expert is on every
  // node, every other expert on exactly c nodes, and nothing else is on any.
  lemma OverlapCovers(ranking: seq<nat>, nNodes: nat, minExperts: nat, overlap: nat)
    requires nNodes >= 2 && minExperts < |ranking| && Distinct(ranking)
    ensures var r := OverlapAssignments(ranking, nNodes, minExperts, overlap);
            && |r| == nNodes
            && (forall k :: 0 <= k < nNodes ==>
                  && Ascending(r[k].experts) && Distinct(r[k].experts)
                  && |r[k].experts| == r[k].nShared + r[k].nUnique && r[k].nShared == minExperts
                  && forall x :: x in r[k].experts ==> x in ranking)
            && (forall i :: 0 <= i < |ranking| ==>
                  |NodesWith(r, ranking[i])| == if i < minExperts then nNodes else Copies(overlap, nNodes))
  {
    hide Share;
    hide Holds;
    hide Assigned;
    var r := OverlapAssignments(ranking, nNodes, minExperts, overlap);
    var c := Copies(overlap, nNodes);
    forall k | 0 <= k < nNodes
      ensures && Ascending(r[k].experts) && Distinct(r[k].experts)
              && |r[k].experts| == r[k].nShared + r[k].nUnique && r[k].nShared == minExperts
              && forall x :: x in r[k].experts ==> x in ranking
    {
      OverlapNode(ranking, nNodes, minExperts, c, k);
    }
    forall i | 0 <= i < |ranking|
      ensures |NodesWith(r, ranking[i])| == if i < minExperts then nNodes else c
    {
      forall k: nat | k < nNodes
        ensures ranking[i] in r[k].experts <==> i < minExperts || Holds(i - minExperts, nNodes, c, k)
      {
        OverlapNode(ranking, nNodes, minExperts, c, k);
      }
      if i < minExperts {
        assert NodesWith(r, ranking[i]) == Below(nNodes);
      } else {
        assert NodesWith(r, ranking[i]) == Holders(i - minExperts, nNodes, c);
        HoldersCount(i - minExperts, nNodes, c);
      }
    }
  }

  ghost function Below(n: nat): (r: set<nat>)
    ensures |r| == n && forall k: nat :: k in r <==> k < n
  {
    if n == 0 then {} else Below(n - 1) + {n - 1}
  }

  // Losing any fewer than c nodes leaves every expert on some surviving node.
  lemma SurvivesLosses(ranking: seq<nat>, nNodes: nat, minExperts: nat, overlap: nat, lost: set<nat>, x: nat)
    requires nNodes >= 2 && minExperts < |ranking| && Distinct(ranking)
    requires |lost| < Copies(overlap, nNodes) && x in ranking
    ensures var r := OverlapAssignments(ranking, nNodes, minExperts, overlap);
            exists k: nat :: k < |r| && k !in lost && x in r[k].experts
  {
    hide OverlapAssignments;
    OverlapCovers(ranking, nNodes, minExperts, overlap);
    var r := OverlapAssignments(ranking, nNodes, minExperts, overlap);
    var i :| 0 <= i < |ranking| && ranking[i] == x;
    var holders := NodesWith(r, x);
    if holders <= lost {
      SubsetIsNoLarger(holders, lost);
      assert false;
    }
    var k :| k in holders && k !in lost;
  }

  // And c nodes can be lost that leave an expert nowhere: the bound is exact.
  lemma LossesThatHurt(ranking: seq<nat>, nNodes: nat, minExperts: nat, overlap: nat, i: nat)
    requires nNodes >= 2 && minExperts <= i < |ranking| && Distinct(ranking)
    ensures var r := OverlapAssignments(ranking, nNodes, minExperts, overlap);
            exists lost: set<nat> :: |lost| == Copies(overlap, nNodes)
                                     && forall k: nat :: k < |r| && k !in lost ==> ranking[i] !in r[k].experts
  {
    hide OverlapAssignments;
    OverlapCovers(ranking, nNodes, minExperts, overlap);
    var r := OverlapAssignments(ranking, nNodes, minExperts, overlap);
    var lost := NodesWith(r, ranking[i]);
    assert forall k: nat :: k < |r| && k !in lost ==> ranking[i] !in r[k].experts;
  }

  // Dealing starts at the first node: the i-th remaining expert is on the node i modulo the number
  // of nodes and on those after it, cyclically, as many as there are copies.
  lemma DealtFrom(ranking: seq<nat>, nNodes: nat, minExperts: nat, overlap: nat, i: nat, k: nat)
    requires nNodes >= 2 && minExperts <= i < |ranking| && Distinct(ranking) && k < nNodes
    ensures var r := OverlapAssignments(ranking, nNodes, minExperts, overlap);
            var first := i - minExperts;
            ranking[i] in r[k].experts <==>
            exists j: nat :: j < Copies(overlap, nNodes) && NodeAfter(first, j, nNodes) == k
  {
    hide Share;
    hide Assigned;
    hide Steps;
    hide Copies;
    var c := Copies(overlap, nNodes);
    CopiesAre(overlap, nNodes);
    OverlapNode(ranking, nNodes, minExperts, c, k);
    var first: nat := i - minExperts;
    var s := Steps(first, nNodes, k);
    StepsToAll(first, nNodes, s);
    assert NodeAfter(first, s, nNodes) == k;
    if j: nat :| j < c && NodeAfter(first, j, nNodes) == k {
      StepsToAll(first, nNodes, j);
    }
  }

  function NodeAfter(first: nat, steps: nat, n: nat): nat
    requires n > 0
  {
    (first + steps) % n
  }

  lemma CopiesAre(overlap: nat, nNodes: nat)
    ensures overlap == 0 || nNodes == 0 ==> Copies(overlap, nNodes) == 1
    ensures 0 < overlap <= nNodes ==> Copies(overlap, nNodes) == overlap
    ensures 0 < nNodes < overlap ==> Copies(overlap, nNodes) == nNodes
  {}

  // Without a split every node, and there is at least one, holds the whole ranking.
  lemma NothingSplit(ranking: seq<nat>, nNodes: nat, minExperts: nat, overlap: nat)
    requires nNodes <= 1 || minExperts >= |ranking|
    ensures var r := OverlapAssignments(ranking, nNodes, minExperts, overlap);
            && |r| == (if nNodes == 0 then 1 else nNodes)
            && forall k :: 0 <= k < |r| ==> r[k].experts == ranking && r[k].nShared == |ranking| && r[k].nUnique == 0
  {}
}
