/** Expert assignments: what a node holds, and the sorting of the list it is given. */
module Experts {
  import opened Sorting

  datatype NodeAssignment = NodeAssignment(experts: seq<nat>, nShared: nat, nUnique: nat)

  /* ----- `sort` and `dedup` ----- */

  predicate Ascending(s: seq<nat>) {
    forall i, j :: 0 <= i < j < |s| ==> s[i] <= s[j]
  }

  predicate Distinct(s: seq<nat>) {
    forall i, j :: 0 <= i < j < |s| ==> s[i] != s[j]
  }

  function Itself(x: nat): nat {
    x
  }

  function Sort(s: seq<nat>): (r: seq<nat>)
    ensures |r| == |s|
  {
    SortBy(s, Itself)
  }

  // Keeps the first of each run of equal elements.
  function Dedup(s: seq<nat>): seq<nat> {
    if |s| <= 1 then s
    else if s[0] == s[1] then Dedup(s[1..])
    else [s[0]] + Dedup(s[1..])
  }

  lemma SortSorts(s: seq<nat>)
    ensures Ascending(Sort(s)) && multiset(Sort(s)) == multiset(s)
  {
    Sorting.SortSorts(s, Itself);
  }

  lemma SameElements(a: seq<nat>, b: seq<nat>, x: nat)
    requires multiset(a) == multiset(b)
    ensures x in a <==> x in b
  {
    assert x in a <==> x in multiset(a);
    assert x in b <==> x in multiset(b);
  }

  lemma {:induction false} DistinctCounts(s: seq<nat>)
    requires Distinct(s)
    ensures forall x :: multiset(s)[x] <= 1
    decreases |s|
  {
    if s != [] {
      DistinctCounts(s[1..]);
      assert s == [s[0]] + s[1..];
      assert s[0] !in s[1..];
      assert multiset(s[1..])[s[0]] == 0;
    }
  }

  // Sorting a duplicate-free list gives a strictly ascending one, which `dedup` leaves alone.
  lemma SortDistinct(s: seq<nat>)
    requires Distinct(s)
    ensures Distinct(Sort(s)) && Dedup(Sort(s)) == Sort(s)
  {
    SortSorts(s);
    DistinctCounts(s);
    var t := Sort(s);
    forall i, j | 0 <= i < j < |t| ensures t[i] != t[j] {
      Twice(t, i, j);
    }
    DedupDistinct(t);
  }

  lemma Twice(t: seq<nat>, i: nat, j: nat)
    requires i < j < |t|
    ensures t[i] == t[j] ==> multiset(t)[t[j]] >= 2
  {
    var init := t[..j];
    assert t == init + [t[j]] + t[j + 1..];
    assert init[i] in multiset(init);
  }

  lemma {:induction false} DedupDistinct(s: seq<nat>)
    requires Distinct(s)
    ensures Dedup(s) == s
    decreases |s|
  {
    if |s| > 1 {
      DedupDistinct(s[1..]);
      assert s == [s[0]] + s[1..];
    }
  }

  // The list of a node: the shared core and its own experts, sorted.
  function Assigned(core: seq<nat>, own: seq<nat>): NodeAssignment {
    NodeAssignment(Dedup(Sort(core + own)), |core|, |own|)
  }

  lemma AssignedHolds(core: seq<nat>, own: seq<nat>)
    requires Distinct(core + own)
    ensures var a := Assigned(core, own);
            && Ascending(a.experts) && Distinct(a.experts)
            && |a.experts| == a.nShared + a.nUnique
            && forall x :: x in a.experts <==> x in core || x in own
  {
    SortDistinct(core + own);
    SortSorts(core + own);
    forall x ensures x in Sort(core + own) <==> x in core + own {
      SameElements(Sort(core + own), core + own, x);
    }
  }

  // The answer when nothing is split: every node holds the ranking as given.
  function Unsplit(ranking: seq<nat>, nNodes: nat): seq<NodeAssignment> {
    seq(if nNodes > 1 then nNodes else 1, _ => NodeAssignment(ranking, |ranking|, 0))
  }

  /* ----- what a node is given of the remaining experts ----- */

  // The experts at the positions a node takes, in ranking order.
  function Picked(remaining: seq<nat>, takes: nat -> bool): seq<nat> {
    if remaining == [] then []
    else
      var last := |remaining| - 1;
      Picked(remaining[..last], takes) + if takes(last) then [remaining[last]] else []
  }

  lemma {:induction false} PickedHolds(remaining: seq<nat>, takes: nat -> bool, x: nat)
    ensures x in Picked(remaining, takes) <==> exists i: nat :: i < |remaining| && takes(i) && remaining[i] == x
    decreases |remaining|
  {
    if remaining != [] {
      var last := |remaining| - 1;
      var init := remaining[..last];
      PickedHolds(init, takes, x);
      assert forall i :: 0 <= i < last ==> init[i] == remaining[i];
    }
  }

  lemma {:induction false} PickedDistinct(core: seq<nat>, remaining: seq<nat>, takes: nat -> bool)
    requires Distinct(core + remaining)
    ensures Distinct(core + Picked(remaining, takes))
    decreases |remaining|
  {
    if remaining != [] {
      var last := |remaining| - 1;
      var init := remaining[..last];
      assert core + remaining == (core + init) + [remaining[last]];
      DistinctInit(core + init, remaining[last]);
      PickedDistinct(core, init, takes);
      var own := Picked(init, takes);
      if takes(last) {
        assert core + Picked(remaining, takes) == (core + own) + [remaining[last]];
        assert forall x :: x in core + init <==> x in core || x in init;
        forall x | x in core + own
          ensures x in core + init
        {
          PickedHolds(init, takes, x);
        }
        DistinctMore(core + own, remaining[last]);
      } else {
        assert core + Picked(remaining, takes) == core + own;
      }
    }
  }

  lemma DistinctInit(s: seq<nat>, x: nat)
    requires Distinct(s + [x])
    ensures Distinct(s) && x !in s
  {
    assert forall i :: 0 <= i < |s| ==> (s + [x])[i] == s[i];
    assert (s + [x])[|s|] == x;
  }

  lemma DistinctMore(s: seq<nat>, x: nat)
    requires Distinct(s) && x !in s
    ensures Distinct(s + [x])
  {}

  lemma PickedAt(ranking: seq<nat>, cut: nat, takes: nat -> bool, i: nat)
    requires Distinct(ranking) && cut <= |ranking| && i < |ranking|
    ensures ranking[i] in ranking[..cut] <==> i < cut
    ensures i >= cut ==> (ranking[i] in Picked(ranking[cut..], takes) <==> takes(i - cut))
  {
    var core, remaining := ranking[..cut], ranking[cut..];
    if i < cut {
      assert core[i] == ranking[i];
    } else {
      PickedHolds(remaining, takes, ranking[i]);
      assert remaining[i - cut] == ranking[i];
      assert forall j :: 0 <= j < |remaining| ==> remaining[j] == ranking[cut + j];
    }
  }

  // The list of a node that shares a core and takes its own positions behind it.
  lemma NodeHolds(ranking: seq<nat>, cut: nat, takes: nat -> bool)
    requires Distinct(ranking) && cut <= |ranking|
    ensures var a := Assigned(ranking[..cut], Picked(ranking[cut..], takes));
            && Ascending(a.experts) && Distinct(a.experts)
            && |a.experts| == a.nShared + a.nUnique && a.nShared == cut
            && (forall i :: 0 <= i < |ranking| ==> (ranking[i] in a.experts <==> i < cut || takes(i - cut)))
            && (forall x :: x in a.experts ==> x in ranking)
  {
    hide Picked;
    hide Distinct;
    hide Ascending;
    hide Sort;
    hide Dedup;
    var core, remaining := ranking[..cut], ranking[cut..];
    var own := Picked(remaining, takes);
    assert core + remaining == ranking;
    PickedDistinct(core, remaining, takes);
    AssignedHolds(core, own);
    var experts := Assigned(core, own).experts;
    hide Assigned;
    forall i | 0 <= i < |ranking|
      ensures ranking[i] in experts <==> i < cut || takes(i - cut)
    {
      PickedAt(ranking, cut, takes, i);
    }
    forall x | x in experts
      ensures x in ranking
    {
      PickedHolds(remaining, takes, x);
    }
  }
}
