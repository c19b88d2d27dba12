/** How a peer's role in a split model is inferred from gossip. */
module SplitRole {
  import opened Results
  import opened Text
  import opened TextOrder

  datatype NodeRole = Worker | Host | Client

  // `shortId` is the printed form of `id`; `hostedKnown` says that the peer advertised `hosted`.
  datatype Peer = Peer(id: nat, shortId: string, role: NodeRole, serving: seq<string>, requested: seq<string>,
                       hosted: seq<string>, hostedKnown: bool, fastMemory: nat, sizes: map<string, nat>)
  {
    // In the cohort of a model: serving it, or parked and still requesting it.
    predicate IsAssigned(model: string) {
      model in serving || model in requested
    }

    // `routes_http_model`
    predicate Routes(model: string) {
      role.Host? && if hostedKnown then model in hosted else IsAssigned(model)
    }
  }

  datatype Role = PipelineHost | PipelineWorker
  datatype Group = Group(model: string, hostId: string, peerIds: seq<string>, totalMemory: nat)
  datatype Classification = Classification(role: Option<Role>, group: Option<Group>)

  const NOTHING := Classification(None, None)

  function Where(peers: seq<Peer>, keep: Peer -> bool): (r: seq<Peer>)
    ensures forall p :: p in r <==> p in peers && keep(p)
  {
    if peers == [] then []
    else
      var rest := Where(peers[1..], keep);
      if keep(peers[0]) then [peers[0]] + rest else rest
  }

  function Memory(peers: seq<Peer>): nat {
    if peers == [] then 0 else peers[0].fastMemory + Memory(peers[1..])
  }

  function ShortIds(peers: seq<Peer>): (ids: seq<string>)
    ensures |ids| == |peers|
  {
    seq(|peers|, i requires 0 <= i < |peers| => peers[i].shortId)
  }

  // The largest size of the model any peer reports, or 0.
  function ModelBytes(model: string, peers: seq<Peer>): nat {
    if peers == [] then 0
    else
      var rest := ModelBytes(model, peers[1..]);
      if model in peers[0].sizes && peers[0].sizes[model] > rest then peers[0].sizes[model] else rest
  }

  // With 1.1 times the size as headroom, rounded down; an unknown size fits nowhere.
  predicate CanSolo(fastMemory: nat, modelBytes: nat) {
    modelBytes > 0 && fastMemory >= modelBytes * 11 / 10
  }

  function Cohort(peer: Peer, model: string, all: seq<Peer>): seq<Peer> {
    Where(all, (p: Peer) => p.id != peer.id && p.IsAssigned(model))
  }

  function FirstRouting(model: string, all: seq<Peer>): Option<Peer> {
    if all == [] then None else if all[0].Routes(model) then Some(all[0]) else FirstRouting(model, all[1..])
  }

  function HostFor(peer: Peer, model: string, all: seq<Peer>): Option<Peer> {
    var first := FirstRouting(model, all);
    if first.Some? then first else if peer.Routes(model) then Some(peer) else None
  }

  function Candidates(peer: Peer): seq<string> {
    peer.serving + peer.hosted
  }

  // The model a peer is classified by: of its candidates the last with co-serving peers, or
  // the last of all when none has any.
  function Chosen(peer: Peer, all: seq<Peer>, models: seq<string>): Option<string> {
    if models == [] then None
    else
      var last := models[|models| - 1];
      var before := Chosen(peer, all, models[..|models| - 1]);
      if Cohort(peer, last, all) != [] || before.None? || Cohort(peer, before.value, all) == [] then Some(last)
      else before
  }

  function Routers(peer: Peer, model: string, all: seq<Peer>): nat {
    |Where(all, (p: Peer) => p.id != peer.id && p.Routes(model))| + if peer.Routes(model) then 1 else 0
  }

  // The gates after a model has been chosen.
  function ClassifyAs(peer: Peer, all: seq<Peer>, model: string): Classification {
    var cohort := Cohort(peer, model, all);
    var host := HostFor(peer, model, all);
    if cohort == [] || host.None? || CanSolo(host.value.fastMemory, ModelBytes(model, all))
       || Routers(peer, model, all) >= 2
    then NOTHING
    else
      Classification(
        if peer.Routes(model) then Some(PipelineHost) else if peer.role.Worker? then Some(PipelineWorker) else None,
        Some(Group(model, host.value.shortId, Sort(ShortIds([peer] + cohort)), peer.fastMemory + Memory(cohort))))
  }

  function Classify(peer: Peer, all: seq<Peer>): Classification {
    if peer.role.Client? then NOTHING
    else
      match Chosen(peer, all, Candidates(peer))
      case None => NOTHING
      case Some(model) => ClassifyAs(peer, all, model)
  }

  datatype Best = Best(model: string, cohort: seq<Peer>, host: Option<Peer>)

  method ClassifyPeerSplitRole(peer: Peer, all: seq<Peer>) returns (r: Classification)
    ensures r == Classify(peer, all)
  {
    if peer.role.Client? {
      return NOTHING;
    }
    var models := Candidates(peer);
    var best: Option<Best> := None;
    for i := 0 to |models|
      invariant Chosen(peer, all, models[..i]) == match best case None => None case Some(b) => Some(b.model)
      invariant best.Some? ==>
                  var m := best.value.model;
                  best.value == Best(m, Cohort(peer, m, all), HostFor(peer, m, all))
    {
      var cohort := Cohort(peer, models[i], all);
      var host := HostFor(peer, models[i], all);
      assert models[..i + 1][..i] == models[..i];
      if cohort != [] || (best.Some? && best.value.cohort == []) || best.None? {
        best := Some(Best(models[i], cohort, host));
      }
    }
    assert models[..|models|] == models;
    if best.None? {
      return NOTHING;
    }
    var model, cohort, host := best.value.model, best.value.cohort, best.value.host;
    if cohort == [] {
      return NOTHING;
    }
    if host.None? && !peer.Routes(model) {
      return NOTHING;
    }
    var elected := host.GetOr(peer);
    if CanSolo(elected.fastMemory, ModelBytes(model, all)) {
      return NOTHING;
    }
    if Routers(peer, model, all) >= 2 {
      return NOTHING;
    }
    var ids := Sort(ShortIds([peer] + cohort));
    var total := peer.fastMemory + Memory(cohort);
    var role :=
      if peer.Routes(model) then Some(PipelineHost)
      else if peer.role.Worker? then Some(PipelineWorker)
      else None;
    r := Classification(role, Some(Group(model, elected.shortId, ids, total)));
  }

  /* ----- one list, seen from any of its peers ----- */

  predicate DistinctIds(all: seq<Peer>) {
    forall i, j :: 0 <= i < j < |all| ==> all[i].id != all[j].id
  }

  // Leaving one peer of the list out takes away its own share, once.
  lemma {:induction false} WithoutOne(all: seq<Peer>, peer: Peer, keep: Peer -> bool)
    requires DistinctIds(all) && peer in all
    ensures var most, rest := Where(all, keep), Where(all, (p: Peer) => p.id != peer.id && keep(p));
            if keep(peer) then |most| == |rest| + 1 && Memory(most) == Memory(rest) + peer.fastMemory
            else |most| == |rest| && Memory(most) == Memory(rest)
    decreases |all|
  {
    assert all == [all[0]] + all[1..];
    if all[0] == peer {
      assert forall p :: p in all[1..] ==> p.id != peer.id;
      WithoutNone(all[1..], peer, keep);
    } else {
      SameId(all, all[0], peer);
      WithoutOne(all[1..], peer, keep);
    }
  }

  lemma {:induction false} WithoutNone(all: seq<Peer>, peer: Peer, keep: Peer -> bool)
    requires forall p :: p in all ==> p.id != peer.id
    ensures Where(all, (p: Peer) => p.id != peer.id && keep(p)) == Where(all, keep)
    decreases |all|
  {
    if all != [] {
      assert all == [all[0]] + all[1..];
      WithoutNone(all[1..], peer, keep);
    }
  }

  function Assigned(model: string, all: seq<Peer>): seq<Peer> {
    Where(all, (p: Peer) => p.IsAssigned(model))
  }

  function Routing(model: string, all: seq<Peer>): seq<Peer> {
    Where(all, (p: Peer) => p.Routes(model))
  }

  // What every assigned peer of the list sees, whichever it is.
  function View(model: string, all: seq<Peer>): Option<Group> {
    var host := FirstRouting(model, all);
    if |Assigned(model, all)| <= 1 || host.None? || CanSolo(host.value.fastMemory, ModelBytes(model, all))
       || |Routing(model, all)| >= 2
    then None
    else Some(Group(model, host.value.shortId, Sort(ShortIds(Assigned(model, all))), Memory(Assigned(model, all))))
  }

  lemma CohortOf(peer: Peer, model: string, all: seq<Peer>)
    requires DistinctIds(all) && peer in all && peer.IsAssigned(model)
    ensures |Assigned(model, all)| == |Cohort(peer, model, all)| + 1
    ensures Memory(Assigned(model, all)) == peer.fastMemory + Memory(Cohort(peer, model, all))
    ensures Sort(ShortIds([peer] + Cohort(peer, model, all))) == Sort(ShortIds(Assigned(model, all)))
  {
    hide Sort;
    hide Memory;
    var keep := (p: Peer) => p.IsAssigned(model);
    WithoutOne(all, peer, keep);
    SameWhere(all, (p: Peer) => p.id != peer.id && keep(p), (p: Peer) => p.id != peer.id && p.IsAssigned(model));
    var cohort := Cohort(peer, model, all);
    var members := Assigned(model, all);
    forall p ensures p in members <==> p in [peer] + cohort {
      SameId(all, p, peer);
    }
    SameIds([peer] + cohort, members);
    SortSorts(ShortIds([peer] + cohort));
    SortSorts(ShortIds(members));
    AscendingIsUnique(Sort(ShortIds([peer] + cohort)), Sort(ShortIds(members)));
  }

  lemma SameId(all: seq<Peer>, p: Peer, q: Peer)
    requires DistinctIds(all)
    ensures p in all && q in all && p.id == q.id ==> p == q
  {}

  lemma {:induction false} SameWhere(all: seq<Peer>, f: Peer -> bool, g: Peer -> bool)
    requires forall p :: p in all ==> f(p) == g(p)
    ensures Where(all, f) == Where(all, g)
    decreases |all|
  {
    if all != [] {
      assert all == [all[0]] + all[1..];
      SameWhere(all[1..], f, g);
    }
  }

  lemma SameIds(a: seq<Peer>, b: seq<Peer>)
    requires forall p :: p in a <==> p in b
    ensures Elements(ShortIds(a)) == Elements(ShortIds(b))
  {
    forall k ensures k in ShortIds(a) <==> k in ShortIds(b) {
      if k in ShortIds(a) {
        var i :| 0 <= i < |a| && ShortIds(a)[i] == k;
        assert a[i] in b;
        var j :| 0 <= j < |b| && b[j] == a[i];
        assert ShortIds(b)[j] == k;
      }
      if k in ShortIds(b) {
        var i :| 0 <= i < |b| && ShortIds(b)[i] == k;
        assert b[i] in a;
        var j :| 0 <= j < |a| && a[j] == b[i];
        assert ShortIds(a)[j] == k;
      }
    }
  }

  lemma RoutersOf(peer: Peer, model: string, all: seq<Peer>)
    requires DistinctIds(all) && peer in all
    ensures Routers(peer, model, all) == |Routing(model, all)|
    ensures HostFor(peer, model, all) == FirstRouting(model, all)
  {
    hide Memory;
    var keep := (p: Peer) => p.Routes(model);
    WithoutOne(all, peer, keep);
    SameWhere(all, (p: Peer) => p.id != peer.id && keep(p), (p: Peer) => p.id != peer.id && p.Routes(model));
    FirstIsFirst(model, all);
  }

  lemma {:induction false} FirstIsFirst(model: string, all: seq<Peer>)
    ensures FirstRouting(model, all).None? <==> Routing(model, all) == []
    ensures FirstRouting(model, all).Some? ==> Routing(model, all)[0] == FirstRouting(model, all).value
    decreases |all|
  {
    if all != [] {
      FirstIsFirst(model, all[1..]);
      assert all == [all[0]] + all[1..];
    }
  }

  // A peer classified by a model it is assigned sees the common view.
  lemma SeesTheView(peer: Peer, model: string, all: seq<Peer>)
    requires DistinctIds(all) && peer in all && peer.IsAssigned(model)
    ensures ClassifyAs(peer, all, model).group == View(model, all)
  {
    hide Sort;
    hide Memory;
    hide ModelBytes;
    hide FirstRouting;
    CohortOf(peer, model, all);
    RoutersOf(peer, model, all);
  }

  // Two peers that serve or request a model: when one is in a group for it, the other is in the
  // same group exactly when it is classified by that model too.
  lemma SplitViewsAgree(p: Peer, q: Peer, model: string, all: seq<Peer>)
    requires DistinctIds(all) && p in all && q in all && !p.role.Client? && !q.role.Client?
    requires p.IsAssigned(model) && q.IsAssigned(model)
    requires Chosen(p, all, Candidates(p)) == Some(model)
    ensures Classify(p, all).group == View(model, all)
    ensures Chosen(q, all, Candidates(q)) == Some(model) ==> Classify(q, all).group == Classify(p, all).group
    ensures Classify(p, all).group.Some? ==>
              (Classify(q, all).group == Classify(p, all).group <==> Chosen(q, all, Candidates(q)) == Some(model))
  {
    hide View;
    hide Chosen;
    hide ClassifyAs;
    SeesTheView(p, model, all);
    SeesTheView(q, model, all);
    match Chosen(q, all, Candidates(q)) {
      case None =>
      case Some(other) => GroupNamesItsModel(q, all, other);
    }
    GroupNamesItsModel(p, all, model);
  }

  lemma GroupNamesItsModel(peer: Peer, all: seq<Peer>, model: string)
    ensures ClassifyAs(peer, all, model).group.Some? ==> ClassifyAs(peer, all, model).group.value.model == model
  {
    hide Sort;
    hide Memory;
  }

  /* ----- which model a peer is classified by ----- */

  // Some other peer is in the cohort of the model.
  predicate Shared(peer: Peer, model: string, all: seq<Peer>) {
    exists q :: q in all && q.id != peer.id && q.IsAssigned(model)
  }

  lemma SharedIsCohort(peer: Peer, model: string, all: seq<Peer>)
    ensures Shared(peer, model, all) <==> Cohort(peer, model, all) != []
  {
    var cohort := Cohort(peer, model, all);
    if cohort != [] {
      assert cohort[0] in cohort;
    }
  }

  // Of the candidates the i-th is the first, the last shared one.
  predicate FirstShared(peer: Peer, all: seq<Peer>, models: seq<string>, i: nat) {
    i < |models| && Shared(peer, models[i], all) && forall j :: 0 <= j < i ==> !Shared(peer, models[j], all)
  }

  predicate LastShared(peer: Peer, all: seq<Peer>, models: seq<string>, i: nat) {
    i < |models| && Shared(peer, models[i], all) && forall j :: i < j < |models| ==> !Shared(peer, models[j], all)
  }

  // The last shared candidate wins; without any, the last candidate.
  lemma {:induction false} ChosenIsLastShared(peer: Peer, all: seq<Peer>, models: seq<string>)
    requires models != []
    ensures Chosen(peer, all, models).Some?
    ensures (exists i: nat :: LastShared(peer, all, models, i) && Chosen(peer, all, models) == Some(models[i]))
            || ((forall j :: 0 <= j < |models| ==> !Shared(peer, models[j], all))
                && Chosen(peer, all, models) == Some(models[|models| - 1]))
    decreases |models|
  {
    hide Cohort;
    hide Shared;
    var last := |models| - 1;
    var init := models[..last];
    SharedIsCohort(peer, models[last], all);
    if Shared(peer, models[last], all) {
      assert LastShared(peer, all, models, last);
    } else if init != [] {
      ChosenIsLastShared(peer, all, init);
      var before := Chosen(peer, all, init).value;
      SharedIsCohort(peer, before, all);
      assert forall j :: 0 <= j < last ==> models[j] == init[j];
      if i: nat :| LastShared(peer, all, init, i) && before == init[i] {
        assert LastShared(peer, all, models, i);
      }
    }
  }

  // There is only one last shared candidate.
  lemma ChosenAt(peer: Peer, all: seq<Peer>, models: seq<string>, l: nat)
    requires LastShared(peer, all, models, l)
    ensures Chosen(peer, all, models) == Some(models[l])
  {
    hide Shared;
    hide Chosen;
    ChosenIsLastShared(peer, all, models);
  }

  // It is the first shared candidate, as the comment has it, exactly when both name one model.
  lemma FirstSharedIsChosen(peer: Peer, all: seq<Peer>, models: seq<string>, f: nat, l: nat)
    requires FirstShared(peer, all, models, f) && LastShared(peer, all, models, l)
    ensures Chosen(peer, all, models) == Some(models[f]) <==> models[f] == models[l]
  {
    hide Shared;
    hide Chosen;
    ChosenAt(peer, all, models, l);
  }

  // It has the largest cohort, as the comment has it, exactly when no earlier candidate has a
  // larger one than the last shared candidate.
  lemma LargestIsChosen(peer: Peer, all: seq<Peer>, models: seq<string>, l: nat)
    requires LastShared(peer, all, models, l)
    ensures Chosen(peer, all, models).Some?
    ensures (forall j :: 0 <= j < |models| ==>
               |Cohort(peer, models[j], all)| <= |Cohort(peer, Chosen(peer, all, models).value, all)|)
            <==> forall j :: 0 <= j < l ==> |Cohort(peer, models[j], all)| <= |Cohort(peer, models[l], all)|
  {
    hide Shared;
    hide Chosen;
    hide Cohort;
    ChosenAt(peer, all, models, l);
    forall j | l < j < |models|
      ensures Cohort(peer, models[j], all) == []
    {
      SharedIsCohort(peer, models[j], all);
    }
  }

  function SamplePeer(id: nat, role: NodeRole, serving: seq<string>, requested: seq<string>,
                      hosted: seq<string>): Peer {
    Peer(id, Decimal(id), role, serving, requested, hosted, true, 8, map[])
  }

  // Two peers share the first model with it and one the second: it is classified by the second.
  lemma NeitherFirstNorLargest()
    ensures var p, q, r := SamplePeer(1, Worker, ["a", "b"], [], []), SamplePeer(2, Worker, ["a", "b"], [], []),
                           SamplePeer(3, Worker, ["a"], [], []);
            var all := [p, q, r];
            && FirstShared(p, all, Candidates(p), 0) && Cohort(p, "a", all) == [q, r] && Cohort(p, "b", all) == [q]
            && Chosen(p, all, Candidates(p)) == Some("b")
  {
    hide Decimal;
    hide FirstShared;
    hide Cohort;
    hide Chosen;
    TwoThenOne(SamplePeer(1, Worker, ["a", "b"], [], []), SamplePeer(2, Worker, ["a", "b"], [], []),
               SamplePeer(3, Worker, ["a"], [], []), "a", "b");
  }

  lemma TwoThenOne(p: Peer, q: Peer, r: Peer, a: string, b: string)
    requires p.serving == [a, b] && p.hosted == [] && p.id != q.id && p.id != r.id
    requires q.IsAssigned(a) && q.IsAssigned(b) && r.IsAssigned(a) && !r.IsAssigned(b)
    ensures var all := [p, q, r];
            && FirstShared(p, all, Candidates(p), 0) && Cohort(p, a, all) == [q, r] && Cohort(p, b, all) == [q]
            && Chosen(p, all, Candidates(p)) == Some(b)
  {
    var all := [p, q, r];
    assert q in all;
    assert Shared(p, a, all) && Shared(p, b, all);
    assert Candidates(p) == [a, b];
    hide Candidates;
    assert LastShared(p, all, [a, b], 1);
    ChosenAt(p, all, [a, b], 1);
    hide Chosen;
    hide Where;
    WhereOfThree(p, q, r, (x: Peer) => x.id != p.id && x.IsAssigned(a));
    WhereOfThree(p, q, r, (x: Peer) => x.id != p.id && x.IsAssigned(b));
  }

  lemma WhereOfThree(p: Peer, q: Peer, r: Peer, keep: Peer -> bool)
    ensures Where([p, q, r], keep)
         == (if keep(p) then [p] else []) + (if keep(q) then [q] else []) + (if keep(r) then [r] else [])
  {
    assert [p, q, r][1..] == [q, r] && [q, r][1..] == [r] && [r][1..] == [];
    assert Where([r], keep) == if keep(r) then [r] else [];
    assert Where([q, r], keep) == (if keep(q) then [q] else []) + (if keep(r) then [r] else []);
  }

  /* ----- who sees which group ----- */

  // When every non-client server of a model lists only that model, all of them get one and the
  // same group, or none gets any.
  lemma SingleModelServersAgree(model: string, all: seq<Peer>)
    requires DistinctIds(all)
    requires forall p :: p in all && !p.role.Client? && model in p.serving ==>
               forall m :: m in Candidates(p) ==> m == model
    ensures forall p :: p in all && !p.role.Client? && model in p.serving ==> Classify(p, all).group == View(model, all)
  {
    hide View;
    hide Classify;
    hide Chosen;
    forall p | p in all && !p.role.Client? && model in p.serving
      ensures Classify(p, all).group == View(model, all)
    {
      assert model in Candidates(p);
      ChosenIsLastShared(p, all, Candidates(p));
      var i :| 0 <= i < |Candidates(p)| && Candidates(p)[i] == Chosen(p, all, Candidates(p)).value;
      assert Candidates(p)[i] in Candidates(p);
      SplitViewsAgree(p, p, model, all);
    }
  }

  // The peer's last shared candidate is the model.
  predicate ClassifiedBy(peer: Peer, model: string, all: seq<Peer>) {
    exists i :: 0 <= i < |Candidates(peer)| && LastShared(peer, all, Candidates(peer), i)
                && Candidates(peer)[i] == model
  }

  // An assigned peer sees the common view of a model that is some group exactly when it is no
  // client and the model is its last shared candidate.
  lemma SeesTheGroup(q: Peer, model: string, all: seq<Peer>)
    requires DistinctIds(all) && q in all && q.IsAssigned(model) && View(model, all).Some?
    ensures Classify(q, all).group == View(model, all) <==> !q.role.Client? && ClassifiedBy(q, model, all)
  {
    SeesTheView(q, model, all);
    CohortOf(q, model, all);
    SharedIsCohort(q, model, all);
    assert Chosen(q, all, []) == None;
    hide Shared;
    hide Chosen;
    hide ClassifyAs;
    hide Cohort;
    if ClassifiedBy(q, model, all) {
      var i: nat :| LastShared(q, all, Candidates(q), i) && Candidates(q)[i] == model;
      ChosenAt(q, all, Candidates(q), i);
    }
    if Candidates(q) != [] {
      ChosenIsLastShared(q, all, Candidates(q));
      GroupNamesItsModel(q, all, Chosen(q, all, Candidates(q)).value);
    }
  }

  // A peer that only hosts the model, adding neither memory nor a printed id of its own.
  predicate AddsNothing(p: Peer, model: string, all: seq<Peer>) {
    p.fastMemory == 0 && |Assigned(model, all)| >= 2 && p.shortId in ShortIds(Assigned(model, all))
  }

  // All members of a group see that very group exactly when the peer it was found for serves or
  // requests the model, or adds nothing to it, and every peer that serves or requests it is no
  // client and has it as its last shared candidate among the models it serves and hosts.
  lemma MembersAgreeExactly(p: Peer, all: seq<Peer>)
    requires DistinctIds(all) && p in all && Classify(p, all).group.Some?
    ensures var g := Classify(p, all).group;
            var m := g.value.model;
            (forall q :: q in all && (q == p || q.IsAssigned(m)) ==> Classify(q, all).group == g)
            <==> (p.IsAssigned(m) || AddsNothing(p, m, all))
                 && forall q :: q in all && q.IsAssigned(m) ==> !q.role.Client? && ClassifiedBy(q, m, all)
  {
    var g := Classify(p, all).group;
    var m := g.value.model;
    var chosen := Chosen(p, all, Candidates(p)).value;
    GroupNamesItsModel(p, all, chosen);
    assert g == ClassifyAs(p, all, m).group;
    hide Classify;
    hide ClassifiedBy;
    if p.IsAssigned(m) {
      SeesTheView(p, m, all);
    } else {
      OutsiderSeesMore(p, m, all);
      var first := Cohort(p, m, all)[0];
      assert first in Cohort(p, m, all);
    }
    hide ClassifyAs;
    hide View;
    hide AddsNothing;
    if View(m, all).Some? {
      forall q | q in all && q.IsAssigned(m)
        ensures Classify(q, all).group == View(m, all) <==> !q.role.Client? && ClassifiedBy(q, m, all)
      {
        SeesTheGroup(q, m, all);
      }
    }
    if View(m, all) != g {
      var q :| q in all && q.IsAssigned(m);
      AssignedSeesView(q, m, all);
      assert Classify(q, all).group != g;
    }
  }

  // Whatever group of the model an assigned peer gets is the common view.
  lemma AssignedSeesView(q: Peer, model: string, all: seq<Peer>)
    requires DistinctIds(all) && q in all && q.IsAssigned(model)
    ensures Classify(q, all).group.Some? && Classify(q, all).group.value.model == model ==>
              Classify(q, all).group == View(model, all)
  {
    SeesTheView(q, model, all);
    hide View;
    hide ClassifyAs;
    hide Chosen;
    match Chosen(q, all, Candidates(q)) {
      case None =>
      case Some(other) => GroupNamesItsModel(q, all, other);
    }
  }

  // A peer that is not assigned the model adds itself to what the assigned peers see.
  lemma OutsiderSeesMore(p: Peer, model: string, all: seq<Peer>)
    requires DistinctIds(all) && p in all && !p.IsAssigned(model)
    requires ClassifyAs(p, all, model).group.Some?
    ensures Cohort(p, model, all) == Assigned(model, all)
    ensures ClassifyAs(p, all, model).group == View(model, all) <==> AddsNothing(p, model, all)
  {
    hide Sort;
    hide Memory;
    hide ModelBytes;
    hide FirstRouting;
    forall q | q in all
      ensures (q.id != p.id && q.IsAssigned(model)) == q.IsAssigned(model)
    {
      SameId(all, p, q);
    }
    SameWhere(all, (q: Peer) => q.id != p.id && q.IsAssigned(model), (q: Peer) => q.IsAssigned(model));
    RoutersOf(p, model, all);
    var members := Assigned(model, all);
    OneIdMore(p, members);
  }

  lemma OneIdMore(p: Peer, members: seq<Peer>)
    ensures Sort(ShortIds([p] + members)) == Sort(ShortIds(members)) <==> p.shortId in ShortIds(members)
  {
    hide Sort;
    var more, ids := ShortIds([p] + members), ShortIds(members);
    assert more == [p.shortId] + ids;
    SortSorts(more);
    SortSorts(ids);
    if p.shortId in ids {
      assert Elements(more) == Elements(ids);
      AscendingIsUnique(Sort(more), Sort(ids));
    } else {
      assert p.shortId in Elements(more) && p.shortId !in Elements(ids);
    }
  }

  // A parked peer is a member of the host's group and sees none itself.
  lemma ParkedMemberSeesNoGroup()
    ensures var h, w := SamplePeer(1, Host, ["m"], [], ["m"]), SamplePeer(2, Worker, [], ["m"], []);
            var all := [h, w];
            && DistinctIds(all) && h.IsAssigned("m") && w.IsAssigned("m")
            && Classify(h, all).group.Some? && w in Cohort(h, "m", all) && Classify(w, all).group == None
  {
    hide Sort;
    var h, w := SamplePeer(1, Host, ["m"], [], ["m"]), SamplePeer(2, Worker, [], ["m"], []);
    var all := [h, w];
    assert w in all && w.id != h.id && w.IsAssigned("m");
    PairGroup(h, w);
    assert Candidates(w) == [];
  }

  // A host that only hosts the model is in a group the one peer serving it does not see.
  lemma HostedOnlyPeerIsAlone()
    ensures var h, w := SamplePeer(1, Host, [], [], ["m"]), SamplePeer(2, Worker, ["m"], [], []);
            var all := [h, w];
            && DistinctIds(all) && !h.IsAssigned("m") && h.Routes("m")
            && Classify(h, all).group.Some? && Classify(w, all).group == None
  {
    hide Sort;
    var h, w := SamplePeer(1, Host, [], [], ["m"]), SamplePeer(2, Worker, ["m"], [], []);
    var all := [h, w];
    PairGroup(h, w);
    WhereOfTwo(h, w, (x: Peer) => x.id != w.id && x.IsAssigned("m"));
    assert Cohort(w, "m", all) == [];
    assert Candidates(w) == ["m"] && ["m"][..0] == [];
    assert Chosen(w, all, []) == None;
    assert Chosen(w, all, ["m"]) == Some("m");
  }

  lemma WhereOfTwo(p: Peer, q: Peer, keep: Peer -> bool)
    ensures Where([p, q], keep) == (if keep(p) then [p] else []) + (if keep(q) then [q] else [])
  {
    assert [p, q][1..] == [q] && [q][1..] == [];
    assert Where([q], keep) == if keep(q) then [q] else [];
  }

  // A host of one model and another peer assigned it are a group in the host's eyes.
  lemma PairGroup(h: Peer, w: Peer)
    requires h.id != w.id && h.role.Host? && h.hostedKnown && h.hosted == ["m"] && h.serving in {[], ["m"]}
    requires w.IsAssigned("m") && !w.Routes("m") && h.sizes == map[] && w.sizes == map[]
    ensures Classify(h, [h, w]).group.Some? && w in Cohort(h, "m", [h, w])
  {
    hide Sort;
    hide Memory;
    var all := [h, w];
    assert w in all;
    WhereOfTwo(h, w, (x: Peer) => x.id != h.id && x.IsAssigned("m"));
    WhereOfTwo(h, w, (x: Peer) => x.id != h.id && x.Routes("m"));
    assert all[1..] == [w] && [w][1..] == [];
    assert ModelBytes("m", []) == 0;
    assert ModelBytes("m", [w]) == 0;
    assert ModelBytes("m", all) == 0;
    var models := Candidates(h);
    assert forall j :: 0 <= j < |models| ==> models[j] == "m";
    assert Shared(h, "m", all);
    assert LastShared(h, all, models, |models| - 1);
    ChosenAt(h, all, models, |models| - 1);
  }

  /* ----- what a group means ----- */

  // Ids identify peers.
  predicate Known(p: Peer, all: seq<Peer>) {
    forall q :: q in all && q.id == p.id ==> q == p
  }

  // A group a peer gets names the one routing peer of the model, which cannot hold the model
  // alone; it has that peer, its cohort of at least one other, and nobody else; and the peer is
  // badged a pipeline host exactly when it is that routing peer.
  lemma GroupMeansOneHost(p: Peer, all: seq<Peer>)
    requires Known(p, all) && Classify(p, all).group.Some?
    ensures var g := Classify(p, all).group.value;
            && (exists h :: (h in all || h == p) && IsOnlyHost(h, p, all, g.model) && g.hostId == h.shortId
                            && (Classify(p, all).role == Some(PipelineHost) <==> p == h))
            && Shared(p, g.model, all)
            && (forall id :: id in g.peerIds <==>
                  id == p.shortId || exists q :: q in all && q.id != p.id && q.IsAssigned(g.model) && q.shortId == id)
  {
    hide Sort;
    hide Memory;
    hide ModelBytes;
    var m := Chosen(p, all, Candidates(p)).value;
    hide Chosen;
    var h := HostFor(p, m, all).value;
    assert Classify(p, all) == ClassifyAs(p, all, m);
    OnlyRouter(p, all, m);
    SharedIsCohort(p, m, all);
    var cohort := Cohort(p, m, all);
    SortSorts(ShortIds([p] + cohort));
    IdsOf(p, cohort);
    var g := Classify(p, all).group.value;
    forall id
      ensures id in g.peerIds <==>
                id == p.shortId || exists q :: q in all && q.id != p.id && q.IsAssigned(m) && q.shortId == id
    {
      assert id in g.peerIds <==> id in Elements(g.peerIds);
      assert id in ShortIds([p] + cohort) <==> id in Elements(ShortIds([p] + cohort));
    }
  }

  lemma IdsOf(p: Peer, cohort: seq<Peer>)
    ensures forall id :: id in ShortIds([p] + cohort) <==> id == p.shortId || exists q :: q in cohort && q.shortId == id
  {
    var ids := ShortIds([p] + cohort);
    assert ids == [p.shortId] + ShortIds(cohort);
    forall q | q in cohort
      ensures q.shortId in ShortIds(cohort)
    {
      var i :| 0 <= i < |cohort| && cohort[i] == q;
      assert ShortIds(cohort)[i] == q.shortId;
    }
    forall id | id in ShortIds(cohort)
      ensures exists q :: q in cohort && q.shortId == id
    {
      var i :| 0 <= i < |cohort| && ShortIds(cohort)[i] == id;
      assert cohort[i] in cohort;
    }
  }

  // Nobody reports how large the model is, or somebody reports a size that the memory does not
  // hold with a tenth to spare.
  predicate TooBig(fastMemory: nat, model: string, all: seq<Peer>) {
    || (forall q :: q in all && model in q.sizes ==> q.sizes[model] == 0)
    || exists q :: q in all && model in q.sizes && fastMemory < 11 * q.sizes[model] / 10
  }

  lemma {:induction false} ModelBytesIs(model: string, all: seq<Peer>)
    ensures forall q :: q in all && model in q.sizes ==> q.sizes[model] <= ModelBytes(model, all)
    ensures ModelBytes(model, all) > 0 ==>
              exists q :: q in all && model in q.sizes && q.sizes[model] == ModelBytes(model, all)
    decreases |all|
  {
    if all != [] {
      assert all == [all[0]] + all[1..];
      ModelBytesIs(model, all[1..]);
    }
  }

  // The gate in terms of the list alone.
  lemma TooBigIs(fastMemory: nat, model: string, all: seq<Peer>)
    ensures TooBig(fastMemory, model, all) <==> !CanSolo(fastMemory, ModelBytes(model, all))
  {
    hide ModelBytes;
    ModelBytesIs(model, all);
    var most := ModelBytes(model, all);
    if q :| q in all && model in q.sizes && fastMemory < 11 * q.sizes[model] / 10 {
      assert 11 * q.sizes[model] / 10 <= 11 * most / 10;
    }
  }

  // The only peer, of the list and the classified one, that routes the model.
  predicate IsOnlyHost(h: Peer, p: Peer, all: seq<Peer>, model: string) {
    && h.Routes(model) && TooBig(h.fastMemory, model, all)
    && (p.Routes(model) ==> p == h)
    && forall q :: q in all && q.Routes(model) ==> q == h
  }

  lemma OnlyRouter(p: Peer, all: seq<Peer>, model: string)
    requires Known(p, all) && ClassifyAs(p, all, model).group.Some?
    ensures HostFor(p, model, all).Some?
    ensures var h := HostFor(p, model, all).value; (h in all || h == p) && IsOnlyHost(h, p, all, model)
  {
    hide Sort;
    hide Memory;
    hide ModelBytes;
    hide Cohort;
    var others := Where(all, (q: Peer) => q.id != p.id && q.Routes(model));
    var h := HostFor(p, model, all).value;
    TooBigIs(h.fastMemory, model, all);
    hide TooBig;
    hide CanSolo;
    FirstRoutes(model, all);
    forall q | q in all && q.Routes(model)
      ensures q == h
    {
      if q.id != p.id {
        assert q in others;
        if h != p {
          assert h in others;
        }
      }
    }
  }

  lemma {:induction false} FirstRoutes(model: string, all: seq<Peer>)
    ensures match FirstRouting(model, all)
            case None => forall q :: q in all ==> !q.Routes(model)
            case Some(h) => h in all && h.Routes(model)
    decreases |all|
  {
    if all != [] {
      FirstRoutes(model, all[1..]);
      assert all == [all[0]] + all[1..];
    }
  }

  // No two peers are badged pipeline hosts of one model.
  lemma OnePipelineHost(p: Peer, q: Peer, all: seq<Peer>)
    requires DistinctIds(all) && p in all && q in all
    requires Classify(p, all).role == Some(PipelineHost) && Classify(q, all).role == Some(PipelineHost)
    requires Classify(p, all).group.value.model == Classify(q, all).group.value.model
    ensures p == q
  {
    forall r | r in all
      ensures (r.id == p.id ==> r == p) && (r.id == q.id ==> r == q)
    {
      SameId(all, r, p);
      SameId(all, r, q);
    }
    GroupMeansOneHost(p, all);
    GroupMeansOneHost(q, all);
  }

  // Two of the list that pass make a list of at least two.
  lemma {:induction false} AtMostOne(all: seq<Peer>, keep: Peer -> bool)
    requires DistinctIds(all) && forall a, b :: a in all && b in all && keep(a) && keep(b) ==> a == b
    ensures |Where(all, keep)| <= 1
    decreases |all|
  {
    if all != [] {
      assert all == [all[0]] + all[1..];
      if keep(all[0]) {
        forall q | q in all[1..]
          ensures !keep(q)
        {
          assert q != all[0];
        }
        if Where(all[1..], keep) != [] {
          assert Where(all[1..], keep)[0] in Where(all[1..], keep);
        }
      } else {
        AtMostOne(all[1..], keep);
      }
    }
  }

  lemma OnlyHostIsCounted(p: Peer, h: Peer, all: seq<Peer>, model: string)
    requires DistinctIds(all) && Known(p, all) && (h in all || h == p) && IsOnlyHost(h, p, all, model)
    ensures HostFor(p, model, all) == Some(h) && Routers(p, model, all) == 1
  {
    hide ModelBytes;
    hide TooBig;
    FirstRoutes(model, all);
    var keep := (q: Peer) => q.id != p.id && q.Routes(model);
    AtMostOne(all, keep);
    var others := Where(all, keep);
    var first := if others == [] then p else others[0];
    assert others != [] ==> first in others;
    if !p.Routes(model) {
      assert h in others;
    }
  }

  // Nothing but the list decides: there is a group exactly when the peer is no client, its last
  // shared candidate has exactly one routing peer, and that one cannot hold the model alone.
  lemma GroupExactly(p: Peer, all: seq<Peer>)
    requires DistinctIds(all) && Known(p, all)
    ensures Classify(p, all).group.Some? <==>
            !p.role.Client?
            && exists model, h :: ClassifiedBy(p, model, all) && (h in all || h == p) && IsOnlyHost(h, p, all, model)
    ensures var r := Classify(p, all);
            r.role == if r.group.None? then None
                      else if p.Routes(r.group.value.model) then Some(PipelineHost)
                      else if p.role.Worker? then Some(PipelineWorker) else None
    ensures Classify(p, all).group.Some? ==> ClassifiedBy(p, Classify(p, all).group.value.model, all)
  {
    hide Sort;
    hide Memory;
    hide IsOnlyHost;
    hide Chosen;
    hide HostFor;
    hide Routers;
    hide ModelBytes;
    assert Candidates(p) == [] ==> Chosen(p, all, Candidates(p)) == None by { ChosenOfNone(p, all); }
    if Candidates(p) != [] {
      ChosenIsLastShared(p, all, Candidates(p));
    }
    hide LastShared;
    if Classify(p, all).group.Some? {
      var m := Chosen(p, all, Candidates(p)).value;
      GroupNamesItsModel(p, all, m);
      OnlyRouter(p, all, m);
      SharedIsCohort(p, m, all);
      ChosenIsClassified(p, all, m);
    }
    if !p.role.Client? {
      if model, h :| ClassifiedBy(p, model, all) && (h in all || h == p) && IsOnlyHost(h, p, all, model) {
        ClassifiedIsChosen(p, all, model);
        SharedIsCohort(p, model, all);
        OnlyHostIsCounted(p, h, all, model);
        OnlyHostIsTooBig(p, h, all, model);
      }
    }
  }

  lemma ChosenOfNone(p: Peer, all: seq<Peer>)
    ensures Chosen(p, all, []) == None
  {}

  lemma ChosenIsClassified(p: Peer, all: seq<Peer>, model: string)
    requires Chosen(p, all, Candidates(p)) == Some(model) && Shared(p, model, all)
    ensures ClassifiedBy(p, model, all)
  {
    hide Shared;
    ChosenOfNone(p, all);
    ChosenIsLastShared(p, all, Candidates(p));
  }

  lemma ClassifiedIsChosen(p: Peer, all: seq<Peer>, model: string)
    requires ClassifiedBy(p, model, all)
    ensures Chosen(p, all, Candidates(p)) == Some(model) && Shared(p, model, all)
  {
    hide Shared;
    hide Chosen;
    var i: nat :| LastShared(p, all, Candidates(p), i) && Candidates(p)[i] == model;
    ChosenAt(p, all, Candidates(p), i);
  }

  lemma OnlyHostIsTooBig(p: Peer, h: Peer, all: seq<Peer>, model: string)
    requires IsOnlyHost(h, p, all, model)
    ensures !CanSolo(h.fastMemory, ModelBytes(model, all))
  {
    TooBigIs(h.fastMemory, model, all);
  }

  // A host and a worker that reports the model's size: they are a group exactly when the host does
  // not hold the model with a tenth to spare.
  lemma SizeDecides(fastMemory: nat, size: nat)
    requires size > 0
    ensures var h := SamplePeer(1, Host, ["m"], [], ["m"]).(fastMemory := fastMemory);
            var w := SamplePeer(2, Worker, ["m"], [], []).(sizes := map["m" := size]);
            && (Classify(h, [h, w]).group.Some? <==> fastMemory < 11 * size / 10)
            && (Classify(h, [h, w]).role == Some(PipelineHost) <==> fastMemory < 11 * size / 10)
  {
    hide Decimal;
    hide Classify;
    hide ClassifiedBy;
    hide TooBig;
    var h := SamplePeer(1, Host, ["m"], [], ["m"]).(fastMemory := fastMemory);
    var w := SamplePeer(2, Worker, ["m"], [], []).(sizes := map["m" := size]);
    var all := [h, w];
    GroupExactly(h, all);
    assert w in all && h in all;
    assert TooBig(fastMemory, "m", all) <==> fastMemory < 11 * size / 10 by { PairIsTooBig(h, w, size); }
    MIsClassified(h, w);
    if TooBig(fastMemory, "m", all) {
      assert IsOnlyHost(h, h, all, "m");
    }
    forall model, g | ClassifiedBy(h, model, all) && (g in all || g == h) && IsOnlyHost(g, h, all, model)
      ensures TooBig(fastMemory, "m", all)
    {
      assert model == "m" && g == h;
    }
  }

  lemma PairIsTooBig(h: Peer, w: Peer, size: nat)
    requires size > 0 && h.sizes == map[] && w.sizes == map["m" := size]
    ensures TooBig(h.fastMemory, "m", [h, w]) <==> h.fastMemory < 11 * size / 10
  {
    assert w in [h, w] && "m" in w.sizes;
  }

  lemma MIsClassified(h: Peer, w: Peer)
    requires h.serving == ["m"] && h.hosted == ["m"] && h.id != w.id && w.IsAssigned("m")
    ensures ClassifiedBy(h, "m", [h, w])
    ensures forall model :: ClassifiedBy(h, model, [h, w]) ==> model == "m"
  {
    assert w in [h, w];
    assert Shared(h, "m", [h, w]);
    assert Candidates(h) == ["m", "m"];
    hide Candidates;
    assert LastShared(h, [h, w], ["m", "m"], 1);
  }

  // 24 GB hold a model of 8 GB; 4 GB do not.
  lemma HostsThatFitAndNot()
    ensures var h := SamplePeer(1, Host, ["m"], [], ["m"]);
            var w := SamplePeer(2, Worker, ["m"], [], []).(sizes := map["m" := 8_000_000_000]);
            var big, small := h.(fastMemory := 24_000_000_000), h.(fastMemory := 4_000_000_000);
            Classify(big, [big, w]) == NOTHING && Classify(small, [small, w]).group.Some?
  {
    hide Decimal;
    hide Classify;
    SizeDecides(24_000_000_000, 8_000_000_000);
    SizeDecides(4_000_000_000, 8_000_000_000);
    var big := SamplePeer(1, Host, ["m"], [], ["m"]).(fastMemory := 24_000_000_000);
    var w := SamplePeer(2, Worker, ["m"], [], []).(sizes := map["m" := 8_000_000_000]);
    GroupExactly(big, [big, w]);
  }

  // Who routes a model: a host that lists it as hosted or, if it does not say what it hosts, is
  // assigned it; never a worker or a client.
  lemma WhoRoutes(p: Peer, model: string)
    ensures !p.role.Host? ==> !p.Routes(model)
    ensures p.role.Host? && p.hostedKnown ==> (p.Routes(model) <==> model in p.hosted)
    ensures p.role.Host? && !p.hostedKnown ==> (p.Routes(model) <==> model in p.serving + p.requested)
  {}
}
