/**
 The two ways a request picks its target: one target from a candidate list, or the whole
 list of hosts reordered with the target in front.
 */
module Selectors {
  import opened Results
  import opened Election
  import opened Division
  import opened Affinity
  import opened AffinityRuns
  import opened PrefixHash
  import opened Json

  // The three switches read from the environment.
  datatype Config = Config(prefixEnabled: bool, stickyEnabled: bool, prefixOnly: bool)

  datatype Selection = Selection(target: Target, learn: Option<Hash>, cached: Option<Target>)
  datatype Prepared = Prepared(ordered: seq<Target>, learn: Option<Hash>, cached: Option<Target>)

  // The two clock reads of a lookup.
  datatype Clock = Clock(pruneAt: nat, stampAt: nat)

  /* ----- reordering ----- */

  function RotateLeft(s: seq<Target>, k: nat): seq<Target>
    requires k <= |s|
  {
    s[k..] + s[..k]
  }

  function Rotated(targets: seq<Target>, key: nat): seq<Target> {
    if targets == [] then [] else RotateLeft(targets, key % |targets|)
  }

  // The index of the first occurrence, or |s|.
  function Position(s: seq<Target>, t: Target): (p: nat)
    ensures p <= |s| && t !in s[..p] && (p < |s| ==> s[p] == t)
  {
    if s == [] || s[0] == t then 0
    else
      var p := 1 + Position(s[1..], t);
      assert s[..p] == [s[0]] + s[1..][..p - 1];
      p
  }

  function Front(targets: seq<Target>, t: Target): seq<Target> {
    var p := Position(targets, t);
    if p == |targets| then targets else [t] + targets[..p] + targets[p + 1..]
  }

  method RotateTargetsByHash(targets: array<Target>, key: Hash)
    modifies targets
    ensures targets[..] == Rotated(old(targets[..]), key)
  {
    if targets.Length > 0 {
      var n := targets.Length;
      var k := key % n;
      var before := targets[..];
      forall i | 0 <= i < n {
        targets[i] := before[if i + k < n then i + k else i + k - n];
      }
    }
  }

  method MoveTargetFirst(targets: array<Target>, target: Target) returns (found: bool)
    modifies targets
    ensures targets[..] == Front(old(targets[..]), target)
    ensures found == (target in old(targets[..]))
  {
    var pos := 0;
    while pos < targets.Length && targets[pos] != target
      invariant pos <= targets.Length && target !in targets[..pos]
    {
      pos := pos + 1;
    }
    PositionIs(targets[..], target, pos);
    if pos == targets.Length {
      assert targets[..pos] == targets[..];
      return false;
    }
    var before := targets[..];
    forall i | 0 <= i <= pos {
      targets[i] := before[if i == 0 then pos else i - 1];
    }
    found := true;
  }

  lemma PositionIs(s: seq<Target>, t: Target, p: nat)
    requires p <= |s| && t !in s[..p] && (p < |s| ==> s[p] == t)
    ensures Position(s, t) == p
  {
    assert forall j :: 0 <= j < p ==> s[j] in s[..p];
    assert forall j :: 0 <= j < Position(s, t) ==> s[j] in s[..Position(s, t)];
  }

  /* ----- the selectors as functions ----- */

  function CachedTarget(c: Cache, config: Config, key: Key, candidates: seq<Target>, clock: Clock)
    : (Cache, Option<Target>)
  {
    if config.prefixEnabled then Lookup(c, key, candidates, clock.pruneAt, clock.stampAt) else (c, None)
  }

  function StickyRouted(c: Cache): Cache {
    c.(stats := c.stats.(stickyRoutes := c.stats.stickyRoutes + 1))
  }

  function SessionRouted(c: Cache): Cache {
    c.(stats := c.stats.(sessionRoutes := c.stats.sessionRoutes + 1))
  }

  datatype Selected = Selected(selection: Selection, cache: Cache, counter: nat)

  function Select(c: Cache, config: Config, model: string, keys: RoutingKeys, candidates: seq<Target>, counter: nat,
                  clock: Clock): Selected
  {
    if keys.session.Some? && config.stickyEnabled then
      Selected(Selection(PickSticky(candidates, keys.session.value), None, None), SessionRouted(c), counter)
    else if keys.prefix.Some? then
      var hit := CachedTarget(c, config, Key(model, keys.prefix.value), candidates, clock);
      if hit.1.Some? then Selected(Selection(hit.1.value, keys.prefix, hit.1), hit.0, counter)
      else if config.prefixOnly then
        Selected(Selection(PickSticky(candidates, keys.prefix.value), keys.prefix, None), hit.0, counter)
      else if keys.sticky.Some? && config.stickyEnabled then
        Selected(Selection(PickSticky(candidates, keys.sticky.value), keys.prefix, None), StickyRouted(hit.0),
                 counter)
      else
        Selected(Selection(PickSticky(candidates, counter), keys.prefix, None), hit.0, NextCounter(candidates, counter))
    else if keys.sticky.Some? && config.stickyEnabled then
      Selected(Selection(PickSticky(candidates, keys.sticky.value), None, None), StickyRouted(c), counter)
    else
      Selected(Selection(PickSticky(candidates, counter), None, None), c, NextCounter(candidates, counter))
  }

  function Remotes(hosts: seq<nat>): (targets: seq<Target>)
    ensures |targets| == |hosts|
  {
    seq(|hosts|, i requires 0 <= i < |hosts| => Remote(hosts[i]))
  }

  function Prepare(c: Cache, config: Config, model: string, keys: RoutingKeys, hosts: seq<nat>,
                   clock: Clock): (Prepared, Cache) {
    var all := Remotes(hosts);
    if keys.session.Some? && config.stickyEnabled then
      (Prepared(Rotated(all, keys.session.value), None, None), SessionRouted(c))
    else if keys.prefix.Some? then
      var hit := CachedTarget(c, config, Key(model, keys.prefix.value), all, clock);
      if hit.1.Some? then (Prepared(Front(all, hit.1.value), keys.prefix, hit.1), hit.0)
      else if config.prefixOnly then (Prepared(Rotated(all, keys.prefix.value), keys.prefix, None), hit.0)
      else if keys.sticky.Some? && config.stickyEnabled then
        (Prepared(Rotated(all, keys.sticky.value), keys.prefix, None), StickyRouted(hit.0))
      else (Prepared(all, keys.prefix, None), hit.0)
    else if keys.sticky.Some? && config.stickyEnabled then
      (Prepared(Rotated(all, keys.sticky.value), None, None), StickyRouted(c))
    else (Prepared(all, None, None), c)
  }

  /* ----- the selectors as they run on the shared router ----- */

  ghost function ConfigOf(router: AffinityRouter, prefixOnly: bool): Config {
    Config(router.prefixEnabled, router.stickyEnabled, prefixOnly)
  }

  method SelectModelTargetFromCandidates(router: AffinityRouter, targets: ModelTargets, candidates: seq<Target>,
                                         model: string, body: Option<Json>, prefixOnly: bool, clock: Clock)
    returns (r: Selection)
    requires targets.counter < COUNTER_LIMIT
    modifies router, targets
    ensures Selected(r, router.Value(), targets.counter)
            == Select(old(router.Value()), ConfigOf(router, prefixOnly), model, KeysOf(body), candidates,
                      old(targets.counter), clock)
  {
    hide KeysOf;
    hide Lookup;
    hide PickSticky;
    var keys := RoutingKeysOf(body);
    if keys.session.Some? && router.stickyEnabled {
      router.RecordSessionRoute();
      return Selection(PickSticky(candidates, keys.session.value), None, None);
    }
    if keys.prefix.Some? {
      var hit := router.LookupTarget(Key(model, keys.prefix.value), candidates, clock.pruneAt, clock.stampAt);
      if hit.Some? {
        return Selection(hit.value, keys.prefix, hit);
      }
      if prefixOnly {
        return Selection(PickSticky(candidates, keys.prefix.value), keys.prefix, None);
      }
      if keys.sticky.Some? && router.stickyEnabled {
        router.RecordStickyRoute();
        return Selection(PickSticky(candidates, keys.sticky.value), keys.prefix, None);
      }
      var picked := targets.PickFrom(candidates);
      return Selection(picked, keys.prefix, None);
    }
    if keys.sticky.Some? && router.stickyEnabled {
      router.RecordStickyRoute();
      return Selection(PickSticky(candidates, keys.sticky.value), None, None);
    }
    var picked := targets.PickFrom(candidates);
    r := Selection(picked, None, None);
  }

  method PrepareRemoteTargetsForRequest(router: AffinityRouter, model: string, hosts: seq<nat>,
                                        body: Option<Json>, prefixOnly: bool, clock: Clock)
    returns (r: Prepared)
    modifies router
    ensures (r, router.Value()) == Prepare(old(router.Value()), ConfigOf(router, prefixOnly), model, KeysOf(body),
                                           hosts, clock)
  {
    hide KeysOf;
    hide Lookup;
    hide Rotated;
    hide Front;
    hide Remotes;
    var keys := RoutingKeysOf(body);
    var all := Remotes(hosts);
    var ordered := new Target[|hosts|](i requires 0 <= i < |hosts| => all[i]);
    assert ordered[..] == all;
    var learn: Option<Hash> := None;
    var cached: Option<Target> := None;
    if keys.session.Some? && router.stickyEnabled {
      router.RecordSessionRoute();
      RotateTargetsByHash(ordered, keys.session.value);
      return Prepared(ordered[..], None, None);
    }
    if keys.prefix.Some? {
      learn := keys.prefix;
      cached := router.LookupTarget(Key(model, keys.prefix.value), ordered[..], clock.pruneAt, clock.stampAt);
      if cached.Some? {
        var _ := MoveTargetFirst(ordered, cached.value);
      } else if prefixOnly {
        RotateTargetsByHash(ordered, keys.prefix.value);
      } else if keys.sticky.Some? && router.stickyEnabled {
        router.RecordStickyRoute();
        RotateTargetsByHash(ordered, keys.sticky.value);
      }
    } else if keys.sticky.Some? && router.stickyEnabled {
      router.RecordStickyRoute();
      RotateTargetsByHash(ordered, keys.sticky.value);
    }
    r := Prepared(ordered[..], learn, cached);
  }

  /* ----- the two agree ----- */

  lemma RotatedIsPermutation(targets: seq<Target>, key: nat)
    ensures multiset(Rotated(targets, key)) == multiset(targets)
    ensures targets != [] ==> Rotated(targets, key)[0] == PickSticky(targets, key)
  {
    if targets != [] {
      var k := key % |targets|;
      assert targets == targets[..k] + targets[k..];
    }
  }

  // A rotated list starts at the key and goes around once.
  lemma RotatedAt(targets: seq<Target>, key: nat, i: nat)
    requires i < |targets|
    ensures |Rotated(targets, key)| == |targets|
    ensures Rotated(targets, key)[i] == targets[(key + i) % |targets|]
  {
    var n := |targets|;
    var k := key % n;
    var q := key / n;
    assert key == q * n + k;
    if k + i < n {
      Remainder(key + i, q, n, k + i);
    } else {
      assert key + i == (q + 1) * n + (k + i - n);
      Remainder(key + i, q + 1, n, k + i - n);
    }
  }

  lemma FrontIsPermutation(targets: seq<Target>, t: Target)
    requires t in targets
    ensures multiset(Front(targets, t)) == multiset(targets)
    ensures Front(targets, t) != [] && Front(targets, t)[0] == t
    ensures var p := Position(targets, t);
            p < |targets| && targets[p] == t && Front(targets, t)[1..] == targets[..p] + targets[p + 1..]
  {
    hide Position;
    var p := Position(targets, t);
    assert targets[..|targets|] == targets;
    MovedIsPermutation(targets, p);
    assert (([t] + targets[..p]) + targets[p + 1..])[1..] == targets[..p] + targets[p + 1..];
  }

  lemma MovedIsPermutation(targets: seq<Target>, p: nat)
    requires p < |targets|
    ensures multiset([targets[p]] + targets[..p] + targets[p + 1..]) == multiset(targets)
  {
    assert targets == targets[..p] + [targets[p]] + targets[p + 1..];
  }

  // Some hash, not the round-robin counter, decides.
  predicate HashDecides(c: Cache, config: Config, model: string, keys: RoutingKeys, candidates: seq<Target>,
                        clock: Clock) {
    || (config.stickyEnabled && (keys.session.Some? || keys.sticky.Some?))
    || (keys.prefix.Some?
        && (config.prefixOnly || CachedTarget(c, config, Key(model, keys.prefix.value), candidates, clock).1.Some?))
  }

  lemma HitIsCandidate(c: Cache, config: Config, key: Key, candidates: seq<Target>, clock: Clock)
    ensures var hit := CachedTarget(c, config, key, candidates, clock).1; hit.Some? ==> hit.value in candidates
  {
    hide Prune;
  }

  // One state and request give the same hash to learn, cached target and final cache.
  lemma SameLearning(c: Cache, config: Config, model: string, keys: RoutingKeys, hosts: seq<nat>, counter: nat,
                     clock: Clock)
    ensures var s := Select(c, config, model, keys, Remotes(hosts), counter, clock);
            var p := Prepare(c, config, model, keys, hosts, clock);
            s.selection.learn == p.0.learn && s.selection.cached == p.0.cached && s.cache == p.1
  {
    hide Lookup;
    hide Rotated;
    hide Front;
    hide Remotes;
    hide PickSticky;
  }

  // The prepared list is one of three reorderings of the hosts.
  lemma PreparedIsPermutation(c: Cache, config: Config, model: string, keys: RoutingKeys, hosts: seq<nat>, clock: Clock)
    ensures multiset(Prepare(c, config, model, keys, hosts, clock).0.ordered) == multiset(Remotes(hosts))
  {
    hide Lookup;
    hide Rotated;
    hide Front;
    hide Remotes;
    var all := Remotes(hosts);
    RotatedIsPermutation(all, keys.session.GetOr(0));
    RotatedIsPermutation(all, keys.sticky.GetOr(0));
    RotatedIsPermutation(all, keys.prefix.GetOr(0));
    if keys.prefix.Some? {
      HitIsCandidate(c, config, Key(model, keys.prefix.value), all, clock);
      var hit := CachedTarget(c, config, Key(model, keys.prefix.value), all, clock).1;
      if hit.Some? {
        FrontIsPermutation(all, hit.value);
      }
    }
  }

  // The head of the prepared list is the selected target whenever a hash decides, and then
  // the round-robin counter stays.
  lemma HeadIsSelected(c: Cache, config: Config, model: string, keys: RoutingKeys, hosts: seq<nat>, counter: nat,
                       clock: Clock)
    requires hosts != [] && HashDecides(c, config, model, keys, Remotes(hosts), clock)
    ensures var s := Select(c, config, model, keys, Remotes(hosts), counter, clock);
            var p := Prepare(c, config, model, keys, hosts, clock).0;
            p.ordered != [] && s.selection.target == p.ordered[0] && s.counter == counter
  {
    hide Lookup;
    hide Rotated;
    hide Front;
    hide Remotes;
    hide PickSticky;
    var all := Remotes(hosts);
    PreparedIsPermutation(c, config, model, keys, hosts, clock);
    NonEmpty(all, Prepare(c, config, model, keys, hosts, clock).0.ordered);
    RotatedIsPermutation(all, keys.session.GetOr(0));
    RotatedIsPermutation(all, keys.sticky.GetOr(0));
    RotatedIsPermutation(all, keys.prefix.GetOr(0));
    if keys.prefix.Some? {
      HitIsCandidate(c, config, Key(model, keys.prefix.value), all, clock);
      var hit := CachedTarget(c, config, Key(model, keys.prefix.value), all, clock).1;
      if hit.Some? {
        FrontIsPermutation(all, hit.value);
      }
    }
  }

  // When no hash decides, the list keeps the hosts' order while the selected target is the
  // one at the counter.
  lemma CounterDecides(c: Cache, config: Config, model: string, keys: RoutingKeys, hosts: seq<nat>, counter: nat,
                       clock: Clock)
    requires hosts != [] && !HashDecides(c, config, model, keys, Remotes(hosts), clock)
    ensures Prepare(c, config, model, keys, hosts, clock).0.ordered == Remotes(hosts)
    ensures Select(c, config, model, keys, Remotes(hosts), counter, clock).selection.target
        == Remote(hosts[counter % |hosts|])
    ensures Select(c, config, model, keys, Remotes(hosts), counter, clock).counter == (counter + 1) % COUNTER_LIMIT
  {
    hide Lookup;
    hide Rotated;
    hide Front;
  }

  // The selectors agree on the target exactly when a hash decides or the counter happens to
  // stand at a copy of the first host.
  lemma SelectorsAgree(c: Cache, config: Config, model: string, keys: RoutingKeys, hosts: seq<nat>, counter: nat,
                       clock: Clock)
    requires hosts != []
    ensures var s := Select(c, config, model, keys, Remotes(hosts), counter, clock);
            var p := Prepare(c, config, model, keys, hosts, clock).0;
            p.ordered != [] &&
            (s.selection.target == p.ordered[0]
             <==> HashDecides(c, config, model, keys, Remotes(hosts), clock) || hosts[counter % |hosts|] == hosts[0])
  {
    hide Select;
    hide Prepare;
    if HashDecides(c, config, model, keys, Remotes(hosts), clock) {
      HeadIsSelected(c, config, model, keys, hosts, counter, clock);
    } else {
      CounterDecides(c, config, model, keys, hosts, counter, clock);
    }
  }

  lemma NonEmpty(a: seq<Target>, b: seq<Target>)
    requires multiset(a) == multiset(b)
    ensures |a| == |b|
  {
    assert |multiset(a)| == |a| && |multiset(b)| == |b|;
  }

  // A cached hit moves to the front and the other hosts keep their relative order.
  lemma CachedHitKeepsTheRest(c: Cache, config: Config, model: string, keys: RoutingKeys, hosts: seq<nat>, clock: Clock)
    requires Prepare(c, config, model, keys, hosts, clock).0.cached.Some?
    ensures var p := Prepare(c, config, model, keys, hosts, clock).0;
            exists i :: 0 <= i < |hosts| && Remotes(hosts)[i] == p.cached.value
                        && p.ordered == [p.cached.value] + Remotes(hosts)[..i] + Remotes(hosts)[i + 1..]
  {
    hide Lookup;
    hide Rotated;
    hide Position;
    var all := Remotes(hosts);
    var key := Key(model, keys.prefix.value);
    HitIsCandidate(c, config, key, all, clock);
    var p := Prepare(c, config, model, keys, hosts, clock).0;
    FrontIsPermutation(all, p.cached.value);
    var i := Position(all, p.cached.value);
    assert p.ordered == [p.cached.value] + all[..i] + all[i + 1..];
  }

  /* ----- what decides ----- */

  // A session decides before anything else, and nothing is learned from it.
  lemma SessionDecides(c: Cache, config: Config, model: string, keys: RoutingKeys, candidates: seq<Target>,
                       counter: nat, clock: Clock)
    requires keys.session.Some? && config.stickyEnabled && candidates != []
    ensures var s := Select(c, config, model, keys, candidates, counter, clock);
            && s.selection == Selection(candidates[keys.session.value % |candidates|], None, None)
            && s.cache == c.(stats := c.stats.(sessionRoutes := c.stats.sessionRoutes + 1)) && s.counter == counter
  {}

  // Then the prefix: what was learned for it under this model, if that is a candidate. What is
  // learned from the answer is the prefix.
  lemma PrefixDecides(c: Cache, config: Config, model: string, keys: RoutingKeys, candidates: seq<Target>,
                      counter: nat, clock: Clock, lag: nat, at: nat)
    requires keys.prefix.Some? && !(keys.session.Some? && config.stickyEnabled) && Core(c, lag, at)
    ensures var s := Select(c, config, model, keys, candidates, counter, clock);
            var key := Key(model, keys.prefix.value);
            && s.selection.learn == keys.prefix
            && (s.selection.cached.Some? ==>
                  config.prefixEnabled && key in c.entries && s.selection.cached == Some(c.entries[key].target)
                  && s.selection.target == c.entries[key].target && s.selection.target in candidates)
            && (var live := key in c.entries && !Expired(c.entries[key], clock.pruneAt);
                config.prefixEnabled && live && c.entries[key].target in candidates ==> s.selection.cached.Some?)
  {
    hide Prune;
    hide Core;
    hide PickSticky;
    PruneKeeps(c, clock.pruneAt, lag, at);
  }

  // Without a session and a hit: the prefix when only prefixes count, else the sticky key, else the
  // counter.
  lemma TheRestDecides(c: Cache, config: Config, model: string, keys: RoutingKeys, candidates: seq<Target>,
                       counter: nat, clock: Clock)
    requires !(keys.session.Some? && config.stickyEnabled) && candidates != []
    requires Select(c, config, model, keys, candidates, counter, clock).selection.cached.None?
    ensures var s := Select(c, config, model, keys, candidates, counter, clock);
            var sticky := config.stickyEnabled && keys.sticky.Some?;
            var hash := if keys.prefix.Some? && config.prefixOnly then keys.prefix
                        else if sticky then keys.sticky else None;
            && s.selection.target == candidates[hash.GetOr(counter) % |candidates|]
            && s.counter == (if hash.Some? then counter else (counter + 1) % 0x1_0000_0000_0000_0000)
            && (keys.prefix.None? && sticky ==>
                  s.cache == c.(stats := c.stats.(stickyRoutes := c.stats.stickyRoutes + 1)))
            && (keys.prefix.None? && !sticky ==> s.cache == c)
            && (keys.prefix.None? ==> s.selection.learn == None)
  {
    hide Lookup;
  }
}
