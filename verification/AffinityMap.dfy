/** The simple recency-stamped map that the affinity cache's map and deque together implement. */
module AffinityMap {
  import opened Results
  import opened Election
  import opened Affinity
  import opened AffinityRuns
  import opened Sets

  /* ----- the simple map that the cache implements ----- */

  datatype Stamped = Stamped(target: Target, lastUsed: nat, tick: nat)

  // No deque: each entry carries its time of last use and a use counter.
  datatype Simple = Simple(entries: map<Key, Stamped>, tick: nat, stats: Stats)

  const NOTHING := Simple(map[], 0, NO_STATS)

  function Fresh(s: Simple, now: nat): Simple {
    var live := map k | k in s.entries && now - s.entries[k].lastUsed <= TTL :: s.entries[k];
    LiveIsSmaller(s.entries, live);
    Simple(live, s.tick, s.stats.(stale := s.stats.stale + (|s.entries| - |live|)))
  }

  lemma LiveIsSmaller(m: map<Key, Stamped>, live: map<Key, Stamped>)
    requires live.Keys <= m.Keys
    ensures |live| <= |m|
  {
    SubsetIsNoLarger(live.Keys, m.Keys);
  }

  function Use(s: Simple, key: Key, target: Target, lastUsed: nat): Simple {
    Simple(s.entries[key := Stamped(target, lastUsed, s.tick)], s.tick + 1, s.stats)
  }

  // Above the capacity the least recently used entry goes: every other has some entry used
  // before it.
  function LeastRecentGone(entries: map<Key, Stamped>): map<Key, Stamped> {
    map k | k in entries && exists j :: j in entries && entries[j].tick < entries[k].tick :: entries[k]
  }

  function Capped(s: Simple): Simple {
    if |s.entries| <= MAX_ENTRIES then s
    else s.(entries := LeastRecentGone(s.entries), stats := s.stats.(evicted := s.stats.evicted + 1))
  }

  function SimpleLookup(s: Simple, key: Key, candidates: seq<Target>, pruneAt: nat, stampAt: nat)
    : (Simple, Option<Target>)
  {
    var f := Fresh(s, pruneAt);
    var t := f.stats.(lookups := f.stats.lookups + 1);
    if key in f.entries && f.entries[key].target in candidates then
      (Use(f, key, f.entries[key].target, stampAt).(stats := t.(hits := t.hits + 1, routes := t.routes + 1)),
       Some(f.entries[key].target))
    else
      var stale := if key in f.entries then t.stale + 1 else t.stale;
      (f.(entries := f.entries - {key}, stats := t.(misses := t.misses + 1, stale := stale)), None)
  }

  function SimpleStep(s: Simple, op: Op): (Simple, Answer) {
    match op
    case LookupOp(key, candidates, pruneAt, stampAt) =>
      var r := SimpleLookup(s, key, candidates, pruneAt, stampAt);
      (r.0, Found(r.1))
    case LearnOp(key, target, readAt, lockAt) =>
      if !Learnable(target) then (s, Done)
      else
        var f := Fresh(s, lockAt);
        (Capped(Use(f, key, target, readAt).(stats := f.stats.(learned := f.stats.learned + 1))), Done)
    case ForgetOp(key, target) =>
      if key in s.entries && s.entries[key].target == target
      then (s.(entries := s.entries - {key}, stats := s.stats.(stale := s.stats.stale + 1)), Done)
      else (s, Done)
    case SnapshotOp(at) =>
      var f := Fresh(s, at);
      (f, Snapshot(f.stats, |f.entries|))
  }

  function SimpleRun(s: Simple, ops: seq<Op>): (Simple, seq<Answer>)
    decreases |ops|
  {
    if ops == [] then (s, [])
    else
      var first := SimpleStep(s, ops[0]);
      var rest := SimpleRun(first.0, ops[1..]);
      (rest.0, [first.1] + rest.1)
  }

  /* ----- the simulation ----- */

  function Ticks(entries: map<Key, Stamped>): map<Key, int> {
    map k | k in entries :: entries[k].tick
  }

  // Same keys, targets and times; the deque is in the order of the ticks.
  predicate SameEntries(c: Cache, entries: map<Key, Stamped>) {
    c.entries.Keys == entries.Keys
    && forall k :: k in c.entries ==> c.entries[k] == Entry(entries[k].target, entries[k].lastUsed)
  }

  predicate Implements(c: Cache, s: Simple) {
    && Listing(c) && SameEntries(c, s.entries)
    && Ordered(c.lru, Ticks(s.entries), -1)
    && (forall k :: k in s.entries ==> s.entries[k].tick < s.tick)
  }

  lemma {:induction false} PruneOrdered(c: Cache, now: nat, number: map<Key, int>, slack: int)
    requires Listing(c) && Ordered(c.lru, number, slack)
    ensures Ordered(Prune(c, now).lru, number, slack)
    decreases |c.lru|
  {
    hide Ordered;
    hide NoDuplicates;
    hide Elements;
    if c.lru != [] {
      FrontIsListed(c);
      if Expired(c.entries[c.lru[0]], now) {
        Tail(c.lru);
        OrderedTail(c.lru, number, slack);
        PruneOrdered(PopFront(c).(stats := c.stats.(stale := c.stats.stale + 1)), now, number, slack);
      }
    }
  }

  // Any state is sorted by last use up to some error.
  lemma {:induction false} SomeCore(c: Cache) returns (bound: nat)
    requires Listing(c)
    ensures Core(c, bound, bound)
    decreases |c.lru|
  {
    hide NoDuplicates;
    hide Elements;
    if c.lru == [] {
      bound := 0;
      EmptyKeys(c);
    } else {
      FrontIsListed(c);
      Tail(c.lru);
      var rest := SomeCore(PopFront(c));
      var front := c.entries[c.lru[0]].lastUsed;
      bound := if rest < front then front else rest;
      assert forall k :: k in c.entries && k != c.lru[0] ==> k in PopFront(c).entries;
    }
    BoundIsCore(c, bound);
  }

  lemma EmptyKeys(c: Cache)
    requires Listing(c) && c.lru == []
    ensures c.entries.Keys == {}
  {}

  lemma BoundIsCore(c: Cache, bound: nat)
    requires Listing(c) && UsedBy(c, bound)
    ensures Core(c, bound, bound)
  {
    hide NoDuplicates;
    forall i, j | 0 <= i < j < |c.lru|
      ensures InOrder(c.lru[i], c.lru[j], Stamps(c), bound)
    {
      assert c.lru[i] in Elements(c.lru) && c.lru[j] in Elements(c.lru);
    }
  }

  function Restrict(s: Simple, keys: set<Key>): Simple {
    s.(entries := map k | k in s.entries && k in keys :: s.entries[k])
  }

  lemma PruneImplements(c: Cache, s: Simple, now: nat)
    requires Implements(c, s)
    ensures Pruned(c, Prune(c, now), now)
    ensures Implements(Prune(c, now), Restrict(s, Prune(c, now).entries.Keys))
  {
    hide Prune;
    hide Ordered;
    hide NoDuplicates;
    var bound := SomeCore(c);
    PruneKeeps(c, now, bound, bound);
    PruneOrdered(c, now, Ticks(s.entries), -1);
    var p := Prune(c, now);
    var r := Restrict(s, p.entries.Keys);
    assert p.entries.Keys == r.entries.Keys;
    OrderedAlike(p.lru, Ticks(s.entries), Ticks(r.entries), -1);
  }

  // The expired keys that pruning leaves in the cache.
  function Left(c: Cache, now: nat): set<Key>
    requires Listing(c)
  {
    set k | k in c.entries && Stuck(c, k, now)
  }

  lemma NothingIsLeft(c: Cache, now: nat)
    requires Listing(c)
    ensures Left(c, now) == {} <==> NoFreshBeforeExpired(c, now)
  {
    hide NoDuplicates;
    hide Expired;
    if NoFreshBeforeExpired(c, now) {
      forall k | k in c.entries
        ensures !Stuck(c, k, now)
      {
        if i, j :| 0 <= i < j < |c.lru| && c.lru[j] == k && !ExpiredAt(c, i, now) {
          assert !ExpiredAt(c, j, now);
        }
      }
    } else {
      var i, j :| 0 <= i < j < |c.lru| && ExpiredAt(c, j, now) && !ExpiredAt(c, i, now);
      assert c.lru[j] in Elements(c.lru);
      assert c.lru[j] in Left(c, now);
    }
  }

  lemma PrunedKeys(c: Cache, s: Simple, now: nat)
    requires Implements(c, s)
    ensures Prune(c, now).entries.Keys == Fresh(s, now).entries.Keys + Left(c, now)
    ensures Fresh(s, now).entries.Keys !! Left(c, now)
  {
    hide Prune;
    hide Listing;
    hide Ordered;
    var p, f, left := Prune(c, now), Fresh(s, now), Left(c, now);
    forall k
      ensures k in p.entries <==> k in f.entries || k in left
      ensures !(k in f.entries && k in left)
    {
      PruningKeeps(c, k, now);
      if k in c.entries {
        assert Expired(c.entries[k], now) <==> !(now - s.entries[k].lastUsed <= TTL);
      }
    }
  }

  // The cache holds the simple map's entries and what is left, which it has not counted as stale.
  lemma PruneLeaves(c: Cache, s: Simple, now: nat)
    requires Implements(c, s) && c.stats == s.stats
    ensures var p, f, left := Prune(c, now), Fresh(s, now), Left(c, now);
            && p.entries.Keys == f.entries.Keys + left && f.entries.Keys !! left
            && |p.entries| == |f.entries| + |left|
            && f.stats == p.stats.(stale := p.stats.stale + |left|) && f.tick == s.tick
            && Implements(p, Restrict(s, f.entries.Keys + left)) && Restrict(s, f.entries.Keys).entries == f.entries
            && (left == {} ==> Implements(p, f))
  {
    hide Prune;
    hide Stuck;
    hide Implements;
    hide Listing;
    ImplementsLists(c, s);
    PruneImplements(c, s, now);
    PrunedKeys(c, s, now);
    var p, f, left := Prune(c, now), Fresh(s, now), Left(c, now);
    hide Left;
    assert |p.entries.Keys| == |f.entries.Keys| + |left|;
    SameSize(c, s);
    if left == {} {
      assert f.entries.Keys + {} == f.entries.Keys;
      ImplementsAlike(p, p, Restrict(s, p.entries.Keys), f);
    }
  }

  lemma UseImplements(c: Cache, s: Simple, key: Key, target: Target, at: nat)
    requires Implements(c, s)
    ensures Implements(Stamp(c, key, Entry(target, at)), Use(s, key, target, at))
  {
    hide Ordered;
    hide NoDuplicates;
    hide Elements;
    hide Touch;
    var c', s' := Stamp(c, key, Entry(target, at)), Use(s, key, target, at);
    assert forall k :: k in Ticks(s.entries) ==> Ticks(s.entries)[k] <= s.tick + -1;
    OrderedTouch(c.lru, key, Ticks(s.entries), -1, s.tick);
    assert Ticks(s'.entries) == Ticks(s.entries)[key := s.tick];
    assert c'.entries.Keys == c.entries.Keys + {key};
  }

  lemma DropImplements(c: Cache, s: Simple, key: Key)
    requires Implements(c, s)
    ensures Implements(Drop(c, key), s.(entries := s.entries - {key}))
  {
    hide Ordered;
    hide NoDuplicates;
    hide Without;
    WithoutElements(c.lru, key);
    OrderedWithout(c.lru, key, Ticks(s.entries), -1);
    var rest := s.entries - {key};
    assert rest.Keys == s.entries.Keys - {key};
    OrderedAlike(Without(c.lru, key), Ticks(s.entries), Ticks(rest), -1);
  }

  lemma FrontTickIsLeast(c: Cache, s: Simple)
    requires Implements(c, s) && c.lru != []
    ensures c.lru[0] in s.entries
    ensures forall k :: k in s.entries && k != c.lru[0] ==> s.entries[c.lru[0]].tick < s.entries[k].tick
  {
    hide NoDuplicates;
    FrontIsListed(c);
    forall k | k in s.entries && k != c.lru[0]
      ensures s.entries[c.lru[0]].tick < s.entries[k].tick
    {
      assert k in Elements(c.lru);
      var j :| 0 <= j < |c.lru| && c.lru[j] == k;
      assert InOrder(c.lru[0], c.lru[j], Ticks(s.entries), -1);
    }
  }

  // The key at the front is the one, and the only one, with the least tick.
  lemma FrontIsLeastRecent(c: Cache, s: Simple)
    requires Implements(c, s) && c.lru != []
    ensures LeastRecentGone(s.entries) == s.entries - {c.lru[0]}
  {
    hide Implements;
    FrontTickIsLeast(c, s);
  }

  lemma SameSize(c: Cache, s: Simple)
    requires Implements(c, s)
    ensures |c.entries| == |s.entries|
  {
    hide Ordered;
    assert |c.entries.Keys| == |s.entries.Keys|;
  }

  lemma CapImplements(c: Cache, s: Simple)
    requires Implements(c, s) && c.stats == s.stats && |c.entries| <= MAX_ENTRIES + 1
    ensures Implements(EvictOver(c), Capped(s)) && EvictOver(c).stats == Capped(s).stats
    ensures |EvictOver(c).entries| <= MAX_ENTRIES
  {
    hide EvictOver;
    hide LeastRecentGone;
    hide Implements;
    hide Core;
    hide Listing;
    assert Listing(c) by { assert Implements(c, s); ImplementsLists(c, s); }
    var bound := SomeCore(c);
    EvictKeeps(c, bound, bound);
    SameSize(c, s);
    if |c.entries| > MAX_ENTRIES {
      FrontIsLeastRecent(c, s);
      PopImplements(c, s);
      ImplementsAlike(PopFront(c), EvictOne(c), s.(entries := s.entries - {c.lru[0]}), Capped(s));
    }
  }

  lemma ImplementsLists(c: Cache, s: Simple)
    requires Implements(c, s)
    ensures Listing(c)
  {}

  lemma PopImplements(c: Cache, s: Simple)
    requires Implements(c, s) && c.lru != []
    ensures Implements(PopFront(c), s.(entries := s.entries - {c.lru[0]}))
  {
    hide Ordered;
    hide NoDuplicates;
    Tail(c.lru);
    OrderedTail(c.lru, Ticks(s.entries), -1);
    var rest := s.entries - {c.lru[0]};
    assert rest.Keys == s.entries.Keys - {c.lru[0]};
    OrderedAlike(c.lru[1..], Ticks(s.entries), Ticks(rest), -1);
  }

  lemma ImplementsAlike(c: Cache, d: Cache, s: Simple, t: Simple)
    requires Implements(c, s) && d.entries == c.entries && d.lru == c.lru
    requires t.entries == s.entries && t.tick == s.tick
    ensures Implements(d, t)
  {}

  lemma SameKeyed(c: Cache, s: Simple, key: Key)
    requires Implements(c, s)
    ensures key in c.entries <==> key in s.entries
    ensures key in c.entries ==> c.entries[key] == Entry(s.entries[key].target, s.entries[key].lastUsed)
  {}

  /* ----- when the two agree ----- */

  // Pruning leaves nothing expired, except that a lookup may leave the very key it looks for, when
  // it then drops it for a target that is not a candidate.
  predicate Harmless(c: Cache, op: Op)
    requires Listing(c)
  {
    match op
    case LookupOp(key, candidates, pruneAt, _) =>
      forall k :: k in Left(c, pruneAt) ==> k == key && c.entries[k].target !in candidates
    case LearnOp(_, target, _, lockAt) => Learnable(target) ==> Left(c, lockAt) == {}
    case ForgetOp(_, _) => true
    case SnapshotOp(at) => Left(c, at) == {}
  }

  predicate HarmlessRun(c: Cache, ops: seq<Op>)
    decreases |ops|
  {
    ops == [] || (Listing(c) && Harmless(c, ops[0]) && HarmlessRun(Step(c, ops[0]).0, ops[1..]))
  }

  predicate Agree(c: Cache, s: Simple) {
    Implements(c, s) && c.stats == s.stats
  }

  lemma ExactLookup(c: Cache, s: Simple, key: Key, candidates: seq<Target>, pruneAt: nat, stampAt: nat)
    requires Implements(Prune(c, pruneAt), Fresh(s, pruneAt)) && Prune(c, pruneAt).stats == Fresh(s, pruneAt).stats
    ensures var l, m := Lookup(c, key, candidates, pruneAt, stampAt),
                        SimpleLookup(s, key, candidates, pruneAt, stampAt);
            && l.1 == m.1 && Agree(l.0, m.0)
            && |l.0.entries| <= |Prune(c, pruneAt).entries|
  {
    hide Prune;
    hide Fresh;
    hide Touch;
    hide Without;
    hide Implements;
    var p, f := Prune(c, pruneAt), Fresh(s, pruneAt);
    SameKeyed(p, f, key);
    var l, m := Lookup(c, key, candidates, pruneAt, stampAt).0, SimpleLookup(s, key, candidates, pruneAt, stampAt).0;
    if key in p.entries && p.entries[key].target in candidates {
      var e := Entry(p.entries[key].target, stampAt);
      UseImplements(p, f, key, e.target, stampAt);
      ImplementsAlike(Stamp(p, key, e), l, Use(f, key, e.target, stampAt), m);
      MoreKeys(p.entries, key, e);
    } else if key in p.entries {
      DropImplements(p, f, key);
      ImplementsAlike(Drop(p, key), l, f.(entries := f.entries - {key}), m);
      FewerKeys(p.entries, key);
    } else {
      assert f.entries - {key} == f.entries;
      ImplementsAlike(p, l, f, m);
    }
  }

  lemma LookupAgrees(c: Cache, s: Simple, key: Key, candidates: seq<Target>, pruneAt: nat, stampAt: nat)
    requires Agree(c, s) && |c.entries| <= MAX_ENTRIES
    ensures var l, m := Lookup(c, key, candidates, pruneAt, stampAt),
                        SimpleLookup(s, key, candidates, pruneAt, stampAt);
            && (Harmless(c, LookupOp(key, candidates, pruneAt, stampAt)) <==> l.0.stats.stale == m.0.stats.stale)
            && (Harmless(c, LookupOp(key, candidates, pruneAt, stampAt)) ==>
                  l.1 == m.1 && Agree(l.0, m.0) && |l.0.entries| <= MAX_ENTRIES)
  {
    hide Lookup;
    hide SimpleLookup;
    hide Prune;
    hide Fresh;
    hide Implements;
    hide Listing;
    hide Left;
    ImplementsLists(c, s);
    PruneImplements(c, s, pruneAt);
    PruneLeaves(c, s, pruneAt);
    var left := Left(c, pruneAt);
    if left == {} {
      ExactLookup(c, s, key, candidates, pruneAt, stampAt);
    } else if left == {key} && c.entries[key].target !in candidates {
      DroppedLookup(c, s, key, candidates, pruneAt, stampAt);
    } else {
      LeftLookup(c, s, key, candidates, pruneAt, stampAt);
    }
  }

  // The key looked for was all that was left, and it goes.
  lemma DroppedLookup(c: Cache, s: Simple, key: Key, candidates: seq<Target>, pruneAt: nat, stampAt: nat)
    requires Agree(c, s) && |c.entries| <= MAX_ENTRIES
    requires Left(c, pruneAt) == {key} && c.entries[key].target !in candidates
    ensures var l, m := Lookup(c, key, candidates, pruneAt, stampAt),
                        SimpleLookup(s, key, candidates, pruneAt, stampAt);
            l.1 == m.1 && Agree(l.0, m.0) && |l.0.entries| <= MAX_ENTRIES
  {
    hide Prune;
    hide Fresh;
    hide Without;
    hide Implements;
    hide Listing;
    hide Left;
    ImplementsLists(c, s);
    PruneImplements(c, s, pruneAt);
    PruneLeaves(c, s, pruneAt);
    var p, f := Prune(c, pruneAt), Fresh(s, pruneAt);
    var l, m := Lookup(c, key, candidates, pruneAt, stampAt).0, SimpleLookup(s, key, candidates, pruneAt, stampAt).0;
    var r := Restrict(s, f.entries.Keys + {key});
    assert key in p.entries && key !in f.entries;
    DropImplements(p, r, key);
    assert r.entries - {key} == Restrict(s, f.entries.Keys).entries;
    assert f.entries - {key} == f.entries;
    ImplementsAlike(Drop(p, key), l, r.(entries := r.entries - {key}), m);
    FewerKeys(p.entries, key);
  }

  lemma LeftLookup(c: Cache, s: Simple, key: Key, candidates: seq<Target>, pruneAt: nat, stampAt: nat)
    requires Agree(c, s) && |c.entries| <= MAX_ENTRIES && Left(c, pruneAt) != {}
    requires !(Left(c, pruneAt) == {key} && c.entries[key].target !in candidates)
    ensures Lookup(c, key, candidates, pruneAt, stampAt).0.stats.stale
         != SimpleLookup(s, key, candidates, pruneAt, stampAt).0.stats.stale
  {
    hide Prune;
    hide Fresh;
    hide Without;
    hide Implements;
    hide Listing;
    hide Left;
    ImplementsLists(c, s);
    PruneImplements(c, s, pruneAt);
    PruneLeaves(c, s, pruneAt);
    var p, f, left := Prune(c, pruneAt), Fresh(s, pruneAt), Left(c, pruneAt);
    if key in f.entries {
      assert key in s.entries && f.entries[key].target == s.entries[key].target by { FreshIsOld(s, key, pruneAt); }
      SameKeyed(c, s, key);
    } else if |left| == 1 && key in left {
      OnlyOne(left, key);
    }
  }

  lemma FreshIsOld(s: Simple, key: Key, now: nat)
    requires key in Fresh(s, now).entries
    ensures key in s.entries && Fresh(s, now).entries[key] == s.entries[key]
  {}

  lemma OnlyOne(left: set<Key>, key: Key)
    requires |left| == 1 && key in left
    ensures left == {key}
  {
    SubsetIsNoLarger(left - {key}, {});
    assert |left - {key}| == 0;
  }

  lemma {:induction false} EvictCountsNoStale(c: Cache)
    ensures EvictOver(c).stats.stale == c.stats.stale
    decreases |c.lru|
  {
    if |c.entries| > MAX_ENTRIES && c.lru != [] {
      EvictCountsNoStale(EvictOne(c));
    }
  }

  // Learning counts no stale entry of its own.
  lemma LearnStale(c: Cache, s: Simple, key: Key, target: Target, readAt: nat, lockAt: nat)
    requires Learnable(target)
    ensures Learn(c, key, target, readAt, lockAt).stats.stale == Prune(c, lockAt).stats.stale
    ensures SimpleStep(s, LearnOp(key, target, readAt, lockAt)).0.stats.stale == Fresh(s, lockAt).stats.stale
  {
    hide Prune;
    hide Fresh;
    hide Touch;
    hide EvictOver;
    hide LeastRecentGone;
    var p := Prune(c, lockAt);
    EvictCountsNoStale(Cache(p.entries[key := Entry(target, readAt)], Touch(p.lru, key),
                             p.stats.(learned := p.stats.learned + 1)));
  }

  lemma ExactLearn(c: Cache, s: Simple, key: Key, target: Target, readAt: nat, lockAt: nat)
    requires Implements(Prune(c, lockAt), Fresh(s, lockAt)) && Prune(c, lockAt).stats == Fresh(s, lockAt).stats
    requires |Prune(c, lockAt).entries| <= MAX_ENTRIES && Learnable(target)
    ensures var l, m := Learn(c, key, target, readAt, lockAt), SimpleStep(s, LearnOp(key, target, readAt, lockAt)).0;
            Agree(l, m) && |l.entries| <= MAX_ENTRIES
  {
    hide Prune;
    hide Fresh;
    hide Touch;
    hide EvictOver;
    hide Capped;
    hide Implements;
    var p, f, e := Prune(c, lockAt), Fresh(s, lockAt), Entry(target, readAt);
    var c1 := Stamp(p, key, e).(stats := p.stats.(learned := p.stats.learned + 1));
    var s1 := Use(f, key, target, readAt).(stats := f.stats.(learned := f.stats.learned + 1));
    UseImplements(p, f, key, target, readAt);
    ImplementsAlike(Stamp(p, key, e), c1, Use(f, key, target, readAt), s1);
    MoreKeys(p.entries, key, e);
    CapImplements(c1, s1);
  }

  lemma LearnAgrees(c: Cache, s: Simple, key: Key, target: Target, readAt: nat, lockAt: nat)
    requires Agree(c, s) && |c.entries| <= MAX_ENTRIES && Learnable(target)
    ensures var l, m := Learn(c, key, target, readAt, lockAt), SimpleStep(s, LearnOp(key, target, readAt, lockAt)).0;
            && (Left(c, lockAt) == {} <==> l.stats.stale == m.stats.stale)
            && (Left(c, lockAt) == {} ==> Agree(l, m) && |l.entries| <= MAX_ENTRIES)
  {
    hide Prune;
    hide Fresh;
    hide Learn;
    hide SimpleStep;
    hide Implements;
    hide Listing;
    hide Left;
    ImplementsLists(c, s);
    PruneImplements(c, s, lockAt);
    PruneLeaves(c, s, lockAt);
    LearnStale(c, s, key, target, readAt, lockAt);
    if Left(c, lockAt) == {} {
      ExactLearn(c, s, key, target, readAt, lockAt);
    }
  }

  // A call does the same to both exactly when it is harmless: if it is not, the counts of stale
  // entries differ from then on.
  lemma StepAgrees(c: Cache, s: Simple, op: Op)
    requires Agree(c, s) && |c.entries| <= MAX_ENTRIES
    ensures Harmless(c, op) <==> Step(c, op).0.stats.stale == SimpleStep(s, op).0.stats.stale
    ensures Harmless(c, op) ==>
              && Step(c, op).1 == SimpleStep(s, op).1 && Agree(Step(c, op).0, SimpleStep(s, op).0)
              && |Step(c, op).0.entries| <= MAX_ENTRIES
  {
    hide Prune;
    hide Fresh;
    hide Without;
    hide Lookup;
    hide SimpleLookup;
    hide Learn;
    hide Capped;
    hide Use;
    hide Implements;
    hide Listing;
    hide Left;
    ImplementsLists(c, s);
    match op {
      case LookupOp(key, candidates, pruneAt, stampAt) =>
        LookupAgrees(c, s, key, candidates, pruneAt, stampAt);
      case LearnOp(key, target, readAt, lockAt) =>
        if Learnable(target) {
          LearnAgrees(c, s, key, target, readAt, lockAt);
        } else {
          NothingLearned(c, key, target, readAt, lockAt);
        }
      case ForgetOp(key, target) =>
        SameKeyed(c, s, key);
        if key in c.entries && c.entries[key].target == target {
          DropImplements(c, s, key);
          ImplementsAlike(Drop(c, key), Step(c, op).0, s.(entries := s.entries - {key}), SimpleStep(s, op).0);
          FewerKeys(c.entries, key);
        }
      case SnapshotOp(at) =>
        PruneImplements(c, s, at);
        PruneLeaves(c, s, at);
    }
  }

  // After every call the same answer, entries, order of use and statistics.
  predicate SameRun(c: Cache, s: Simple, ops: seq<Op>)
    decreases |ops|
  {
    ops == []
    || (Step(c, ops[0]).1 == SimpleStep(s, ops[0]).1 && Agree(Step(c, ops[0]).0, SimpleStep(s, ops[0]).0)
        && SameRun(Step(c, ops[0]).0, SimpleStep(s, ops[0]).0, ops[1..]))
  }

  lemma {:induction false} RunAgrees(c: Cache, s: Simple, ops: seq<Op>)
    requires Agree(c, s) && |c.entries| <= MAX_ENTRIES
    ensures SameRun(c, s, ops) <==> HarmlessRun(c, ops)
    ensures SameRun(c, s, ops) ==> Run(c, ops).1 == SimpleRun(s, ops).1
    decreases |ops|
  {
    hide Step;
    hide SimpleStep;
    hide Implements;
    hide Listing;
    hide Harmless;
    ImplementsLists(c, s);
    if ops != [] {
      StepAgrees(c, s, ops[0]);
      if Harmless(c, ops[0]) {
        RunAgrees(Step(c, ops[0]).0, SimpleStep(s, ops[0]).0, ops[1..]);
      }
    }
  }

  // Over any run, whatever the clock reads: the map and deque hold the entries of the simple
  // recency-stamped map, with the same answers and statistics after every call, if and only if
  // every call is harmless. It is when every pruning is exact.
  lemma CacheAgreesExactly(ops: seq<Op>)
    ensures SameRun(EMPTY, NOTHING, ops) <==> HarmlessRun(EMPTY, ops)
    ensures SameRun(EMPTY, NOTHING, ops) ==> Run(EMPTY, ops).1 == SimpleRun(NOTHING, ops).1
  {
    RunAgrees(EMPTY, NOTHING, ops);
  }

  lemma {:induction false} TimedIsHarmless(c: Cache, ops: seq<Op>, clock: nat)
    requires Inv(c, 0, clock) && TimedRun(c, ops, clock, 0)
    ensures HarmlessRun(c, ops)
    decreases |ops|
  {
    hide Step;
    hide NoDuplicates;
    hide Elements;
    hide Stuck;
    if ops != [] {
      forall now: nat
        ensures Left(c, now) == {}
      {
        SortedIsExact(c, now);
        NothingIsLeft(c, now);
      }
      assert Harmless(c, ops[0]);
      StepKeeps(c, ops[0], clock, 0);
      hide Inv;
      TimedIsHarmless(Step(c, ops[0]).0, ops[1..], After(ops[0], clock));
    }
  }

  // Over every run whose clock is monotone and whose learners' reads are not below a stamp held,
  // which all runs of calls that follow one another are: the map and deque give the answers of
  // the simple recency-stamped map, statistics included.
  lemma CacheImplementsSimpleMap(ops: seq<Op>)
    requires TimedRun(EMPTY, ops, 0, 0)
    ensures SameRun(EMPTY, NOTHING, ops) && Run(EMPTY, ops).1 == SimpleRun(NOTHING, ops).1
  {
    hide Run;
    hide SimpleRun;
    hide SameRun;
    hide HarmlessRun;
    EmptyIsFine(0, 0);
    TimedIsHarmless(EMPTY, ops, 0);
    CacheAgreesExactly(ops);
  }

  lemma SequentialCallsImplementSimpleMap(ops: seq<Op>)
    requires ClockedRun(ops, 0, 0)
    ensures Run(EMPTY, ops).1 == SimpleRun(NOTHING, ops).1
    ensures forall now :: Prune(Run(EMPTY, ops).0, now).entries == Live(Run(EMPTY, ops).0.entries, now)
  {
    hide Run;
    hide SimpleRun;
    hide Prune;
    hide Live;
    hide TimedRun;
    EmptyIsFine(0, 0);
    ClockedIsTimed(EMPTY, ops, 0, 0);
    CacheImplementsSimpleMap(ops);
    forall now
      ensures Prune(Run(EMPTY, ops).0, now).entries == Live(Run(EMPTY, ops).0.entries, now)
    {
      NoOldSurvivorInAnyRun(ops, now, 0);
    }
  }

  // After an overtaken learner a lookup can hit what the simple map has dropped.
  function LateLookup(a: Key, b: Key): seq<Op> {
    OvertakenLearner(a, b) + [LookupOp(b, [Local(2)], TTL + 1, TTL + 1)]
  }

  lemma LateLookupIsTimed(a: Key, b: Key, lag: nat)
    requires lag > 0
    ensures TimedRun(EMPTY, LateLookup(a, b), 0, lag)
  {
    var late := LookupOp(b, [Local(2)], TTL + 1, TTL + 1);
    assert ClockedRun([], TTL + 1, lag);
    hide ClockedRun;
    ClockedCons(late, [], 1, lag);
    assert [late] + [] == [late];
    OvertakenIsClocked(a, b, [late], lag);
    hide OvertakenLearner;
    EmptyIsFine(0, lag);
    hide Inv;
    hide TimedRun;
    ClockedIsTimed(EMPTY, LateLookup(a, b), 0, lag);
  }

  lemma {:induction false} RunAppend(c: Cache, a: seq<Op>, op: Op)
    ensures var r := Run(c, a); Run(c, a + [op]).1 == r.1 + [Step(r.0, op).1]
    decreases |a|
  {
    hide Step;
    if a == [] {
      assert a + [op] == [op] && [op][1..] == [];
    } else {
      assert (a + [op])[1..] == a[1..] + [op];
      RunAppend(Step(c, a[0]).0, a[1..], op);
    }
  }

  lemma {:induction false} SimpleRunAppend(s: Simple, a: seq<Op>, op: Op)
    ensures var r := SimpleRun(s, a); SimpleRun(s, a + [op]).1 == r.1 + [SimpleStep(r.0, op).1]
    ensures |SimpleRun(s, a).1| == |a|
    decreases |a|
  {
    hide SimpleStep;
    if a == [] {
      assert a + [op] == [op] && [op][1..] == [];
    } else {
      assert (a + [op])[1..] == a[1..] + [op];
      SimpleRunAppend(SimpleStep(s, a[0]).0, a[1..], op);
    }
  }

  lemma SimpleOvertaken(a: Key, b: Key)
    requires a != b
    ensures var s := SimpleRun(NOTHING, OvertakenLearner(a, b)).0;
            b in s.entries && s.entries[b].lastUsed == 0
  {
    var ops := OvertakenLearner(a, b);
    var one := SimpleStep(NOTHING, ops[0]).0;
    assert Fresh(NOTHING, 1).entries == map[];
    assert one.entries == map[a := Stamped(Local(1), 1, 0)];
    assert Fresh(one, 1).entries == one.entries;
    var two := SimpleStep(one, ops[1]).0;
    assert two.entries == one.entries[b := Stamped(Local(2), 0, 1)];
    assert ops[1..] == [ops[1]] && ops[1..][1..] == [];
    assert SimpleRun(one, ops[1..]).0 == two;
  }

  lemma LateLookupDiffers(a: Key, b: Key)
    requires a != b
    ensures Run(EMPTY, LateLookup(a, b)).1 != SimpleRun(NOTHING, LateLookup(a, b)).1
  {
    var ops, op := OvertakenLearner(a, b), LookupOp(b, [Local(2)], TTL + 1, TTL + 1);
    RunAppend(EMPTY, ops, op);
    SimpleRunAppend(NOTHING, ops, op);
    OvertakenRun(a, b);
    SimpleOvertaken(a, b);
    var c, s := Run(EMPTY, ops).0, SimpleRun(NOTHING, ops).0;
    hide Run;
    hide SimpleRun;
    assert Prune(c, TTL + 1) == c;
    assert Step(c, op).1 == Found(Some(Local(2)));
    assert SimpleStep(s, op).1 == Found(None);
    var x, y := Run(EMPTY, LateLookup(a, b)).1, SimpleRun(NOTHING, LateLookup(a, b)).1;
    assert x[|x| - 1] != y[|y| - 1];
  }

  // After an overtaken learner a pruning that is not exact is harmless or not, as the lookup goes.
  lemma OvertakenIsLeft(a: Key, b: Key)
    requires a != b
    ensures var c := Run(EMPTY, OvertakenLearner(a, b)).0;
            && Listing(c) && !NoFreshBeforeExpired(c, TTL + 1)
            && Harmless(c, LookupOp(b, [], TTL + 1, TTL + 1))
            && !Harmless(c, LookupOp(b, [Local(2)], TTL + 1, TTL + 1))
  {
    OvertakenRun(a, b);
    var c := Run(EMPTY, OvertakenLearner(a, b)).0;
    hide Run;
    assert !ExpiredAt(c, 0, TTL + 1) && ExpiredAt(c, 1, TTL + 1);
    assert c.lru[1] == b && Stuck(c, b, TTL + 1);
    assert Left(c, TTL + 1) == {b};
  }

  // The refinement, too, holds over all runs if and only if no learner's read is below a stamp
  // held.
  lemma RefinementNeedsOrder(lag: nat)
    ensures lag == 0 <==>
            forall ops | TimedRun(EMPTY, ops, 0, lag) :: Run(EMPTY, ops).1 == SimpleRun(NOTHING, ops).1
  {
    hide Run;
    hide SimpleRun;
    hide TimedRun;
    if lag == 0 {
      forall ops | TimedRun(EMPTY, ops, 0, lag)
        ensures Run(EMPTY, ops).1 == SimpleRun(NOTHING, ops).1
      {
        CacheImplementsSimpleMap(ops);
      }
    } else {
      var a, b := Key("a", 0), Key("b", 0);
      LateLookupIsTimed(a, b, lag);
      LateLookupDiffers(a, b);
    }
  }
}
