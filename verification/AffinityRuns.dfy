/**
 Runs of the affinity cache: what every operation keeps and when pruning from the front is
 complete.
 */
module AffinityRuns {
  import opened Results
  import opened Election
  import opened Affinity

  /* ----- duplicate-free lists in the order of a numbering ----- */

  predicate NoDuplicates(lru: seq<Key>) {
    forall i, j :: 0 <= i < j < |lru| ==> lru[i] != lru[j]
  }

  function Elements(lru: seq<Key>): set<Key> {
    set k | k in lru
  }

  // Earlier keys have a number at most `slack` above those of later ones.
  predicate Ordered(lru: seq<Key>, number: map<Key, int>, slack: int) {
    && Elements(lru) <= number.Keys
    && forall i, j :: 0 <= i < j < |lru| ==> InOrder(lru[i], lru[j], number, slack)
  }

  predicate InOrder(a: Key, b: Key, number: map<Key, int>, slack: int) {
    a in number && b in number && number[a] <= number[b] + slack
  }

  lemma Tail(lru: seq<Key>)
    requires NoDuplicates(lru) && lru != []
    ensures NoDuplicates(lru[1..]) && Elements(lru[1..]) == Elements(lru) - {lru[0]}
  {
    assert lru == [lru[0]] + lru[1..];
    assert lru[0] !in lru[1..];
  }

  lemma OrderedTail(lru: seq<Key>, number: map<Key, int>, slack: int)
    requires Ordered(lru, number, slack) && lru != []
    ensures Ordered(lru[1..], number, slack)
  {
    assert Elements(lru[1..]) <= Elements(lru);
  }

  // Where the removed key was.
  lemma {:induction false} WithoutShape(lru: seq<Key>, key: Key) returns (p: nat)
    ensures p <= |lru| && key !in lru[..p]
    ensures p == |lru| ==> Without(lru, key) == lru
    ensures p < |lru| ==> lru[p] == key && Without(lru, key) == lru[..p] + lru[p + 1..]
  {
    if lru == [] || lru[0] == key {
      p := 0;
    } else {
      var q := WithoutShape(lru[1..], key);
      p := q + 1;
      assert lru[..p] == [lru[0]] + lru[1..][..q];
      assert lru == [lru[0]] + lru[1..];
    }
  }

  lemma {:induction false} WithoutElements(lru: seq<Key>, key: Key)
    requires NoDuplicates(lru)
    ensures NoDuplicates(Without(lru, key))
    ensures Elements(Without(lru, key)) == Elements(lru) - {key}
  {
    hide Without;
    var p := WithoutShape(lru, key);
    if p < |lru| {
      assert lru == lru[..p] + [key] + lru[p + 1..];
      assert key !in lru[p + 1..];
    } else {
      assert lru[..p] == lru;
    }
  }

  lemma OrderedWithout(lru: seq<Key>, key: Key, number: map<Key, int>, slack: int)
    requires Ordered(lru, number, slack)
    ensures Ordered(Without(lru, key), number, slack)
  {
    hide Without;
    hide InOrder;
    var p := WithoutShape(lru, key);
    var w := Without(lru, key);
    if p < |lru| {
      forall i, j | 0 <= i < j < |w| ensures InOrder(w[i], w[j], number, slack) {
        var a, b := if i < p then i else i + 1, if j < p then j else j + 1;
        assert w[i] == lru[a] && w[j] == lru[b];
      }
      assert Elements(w) <= Elements(lru);
    }
  }

  // A key moved to the back with a number no more than `slack` below the others.
  lemma OrderedTouch(lru: seq<Key>, key: Key, number: map<Key, int>, slack: int, at: int)
    requires NoDuplicates(lru) && Ordered(lru, number, slack)
    requires forall k :: k in number ==> number[k] <= at + slack
    ensures NoDuplicates(Touch(lru, key)) && Elements(Touch(lru, key)) == Elements(lru) + {key}
    ensures Ordered(Touch(lru, key), number[key := at], slack)
  {
    hide Without;
    WithoutElements(lru, key);
    OrderedWithout(lru, key, number, slack);
    var w := Without(lru, key);
    var t := Touch(lru, key);
    assert key !in Elements(w);
    assert Elements(t) == Elements(w) + {key};
    forall i, j | 0 <= i < j < |t| ensures InOrder(t[i], t[j], number[key := at], slack) {
      assert t[i] == w[i] && w[i] in Elements(w);
      if j < |w| {
        assert t[j] == w[j] && w[j] in Elements(w);
        assert InOrder(w[i], w[j], number, slack);
      }
    }
  }

  lemma OrderedAlike(lru: seq<Key>, number: map<Key, int>, other: map<Key, int>, slack: int)
    requires Ordered(lru, number, slack) && Elements(lru) <= other.Keys
    requires forall k :: k in Elements(lru) ==> other[k] == number[k]
    ensures Ordered(lru, other, slack)
  {
    forall i, j | 0 <= i < j < |lru| ensures InOrder(lru[i], lru[j], other, slack) {
      assert lru[i] in Elements(lru) && lru[j] in Elements(lru);
      assert InOrder(lru[i], lru[j], number, slack);
    }
  }

  /* ----- the invariant ----- */

  function Stamps(c: Cache): map<Key, int> {
    map k | k in c.entries :: c.entries[k].lastUsed
  }

  // The deque lists exactly the keys of the map.
  predicate Listing(c: Cache) {
    NoDuplicates(c.lru) && Elements(c.lru) == c.entries.Keys
  }

  // No stamp held is above the given time.
  predicate UsedBy(c: Cache, at: nat) {
    forall k :: k in c.entries ==> c.entries[k].lastUsed <= at
  }

  // Every lookup is a hit or a miss, and nothing leaves that was not learned.
  predicate Counted(c: Cache) {
    && c.stats.lookups == c.stats.hits + c.stats.misses
    && c.stats.routes == c.stats.hits
    && |c.entries| + c.stats.evicted + c.stats.stale <= c.stats.learned
  }

  // Sorted by last use, up to an error of `lag`.
  predicate Core(c: Cache, lag: nat, clock: nat) {
    Listing(c) && Ordered(c.lru, Stamps(c), lag) && UsedBy(c, clock)
  }

  predicate Inv(c: Cache, lag: nat, clock: nat) {
    Core(c, lag, clock) && |c.entries| <= MAX_ENTRIES && Counted(c)
  }

  lemma CoreAlike(c: Cache, d: Cache, lag: nat, clock: nat)
    requires Core(c, lag, clock) && d.entries == c.entries && d.lru == c.lru
    ensures Core(d, lag, clock)
  {
    assert Stamps(d) == Stamps(c);
  }

  lemma FewerKeys(entries: map<Key, Entry>, key: Key)
    requires key in entries
    ensures |entries - {key}| == |entries| - 1
  {
    assert (entries - {key}).Keys + {key} == entries.Keys;
  }

  lemma MoreKeys(entries: map<Key, Entry>, key: Key, e: Entry)
    ensures |entries[key := e]| == if key in entries then |entries| else |entries| + 1
  {
    assert entries[key := e].Keys == entries.Keys + {key};
  }

  lemma PopFrontKeeps(c: Cache, lag: nat, clock: nat)
    requires Core(c, lag, clock) && c.lru != []
    ensures Core(PopFront(c), lag, clock) && |PopFront(c).entries| == |c.entries| - 1
    ensures c.lru[0] in c.entries
  {
    hide Ordered;
    var p := PopFront(c);
    Tail(c.lru);
    OrderedTail(c.lru, Stamps(c), lag);
    assert c.lru[0] in Elements(c.lru);
    FewerKeys(c.entries, c.lru[0]);
    OrderedAlike(p.lru, Stamps(c), Stamps(p), lag);
  }

  // Pruning removes expired entries only, counts them, and stops at a fresh one.
  ghost predicate Pruned(c: Cache, p: Cache, now: nat) {
    && (forall k :: k in p.entries ==> k in c.entries && p.entries[k] == c.entries[k])
    && (forall k :: k in c.entries && k !in p.entries ==> Expired(c.entries[k], now))
    && |p.entries| <= |c.entries|
    && p.stats == c.stats.(stale := c.stats.stale + (|c.entries| - |p.entries|))
    && (p.lru != [] ==> p.lru[0] in p.entries && !Expired(p.entries[p.lru[0]], now))
  }

  lemma {:induction false} PruneKeeps(c: Cache, now: nat, lag: nat, clock: nat)
    requires Core(c, lag, clock)
    ensures Core(Prune(c, now), lag, clock) && Pruned(c, Prune(c, now), now)
    decreases |c.lru|
  {
    hide Core;
    if c.lru != [] {
      PopFrontKeeps(c, lag, clock);
      if Expired(c.entries[c.lru[0]], now) {
        var q := PopFront(c).(stats := c.stats.(stale := c.stats.stale + 1));
        CoreAlike(PopFront(c), q, lag, clock);
        PruneKeeps(q, now, lag, clock);
      }
    }
  }

  /* ----- every operation keeps the invariant ----- */

  lemma DropKeeps(c: Cache, key: Key, lag: nat, clock: nat)
    requires Core(c, lag, clock) && key in c.entries
    ensures Core(Drop(c, key), lag, clock) && |Drop(c, key).entries| == |c.entries| - 1
  {
    hide Ordered;
    hide Without;
    var d := Drop(c, key);
    WithoutElements(c.lru, key);
    OrderedWithout(c.lru, key, Stamps(c), lag);
    FewerKeys(c.entries, key);
    OrderedAlike(d.lru, Stamps(c), Stamps(d), lag);
  }

  // The key is stamped and moved to the back.
  function Stamp(c: Cache, key: Key, e: Entry): Cache {
    c.(entries := c.entries[key := e], lru := Touch(c.lru, key))
  }

  lemma StampKeeps(c: Cache, key: Key, e: Entry, lag: nat, clock: nat)
    requires Core(c, lag, clock) && e.lastUsed <= clock && UsedBy(c, e.lastUsed + lag)
    ensures Core(Stamp(c, key, e), lag, clock)
    ensures |Stamp(c, key, e).entries| == if key in c.entries then |c.entries| else |c.entries| + 1
  {
    hide Ordered;
    hide Touch;
    hide NoDuplicates;
    hide Elements;
    MoreKeys(c.entries, key, e);
    StampedStamps(c, key, e);
    assert forall k :: k in Stamps(c) ==> Stamps(c)[k] <= e.lastUsed + lag;
    OrderedTouch(c.lru, key, Stamps(c), lag, e.lastUsed);
  }

  lemma StampedStamps(c: Cache, key: Key, e: Entry)
    ensures Stamps(Stamp(c, key, e)) == Stamps(c)[key := e.lastUsed]
    ensures Stamp(c, key, e).entries.Keys == c.entries.Keys + {key}
  {
  }

  lemma CoreLater(c: Cache, lag: nat, clock: nat, later: nat)
    requires Core(c, lag, clock) && clock <= later
    ensures Core(c, lag, later) && UsedBy(c, later + lag)
  {}

  lemma LookupKeeps(c: Cache, key: Key, candidates: seq<Target>, pruneAt: nat, stampAt: nat, lag: nat, clock: nat)
    requires Inv(c, lag, clock) && clock <= stampAt
    ensures Inv(Lookup(c, key, candidates, pruneAt, stampAt).0, lag, stampAt)
  {
    hide Prune;
    hide Core;
    hide Touch;
    hide Without;
    PruneKeeps(c, pruneAt, lag, clock);
    var p := Prune(c, pruneAt);
    CoreLater(p, lag, clock, stampAt);
    var l := Lookup(c, key, candidates, pruneAt, stampAt).0;
    if key !in p.entries {
      CoreAlike(p, l, lag, stampAt);
    } else if p.entries[key].target !in candidates {
      DropKeeps(p, key, lag, stampAt);
      CoreAlike(Drop(p, key), l, lag, stampAt);
    } else {
      var e := Entry(p.entries[key].target, stampAt);
      StampKeeps(p, key, e, lag, stampAt);
      CoreAlike(Stamp(p, key, e), l, lag, stampAt);
    }
  }

  // At most one entry is over the capacity: the eviction loop runs at most once, and the
  // key at the back stays.
  lemma EvictKeeps(c: Cache, lag: nat, clock: nat)
    requires Core(c, lag, clock) && |c.entries| <= MAX_ENTRIES + 1
    ensures EvictOver(c) == if |c.entries| <= MAX_ENTRIES then c else EvictOne(c)
    ensures |c.entries| > MAX_ENTRIES ==> c.lru != [] && c.lru[0] in c.entries
    ensures Core(EvictOver(c), lag, clock) && |EvictOver(c).entries| <= MAX_ENTRIES
    ensures |c.entries| > MAX_ENTRIES ==> |EvictOver(c).entries| == |c.entries| - 1
  {
    if |c.entries| > MAX_ENTRIES {
      SizeOfListing(c);
      hide Core;
      PopFrontKeeps(c, lag, clock);
      CoreAlike(PopFront(c), EvictOne(c), lag, clock);
      assert EvictOver(EvictOne(c)) == EvictOne(c);
    }
  }

  lemma SizeOfListing(c: Cache)
    requires Listing(c)
    ensures |c.lru| == |c.entries|
    decreases |c.lru|
  {
    if c.lru == [] {
      assert c.entries.Keys == {};
    } else {
      Tail(c.lru);
      assert c.lru[0] in Elements(c.lru);
      FewerKeys(c.entries, c.lru[0]);
      SizeOfListing(PopFront(c));
    }
  }

  // Learning keeps the invariant, and the key just learned always survives.
  lemma LearnKeeps(c: Cache, key: Key, target: Target, readAt: nat, lockAt: nat, lag: nat, clock: nat)
    requires Inv(c, lag, clock) && clock <= lockAt && readAt <= lockAt && UsedBy(c, readAt + lag)
    ensures Inv(Learn(c, key, target, readAt, lockAt), lag, lockAt)
    ensures Learnable(target) ==>
              var l := Learn(c, key, target, readAt, lockAt);
              key in l.entries && l.entries[key] == Entry(target, readAt)
  {
    hide Prune;
    hide Core;
    hide Without;
    hide EvictOver;
    CoreLater(c, lag, clock, lockAt);
    if Learnable(target) {
      PruneKeeps(c, lockAt, lag, lockAt);
      var p := Prune(c, lockAt);
      var e := Entry(target, readAt);
      StampKeeps(p, key, e, lag, lockAt);
      var s := Stamp(p, key, e).(stats := p.stats.(learned := p.stats.learned + 1));
      CoreAlike(Stamp(p, key, e), s, lag, lockAt);
      EvictKeeps(s, lag, lockAt);
      BackSurvives(s, key, lag, lockAt);
    }
  }

  lemma BackSurvives(s: Cache, key: Key, lag: nat, clock: nat)
    requires Core(s, lag, clock) && |s.entries| <= MAX_ENTRIES + 1 && key in s.entries
    requires s.lru != [] && s.lru[|s.lru| - 1] == key
    ensures key in EvictOver(s).entries && EvictOver(s).entries[key] == s.entries[key]
  {
    hide EvictOver;
    EvictKeeps(s, lag, clock);
    SizeOfListing(s);
    if |s.entries| > MAX_ENTRIES {
      assert s.lru[0] != s.lru[|s.lru| - 1];
    }
  }

  lemma ForgetKeeps(c: Cache, key: Key, target: Target, lag: nat, clock: nat)
    requires Inv(c, lag, clock)
    ensures Inv(Forget(c, key, target), lag, clock)
  {
    hide Core;
    hide Without;
    if key in c.entries && c.entries[key].target == target {
      DropKeeps(c, key, lag, clock);
      CoreAlike(Drop(c, key), Forget(c, key, target), lag, clock);
    }
  }

  /* ----- runs ----- */

  datatype Op =
    | LookupOp(key: Key, candidates: seq<Target>, pruneAt: nat, stampAt: nat)
    | LearnOp(key: Key, target: Target, readAt: nat, lockAt: nat)
    | ForgetOp(key: Key, target: Target)
    | SnapshotOp(at: nat)

  datatype Answer = Found(target: Option<Target>) | Done | Snapshot(stats: Stats, live: nat)

  function Step(c: Cache, op: Op): (Cache, Answer) {
    match op
    case LookupOp(key, candidates, pruneAt, stampAt) =>
      var r := Lookup(c, key, candidates, pruneAt, stampAt);
      (r.0, Found(r.1))
    case LearnOp(key, target, readAt, lockAt) => (Learn(c, key, target, readAt, lockAt), Done)
    case ForgetOp(key, target) => (Forget(c, key, target), Done)
    case SnapshotOp(at) =>
      var p := Prune(c, at);
      (p, Snapshot(p.stats, |p.entries|))
  }

  // The clock is monotone under the lock. A learner reads it first before the lock: no stamp
  // that the cache holds when the learner gets the lock is more than `lag` above that read.
  predicate Timed(c: Cache, op: Op, clock: nat, lag: nat) {
    match op
    case LookupOp(_, _, pruneAt, stampAt) => clock <= pruneAt <= stampAt
    case LearnOp(_, _, readAt, lockAt) => clock <= lockAt && readAt <= lockAt && UsedBy(c, readAt + lag)
    case ForgetOp(_, _) => true
    case SnapshotOp(at) => clock <= at
  }

  function After(op: Op, clock: nat): nat {
    match op
    case LookupOp(_, _, _, stampAt) => stampAt
    case LearnOp(_, _, _, lockAt) => lockAt
    case ForgetOp(_, _) => clock
    case SnapshotOp(at) => at
  }

  predicate TimedRun(c: Cache, ops: seq<Op>, clock: nat, lag: nat)
    decreases |ops|
  {
    ops == []
    || (Timed(c, ops[0], clock, lag) && TimedRun(Step(c, ops[0]).0, ops[1..], After(ops[0], clock), lag))
  }

  // The same in terms of the clock alone: a learner's read is at most `lag` behind the last
  // clock read of the calls before it. Without lag, calls follow one another; and a learner that
  // waits at most `lag` for the lock is at most that far behind.
  predicate Clocked(op: Op, clock: nat, lag: nat) {
    match op
    case LookupOp(_, _, pruneAt, stampAt) => clock <= pruneAt <= stampAt
    case LearnOp(_, _, readAt, lockAt) => clock <= lockAt && readAt <= lockAt && clock <= readAt + lag
    case ForgetOp(_, _) => true
    case SnapshotOp(at) => clock <= at
  }

  predicate ClockedRun(ops: seq<Op>, clock: nat, lag: nat) {
    ops == [] || (Clocked(ops[0], clock, lag) && ClockedRun(ops[1..], After(ops[0], clock), lag))
  }

  lemma {:induction false} ClockedIsTimed(c: Cache, ops: seq<Op>, clock: nat, lag: nat)
    requires Inv(c, lag, clock) && ClockedRun(ops, clock, lag)
    ensures TimedRun(c, ops, clock, lag)
    decreases |ops|
  {
    hide Step;
    hide Counted;
    hide Listing;
    hide Ordered;
    if ops != [] {
      assert Timed(c, ops[0], clock, lag);
      StepKeeps(c, ops[0], clock, lag);
      hide Inv;
      ClockedIsTimed(Step(c, ops[0]).0, ops[1..], After(ops[0], clock), lag);
    }
  }

  function ClockAfter(ops: seq<Op>, clock: nat): nat {
    if ops == [] then clock else ClockAfter(ops[1..], After(ops[0], clock))
  }

  function Run(c: Cache, ops: seq<Op>): (Cache, seq<Answer>)
    decreases |ops|
  {
    if ops == [] then (c, [])
    else
      var first := Step(c, ops[0]);
      var rest := Run(first.0, ops[1..]);
      (rest.0, [first.1] + rest.1)
  }

  lemma StepKeeps(c: Cache, op: Op, clock: nat, lag: nat)
    requires Inv(c, lag, clock) && Timed(c, op, clock, lag)
    ensures Inv(Step(c, op).0, lag, After(op, clock))
  {
    hide Lookup;
    hide Learn;
    hide Forget;
    hide Prune;
    hide Core;
    match op {
      case LookupOp(key, candidates, pruneAt, stampAt) =>
        LookupKeeps(c, key, candidates, pruneAt, stampAt, lag, clock);
      case LearnOp(key, target, readAt, lockAt) =>
        if Learnable(target) {
          LearnKeeps(c, key, target, readAt, lockAt, lag, clock);
        } else {
          NothingLearned(c, key, target, readAt, lockAt);
          CoreLater(c, lag, clock, lockAt);
        }
      case ForgetOp(key, target) => ForgetKeeps(c, key, target, lag, clock);
      case SnapshotOp(at) =>
        PruneKeeps(c, at, lag, clock);
        CoreLater(Prune(c, at), lag, clock, at);
    }
  }

  lemma NothingLearned(c: Cache, key: Key, target: Target, readAt: nat, lockAt: nat)
    requires !Learnable(target)
    ensures Learn(c, key, target, readAt, lockAt) == c
  {}

  // In every reachable state the deque lists the map's keys without duplicates, sorted by last
  // use up to the lag, the capacity holds and the statistics add up.
  lemma {:induction false} RunKeeps(c: Cache, ops: seq<Op>, clock: nat, lag: nat)
    requires Inv(c, lag, clock) && TimedRun(c, ops, clock, lag)
    ensures Inv(Run(c, ops).0, lag, ClockAfter(ops, clock))
    decreases |ops|
  {
    hide Step;
    hide Inv;
    hide Timed;
    hide After;
    if ops != [] {
      StepKeeps(c, ops[0], clock, lag);
      RunKeeps(Step(c, ops[0]).0, ops[1..], After(ops[0], clock), lag);
    }
  }

  lemma EmptyIsFine(clock: nat, lag: nat)
    ensures Inv(EMPTY, lag, clock)
  {}

  lemma StartsAtZero()
    ensures EMPTY == Cache(map[], [], Stats(0, 0, 0, 0, 0, 0, 0, 0, 0))
  {}

  /* ----- the time limit ----- */

  predicate NoFreshBeforeExpired(c: Cache, now: nat)
    requires Listing(c)
  {
    forall i, j :: 0 <= i < j < |c.lru| && ExpiredAt(c, j, now) ==> ExpiredAt(c, i, now)
  }

  predicate ExpiredAt(c: Cache, i: nat, now: nat)
    requires Listing(c) && i < |c.lru|
  {
    assert c.lru[i] in Elements(c.lru);
    Expired(c.entries[c.lru[i]], now)
  }

  function Live(entries: map<Key, Entry>, now: nat): map<Key, Entry> {
    map k | k in entries && !Expired(entries[k], now) :: entries[k]
  }

  // Pruning from the front is exact if and only if no expired key sits behind a fresh one.
  lemma {:induction false} PruningIsExact(c: Cache, now: nat)
    requires Listing(c)
    ensures Prune(c, now).entries == Live(c.entries, now) <==> NoFreshBeforeExpired(c, now)
    decreases |c.lru|
  {
    hide NoFreshBeforeExpired;
    hide Live;
    hide NoDuplicates;
    hide Elements;
    hide Expired;
    if c.lru == [] {
      EmptyListing(c, now);
    } else {
      FrontIsListed(c);
      if ExpiredAt(c, 0, now) {
        var q := PopFront(c).(stats := c.stats.(stale := c.stats.stale + 1));
        PopExpired(c, q, now);
        PruningIsExact(q, now);
        assert Prune(c, now) == Prune(q, now);
      } else {
        FrontFresh(c, now);
        assert Prune(c, now) == c;
      }
    }
  }

  // An expired key behind a fresh one.
  predicate Stuck(c: Cache, key: Key, now: nat)
    requires Listing(c)
  {
    key in c.entries && Expired(c.entries[key], now)
    && exists i, j :: 0 <= i < j < |c.lru| && c.lru[j] == key && !ExpiredAt(c, i, now)
  }

  // Pruning keeps what is fresh and what is stuck.
  lemma {:induction false} PruningKeeps(c: Cache, key: Key, now: nat)
    requires Listing(c)
    ensures key in Prune(c, now).entries <==>
            key in c.entries && (!Expired(c.entries[key], now) || Stuck(c, key, now))
    decreases |c.lru|
  {
    hide NoDuplicates;
    hide Elements;
    hide Expired;
    hide Stuck;
    if c.lru == [] {
      EmptyListing(c, now);
    } else {
      FrontIsListed(c);
      if ExpiredAt(c, 0, now) {
        var q := PopFront(c).(stats := c.stats.(stale := c.stats.stale + 1));
        PopExpired(c, q, now);
        PruningKeeps(q, key, now);
        StuckBehind(c, q, key, now);
        assert Prune(c, now) == Prune(q, now) && Expired(c.entries[c.lru[0]], now);
        assert q.entries == c.entries - {c.lru[0]};
      } else if key in c.entries && Expired(c.entries[key], now) {
        FreshFront(c, key, now);
      }
    }
  }

  // An expired front holds nothing up.
  lemma StuckBehind(c: Cache, q: Cache, key: Key, now: nat)
    requires Listing(c) && c.lru != [] && ExpiredAt(c, 0, now) && Listing(q)
    requires q.entries == PopFront(c).entries && q.lru == PopFront(c).lru
    ensures Stuck(q, key, now) <==> Stuck(c, key, now)
    ensures Stuck(c, key, now) ==> key in q.entries
  {
    hide Stuck;
    forall i | 0 <= i < |q.lru|
      ensures ExpiredAt(q, i, now) == ExpiredAt(c, i + 1, now)
    {
      assert q.lru[i] in Elements(q.lru);
    }
    hide ExpiredAt;
    StuckIsNotFirst(c, key, now);
    StuckIsNotFirst(q, key, now);
    if key != c.lru[0] {
      ShiftedStuck(c, q, key, now);
    }
  }

  lemma StuckIsNotFirst(c: Cache, key: Key, now: nat)
    requires Listing(c)
    ensures Stuck(c, key, now) ==> key in c.entries && c.lru != [] && key != c.lru[0]
  {
    hide ExpiredAt;
  }

  lemma ShiftedStuck(c: Cache, q: Cache, key: Key, now: nat)
    requires Listing(c) && Listing(q) && c.lru != [] && q.lru == c.lru[1..] && ExpiredAt(c, 0, now)
    requires key != c.lru[0] && (key in q.entries <==> key in c.entries)
    requires key in c.entries ==> q.entries[key] == c.entries[key]
    requires forall i :: 0 <= i < |q.lru| ==> ExpiredAt(q, i, now) == ExpiredAt(c, i + 1, now)
    ensures Stuck(q, key, now) <==> Stuck(c, key, now)
  {
    hide Listing;
    hide ExpiredAt;
    if Stuck(c, key, now) {
      var i, j :| 0 <= i < j < |c.lru| && c.lru[j] == key && !ExpiredAt(c, i, now);
      assert q.lru[j - 1] == key && !ExpiredAt(q, i - 1, now);
    }
    if Stuck(q, key, now) {
      var i, j :| 0 <= i < j < |q.lru| && q.lru[j] == key && !ExpiredAt(q, i, now);
      assert c.lru[j + 1] == key && !ExpiredAt(c, i + 1, now);
    }
  }

  lemma FreshFront(c: Cache, key: Key, now: nat)
    requires Listing(c) && c.lru != [] && !ExpiredAt(c, 0, now)
    requires key in c.entries && Expired(c.entries[key], now)
    ensures Stuck(c, key, now)
  {
    assert key in Elements(c.lru);
    var j :| 0 <= j < |c.lru| && c.lru[j] == key;
  }

  lemma EmptyListing(c: Cache, now: nat)
    requires Listing(c) && c.lru == []
    ensures c.entries == Live(c.entries, now) && NoFreshBeforeExpired(c, now)
  {
    assert c.entries.Keys == {};
    assert Live(c.entries, now) == map[];
  }

  lemma FrontIsListed(c: Cache)
    requires Listing(c) && c.lru != []
    ensures c.lru[0] in c.entries
  {
    assert c.lru[0] in Elements(c.lru);
  }

  // Dropping an expired front changes neither side.
  lemma PopExpired(c: Cache, q: Cache, now: nat)
    requires Listing(c) && c.lru != [] && ExpiredAt(c, 0, now)
    requires q.entries == PopFront(c).entries && q.lru == PopFront(c).lru
    ensures Listing(q) && Live(q.entries, now) == Live(c.entries, now)
    ensures NoFreshBeforeExpired(q, now) <==> NoFreshBeforeExpired(c, now)
  {
    hide NoFreshBeforeExpired;
    Tail(c.lru);
    assert q.entries.Keys == c.entries.Keys - {c.lru[0]};
    assert Live(q.entries, now) == Live(c.entries, now);
    forall i | 0 <= i < |q.lru| ensures ExpiredAt(q, i, now) == ExpiredAt(c, i + 1, now) {
      assert q.lru[i] in Elements(q.lru);
    }
    ShiftedOrder(c, q, now);
  }

  lemma ShiftedOrder(c: Cache, q: Cache, now: nat)
    requires Listing(c) && Listing(q) && |c.lru| == |q.lru| + 1 && ExpiredAt(c, 0, now)
    requires forall i :: 0 <= i < |q.lru| ==> ExpiredAt(q, i, now) == ExpiredAt(c, i + 1, now)
    ensures NoFreshBeforeExpired(q, now) <==> NoFreshBeforeExpired(c, now)
  {
    hide Listing;
    hide ExpiredAt;
    if NoFreshBeforeExpired(c, now) {
      forall i, j | 0 <= i < j < |q.lru| && ExpiredAt(q, j, now) ensures ExpiredAt(q, i, now) {
        assert ExpiredAt(c, j + 1, now);
      }
    }
    if NoFreshBeforeExpired(q, now) {
      forall i, j | 0 <= i < j < |c.lru| && ExpiredAt(c, j, now) ensures ExpiredAt(c, i, now) {
        assert ExpiredAt(q, j - 1, now);
        if i > 0 {
          assert ExpiredAt(q, i - 1, now);
        }
      }
    }
  }

  lemma FrontFresh(c: Cache, now: nat)
    requires Listing(c) && c.lru != [] && !ExpiredAt(c, 0, now)
    ensures c.entries == Live(c.entries, now) <==> NoFreshBeforeExpired(c, now)
  {
    if c.entries == Live(c.entries, now) {
      forall j | 0 <= j < |c.lru| ensures !ExpiredAt(c, j, now) {
        assert c.lru[j] in Live(c.entries, now);
      }
    } else if NoFreshBeforeExpired(c, now) {
      forall k | k in c.entries ensures !Expired(c.entries[k], now) {
        assert k in Elements(c.lru);
        var j :| 0 <= j < |c.lru| && c.lru[j] == k;
        assert !ExpiredAt(c, j, now);
      }
      assert false;
    }
  }

  // After pruning, nothing older than the limit plus the lag is left; without lag, exactly
  // the entries within the limit are.
  lemma SurvivorsAreYoung(c: Cache, now: nat, lag: nat, clock: nat)
    requires Core(c, lag, clock)
    ensures forall k :: k in Prune(c, now).entries ==> now - Prune(c, now).entries[k].lastUsed <= TTL + lag
    ensures lag == 0 ==> Prune(c, now).entries == Live(c.entries, now)
  {
    hide Prune;
    hide Core;
    PruneKeeps(c, now, lag, clock);
    var p := Prune(c, now);
    YoungBehindFresh(p, now, lag, clock);
    if lag == 0 {
      assert forall k :: k in p.entries <==> k in Live(c.entries, now);
    }
  }

  lemma YoungBehindFresh(p: Cache, now: nat, lag: nat, clock: nat)
    requires Core(p, lag, clock)
    requires p.lru != [] ==> p.lru[0] in p.entries && !Expired(p.entries[p.lru[0]], now)
    ensures forall k :: k in p.entries ==> now - p.entries[k].lastUsed <= TTL + lag
  {
    hide NoDuplicates;
    forall k | k in p.entries
      ensures now - p.entries[k].lastUsed <= TTL + lag
    {
      assert k in Elements(p.lru);
      var j :| 0 <= j < |p.lru| && p.lru[j] == k;
      if j > 0 {
        assert InOrder(p.lru[0], p.lru[j], Stamps(p), lag);
      }
    }
  }

  // Over every run whose clock is monotone: the bound on what the cache still holds.
  lemma NoOldSurvivorInAnyRun(ops: seq<Op>, now: nat, lag: nat)
    requires TimedRun(EMPTY, ops, 0, lag)
    ensures var p := Prune(Run(EMPTY, ops).0, now);
            && (forall k :: k in p.entries ==> now - p.entries[k].lastUsed <= TTL + lag)
            && (lag == 0 ==> p.entries == Live(Run(EMPTY, ops).0.entries, now))
  {
    hide Prune;
    hide Run;
    hide Core;
    hide Counted;
    hide Live;
    hide TimedRun;
    hide ClockAfter;
    EmptyIsFine(0, lag);
    RunKeeps(EMPTY, ops, 0, lag);
    SurvivorsAreYoung(Run(EMPTY, ops).0, now, lag, ClockAfter(ops, 0));
  }

  // Pruning is exact at every time if and only if the deque is sorted by last use.
  lemma SortedIsAlwaysExact(c: Cache)
    requires Listing(c)
    ensures (forall now: nat :: Prune(c, now).entries == Live(c.entries, now)) <==> Ordered(c.lru, Stamps(c), 0)
  {
    hide Prune;
    hide Live;
    hide NoDuplicates;
    if Ordered(c.lru, Stamps(c), 0) {
      forall now: nat
        ensures Prune(c, now).entries == Live(c.entries, now)
      {
        SortedIsExact(c, now);
        PruningIsExact(c, now);
      }
    } else {
      var i, j :| 0 <= i < j < |c.lru| && !InOrder(c.lru[i], c.lru[j], Stamps(c), 0);
      assert c.lru[i] in Elements(c.lru) && c.lru[j] in Elements(c.lru);
      var now := c.entries[c.lru[j]].lastUsed + TTL + 1;
      PruningIsExact(c, now);
      assert ExpiredAt(c, j, now) && !ExpiredAt(c, i, now);
    }
  }

  lemma SortedIsExact(c: Cache, now: nat)
    requires Listing(c) && Ordered(c.lru, Stamps(c), 0)
    ensures NoFreshBeforeExpired(c, now)
  {
    hide NoDuplicates;
    forall i, j | 0 <= i < j < |c.lru| && ExpiredAt(c, j, now)
      ensures ExpiredAt(c, i, now)
    {
      assert c.lru[i] in Elements(c.lru) && c.lru[j] in Elements(c.lru);
      assert InOrder(c.lru[i], c.lru[j], Stamps(c), 0);
    }
  }

  // Two learners: the second read its clock before the first did, and took the lock after it.
  function OvertakenLearner(a: Key, b: Key): seq<Op> {
    [LearnOp(a, Local(1), 1, 1), LearnOp(b, Local(2), 0, 1)]
  }

  lemma ClockedCons(op: Op, rest: seq<Op>, clock: nat, lag: nat)
    requires Clocked(op, clock, lag) && ClockedRun(rest, After(op, clock), lag)
    ensures ClockedRun([op] + rest, clock, lag)
  {
    hide Clocked;
    hide After;
    assert ([op] + rest)[1..] == rest;
  }

  // Any one call that comes after both learners.
  lemma OvertakenIsClocked(a: Key, b: Key, rest: seq<Op>, lag: nat)
    requires lag > 0 && ClockedRun(rest, 1, lag)
    ensures ClockedRun(OvertakenLearner(a, b) + rest, 0, lag)
  {
    hide ClockedRun;
    var x, y := LearnOp(a, Local(1), 1, 1), LearnOp(b, Local(2), 0, 1);
    ClockedCons(y, rest, 1, lag);
    ClockedCons(x, [y] + rest, 0, lag);
    assert OvertakenLearner(a, b) + rest == [x] + ([y] + rest);
  }

  lemma OvertakenIsTimed(a: Key, b: Key, lag: nat)
    requires lag > 0
    ensures TimedRun(EMPTY, OvertakenLearner(a, b), 0, lag)
  {
    assert ClockedRun([], 1, lag);
    hide ClockedRun;
    OvertakenIsClocked(a, b, [], lag);
    assert OvertakenLearner(a, b) + [] == OvertakenLearner(a, b);
    hide OvertakenLearner;
    EmptyIsFine(0, lag);
    hide Inv;
    hide TimedRun;
    ClockedIsTimed(EMPTY, OvertakenLearner(a, b), 0, lag);
  }

  lemma OvertakenRun(a: Key, b: Key)
    requires a != b
    ensures Run(EMPTY, OvertakenLearner(a, b)).0.entries == map[a := Entry(Local(1), 1), b := Entry(Local(2), 0)]
    ensures Run(EMPTY, OvertakenLearner(a, b)).0.lru == [a, b]
  {
    var ops := OvertakenLearner(a, b);
    var one := Step(EMPTY, ops[0]).0;
    assert Touch([], a) == [a];
    assert EMPTY.entries[a := Entry(Local(1), 1)] == map[a := Entry(Local(1), 1)];
    assert one.entries == map[a := Entry(Local(1), 1)] && one.lru == [a];
    assert Prune(one, 1) == one;
    assert Touch([a], b) == [a, b] by {
      assert [a][1..] == [];
      assert Without([a], b) == [a];
    }
    var two := Step(one, ops[1]).0;
    assert two.entries == map[a := Entry(Local(1), 1), b := Entry(Local(2), 0)] && two.lru == [a, b];
    assert ops[1..] == [ops[1]] && ops[1..][1..] == [];
    assert Run(one, ops[1..]).0 == two;
  }

  // Pruning is exact over all runs if and only if no learner's read is below a stamp held.
  lemma PruningIsExactWithoutLagOnly(lag: nat)
    ensures lag == 0 <==>
            forall ops, now | TimedRun(EMPTY, ops, 0, lag) ::
              Prune(Run(EMPTY, ops).0, now).entries == Live(Run(EMPTY, ops).0.entries, now)
  {
    hide Run;
    hide Prune;
    hide Live;
    if lag == 0 {
      forall ops, now | TimedRun(EMPTY, ops, 0, lag)
        ensures Prune(Run(EMPTY, ops).0, now).entries == Live(Run(EMPTY, ops).0.entries, now)
      {
        NoOldSurvivorInAnyRun(ops, now, lag);
      }
    } else {
      var a, b := Key("a", 0), Key("b", 0);
      var ops := OvertakenLearner(a, b);
      OvertakenIsTimed(a, b, lag);
      OvertakenRun(a, b);
      ExpiredBehindFresh(Run(EMPTY, ops).0, a, b);
      assert Prune(Run(EMPTY, ops).0, TTL + 1).entries != Live(Run(EMPTY, ops).0.entries, TTL + 1);
    }
  }

  lemma ExpiredBehindFresh(c: Cache, a: Key, b: Key)
    requires a != b && c.lru == [a, b]
    requires c.entries == map[a := Entry(Local(1), 1), b := Entry(Local(2), 0)]
    ensures Prune(c, TTL + 1).entries != Live(c.entries, TTL + 1)
  {
    assert Prune(c, TTL + 1) == c;
    assert b in c.entries && b !in Live(c.entries, TTL + 1);
  }

  // A hit is one of the candidates, and it is what the cache held, still fresh.
  lemma HitIsACandidate(c: Cache, key: Key, candidates: seq<Target>, pruneAt: nat, stampAt: nat, lag: nat, clock: nat)
    requires Core(c, lag, clock) && Lookup(c, key, candidates, pruneAt, stampAt).1.Some?
    ensures var t := Lookup(c, key, candidates, pruneAt, stampAt).1.value;
            && t in candidates && key in c.entries && c.entries[key].target == t
            && pruneAt - c.entries[key].lastUsed <= TTL + lag
  {
    hide Prune;
    PruneKeeps(c, pruneAt, lag, clock);
    SurvivorsAreYoung(c, pruneAt, lag, clock);
  }

  /* ----- what is learned is found ----- */

  // A local or remote target that was learned is found again for 20 minutes, and not after them.
  lemma LearnedIsFound(c: Cache, key: Key, target: Target, readAt: nat, lockAt: nat, clock: nat,
                       candidates: seq<Target>, pruneAt: nat, stampAt: nat)
    requires Inv(c, 0, clock) && clock <= lockAt && readAt <= lockAt && UsedBy(c, readAt)
    requires (target.Local? || target.Remote?) && target in candidates
    ensures Lookup(Learn(c, key, target, readAt, lockAt), key, candidates, pruneAt, stampAt).1
         == if pruneAt - readAt <= 1_200_000_000_000 then Some(target) else None
  {
    hide Core;
    hide Prune;
    hide Learn;
    LearnKeeps(c, key, target, readAt, lockAt, 0, clock);
    var l := Learn(c, key, target, readAt, lockAt);
    PruneKeeps(l, pruneAt, 0, lockAt);
    SurvivorsAreYoung(l, pruneAt, 0, lockAt);
  }

  // No other kind of target is learned.
  lemma OthersAreNotLearned(c: Cache, key: Key, target: Target, readAt: nat, lockAt: nat)
    requires target.NoTarget? || target.MoeLocal? || target.MoeRemote?
    ensures Learn(c, key, target, readAt, lockAt) == c
  {}

  // A new key in a cache of 4096 fresh entries takes the place of the least recently used one.
  lemma FullCacheEvicts(c: Cache, key: Key, target: Target, readAt: nat, lockAt: nat, clock: nat)
    requires Inv(c, 0, clock) && clock <= lockAt && readAt <= lockAt && UsedBy(c, readAt)
    requires (target.Local? || target.Remote?) && key !in c.entries
    requires |c.entries| == 4096 && forall k :: k in c.entries ==> !Expired(c.entries[k], lockAt)
    ensures c.lru != []
    ensures var l := Learn(c, key, target, readAt, lockAt);
            && l.entries == (c.entries - {c.lru[0]})[key := Entry(target, readAt)]
            && l.lru == c.lru[1..] + [key] && l.stats.evicted == c.stats.evicted + 1
  {
    hide Prune;
    hide EvictOver;
    hide Core;
    hide Touch;
    hide Counted;
    hide Expired;
    CoreLists(c, 0, clock);
    NothingToPrune(c, lockAt);
    FullStamp(c, key, Entry(target, readAt), clock, lockAt);
    LearnIs(c, key, target, readAt, lockAt);
    var s := Stamp(c, key, Entry(target, readAt)).(stats := c.stats.(learned := c.stats.learned + 1));
    EvictKeeps(s, 0, lockAt);
    hide Learn;
    hide Stamp;
    EvictedOne(s);
  }

  lemma LearnIs(c: Cache, key: Key, target: Target, readAt: nat, lockAt: nat)
    requires Learnable(target) && Prune(c, lockAt) == c
    ensures Learn(c, key, target, readAt, lockAt)
         == EvictOver(Stamp(c, key, Entry(target, readAt)).(stats := c.stats.(learned := c.stats.learned + 1)))
  {
    hide EvictOver;
    hide Touch;
  }

  lemma EvictedOne(s: Cache)
    requires s.lru != [] && s.lru[0] in s.entries
    ensures EvictOne(s) == Cache(s.entries - {s.lru[0]}, s.lru[1..], s.stats.(evicted := s.stats.evicted + 1))
  {}

  lemma CoreLists(c: Cache, lag: nat, clock: nat)
    requires Core(c, lag, clock)
    ensures Listing(c)
  {}

  lemma NothingToPrune(c: Cache, now: nat)
    requires Listing(c) && |c.entries| > 0 && forall k :: k in c.entries ==> !Expired(c.entries[k], now)
    ensures Prune(c, now) == c && c.lru != [] && c.lru[0] in c.entries
  {
    SizeOfListing(c);
    FrontIsListed(c);
  }

  lemma FullStamp(c: Cache, key: Key, e: Entry, clock: nat, lockAt: nat)
    requires Core(c, 0, clock) && clock <= lockAt && e.lastUsed <= lockAt && UsedBy(c, e.lastUsed)
    requires key !in c.entries && c.lru != [] && c.lru[0] in c.entries
    ensures var s := Stamp(c, key, e).(stats := c.stats.(learned := c.stats.learned + 1));
            && Core(s, 0, lockAt) && |s.entries| == |c.entries| + 1
            && s.lru[0] == c.lru[0] && s.lru[1..] == c.lru[1..] + [key]
            && s.entries - {c.lru[0]} == (c.entries - {c.lru[0]})[key := e]
  {
    hide Core;
    hide Listing;
    CoreLists(c, 0, clock);
    var s := Stamp(c, key, e).(stats := c.stats.(learned := c.stats.learned + 1));
    NotListed(c, key);
    WithoutNothing(c.lru, key);
    CoreLater(c, 0, clock, lockAt);
    StampKeeps(c, key, e, 0, lockAt);
    CoreAlike(Stamp(c, key, e), s, 0, lockAt);
    assert s.lru == c.lru + [key];
    FrontSwapped(c.entries, c.lru[0], key, e);
  }

  lemma NotListed(c: Cache, key: Key)
    requires Listing(c) && key !in c.entries
    ensures key !in c.lru
  {
    assert key !in Elements(c.lru);
  }

  lemma FrontSwapped(entries: map<Key, Entry>, front: Key, key: Key, e: Entry)
    requires front != key
    ensures entries[key := e] - {front} == (entries - {front})[key := e]
  {}

  lemma {:induction false} WithoutNothing(lru: seq<Key>, key: Key)
    ensures key !in lru ==> Without(lru, key) == lru
    decreases |lru|
  {
    if lru != [] {
      assert forall k :: k in lru[1..] ==> k in lru;
      WithoutNothing(lru[1..], key);
    }
  }
}
