/**
 The prefix-affinity cache: a map of learned targets and a deque that lists its keys from the
 least to the most recently used, with a time limit and a capacity.
 */
module Affinity {
  import opened Results
  import opened Election

  const TTL: nat := 20 * 60 * 1_000_000_000
  const MAX_ENTRIES: nat := 4096

  datatype Key = Key(model: string, prefixHash: nat)
  datatype Entry = Entry(target: Target, lastUsed: nat)
  datatype Stats = Stats(lookups: nat, hits: nat, misses: nat, stale: nat, routes: nat,
                         stickyRoutes: nat, sessionRoutes: nat, learned: nat, evicted: nat)

  // The router's state as a value; times are in nanoseconds.
  datatype Cache = Cache(entries: map<Key, Entry>, lru: seq<Key>, stats: Stats)

  const NO_STATS := Stats(0, 0, 0, 0, 0, 0, 0, 0, 0)
  const EMPTY := Cache(map[], [], NO_STATS)

  predicate Expired(e: Entry, now: nat) {
    now - e.lastUsed > TTL
  }

  predicate Learnable(target: Target) {
    target.Local? || target.Remote?
  }

  /* ----- the operations as functions of the state ----- */

  // The deque without the first occurrence of a key.
  function Without(lru: seq<Key>, key: Key): seq<Key> {
    if lru == [] then []
    else if lru[0] == key then lru[1..]
    else [lru[0]] + Without(lru[1..], key)
  }

  function Touch(lru: seq<Key>, key: Key): seq<Key> {
    Without(lru, key) + [key]
  }

  function Drop(c: Cache, key: Key): Cache {
    c.(entries := c.entries - {key}, lru := Without(c.lru, key))
  }

  function PopFront(c: Cache): Cache
    requires c.lru != []
  {
    c.(entries := c.entries - {c.lru[0]}, lru := c.lru[1..])
  }

  function Prune(c: Cache, now: nat): Cache
    decreases |c.lru|
  {
    if c.lru == [] then c
    else if c.lru[0] !in c.entries then Prune(PopFront(c), now)
    else if Expired(c.entries[c.lru[0]], now) then
      Prune(PopFront(c).(stats := c.stats.(stale := c.stats.stale + 1)), now)
    else c
  }

  function EvictOne(c: Cache): Cache
    requires c.lru != []
  {
    var evicted := if c.lru[0] in c.entries then c.stats.evicted + 1 else c.stats.evicted;
    PopFront(c).(stats := c.stats.(evicted := evicted))
  }

  function EvictOver(c: Cache): Cache
    decreases |c.lru|
  {
    if |c.entries| <= MAX_ENTRIES || c.lru == [] then c else EvictOver(EvictOne(c))
  }

  // `pruneAt` and `stampAt` are the two clock reads inside the lock.
  function Lookup(c: Cache, key: Key, candidates: seq<Target>, pruneAt: nat, stampAt: nat): (Cache, Option<Target>) {
    var p := Prune(c, pruneAt);
    var s := p.stats.(lookups := p.stats.lookups + 1);
    if key !in p.entries then (p.(stats := s.(misses := s.misses + 1)), None)
    else
      var target := p.entries[key].target;
      if target !in candidates then
        (Drop(p, key).(stats := s.(stale := s.stale + 1, misses := s.misses + 1)), None)
      else
        (Cache(p.entries[key := Entry(target, stampAt)], Touch(p.lru, key),
               s.(hits := s.hits + 1, routes := s.routes + 1)), Some(target))
  }

  // `readAt` is the clock read before the lock, `lockAt` the one inside it.
  function Learn(c: Cache, key: Key, target: Target, readAt: nat, lockAt: nat): Cache {
    if !Learnable(target) then c
    else
      var p := Prune(c, lockAt);
      EvictOver(Cache(p.entries[key := Entry(target, readAt)], Touch(p.lru, key),
                      p.stats.(learned := p.stats.learned + 1)))
  }

  function Forget(c: Cache, key: Key, target: Target): Cache {
    if key in c.entries && c.entries[key].target == target then
      Drop(c, key).(stats := c.stats.(stale := c.stats.stale + 1))
    else c
  }

  /* ----- the router, changed in place under its lock ----- */

  class AffinityRouter {
    var entries: map<Key, Entry>
    var lru: seq<Key>
    var stats: Stats
    const prefixEnabled: bool
    const stickyEnabled: bool

    constructor (prefixEnabled: bool, stickyEnabled: bool)
      ensures Value() == EMPTY
      ensures this.prefixEnabled == prefixEnabled && this.stickyEnabled == stickyEnabled
    {
      entries, lru, stats := map[], [], NO_STATS;
      this.prefixEnabled, this.stickyEnabled := prefixEnabled, stickyEnabled;
    }

    function Value(): Cache
      reads this
    {
      Cache(entries, lru, stats)
    }

    method PruneExpired(now: nat)
      modifies this
      ensures Value() == Prune(old(Value()), now)
    {
      while lru != []
        invariant Prune(Value(), now) == Prune(old(Value()), now)
        decreases |lru|
      {
        var front := lru[0];
        if front in entries {
          if now - entries[front].lastUsed > TTL {
            lru := lru[1..];
            entries := entries - {front};
            stats := stats.(stale := stats.stale + 1);
          } else {
            break;
          }
        } else {
          assert entries - {front} == entries;
          lru := lru[1..];
        }
      }
    }

    // Removes the first occurrence at the position a scan finds.
    method RemoveFromLru(key: Key)
      modifies this`lru
      ensures lru == Without(old(lru), key)
    {
      var pos := 0;
      while pos < |lru| && lru[pos] != key
        invariant pos <= |lru| && lru == old(lru)
        invariant Without(lru, key) == lru[..pos] + Without(lru[pos..], key)
      {
        assert lru[pos..][1..] == lru[pos + 1..];
        assert lru[..pos] + [lru[pos]] == lru[..pos + 1];
        pos := pos + 1;
      }
      if pos < |lru| {
        lru := lru[..pos] + lru[pos + 1..];
      } else {
        assert lru[..pos] + [] == lru;
      }
    }

    method TouchKey(key: Key)
      modifies this`lru
      ensures lru == Touch(old(lru), key)
    {
      RemoveFromLru(key);
      lru := lru + [key];
    }

    method RemoveKey(key: Key)
      modifies this`lru, this`entries
      ensures entries == old(entries) - {key} && lru == Without(old(lru), key)
    {
      entries := entries - {key};
      RemoveFromLru(key);
    }

    method LookupTarget(key: Key, candidates: seq<Target>, pruneAt: nat, stampAt: nat) returns (r: Option<Target>)
      modifies this
      ensures if prefixEnabled then (Value(), r) == Lookup(old(Value()), key, candidates, pruneAt, stampAt)
              else Value() == old(Value()) && r == None
    {
      if !prefixEnabled {
        return None;
      }
      PruneExpired(pruneAt);
      stats := stats.(lookups := stats.lookups + 1);
      if key !in entries {
        stats := stats.(misses := stats.misses + 1);
        return None;
      }
      var target := entries[key].target;
      if target !in candidates {
        RemoveKey(key);
        stats := stats.(stale := stats.stale + 1, misses := stats.misses + 1);
        return None;
      }
      TouchKey(key);
      entries := entries[key := Entry(target, stampAt)];
      stats := stats.(hits := stats.hits + 1, routes := stats.routes + 1);
      r := Some(target);
    }

    method EvictOverCapacity()
      modifies this
      ensures Value() == EvictOver(old(Value()))
    {
      while |entries| > MAX_ENTRIES
        invariant EvictOver(Value()) == EvictOver(old(Value()))
        decreases |lru|
      {
        if lru == [] {
          break;
        }
        ghost var before := Value();
        var oldest := lru[0];
        lru := lru[1..];
        if oldest in entries {
          stats := stats.(evicted := stats.evicted + 1);
        }
        entries := entries - {oldest};
        assert Value() == EvictOne(before);
      }
    }

    method LearnTarget(key: Key, target: Target, readAt: nat, lockAt: nat)
      modifies this
      ensures Value() == if prefixEnabled then Learn(old(Value()), key, target, readAt, lockAt) else old(Value())
    {
      hide Learnable;
      hide Prune;
      hide Touch;
      hide EvictOver;
      if !prefixEnabled || !Learnable(target) {
        return;
      }
      PruneExpired(lockAt);
      entries := entries[key := Entry(target, readAt)];
      TouchKey(key);
      stats := stats.(learned := stats.learned + 1);
      EvictOverCapacity();
    }

    method ForgetTarget(key: Key, target: Target)
      modifies this
      ensures Value() == if prefixEnabled then Forget(old(Value()), key, target) else old(Value())
    {
      if !prefixEnabled {
        return;
      }
      if key in entries && entries[key].target == target {
        RemoveKey(key);
        stats := stats.(stale := stats.stale + 1);
      }
    }

    // The statistics after pruning, with the number of live entries and the two switches.
    method StatsSnapshot(now: nat) returns (snapshot: Stats, live: nat, prefix: bool, sticky: bool)
      modifies this
      ensures Value() == Prune(old(Value()), now)
      ensures snapshot == stats && live == |entries| && prefix == prefixEnabled && sticky == stickyEnabled
    {
      PruneExpired(now);
      snapshot, live, prefix, sticky := stats, |entries|, prefixEnabled, stickyEnabled;
    }

    method RecordStickyRoute()
      modifies this`stats
      ensures stats == old(stats).(stickyRoutes := old(stats).stickyRoutes + 1)
    {
      stats := stats.(stickyRoutes := stats.stickyRoutes + 1);
    }

    method RecordSessionRoute()
      modifies this`stats
      ensures stats == old(stats).(sessionRoutes := old(stats).sessionRoutes + 1)
    {
      stats := stats.(sessionRoutes := stats.sessionRoutes + 1);
    }
  }
}
