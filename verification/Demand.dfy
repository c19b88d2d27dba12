/** Model demand, merged from gossip by pointwise maximum. */
module Demand {
  datatype Entry = Entry(lastActive: nat, requests: nat)
  type Demands = map<string, Entry>

  const NO_DEMAND := Entry(0, 0)

  function Max(a: nat, b: nat): nat {
    if a > b then a else b
  }

  function Higher(a: Entry, b: Entry): Entry {
    Entry(Max(a.lastActive, b.lastActive), Max(a.requests, b.requests))
  }

  function EntryOf(d: Demands, model: string): Entry {
    if model in d then d[model] else NO_DEMAND
  }

  function Merge(ours: Demands, theirs: Demands): Demands {
    map m | m in ours.Keys + theirs.Keys :: Higher(EntryOf(ours, m), EntryOf(theirs, m))
  }

  // The table a node merges into, in place.
  class DemandTable {
    var entries: Demands

    constructor (entries: Demands)
      ensures this.entries == entries
    {
      this.entries := entries;
    }

    // Whatever order their entries come in.
    method MergeDemand(theirs: Demands)
      modifies this
      ensures entries == Merge(old(entries), theirs)
    {
      hide Merge;
      hide Higher;
      MergeWithNothing(entries);
      assert theirs - theirs.Keys == map[];
      var left := theirs.Keys;
      while left != {}
        invariant left <= theirs.Keys
        invariant entries == Merge(old(entries), theirs - left)
        decreases |left|
      {
        var model :| model in left;
        MergeOne(old(entries), theirs, left, model);
        var entry := if model in entries then entries[model] else NO_DEMAND;
        entries := entries[model := Higher(entry, theirs[model])];
        left := left - {model};
      }
      assert theirs - {} == theirs;
    }
  }

  // One more entry of theirs merged.
  lemma MergeOne(ours: Demands, theirs: Demands, left: set<string>, model: string)
    requires left <= theirs.Keys && model in left
    ensures var before := Merge(ours, theirs - left);
            Merge(ours, theirs - (left - {model})) == before[model := Higher(EntryOf(before, model), theirs[model])]
  {
    hide Higher;
    var before, after := Merge(ours, theirs - left), Merge(ours, theirs - (left - {model}));
    MergeEntry(ours, theirs - left, model);
    hide Merge;
    MergeKeys(ours, theirs - left);
    MergeKeys(ours, theirs - (left - {model}));
    HigherThanNothing(EntryOf(ours, model));
    forall m | m in after
      ensures m in before[model := Higher(EntryOf(before, model), theirs[model])]
      ensures after[m] == before[model := Higher(EntryOf(before, model), theirs[model])][m]
    {
      MergeEntry(ours, theirs - left, m);
      MergeEntry(ours, theirs - (left - {model}), m);
    }
  }

  lemma HigherThanNothing(e: Entry)
    ensures Higher(e, NO_DEMAND) == e
  {}

  lemma MergeWithNothing(a: Demands)
    ensures Merge(a, map[]) == a
  {
    assert forall m :: m in a ==> Higher(a[m], NO_DEMAND) == a[m];
  }

  lemma MergeKeys(a: Demands, b: Demands)
    ensures Merge(a, b).Keys == a.Keys + b.Keys
  {}

  lemma MergeEntry(a: Demands, b: Demands, m: string)
    ensures EntryOf(Merge(a, b), m) == Higher(EntryOf(a, m), EntryOf(b, m))
  {}

  /* ----- merging is a join ----- */

  // `a` has no model that `b` lacks, and nothing higher.
  predicate Below(a: Demands, b: Demands) {
    forall m :: m in a ==> m in b && a[m].lastActive <= b[m].lastActive && a[m].requests <= b[m].requests
  }

  lemma MergeIsIdempotent(a: Demands)
    ensures Merge(a, a) == a
  {
    assert forall m :: m in a ==> Higher(a[m], a[m]) == a[m];
  }

  lemma MergeIsCommutative(a: Demands, b: Demands)
    ensures Merge(a, b) == Merge(b, a)
  {
    assert forall m :: m in Merge(a, b) <==> m in Merge(b, a);
  }

  lemma MergeIsAssociative(a: Demands, b: Demands, c: Demands)
    ensures Merge(Merge(a, b), c) == Merge(a, Merge(b, c))
  {
    hide Merge;
    var l, r := Merge(Merge(a, b), c), Merge(a, Merge(b, c));
    MergeKeys(a, b);
    MergeKeys(b, c);
    MergeKeys(Merge(a, b), c);
    MergeKeys(a, Merge(b, c));
    forall m | m in l ensures m in r && l[m] == r[m] {
      MergeEntry(a, b, m);
      MergeEntry(b, c, m);
      MergeEntry(Merge(a, b), c, m);
      MergeEntry(a, Merge(b, c), m);
    }
    assert l.Keys == r.Keys;
  }

  // The merge is the least table above both.
  lemma MergeIsLeastUpperBound(a: Demands, b: Demands, c: Demands)
    ensures Below(a, Merge(a, b)) && Below(b, Merge(a, b))
    ensures Below(Merge(a, b), c) <==> Below(a, c) && Below(b, c)
  {
    if Below(Merge(a, b), c) {
      forall m | m in a
        ensures m in c && a[m].lastActive <= c[m].lastActive && a[m].requests <= c[m].requests
      {
        assert m in Merge(a, b);
      }
      forall m | m in b
        ensures m in c && b[m].lastActive <= c[m].lastActive && b[m].requests <= c[m].requests
      {
        assert m in Merge(a, b);
      }
    }
  }

  lemma BelowIsTransitive(a: Demands, b: Demands, c: Demands)
    requires Below(a, b) && Below(b, c)
    ensures Below(a, c)
  {}

  lemma BelowIsAntisymmetric(a: Demands, b: Demands)
    requires Below(a, b) && Below(b, a)
    ensures a == b
  {
    forall m ensures m in a <==> m in b {}
    forall m | m in a ensures a[m] == b[m] {}
  }

  lemma BelowIsReflexive(a: Demands)
    ensures Below(a, a)
  {}

  /* ----- nodes, snapshots and runs ----- */

  datatype Snapshot = Snapshot(sender: nat, entries: Demands)

  // Snapshots sent are kept; delivering one is choosing it again, at any time and any number
  // of times, so loss, duplication and reordering are all runs of this machine. `all` is the
  // maximum of every local update so far.
  datatype Mesh = Mesh(nodes: seq<Demands>, sent: seq<Snapshot>, all: Demands)

  datatype Step =
    | Raise(node: nat, update: Demands)
    | Send(node: nat)
    | Deliver(node: nat, snapshot: nat)

  predicate Enabled(s: Mesh, step: Step) {
    match step
    case Raise(node, _) => node < |s.nodes|
    case Send(node) => node < |s.nodes|
    case Deliver(node, snapshot) => node < |s.nodes| && snapshot < |s.sent|
  }

  function Next(s: Mesh, step: Step): Mesh
    requires Enabled(s, step)
  {
    match step
    case Raise(node, update) =>
      s.(nodes := s.nodes[node := Merge(s.nodes[node], update)], all := Merge(s.all, update))
    case Send(node) => s.(sent := s.sent + [Snapshot(node, s.nodes[node])])
    case Deliver(node, snapshot) =>
      s.(nodes := s.nodes[node := Merge(s.nodes[node], s.sent[snapshot].entries)])
  }

  // A step that is not enabled does nothing.
  function Run(s: Mesh, steps: seq<Step>): Mesh
    decreases |steps|
  {
    if steps == [] then s else Run(if Enabled(s, steps[0]) then Next(s, steps[0]) else s, steps[1..])
  }

  function Start(n: nat): Mesh {
    Mesh(seq(n, _ => map[]), [], map[])
  }

  function JoinOf(nodes: seq<Demands>): Demands {
    if nodes == [] then map[] else Merge(nodes[0], JoinOf(nodes[1..]))
  }

  predicate Bounded(s: Mesh) {
    && (forall i :: 0 <= i < |s.nodes| ==> Below(s.nodes[i], s.all))
    && (forall k :: 0 <= k < |s.sent| ==>
          s.sent[k].sender < |s.nodes| && Below(s.sent[k].entries, s.nodes[s.sent[k].sender]))
  }

  // Every update is still held by its node.
  predicate Inv(s: Mesh) {
    Bounded(s) && s.all == JoinOf(s.nodes)
  }

  predicate Grown(s: Mesh, t: Mesh) {
    && |t.nodes| == |s.nodes| && s.sent <= t.sent
    && forall i :: 0 <= i < |s.nodes| ==> Below(s.nodes[i], t.nodes[i])
  }

  lemma {:induction false} JoinIsUpperBound(nodes: seq<Demands>, c: Demands)
    ensures forall i :: 0 <= i < |nodes| ==> Below(nodes[i], JoinOf(nodes))
    ensures (forall i :: 0 <= i < |nodes| ==> Below(nodes[i], c)) ==> Below(JoinOf(nodes), c)
    decreases |nodes|
  {
    hide Below;
    hide Merge;
    if nodes == [] {
      EmptyIsBelow(c);
    } else {
      var rest := JoinOf(nodes[1..]);
      JoinIsUpperBound(nodes[1..], c);
      MergeIsLeastUpperBound(nodes[0], rest, c);
      forall i | 0 <= i < |nodes| ensures Below(nodes[i], JoinOf(nodes)) {
        if i > 0 {
          assert nodes[1..][i - 1] == nodes[i];
          BelowIsTransitive(nodes[i], rest, JoinOf(nodes));
        }
      }
      assert forall i :: 0 <= i < |nodes[1..]| ==> nodes[1..][i] == nodes[i + 1];
    }
  }

  lemma EmptyIsBelow(c: Demands)
    ensures Below(map[], c)
  {}

  lemma {:induction false} JoinOfUpdated(nodes: seq<Demands>, i: nat, update: Demands)
    requires i < |nodes|
    ensures JoinOf(nodes[i := Merge(nodes[i], update)]) == Merge(JoinOf(nodes), update)
    decreases |nodes|
  {
    hide Merge;
    var now := nodes[i := Merge(nodes[i], update)];
    var rest := JoinOf(nodes[1..]);
    if i == 0 {
      assert now[1..] == nodes[1..];
      MergeIsAssociative(nodes[0], update, rest);
      MergeIsCommutative(update, rest);
      MergeIsAssociative(nodes[0], rest, update);
    } else {
      assert now[1..] == nodes[1..][i - 1 := Merge(nodes[1..][i - 1], update)];
      JoinOfUpdated(nodes[1..], i - 1, update);
      MergeIsAssociative(nodes[0], rest, update);
    }
  }

  lemma MergeAbsorbs(a: Demands, b: Demands)
    requires Below(b, a)
    ensures Merge(a, b) == a
  {
    assert forall m :: m in Merge(a, b) <==> m in a;
  }

  // One node rises by `update`; everything known stays known.
  lemma RaisedNode(s: Mesh, node: nat, update: Demands, t: Mesh)
    requires Inv(s) && node < |s.nodes|
    requires t == Mesh(s.nodes[node := Merge(s.nodes[node], update)], s.sent, Merge(s.all, update))
    ensures Inv(t) && Grown(s, t)
  {
    hide Merge;
    hide Below;
    hide JoinOf;
    JoinOfUpdated(s.nodes, node, update);
    JoinIsUpperBound(t.nodes, map[]);
    MergeIsLeastUpperBound(s.nodes[node], update, map[]);
    forall i | 0 <= i < |s.nodes| ensures Below(s.nodes[i], t.nodes[i]) {
      BelowIsReflexive(s.nodes[i]);
    }
    forall k | 0 <= k < |t.sent|
      ensures t.sent[k].sender < |t.nodes| && Below(t.sent[k].entries, t.nodes[t.sent[k].sender])
    {
      BelowIsTransitive(t.sent[k].entries, s.nodes[t.sent[k].sender], t.nodes[t.sent[k].sender]);
    }
  }

  lemma StepKeeps(s: Mesh, step: Step)
    requires Inv(s) && Enabled(s, step)
    ensures Inv(Next(s, step)) && Grown(s, Next(s, step))
    ensures !step.Raise? ==> Next(s, step).all == s.all
  {
    hide Merge;
    hide Below;
    hide JoinOf;
    match step {
      case Raise(node, update) => RaisedNode(s, node, update, Next(s, step));
      case Send(node) =>
        forall i | 0 <= i < |s.nodes| ensures Below(s.nodes[i], s.nodes[i]) {
          BelowIsReflexive(s.nodes[i]);
        }
      case Deliver(node, snapshot) =>
        var update := s.sent[snapshot].entries;
        BelowIsTransitive(update, s.nodes[s.sent[snapshot].sender], s.all);
        MergeAbsorbs(s.all, update);
        RaisedNode(s, node, update, Next(s, step));
    }
  }

  lemma GrownIsTransitive(s: Mesh, t: Mesh, u: Mesh)
    requires Grown(s, t) && Grown(t, u)
    ensures Grown(s, u)
  {
    hide Below;
    forall i | 0 <= i < |s.nodes| ensures Below(s.nodes[i], u.nodes[i]) {
      BelowIsTransitive(s.nodes[i], t.nodes[i], u.nodes[i]);
    }
  }

  lemma GrownIsReflexive(s: Mesh)
    ensures Grown(s, s)
  {}

  // Over every run: no entry of any node ever falls, and none exceeds the maximum of all local
  // updates, which the nodes together always still hold.
  lemma {:induction false} RunKeeps(s: Mesh, steps: seq<Step>)
    requires Inv(s)
    ensures Inv(Run(s, steps)) && Grown(s, Run(s, steps))
    ensures (forall k :: 0 <= k < |steps| ==> !steps[k].Raise?) ==> Run(s, steps).all == s.all
    decreases |steps|
  {
    hide Inv;
    hide Grown;
    hide Next;
    hide Enabled;
    if steps == [] {
      GrownIsReflexive(s);
    } else {
      var t := if Enabled(s, steps[0]) then Next(s, steps[0]) else s;
      if Enabled(s, steps[0]) {
        StepKeeps(s, steps[0]);
      } else {
        GrownIsReflexive(s);
      }
      RunKeeps(t, steps[1..]);
      GrownIsTransitive(s, t, Run(t, steps[1..]));
      assert forall k :: 0 <= k < |steps[1..]| ==> steps[1..][k] == steps[k + 1];
    }
  }

  lemma {:induction false} StartKeeps(n: nat)
    ensures Inv(Start(n))
  {
    JoinIsUpperBound(Start(n).nodes, map[]);
    BelowIsAntisymmetric(JoinOf(Start(n).nodes), map[]);
  }

  lemma GrownNode(s: Mesh, t: Mesh, i: nat)
    requires (Grown(s, t) || s == t) && i < |s.nodes|
    ensures Below(s.nodes[i], t.nodes[i])
  {}

  /* ----- what reaches a node, directly or through others ----- */

  // For each node and each snapshot: the nodes whose tables of the beginning went into it.
  datatype Word = Word(known: seq<set<nat>>, carried: seq<set<nat>>)

  predicate Sized(w: Word, s: Mesh) {
    |w.known| == |s.nodes| && |w.carried| == |s.sent|
  }

  function Begin(s: Mesh): (w: Word)
    ensures Sized(w, s)
  {
    Word(seq(|s.nodes|, i requires 0 <= i < |s.nodes| => {i}), seq(|s.sent|, _ => {}))
  }

  function Told(w: Word, s: Mesh, step: Step): (r: Word)
    requires Sized(w, s) && Enabled(s, step)
    ensures Sized(r, Next(s, step))
  {
    match step
    case Raise(_, _) => w
    case Send(node) => w.(carried := w.carried + [w.known[node]])
    case Deliver(node, snapshot) => w.(known := w.known[node := w.known[node] + w.carried[snapshot]])
  }

  function ToldAll(w: Word, s: Mesh, steps: seq<Step>): (r: Word)
    requires Sized(w, s)
    ensures Sized(r, Run(s, steps))
    decreases |steps|
  {
    if steps == [] then w
    else if Enabled(s, steps[0]) then ToldAll(Told(w, s, steps[0]), Next(s, steps[0]), steps[1..])
    else ToldAll(w, s, steps[1..])
  }

  // A table of `sender` of the beginning of the run, or a later one, has reached `node` by its
  // end, directly or through other nodes.
  predicate Reaches(s: Mesh, steps: seq<Step>, node: nat, sender: nat) {
    var w := ToldAll(Begin(s), s, steps);
    node < |w.known| && sender in w.known[node]
  }

  // A table holds those of the given nodes' first tables.
  predicate HoldsAll(known: set<nat>, first: seq<Demands>, d: Demands) {
    forall x: nat :: x in known ==> x < |first| && Below(first[x], d)
  }

  lemma HigherHoldsAll(known: set<nat>, first: seq<Demands>, d: Demands, e: Demands)
    requires HoldsAll(known, first, d) && Below(d, e)
    ensures HoldsAll(known, first, e)
  {
    hide Below;
    forall x: nat | x in known
      ensures x < |first| && Below(first[x], e)
    {
      BelowIsTransitive(first[x], d, e);
    }
  }

  // Whatever went into a table or a snapshot is in it.
  predicate Held(w: Word, first: seq<Demands>, s: Mesh)
    requires Sized(w, s)
  {
    && (forall i :: 0 <= i < |w.known| ==> HoldsAll(w.known[i], first, s.nodes[i]))
    && forall k :: 0 <= k < |w.carried| ==> HoldsAll(w.carried[k], first, s.sent[k].entries)
  }

  lemma TellingKeeps(w: Word, first: seq<Demands>, s: Mesh, step: Step)
    requires Sized(w, s) && Enabled(s, step) && Held(w, first, s)
    ensures Held(Told(w, s, step), first, Next(s, step))
  {
    match step {
      case Raise(node, update) =>
        MergeIsLeastUpperBound(s.nodes[node], update, map[]);
        hide Merge;
        HigherHoldsAll(w.known[node], first, s.nodes[node], Merge(s.nodes[node], update));
      case Send(_) =>
      case Deliver(node, snapshot) =>
        var entries := s.sent[snapshot].entries;
        var merged := Merge(s.nodes[node], entries);
        MergeIsLeastUpperBound(s.nodes[node], entries, map[]);
        hide Merge;
        HigherHoldsAll(w.known[node], first, s.nodes[node], merged);
        HigherHoldsAll(w.carried[snapshot], first, entries, merged);
        assert HoldsAll(w.known[node] + w.carried[snapshot], first, merged);
    }
  }

  lemma {:induction false} ToldIsHeld(w: Word, first: seq<Demands>, s: Mesh, steps: seq<Step>)
    requires Sized(w, s) && Held(w, first, s)
    ensures Held(ToldAll(w, s, steps), first, Run(s, steps))
    decreases |steps|
  {
    hide Held;
    hide Told;
    hide Next;
    if steps != [] {
      if Enabled(s, steps[0]) {
        TellingKeeps(w, first, s, steps[0]);
        ToldIsHeld(Told(w, s, steps[0]), first, Next(s, steps[0]), steps[1..]);
      } else {
        ToldIsHeld(w, first, s, steps[1..]);
      }
    }
  }

  // What has reached a node it holds.
  lemma ReachedIsHeld(s: Mesh, steps: seq<Step>, node: nat, sender: nat)
    requires Reaches(s, steps, node, sender)
    ensures sender < |s.nodes| && node < |Run(s, steps).nodes|
    ensures Below(s.nodes[sender], Run(s, steps).nodes[node])
  {
    hide Below;
    hide Run;
    hide ToldAll;
    forall i | 0 <= i < |s.nodes|
      ensures Below(s.nodes[i], s.nodes[i])
    {
      BelowIsReflexive(s.nodes[i]);
    }
    ToldIsHeld(Begin(s), s.nodes, s, steps);
    assert HoldsAll(ToldAll(Begin(s), s, steps).known[node], s.nodes, Run(s, steps).nodes[node]);
  }

  // In the run some step delivers to `node` a snapshot of `sender` sent after the run began.
  predicate Hears(s: Mesh, steps: seq<Step>, node: nat, sender: nat) {
    exists k :: 0 <= k < |steps| && HearsAt(s, steps, k, node, sender)
  }

  predicate HearsAt(s: Mesh, steps: seq<Step>, k: nat, node: nat, sender: nat)
    requires k < |steps|
  {
    var before := Run(s, steps[..k]);
    && steps[k].Deliver? && steps[k].node == node && Enabled(before, steps[k])
    && steps[k].snapshot >= |s.sent| && before.sent[steps[k].snapshot].sender == sender
  }

  // Every node knows itself, and every snapshot sent from position `since` on carries its sender.
  predicate Own(w: Word, s: Mesh, since: nat)
    requires Sized(w, s)
  {
    && (forall i :: 0 <= i < |w.known| ==> i in w.known[i])
    && forall k :: since <= k < |w.carried| ==> s.sent[k].sender in w.carried[k]
  }

  lemma OwnStep(w: Word, s: Mesh, step: Step, since: nat)
    requires Sized(w, s) && Own(w, s, since) && Enabled(s, step)
    ensures Own(Told(w, s, step), Next(s, step), since)
    ensures Growing(w.known, Told(w, s, step).known)
  {
    hide Merge;
  }

  predicate Growing(a: seq<set<nat>>, b: seq<set<nat>>) {
    |a| == |b| && forall i :: 0 <= i < |a| ==> a[i] <= b[i]
  }

  lemma {:induction false} OwnKept(w: Word, s: Mesh, steps: seq<Step>, since: nat)
    requires Sized(w, s) && Own(w, s, since)
    ensures Own(ToldAll(w, s, steps), Run(s, steps), since)
    ensures Growing(w.known, ToldAll(w, s, steps).known)
    decreases |steps|
  {
    hide Told;
    hide Next;
    hide Own;
    hide Enabled;
    if steps != [] {
      if Enabled(s, steps[0]) {
        OwnStep(w, s, steps[0], since);
        OwnKept(Told(w, s, steps[0]), Next(s, steps[0]), steps[1..], since);
      } else {
        OwnKept(w, s, steps[1..], since);
      }
    }
  }

  lemma {:induction false} ToldSplits(w: Word, s: Mesh, a: seq<Step>, b: seq<Step>)
    requires Sized(w, s)
    ensures ToldAll(w, s, a + b) == ToldAll(ToldAll(w, s, a), Run(s, a), b)
    decreases |a|
  {
    hide Next;
    hide Enabled;
    hide Told;
    if a == [] {
      assert a + b == b;
    } else {
      assert (a + b)[1..] == a[1..] + b;
      if Enabled(s, a[0]) {
        ToldSplits(Told(w, s, a[0]), Next(s, a[0]), a[1..], b);
      } else {
        ToldSplits(w, s, a[1..], b);
      }
    }
  }

  // Hearing a sender is one way for its table to reach a node.
  lemma HeardReaches(s: Mesh, steps: seq<Step>, node: nat, sender: nat)
    requires Hears(s, steps, node, sender)
    ensures Reaches(s, steps, node, sender)
  {
    hide Merge;
    hide Run;
    hide ToldAll;
    var k :| 0 <= k < |steps| && HearsAt(s, steps, k, node, sender);
    var before, w := Run(s, steps[..k]), ToldAll(Begin(s), s, steps[..k]);
    OwnKept(Begin(s), s, steps[..k], |s.sent|);
    assert sender in w.carried[steps[k].snapshot];
    assert steps == steps[..k] + ([steps[k]] + steps[k + 1..]);
    ToldSplits(Begin(s), s, steps[..k], [steps[k]] + steps[k + 1..]);
    ToldOne(w, before, steps[k], steps[k + 1..]);
    var r := Told(w, before, steps[k]);
    assert sender in r.known[node];
    OwnKept(r, Next(before, steps[k]), steps[k + 1..], |s.sent|);
    assert r.known[node] <= ToldAll(r, Next(before, steps[k]), steps[k + 1..]).known[node];
  }

  lemma ToldOne(w: Word, s: Mesh, step: Step, rest: seq<Step>)
    requires Sized(w, s) && Enabled(s, step)
    ensures ToldAll(w, s, [step] + rest) == ToldAll(Told(w, s, step), Next(s, step), rest)
  {
    hide Next;
    hide Told;
    assert ([step] + rest)[1..] == rest;
  }

  // Having heard a sender, a node holds at least what the sender held when the run began.
  lemma HeardIsHeld(s: Mesh, steps: seq<Step>, node: nat, sender: nat)
    requires Hears(s, steps, node, sender)
    ensures sender < |s.nodes| && node < |Run(s, steps).nodes|
    ensures Below(s.nodes[sender], Run(s, steps).nodes[node])
  {
    hide Hears;
    hide Run;
    HeardReaches(s, steps, node, sender);
    ReachedIsHeld(s, steps, node, sender);
  }

  // Once updates have ceased and the table of every other node has reached a node, directly or
  // through others, its table is the maximum of all updates ever made, the same on all such nodes.
  lemma GossipConverges(n: nat, history: seq<Step>, steps: seq<Step>, node: nat)
    requires node < n
    requires forall k :: 0 <= k < |steps| ==> !steps[k].Raise?
    requires forall sender :: 0 <= sender < n && sender != node ==> Reaches(Run(Start(n), history), steps, node, sender)
    ensures var s := Run(Start(n), history);
            var t := Run(s, steps);
            |t.nodes| == n && t.nodes[node] == s.all == t.all
  {
    hide Below;
    hide Merge;
    hide JoinOf;
    hide Run;
    hide Reaches;
    StartKeeps(n);
    RunKeeps(Start(n), history);
    var s := Run(Start(n), history);
    RunKeeps(s, steps);
    var t := Run(s, steps);
    forall i | 0 <= i < |s.nodes| ensures Below(s.nodes[i], t.nodes[node]) {
      if i == node {
        GrownNode(s, t, i);
      } else {
        ReachedIsHeld(s, steps, node, i);
      }
    }
    JoinIsUpperBound(s.nodes, t.nodes[node]);
    BelowIsAntisymmetric(t.nodes[node], s.all);
  }
}
