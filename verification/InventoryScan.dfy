/** The single-flight inventory scan: concurrent callers share one scan and all get its answer. */
module InventoryScan {
  import opened Results

  type Caller = nat
  type Snapshot = nat

  // What a failed scan answers.
  const DEFAULT: Snapshot := 0

  // A scan task: scanning, then one locked step that takes the waiters, then delivering to
  // them one by one outside the lock.
  datatype Task = Scanning | Delivering(waiters: seq<Caller>, snapshot: Snapshot)

  datatype Answer = Answer(caller: Caller, snapshot: Snapshot)

  // The shared fields, the tasks, and every answer sent so far.
  datatype State = State(running: bool, waiters: seq<Caller>, tasks: seq<Task>, answers: seq<Answer>, called: nat)

  const START := State(false, [], [], [], 0)

  datatype Step =
    | Call
    | Finish(task: nat, scan: Option<Snapshot>)
    | Send(task: nat)

  predicate Enabled(s: State, step: Step) {
    match step
    case Call => true
    case Finish(task, _) => task < |s.tasks| && s.tasks[task].Scanning?
    case Send(task) => task < |s.tasks| && s.tasks[task].Delivering? && s.tasks[task].waiters != []
  }

  // Callers are numbered in the order they take the lock. A call enrols, and starts a scan
  // unless one runs; finishing clears the flag and takes all waiters in one locked step.
  function Next(s: State, step: Step): State
    requires Enabled(s, step)
  {
    match step
    case Call =>
      State(true, s.waiters + [s.called], if s.running then s.tasks else s.tasks + [Scanning], s.answers, s.called + 1)
    case Finish(task, scan) =>
      s.(running := false, waiters := [], tasks := s.tasks[task := Delivering(s.waiters, scan.GetOr(DEFAULT))])
    case Send(task) =>
      var t := s.tasks[task];
      s.(tasks := s.tasks[task := t.(waiters := t.waiters[1..])],
         answers := s.answers + [Answer(t.waiters[0], t.snapshot)])
  }

  // A step that is not enabled does nothing.
  function After(s: State, step: Step): State {
    if Enabled(s, step) then Next(s, step) else s
  }

  function Run(s: State, steps: seq<Step>): State
    decreases |steps|
  {
    if steps == [] then s else Run(After(s, steps[0]), steps[1..])
  }

  // The two locked sections, on the shared fields.
  class ApiInner {
    var inventoryScanRunning: bool
    var inventoryScanWaiters: seq<Caller>

    constructor ()
      ensures !inventoryScanRunning && inventoryScanWaiters == []
    {
      inventoryScanRunning, inventoryScanWaiters := false, [];
    }

    // The shared fields of a state of the machine.
    ghost predicate Shows(s: State)
      reads this
    {
      s.running == inventoryScanRunning && s.waiters == inventoryScanWaiters
    }

    // True when the caller has to start the scan.
    method Enrol(caller: Caller) returns (spawn: bool)
      modifies this
      ensures spawn == !old(inventoryScanRunning)
      ensures inventoryScanRunning && inventoryScanWaiters == old(inventoryScanWaiters) + [caller]
      ensures forall s :: old(Shows(s)) && s.called == caller ==>
                Shows(Next(s, Call)) && Next(s, Call).tasks == s.tasks + if spawn then [Scanning] else []
    {
      spawn := !inventoryScanRunning;
      inventoryScanRunning := true;
      inventoryScanWaiters := inventoryScanWaiters + [caller];
    }

    method TakeWaiters() returns (waiters: seq<Caller>)
      modifies this
      ensures waiters == old(inventoryScanWaiters)
      ensures !inventoryScanRunning && inventoryScanWaiters == []
      ensures forall s, task: nat, scan :: old(Shows(s)) && Enabled(s, Finish(task, scan)) ==>
                Shows(Next(s, Finish(task, scan)))
                && Next(s, Finish(task, scan)).tasks[task] == Delivering(waiters, scan.GetOr(DEFAULT))
    {
      waiters := inventoryScanWaiters;
      inventoryScanRunning, inventoryScanWaiters := false, [];
    }

    // The task after its scan returned: one locked step, then an answer to each waiter.
    method Complete(scan: Option<Snapshot>) returns (answers: seq<Answer>)
      modifies this
      ensures answers == AnswersFor(old(inventoryScanWaiters), scan.GetOr(DEFAULT))
      ensures !inventoryScanRunning && inventoryScanWaiters == []
    {
      var waiters := TakeWaiters();
      answers := [];
      for i := 0 to |waiters|
        invariant answers == AnswersFor(waiters[..i], scan.GetOr(DEFAULT))
      {
        assert waiters[..i + 1] == waiters[..i] + [waiters[i]];
        answers := answers + [Answer(waiters[i], scan.GetOr(DEFAULT))];
      }
      assert waiters[..|waiters|] == waiters;
    }
  }

  function AnswersFor(waiters: seq<Caller>, snapshot: Snapshot): (r: seq<Answer>)
    ensures |r| == |waiters|
  {
    seq(|waiters|, i requires 0 <= i < |waiters| => Answer(waiters[i], snapshot))
  }

  // What a task does after the locked step is one `Send` per waiter.
  lemma {:induction false} DeliveryIsSends(s: State, task: nat)
    requires task < |s.tasks| && s.tasks[task].Delivering?
    ensures var t := s.tasks[task];
            Run(s, seq(|t.waiters|, i => Send(task)))
            == s.(tasks := s.tasks[task := t.(waiters := [])], answers := s.answers + AnswersFor(t.waiters, t.snapshot))
    decreases |s.tasks[task].waiters|
  {
    var t := s.tasks[task];
    var steps := seq(|t.waiters|, i => Send(task));
    if t.waiters == [] {
      assert s.tasks[task := t.(waiters := [])] == s.tasks;
      assert s.answers + AnswersFor(t.waiters, t.snapshot) == s.answers;
    } else {
      var next := Next(s, Send(task));
      DeliveryIsSends(next, task);
      assert steps[1..] == seq(|t.waiters| - 1, i => Send(task));
      assert AnswersFor(t.waiters, t.snapshot)
          == [Answer(t.waiters[0], t.snapshot)] + AnswersFor(t.waiters[1..], t.snapshot);
    }
  }

  /* ----- where a call is ----- */

  function Scans(tasks: seq<Task>): nat {
    if tasks == [] then 0 else Scans(tasks[..|tasks| - 1]) + if tasks[|tasks| - 1].Scanning? then 1 else 0
  }

  function Times(c: Caller, list: seq<Caller>): nat {
    multiset(list)[c]
  }

  // How often a task still has to answer the caller.
  function Owed(t: Task, c: Caller): nat {
    if t.Delivering? then Times(c, t.waiters) else 0
  }

  function Pending(tasks: seq<Task>, c: Caller): nat {
    if tasks == [] then 0 else Pending(tasks[..|tasks| - 1], c) + Owed(tasks[|tasks| - 1], c)
  }

  function Answered(answers: seq<Answer>, c: Caller): nat {
    if answers == [] then 0
    else Answered(answers[..|answers| - 1], c) + if answers[|answers| - 1].caller == c then 1 else 0
  }

  // Enrolled, taken by a task, or answered.
  function Whereabouts(s: State, c: Caller): nat {
    Times(c, s.waiters) + Pending(s.tasks, c) + Answered(s.answers, c)
  }

  // At most one scan is active, exactly when the flag holds, exactly when callers wait; and
  // every call made is in exactly one place.
  ghost predicate Inv(s: State) {
    && Scans(s.tasks) == (if s.running then 1 else 0)
    && (s.running <==> s.waiters != [])
    && forall c: Caller :: Whereabouts(s, c) == if c < s.called then 1 else 0
  }

  lemma {:induction false} SetTask(tasks: seq<Task>, i: nat, t: Task, c: Caller)
    requires i < |tasks|
    ensures Scans(tasks[i := t]) == Scans(tasks) - (if tasks[i].Scanning? then 1 else 0) + if t.Scanning? then 1 else 0
    ensures Pending(tasks[i := t], c) + Owed(tasks[i], c) == Pending(tasks, c) + Owed(t, c)
    decreases |tasks|
  {
    hide Owed;
    var last := |tasks| - 1;
    if i == last {
      assert tasks[i := t][..last] == tasks[..last];
    } else {
      assert tasks[i := t][..last] == tasks[..last][i := t];
      SetTask(tasks[..last], i, t, c);
    }
  }

  lemma AddTask(tasks: seq<Task>, t: Task, c: Caller)
    ensures Pending(tasks + [t], c) == Pending(tasks, c) + Owed(t, c)
    ensures Scans(tasks + [t]) == Scans(tasks) + if t.Scanning? then 1 else 0
  {
    assert (tasks + [t])[..|tasks|] == tasks;
  }

  lemma AddAnswer(answers: seq<Answer>, a: Answer, c: Caller)
    ensures Answered(answers + [a], c) == Answered(answers, c) + if a.caller == c then 1 else 0
  {
    assert (answers + [a])[..|answers|] == answers;
  }

  lemma TimesMore(list: seq<Caller>, d: Caller, c: Caller)
    ensures Times(c, list + [d]) == Times(c, list) + if d == c then 1 else 0
    ensures Times(c, [d] + list) == Times(c, list) + if d == c then 1 else 0
  {}

  // A step moves every caller from one place to the next.
  lemma StepMoves(s: State, step: Step, c: Caller)
    requires Enabled(s, step)
    ensures Whereabouts(Next(s, step), c) == Whereabouts(s, c) + if step.Call? && c == s.called then 1 else 0
  {
    hide Times;
    hide Pending;
    hide Answered;
    hide Scans;
    match step {
      case Call =>
        TimesMore(s.waiters, s.called, c);
        AddTask(s.tasks, Scanning, c);
      case Finish(task, scan) =>
        SetTask(s.tasks, task, Delivering(s.waiters, scan.GetOr(DEFAULT)), c);
        NoneOf(c);
      case Send(task) =>
        var t := s.tasks[task];
        SetTask(s.tasks, task, t.(waiters := t.waiters[1..]), c);
        TimesMore(t.waiters[1..], t.waiters[0], c);
        assert t.waiters == [t.waiters[0]] + t.waiters[1..];
        AddAnswer(s.answers, Answer(t.waiters[0], t.snapshot), c);
    }
  }

  lemma NoneOf(c: Caller)
    ensures Times(c, []) == 0
  {}

  lemma StepKeeps(s: State, step: Step)
    requires Inv(s) && Enabled(s, step)
    ensures Inv(Next(s, step))
  {
    hide Whereabouts;
    hide Owed;
    forall c: Caller
      ensures Whereabouts(Next(s, step), c) == if c < Next(s, step).called then 1 else 0
    {
      StepMoves(s, step, c);
      assert Whereabouts(s, c) == if c < s.called then 1 else 0;
    }
    match step {
      case Call => AddTask(s.tasks, Scanning, 0);
      case Finish(task, scan) =>
        SetTask(s.tasks, task, Delivering(s.waiters, scan.GetOr(DEFAULT)), 0);
        ScansPositive(s.tasks, task);
      case Send(task) =>
        SetTask(s.tasks, task, s.tasks[task].(waiters := s.tasks[task].waiters[1..]), 0);
    }
  }

  lemma {:induction false} ScansPositive(tasks: seq<Task>, i: nat)
    requires i < |tasks| && tasks[i].Scanning?
    ensures Scans(tasks) >= 1
    decreases |tasks|
  {
    if i < |tasks| - 1 {
      ScansPositive(tasks[..|tasks| - 1], i);
    }
  }

  // In every interleaving of callers, scans and deliveries, from the start.
  lemma {:induction false} RunKeeps(s: State, steps: seq<Step>)
    requires Inv(s)
    ensures Inv(Run(s, steps))
    decreases |steps|
  {
    hide Inv;
    hide Next;
    if steps != [] {
      if Enabled(s, steps[0]) {
        StepKeeps(s, steps[0]);
      }
      RunKeeps(After(s, steps[0]), steps[1..]);
    }
  }

  lemma StartKeeps()
    ensures Inv(START)
  {}

  // In every reachable state at most one scan is active and no call is lost or answered twice.
  lemma SingleFlight(steps: seq<Step>, c: Caller)
    ensures var s := Run(START, steps);
            && Scans(s.tasks) <= 1 && (s.running <==> Scans(s.tasks) == 1) && (s.running <==> s.waiters != [])
            && Answered(s.answers, c) <= 1
            && (c < s.called ==> c in s.waiters || Pending(s.tasks, c) == 1 || Answered(s.answers, c) == 1)
  {
    StartKeeps();
    RunKeeps(START, steps);
    var s := Run(START, steps);
    assert Whereabouts(s, c) <= 1;
  }

  // Some scan can always finish while callers wait, so no caller waits with nothing under way.
  lemma WaitersHaveAScan(steps: seq<Step>)
    ensures var s := Run(START, steps);
            s.waiters != [] ==> exists task :: 0 <= task < |s.tasks| && s.tasks[task].Scanning?
  {
    StartKeeps();
    RunKeeps(START, steps);
    SomeScan(Run(START, steps).tasks);
  }

  lemma {:induction false} SomeScan(tasks: seq<Task>)
    ensures Scans(tasks) >= 1 <==> exists i :: 0 <= i < |tasks| && tasks[i].Scanning?
    decreases |tasks|
  {
    if i :| 0 <= i < |tasks| && tasks[i].Scanning? {
      ScansPositive(tasks, i);
    }
    if Scans(tasks) >= 1 {
      var last := |tasks| - 1;
      if !tasks[last].Scanning? {
        SomeScan(tasks[..last]);
        var i :| 0 <= i < last && tasks[..last][i].Scanning?;
        assert tasks[i].Scanning?;
      }
    }
  }

  /* ----- every batch gets the answer of its own scan ----- */

  // The task holds the answer `snapshot` for `batch`: a prefix of the batch has been answered,
  // the rest is still listed, and nobody of the batch was answered anything else.
  ghost predicate Serves(s: State, task: nat, batch: seq<Caller>, snapshot: Snapshot) {
    && task < |s.tasks| && s.tasks[task].Delivering? && s.tasks[task].snapshot == snapshot
    && |s.tasks[task].waiters| <= |batch|
    && var done := |batch| - |s.tasks[task].waiters|;
       && s.tasks[task].waiters == batch[done..]
       && (forall i :: 0 <= i < done ==> Answer(batch[i], snapshot) in s.answers)
       && (forall a :: a in s.answers && a.caller in batch ==> a.snapshot == snapshot)
  }

  lemma {:induction false} OwedIsPending(tasks: seq<Task>, i: nat, c: Caller)
    requires i < |tasks|
    ensures Owed(tasks[i], c) <= Pending(tasks, c)
    decreases |tasks|
  {
    if i < |tasks| - 1 {
      OwedIsPending(tasks[..|tasks| - 1], i, c);
    }
  }

  lemma {:induction false} OwedTwice(tasks: seq<Task>, i: nat, j: nat, c: Caller)
    requires i < j < |tasks|
    ensures Owed(tasks[i], c) + Owed(tasks[j], c) <= Pending(tasks, c)
    decreases |tasks|
  {
    var init := tasks[..|tasks| - 1];
    if j < |tasks| - 1 {
      OwedTwice(init, i, j, c);
    } else {
      OwedIsPending(init, i, c);
    }
  }

  lemma {:induction false} AnsweredCounts(answers: seq<Answer>, a: Answer)
    requires a in answers
    ensures Answered(answers, a.caller) >= 1
    decreases |answers|
  {
    var last := |answers| - 1;
    if answers[last] != a {
      assert answers == answers[..last] + [answers[last]];
      AnsweredCounts(answers[..last], a);
    }
  }

  // No other task owes an answer to anyone of the batch.
  lemma BatchIsOwn(s: State, task: nat, other: nat, batch: seq<Caller>, snapshot: Snapshot, c: Caller)
    requires Inv(s) && Serves(s, task, batch, snapshot) && other < |s.tasks| && other != task
    requires s.tasks[other].Delivering? && c in s.tasks[other].waiters
    ensures c !in batch
  {
    var done := |batch| - |s.tasks[task].waiters|;
    assert Whereabouts(s, c) <= 1;
    assert Owed(s.tasks[other], c) >= 1;
    OwedIsPending(s.tasks, other, c);
    if c in batch {
      var i :| 0 <= i < |batch| && batch[i] == c;
      if i < done {
        AnsweredCounts(s.answers, Answer(c, snapshot));
      } else {
        assert s.tasks[task].waiters[i - done] == c;
        assert Owed(s.tasks[task], c) >= 1;
        OwedTwice(s.tasks, if task < other then task else other, if task < other then other else task, c);
      }
      assert false;
    }
  }

  lemma StepServes(s: State, step: Step, task: nat, batch: seq<Caller>, snapshot: Snapshot)
    requires Inv(s) && Serves(s, task, batch, snapshot) && Enabled(s, step)
    ensures Serves(Next(s, step), task, batch, snapshot)
  {
    hide Inv;
    match step {
      case Call =>
      case Finish(_, _) =>
      case Send(other) =>
        var t := Next(s, step);
        var waiters := s.tasks[other].waiters;
        if other != task {
          BatchIsOwn(s, task, other, batch, snapshot, waiters[0]);
        } else {
          var done := |batch| - |waiters|;
          assert waiters[0] == batch[done];
          assert waiters[1..] == batch[done + 1..];
        }
    }
  }

  lemma {:induction false} RunServes(s: State, steps: seq<Step>, task: nat, batch: seq<Caller>, snapshot: Snapshot)
    requires Inv(s) && Serves(s, task, batch, snapshot)
    ensures Serves(Run(s, steps), task, batch, snapshot)
    decreases |steps|
  {
    hide Inv;
    hide Serves;
    hide Next;
    if steps != [] {
      if Enabled(s, steps[0]) {
        StepKeeps(s, steps[0]);
        StepServes(s, steps[0], task, batch, snapshot);
      }
      RunServes(After(s, steps[0]), steps[1..], task, batch, snapshot);
    }
  }

  // Whatever happened before a scan finishes and whatever happens after: each caller enrolled
  // by then is owed exactly that scan's snapshot (the default when the scan failed) by that
  // task, gets no other, and has it once the task is through.
  lemma EnrolledAreServed(before: seq<Step>, task: nat, scan: Option<Snapshot>, after: seq<Step>)
    requires Enabled(Run(START, before), Finish(task, scan))
    ensures var s := Run(START, before);
            var t := Run(Next(s, Finish(task, scan)), after);
            && Serves(t, task, s.waiters, scan.GetOr(DEFAULT))
            && (t.tasks[task].waiters == [] ==>
                  forall c :: c in s.waiters ==>
                    Answer(c, scan.GetOr(DEFAULT)) in t.answers && Answered(t.answers, c) == 1)
  {
    hide Inv;
    hide Run;
    hide Whereabouts;
    StartKeeps();
    RunKeeps(START, before);
    var s := Run(START, before);
    var u := Next(s, Finish(task, scan));
    StepKeeps(s, Finish(task, scan));
    FinishServes(s, task, scan);
    RunServes(u, after, task, s.waiters, scan.GetOr(DEFAULT));
    RunKeeps(u, after);
    var t := Run(u, after);
    if t.tasks[task].waiters == [] {
      forall c | c in s.waiters ensures Answer(c, scan.GetOr(DEFAULT)) in t.answers && Answered(t.answers, c) == 1 {
        var i :| 0 <= i < |s.waiters| && s.waiters[i] == c;
        AnsweredCounts(t.answers, Answer(c, scan.GetOr(DEFAULT)));
        AnsweredOnce(t, c);
      }
    }
  }

  lemma AnsweredOnce(s: State, c: Caller)
    requires Inv(s)
    ensures Answered(s.answers, c) <= 1
  {
    assert Whereabouts(s, c) <= 1;
  }

  lemma FinishServes(s: State, task: nat, scan: Option<Snapshot>)
    requires Inv(s) && Enabled(s, Finish(task, scan))
    ensures Serves(Next(s, Finish(task, scan)), task, s.waiters, scan.GetOr(DEFAULT))
  {
    forall a | a in s.answers ensures a.caller !in s.waiters {
      AnsweredCounts(s.answers, a);
      assert Whereabouts(s, a.caller) <= 1;
      assert a.caller in s.waiters ==> Times(a.caller, s.waiters) >= 1;
    }
  }
}
