/**
 Whole runs of the anchoring protocol (src/ledger/ledger_worker.cpp): the laws of `Ledger` hold in
 every state that any interleaving reaches, and what that means for callers.
 */
module LedgerRuns {
  import opened Sums
  import opened Ledger

  lemma StepKeepsInv(policy: RetryPolicy, s: State, a: Action)
    requires Inv(policy, s)
    ensures Inv(policy, Step(policy, s, a))
  {
    match a
    case SetRunning(_) => FlagKeepsInv(policy, s, Step(policy, s, a));
    case SetPool(_) => FlagKeepsInv(policy, s, Step(policy, s, a));
    case Invoke(id) => InvokeKeepsInv(policy, s, id);
    case CallStep(i, verdict) =>
      if i < |s.calls| {
        CallStepKeepsInv(policy, s, i, verdict);
      }
    case TaskStep(j, anchored) =>
      if j < |s.tasks| {
        TaskStepKeepsInv(policy, s, j, anchored);
      }
  }

  lemma {:induction false} RunKeepsInv(policy: RetryPolicy, acts: seq<Action>)
    ensures Inv(policy, Run(policy, INITIAL, acts))
  {
    if acts != [] {
      RunKeepsInv(policy, acts[..|acts| - 1]);
      StepKeepsInv(policy, Run(policy, INITIAL, acts[..|acts| - 1]), acts[|acts| - 1]);
    }
  }

  // ---------------------------------------------------------------------------
  // What the laws mean for a caller
  // ---------------------------------------------------------------------------

  /** At most one task per record is queued or running, and no call is about to add a second. */
  lemma OneTaskPerRecord(policy: RetryPolicy, acts: seq<Action>, j: nat)
    requires j < |Run(policy, INITIAL, acts).tasks| && !Run(policy, INITIAL, acts).tasks[j].pc.Done?
    ensures var s := Run(policy, INITIAL, acts);
            && (forall i: nat :: i < |s.tasks| && i != j && s.tasks[i].id == s.tasks[j].id ==> s.tasks[i].pc.Done?)
            && (forall c <- s.calls :: c.id == s.tasks[j].id ==> !AboutToOffer(c))
  {
    RunKeepsInv(policy, acts);
    var s := Run(policy, INITIAL, acts);
    var r := s.tasks[j].id;
    assert ClaimLaw(s, r);
    SumNonNegative(HoldsId, r, s.calls);
    SumTwo(LiveFor, r, s.tasks, j, j);
    forall i: nat | i < |s.tasks| && i != j && s.tasks[i].id == r ensures s.tasks[i].pc.Done? {
      SumTwo(LiveFor, r, s.tasks, if i < j then i else j, if i < j then j else i);
    }
    forall c <- s.calls ensures c.id == r ==> !AboutToOffer(c) {
      var i :| 0 <= i < |s.calls| && s.calls[i] == c;
      SumTwo(HoldsId, r, s.calls, i, i);
    }
  }

  /**
   A record can be submitted again exactly when no call holds its id and no task for it is live.
   A call the pool refused holds the id for ever.
   */
  lemma ResubmittableExactly(policy: RetryPolicy, acts: seq<Action>, r: RecordId)
    ensures var s := Run(policy, INITIAL, acts);
            r !in s.inFlight <==>
              && (forall c <- s.calls :: c.id == r ==> !AboutToOffer(c) && !RefusedCall(c))
              && (forall t <- s.tasks :: t.id == r ==> t.pc.Done?)
  {
    RunKeepsInv(policy, acts);
    var s := Run(policy, INITIAL, acts);
    assert ClaimLaw(s, r);
    SumNonNegative(HoldsId, r, s.calls);
    SumNonNegative(LiveFor, r, s.tasks);
    if r in s.inFlight {
      if Sum(HoldsId, r, s.calls) > 0 {
        var i := SumWitness(HoldsId, r, s.calls);
        assert s.calls[i] in s.calls;
      } else {
        var j := SumWitness(LiveFor, r, s.tasks);
        assert s.tasks[j] in s.tasks;
      }
    } else {
      forall c <- s.calls ensures c.id == r ==> !AboutToOffer(c) && !RefusedCall(c) {
        var i :| 0 <= i < |s.calls| && s.calls[i] == c;
        SumTwo(HoldsId, r, s.calls, i, i);
      }
      forall t <- s.tasks ensures t.id == r ==> t.pc.Done? {
        var j :| 0 <= j < |s.tasks| && s.tasks[j] == t;
        SumTwo(LiveFor, r, s.tasks, j, j);
      }
    }
  }

  /** A finished task submitted between once and budget + 1 times and published one outcome, its own. */
  lemma OneOutcomePerTask(policy: RetryPolicy, acts: seq<Action>, j: nat)
    requires j < |Run(policy, INITIAL, acts).tasks| && Run(policy, INITIAL, acts).tasks[j].pc.Done?
    ensures var s := Run(policy, INITIAL, acts);
            var t := s.tasks[j];
            && 1 <= t.attempts <= RetryBudget(policy) + 1
            && Sum(SentBy, FromTask(j), s.events) == 1
            && Event(FromTask(j), t.id, t.pc.committed) in s.events
  {
    RunKeepsInv(policy, acts);
    var s := Run(policy, INITIAL, acts);
    assert s.tasks[j] in s.tasks && TaskEvents(s, j);
    var k := SumWitness(SentBy, FromTask(j), s.events);
    assert s.events[k] in s.events && Truthful(s, s.events[k]);
  }

  predicate AtRest(s: State) {
    (forall c <- s.calls :: c.pc.Returned?) && (forall t <- s.tasks :: t.pc.Done?)
  }

  function FinishedOnce(u: (), t: Task): int { if t.pc.Done? then 1 else 0 }

  /** With no call and no task under way, nothing is pending and every non-duplicate submission is counted once. */
  lemma BalancedAtRest(policy: RetryPolicy, acts: seq<Action>)
    requires AtRest(Run(policy, INITIAL, acts))
    ensures var s := Run(policy, INITIAL, acts);
            && s.pending == 0
            && s.committed + s.failed == Sum(NonDuplicate, (), s.calls)
  {
    RunKeepsInv(policy, acts);
    var s := Run(policy, INITIAL, acts);
    SumZero(OwesDecrement, (), s.tasks);
    SumZero(OwesIncrement, (), s.calls);
    SumAdd(CommitsCounted, FailuresCounted, FinishedOnce, (), s.tasks);
    SumOnes(FinishedOnce, (), s.tasks);
    SumAdd(WasAccepted, RefusalsCounted, NonDuplicate, (), s.calls);
  }

  /** Steps a task still has to take, at most. */
  function Rank(policy: RetryPolicy, t: Task): nat
    requires t.retries <= RetryBudget(policy)
  {
    var left := RetryBudget(policy) - t.retries;
    match t.pc
    case Queued => 2 * left + 7
    case Submitting => 2 * left + 6
    case Deciding => 2 * left + 5
    case CountCommit => 4
    case UncountFailure => 4
    case UncountCommit => 3
    case CountFailure => 3
    case AnnounceCommit => 2
    case AnnounceFailure => 2
    case ReleaseCommit => 1
    case ReleaseFailure => 1
    case Done(_) => 0
  }

  /** Each step of an unfinished task brings it closer to the end. */
  lemma TaskAdvances(policy: RetryPolicy, t: Task, j: nat, running: bool, anchored: bool)
    requires AttemptLaw(policy, t)
    ensures var (t', _) := TaskSection(policy, t, j, running, anchored);
            && AttemptLaw(policy, t')
            && (t'.pc.Done? || Rank(policy, t') < Rank(policy, t))
  {
  }

  /** How often task `j` is scheduled. */
  function StepsOf(acts: seq<Action>, j: nat): nat {
    if acts == [] then 0 else
    var a := acts[|acts| - 1];
    StepsOf(acts[..|acts| - 1], j) + if a.TaskStep? && a.task == j then 1 else 0
  }

  /** In any interleaving a task is finished once it was scheduled `Rank` times, whatever the other threads do. */
  lemma {:induction false} TaskTerminates(policy: RetryPolicy, s: State, acts: seq<Action>, j: nat)
    requires j < |s.tasks| && AttemptLaw(policy, s.tasks[j])
    ensures var s' := Run(policy, s, acts);
            && j < |s'.tasks| && AttemptLaw(policy, s'.tasks[j])
            && (s'.tasks[j].pc.Done? || Rank(policy, s'.tasks[j]) + StepsOf(acts, j) <= Rank(policy, s.tasks[j]))
            && (StepsOf(acts, j) >= Rank(policy, s.tasks[j]) ==> s'.tasks[j].pc.Done?)
  {
    if acts != [] {
      var a, m := acts[|acts| - 1], Run(policy, s, acts[..|acts| - 1]);
      TaskTerminates(policy, s, acts[..|acts| - 1], j);
      if a.TaskStep? && a.task == j {
        TaskAdvances(policy, m.tasks[j], j, m.running, a.anchored);
        assert Step(policy, m, a).tasks[j] == TaskSection(policy, m.tasks[j], j, m.running, a.anchored).0;
      } else {
        OtherStep(policy, m, a, j);
      }
    }
  }

  lemma OtherStep(policy: RetryPolicy, s: State, a: Action, j: nat)
    requires j < |s.tasks| && !(a.TaskStep? && a.task == j)
    ensures j < |Step(policy, s, a).tasks| && Step(policy, s, a).tasks[j] == s.tasks[j]
  {
  }

  /** Submissions a task can still make once `running_` is false. */
  function LastShot(t: Task): nat {
    if t.pc.Queued? || t.pc.Submitting? then 1 else 0
  }

  /** While draining, a task makes at most one more submission: the retry loop gives up at its next decision. */
  lemma {:induction false} DrainIsOneShot(policy: RetryPolicy, s: State, acts: seq<Action>, j: nat)
    requires !s.running && j < |s.tasks|
    requires forall a <- acts :: !a.SetRunning?
    ensures var s' := Run(policy, s, acts);
            && !s'.running && j < |s'.tasks|
            && s'.tasks[j].attempts + LastShot(s'.tasks[j]) <= s.tasks[j].attempts + LastShot(s.tasks[j])
  {
    if acts != [] {
      var a := acts[|acts| - 1];
      DrainIsOneShot(policy, s, acts[..|acts| - 1], j);
      var m := Run(policy, s, acts[..|acts| - 1]);
      assert a in acts;
      if a.TaskStep? && a.task == j {
        assert Step(policy, m, a).tasks[j] == TaskSection(policy, m.tasks[j], j, m.running, a.anchored).0;
      }
    }
  }

  lemma RunSnoc(policy: RetryPolicy, s: State, acts: seq<Action>, a: Action)
    ensures Run(policy, s, acts + [a]) == Step(policy, Run(policy, s, acts), a)
  {
    assert (acts + [a])[..|acts|] == acts;
  }

  // A record that the pool refuses

  function Refusal(n: nat): seq<Action> {
    [CallStep(n, Accept), CallStep(n, Accept), CallStep(n, Accept), CallStep(n, Reject), CallStep(n, Accept),
     CallStep(n, Accept)]
  }

  lemma RefusedFrom(policy: RetryPolicy, s: State, r: RecordId)
    requires s.pool && s.inFlight == {} && s.calls == [Call(r, SawRunning)] && s.tasks == []
    ensures var s' := Run(policy, s, Refusal(0));
            s'.inFlight == {r} && s'.tasks == [] && s'.calls == [Call(r, Returned(Refused))]
  {
    SixSteps(policy, s, Refusal(0));
  }

  /** Everything is at rest, no task was ever made for the record, and it cannot be submitted again. */
  lemma RefusedStaysClaimed(policy: RetryPolicy, r: RecordId) returns (acts: seq<Action>)
    ensures var s := Run(policy, INITIAL, acts);
            AtRest(s) && s.tasks == [] && r in s.inFlight
  {
    var start := [SetRunning(true), SetPool(true), Invoke(r), CallStep(0, Accept), SetRunning(true), SetPool(true)];
    SixSteps(policy, INITIAL, start);
    RefusedFrom(policy, Run(policy, INITIAL, start), r);
    RunConcat(policy, INITIAL, start, Refusal(0));
    acts := start + Refusal(0);
  }

  /** `pending_count_` is negative exactly while more calls than tasks have yet to adjust it. */
  lemma PendingSignExactly(policy: RetryPolicy, acts: seq<Action>)
    ensures var s := Run(policy, INITIAL, acts);
            s.pending >= 0 <==> Sum(OwesIncrement, (), s.calls) <= Sum(OwesDecrement, (), s.tasks)
  {
    RunKeepsInv(policy, acts);
  }

  // A record is submitted, and its task is finished before the call counts it.

  /** Nothing is in flight; `n` tasks are finished, and their calls have not counted them. */
  predicate Behind(s: State, n: nat) {
    && s.running && s.pool && s.inFlight == {} && s.pending + n == 0
    && |s.calls| == n && |s.tasks| == n
  }

  function Submission(r: RecordId, n: nat): seq<Action> {
    [Invoke(r), CallStep(n, Accept), CallStep(n, Accept), CallStep(n, Accept), CallStep(n, Accept), CallStep(n, Accept)]
  }

  function Anchoring(n: nat): seq<Action> { seq(6, _ => TaskStep(n, true)) }

  lemma SixSteps(policy: RetryPolicy, s: State, acts: seq<Action>)
    requires |acts| == 6
    ensures Run(policy, s, acts) ==
            Step(policy, Step(policy, Step(policy, Step(policy, Step(policy, Step(policy, s,
              acts[0]), acts[1]), acts[2]), acts[3]), acts[4]), acts[5])
  {
    assert acts == [acts[0]] + [acts[1]] + [acts[2]] + [acts[3]] + [acts[4]] + [acts[5]];
    assert [] + [acts[0]] == [acts[0]];
    RunSnoc(policy, s, [], acts[0]);
    RunSnoc(policy, s, [acts[0]], acts[1]);
    RunSnoc(policy, s, [acts[0]] + [acts[1]], acts[2]);
    RunSnoc(policy, s, [acts[0]] + [acts[1]] + [acts[2]], acts[3]);
    RunSnoc(policy, s, [acts[0]] + [acts[1]] + [acts[2]] + [acts[3]], acts[4]);
    RunSnoc(policy, s, [acts[0]] + [acts[1]] + [acts[2]] + [acts[3]] + [acts[4]], acts[5]);
  }

  /** A step of the call that came last. */
  lemma LastCall(policy: RetryPolicy, s: State, cs: seq<Call>, c: Call)
    requires s.calls == cs + [c]
    ensures var (pc, e) := CallSection(c, |cs|, CanProceed(s, c), c.id in s.inFlight, Accept);
            Step(policy, s, CallStep(|cs|, Accept)) == Apply(s, cs + [c.(pc := pc)], s.tasks, e)
  {
    var (pc, _) := CallSection(c, |cs|, CanProceed(s, c), c.id in s.inFlight, Accept);
    assert s.calls[|cs| := c.(pc := pc)] == cs + [c.(pc := pc)];
  }

  lemma Submitted(policy: RetryPolicy, s: State, n: nat, r: RecordId)
    requires Behind(s, n)
    ensures Run(policy, s, Submission(r, n))
         == s.(inFlight := {r}, calls := s.calls + [Call(r, CountPending)], tasks := s.tasks + [Task(r, Queued, 0, 0)])
  {
    SixSteps(policy, s, Submission(r, n));
    ToClaimed(policy, s, s.calls, r);
    var claimed := s.(inFlight := {r});
    LastCall(policy, claimed.(calls := s.calls + [Call(r, Claimed)]), s.calls, Call(r, Claimed));
    LastCall(policy, claimed.(calls := s.calls + [Call(r, Offering)]), s.calls, Call(r, Offering));
  }

  lemma ToClaimed(policy: RetryPolicy, s: State, cs: seq<Call>, r: RecordId)
    requires s.running && s.pool && s.inFlight == {}
    ensures var step := CallStep(|cs|, Accept);
            Step(policy, Step(policy, Step(policy, s.(calls := cs + [Call(r, Entered)]), step), step), step)
            == s.(inFlight := {r}, calls := cs + [Call(r, Claimed)])
  {
    LastCall(policy, s.(calls := cs + [Call(r, Entered)]), cs, Call(r, Entered));
    LastCall(policy, s.(calls := cs + [Call(r, SawRunning)]), cs, Call(r, SawRunning));
    LastCall(policy, s.(calls := cs + [Call(r, Admitted)]), cs, Call(r, Admitted));
  }

  lemma Anchored(policy: RetryPolicy, s: State, n: nat, r: RecordId)
    requires |s.tasks| == n + 1 && s.tasks[n] == Task(r, Queued, 0, 0) && s.inFlight == {r}
    ensures var s' := Run(policy, s, Anchoring(n));
            && s'.running == s.running && s'.pool == s.pool && s'.inFlight == {} && s'.pending == s.pending - 1
            && |s'.calls| == |s.calls| && |s'.tasks| == |s.tasks|
  {
    SixSteps(policy, s, Anchoring(n));
  }

  /**
   `pending_count_` is not a count of pending records: workers can finish any number of tasks before the threads
   that enqueued them reach their increment, and the counter is then as negative as that number.
   */
  lemma {:induction false} PendingReaches(policy: RetryPolicy, r: RecordId, n: nat) returns (acts: seq<Action>)
    ensures Run(policy, INITIAL, acts).pending == 0 - n && Behind(Run(policy, INITIAL, acts), n)
  {
    if n == 0 {
      acts := [SetRunning(true)] + [SetPool(true)];
      RunSnoc(policy, INITIAL, [SetRunning(true)], SetPool(true));
      assert [] + [SetRunning(true)] == [SetRunning(true)];
      RunSnoc(policy, INITIAL, [], SetRunning(true));
    } else {
      var before := PendingReaches(policy, r, n - 1);
      var s := Run(policy, INITIAL, before);
      acts := (before + Submission(r, n - 1)) + Anchoring(n - 1);
      Submitted(policy, s, n - 1, r);
      RunConcat(policy, INITIAL, before, Submission(r, n - 1));
      var m := Run(policy, INITIAL, before + Submission(r, n - 1));
      Anchored(policy, m, n - 1, r);
      RunConcat(policy, INITIAL, before + Submission(r, n - 1), Anchoring(n - 1));
    }
  }

  lemma {:induction false} RunConcat(policy: RetryPolicy, s: State, xs: seq<Action>, ys: seq<Action>)
    ensures Run(policy, s, xs + ys) == Run(policy, Run(policy, s, xs), ys)
    decreases |ys|
  {
    if ys == [] {
      assert xs + ys == xs;
    } else {
      assert (xs + ys)[..|xs + ys| - 1] == xs + ys[..|ys| - 1];
      RunConcat(policy, s, xs, ys[..|ys| - 1]);
    }
  }
}
