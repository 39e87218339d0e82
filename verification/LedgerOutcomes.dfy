/**
 How a submission and an anchoring task end (src/ledger/ledger_worker.cpp), told by what each of them was answered
 and what it read of the shared state during the run.
 */
module LedgerOutcomes {
  import opened Ledger
  import opened LedgerRuns

  // ---------------------------------------------------------------------------
  // Tasks
  // ---------------------------------------------------------------------------

  /** The action is a step of task `j` at the given point of its program. */
  predicate StepsAt(s: State, a: Action, j: nat, pc: TaskPc) {
    a.TaskStep? && a.task == j && j < |s.tasks| && s.tasks[j].pc == pc
  }

  /** The ledger client's answers to the submissions of task `j`, in order. */
  function Answers(policy: RetryPolicy, s: State, acts: seq<Action>, j: nat): seq<bool> {
    if acts == [] then [] else
    var n := |acts| - 1;
    var earlier := Answers(policy, s, acts[..n], j);
    if StepsAt(Run(policy, s, acts[..n]), acts[n], j, Submitting) then earlier + [acts[n].anchored] else earlier
  }

  /** What task `j` read of `running_` when a submission had failed, in order. */
  function Readings(policy: RetryPolicy, s: State, acts: seq<Action>, j: nat): seq<bool> {
    if acts == [] then [] else
    var n := |acts| - 1;
    var earlier, m := Readings(policy, s, acts[..n], j), Run(policy, s, acts[..n]);
    if StepsAt(m, acts[n], j, Deciding) then earlier + [m.running] else earlier
  }

  predicate All(bs: seq<bool>, b: bool) { forall i :: 0 <= i < |bs| ==> bs[i] == b }

  /** `n` submissions failed, and after each there was reason to try again. */
  predicate Retried(policy: RetryPolicy, answers: seq<bool>, readings: seq<bool>, n: nat) {
    |answers| == n && |readings| == n && n <= RetryBudget(policy) && All(answers, false) && All(readings, true)
  }

  /** What lies behind a task at each point of its program. */
  ghost predicate Story(policy: RetryPolicy, t: Task, answers: seq<bool>, readings: seq<bool>) {
    && t.attempts == |answers|
    && match t.pc
       case Queued | Submitting => Retried(policy, answers, readings, t.retries)
       case Deciding => answers != [] && Retried(policy, answers[..|answers| - 1], readings, t.retries)
                        && !answers[|answers| - 1]
       case CountCommit | UncountCommit | AnnounceCommit | ReleaseCommit | Done(true) =>
         answers != [] && Retried(policy, answers[..|answers| - 1], readings, t.retries) && answers[|answers| - 1]
       case UncountFailure | CountFailure | AnnounceFailure | ReleaseFailure | Done(false) =>
         && |answers| == |readings| == t.retries + 1
         && Retried(policy, answers[..t.retries], readings[..t.retries], t.retries) && !answers[t.retries]
         && (!readings[t.retries] || t.retries == RetryBudget(policy))
  }

  lemma StoryContinues(policy: RetryPolicy, t: Task, j: nat, running: bool, anchored: bool,
                       answers: seq<bool>, readings: seq<bool>)
    requires Story(policy, t, answers, readings)
    ensures Story(policy, TaskSection(policy, t, j, running, anchored).0,
                  if t.pc.Submitting? then answers + [anchored] else answers,
                  if t.pc.Deciding? then readings + [running] else readings)
  {
    if t.pc.Submitting? {
      assert (answers + [anchored])[..|answers|] == answers;
    } else if t.pc.Deciding? {
      assert (readings + [running])[..|readings|] == readings;
    }
  }

  lemma TaskIsNew(policy: RetryPolicy, s: State, a: Action, j: nat)
    requires j >= |s.tasks| && j < |Step(policy, s, a).tasks|
    ensures Step(policy, s, a).tasks[j].pc.Queued? && Step(policy, s, a).tasks[j].retries == 0
    ensures Step(policy, s, a).tasks[j].attempts == 0
  {
  }

  /** What lies behind task `j`, if there is one. */
  ghost predicate Told(policy: RetryPolicy, s: State, j: nat, answers: seq<bool>, readings: seq<bool>) {
    if j < |s.tasks| then Story(policy, s.tasks[j], answers, readings) else answers == readings == []
  }

  lemma ToldOn(policy: RetryPolicy, s: State, a: Action, j: nat, answers: seq<bool>, readings: seq<bool>)
    requires Told(policy, s, j, answers, readings)
    ensures Told(policy, Step(policy, s, a), j,
                 if StepsAt(s, a, j, Submitting) then answers + [a.anchored] else answers,
                 if StepsAt(s, a, j, Deciding) then readings + [s.running] else readings)
  {
    if j < |s.tasks| {
      if a.TaskStep? && a.task == j {
        StoryContinues(policy, s.tasks[j], j, s.running, a.anchored, answers, readings);
        assert Step(policy, s, a).tasks[j] == TaskSection(policy, s.tasks[j], j, s.running, a.anchored).0;
      } else {
        OtherStep(policy, s, a, j);
      }
    } else if j < |Step(policy, s, a).tasks| {
      TaskIsNew(policy, s, a, j);
    }
  }

  lemma {:induction false} TaskStory(policy: RetryPolicy, s: State, acts: seq<Action>, j: nat)
    requires Told(policy, s, j, [], [])
    ensures Told(policy, Run(policy, s, acts), j, Answers(policy, s, acts, j), Readings(policy, s, acts, j))
  {
    if acts != [] {
      var n := |acts| - 1;
      TaskStory(policy, s, acts[..n], j);
      ToldOn(policy, Run(policy, s, acts[..n]), acts[n], j,
             Answers(policy, s, acts[..n], j), Readings(policy, s, acts[..n], j));
    }
  }

  /**
   How a task ends. It looks at `running_` after every answer that was no, and submits again exactly if that is true
   and there is retry budget left; it ends committed exactly if a submission was anchored.
   */
  ghost predicate Ended(policy: RetryPolicy, committed: bool, answers: seq<bool>, readings: seq<bool>) {
    && answers != [] && |readings| == |answers| - (if committed then 1 else 0)
    && (committed <==> true in answers)
    && forall k: nat :: k < |readings| ==>
         !answers[k] && (k + 1 < |answers| <==> readings[k] && k < RetryBudget(policy))
  }

  lemma StoryEnds(policy: RetryPolicy, t: Task, answers: seq<bool>, readings: seq<bool>)
    requires Story(policy, t, answers, readings) && t.pc.Done?
    ensures Ended(policy, t.pc.committed, answers, readings) && t.attempts == |answers|
  {
    var last := |answers| - 1;
    forall k: nat | k < last ensures !answers[k] && readings[k] {
      assert answers[k] == answers[..last][k] && readings[k] == readings[..last][k];
    }
    assert t.pc.committed ==> answers[last];
  }

  lemma TaskEndsExactly(policy: RetryPolicy, acts: seq<Action>, j: nat)
    requires j < |Run(policy, INITIAL, acts).tasks| && Run(policy, INITIAL, acts).tasks[j].pc.Done?
    ensures var t := Run(policy, INITIAL, acts).tasks[j];
            var answers, readings := Answers(policy, INITIAL, acts, j), Readings(policy, INITIAL, acts, j);
            Ended(policy, t.pc.committed, answers, readings) && t.attempts == |answers|
  {
    TaskStory(policy, INITIAL, acts, j);
    StoryEnds(policy, Run(policy, INITIAL, acts).tasks[j],
              Answers(policy, INITIAL, acts, j), Readings(policy, INITIAL, acts, j));
  }

  /** One more submission: anchored; failed for good; failed, and tried again. */
  lemma OneMore(policy: RetryPolicy, answers: seq<bool>, readings: seq<bool>, n: nat, running: bool)
    requires Retried(policy, answers, readings, n)
    ensures Ended(policy, true, answers + [true], readings)
    ensures !running || n == RetryBudget(policy) ==> Ended(policy, false, answers + [false], readings + [running])
    ensures running && n < RetryBudget(policy) ==> Retried(policy, answers + [false], readings + [running], n + 1)
  {
    assert (answers + [true])[n];
  }

  lemma EndsFailed(policy: RetryPolicy, answers: seq<bool>, readings: seq<bool>)
    requires Ended(policy, false, answers, readings) && All(readings, true)
    ensures answers == seq(RetryBudget(policy) + 1, _ => false)
  {
    var last := |answers| - 1;
    assert last <= RetryBudget(policy) by {
      if last > 0 {
        assert !answers[last - 1];
      }
    }
    assert readings[last];
  }

  /** A task that fails although it always found `running_` true has used up its budget and was never anchored. */
  lemma FailsAfterBudget(policy: RetryPolicy, acts: seq<Action>, j: nat)
    requires j < |Run(policy, INITIAL, acts).tasks| && Run(policy, INITIAL, acts).tasks[j].pc == Done(false)
    requires All(Readings(policy, INITIAL, acts, j), true)
    ensures Answers(policy, INITIAL, acts, j) == seq(RetryBudget(policy) + 1, _ => false)
    ensures Run(policy, INITIAL, acts).tasks[j].attempts == RetryBudget(policy) + 1
  {
    TaskEndsExactly(policy, acts, j);
    EndsFailed(policy, Answers(policy, INITIAL, acts, j), Readings(policy, INITIAL, acts, j));
  }

  lemma EndsAnchored(policy: RetryPolicy, answers: seq<bool>, readings: seq<bool>, committed: bool, k: nat)
    requires Ended(policy, committed, answers, readings) && k < |answers| && answers[k]
    ensures committed && answers == seq(k, _ => false) + [true] && k <= RetryBudget(policy)
  {
    assert committed && k == |answers| - 1;
    if k > 0 {
      assert !answers[k - 1];
    }
  }

  /** An anchored submission is the last one, within the budget, and commits its task. */
  lemma AnchoredCommits(policy: RetryPolicy, acts: seq<Action>, j: nat, k: nat)
    requires j < |Run(policy, INITIAL, acts).tasks| && Run(policy, INITIAL, acts).tasks[j].pc.Done?
    requires k < |Answers(policy, INITIAL, acts, j)| && Answers(policy, INITIAL, acts, j)[k]
    ensures Run(policy, INITIAL, acts).tasks[j].pc == Done(true)
    ensures Answers(policy, INITIAL, acts, j) == seq(k, _ => false) + [true] && k <= RetryBudget(policy)
  {
    TaskEndsExactly(policy, acts, j);
    EndsAnchored(policy, Answers(policy, INITIAL, acts, j), Readings(policy, INITIAL, acts, j),
                 Run(policy, INITIAL, acts).tasks[j].pc.committed, k);
  }

  // ---------------------------------------------------------------------------
  // Calls
  // ---------------------------------------------------------------------------

  /** What a call learns from its next step: `running_`, the pool, whether its id was free, the pool's verdict. */
  function Learns(s: State, i: nat, verdict: Verdict): seq<bool>
    requires i < |s.calls|
  {
    match s.calls[i].pc
    case Entered => [s.running]
    case SawRunning => [s.pool]
    case Admitted => [s.calls[i].id !in s.inFlight]
    case Offering => [verdict == Accept]
    case _ => []
  }

  /** All that call `i` learned. */
  function Learned(policy: RetryPolicy, s: State, acts: seq<Action>, i: nat): seq<bool> {
    if acts == [] then [] else
    var n := |acts| - 1;
    var earlier, m, a := Learned(policy, s, acts[..n], i), Run(policy, s, acts[..n]), acts[n];
    if a.CallStep? && a.call == i && i < |m.calls| then earlier + Learns(m, i, a.verdict) else earlier
  }

  /** What lies behind a call at each point of its program. */
  predicate Heard(c: Call, learned: seq<bool>) {
    match c.pc
    case Entered => learned == []
    case SawRunning => learned == [true]
    case Admitted => learned == [true, true]
    case Claimed | Offering => learned == [true, true, true]
    case CountPending | Returned(Enqueued) => learned == [true, true, true, true]
    case CountRefusal | AnnounceRefusal | Returned(Refused) => learned == [true, true, true, false]
    case Returned(Duplicate) => learned == [true, true, false]
    case Returned(NotRunning) => learned == [false] || learned == [true, false]
  }

  lemma HearsMore(c: Call, i: nat, s: State, verdict: Verdict, learned: seq<bool>)
    requires i < |s.calls| && s.calls[i] == c && Heard(c, learned)
    ensures Heard(c.(pc := CallSection(c, i, CanProceed(s, c), c.id in s.inFlight, verdict).0),
                  learned + Learns(s, i, verdict))
  {
  }

  lemma OtherCall(policy: RetryPolicy, s: State, a: Action, i: nat)
    requires !(a.CallStep? && a.call == i)
    ensures i < |s.calls| ==> i < |Step(policy, s, a).calls| && Step(policy, s, a).calls[i] == s.calls[i]
    ensures |s.calls| <= i < |Step(policy, s, a).calls| ==> Step(policy, s, a).calls[i].pc.Entered?
  {
  }

  lemma {:induction false} CallHeard(policy: RetryPolicy, acts: seq<Action>, i: nat)
    ensures var s := Run(policy, INITIAL, acts);
            var learned := Learned(policy, INITIAL, acts, i);
            if i < |s.calls| then Heard(s.calls[i], learned) else learned == []
  {
    if acts != [] {
      var n := |acts| - 1;
      var m, a := Run(policy, INITIAL, acts[..n]), acts[n];
      CallHeard(policy, acts[..n], i);
      if a.CallStep? && a.call == i {
        if i < |m.calls| {
          HearsMore(m.calls[i], i, m, a.verdict, Learned(policy, INITIAL, acts[..n], i));
        }
      } else {
        OtherCall(policy, m, a, i);
      }
    }
  }

  /** How a call ends: told by the first no it hears, and enqueued exactly if it hears none. */
  lemma CallEndsExactly(policy: RetryPolicy, acts: seq<Action>, i: nat)
    requires i < |Run(policy, INITIAL, acts).calls| && Run(policy, INITIAL, acts).calls[i].pc.Returned?
    ensures var result := Run(policy, INITIAL, acts).calls[i].pc.result;
            var learned := Learned(policy, INITIAL, acts, i);
            && (result == NotRunning <==> learned == [false] || learned == [true, false])
            && (result == Duplicate <==> learned == [true, true, false])
            && (result == Refused <==> learned == [true, true, true, false])
            && (result == Enqueued <==> learned == [true, true, true, true])
  {
    CallHeard(policy, acts, i);
  }
}
