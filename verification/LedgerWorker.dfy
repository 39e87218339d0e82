/**
 `LedgerWorker` in the shape of src/ledger/ledger_worker.cpp: the two functions that run
 concurrently, with `Yield` wherever another thread can be scheduled. Both are shown to take
 only steps of the state machine in `Ledger`, so its theorems hold of this code.
 */
module LedgerWorkers {
  import opened Ledger
  import opened LedgerOutcomes
  import opened LedgerRuns

  predicate Moves(a: Action, me: Source) {
    match me
    case FromCall(i) => a.CallStep? && a.call == i
    case FromTask(j) => a.TaskStep? && a.task == j
  }

  /** `t` is reached from `s` by some interleaving of steps. */
  ghost predicate Reaches(policy: RetryPolicy, s: State, t: State) {
    exists acts :: Run(policy, s, acts) == t
  }

  /** `t` is reached from `s` by steps of threads other than `me`. */
  ghost predicate OthersRan(policy: RetryPolicy, s: State, t: State, me: Source) {
    exists acts :: Run(policy, s, acts) == t && forall a <- acts :: !Moves(a, me)
  }

  lemma ReachesTrans(policy: RetryPolicy, s: State, t: State, u: State)
    requires Reaches(policy, s, t) && Reaches(policy, t, u)
    ensures Reaches(policy, s, u)
  {
    var xs :| Run(policy, s, xs) == t;
    var ys :| Run(policy, t, ys) == u;
    RunConcat(policy, s, xs, ys);
  }

  lemma Took(policy: RetryPolicy, s: State, t: State, a: Action)
    requires Reaches(policy, s, t)
    ensures Reaches(policy, s, Step(policy, t, a))
  {
    var xs :| Run(policy, s, xs) == t;
    RunSnoc(policy, s, xs, a);
  }

  /** Threads are only ever added, and a thread is moved by nobody but itself. */
  lemma {:induction false} OthersLeaveMe(policy: RetryPolicy, s: State, acts: seq<Action>, me: Source)
    requires forall a <- acts :: !Moves(a, me)
    ensures var t := Run(policy, s, acts);
            match me
            case FromCall(i) => i < |s.calls| ==> i < |t.calls| && t.calls[i] == s.calls[i]
            case FromTask(j) => j < |s.tasks| ==> j < |t.tasks| && t.tasks[j] == s.tasks[j]
  {
    if acts != [] {
      OthersLeaveMe(policy, s, acts[..|acts| - 1], me);
      assert !Moves(acts[|acts| - 1], me);
    }
  }

  class LedgerWorker {
    const policy: RetryPolicy
    var running: bool
    var pool: bool
    var inFlight: set<RecordId>
    var committedCount: int
    var failedCount: int
    var pendingCount: int

    // The threads and the notifications published so far.
    ghost var calls: seq<Call>
    ghost var tasks: seq<Task>
    ghost var events: seq<Event>

    ghost function View(): State
      reads this
    {
      State(running, pool, inFlight, committedCount, failedCount, pendingCount, calls, tasks, events)
    }

    constructor (policy: RetryPolicy)
      ensures this.policy == policy && View() == INITIAL
    {
      this.policy := policy;
      running, pool, inFlight := false, false, {};
      committedCount, failedCount, pendingCount := 0, 0, 0;
      calls, tasks, events := [], [], [];
    }

    /** Other threads run for a while; the caller learns only that they took steps of their own. */
    method Yield(ghost me: Source)
      modifies this
      ensures OthersRan(policy, old(View()), View(), me)
    {
      assert Run(policy, View(), []) == View();
    }

    /** As `Yield`, seen from task `j`: what the interference leaves alone. */
    method YieldTask(ghost j: nat, ghost origin: State)
      requires j < |tasks| && Reaches(policy, origin, View())
      modifies this
      ensures Reaches(policy, origin, View())
      ensures j < |tasks| && tasks[j] == old(tasks[j])
    {
      Yield(FromTask(j));
      ghost var acts :| Run(policy, old(View()), acts) == View() && forall a <- acts :: !Moves(a, FromTask(j));
      OthersLeaveMe(policy, old(View()), acts, FromTask(j));
      ReachesTrans(policy, origin, old(View()), View());
    }

    method YieldCall(ghost i: nat, ghost origin: State)
      requires i < |calls| && Reaches(policy, origin, View())
      modifies this
      ensures Reaches(policy, origin, View())
      ensures i < |calls| && calls[i] == old(calls[i])
    {
      Yield(FromCall(i));
      ghost var acts :| Run(policy, old(View()), acts) == View() && forall a <- acts :: !Moves(a, FromCall(i));
      OthersLeaveMe(policy, old(View()), acts, FromCall(i));
      ReachesTrans(policy, origin, old(View()), View());
    }

    /** The pool's answer to `enqueue`. */
    method Offer() returns (verdict: Verdict) {
      verdict := *;
    }

    /** The ledger client's answer to one submission. */
    method ClientSubmit() returns (anchored: bool) {
      anchored := *;
    }

    // -------------------------------------------------------------------------
    // Atomic sections of submit_record. Each lets other threads run first.
    // -------------------------------------------------------------------------

    /** Reads `running_`. */
    method SeeRunning(ghost i: nat, ghost origin: State) returns (up: bool)
      requires i < |calls| && calls[i].pc.Entered? && Reaches(policy, origin, View())
      modifies this
      ensures Reaches(policy, origin, View())
      ensures i < |calls| && up == running
      ensures calls[i] == old(calls[i]).(pc := if up then SawRunning else Returned(NotRunning))
    {
      YieldCall(i, origin);
      ghost var s := View();
      up := running;
      calls := calls[i := calls[i].(pc := if up then SawRunning else Returned(NotRunning))];
      assert View() == Step(policy, s, CallStep(i, Accept));
      Took(policy, origin, s, CallStep(i, Accept));
    }

    /** Reads whether there is a pool; `running_` may have changed since. */
    method SeePool(ghost i: nat, ghost origin: State) returns (present: bool)
      requires i < |calls| && calls[i].pc.SawRunning? && Reaches(policy, origin, View())
      modifies this
      ensures Reaches(policy, origin, View())
      ensures i < |calls| && present == pool
      ensures calls[i] == old(calls[i]).(pc := if present then Admitted else Returned(NotRunning))
    {
      YieldCall(i, origin);
      ghost var s := View();
      present := pool;
      calls := calls[i := calls[i].(pc := if present then Admitted else Returned(NotRunning))];
      assert View() == Step(policy, s, CallStep(i, Accept));
      Took(policy, origin, s, CallStep(i, Accept));
    }

    /** Inserts the id into the in-flight set under its lock; the insertion fails on a duplicate. */
    method Claim(id: RecordId, ghost i: nat, ghost origin: State)
      returns (inserted: bool, ghost before: set<RecordId>)
      requires i < |calls| && calls[i] == Call(id, Admitted) && Reaches(policy, origin, View())
      modifies this
      ensures Reaches(policy, origin, View())
      ensures i < |calls| && calls[i] == Call(id, if inserted then Claimed else Returned(Duplicate))
      ensures inserted == (id !in before) && inFlight == before + {id}
    {
      YieldCall(i, origin);
      ghost var s := View();
      before := inFlight;
      inserted := id !in inFlight;
      inFlight := inFlight + {id};
      calls := calls[i := Call(id, if inserted then Claimed else Returned(Duplicate))];
      assert View() == Step(policy, s, CallStep(i, Accept));
      Took(policy, origin, s, CallStep(i, Accept));
    }

    /** The processing callback; whatever it does, including a throw, the call goes on. */
    method NotifyProcessing(id: RecordId, ghost i: nat, ghost origin: State)
      requires i < |calls| && calls[i] == Call(id, Claimed) && Reaches(policy, origin, View())
      modifies this
      ensures Reaches(policy, origin, View())
      ensures i < |calls| && calls[i] == Call(id, Offering)
    {
      YieldCall(i, origin);
      ghost var s := View();
      calls := calls[i := Call(id, Offering)];
      assert View() == Step(policy, s, CallStep(i, Accept));
      Took(policy, origin, s, CallStep(i, Accept));
    }

    /** Offers a task to the pool. */
    method Enqueue(id: RecordId, ghost i: nat, ghost origin: State) returns (accepted: bool)
      requires i < |calls| && calls[i] == Call(id, Offering) && Reaches(policy, origin, View())
      modifies this
      ensures Reaches(policy, origin, View())
      ensures i < |calls| && calls[i] == Call(id, if accepted then CountPending else CountRefusal)
    {
      YieldCall(i, origin);
      ghost var s := View();
      var verdict := Offer();
      accepted := verdict.Accept?;
      calls := calls[i := Call(id, if accepted then CountPending else CountRefusal)];
      tasks := if accepted then tasks + [Task(id, Queued, 0, 0)] else tasks;
      assert View() == Step(policy, s, CallStep(i, verdict));
      Took(policy, origin, s, CallStep(i, verdict));
    }

    method CountAccepted(id: RecordId, ghost i: nat, ghost origin: State)
      requires i < |calls| && calls[i] == Call(id, CountPending) && Reaches(policy, origin, View())
      modifies this
      ensures Reaches(policy, origin, View())
      ensures i < |calls| && calls[i] == Call(id, Returned(Enqueued))
    {
      YieldCall(i, origin);
      ghost var s := View();
      pendingCount := pendingCount + 1;
      calls := calls[i := Call(id, Returned(Enqueued))];
      assert View() == Step(policy, s, CallStep(i, Accept));
      Took(policy, origin, s, CallStep(i, Accept));
    }

    method CountRefused(id: RecordId, ghost i: nat, ghost origin: State)
      requires i < |calls| && calls[i] == Call(id, CountRefusal) && Reaches(policy, origin, View())
      modifies this
      ensures Reaches(policy, origin, View())
      ensures i < |calls| && calls[i] == Call(id, AnnounceRefusal)
    {
      YieldCall(i, origin);
      ghost var s := View();
      failedCount := failedCount + 1;
      calls := calls[i := Call(id, AnnounceRefusal)];
      assert View() == Step(policy, s, CallStep(i, Accept));
      Took(policy, origin, s, CallStep(i, Accept));
    }

    method PublishRefused(id: RecordId, ghost i: nat, ghost origin: State)
      requires i < |calls| && calls[i] == Call(id, AnnounceRefusal) && Reaches(policy, origin, View())
      modifies this
      ensures Reaches(policy, origin, View())
      ensures i < |calls| && calls[i] == Call(id, Returned(Refused))
    {
      YieldCall(i, origin);
      ghost var s := View();
      events := events + [Event(FromCall(i), id, false)];
      calls := calls[i := Call(id, Returned(Refused))];
      assert View() == Step(policy, s, CallStep(i, Accept));
      Took(policy, origin, s, CallStep(i, Accept));
    }

    /**
     Every execution of `submit_record` is a run of the state machine that ends with the call returned; how it ends
     follows from what it learned.
     */
    method SubmitRecord(id: RecordId) returns (ghost learned: seq<bool>)
      modifies this
      ensures Reaches(policy, old(View()), View())
      ensures |old(calls)| < |calls| && calls[|old(calls)|].id == id && calls[|old(calls)|].pc.Returned?
      ensures Heard(calls[|old(calls)|], learned)
    {
      ghost var origin := View();
      ghost var i := |calls|;
      assert Run(policy, origin, []) == origin;
      calls := calls + [Call(id, Entered)];
      Took(policy, origin, origin, Invoke(id));
      var up := SeeRunning(i, origin);
      learned := [up];
      if !up {
        return;
      }
      var present := SeePool(i, origin);
      learned := [true, present];
      if !present {
        return;
      }
      var inserted, _ := Claim(id, i, origin);
      learned := [true, true, inserted];
      if !inserted {
        return;
      }
      NotifyProcessing(id, i, origin);
      var accepted := Enqueue(id, i, origin);
      learned := [true, true, true, accepted];
      if accepted {
        CountAccepted(id, i, origin);
      } else {
        CountRefused(id, i, origin);
        PublishRefused(id, i, origin);
      }
    }

    // -------------------------------------------------------------------------
    // Atomic sections of process_record
    // -------------------------------------------------------------------------

    /** An interruptible wait: other threads run, and the task is where it was. */
    method Sleep(delayMs: int, ghost j: nat, ghost origin: State)
      requires delayMs > 0 && j < |tasks| && Reaches(policy, origin, View())
      modifies this
      ensures Reaches(policy, origin, View())
      ensures j < |tasks| && tasks[j] == old(tasks[j])
    {
      YieldTask(j, origin);
    }

    /** One submission to the ledger. */
    method Attempt(id: RecordId, retryCount: nat, ghost j: nat, ghost origin: State) returns (anchored: bool)
      requires j < |tasks| && tasks[j] == Task(id, Submitting, retryCount, retryCount)
      requires Reaches(policy, origin, View())
      modifies this
      ensures Reaches(policy, origin, View())
      ensures j < |tasks|
      ensures tasks[j] == Task(id, if anchored then CountCommit else Deciding, retryCount, retryCount + 1)
    {
      YieldTask(j, origin);
      ghost var s := View();
      anchored := ClientSubmit();
      tasks := tasks[j := Task(id, if anchored then CountCommit else Deciding, retryCount, retryCount + 1)];
      assert View() == Step(policy, s, TaskStep(j, anchored));
      Took(policy, origin, s, TaskStep(j, anchored));
    }

    /** Gives up while draining or when the retry budget is spent. */
    method GiveUp(id: RecordId, retryCount: nat, ghost j: nat, ghost origin: State) returns (stop: bool)
      requires j < |tasks| && tasks[j] == Task(id, Deciding, retryCount, retryCount + 1)
      requires Reaches(policy, origin, View())
      modifies this
      ensures Reaches(policy, origin, View())
      ensures stop <==> !running || retryCount >= policy.maxRetries
      ensures j < |tasks|
      ensures tasks[j] == if stop then Task(id, UncountFailure, retryCount, retryCount + 1)
                          else Task(id, Submitting, retryCount + 1, retryCount + 1)
    {
      YieldTask(j, origin);
      ghost var s := View();
      stop := !running || retryCount >= policy.maxRetries;
      tasks := tasks[j := if stop then Task(id, UncountFailure, retryCount, retryCount + 1)
                          else Task(id, Submitting, retryCount + 1, retryCount + 1)];
      assert View() == Step(policy, s, TaskStep(j, true));
      Took(policy, origin, s, TaskStep(j, true));
    }

    method AddCommitted(ghost j: nat, ghost origin: State)
      requires j < |tasks| && tasks[j].pc == CountCommit && Reaches(policy, origin, View())
      modifies this
      ensures Reaches(policy, origin, View())
      ensures j < |tasks| && tasks[j] == old(tasks[j]).(pc := UncountCommit)
    {
      YieldTask(j, origin);
      ghost var s := View();
      committedCount := committedCount + 1;
      tasks := tasks[j := tasks[j].(pc := UncountCommit)];
      assert View() == Step(policy, s, TaskStep(j, true));
      Took(policy, origin, s, TaskStep(j, true));
    }

    method SubtractPending(ghost j: nat, ghost origin: State)
      requires j < |tasks| && (tasks[j].pc == UncountCommit || tasks[j].pc == UncountFailure)
      requires Reaches(policy, origin, View())
      modifies this
      ensures Reaches(policy, origin, View())
      ensures j < |tasks|
      ensures tasks[j].pc == (if old(tasks[j]).pc == UncountCommit then AnnounceCommit else CountFailure)
      ensures tasks[j] == old(tasks[j]).(pc := tasks[j].pc)
    {
      YieldTask(j, origin);
      ghost var s := View();
      pendingCount := pendingCount - 1;
      tasks := tasks[j := tasks[j].(pc := if tasks[j].pc == UncountCommit then AnnounceCommit else CountFailure)];
      assert View() == Step(policy, s, TaskStep(j, true));
      Took(policy, origin, s, TaskStep(j, true));
    }

    method AddFailed(ghost j: nat, ghost origin: State)
      requires j < |tasks| && tasks[j].pc == CountFailure && Reaches(policy, origin, View())
      modifies this
      ensures Reaches(policy, origin, View())
      ensures j < |tasks| && tasks[j] == old(tasks[j]).(pc := AnnounceFailure)
    {
      YieldTask(j, origin);
      ghost var s := View();
      failedCount := failedCount + 1;
      tasks := tasks[j := tasks[j].(pc := AnnounceFailure)];
      assert View() == Step(policy, s, TaskStep(j, true));
      Took(policy, origin, s, TaskStep(j, true));
    }

    method PublishOutcome(id: RecordId, committed: bool, ghost j: nat, ghost origin: State)
      requires j < |tasks| && tasks[j].id == id
      requires tasks[j].pc == (if committed then AnnounceCommit else AnnounceFailure)
      requires Reaches(policy, origin, View())
      modifies this
      ensures Reaches(policy, origin, View())
      ensures j < |tasks| && tasks[j] == old(tasks[j]).(pc := if committed then ReleaseCommit else ReleaseFailure)
    {
      YieldTask(j, origin);
      ghost var s := View();
      events := events + [Event(FromTask(j), id, committed)];
      tasks := tasks[j := tasks[j].(pc := if committed then ReleaseCommit else ReleaseFailure)];
      assert View() == Step(policy, s, TaskStep(j, true));
      Took(policy, origin, s, TaskStep(j, true));
    }

    method Release(id: RecordId, committed: bool, ghost j: nat, ghost origin: State)
      requires j < |tasks| && tasks[j].id == id && tasks[j].pc == (if committed then ReleaseCommit else ReleaseFailure)
      requires Reaches(policy, origin, View())
      modifies this
      ensures Reaches(policy, origin, View())
      ensures j < |tasks| && tasks[j] == old(tasks[j]).(pc := Done(committed))
    {
      YieldTask(j, origin);
      ghost var s := View();
      inFlight := inFlight - {id};
      tasks := tasks[j := tasks[j].(pc := Done(committed))];
      assert View() == Step(policy, s, TaskStep(j, true));
      Took(policy, origin, s, TaskStep(j, true));
    }

    method FinishCommitted(id: RecordId, ghost j: nat, ghost origin: State)
      requires j < |tasks| && tasks[j].id == id && tasks[j].pc == CountCommit && Reaches(policy, origin, View())
      modifies this
      ensures Reaches(policy, origin, View())
      ensures j < |tasks| && tasks[j] == old(tasks[j]).(pc := Done(true))
    {
      AddCommitted(j, origin);
      SubtractPending(j, origin);
      PublishOutcome(id, true, j, origin);
      Release(id, true, j, origin);
    }

    method FinishFailed(id: RecordId, ghost j: nat, ghost origin: State)
      requires j < |tasks| && tasks[j].id == id && tasks[j].pc == UncountFailure && Reaches(policy, origin, View())
      modifies this
      ensures Reaches(policy, origin, View())
      ensures j < |tasks| && tasks[j] == old(tasks[j]).(pc := Done(false))
    {
      SubtractPending(j, origin);
      AddFailed(j, origin);
      PublishOutcome(id, false, j, origin);
      Release(id, false, j, origin);
    }

    /**
     Every execution of `process_record` is a run of the state machine that ends with its task finished. It submits
     again after a no exactly if `running_` is true and there is retry budget left, and commits exactly if the client
     anchored a submission.
     */
    method ProcessRecord(id: RecordId, ghost j: nat) returns (ghost answers: seq<bool>, ghost readings: seq<bool>)
      requires j < |tasks| && tasks[j] == Task(id, Queued, 0, 0)
      modifies this
      ensures Reaches(policy, old(View()), View())
      ensures j < |tasks| && tasks[j].pc.Done? && tasks[j].attempts == |answers| <= RetryBudget(policy) + 1
      ensures Ended(policy, tasks[j].pc.committed, answers, readings)
    {
      ghost var origin := View();
      assert Run(policy, origin, []) == origin;
      tasks := tasks[j := Task(id, Submitting, 0, 0)];
      Took(policy, origin, origin, TaskStep(j, true));
      answers, readings := [], [];
      var retryCount := 0;
      while true
        invariant Retried(policy, answers, readings, retryCount)
        invariant j < |tasks| && tasks[j] == Task(id, Submitting, retryCount, retryCount)
        invariant Reaches(policy, origin, View())
        decreases RetryBudget(policy) - retryCount
      {
        var anchored := Attempt(id, retryCount, j, origin);
        if anchored {
          OneMore(policy, answers, readings, retryCount, running);
          answers := answers + [true];
          FinishCommitted(id, j, origin);
          return;
        }
        var stop := GiveUp(id, retryCount, j, origin);
        OneMore(policy, answers, readings, retryCount, running);
        answers, readings := answers + [false], readings + [running];
        if stop {
          break;
        }
        retryCount := retryCount + 1;
        var delayMs := BackoffDelay(retryCount);
        if delayMs > 0 {
          Sleep(delayMs, j, origin);
        }
      }
      FinishFailed(id, j, origin);
    }

    /** The wait before retry `retryCount`: the base delay multiplied once per earlier retry, capped. */
    method BackoffDelay(retryCount: nat) returns (delayMs: int)
      requires retryCount >= 1
      ensures delayMs == Least(policy.baseDelayMs * Power(policy.delayMultiplier, retryCount - 1), policy.maxDelayMs)
    {
      delayMs := policy.baseDelayMs;
      for i := 1 to retryCount
        invariant delayMs == policy.baseDelayMs * Power(policy.delayMultiplier, i - 1)
      {
        delayMs := delayMs * policy.delayMultiplier;
      }
      if delayMs > policy.maxDelayMs {
        delayMs := policy.maxDelayMs;
      }
    }
  }

  function Least(a: int, b: int): int { if a <= b then a else b }

  function Power(b: int, e: nat): int { if e == 0 then 1 else Power(b, e - 1) * b }
}
