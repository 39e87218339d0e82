/**
 Asynchronous ledger anchoring (src/ledger/ledger_worker.cpp).

 Submitting threads and pool workers share `running_`, the in-flight set and three
 counters. The model is a state machine whose steps are the atomic sections of
 `submit_record` and `process_record`: one thread is chosen, and it executes up to its
 next shared access. The class in `LedgerWorkers` carries the same code in the shape of the
 source and is shown to take only steps of this state machine, whatever the other threads do
 in between.
 */
module Ledger {
  import opened Sums

  type RecordId = string

  datatype RetryPolicy = RetryPolicy(maxRetries: int, baseDelayMs: int, maxDelayMs: int, delayMultiplier: int)

  /** Retries the loop can make; a negative setting behaves like zero. */
  function RetryBudget(policy: RetryPolicy): nat {
    if policy.maxRetries < 0 then 0 else policy.maxRetries
  }

  // ---------------------------------------------------------------------------
  // State
  // ---------------------------------------------------------------------------

  /** How a call of `submit_record` ended. */
  datatype CallResult = NotRunning | Duplicate | Enqueued | Refused

  /** The next atomic section of a call of `submit_record`. */
  datatype CallPc =
    | Entered              // about to read running_
    | SawRunning           // about to compare pool_ with nullptr
    | Admitted             // about to insert into in_flight_
    | Claimed              // about to run the processing callback, whose exceptions are swallowed
    | Offering             // about to offer a task to the pool
    | CountPending         // the pool accepted: about to run ++pending_count_
    | CountRefusal         // the pool rejected or threw: about to run ++failed_count_
    | AnnounceRefusal      // about to publish LEDGER_COMMIT_FAILED
    | Returned(result: CallResult)

  datatype Call = Call(id: RecordId, pc: CallPc)

  /** The next atomic section of a task running `process_record`. */
  datatype TaskPc =
    | Queued
    | Submitting           // about to call the ledger client
    | Deciding             // about to read running_ and compare the retry count
    | CountCommit | UncountCommit | AnnounceCommit | ReleaseCommit
    | UncountFailure | CountFailure | AnnounceFailure | ReleaseFailure
    | Done(committed: bool)

  datatype Task = Task(id: RecordId, pc: TaskPc, retries: nat, attempts: nat)

  datatype Source = FromCall(call: nat) | FromTask(task: nat)

  /** A published LEDGER_COMMITTED or LEDGER_COMMIT_FAILED notification. */
  datatype Event = Event(source: Source, id: RecordId, committed: bool)

  datatype State = State(
    running: bool, pool: bool, inFlight: set<RecordId>,
    committed: int, failed: int, pending: int,
    calls: seq<Call>, tasks: seq<Task>, events: seq<Event>)

  const INITIAL := State(false, false, {}, 0, 0, 0, [], [], [])

  // ---------------------------------------------------------------------------
  // Steps
  // ---------------------------------------------------------------------------

  /** What the pool answers to `enqueue`; a throw is handled like a rejection. */
  datatype Verdict = Accept | Reject | Throw

  datatype Action =
    | SetRunning(value: bool)                    // start() and drain_and_stop() exchange the flag
    | SetPool(present: bool)                     // the pool is set or cleared
    | Invoke(id: RecordId)                       // a thread calls submit_record
    | CallStep(call: nat, verdict: Verdict)      // verdict matters only while Offering
    | TaskStep(task: nat, anchored: bool)        // anchored matters only while Submitting

  /** What one atomic section does to the shared state. */
  datatype Effect = Effect(
    claim: set<RecordId>, release: set<RecordId>,
    committed: int, failed: int, pending: int,
    spawn: seq<Task>, publish: seq<Event>)

  const NONE := Effect({}, {}, 0, 0, 0, [], [])

  /**
   The section a call executes next. `admitted` is what it reads from `running_` or `pool_`,
   `taken` whether its id is already in the in-flight set.
   */
  function CallSection(c: Call, i: nat, admitted: bool, taken: bool, verdict: Verdict): (CallPc, Effect) {
    match c.pc
    case Entered => (if admitted then SawRunning else Returned(NotRunning), NONE)
    case SawRunning => (if admitted then Admitted else Returned(NotRunning), NONE)
    case Admitted => if taken then (Returned(Duplicate), NONE) else (Claimed, NONE.(claim := {c.id}))
    case Claimed => (Offering, NONE)
    case Offering =>
      if verdict.Accept? then (CountPending, NONE.(spawn := [Task(c.id, Queued, 0, 0)])) else (CountRefusal, NONE)
    case CountPending => (Returned(Enqueued), NONE.(pending := 1))
    case CountRefusal => (AnnounceRefusal, NONE.(failed := 1))
    case AnnounceRefusal => (Returned(Refused), NONE.(publish := [Event(FromCall(i), c.id, false)]))
    case Returned(_) => (c.pc, NONE)
  }

  /** The section a task executes next; `anchored` is the ledger client's answer. */
  function TaskSection(policy: RetryPolicy, t: Task, j: nat, running: bool, anchored: bool): (Task, Effect) {
    match t.pc
    case Queued => (t.(pc := Submitting), NONE)
    case Submitting => (t.(pc := if anchored then CountCommit else Deciding, attempts := t.attempts + 1), NONE)
    case Deciding =>
      if !running || t.retries >= policy.maxRetries then (t.(pc := UncountFailure), NONE)
      else (t.(pc := Submitting, retries := t.retries + 1), NONE)
    case CountCommit => (t.(pc := UncountCommit), NONE.(committed := 1))
    case UncountCommit => (t.(pc := AnnounceCommit), NONE.(pending := -1))
    case AnnounceCommit => (t.(pc := ReleaseCommit), NONE.(publish := [Event(FromTask(j), t.id, true)]))
    case ReleaseCommit => (t.(pc := Done(true)), NONE.(release := {t.id}))
    case UncountFailure => (t.(pc := CountFailure), NONE.(pending := -1))
    case CountFailure => (t.(pc := AnnounceFailure), NONE.(failed := 1))
    case AnnounceFailure => (t.(pc := ReleaseFailure), NONE.(publish := [Event(FromTask(j), t.id, false)]))
    case ReleaseFailure => (t.(pc := Done(false)), NONE.(release := {t.id}))
    case Done(_) => (t, NONE)
  }

  /** The shared state after `e`, with the thread lists as given. */
  function Apply(s: State, calls: seq<Call>, tasks: seq<Task>, e: Effect): State {
    State(s.running, s.pool, s.inFlight + e.claim - e.release,
          s.committed + e.committed, s.failed + e.failed, s.pending + e.pending,
          calls, tasks + e.spawn, s.events + e.publish)
  }

  /** What a call reads next: first `running_`, then `pool_`. */
  predicate CanProceed(s: State, c: Call) { if c.pc.Entered? then s.running else s.pool }

  function StepCall(s: State, i: nat, verdict: Verdict): State
    requires i < |s.calls|
  {
    var c := s.calls[i];
    var (pc, e) := CallSection(c, i, CanProceed(s, c), c.id in s.inFlight, verdict);
    Apply(s, s.calls[i := c.(pc := pc)], s.tasks, e)
  }

  function StepTask(policy: RetryPolicy, s: State, j: nat, anchored: bool): State
    requires j < |s.tasks|
  {
    var (t, e) := TaskSection(policy, s.tasks[j], j, s.running, anchored);
    Apply(s, s.calls, s.tasks[j := t], e)
  }

  /** One step; an action naming a thread that does not exist changes nothing. */
  function Step(policy: RetryPolicy, s: State, a: Action): State {
    match a
    case SetRunning(value) => s.(running := value)
    case SetPool(present) => s.(pool := present)
    case Invoke(id) => s.(calls := s.calls + [Call(id, Entered)])
    case CallStep(i, verdict) => if i < |s.calls| then StepCall(s, i, verdict) else s
    case TaskStep(j, anchored) => if j < |s.tasks| then StepTask(policy, s, j, anchored) else s
  }

  /** An interleaving: the actions of all threads in the order they took effect. */
  function Run(policy: RetryPolicy, s: State, acts: seq<Action>): State {
    if acts == [] then s else Step(policy, Run(policy, s, acts[..|acts| - 1]), acts[|acts| - 1])
  }

  // ---------------------------------------------------------------------------
  // Weights: what a thread at a given point has contributed
  // ---------------------------------------------------------------------------

  /** The call put `r` into the in-flight set and no task has taken it over. */
  function HoldsId(r: RecordId, c: Call): int {
    if c.id == r && (AboutToOffer(c) || RefusedCall(c)) then 1 else 0
  }

  predicate AboutToOffer(c: Call) { c.pc.Claimed? || c.pc.Offering? }

  predicate RefusedCall(c: Call) {
    c.pc.CountRefusal? || c.pc.AnnounceRefusal? || c.pc == Returned(Refused)
  }

  function LiveFor(r: RecordId, t: Task): int {
    if t.id == r && !t.pc.Done? then 1 else 0
  }

  /** An accepted call that has not yet incremented `pending_count_`. */
  function OwesIncrement(u: (), c: Call): int { if c.pc.CountPending? then 1 else 0 }

  /** A task that has not yet decremented `pending_count_`. */
  function OwesDecrement(u: (), t: Task): int {
    match t.pc
    case Queued | Submitting | Deciding | CountCommit | UncountCommit | UncountFailure => 1
    case _ => 0
  }

  function CommitsCounted(u: (), t: Task): int {
    match t.pc
    case UncountCommit | AnnounceCommit | ReleaseCommit => 1
    case Done(committed) => if committed then 1 else 0
    case _ => 0
  }

  function FailuresCounted(u: (), t: Task): int {
    match t.pc
    case AnnounceFailure | ReleaseFailure => 1
    case Done(committed) => if committed then 0 else 1
    case _ => 0
  }

  function RefusalsCounted(u: (), c: Call): int {
    if c.pc.AnnounceRefusal? || c.pc == Returned(Refused) then 1 else 0
  }

  function WasAccepted(u: (), c: Call): int {
    if c.pc.CountPending? || c.pc == Returned(Enqueued) then 1 else 0
  }

  /** The call returned after passing both the running check and the duplicate check. */
  function NonDuplicate(u: (), c: Call): int {
    if c.pc == Returned(Enqueued) || c.pc == Returned(Refused) then 1 else 0
  }

  function SentBy(source: Source, e: Event): int { if e.source == source then 1 else 0 }

  function TaskAnnounced(t: Task): int {
    if t.pc.ReleaseCommit? || t.pc.ReleaseFailure? || t.pc.Done? then 1 else 0
  }

  function CallAnnounced(c: Call): int { if c.pc == Returned(Refused) then 1 else 0 }

  // ---------------------------------------------------------------------------
  // The laws every reachable state obeys
  // ---------------------------------------------------------------------------

  /** An id is in flight exactly as often as some call or live task holds it: once or never. */
  ghost predicate ClaimLaw(s: State, r: RecordId) {
    Sum(HoldsId, r, s.calls) + Sum(LiveFor, r, s.tasks) == if r in s.inFlight then 1 else 0
  }

  ghost predicate PendingLaw(s: State) {
    s.pending == Sum(OwesDecrement, (), s.tasks) - Sum(OwesIncrement, (), s.calls)
  }

  ghost predicate OutcomeLaw(s: State) {
    && s.committed == Sum(CommitsCounted, (), s.tasks)
    && s.failed == Sum(FailuresCounted, (), s.tasks) + Sum(RefusalsCounted, (), s.calls)
    && |s.tasks| == Sum(WasAccepted, (), s.calls)
  }

  ghost predicate TaskEvents(s: State, j: nat)
    requires j < |s.tasks|
  {
    Sum(SentBy, FromTask(j), s.events) == TaskAnnounced(s.tasks[j])
  }

  ghost predicate CallEvents(s: State, i: nat)
    requires i < |s.calls|
  {
    Sum(SentBy, FromCall(i), s.events) == CallAnnounced(s.calls[i])
  }

  /** An event tells the truth about the thread that published it. */
  predicate Truthful(s: State, e: Event) {
    match e.source
    case FromCall(i) =>
      i < |s.calls| && s.calls[i] == Call(e.id, Returned(Refused)) && !e.committed
    case FromTask(j) =>
      && j < |s.tasks| && s.tasks[j].id == e.id
      && (s.tasks[j].pc == (if e.committed then ReleaseCommit else ReleaseFailure)
          || s.tasks[j].pc == Done(e.committed))
  }

  ghost predicate EventLaw(s: State) {
    && (forall j: nat :: j < |s.tasks| ==> TaskEvents(s, j))
    && (forall i: nat :: i < |s.calls| ==> CallEvents(s, i))
    && (forall e <- s.events :: Truthful(s, e))
  }

  /** Ledger submissions made so far, tied to the retry counter at each point of the loop. */
  predicate AttemptLaw(policy: RetryPolicy, t: Task) {
    && t.retries <= RetryBudget(policy)
    && match t.pc
       case Queued => t.retries == 0 && t.attempts == 0
       case Submitting => t.attempts == t.retries
       case _ => t.attempts == t.retries + 1
  }

  ghost predicate Inv(policy: RetryPolicy, s: State) {
    && (forall r: RecordId :: ClaimLaw(s, r))
    && PendingLaw(s) && OutcomeLaw(s) && EventLaw(s)
    && (forall t <- s.tasks :: AttemptLaw(policy, t))
  }

  // ---------------------------------------------------------------------------
  // Every step keeps the laws
  // ---------------------------------------------------------------------------

  // The books of one section: what it adds to a counter it also adds to its own weight.

  lemma CallBooks(c: Call, i: nat, admitted: bool, taken: bool, verdict: Verdict)
    ensures var (pc, e) := CallSection(c, i, admitted, taken, verdict);
            var c' := c.(pc := pc);
            && e.pending == OwesIncrement((), c) - OwesIncrement((), c') + |e.spawn|
            && e.failed == RefusalsCounted((), c') - RefusalsCounted((), c)
            && |e.spawn| == WasAccepted((), c') - WasAccepted((), c)
            && e.committed == 0 && e.release == {}
            && (e.spawn == [] || e.spawn == [Task(c.id, Queued, 0, 0)])
  {
  }

  lemma TaskBooks(policy: RetryPolicy, t: Task, j: nat, running: bool, anchored: bool)
    ensures var (t', e) := TaskSection(policy, t, j, running, anchored);
            && e.pending == OwesDecrement((), t') - OwesDecrement((), t)
            && e.failed == FailuresCounted((), t') - FailuresCounted((), t)
            && e.committed == CommitsCounted((), t') - CommitsCounted((), t)
            && e.spawn == [] && e.claim == {} && t'.id == t.id
  {
  }

  lemma SpawnSum<P>(w: (P, Task) -> int, p: P, tasks: seq<Task>, spawn: seq<Task>)
    requires |spawn| <= 1
    ensures Sum(w, p, tasks + spawn) == Sum(w, p, tasks) + if spawn == [] then 0 else w(p, spawn[0])
  {
    if spawn == [] {
      assert tasks + spawn == tasks;
    } else {
      assert spawn == [spawn[0]];
      SumAppend(w, p, tasks, spawn[0]);
    }
  }

  lemma CallStepKeepsPending(s: State, i: nat, verdict: Verdict)
    requires i < |s.calls| && PendingLaw(s)
    ensures PendingLaw(StepCall(s, i, verdict))
  {
    var c := s.calls[i];
    CallBooks(c, i, CanProceed(s, c), c.id in s.inFlight, verdict);
    var (pc, e) := CallSection(c, i, CanProceed(s, c), c.id in s.inFlight, verdict);
    SumUpdate(OwesIncrement, (), s.calls, i, c.(pc := pc));
    SpawnSum(OwesDecrement, (), s.tasks, e.spawn);
  }

  lemma CallStepKeepsOutcomes(s: State, i: nat, verdict: Verdict)
    requires i < |s.calls| && OutcomeLaw(s)
    ensures OutcomeLaw(StepCall(s, i, verdict))
  {
    var c := s.calls[i];
    CallBooks(c, i, CanProceed(s, c), c.id in s.inFlight, verdict);
    var (pc, e) := CallSection(c, i, CanProceed(s, c), c.id in s.inFlight, verdict);
    OutcomesAfterCall(s, StepCall(s, i, verdict), i, c.(pc := pc), e);
  }

  lemma OutcomesAfterCall(s: State, s': State, i: nat, c: Call, e: Effect)
    requires i < |s.calls| && OutcomeLaw(s)
    requires s'.calls == s.calls[i := c] && s'.tasks == s.tasks + e.spawn
    requires s'.committed == s.committed && s'.failed == s.failed + e.failed
    requires e.failed == RefusalsCounted((), c) - RefusalsCounted((), s.calls[i])
    requires |e.spawn| == WasAccepted((), c) - WasAccepted((), s.calls[i])
    requires e.spawn == [] || e.spawn == [Task(c.id, Queued, 0, 0)]
    ensures OutcomeLaw(s')
  {
    SumUpdate(RefusalsCounted, (), s.calls, i, c);
    SumUpdate(WasAccepted, (), s.calls, i, c);
    SpawnSum(CommitsCounted, (), s.tasks, e.spawn);
    SpawnSum(FailuresCounted, (), s.tasks, e.spawn);
  }

  lemma TaskStepKeepsCounters(policy: RetryPolicy, s: State, j: nat, anchored: bool)
    requires j < |s.tasks|
    requires PendingLaw(s) && OutcomeLaw(s)
    ensures var s' := StepTask(policy, s, j, anchored); PendingLaw(s') && OutcomeLaw(s')
  {
    TaskBooks(policy, s.tasks[j], j, s.running, anchored);
    var (t, e) := TaskSection(policy, s.tasks[j], j, s.running, anchored);
    SumUpdate(OwesDecrement, (), s.tasks, j, t);
    SumUpdate(CommitsCounted, (), s.tasks, j, t);
    SumUpdate(FailuresCounted, (), s.tasks, j, t);
    assert s.tasks[j := t] + e.spawn == s.tasks[j := t];
  }

  /** A call adds a holder of `r` only by claiming it, and hands it over to at most one task. */
  lemma CallClaims(c: Call, i: nat, admitted: bool, taken: bool, verdict: Verdict, r: RecordId)
    ensures var (pc, e) := CallSection(c, i, admitted, taken, verdict);
            && HoldsId(r, c.(pc := pc)) - HoldsId(r, c) + (if e.spawn == [] then 0 else LiveFor(r, e.spawn[0]))
                 == (if r in e.claim then 1 else 0)
            && e.release == {} && (e.claim != {} ==> !taken && e.claim == {c.id})
            && |e.spawn| <= 1
  {
  }

  lemma TaskClaims(policy: RetryPolicy, t: Task, j: nat, running: bool, anchored: bool, r: RecordId)
    ensures var (t', e) := TaskSection(policy, t, j, running, anchored);
            && LiveFor(r, t) - LiveFor(r, t') == (if r in e.release then 1 else 0)
            && e.claim == {} && e.spawn == []
  {
  }

  lemma CallStepKeepsClaims(s: State, i: nat, verdict: Verdict, r: RecordId)
    requires i < |s.calls| && ClaimLaw(s, r)
    ensures ClaimLaw(StepCall(s, i, verdict), r)
  {
    var c := s.calls[i];
    CallClaims(c, i, CanProceed(s, c), c.id in s.inFlight, verdict, r);
    var (pc, e) := CallSection(c, i, CanProceed(s, c), c.id in s.inFlight, verdict);
    SumUpdate(HoldsId, r, s.calls, i, c.(pc := pc));
    SpawnSum(LiveFor, r, s.tasks, e.spawn);
  }

  /** Releasing an id removes its only holder. */
  lemma TaskStepKeepsClaims(policy: RetryPolicy, s: State, j: nat, anchored: bool, r: RecordId)
    requires j < |s.tasks| && ClaimLaw(s, r)
    ensures ClaimLaw(StepTask(policy, s, j, anchored), r)
  {
    TaskClaims(policy, s.tasks[j], j, s.running, anchored, r);
    var (t, e) := TaskSection(policy, s.tasks[j], j, s.running, anchored);
    SumUpdate(LiveFor, r, s.tasks, j, t);
    SumNonNegative(HoldsId, r, s.calls);
    SumTwo(LiveFor, r, s.tasks, j, j);
    assert s.tasks[j := t] + e.spawn == s.tasks[j := t];
  }

  // Events

  /** A section publishes in its own name, once, at the moment its pc says so. */
  lemma CallPublishes(c: Call, i: nat, admitted: bool, taken: bool, verdict: Verdict)
    ensures var (pc, e) := CallSection(c, i, admitted, taken, verdict);
            && |e.publish| == CallAnnounced(c.(pc := pc)) - CallAnnounced(c)
            && (e.publish == [] || (e.publish == [Event(FromCall(i), c.id, false)] && pc == Returned(Refused)))
            && |e.spawn| <= 1
            && (e.spawn != [] ==> TaskAnnounced(e.spawn[0]) == 0)
            && (c.pc.Returned? ==> pc == c.pc)
  {
  }

  lemma TaskPublishes(policy: RetryPolicy, t: Task, j: nat, running: bool, anchored: bool)
    ensures var (t', e) := TaskSection(policy, t, j, running, anchored);
            && |e.publish| == TaskAnnounced(t') - TaskAnnounced(t)
            && (e.publish == []
                || (e.publish == [Event(FromTask(j), t.id, true)] && t'.pc.ReleaseCommit?)
                || (e.publish == [Event(FromTask(j), t.id, false)] && t'.pc.ReleaseFailure?))
            && e.spawn == []
            && t'.id == t.id
            && (t.pc.ReleaseCommit? ==> t'.pc == Done(true))
            && (t.pc.ReleaseFailure? ==> t'.pc == Done(false))
            && (t.pc.Done? ==> t'.pc == t.pc)
  {
  }

  lemma PublishSum(source: Source, events: seq<Event>, publish: seq<Event>)
    requires |publish| <= 1
    ensures Sum(SentBy, source, events + publish)
         == Sum(SentBy, source, events) + if publish == [] then 0 else SentBy(source, publish[0])
  {
    if publish == [] {
      assert events + publish == events;
    } else {
      assert publish == [publish[0]];
      SumAppend(SentBy, source, events, publish[0]);
    }
  }

  /** Before a thread exists it has published nothing. */
  lemma NoEventsYet(s: State, source: Source)
    requires EventLaw(s)
    requires match source case FromCall(i) => i >= |s.calls| case FromTask(j) => j >= |s.tasks|
    ensures Sum(SentBy, source, s.events) == 0
  {
    forall e <- s.events ensures SentBy(source, e) == 0 {
      assert Truthful(s, e);
    }
    SumZero(SentBy, source, s.events);
  }

  lemma CallStepKeepsEvents(s: State, i: nat, verdict: Verdict)
    requires i < |s.calls| && EventLaw(s)
    ensures EventLaw(StepCall(s, i, verdict))
  {
    var c := s.calls[i];
    CallPublishes(c, i, CanProceed(s, c), c.id in s.inFlight, verdict);
    var (pc, e) := CallSection(c, i, CanProceed(s, c), c.id in s.inFlight, verdict);
    EventsAfterCall(s, StepCall(s, i, verdict), i, pc, e);
  }

  lemma EventsAfterCall(s: State, s': State, i: nat, pc: CallPc, e: Effect)
    requires i < |s.calls| && EventLaw(s)
    requires s'.calls == s.calls[i := s.calls[i].(pc := pc)]
    requires s'.tasks == s.tasks + e.spawn && s'.events == s.events + e.publish
    requires |e.publish| == CallAnnounced(s'.calls[i]) - CallAnnounced(s.calls[i])
    requires e.publish == [] || (e.publish == [Event(FromCall(i), s.calls[i].id, false)] && pc == Returned(Refused))
    requires |e.spawn| <= 1 && (e.spawn != [] ==> TaskAnnounced(e.spawn[0]) == 0)
    requires s.calls[i].pc.Returned? ==> pc == s.calls[i].pc
    ensures EventLaw(s')
  {
    forall k: nat | k < |s'.tasks| ensures TaskEvents(s', k) {
      PublishSum(FromTask(k), s.events, e.publish);
      if k < |s.tasks| { assert TaskEvents(s, k); } else { NoEventsYet(s, FromTask(k)); }
    }
    forall k: nat | k < |s'.calls| ensures CallEvents(s', k) {
      PublishSum(FromCall(k), s.events, e.publish);
      assert CallEvents(s, k);
    }
    forall x <- s'.events ensures Truthful(s', x) {
      if x in s.events { assert Truthful(s, x); }
    }
  }

  lemma TaskStepKeepsEvents(policy: RetryPolicy, s: State, j: nat, anchored: bool)
    requires j < |s.tasks| && EventLaw(s)
    ensures EventLaw(StepTask(policy, s, j, anchored))
  {
    TaskPublishes(policy, s.tasks[j], j, s.running, anchored);
    var (t, e) := TaskSection(policy, s.tasks[j], j, s.running, anchored);
    var s' := StepTask(policy, s, j, anchored);
    assert s'.calls == s.calls && s'.tasks == s.tasks[j := t] && s'.events == s.events + e.publish;
    forall k: nat | k < |s'.tasks| ensures TaskEvents(s', k) {
      PublishSum(FromTask(k), s.events, e.publish);
      assert TaskEvents(s, k);
    }
    forall k: nat | k < |s'.calls| ensures CallEvents(s', k) {
      PublishSum(FromCall(k), s.events, e.publish);
      assert CallEvents(s, k);
    }
    forall x <- s'.events ensures Truthful(s', x) {
      if x in s.events { assert Truthful(s, x); }
    }
  }

  // All laws together

  lemma TaskAttempts(policy: RetryPolicy, t: Task, j: nat, running: bool, anchored: bool)
    requires AttemptLaw(policy, t)
    ensures AttemptLaw(policy, TaskSection(policy, t, j, running, anchored).0)
  {
  }

  lemma CallStepKeepsInv(policy: RetryPolicy, s: State, i: nat, verdict: Verdict)
    requires i < |s.calls| && Inv(policy, s)
    ensures Inv(policy, StepCall(s, i, verdict))
  {
    forall r: RecordId ensures ClaimLaw(StepCall(s, i, verdict), r) {
      assert ClaimLaw(s, r);
      CallStepKeepsClaims(s, i, verdict, r);
    }
    CallStepKeepsPending(s, i, verdict);
    CallStepKeepsOutcomes(s, i, verdict);
    CallStepKeepsEvents(s, i, verdict);
    CallBooks(s.calls[i], i, CanProceed(s, s.calls[i]), s.calls[i].id in s.inFlight, verdict);
  }

  lemma TaskStepKeepsInv(policy: RetryPolicy, s: State, j: nat, anchored: bool)
    requires j < |s.tasks| && Inv(policy, s)
    ensures Inv(policy, StepTask(policy, s, j, anchored))
  {
    forall r: RecordId ensures ClaimLaw(StepTask(policy, s, j, anchored), r) {
      assert ClaimLaw(s, r);
      TaskStepKeepsClaims(policy, s, j, anchored, r);
    }
    TaskStepKeepsCounters(policy, s, j, anchored);
    TaskStepKeepsEvents(policy, s, j, anchored);
    TaskAttempts(policy, s.tasks[j], j, s.running, anchored);
    TaskBooks(policy, s.tasks[j], j, s.running, anchored);
  }

  lemma InvokeKeepsClaim(s: State, s': State, c: Call, r: RecordId)
    requires ClaimLaw(s, r) && c.pc == Entered && s' == s.(calls := s.calls + [c])
    ensures ClaimLaw(s', r)
  {
    SumAppend(HoldsId, r, s.calls, c);
  }

  lemma InvokeKeepsCounters(s: State, s': State, c: Call)
    requires PendingLaw(s) && OutcomeLaw(s) && c.pc == Entered && s' == s.(calls := s.calls + [c])
    ensures PendingLaw(s') && OutcomeLaw(s')
  {
    SumAppend(OwesIncrement, (), s.calls, c);
    SumAppend(RefusalsCounted, (), s.calls, c);
    SumAppend(WasAccepted, (), s.calls, c);
  }

  lemma InvokeKeepsEvents(s: State, s': State, c: Call)
    requires EventLaw(s) && c.pc == Entered && s' == s.(calls := s.calls + [c])
    ensures EventLaw(s')
  {
    NoEventsYet(s, FromCall(|s.calls|));
    assert forall j: nat :: j < |s.tasks| ==> TaskEvents(s, j) == TaskEvents(s', j);
    assert forall i: nat :: i < |s.calls| ==> CallEvents(s, i) == CallEvents(s', i);
    assert forall e <- s.events :: Truthful(s, e) ==> Truthful(s', e);
  }

  lemma InvokeKeepsInv(policy: RetryPolicy, s: State, id: RecordId)
    requires Inv(policy, s)
    ensures Inv(policy, Step(policy, s, Invoke(id)))
  {
    var s', c := Step(policy, s, Invoke(id)), Call(id, Entered);
    forall r: RecordId ensures ClaimLaw(s', r) {
      assert ClaimLaw(s, r);
      InvokeKeepsClaim(s, s', c, r);
    }
    InvokeKeepsCounters(s, s', c);
    InvokeKeepsEvents(s, s', c);
  }

  lemma FlagKeepsInv(policy: RetryPolicy, s: State, s': State)
    requires Inv(policy, s) && s' == s.(running := s'.running, pool := s'.pool)
    ensures Inv(policy, s')
  {
    forall r: RecordId ensures ClaimLaw(s', r) {
      assert ClaimLaw(s, r);
    }
    assert forall j: nat :: j < |s.tasks| ==> TaskEvents(s, j) == TaskEvents(s', j);
    assert forall i: nat :: i < |s.calls| ==> CallEvents(s, i) == CallEvents(s', i);
    assert forall e <- s.events :: Truthful(s, e) == Truthful(s', e);
  }
}
