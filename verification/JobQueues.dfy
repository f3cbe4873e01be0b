/**
  The database job queue: enqueue, claim, complete, fail and stale recovery, each one atomic step, and
  what any interleaving of several workers keeps.
 */
module JobQueues {
  import opened Wrappers

  datatype Status = Pending | Running | Succeeded | DeadLetter

  datatype Job = Job(
    kind: string,
    status: Status,
    attempt: nat,
    maxAttempts: int,
    availableAt: int,
    nextRunAt: Option<int>,
    lockedBy: Option<string>,
    lockedAt: Option<int>,
    lastError: Option<string>)

  /** What a worker holds of a job it claimed. */
  datatype Claimed = Claimed(id: nat, kind: string)

  datatype JobFailed = JobFailed(jobId: nat, jobCode: string, attempt: int, maxAttempts: int)

  datatype Config = Config(retryDelaySeconds: int, runningTimeoutSeconds: int, emitJobFailureEvents: bool)

  /**
    The tables, rows numbered by identifier, with two records of the past: how often each job was
    claimed, and which jobs `Fail` has dead-lettered.
   */
  datatype Store = Store(jobs: seq<Job>, outbox: seq<JobFailed>, claims: multiset<nat>, failed: set<nat>)

  const TIMEOUT_MESSAGE := "Queue job running timeout exceeded"

  predicate IsWebhook(kind: string) { "webhook." <= kind }

  // ----- The operations

  function NewJob(kind: string, maxAttempts: int, now: int): Job {
    Job(kind, Pending, 0, maxAttempts, now, None, None, None, None)
  }

  predicate Ready(job: Job, now: int, kind: Option<string>) {
    && job.status == Pending
    && job.availableAt <= now
    && (job.nextRunAt.Some? ==> job.nextRunAt.value <= now)
    && (kind.Some? ==> job.kind == kind.value)
  }

  /** The least identifier, from `from` on, of a ready job. */
  function FirstReady(jobs: seq<Job>, from: nat, now: int, kind: Option<string>): (id: Option<nat>)
    requires from <= |jobs|
    ensures id.Some? ==> from <= id.value < |jobs| && Ready(jobs[id.value], now, kind)
    ensures id.Some? ==> forall i | from <= i < id.value :: !Ready(jobs[i], now, kind)
    ensures id.None? ==> forall i | from <= i < |jobs| :: !Ready(jobs[i], now, kind)
    decreases |jobs| - from
  {
    if from == |jobs| then None
    else if Ready(jobs[from], now, kind) then Some(from) else FirstReady(jobs, from + 1, now, kind)
  }

  function Start(job: Job, workerId: string, now: int): Job {
    job.(status := Running, attempt := job.attempt + 1, lockedBy := Some(workerId), lockedAt := Some(now))
  }

  function Finish(job: Job): Job {
    job.(status := Succeeded, lockedBy := None, lockedAt := None)
  }

  function Retry(job: Job, attempt: int, maxAttempts: int, error: string, retryAt: int): Job {
    var final := attempt >= maxAttempts;
    job.(status := if final then DeadLetter else Pending, lockedBy := None, lockedAt := None,
         lastError := Some(error), nextRunAt := if final then None else Some(retryAt))
  }

  predicate Stale(job: Job, cutoff: int) {
    job.status == Running && job.lockedAt.Some? && job.lockedAt.value <= cutoff
  }

  function Unlock(job: Job, now: int): Job {
    var final := job.attempt >= job.maxAttempts;
    job.(status := if final then DeadLetter else Pending, lockedBy := None, lockedAt := None,
         lastError := if job.lastError.Some? then job.lastError else Some(TIMEOUT_MESSAGE),
         nextRunAt := if final then None else Some(now))
  }

  function Enqueue(s: Store, kind: string, maxAttempts: int, now: int): Store {
    s.(jobs := s.jobs + [NewJob(kind, maxAttempts, now)])
  }

  function Claim(s: Store, workerId: string, kind: Option<string>, now: int): (Store, Option<Claimed>) {
    match FirstReady(s.jobs, 0, now, kind)
    case None => (s, None)
    case Some(id) =>
      (s.(jobs := s.jobs[id := Start(s.jobs[id], workerId, now)], claims := s.claims + multiset{id}),
       Some(Claimed(id, s.jobs[id].kind)))
  }

  function Complete(s: Store, id: nat): Store {
    if id < |s.jobs| then s.(jobs := s.jobs[id := Finish(s.jobs[id])]) else s
  }

  /** A missing row reads as attempt 1 of 1. */
  function Fail(s: Store, job: Claimed, error: string, config: Config, now: int): Store {
    var found := job.id < |s.jobs|;
    var attempt := if found then s.jobs[job.id].attempt else 1;
    var maxAttempts := if found then s.jobs[job.id].maxAttempts else 1;
    var final := attempt >= maxAttempts;
    Store(
      if found then
        s.jobs[job.id := Retry(s.jobs[job.id], attempt, maxAttempts, error, now + config.retryDelaySeconds * 1000)]
      else s.jobs,
      if final && config.emitJobFailureEvents && !IsWebhook(job.kind)
      then s.outbox + [JobFailed(job.id, job.kind, attempt, maxAttempts)] else s.outbox,
      s.claims,
      if final then s.failed + {job.id} else s.failed)
  }

  function Recover(s: Store, config: Config, now: int): Store {
    var cutoff := now - config.runningTimeoutSeconds * 1000;
    s.(jobs := seq(|s.jobs|, i requires 0 <= i < |s.jobs| =>
         if Stale(s.jobs[i], cutoff) then Unlock(s.jobs[i], now) else s.jobs[i]))
  }

  // ----- The queue object

  datatype Outcome = Done | Threw(message: string)

  /** One worker turn: how its handler turned out, and the clock when it recovered, claimed and finished. */
  datatype Turn = Turn(recoveredAt: int, claimedAt: int, outcome: Outcome, finishedAt: int)

  /** A turn recovers, claims, and finishes the claimed job as its handler turned out. */
  function ProcessNextSpec(
    s: Store, handlers: set<string>, config: Config, workerId: string, kind: Option<string>, turn: Turn)
    : (Store, bool)
  {
    var (claimed, job) := Claim(Recover(s, config, turn.recoveredAt), workerId, kind, turn.claimedAt);
    if job.None? then (claimed, false)
    else if job.value.kind !in handlers then
      (Fail(claimed, job.value, "No handler registered", config, turn.finishedAt), true)
    else
      match turn.outcome
      case Done => (Complete(claimed, job.value.id), true)
      case Threw(message) => (Fail(claimed, job.value, message, config, turn.finishedAt), true)
  }

  /** Turns until nothing is ready or all turns are taken. */
  function ProcessSpec(
    s: Store, handlers: set<string>, config: Config, workerId: string, turns: seq<Turn>): (Store, nat)
    decreases |turns|
  {
    if turns == [] then (s, 0)
    else
      var (next, processed) := ProcessNextSpec(s, handlers, config, workerId, None, turns[0]);
      if !processed then (next, 0)
      else
        var (last, more) := ProcessSpec(next, handlers, config, workerId, turns[1..]);
        (last, more + 1)
  }

  class DatabaseQueue {
    var jobs: seq<Job>
    var outbox: seq<JobFailed>
    var handlers: set<string>
    ghost var claims: multiset<nat>
    ghost var failed: set<nat>
    const config: Config
    const workerId: string

    ghost function View(): Store
      reads this
    {
      Store(jobs, outbox, claims, failed)
    }

    constructor (config: Config, workerId: string)
      ensures View() == Store([], [], multiset{}, {}) && handlers == {}
      ensures this.config == config && this.workerId == workerId
    {
      this.config, this.workerId := config, workerId;
      jobs, outbox, handlers, claims, failed := [], [], {}, multiset{}, {};
    }

    method EnqueueJob(kind: string, maxAttempts: int, now: int) returns (job: Claimed)
      modifies this
      ensures View() == Enqueue(old(View()), kind, maxAttempts, now) && handlers == old(handlers)
      ensures job == Claimed(|old(jobs)|, kind)
    {
      jobs := jobs + [NewJob(kind, maxAttempts, now)];
      return Claimed(|jobs| - 1, kind);
    }

    method Consume(kind: string)
      modifies this`handlers
      ensures handlers == old(handlers) + {kind}
    {
      handlers := handlers + {kind};
    }

    method ClaimNextJob(kind: Option<string>, now: int) returns (job: Option<Claimed>)
      modifies this`jobs, this`claims
      ensures (View(), job) == Claim(old(View()), workerId, kind, now)
    {
      var id := FirstReady(jobs, 0, now, kind);
      if id.None? { return None; }
      job := Some(Claimed(id.value, jobs[id.value].kind));
      jobs := jobs[id.value := Start(jobs[id.value], workerId, now)];
      claims := claims + multiset{id.value};
    }

    method CompleteJob(id: nat)
      modifies this`jobs
      ensures View() == Complete(old(View()), id)
    {
      if id < |jobs| { jobs := jobs[id := Finish(jobs[id])]; }
    }

    method FailJob(job: Claimed, error: string, now: int)
      modifies this`jobs, this`outbox, this`failed
      ensures View() == Fail(old(View()), job, error, config, now)
    {
      var attempt: int, maxAttempts := 1, 1;
      if job.id < |jobs| { attempt, maxAttempts := jobs[job.id].attempt, jobs[job.id].maxAttempts; }
      if job.id < |jobs| {
        jobs := jobs[job.id := Retry(jobs[job.id], attempt, maxAttempts, error, now + config.retryDelaySeconds * 1000)];
      }
      if attempt >= maxAttempts {
        failed := failed + {job.id};
        if config.emitJobFailureEvents && !IsWebhook(job.kind) {
          outbox := outbox + [JobFailed(job.id, job.kind, attempt, maxAttempts)];
        }
      }
    }

    method RecoverStaleRunningJobs(now: int)
      modifies this`jobs
      ensures View() == Recover(old(View()), config, now)
    {
      var cutoff := now - config.runningTimeoutSeconds * 1000;
      var rows := jobs;
      jobs := seq(|rows|, i requires 0 <= i < |rows| =>
        if Stale(rows[i], cutoff) then Unlock(rows[i], now) else rows[i]);
    }

    method ProcessNext(kind: Option<string>, turn: Turn) returns (processed: bool)
      modifies this`jobs, this`outbox, this`claims, this`failed
      ensures (View(), processed) == ProcessNextSpec(old(View()), handlers, config, workerId, kind, turn)
    {
      RecoverStaleRunningJobs(turn.recoveredAt);
      var job := ClaimNextJob(kind, turn.claimedAt);
      if job.None? { return false; }
      if job.value.kind !in handlers {
        FailJob(job.value, "No handler registered", turn.finishedAt);
        return true;
      }
      if turn.outcome == Done {
        CompleteJob(job.value.id);
      } else {
        FailJob(job.value, turn.outcome.message, turn.finishedAt);
      }
      return true;
    }

    /** `turns` says how each handler run of this pass turns out, and when. */
    method ProcessReady(limit: nat, turns: seq<Turn>, startedAt: int) returns (processed: nat)
      requires |turns| == limit
      modifies this`jobs, this`outbox, this`claims, this`failed
      ensures (View(), processed)
          == ProcessSpec(Recover(old(View()), config, startedAt), handlers, config, workerId, turns)
    {
      hide ProcessNextSpec, Recover;
      RecoverStaleRunningJobs(startedAt);
      ghost var start := View();
      processed := 0;
      assert turns[0..] == turns;
      for index := 0 to limit
        invariant processed == index
        invariant ProcessSpec(start, handlers, config, workerId, turns)
               == var (last, more) := ProcessSpec(View(), handlers, config, workerId, turns[index..]);
               (last, more + index)
      {
        var more := ProcessNext(None, turns[index]);
        assert turns[index..][1..] == turns[index + 1..];
        if !more { break; }
        processed := processed + 1;
      }
    }
  }

  /**
    A claim holds for the timeout: recovery leaves the claimed job alone before it has passed, and from
    then on makes it ready again, or dead-letters it after its last attempt.
   */
  lemma ClaimHoldsForTimeout(s: Store, workerId: string, kind: Option<string>, config: Config, now: int, later: int)
    requires Claim(s, workerId, kind, now).1.Some?
    ensures var (after, job) := Claim(s, workerId, kind, now);
            var id := job.value.id;
            && id < |after.jobs| && after.jobs[id].status == Running && after.jobs[id].attempt == s.jobs[id].attempt + 1
            && var recovered := Recover(after, config, later).jobs[id];
               if later < now + config.runningTimeoutSeconds * 1000 then recovered == after.jobs[id]
               else if after.jobs[id].attempt >= after.jobs[id].maxAttempts
                 then recovered.status == DeadLetter && recovered.lockedAt == None
               else recovered.availableAt <= later ==> Ready(recovered, later, kind)
  {
  }

  /** A new job is appended without attempts or error, waiting and free. */
  lemma EnqueuedJob(s: Store, kind: string, maxAttempts: int, now: int)
    ensures var after := Enqueue(s, kind, maxAttempts, now);
            && after == s.(jobs := after.jobs) && |after.jobs| == |s.jobs| + 1 && after.jobs[..|s.jobs|] == s.jobs
            && var job := after.jobs[|s.jobs|];
               && job.kind == kind && job.status == Pending && job.attempt == 0 && job.maxAttempts == maxAttempts
               && job.availableAt == now && job.nextRunAt == None && job.lastError == None
               && job.lockedBy == None && job.lockedAt == None
  {
  }

  /** A job is ready when it waits, is available, is due, and is of the kind asked for. */
  lemma ReadyIff(job: Job, now: int, kind: Option<string>)
    ensures Ready(job, now, kind)
       <==> && job.status == Pending && now >= job.availableAt
            && (forall t | job.nextRunAt == Some(t) :: now >= t)
            && (forall k | kind == Some(k) :: k == job.kind)
  {
  }

  /**
    Exactly the jobs that run since the timeout or longer are freed to run at once, or dead-lettered after
    their last attempt; an error they have is kept.
   */
  lemma RecoveredJob(s: Store, config: Config, now: int, id: nat)
    requires id < |s.jobs|
    ensures var after := Recover(s, config, now);
            && after == s.(jobs := after.jobs) && |after.jobs| == |s.jobs|
            && var job, row := s.jobs[id], after.jobs[id];
               if && job.status == Running && job.lockedAt.Some?
                  && now - job.lockedAt.value >= config.runningTimeoutSeconds * 1000 then
                 && row.kind == job.kind && row.availableAt == job.availableAt
                 && row.attempt == job.attempt && row.maxAttempts == job.maxAttempts
                 && row.lockedBy == None && row.lockedAt == None
                 && (job.lastError.Some? ==> row.lastError == job.lastError)
                 && (job.lastError.None? ==> row.lastError == Some("Queue job running timeout exceeded"))
                 && (job.attempt < job.maxAttempts ==> row.status == Pending && row.nextRunAt == Some(now))
                 && (job.attempt >= job.maxAttempts ==> row.status == DeadLetter && row.nextRunAt == None)
               else row == job
  {
  }

  /** A claim starts the ready job with the least identifier, if there is one, and touches no other. */
  lemma ClaimedJob(s: Store, workerId: string, kind: Option<string>, now: int, id: nat)
    ensures (forall i | 0 <= i < |s.jobs| :: !Ready(s.jobs[i], now, kind))
        ==> Claim(s, workerId, kind, now) == (s, None)
    ensures TakesJob(s.jobs, kind, now, id) ==>
              var (after, job) := Claim(s, workerId, kind, now);
              && job == Some(Claimed(id, s.jobs[id].kind))
              && |after.jobs| == |s.jobs| && after.outbox == s.outbox
              && (forall i | 0 <= i < |s.jobs| && i != id :: after.jobs[i] == s.jobs[i])
              && var was, row := s.jobs[id], after.jobs[id];
                 && row.status == Running && row.attempt == was.attempt + 1
                 && row.lockedBy == Some(workerId) && row.lockedAt == Some(now)
                 && row.kind == was.kind && row.maxAttempts == was.maxAttempts && row.availableAt == was.availableAt
                 && row.nextRunAt == was.nextRunAt && row.lastError == was.lastError
  {
    hide Ready;
    if TakesJob(s.jobs, kind, now, id) { assert FirstReady(s.jobs, 0, now, kind) == Some(id); }
  }

  /** A failure of a job that is gone changes no job, and is announced as the only attempt of one. */
  lemma MissingJobFails(s: Store, job: Claimed, error: string, config: Config, now: int)
    requires job.id >= |s.jobs|
    ensures var after := Fail(s, job, error, config, now);
            && after.jobs == s.jobs && after.claims == s.claims
            && after.outbox == (if config.emitJobFailureEvents && !("webhook." <= job.kind)
                                then s.outbox + [JobFailed(job.id, job.kind, 1, 1)] else s.outbox)
            && Complete(s, job.id) == s
  {
  }

  /** The turn takes the ready job with the least identifier, as recovery left it. */
  predicate TakesJob(recovered: seq<Job>, kind: Option<string>, now: int, id: nat) {
    && id < |recovered| && Ready(recovered[id], now, kind)
    && forall i | 0 <= i < id :: !Ready(recovered[i], now, kind)
  }

  /**
    How a turn ends: the job it takes has succeeded exactly when there is a handler for its kind that
    returns normally; otherwise the error is kept, and the job waits for its retry or, after its last
    attempt, is dead-lettered, and announced where events are wanted and its kind is not a webhook's. No
    other job changes after recovery, and without a ready job nothing does.
   */
  lemma TurnEnds(
    s: Store, handlers: set<string>, config: Config, workerId: string, kind: Option<string>, turn: Turn, id: nat)
    ensures var recovered := Recover(s, config, turn.recoveredAt);
            var (after, processed) := ProcessNextSpec(s, handlers, config, workerId, kind, turn);
            && |after.jobs| == |recovered.jobs|
            && (processed <==> exists j :: TakesJob(recovered.jobs, kind, turn.claimedAt, j))
            && (!processed ==> after == recovered)
            && (TakesJob(recovered.jobs, kind, turn.claimedAt, id) ==>
                  && (forall i | 0 <= i < |after.jobs| && i != id :: after.jobs[i] == recovered.jobs[i])
                  && var was, job := recovered.jobs[id], after.jobs[id];
                     var done := was.kind in handlers && turn.outcome == Done;
                     var last := was.attempt + 1 >= was.maxAttempts;
                     && after.outbox == (if !done && last && config.emitJobFailureEvents && !("webhook." <= was.kind)
                                         then s.outbox + [JobFailed(id, was.kind, was.attempt + 1, was.maxAttempts)]
                                         else s.outbox)
                     && job.kind == was.kind && job.availableAt == was.availableAt
                     && job.attempt == was.attempt + 1 && job.maxAttempts == was.maxAttempts
                     && job.lockedBy == None && job.lockedAt == None
                     && job.status == (if done then Succeeded else if last then DeadLetter else Pending)
                     && job.lastError == (if done then was.lastError
                                          else if was.kind !in handlers then Some("No handler registered")
                                          else Some(turn.outcome.message))
                     && job.nextRunAt == (if done then was.nextRunAt
                                          else if last then None
                                          else Some(turn.finishedAt + config.retryDelaySeconds * 1000)))
  {
    var recovered := Recover(s, config, turn.recoveredAt);
    var (after, processed) := ProcessNextSpec(s, handlers, config, workerId, kind, turn);
    assert recovered.outbox == s.outbox;
    hide Recover, Ready;
    var first := FirstReady(recovered.jobs, 0, turn.claimedAt, kind);
    if first.Some? { assert TakesJob(recovered.jobs, kind, turn.claimedAt, first.value); }
    if TakesJob(recovered.jobs, kind, turn.claimedAt, id) { assert first == Some(id); }
  }

  /** A new job is ready at once; one that failed below its last attempt is ready after the retry delay, not before. */
  lemma ReadinessInTime(
    s: Store, job: Claimed, kind: string, maxAttempts: int, error: string, config: Config, now: int, later: int)
    requires now <= later
    ensures var jobs := Enqueue(s, kind, maxAttempts, now).jobs;
            |jobs| == |s.jobs| + 1 && Ready(jobs[|s.jobs|], later, Some(kind))
    ensures (&& job.id < |s.jobs|
             && s.jobs[job.id].attempt < s.jobs[job.id].maxAttempts
             && s.jobs[job.id].availableAt <= later) ==>
              var failed := Fail(s, job, error, config, now);
              && (Ready(failed.jobs[job.id], later, None) <==> later >= now + config.retryDelaySeconds * 1000)
              && failed.outbox == s.outbox
  {
  }

  // ----- Any interleaving of workers

  datatype Step =
    | Enqueuing(kind: string, maxAttempts: int, now: int)
    | Claiming(workerId: string, wanted: Option<string>, now: int)
    | Completing(job: Claimed)
    | Failing(job: Claimed, error: string, now: int)
    | Recovering(now: int)

  function Apply(s: Store, step: Step, config: Config): Store {
    match step
    case Enqueuing(kind, maxAttempts, now) => Enqueue(s, kind, maxAttempts, now)
    case Claiming(workerId, wanted, now) => Claim(s, workerId, wanted, now).0
    case Completing(job) => Complete(s, job.id)
    case Failing(job, error, now) => Fail(s, job, error, config, now)
    case Recovering(now) => Recover(s, config, now)
  }

  /** Jobs are enqueued with at least one attempt, and workers finish jobs that exist. */
  predicate Sensible(s: Store, step: Step) {
    match step
    case Enqueuing(_, maxAttempts, _) => maxAttempts >= 1
    case Completing(job) => job.id < |s.jobs| && job.kind == s.jobs[job.id].kind
    case Failing(job, _, _) => job.id < |s.jobs| && job.kind == s.jobs[job.id].kind
    case _ => true
  }

  /** A worker reports only while the job is running; a late worker reports after recovery instead. */
  predicate UnderLease(s: Store, step: Step) {
    match step
    case Completing(job) => job.id < |s.jobs| && s.jobs[job.id].status == Running
    case Failing(job, _, _) => job.id < |s.jobs| && s.jobs[job.id].status == Running
    case _ => true
  }

  const EMPTY := Store([], [], multiset{}, {})

  function Run(s: Store, steps: seq<Step>, config: Config): Store
    decreases |steps|
  {
    if steps == [] then s else Run(Apply(s, steps[0], config), steps[1..], config)
  }

  predicate SensibleRun(s: Store, steps: seq<Step>, config: Config)
    decreases |steps|
  {
    steps == [] || (Sensible(s, steps[0]) && SensibleRun(Apply(s, steps[0], config), steps[1..], config))
  }

  predicate LeaseRun(s: Store, steps: seq<Step>, config: Config)
    decreases |steps|
  {
    steps == [] || (UnderLease(s, steps[0]) && LeaseRun(Apply(s, steps[0], config), steps[1..], config))
  }

  /** Attempts are conserved and bounded, and exactly the running jobs are locked. */
  predicate JobKept(job: Job, claims: nat) {
    && job.maxAttempts >= 1
    && job.attempt == claims <= job.maxAttempts
    && (job.status == Pending ==> job.attempt < job.maxAttempts)
    && (job.status == Running <==> job.lockedBy.Some?)
    && (job.status == Running <==> job.lockedAt.Some?)
    && (job.status == DeadLetter ==> job.attempt == job.maxAttempts)
  }

  predicate Kept(s: Store) {
    && (forall id | 0 <= id < |s.jobs| :: JobKept(s.jobs[id], s.claims[id]))
    && forall id | id in s.claims :: id < |s.jobs|
  }

  /** Every single step conserves attempts, whichever worker takes it and however late. */
  lemma StepKeeps(s: Store, step: Step, config: Config)
    requires Kept(s) && Sensible(s, step)
    ensures Kept(Apply(s, step, config))
  {
    var after := Apply(s, step, config);
    forall id | 0 <= id < |after.jobs| ensures JobKept(after.jobs[id], after.claims[id]) {
      if id < |s.jobs| { assert JobKept(s.jobs[id], s.claims[id]); }
    }
  }

  /** The attempts of every job equal its claims and stay within bounds on every run, late workers included. */
  lemma {:induction false} AttemptsConserved(s: Store, steps: seq<Step>, config: Config)
    requires Kept(s) && SensibleRun(s, steps, config)
    ensures Kept(Run(s, steps, config))
    decreases |steps|
  {
    if steps != [] {
      StepKeeps(s, steps[0], config);
      AttemptsConserved(Apply(s, steps[0], config), steps[1..], config);
    }
  }

  predicate Terminal(job: Job) { job.status == Succeeded || job.status == DeadLetter }

  /** Under the lease hypothesis a finished job is never touched again. */
  lemma {:induction false} FinishedJobsStay(s: Store, steps: seq<Step>, config: Config, id: nat)
    requires LeaseRun(s, steps, config) && id < |s.jobs| && Terminal(s.jobs[id])
    ensures var after := Run(s, steps, config); id < |after.jobs| && after.jobs[id] == s.jobs[id]
    decreases |steps|
  {
    if steps != [] { FinishedJobsStay(Apply(s, steps[0], config), steps[1..], config, id); }
  }

  function EventsOf(outbox: seq<JobFailed>, id: nat): nat {
    if outbox == [] then 0
    else EventsOf(outbox[..|outbox| - 1], id) + if outbox[|outbox| - 1].jobId == id then 1 else 0
  }

  /** One event for each job that `Fail` dead-lettered, where events are wanted, and no other event. */
  ghost predicate EventsKept(s: Store, config: Config) {
    && (forall id | id in s.failed :: id < |s.jobs| && s.jobs[id].status == DeadLetter)
    && forall id: nat :: EventsOf(s.outbox, id) ==
         if id in s.failed && config.emitJobFailureEvents && id < |s.jobs| && !IsWebhook(s.jobs[id].kind) then 1 else 0
  }

  lemma StepKeepsEvents(s: Store, step: Step, config: Config)
    requires EventsKept(s, config) && Sensible(s, step) && UnderLease(s, step)
    ensures EventsKept(Apply(s, step, config), config)
  {
    var after := Apply(s, step, config);
    if step.Failing? {
      var id := step.job.id;
      assert id !in s.failed;
      if after.outbox != s.outbox { assert after.outbox[..|after.outbox| - 1] == s.outbox; }
    }
    forall id: nat
      ensures EventsOf(after.outbox, id)
           == if && id in after.failed && config.emitJobFailureEvents
                 && id < |after.jobs| && !IsWebhook(after.jobs[id].kind)
              then 1 else 0
    {
      assert EventsOf(s.outbox, id) ==
        if id in s.failed && config.emitJobFailureEvents && id < |s.jobs| && !IsWebhook(s.jobs[id].kind) then 1 else 0;
    }
  }

  /**
    Under the lease hypothesis every job emits at most one failure event: exactly one if `Fail`
    dead-lettered it with events enabled and its type is not a webhook's, none otherwise.
   */
  lemma {:induction false} AtMostOneFailureEvent(s: Store, steps: seq<Step>, config: Config)
    requires EventsKept(s, config) && SensibleRun(s, steps, config) && LeaseRun(s, steps, config)
    ensures EventsKept(Run(s, steps, config), config)
    decreases |steps|
  {
    if steps != [] {
      StepKeepsEvents(s, steps[0], config);
      AtMostOneFailureEvent(Apply(s, steps[0], config), steps[1..], config);
    }
  }

  // ----- Which late reports do harm

  /** The step announces the job's failure. */
  predicate Announces(s: Store, step: Step, config: Config, id: nat) {
    && step.Failing? && step.job.id == id < |s.jobs|
    && s.jobs[id].attempt >= s.jobs[id].maxAttempts
    && config.emitJobFailureEvents && !IsWebhook(step.job.kind)
  }

  lemma StepAnnounces(s: Store, step: Step, config: Config, id: nat)
    requires Sensible(s, step)
    ensures EventsOf(Apply(s, step, config).outbox, id)
         == EventsOf(s.outbox, id) + if Announces(s, step, config, id) then 1 else 0
  {
    var after := Apply(s, step, config);
    if after.outbox != s.outbox { assert after.outbox[..|after.outbox| - 1] == s.outbox; }
  }

  /** A report announces a job again exactly when it fails an announced job that has no attempts left. */
  predicate AnnouncesAgain(s: Store, step: Step, config: Config) {
    step.Failing? && Announces(s, step, config, step.job.id) && EventsOf(s.outbox, step.job.id) >= 1
  }

  ghost predicate OneEventEach(s: Store) { forall id: nat :: EventsOf(s.outbox, id) <= 1 }

  lemma SecondEventIff(s: Store, step: Step, config: Config)
    requires OneEventEach(s) && Sensible(s, step)
    ensures OneEventEach(Apply(s, step, config)) <==> !AnnouncesAgain(s, step, config)
  {
    hide EventsOf, Apply;
    var after := Apply(s, step, config);
    forall id: nat
      ensures EventsOf(after.outbox, id) == EventsOf(s.outbox, id) + if Announces(s, step, config, id) then 1 else 0
    {
      StepAnnounces(s, step, config, id);
    }
  }

  lemma {:induction false} EventsNeverVanish(s: Store, steps: seq<Step>, config: Config)
    requires SensibleRun(s, steps, config) && !OneEventEach(s)
    ensures !OneEventEach(Run(s, steps, config))
    decreases |steps|
  {
    hide EventsOf, Apply;
    if steps != [] {
      var id: nat :| EventsOf(s.outbox, id) > 1;
      StepAnnounces(s, steps[0], config, id);
      EventsNeverVanish(Apply(s, steps[0], config), steps[1..], config);
    }
  }

  predicate NeverAnnouncesAgain(s: Store, steps: seq<Step>, config: Config)
    decreases |steps|
  {
    steps == []
    || (!AnnouncesAgain(s, steps[0], config) && NeverAnnouncesAgain(Apply(s, steps[0], config), steps[1..], config))
  }

  /**
    On any run, late reports included, every job emits at most one event exactly when no report announces a job
    again.
   */
  lemma {:induction false} AtMostOneEventIff(s: Store, steps: seq<Step>, config: Config)
    requires OneEventEach(s) && SensibleRun(s, steps, config)
    ensures OneEventEach(Run(s, steps, config)) <==> NeverAnnouncesAgain(s, steps, config)
    decreases |steps|
  {
    hide OneEventEach, AnnouncesAgain, Apply;
    if steps != [] {
      var next := Apply(s, steps[0], config);
      SecondEventIff(s, steps[0], config);
      if OneEventEach(next) {
        AtMostOneEventIff(next, steps[1..], config);
      } else {
        EventsNeverVanish(next, steps[1..], config);
      }
    }
  }

  /** The step completes a dead-lettered job or fails a succeeded one. */
  predicate MovesFinished(s: Store, step: Step) {
    match step
    case Completing(job) => job.id < |s.jobs| && s.jobs[job.id].status == DeadLetter
    case Failing(job, _, _) => job.id < |s.jobs| && s.jobs[job.id].status == Succeeded
    case _ => false
  }

  /** Finished jobs stay as they ended. */
  predicate Absorbs(s: Store, after: Store) {
    |s.jobs| <= |after.jobs|
    && forall id | 0 <= id < |s.jobs| && Terminal(s.jobs[id]) :: after.jobs[id].status == s.jobs[id].status
  }

  lemma FinishedMovesIff(s: Store, step: Step, config: Config)
    requires Kept(s) && Sensible(s, step)
    ensures Absorbs(s, Apply(s, step, config)) <==> !MovesFinished(s, step)
  {
    var after := Apply(s, step, config);
    if step.Completing? || step.Failing? {
      assert JobKept(s.jobs[step.job.id], s.claims[step.job.id]);
      assert Terminal(s.jobs[step.job.id])
          ==> (MovesFinished(s, step) <==> after.jobs[step.job.id].status != s.jobs[step.job.id].status);
    }
  }

  /** `Absorbs` between any two consecutive states of the run. */
  predicate AbsorbsThroughout(s: Store, steps: seq<Step>, config: Config)
    decreases |steps|
  {
    steps == []
    || (Absorbs(s, Apply(s, steps[0], config)) && AbsorbsThroughout(Apply(s, steps[0], config), steps[1..], config))
  }

  predicate NeverMovesFinished(s: Store, steps: seq<Step>, config: Config)
    decreases |steps|
  {
    steps == [] || (!MovesFinished(s, steps[0]) && NeverMovesFinished(Apply(s, steps[0], config), steps[1..], config))
  }

  /**
    On any run, late reports included, finished jobs stay as they ended exactly when no step completes a
    dead-lettered job or fails a succeeded one.
   */
  lemma {:induction false} FinishedJobsStayIff(s: Store, steps: seq<Step>, config: Config)
    requires Kept(s) && SensibleRun(s, steps, config)
    ensures AbsorbsThroughout(s, steps, config) <==> NeverMovesFinished(s, steps, config)
    ensures NeverMovesFinished(s, steps, config) ==> Absorbs(s, Run(s, steps, config))
    decreases |steps|
  {
    if steps != [] {
      FinishedMovesIff(s, steps[0], config);
      StepKeeps(s, steps[0], config);
      hide Kept, Apply, MovesFinished;
      FinishedJobsStayIff(Apply(s, steps[0], config), steps[1..], config);
    }
  }

  lemma EmptyStoreKept(config: Config)
    ensures Kept(EMPTY) && EventsKept(EMPTY, config)
  {
  }

  lemma RunCons(s: Store, step: Step, rest: seq<Step>, config: Config)
    ensures Run(s, [step] + rest, config) == Run(Apply(s, step, config), rest, config)
    ensures SensibleRun(s, [step] + rest, config)
        <==> Sensible(s, step) && SensibleRun(Apply(s, step, config), rest, config)
  {
    assert ([step] + rest)[1..] == rest;
  }

  /**
    The lease hypothesis is needed: a worker that reports after its job was recovered, reclaimed and
    failed for good makes that job fail, and be announced, a second time.
   */
  lemma LateWorkerRepeatsEvent(kind: string, workerId: string)
    requires !IsWebhook(kind)
    ensures exists steps, config ::
        SensibleRun(EMPTY, steps, config) && EventsOf(Run(EMPTY, steps, config).outbox, 0) == 2
  {
    var config := Config(60, 900, true);
    var enqueue := Enqueuing(kind, 2, 0);
    var claim, reclaim := Claiming(workerId, None, 0), Claiming(workerId, None, 900_000);
    var recover, fail := Recovering(900_000), Failing(Claimed(0, kind), "error", 900_000);
    var s1 := Apply(EMPTY, enqueue, config);
    var s2 := Apply(s1, claim, config);
    assert s2.jobs == [Start(NewJob(kind, 2, 0), workerId, 0)];
    var s3 := Apply(s2, recover, config);
    assert s3.jobs == [Unlock(s2.jobs[0], 900_000)];
    var s4 := Apply(s3, reclaim, config);
    assert s4.jobs == [Start(s3.jobs[0], workerId, 900_000)];
    var s5 := Apply(s4, fail, config);
    var s6 := Apply(s5, fail, config);
    assert s6.outbox == s5.outbox + [JobFailed(0, kind, 2, 2)] && s5.outbox == [] + [JobFailed(0, kind, 2, 2)];
    assert EventsOf(s6.outbox, 0) == 2 by {
      assert s6.outbox[..1] == s5.outbox && s5.outbox[..0] == [];
      assert EventsOf(s5.outbox, 0) == 1;
    }
    assert Sensible(EMPTY, enqueue) && Sensible(s1, claim) && Sensible(s2, recover) && Sensible(s3, reclaim);
    assert Sensible(s4, fail) && Sensible(s5, fail);
    hide Apply, Sensible;
    var last, fifth := [fail] + [], [fail] + ([fail] + []);
    RunCons(s5, fail, [], config);
    RunCons(s4, fail, last, config);
    RunCons(s3, reclaim, fifth, config);
    RunCons(s2, recover, [reclaim] + fifth, config);
    RunCons(s1, claim, [recover] + ([reclaim] + fifth), config);
    RunCons(EMPTY, enqueue, [claim] + ([recover] + ([reclaim] + fifth)), config);
    var steps := [enqueue] + ([claim] + ([recover] + ([reclaim] + fifth)));
    assert SensibleRun(EMPTY, steps, config) && Run(EMPTY, steps, config) == s6;
  }

  /** A late worker can also complete a job that was dead-lettered meanwhile. */
  lemma LateWorkerRevivesJob(kind: string, workerId: string)
    ensures exists steps, config :: SensibleRun(EMPTY, steps, config) && !AbsorbsThroughout(EMPTY, steps, config)
              && var after := Run(EMPTY, steps, config); |after.jobs| == 1 && after.jobs[0].status == Succeeded
  {
    var config := Config(60, 900, true);
    var enqueue, claim := Enqueuing(kind, 1, 0), Claiming(workerId, None, 0);
    var recover, complete := Recovering(900_000), Completing(Claimed(0, kind));
    var s1 := Apply(EMPTY, enqueue, config);
    var s2 := Apply(s1, claim, config);
    assert s2.jobs == [Start(NewJob(kind, 1, 0), workerId, 0)];
    var s3 := Apply(s2, recover, config);
    assert s3.jobs == [Unlock(s2.jobs[0], 900_000)];
    var s4 := Apply(s3, complete, config);
    assert MovesFinished(s3, complete) && |s4.jobs| == 1 && s4.jobs[0].status == Succeeded;
    assert Sensible(EMPTY, enqueue) && Sensible(s1, claim) && Sensible(s2, recover) && Sensible(s3, complete);
    EmptyStoreKept(config);
    hide Apply, Sensible, MovesFinished;
    var steps := [enqueue] + ([claim] + ([recover] + ([complete] + [])));
    RunCons(s3, complete, [], config);
    RunCons(s2, recover, [complete] + [], config);
    RunCons(s1, claim, [recover] + ([complete] + []), config);
    RunCons(EMPTY, enqueue, [claim] + ([recover] + ([complete] + [])), config);
    MovesCons(s3, complete, [], config);
    MovesCons(s2, recover, [complete] + [], config);
    MovesCons(s1, claim, [recover] + ([complete] + []), config);
    MovesCons(EMPTY, enqueue, [claim] + ([recover] + ([complete] + [])), config);
    FinishedJobsStayIff(EMPTY, steps, config);
    assert SensibleRun(EMPTY, steps, config) && Run(EMPTY, steps, config) == s4;
  }

  lemma MovesCons(s: Store, step: Step, rest: seq<Step>, config: Config)
    ensures NeverMovesFinished(s, [step] + rest, config)
       <==> !MovesFinished(s, step) && NeverMovesFinished(Apply(s, step, config), rest, config)
  {
    assert ([step] + rest)[1..] == rest;
  }

  // ----- A pass over the queue

  /** A pass that stops early leaves nothing ready at the time of its last look. */
  lemma {:induction false} EarlyStopDrains(
    s: Store, handlers: set<string>, config: Config, workerId: string, turns: seq<Turn>)
    ensures var (after, processed) := ProcessSpec(s, handlers, config, workerId, turns);
            && processed <= |turns|
            && (processed < |turns|
                ==> forall id | 0 <= id < |after.jobs| :: !Ready(after.jobs[id], turns[processed].claimedAt, None))
    decreases |turns|
  {
    if turns != [] {
      var (next, processed) := ProcessNextSpec(s, handlers, config, workerId, None, turns[0]);
      if processed { EarlyStopDrains(next, handlers, config, workerId, turns[1..]); }
    }
  }
}
