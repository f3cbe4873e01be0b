/**
  The database scheduler: claims with a lease, success and failure, and the accounting of failure
  streaks and failure events over every timely run.
 */
module Schedulers {
  import opened Arithmetic
  import opened Wrappers
  import opened Cron

  datatype Row = Row(
    code: string,
    cron: Schedule,
    handlerType: string,
    enabled: bool,
    nextRunAt: Option<int>,
    attempt: nat,
    maxAttempts: nat)

  /** The record a worker runs: the row as claimed, with the attempt it counts as. */
  datatype Claimed = Claimed(id: nat, code: string, cron: Schedule, handlerType: string, attempt: nat, maxAttempts: nat)

  datatype JobFailed = JobFailed(jobId: nat, jobCode: string, attempt: nat, maxAttempts: nat)

  datatype Config = Config(retryDelaySeconds: int, runningTimeoutSeconds: int, emitJobFailureEvents: bool)

  /** An unfinished claim and the end of its lease. */
  datatype Lease = Lease(job: Claimed, until: int)

  /**
    The tables, rows numbered by identifier, with two records of the past: for every row the outcomes
    of its finished runs (true for success), and the claims not yet finished.
   */
  datatype Store = Store(rows: seq<Row>, outbox: seq<JobFailed>, history: seq<seq<bool>>, open: map<nat, Lease>)

  predicate IsWebhook(code: string) { "webhook." <= code }

  // ----- The operations

  function IndexOf(rows: seq<Row>, code: string): (i: nat)
    ensures i <= |rows| && (i < |rows| ==> rows[i].code == code)
    ensures forall j | 0 <= j < i :: rows[j].code != code
  {
    if rows == [] || rows[0].code == code then 0 else 1 + IndexOf(rows[1..], code)
  }

  /** None when the expression has no run within a year. */
  function Register(s: Store, code: string, cron: Schedule, enabled: bool, now: int): Option<Store> {
    match NextRun(cron, now)
    case None => None
    case Some(t) =>
      var id := IndexOf(s.rows, code);
      if id == |s.rows| then
        Some(s.(rows := s.rows + [Row(code, cron, code, enabled, Some(t), 0, 1)], history := s.history + [[]]))
      else
        var row := s.rows[id];
        Some(s.(rows := s.rows[id := row.(cron := cron, enabled := enabled,
                                          nextRunAt := if row.nextRunAt.Some? then row.nextRunAt else Some(t))]))
  }

  function Unregister(s: Store, code: string): Store {
    var id := IndexOf(s.rows, code);
    if id == |s.rows| then s else s.(rows := s.rows[id := s.rows[id].(enabled := false)])
  }

  predicate Due(row: Row, now: int) {
    row.enabled && (row.nextRunAt.Some? ==> row.nextRunAt.value <= now)
  }

  function FirstDue(rows: seq<Row>, from: nat, now: int): (id: Option<nat>)
    requires from <= |rows|
    ensures id.Some? ==> from <= id.value < |rows| && Due(rows[id.value], now)
    ensures id.Some? ==> forall i | from <= i < id.value :: !Due(rows[i], now)
    ensures id.None? ==> forall i | from <= i < |rows| :: !Due(rows[i], now)
    decreases |rows| - from
  {
    if from == |rows| then None else if Due(rows[from], now) then Some(from) else FirstDue(rows, from + 1, now)
  }

  function Claim(s: Store, config: Config, now: int): (Store, Option<Claimed>) {
    match FirstDue(s.rows, 0, now)
    case None => (s, None)
    case Some(id) =>
      var row := s.rows[id];
      var until := now + config.runningTimeoutSeconds * 1000;
      var job := Claimed(id, row.code, row.cron, row.handlerType, row.attempt + 1, row.maxAttempts);
      (s.(rows := s.rows[id := row.(attempt := row.attempt + 1, nextRunAt := Some(until))],
          open := s.open[id := Lease(job, until)]),
       Some(job))
  }

  function Finished(s: Store, job: Claimed, attempt: nat, nextRunAt: int, succeeded: bool): Store
    requires job.id < |s.rows| == |s.history|
  {
    s.(rows := s.rows[job.id := s.rows[job.id].(attempt := attempt, nextRunAt := Some(nextRunAt))],
       history := s.history[job.id := s.history[job.id] + [succeeded]],
       open := s.open - {job.id})
  }

  /** None when computing the next run throws. */
  function Succeed(s: Store, job: Claimed, now: int): Option<Store>
    requires job.id < |s.rows| == |s.history|
  {
    match NextRun(job.cron, now)
    case None => None
    case Some(t) => Some(Finished(s, job, 0, t, true))
  }

  predicate Exhausted(job: Claimed) { job.attempt >= job.maxAttempts }

  function FailRun(s: Store, job: Claimed, config: Config, now: int): Option<Store>
    requires job.id < |s.rows| == |s.history|
  {
    if !Exhausted(job) then Some(Finished(s, job, job.attempt, now + config.retryDelaySeconds * 1000, false))
    else
      match NextRun(job.cron, now)
      case None => None
      case Some(t) =>
        var done := Finished(s, job, 0, t, false);
        Some(if config.emitJobFailureEvents && !IsWebhook(job.code)
             then done.(outbox := done.outbox + [JobFailed(job.id, job.code, job.attempt, job.maxAttempts)]) else done)
  }

  /**
    Finishing a claimed run: a success whose next run cannot be computed counts as a failure, and a
    failure that throws as well leaves the row as claimed.
   */
  function FinishRun(s: Store, job: Claimed, succeeded: bool, config: Config, now: int): Option<Store>
    requires job.id < |s.rows| == |s.history|
  {
    if succeeded && Succeed(s, job, now).Some? then Succeed(s, job, now) else FailRun(s, job, config, now)
  }

  // ----- The scheduler object

  predicate HasHandler(handlers: set<string>, job: Claimed) {
    job.handlerType in handlers || job.code in handlers
  }

  /** One turn of a pass: whether its handler run succeeds, and the clock when it claimed and finished. */
  datatype Turn = Turn(claimedAt: int, succeeded: bool, finishedAt: int)

  /** Up to as many claims as there are turns; `Err` carries the state at an escaping exception. */
  function ProcessSpec(s: Store, handlers: set<string>, config: Config, turns: seq<Turn>): Result<(Store, nat), Store>
    requires |s.rows| == |s.history|
    decreases |turns|
  {
    if turns == [] then Ok((s, 0))
    else
      var (claimed, job) := Claim(s, config, turns[0].claimedAt);
      if job.None? then Ok((claimed, 0))
      else
        var succeeded := HasHandler(handlers, job.value) && turns[0].succeeded;
        match FinishRun(claimed, job.value, succeeded, config, turns[0].finishedAt)
        case None => Err(claimed)
        case Some(next) =>
          match ProcessSpec(next, handlers, config, turns[1..])
          case Err(e) => Err(e)
          case Ok((last, more)) => Ok((last, more + 1))
  }

  class DatabaseScheduler {
    var rows: seq<Row>
    var outbox: seq<JobFailed>
    var handlers: set<string>
    ghost var history: seq<seq<bool>>
    ghost var open: map<nat, Lease>
    const config: Config

    ghost function View(): Store
      reads this
    {
      Store(rows, outbox, history, open)
    }

    constructor (config: Config)
      ensures View() == Store([], [], [], map[]) && handlers == {} && this.config == config
    {
      this.config := config;
      rows, outbox, handlers, history, open := [], [], {}, [], map[];
    }

    /** The handler is kept even when the expression is refused. */
    method RegisterJob(code: string, cron: Schedule, enabled: bool, now: int) returns (thrown: bool)
      modifies this
      ensures handlers == old(handlers) + {code}
      ensures match Register(old(View()), code, cron, enabled, now)
              case None => thrown && View() == old(View())
              case Some(next) => !thrown && View() == next
    {
      handlers := handlers + {code};
      var next := ComputeNextCronRun(cron, now);
      if next.Err? { return true; }
      var id := IndexOf(rows, code);
      if id == |rows| {
        rows := rows + [Row(code, cron, code, enabled, Some(next.value), 0, 1)];
        history := history + [[]];
      } else {
        var row := rows[id];
        rows := rows[id := row.(cron := cron, enabled := enabled,
                                nextRunAt := if row.nextRunAt.Some? then row.nextRunAt else Some(next.value))];
      }
      return false;
    }

    method UnregisterJob(code: string)
      modifies this`rows, this`handlers
      ensures View() == Unregister(old(View()), code) && handlers == old(handlers) - {code}
    {
      handlers := handlers - {code};
      var id := IndexOf(rows, code);
      if id < |rows| { rows := rows[id := rows[id].(enabled := false)]; }
    }

    method ClaimNextDueJob(now: int) returns (job: Option<Claimed>)
      modifies this`rows, this`open
      ensures (View(), job) == Claim(old(View()), config, now)
    {
      var id := FirstDue(rows, 0, now);
      if id.None? { return None; }
      var row := rows[id.value];
      var until := now + config.runningTimeoutSeconds * 1000;
      var claimed := Claimed(id.value, row.code, row.cron, row.handlerType, row.attempt + 1, row.maxAttempts);
      rows := rows[id.value := row.(attempt := row.attempt + 1, nextRunAt := Some(until))];
      open := open[id.value := Lease(claimed, until)];
      return Some(claimed);
    }

    method MarkScheduleSuccess(job: Claimed, now: int) returns (thrown: bool)
      requires job.id < |rows| == |history|
      modifies this`rows, this`history, this`open
      ensures match Succeed(old(View()), job, now)
              case None => thrown && View() == old(View())
              case Some(next) => !thrown && View() == next
    {
      var next := ComputeNextCronRun(job.cron, now);
      if next.Err? { return true; }
      rows := rows[job.id := rows[job.id].(attempt := 0, nextRunAt := Some(next.value))];
      history := history[job.id := history[job.id] + [true]];
      open := open - {job.id};
      return false;
    }

    method MarkScheduleFailure(job: Claimed, now: int) returns (thrown: bool)
      requires job.id < |rows| == |history|
      modifies this`rows, this`history, this`open, this`outbox
      ensures match FailRun(old(View()), job, config, now)
              case None => thrown && View() == old(View())
              case Some(next) => !thrown && View() == next
    {
      var exhausted := job.attempt >= job.maxAttempts;
      var nextRunAt := now + config.retryDelaySeconds * 1000;
      if exhausted {
        var next := ComputeNextCronRun(job.cron, now);
        if next.Err? { return true; }
        nextRunAt := next.value;
      }
      var attempt := if exhausted then 0 else job.attempt;
      rows := rows[job.id := rows[job.id].(attempt := attempt, nextRunAt := Some(nextRunAt))];
      history := history[job.id := history[job.id] + [false]];
      open := open - {job.id};
      if exhausted && config.emitJobFailureEvents && !IsWebhook(job.code) {
        outbox := outbox + [JobFailed(job.id, job.code, job.attempt, job.maxAttempts)];
      }
      return false;
    }

    /** One turn of `ProcessDue` after the claim: a success that throws is then marked as a failure. */
    method MarkOutcome(job: Claimed, succeeded: bool, now: int) returns (escaped: bool)
      requires job.id < |rows| == |history|
      modifies this`rows, this`history, this`open, this`outbox
      ensures match FinishRun(old(View()), job, succeeded, config, now)
              case None => escaped && View() == old(View())
              case Some(next) => !escaped && View() == next
      ensures |rows| == |history| == old(|rows|)
    {
      var failed := !succeeded;
      if succeeded { failed := MarkScheduleSuccess(job, now); }
      if failed { escaped := MarkScheduleFailure(job, now); } else { escaped := false; }
    }

    /** `turns` says whether each handler run of this pass succeeds, and when. */
    method ProcessDue(limit: nat, turns: seq<Turn>) returns (processed: nat, thrown: bool)
      requires |rows| == |history| && |turns| == limit
      modifies this`rows, this`history, this`open, this`outbox
      ensures match ProcessSpec(old(View()), handlers, config, turns)
              case Ok((s, n)) => !thrown && View() == s && processed == n
              case Err(s) => thrown && View() == s
    {
      hide FinishRun;
      ghost var start := View();
      processed := 0;
      assert turns[0..] == turns;
      for index := 0 to limit
        invariant |rows| == |history| && processed == index
        invariant ProcessSpec(start, handlers, config, turns)
               == match ProcessSpec(View(), handlers, config, turns[index..])
                  case Err(s) => Err(s)
                  case Ok((s, n)) => Ok((s, n + index))
      {
        assert turns[index..][1..] == turns[index + 1..];
        var job := ClaimNextDueJob(turns[index].claimedAt);
        if job.None? { break; }
        var succeeded := HasHandler(handlers, job.value) && turns[index].succeeded;
        var escaped := MarkOutcome(job.value, succeeded, turns[index].finishedAt);
        if escaped { return processed, true; }
        processed := processed + 1;
      }
      return processed, false;
    }
  }

  // ----- Leases and delays

  /** A schedule is due when it is enabled and its next run, if it has one, has come. */
  lemma DueIff(row: Row, now: int)
    ensures Due(row, now) <==> row.enabled && forall t | row.nextRunAt == Some(t) :: now >= t
  {
  }

  /**
    Registering needs a next run. A code without a schedule gets one of a single attempt; a schedule keeps
    its next run if it has one, and takes the new expression and switch. No other schedule changes.
   */
  lemma RegisteredRow(s: Store, code: string, cron: Schedule, enabled: bool, now: int, id: nat)
    requires |s.rows| == |s.history|
    requires id <= |s.rows| && forall i | 0 <= i < id :: s.rows[i].code != code
    requires id < |s.rows| ==> s.rows[id].code == code
    ensures match Register(s, code, cron, enabled, now)
            case None => NextRun(cron, now) == None
            case Some(after) =>
              && NextRun(cron, now).Some? && after.outbox == s.outbox && after.open == s.open
              && (forall i | 0 <= i < |s.rows| && i != id :: i < |after.rows| && after.rows[i] == s.rows[i])
              && (id < |s.rows| ==>
                    && |after.rows| == |s.rows| && after.history == s.history
                    && var was, row := s.rows[id], after.rows[id];
                       && row.code == was.code && row.handlerType == was.handlerType
                       && row.attempt == was.attempt && row.maxAttempts == was.maxAttempts
                       && row.cron == cron && row.enabled == enabled
                       && (was.nextRunAt.Some? ==> row.nextRunAt == was.nextRunAt)
                       && (was.nextRunAt.None? ==> row.nextRunAt == NextRun(cron, now)))
              && (id == |s.rows| ==>
                    && |after.rows| == id + 1 && after.history == s.history + [[]]
                    && var row := after.rows[id];
                       && row.code == code && row.handlerType == code && row.attempt == 0 && row.maxAttempts == 1
                       && row.cron == cron && row.enabled == enabled && row.nextRunAt == NextRun(cron, now))
  {
    hide NextRun;
    FirstWithCode(s.rows, code, id);
  }

  /** Unregistering switches the schedule off and changes nothing else. */
  lemma UnregisteredRow(s: Store, code: string, id: nat)
    requires id <= |s.rows| && forall i | 0 <= i < id :: s.rows[i].code != code
    requires id < |s.rows| ==> s.rows[id].code == code
    ensures var after := Unregister(s, code);
            && after == s.(rows := after.rows) && |after.rows| == |s.rows|
            && (forall i | 0 <= i < |s.rows| && i != id :: after.rows[i] == s.rows[i])
            && (id < |s.rows| ==> after.rows[id] == s.rows[id].(enabled := false))
  {
    FirstWithCode(s.rows, code, id);
  }

  lemma FirstWithCode(rows: seq<Row>, code: string, id: nat)
    requires id <= |rows| && forall i | 0 <= i < id :: rows[i].code != code
    requires id < |rows| ==> rows[id].code == code
    ensures IndexOf(rows, code) == id
  {
  }

  /** Until a claim's lease ends no claim takes that schedule again; from then on it is due once more. */
  lemma ClaimExcludesOthers(s: Store, config: Config, now: int, later: int)
    requires Claim(s, config, now).1.Some?
    ensures var (after, job) := Claim(s, config, now);
            var until, second := now + config.runningTimeoutSeconds * 1000, Claim(after, config, later).1;
            && job.value.attempt == s.rows[job.value.id].attempt + 1
            && (Due(after.rows[job.value.id], later) <==> later >= until)
            && (second.Some? && second.value.id == job.value.id ==> later >= until)
  {
  }

  /**
    A failure below the last attempt keeps the attempts and makes an enabled schedule due after the retry
    delay, not before.
   */
  lemma FailedRunWaits(s: Store, job: Claimed, config: Config, now: int, later: int)
    requires job.id < |s.rows| == |s.history| && !Exhausted(job)
    ensures var after := FailRun(s, job, config, now);
            && after.Some? && after.value.rows[job.id].attempt == job.attempt && after.value.outbox == s.outbox
            && (Due(after.value.rows[job.id], later)
                <==> s.rows[job.id].enabled && later >= now + config.retryDelaySeconds * 1000)
  {
  }

  /** `next` is `s` with one more outcome of the schedule `id`, and what follows from it. */
  ghost predicate Recorded(s: Store, next: Store, id: nat, succeeded: bool, config: Config, turn: Turn)
    requires id < |s.rows| == |s.history|
  {
    var row := s.rows[id];
    var last := row.attempt + 1 >= row.maxAttempts;
    var announced := !succeeded && last && config.emitJobFailureEvents && !("webhook." <= row.code);
    && |next.rows| == |s.rows| == |next.history|
    && (forall i | 0 <= i < |s.rows| && i != id :: next.rows[i] == s.rows[i] && next.history[i] == s.history[i])
    && next.history[id] == s.history[id] + [succeeded]
    && next.rows[id] == row.(attempt := next.rows[id].attempt, nextRunAt := next.rows[id].nextRunAt)
    && next.rows[id].attempt == (if succeeded || last then 0 else row.attempt + 1)
    && next.rows[id].nextRunAt == (if succeeded || last then NextRun(row.cron, turn.finishedAt)
                                   else Some(turn.finishedAt + config.retryDelaySeconds * 1000))
    && next.outbox == if announced then s.outbox + [JobFailed(id, row.code, row.attempt + 1, row.maxAttempts)]
         else s.outbox
  }

  /**
    A run counts as a success exactly when a handler is registered for it, returns normally, and a next run is
    found.
   */
  ghost predicate CountsAsSuccess(row: Row, handlers: set<string>, turn: Turn) {
    && (row.handlerType in handlers || row.code in handlers)
    && turn.succeeded
    && NextRun(row.cron, turn.finishedAt).Some?
  }

  /** The pass has processed one more schedule, unless it was ended by an exception. */
  function OneMore(rest: Result<(Store, nat), Store>): Result<(Store, nat), Store> {
    if rest.Ok? then Ok((rest.value.0, rest.value.1 + 1)) else rest
  }

  /** A pass processes no more schedules than it has turns, and without turns nothing happens. */
  lemma {:induction false} PassCounts(s: Store, handlers: set<string>, config: Config, turns: seq<Turn>)
    requires |s.rows| == |s.history|
    ensures turns == []
        ==> ProcessSpec(s, handlers, config, turns).Ok? && ProcessSpec(s, handlers, config, turns).value.0 == s
    ensures ProcessSpec(s, handlers, config, turns).Ok? ==>
              ProcessSpec(s, handlers, config, turns).value.1 <= |turns|
    decreases |turns|
  {
    if turns != [] {
      PassContinues(s, handlers, config, turns);
      hide ProcessSpec, FinishRun, Claim, HasHandler;
      var (claimed, job) := Claim(s, config, turns[0].claimedAt);
      if job.Some? {
        var handled := HasHandler(handlers, job.value) && turns[0].succeeded;
        var finished := FinishRun(claimed, job.value, handled, config, turns[0].finishedAt);
        if finished.Some? { PassCounts(finished.value, handlers, config, turns[1..]); }
      }
    }
  }

  lemma PassContinues(s: Store, handlers: set<string>, config: Config, turns: seq<Turn>)
    requires |s.rows| == |s.history| && turns != []
    ensures var (claimed, job) := Claim(s, config, turns[0].claimedAt);
            && |claimed.rows| == |claimed.history|
            && (job.None? ==> ProcessSpec(s, handlers, config, turns) == Ok((claimed, 0)))
            && (job.Some? ==>
                  && job.value.id < |claimed.rows|
                  && var handled := HasHandler(handlers, job.value) && turns[0].succeeded;
                     var finished := FinishRun(claimed, job.value, handled, config, turns[0].finishedAt);
                     && (finished.None? ==> ProcessSpec(s, handlers, config, turns) == Err(claimed))
                     && (finished.Some? ==>
                           && |finished.value.rows| == |finished.value.history|
                           && ProcessSpec(s, handlers, config, turns)
                              == OneMore(ProcessSpec(finished.value, handlers, config, turns[1..]))))
  {
    hide NextRun;
  }

  /**
    How the first turn of a pass ends. Without a due schedule the pass is over. Otherwise the first one due
    records a success or a failure and the pass goes on, unless a failure needs a next run and there is none.
   */
  lemma TurnRecords(s: Store, handlers: set<string>, config: Config, turns: seq<Turn>, id: nat) returns (next: Store)
    requires |s.rows| == |s.history| && turns != []
    ensures (forall i | 0 <= i < |s.rows| :: !Due(s.rows[i], turns[0].claimedAt)) ==>
              ProcessSpec(s, handlers, config, turns) == Ok((s, 0))
    ensures (&& id < |s.rows| && Due(s.rows[id], turns[0].claimedAt)
             && forall i | 0 <= i < id :: !Due(s.rows[i], turns[0].claimedAt)) ==>
              var row, turn := s.rows[id], turns[0];
              var succeeded := CountsAsSuccess(row, handlers, turn);
              if !succeeded && row.attempt + 1 >= row.maxAttempts && NextRun(row.cron, turn.finishedAt).None? then
                ProcessSpec(s, handlers, config, turns) == Err(Claim(s, config, turn.claimedAt).0)
              else
                && Recorded(s, next, id, succeeded, config, turn)
                && ProcessSpec(s, handlers, config, turns) == OneMore(ProcessSpec(next, handlers, config, turns[1..]))
  {
    next := s;
    var turn := turns[0];
    var (claimed, job) := Claim(s, config, turn.claimedAt);
    ClaimsFirstDue(s, config, turn.claimedAt, id);
    PassContinues(s, handlers, config, turns);
    hide FinishRun, Recorded, HasHandler, CountsAsSuccess, NextRun, FirstDue, Due, Claim, ProcessSpec, OneMore;
    if job.Some? {
      FinishRecords(s, config, handlers, turn);
      var finished := FinishRun(claimed, job.value, HasHandler(handlers, job.value) && turn.succeeded, config,
                                turn.finishedAt);
      if finished.Some? { next := finished.value; }
    }
  }

  lemma ClaimsFirstDue(s: Store, config: Config, now: int, id: nat)
    ensures (forall i | 0 <= i < |s.rows| :: !Due(s.rows[i], now)) <==> Claim(s, config, now).1.None?
    ensures Claim(s, config, now).1.None? ==> Claim(s, config, now).0 == s
    ensures id < |s.rows| && Due(s.rows[id], now) && (forall i | 0 <= i < id :: !Due(s.rows[i], now)) ==>
              Claim(s, config, now).1.Some? && Claim(s, config, now).1.value.id == id
  {
  }

  lemma FinishRecords(s: Store, config: Config, handlers: set<string>, turn: Turn)
    requires |s.rows| == |s.history| && Claim(s, config, turn.claimedAt).1.Some?
    ensures var (claimed, job) := Claim(s, config, turn.claimedAt);
            && job.value.id < |s.rows| && |claimed.rows| == |claimed.history| == |s.rows|
            && var row := s.rows[job.value.id];
               var handled := HasHandler(handlers, job.value) && turn.succeeded;
               match FinishRun(claimed, job.value, handled, config, turn.finishedAt)
               case None =>
                 && !CountsAsSuccess(row, handlers, turn)
                 && row.attempt + 1 >= row.maxAttempts && NextRun(row.cron, turn.finishedAt).None?
               case Some(next) =>
                 && (CountsAsSuccess(row, handlers, turn) || row.attempt + 1 < row.maxAttempts
                     || NextRun(row.cron, turn.finishedAt).Some?)
                 && Recorded(s, next, job.value.id, CountsAsSuccess(row, handlers, turn), config, turn)
  {
    hide NextRun;
  }

  // ----- Streaks of failures

  /** The number of failures since the last success. */
  function Streak(outcomes: seq<bool>): (k: nat)
    ensures k <= |outcomes|
  {
    if outcomes == [] || outcomes[|outcomes| - 1] then 0 else Streak(outcomes[..|outcomes| - 1]) + 1
  }

  /** The sum over the failure streaks of the whole multiples of `maxAttempts` in them. */
  function Exhaustions(outcomes: seq<bool>, maxAttempts: nat): nat
    requires maxAttempts > 0
    decreases |outcomes|
  {
    var k := Streak(outcomes);
    k / maxAttempts + if k == |outcomes| then 0 else Exhaustions(outcomes[..|outcomes| - k - 1], maxAttempts)
  }

  /** One more failure adds an exhaustion exactly when it completes a full set of attempts. */
  lemma OneMoreOutcome(outcomes: seq<bool>, succeeded: bool, maxAttempts: nat)
    requires maxAttempts > 0
    ensures Streak(outcomes + [succeeded]) == if succeeded then 0 else Streak(outcomes) + 1
    ensures Exhaustions(outcomes + [succeeded], maxAttempts) == Exhaustions(outcomes, maxAttempts)
            + if !succeeded && Streak(outcomes) % maxAttempts + 1 == maxAttempts then 1 else 0
  {
    var longer := outcomes + [succeeded];
    assert longer[..|outcomes|] == outcomes;
    var k := Streak(outcomes);
    NextMultiple(k, maxAttempts);
    if succeeded {
      assert longer[..|longer| - 0 - 1] == outcomes;
      assert 0 / maxAttempts == 0;
    } else if k < |outcomes| {
      assert longer[..|longer| - (k + 1) - 1] == outcomes[..|outcomes| - k - 1];
    }
  }

  function EventsOf(outbox: seq<JobFailed>, id: nat): nat {
    if outbox == [] then 0
    else EventsOf(outbox[..|outbox| - 1], id) + if outbox[|outbox| - 1].jobId == id then 1 else 0
  }

  // ----- Timely runs of any number of workers

  datatype Step =
    | Registering(code: string, cron: Schedule, enabled: bool, now: int)
    | Unregistering(code: string, now: int)
    | Claiming(now: int)
    | Finishing(job: Claimed, succeeded: bool, now: int)

  /** A step that throws changes nothing. */
  function Apply(s: Store, step: Step, config: Config): Store
    requires |s.rows| == |s.history|
  {
    match step
    case Registering(code, cron, enabled, now) =>
      (match Register(s, code, cron, enabled, now) case Some(next) => next case None => s)
    case Unregistering(code, now) => Unregister(s, code)
    case Claiming(now) => Claim(s, config, now).0
    case Finishing(job, succeeded, now) =>
      if job.id >= |s.rows| then s
      else match FinishRun(s, job, succeeded, config, now) case Some(next) => next case None => s
  }

  /**
    Every claim is finished before its lease ends: at each step all open leases still run, and what is
    finished is an open claim.
   */
  ghost predicate Timely(s: Store, step: Step) {
    && (forall id | id in s.open :: step.now < s.open[id].until)
    && (step.Finishing? ==> step.job.id in s.open && s.open[step.job.id].job == step.job)
  }

  ghost predicate TimelyRun(s: Store, steps: seq<Step>, config: Config)
    requires |s.rows| == |s.history|
    decreases |steps|
  {
    steps == [] || (Timely(s, steps[0]) && TimelyRun(Apply(s, steps[0], config), steps[1..], config))
  }

  function Run(s: Store, steps: seq<Step>, config: Config): Store
    requires |s.rows| == |s.history|
    decreases |steps|
  {
    if steps == [] then s else Run(Apply(s, steps[0], config), steps[1..], config)
  }

  /** A row that no worker holds carries its failure streak modulo its attempts. */
  ghost predicate RowKept(s: Store, id: nat, config: Config)
    requires id < |s.rows| == |s.history|
  {
    var row, outcomes := s.rows[id], s.history[id];
    && row.maxAttempts > 0
    && row.attempt == Streak(outcomes) % row.maxAttempts + (if id in s.open then 1 else 0)
    && (id in s.open ==>
          && s.open[id].job.id == id && s.open[id].job.code == row.code && s.open[id].job.attempt == row.attempt
          && s.open[id].job.maxAttempts == row.maxAttempts
          && row.nextRunAt == Some(s.open[id].until))
    && EventsOf(s.outbox, id)
       == if config.emitJobFailureEvents && !IsWebhook(row.code) then Exhaustions(outcomes, row.maxAttempts) else 0
  }

  ghost predicate Kept(s: Store, config: Config) {
    && |s.rows| == |s.history|
    && (forall id | 0 <= id < |s.rows| :: RowKept(s, id, config))
    && (forall id | id in s.open :: id < |s.rows|)
    && (forall e | e in s.outbox :: e.jobId < |s.rows|)
  }

  lemma {:induction false} NoEvents(outbox: seq<JobFailed>, id: nat)
    requires forall e | e in outbox :: e.jobId < id
    ensures EventsOf(outbox, id) == 0
  {
    if outbox != [] {
      assert outbox[|outbox| - 1] in outbox;
      NoEvents(outbox[..|outbox| - 1], id);
    }
  }

  /** A row whose own data and events are unchanged stays kept. */
  lemma Undisturbed(s: Store, after: Store, id: nat, config: Config)
    requires id < |s.rows| == |s.history| && RowKept(s, id, config)
    requires id < |after.rows| == |after.history|
    requires after.rows[id].attempt == s.rows[id].attempt && after.rows[id].maxAttempts == s.rows[id].maxAttempts
    requires after.rows[id].code == s.rows[id].code
    requires after.history[id] == s.history[id]
    requires (id in after.open) == (id in s.open)
    requires id in s.open ==> after.open[id] == s.open[id] && after.rows[id].nextRunAt == s.rows[id].nextRunAt
    requires EventsOf(after.outbox, id) == EventsOf(s.outbox, id)
    ensures RowKept(after, id, config)
  {
  }

  lemma RegisterKeeps(s: Store, step: Step, config: Config)
    requires Kept(s, config) && Timely(s, step) && step.Registering?
    ensures Kept(Apply(s, step, config), config)
  {
    hide NextRun;
    var after := Apply(s, step, config);
    forall id | 0 <= id < |after.rows| ensures RowKept(after, id, config) {
      if id < |s.rows| {
        assert RowKept(s, id, config);
        Undisturbed(s, after, id, config);
      } else {
        NoEvents(s.outbox, id);
        assert 0 % 1 == 0 && Streak([]) == 0 && Exhaustions([], 1) == 0;
      }
    }
  }

  lemma UnregisterKeeps(s: Store, step: Step, config: Config)
    requires Kept(s, config) && Timely(s, step) && step.Unregistering?
    ensures Kept(Apply(s, step, config), config)
  {
    hide NextRun;
    var after := Apply(s, step, config);
    forall id | 0 <= id < |after.rows| ensures RowKept(after, id, config) {
      assert RowKept(s, id, config);
      Undisturbed(s, after, id, config);
    }
  }

  lemma ClaimKeeps(s: Store, step: Step, config: Config)
    requires Kept(s, config) && Timely(s, step) && step.Claiming?
    ensures Kept(Apply(s, step, config), config)
  {
    hide NextRun;
    var after := Apply(s, step, config);
    forall id | 0 <= id < |after.rows| ensures RowKept(after, id, config) {
      assert RowKept(s, id, config);
      if after.rows[id] == s.rows[id] && (id in after.open) == (id in s.open)
        && (id in s.open ==> after.open[id] == s.open[id]) {
        Undisturbed(s, after, id, config);
      }
    }
  }

  lemma OneMoreEvent(outbox: seq<JobFailed>, e: JobFailed, id: nat)
    ensures EventsOf(outbox + [e], id) == EventsOf(outbox, id) + if e.jobId == id then 1 else 0
  {
    assert (outbox + [e])[..|outbox|] == outbox;
  }

  lemma FinishKeeps(s: Store, step: Step, config: Config)
    requires Kept(s, config) && Timely(s, step) && step.Finishing?
    ensures Kept(Apply(s, step, config), config)
  {
    hide NextRun, Streak, Exhaustions, EventsOf;
    var job := step.job;
    var after := Apply(s, step, config);
    assert RowKept(s, job.id, config);
    OneMoreOutcome(s.history[job.id], step.succeeded && NextRun(job.cron, step.now).Some?, job.maxAttempts);
    NextMultiple(Streak(s.history[job.id]), job.maxAttempts);
    assert 0 % job.maxAttempts == 0;
    var e := JobFailed(job.id, job.code, job.attempt, job.maxAttempts);
    forall id | 0 <= id < |after.rows| ensures RowKept(after, id, config) {
      assert RowKept(s, id, config);
      OneMoreEvent(s.outbox, e, id);
      if id != job.id { Undisturbed(s, after, id, config); }
    }
  }

  /** Rows that were just inserted, whatever their number of attempts, start a run kept. */
  lemma FreshRowsKept(rows: seq<Row>, config: Config)
    requires forall r | r in rows :: r.attempt == 0 && r.maxAttempts > 0
    ensures Kept(Store(rows, [], seq(|rows|, i => []), map[]), config)
  {
    var s := Store(rows, [], seq(|rows|, i => []), map[]);
    forall id | 0 <= id < |rows| ensures RowKept(s, id, config) {
      assert rows[id] in rows && s.history[id] == [];
      assert Streak([]) == 0;
      DivModUnique(0, rows[id].maxAttempts, 0, 0);
    }
  }

  /**
    Failure accounting over every timely run: between runs the stored attempt is the current failure
    streak modulo the maximum, and the events of a job are the sum over its streaks of
    floor(length / maximum), when events are enabled and its code is not a webhook's.
   */
  lemma {:induction false} FailuresAccounted(s: Store, steps: seq<Step>, config: Config)
    requires Kept(s, config) && TimelyRun(s, steps, config)
    ensures Kept(Run(s, steps, config), config)
    decreases |steps|
  {
    if steps != [] {
      hide Apply, Kept, Timely;
      StepKeeps(s, steps[0], config);
      FailuresAccounted(Apply(s, steps[0], config), steps[1..], config);
    }
  }

  /** Every single timely step keeps the accounting. */
  lemma StepKeeps(s: Store, step: Step, config: Config)
    requires Kept(s, config) && Timely(s, step)
    ensures Kept(Apply(s, step, config), config)
  {
    hide Apply, Kept, Timely;
    match step
    case Registering(_, _, _, _) => RegisterKeeps(s, step, config);
    case Unregistering(_, _) => UnregisterKeeps(s, step, config);
    case Claiming(_) => ClaimKeeps(s, step, config);
    case Finishing(_, _, _) => FinishKeeps(s, step, config);
  }

  // ----- Late finishes

  /** The events a row should have emitted for the outcomes recorded so far. */
  function ExpectedEvents(s: Store, id: nat, config: Config): nat
    requires id < |s.rows| == |s.history| && s.rows[id].maxAttempts > 0
  {
    if config.emitJobFailureEvents && !IsWebhook(s.rows[id].code)
      then Exhaustions(s.history[id], s.rows[id].maxAttempts)
    else 0
  }

  /** Rows have attempts to make, and no event is about a row that does not exist. */
  predicate Numbered(s: Store) {
    && |s.rows| == |s.history|
    && (forall id | 0 <= id < |s.rows| :: s.rows[id].maxAttempts > 0)
    && (forall e | e in s.outbox :: e.jobId < |s.rows|)
  }

  /** Every row has emitted exactly the events its outcomes call for. */
  ghost predicate EventsMatch(s: Store, config: Config)
    requires Numbered(s)
  {
    forall id | 0 <= id < |s.rows| :: EventsOf(s.outbox, id) == ExpectedEvents(s, id, config)
  }

  /**
    What is finished was once claimed, however long ago: code and maximum are the row's, the attempt counts
    from one.
   */
  predicate OnceClaimed(s: Store, step: Step) {
    step.Finishing? ==>
      && step.job.id < |s.rows|
      && step.job.code == s.rows[step.job.id].code
      && step.job.maxAttempts == s.rows[step.job.id].maxAttempts
      && step.job.attempt >= 1
  }

  /** The step records an outcome, rather than throwing. */
  predicate Records(s: Store, step: Step, config: Config)
    requires |s.rows| == |s.history| && OnceClaimed(s, step)
  {
    step.Finishing? && FinishRun(s, step.job, step.succeeded, config, step.now).Some?
  }

  /** The outcome recorded is a success. */
  predicate RecordsSuccess(step: Step) { step.Finishing? && step.succeeded && NextRun(step.job.cron, step.now).Some? }

  /** After the step all events match, and a row it finished holds its failure streak modulo its attempts. */
  ghost predicate Accounted(s: Store, step: Step, config: Config)
    requires Numbered(s) && OnceClaimed(s, step) && Numbered(Apply(s, step, config))
  {
    var after := Apply(s, step, config);
    && EventsMatch(after, config)
    && (Records(s, step, config) ==>
          after.rows[step.job.id].attempt == Streak(after.history[step.job.id]) % after.rows[step.job.id].maxAttempts)
  }

  /**
    What the step records is a success, or a failure whose claim counts as the attempt that the failures
    recorded before it make it: the last one where the attempts are exhausted, however far beyond.
   */
  predicate InTurn(s: Store, step: Step, config: Config)
    requires Numbered(s) && OnceClaimed(s, step)
  {
    Records(s, step, config) && !RecordsSuccess(step) ==>
      var job := step.job;
      Streak(s.history[job.id]) % job.maxAttempts + 1 == if Exhausted(job) then job.maxAttempts else job.attempt
  }

  lemma StepNumbers(s: Store, step: Step, config: Config)
    requires Numbered(s) && OnceClaimed(s, step)
    ensures Numbered(Apply(s, step, config))
  {
    hide NextRun;
  }

  /** A step that finishes nothing adds neither outcomes nor events. */
  lemma OtherStepsMatch(s: Store, step: Step, config: Config)
    requires Numbered(s) && EventsMatch(s, config) && OnceClaimed(s, step) && !Records(s, step, config)
    ensures Numbered(Apply(s, step, config)) && EventsMatch(Apply(s, step, config), config)
  {
    StepNumbers(s, step, config);
    var after := Apply(s, step, config);
    hide NextRun, Exhaustions, EventsOf;
    forall id | 0 <= id < |after.rows| ensures EventsOf(after.outbox, id) == ExpectedEvents(after, id, config) {
      if id < |s.rows| {
        assert EventsOf(s.outbox, id) == ExpectedEvents(s, id, config);
      } else {
        NoEvents(s.outbox, id);
        assert Exhaustions([], 1) == 0 by { NothingExhausted(); }
      }
    }
  }

  lemma NothingExhausted()
    ensures Exhaustions([], 1) == 0
  {
    assert Streak([]) == 0 && 0 / 1 == 0;
  }

  /** Recording an outcome changes the accounting of its own row only. */
  lemma FinishMatches(s: Store, step: Step, config: Config)
    requires Numbered(s) && EventsMatch(s, config) && OnceClaimed(s, step) && Records(s, step, config)
    ensures Numbered(Apply(s, step, config))
    ensures var after, id := Apply(s, step, config), step.job.id;
            && (EventsMatch(after, config) <==> EventsOf(after.outbox, id) == ExpectedEvents(after, id, config))
            && after.rows[id].maxAttempts == s.rows[id].maxAttempts && after.rows[id].code == s.rows[id].code
            && after.history[id] == s.history[id] + [RecordsSuccess(step)]
            && after.rows[id].attempt == (if RecordsSuccess(step) || Exhausted(step.job) then 0 else step.job.attempt)
            && var announced := !RecordsSuccess(step) && Exhausted(step.job)
                                && config.emitJobFailureEvents && !IsWebhook(step.job.code);
               EventsOf(after.outbox, id) == EventsOf(s.outbox, id) + if announced then 1 else 0
  {
    StepNumbers(s, step, config);
    var job, after := step.job, Apply(s, step, config);
    hide NextRun, Exhaustions, EventsOf;
    var e := JobFailed(job.id, job.code, job.attempt, job.maxAttempts);
    forall id: nat ensures EventsOf(s.outbox + [e], id) == EventsOf(s.outbox, id) + if id == job.id then 1 else 0 {
      OneMoreEvent(s.outbox, e, id);
    }
    forall id | 0 <= id < |s.rows| && id != job.id
      ensures EventsOf(after.outbox, id) == ExpectedEvents(after, id, config)
    {
      assert EventsOf(s.outbox, id) == ExpectedEvents(s, id, config);
    }
  }

  /** A finish, however late, keeps the accounting exactly when it comes in turn. */
  lemma FinishAccountedIff(s: Store, step: Step, config: Config)
    requires Numbered(s) && EventsMatch(s, config) && OnceClaimed(s, step)
    ensures Numbered(Apply(s, step, config))
    ensures Accounted(s, step, config) <==> InTurn(s, step, config)
  {
    if Records(s, step, config) {
      var job, outcomes := step.job, s.history[step.job.id];
      FinishMatches(s, step, config);
      assert EventsOf(s.outbox, job.id) == ExpectedEvents(s, job.id, config);
      OneMoreOutcome(outcomes, RecordsSuccess(step), job.maxAttempts);
      NextMultiple(Streak(outcomes), job.maxAttempts);
      assert 0 % job.maxAttempts == 0;
      hide Apply, Exhaustions, EventsOf, EventsMatch, RecordsSuccess, Records, Streak;
    } else {
      OtherStepsMatch(s, step, config);
    }
  }

  /** Every step finishes what was once claimed. */
  predicate OnceClaimedRun(s: Store, steps: seq<Step>, config: Config)
    requires Numbered(s)
    decreases |steps|
  {
    steps == []
    || (&& OnceClaimed(s, steps[0])
        && Numbered(Apply(s, steps[0], config))
        && OnceClaimedRun(Apply(s, steps[0], config), steps[1..], config))
  }

  ghost predicate AccountedThroughout(s: Store, steps: seq<Step>, config: Config)
    requires Numbered(s) && OnceClaimedRun(s, steps, config)
    decreases |steps|
  {
    steps == []
    || (Accounted(s, steps[0], config) && AccountedThroughout(Apply(s, steps[0], config), steps[1..], config))
  }

  predicate InTurnThroughout(s: Store, steps: seq<Step>, config: Config)
    requires Numbered(s) && OnceClaimedRun(s, steps, config)
    decreases |steps|
  {
    steps == []
    || (InTurn(s, steps[0], config) && InTurnThroughout(Apply(s, steps[0], config), steps[1..], config))
  }

  /**
    Over any run, lapsed claims and late finishes included, events and attempts account for the recorded
    outcomes throughout exactly when every recorded failure comes in turn.
   */
  lemma {:induction false} AccountedIffInTurn(s: Store, steps: seq<Step>, config: Config)
    requires Numbered(s) && EventsMatch(s, config) && OnceClaimedRun(s, steps, config)
    ensures AccountedThroughout(s, steps, config) <==> InTurnThroughout(s, steps, config)
    decreases |steps|
  {
    if steps != [] {
      FinishAccountedIff(s, steps[0], config);
      hide Apply, InTurn, EventsMatch, OnceClaimed, Numbered;
      if Accounted(s, steps[0], config) { AccountedIffInTurn(Apply(s, steps[0], config), steps[1..], config); }
    }
  }

  /** A claim finished before its lease ends always comes in turn. */
  lemma TimelyIsInTurn(s: Store, step: Step, config: Config)
    requires Kept(s, config) && Timely(s, step)
    ensures Numbered(s) && OnceClaimed(s, step) && InTurn(s, step, config)
  {
    hide Exhaustions, EventsOf, NextRun, Streak;
    forall id | 0 <= id < |s.rows| ensures s.rows[id].maxAttempts > 0 { assert RowKept(s, id, config); }
    if step.Finishing? {
      assert step.job.id < |s.rows| && RowKept(s, step.job.id, config);
      NextMultiple(Streak(s.history[step.job.id]), step.job.maxAttempts);
    }
  }

  /** The step takes the row from a claim that is still unfinished. */
  predicate EndsOtherClaim(s: Store, step: Step, config: Config)
    requires |s.rows| == |s.history|
  {
    exists id | id in s.open :: !(step.Finishing? && step.job == s.open[id].job) && id !in Apply(s, step, config).open
  }

  /** A finish ends the lease of another claim exactly when it is recorded while a later claim of its row is open. */
  lemma FinishEndsOtherClaimIff(s: Store, step: Step, config: Config)
    requires Numbered(s) && OnceClaimed(s, step)
    ensures EndsOtherClaim(s, step, config)
       <==> Records(s, step, config) && step.job.id in s.open && s.open[step.job.id].job != step.job
  {
    hide NextRun;
    if Records(s, step, config) && step.job.id in s.open && s.open[step.job.id].job != step.job {
      assert step.job.id !in Apply(s, step, config).open;
    }
  }

  // ----- A claim that lapses

  const EVERY_MINUTE := Schedule(set v: int | 0 <= v <= 59, set v: int | 0 <= v <= 23, set v: int | 1 <= v <= 31,
                                 set v: int | 1 <= v <= 12, set v: int | 0 <= v <= 6, true, true)

  lemma EveryMinuteRuns(from: int)
    ensures NextRun(EVERY_MINUTE, from).Some?
  {
    hide NextRun;
    assert 0 in EVERY_MINUTE.minutes && 0 in EVERY_MINUTE.hours && 0 in EVERY_MINUTE.daysOfWeek;
    assert 1 in EVERY_MINUTE.months && 1 in EVERY_MINUTE.daysOfMonth;
    EveryYearsDateRuns(EVERY_MINUTE, from);
  }

  const LAPSING := Row("report", EVERY_MINUTE, "report", true, None, 0, 2)
  const LAPSING_STORE := LapsingStore(LAPSING, map[])
  const LAPSING_CONFIG := Config(60, 900, true)
  const LAPSED := Claimed(0, "report", EVERY_MINUTE, "report", 1, 2)

  const LAST_FAILURE := Finishing(LAPSED.(attempt := 2), false, 900_001)

  /** The first claim lapses unfinished, the second one fails. */
  const LAPSING_STEPS := [Claiming(0), Claiming(900_000), LAST_FAILURE]

  function LapsingStore(row: Row, open: map<nat, Lease>): Store { Store([row], [], [[]], open) }

  /** Without timely finishes a failure is announced after a single recorded failure of two. */
  lemma LapsedClaimAnnouncesEarly()
    ensures Kept(LAPSING_STORE, LAPSING_CONFIG) && OnceClaimedRun(LAPSING_STORE, LAPSING_STEPS, LAPSING_CONFIG)
    ensures var after := Run(LAPSING_STORE, LAPSING_STEPS, LAPSING_CONFIG);
            && after.history == [[false]] && |after.rows| == 1 && after.rows[0].maxAttempts == 2
            && EventsOf(after.outbox, 0) == 1 && Exhaustions(after.history[0], 2) == 0
            && after.rows[0].attempt == 0 && Streak(after.history[0]) % 2 == 1
  {
    var once, twice := LAPSING.(attempt := 1, nextRunAt := Some(900_000)),
      LAPSING.(attempt := 2, nextRunAt := Some(1_800_000));
    var first := LapsingStore(once, map[0 := Lease(LAPSED, 900_000)]);
    var second := LapsingStore(twice, map[0 := Lease(LAPSED.(attempt := 2), 1_800_000)]);
    LapsingKept();
    LapsingClaim(LAPSING, map[], 0);
    LapsingClaim(once, first.open, 900_000);
    assert first.open[0 := Lease(LAPSED.(attempt := 2), 1_800_000)] == second.open;
    assert map[][0 := Lease(LAPSED, 900_000)] == first.open;
    LastFailureRecorded(second.open);
    hide Apply, LapsingStore, Streak, Exhaustions, EventsOf, Kept;
    RunOfThree(LAPSING_STORE, Claiming(0), Claiming(900_000), LAST_FAILURE, LAPSING_CONFIG);
  }

  lemma LapsingKept()
    ensures Kept(LAPSING_STORE, LAPSING_CONFIG)
  {
    var none: seq<bool> := [];
    assert seq(1, i => none) == [none];
    FreshRowsKept([LAPSING], LAPSING_CONFIG);
  }

  lemma LapsingClaim(row: Row, open: map<nat, Lease>, now: int)
    requires row == LAPSING.(attempt := row.attempt, nextRunAt := row.nextRunAt) && Due(row, now)
    ensures var until, s := now + 900_000, LapsingStore(row, open);
            (Apply(s, Claiming(now), LAPSING_CONFIG)
             == LapsingStore(row.(attempt := row.attempt + 1, nextRunAt := Some(until)),
                             open[0 := Lease(LAPSED.(attempt := row.attempt + 1), until)]))
  {
    assert FirstDue([row], 0, now) == Some(0);
  }

  lemma LastFailureRecorded(open: map<nat, Lease>)
    ensures var s := LapsingStore(LAPSING.(attempt := 2, nextRunAt := Some(1_800_000)), open);
            var after := Apply(s, LAST_FAILURE, LAPSING_CONFIG);
            && |s.rows| == 1 == |s.history| && OnceClaimed(s, LAST_FAILURE)
            && after.history == [[false]] && |after.rows| == 1
            && after.rows[0].maxAttempts == 2 && after.rows[0].attempt == 0
            && EventsOf(after.outbox, 0) == 1 && Exhaustions([false], 2) == 0 && Streak([false]) == 1
  {
    EveryMinuteRuns(900_001);
    hide NextRun;
    var none: seq<bool> := [];
    assert none + [false] == [false];
    assert Streak(none) == 0 && Exhaustions(none, 2) == 0;
    OneMoreOutcome(none, false, 2);
    var e := JobFailed(0, "report", 2, 2);
    OneMoreEvent([], e, 0);
    assert [] + [e] == [e];
  }

  lemma RunCons(s: Store, step: Step, rest: seq<Step>, config: Config)
    requires Numbered(s) && OnceClaimed(s, step) && Numbered(Apply(s, step, config))
    requires OnceClaimedRun(Apply(s, step, config), rest, config)
    ensures OnceClaimedRun(s, [step] + rest, config)
    ensures Run(s, [step] + rest, config) == Run(Apply(s, step, config), rest, config)
  {
    assert ([step] + rest)[1..] == rest;
  }

  lemma RunOfThree(s: Store, a: Step, b: Step, c: Step, config: Config)
    requires Numbered(s) && OnceClaimed(s, a)
    requires var next := Apply(s, a, config);
             && OnceClaimed(next, b) && var third := Apply(next, b, config); OnceClaimed(third, c)
    ensures OnceClaimedRun(s, [a, b, c], config)
    ensures Run(s, [a, b, c], config) == Apply(Apply(Apply(s, a, config), b, config), c, config)
  {
    var next := Apply(s, a, config);
    var third := Apply(next, b, config);
    StepNumbers(s, a, config);
    StepNumbers(next, b, config);
    StepNumbers(third, c, config);
    hide Apply, OnceClaimed, Numbered;
    RunCons(third, c, [], config);
    RunCons(next, b, [c], config);
    RunCons(s, a, [b, c], config);
    assert [c] + [] == [c] && [b] + [c] == [b, c] && [a] + [b, c] == [a, b, c];
  }

  /**
    A successful run is recorded as one exactly when a next run is found; otherwise it is recorded as a
    failure, or after the last attempt not at all.
   */
  lemma SuccessCountsIff(s: Store, job: Claimed, config: Config, now: int)
    requires job.id < |s.rows| == |s.history|
    ensures var after := FinishRun(s, job, true, config, now);
            && (after.Some? && after.value.history[job.id] == s.history[job.id] + [true]
                <==> NextRun(job.cron, now).Some?)
            && (after.None? <==> NextRun(job.cron, now).None? && Exhausted(job))
            && (after.Some? && NextRun(job.cron, now).None? ==>
                  after.value.history[job.id] == s.history[job.id] + [false]
                    && after.value.rows[job.id].attempt == job.attempt)
  {
    hide NextRun;
    assert (s.history[job.id] + [true])[|s.history[job.id]|] != (s.history[job.id] + [false])[|s.history[job.id]|];
  }

  /**
    Whenever a run is finished as a success or as an exhausted failure, in time or late, the next run is in
    the future, within a year, and matches the expression the run was claimed with.
   */
  lemma NextRunLiesAhead(s: Store, job: Claimed, succeeded: bool, config: Config, now: int)
    requires job.id < |s.rows| == |s.history|
    requires FinishRun(s, job, succeeded, config, now).Some?
    requires Exhausted(job)
        || FinishRun(s, job, succeeded, config, now).value.history[job.id] == s.history[job.id] + [true]
    ensures var row := FinishRun(s, job, succeeded, config, now).value.rows[job.id];
            && row.nextRunAt.Some? && row.attempt == 0
            && var t := row.nextRunAt.value;
               now < t <= now + ONE_YEAR && WholeMinute(t) && Matches(job.cron, t)
  {
    hide NextRun, Matches;
    assert (s.history[job.id] + [true])[|s.history[job.id]|] != (s.history[job.id] + [false])[|s.history[job.id]|];
    NextRunIsLeast(job.cron, now);
  }
}
