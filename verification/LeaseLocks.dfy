/**
  Lease locks: the database lock with its fencing token, the in-memory lock, and the abstract lease
  that both implement.
 */
module LeaseLocks {
  // ----- The abstract lease

  datatype Lease = Lease(owner: string, expiresAt: int)

  type Leases = map<string, Lease>

  predicate HeldAt(leases: Leases, key: string, now: int) {
    key in leases && leases[key].expiresAt > now
  }

  function Grant(leases: Leases, key: string, owner: string, ttlSeconds: int, now: int): (Leases, bool) {
    if HeldAt(leases, key, now) then (leases, false)
    else (leases[key := Lease(owner, now + ttlSeconds * 1000)], true)
  }

  function GiveUp(leases: Leases, key: string, owner: string): Leases {
    if key in leases && leases[key].owner == owner then leases - {key} else leases
  }

  // ----- The lock table of the database

  datatype LockRow = LockRow(owner: string, fencingToken: nat, expiresAt: int)

  type Table = map<string, LockRow>

  predicate MayTake(row: LockRow, owner: string, now: int) {
    row.owner == owner || row.expiresAt <= now
  }

  /** An absent row is inserted with token 1. */
  function Insert(table: Table, key: string, owner: string, expiresAt: int): (Table, bool) {
    if key in table then (table, false) else (table[key := LockRow(owner, 1, expiresAt)], true)
  }

  /** An expired or own row is taken with the next token. */
  function Take(table: Table, key: string, owner: string, expiresAt: int, now: int): (Table, bool) {
    if key in table && MayTake(table[key], owner, now)
    then (table[key := LockRow(owner, table[key].fencingToken + 1, expiresAt)], true)
    else (table, false)
  }

  /** Both, with nothing in between. */
  function Acquire(table: Table, key: string, owner: string, ttlSeconds: int, now: int): (Table, bool) {
    var expiresAt := now + ttlSeconds * 1000;
    var (inserted, acquired) := Insert(table, key, owner, expiresAt);
    if acquired then (inserted, true) else Take(table, key, owner, expiresAt, now)
  }

  function Release(table: Table, key: string, owner: string): Table {
    if key in table && table[key].owner == owner then table - {key} else table
  }

  class DatabaseLock {
    var locks: Table

    constructor ()
      ensures locks == map[]
    {
      locks := map[];
    }

    method InsertIfAbsent(key: string, owner: string, expiresAt: int) returns (inserted: bool)
      modifies this
      ensures (locks, inserted) == Insert(old(locks), key, owner, expiresAt)
      ensures inserted <==> key !in old(locks)
      ensures locks == if inserted then old(locks)[key := LockRow(owner, 1, expiresAt)] else old(locks)
    {
      inserted := key !in locks;
      if inserted { locks := locks[key := LockRow(owner, 1, expiresAt)]; }
    }

    method TakeExpiredOrOwned(key: string, owner: string, expiresAt: int, now: int) returns (taken: bool)
      modifies this
      ensures (locks, taken) == Take(old(locks), key, owner, expiresAt, now)
      ensures taken <==> key in old(locks) && MayTake(old(locks)[key], owner, now)
      ensures locks == if taken then old(locks)[key := LockRow(owner, old(locks)[key].fencingToken + 1, expiresAt)]
                       else old(locks)
    {
      taken := key in locks && (locks[key].owner == owner || locks[key].expiresAt <= now);
      if taken { locks := locks[key := LockRow(owner, locks[key].fencingToken + 1, expiresAt)]; }
    }

    method AcquireLock(key: string, owner: string, ttlSeconds: int, now: int) returns (acquired: bool)
      modifies this
      ensures (locks, acquired) == Acquire(old(locks), key, owner, ttlSeconds, now)
    {
      var expiresAt := now + ttlSeconds * 1000;
      var inserted := InsertIfAbsent(key, owner, expiresAt);
      if inserted { return true; }
      acquired := TakeExpiredOrOwned(key, owner, expiresAt, now);
    }

    method ReleaseLock(key: string, owner: string)
      modifies this
      ensures locks == Release(old(locks), key, owner)
    {
      if key in locks && locks[key].owner == owner { locks := locks - {key}; }
    }
  }

  class InMemoryLock {
    var locks: Leases

    constructor ()
      ensures locks == map[]
    {
      locks := map[];
    }

    /** `owner` is the random identifier drawn for this acquisition. */
    method AcquireLock(key: string, owner: string, ttlSeconds: int, now: int) returns (acquired: bool)
      modifies this
      ensures (locks, acquired) == Grant(old(locks), key, owner, ttlSeconds, now)
    {
      if key in locks && locks[key].expiresAt > now { return false; }
      locks := locks[key := Lease(owner, now + ttlSeconds * 1000)];
      return true;
    }

    method ReleaseLock(key: string, owner: string)
      modifies this
      ensures locks == GiveUp(old(locks), key, owner)
    {
      if key in locks && locks[key].owner == owner { locks := locks - {key}; }
    }
  }

  // ----- Runs of single statements

  /** The two statements of an acquisition are steps of their own: other workers' steps may fall between them. */
  datatype Step =
    | Inserting(key: string, owner: string, expiresAt: int)
    | Taking(key: string, owner: string, expiresAt: int, now: int)
    | Releasing(key: string, owner: string)

  function Apply(table: Table, step: Step): (Table, bool) {
    match step
    case Inserting(key, owner, expiresAt) => Insert(table, key, owner, expiresAt)
    case Taking(key, owner, expiresAt, now) => Take(table, key, owner, expiresAt, now)
    case Releasing(key, owner) => (Release(table, key, owner), false)
  }

  /** The table after a run and which of its steps acquired. */
  function Run(table: Table, steps: seq<Step>): (Table, seq<bool>)
    decreases |steps|
  {
    if steps == [] then (table, [])
    else
      var (next, acquired) := Apply(table, steps[0]);
      var (last, rest) := Run(next, steps[1..]);
      (last, [acquired] + rest)
  }

  /** The step is not one of `owner` on `key`, and takes `key` only with a clock before `deadline`. */
  predicate DuringLease(step: Step, key: string, owner: string, deadline: int) {
    step.key == key ==> step.owner != owner && (step.Taking? ==> step.now < deadline)
  }

  /**
    After an owner's latest acquisition, no step of any run acquires that key before the owner releases
    it or the lease ends; stale releases and other attempts leave the row as it is.
   */
  lemma {:induction false} LeaseExcludesOthers(
    table: Table, key: string, owner: string, deadline: int, steps: seq<Step>)
    requires key in table && table[key].owner == owner && table[key].expiresAt == deadline
    requires forall s | s in steps :: DuringLease(s, key, owner, deadline)
    ensures var (after, acquired) := Run(table, steps);
            && |acquired| == |steps|
            && key in after && after[key] == table[key]
            && forall i | 0 <= i < |steps| && steps[i].key == key :: !acquired[i]
    decreases |steps|
  {
    if steps != [] {
      assert DuringLease(steps[0], key, owner, deadline);
      LeaseExcludesOthers(Apply(table, steps[0]).0, key, owner, deadline, steps[1..]);
    }
  }

  /** The exclusion that an acquisition starts, by whichever of its two statements. */
  lemma AcquisitionExcludesOthers(table: Table, step: Step, steps: seq<Step>)
    requires !step.Releasing? && Apply(table, step).1
    requires forall s | s in steps :: DuringLease(s, step.key, step.owner, step.expiresAt)
    ensures var acquired := Run(Apply(table, step).0, steps).1;
            && |acquired| == |steps|
            && forall i | 0 <= i < |steps| && steps[i].key == step.key :: !acquired[i]
  {
    LeaseExcludesOthers(Apply(table, step).0, step.key, step.owner, step.expiresAt, steps);
  }

  /** How many steps of a run acquired `key`. */
  function Acquisitions(steps: seq<Step>, acquired: seq<bool>, key: string): nat
    requires |steps| == |acquired|
  {
    if steps == [] then 0
    else (if steps[0].key == key && acquired[0] then 1 else 0) + Acquisitions(steps[1..], acquired[1..], key)
  }

  /** The row of `key` is present before and after every step of the run. */
  predicate Survives(table: Table, steps: seq<Step>, key: string)
    decreases |steps|
  {
    key in table && (steps != [] ==> Survives(Apply(table, steps[0]).0, steps[1..], key))
  }

  /** While its row survives, the fencing token grows by exactly one with every acquisition. */
  lemma {:induction false} TokenCountsAcquisitions(table: Table, steps: seq<Step>, key: string)
    requires Survives(table, steps, key)
    ensures var (after, acquired) := Run(table, steps);
            && |acquired| == |steps|
            && key in after
            && after[key].fencingToken == table[key].fencingToken + Acquisitions(steps, acquired, key)
    decreases |steps|
  {
    if steps != [] {
      var next := Apply(table, steps[0]).0;
      TokenCountsAcquisitions(next, steps[1..], key);
      var (after, acquired) := Run(table, steps);
      assert acquired[1..] == Run(next, steps[1..]).1;
    }
  }

  /** Every token is at least 1. */
  predicate TokensPositive(table: Table) { forall key | key in table :: table[key].fencingToken >= 1 }

  lemma {:induction false} TokensStayPositive(table: Table, steps: seq<Step>)
    requires TokensPositive(table)
    ensures TokensPositive(Run(table, steps).0)
    decreases |steps|
  {
    if steps != [] { TokensStayPositive(Apply(table, steps[0]).0, steps[1..]); }
  }

  /** No step of the run acquires `key`. */
  predicate NotAcquired(table: Table, steps: seq<Step>, key: string)
    decreases |steps|
  {
    steps == []
    || (!(steps[0].key == key && Apply(table, steps[0]).1) && NotAcquired(Apply(table, steps[0]).0, steps[1..], key))
  }

  /** Between two acquisitions of a key its row stays as it is, unless its owner releases it: then it is gone. */
  lemma {:induction false} RowGoneIffReleased(table: Table, steps: seq<Step>, key: string)
    requires key in table && NotAcquired(table, steps, key)
    ensures var after := Run(table, steps).0;
            && (key !in after <==> Releasing(key, table[key].owner) in steps)
            && (key in after ==> after[key] == table[key])
    decreases |steps|
  {
    if steps != [] {
      var next := Apply(table, steps[0]).0;
      assert Releasing(key, table[key].owner) in steps <==>
        steps[0] == Releasing(key, table[key].owner) || Releasing(key, table[key].owner) in steps[1..];
      if key in next { RowGoneIffReleased(next, steps[1..], key); } else { StaysGone(next, steps[1..], key); }
    }
  }

  lemma {:induction false} StaysGone(table: Table, steps: seq<Step>, key: string)
    requires key !in table && NotAcquired(table, steps, key)
    ensures key !in Run(table, steps).0
    decreases |steps|
  {
    if steps != [] { StaysGone(Apply(table, steps[0]).0, steps[1..], key); }
  }

  /**
    The next acquisition's fencing token exceeds the last one's exactly when the row was not released in
    between; it is then the next number, and otherwise 1 again.
   */
  lemma NextTokenExceedsIff(table: Table, steps: seq<Step>, step: Step)
    requires TokensPositive(table) && step.key in table && NotAcquired(table, steps, step.key)
    requires Apply(Run(table, steps).0, step).1
    ensures var last, next := table[step.key], Apply(Run(table, steps).0, step).0[step.key];
            && (next.fencingToken > last.fencingToken <==> Releasing(step.key, last.owner) !in steps)
            && next.fencingToken == if Releasing(step.key, last.owner) in steps then 1 else last.fencingToken + 1
  {
    RowGoneIffReleased(table, steps, step.key);
  }

  /**
    An acquisition whose insertion found a row succeeds exactly when it may take that row and nobody
    released it before the second statement: a key given up in between is refused although it is free.
   */
  lemma TakeSucceedsIff(table: Table, between: seq<Step>, key: string, owner: string, expiresAt: int, now: int)
    requires !Apply(table, Inserting(key, owner, expiresAt)).1 && NotAcquired(table, between, key)
    ensures Apply(Run(table, between).0, Taking(key, owner, expiresAt, now)).1
       <==> Releasing(key, table[key].owner) !in between && MayTake(table[key], owner, now)
  {
    RowGoneIffReleased(table, between, key);
  }

  // ----- Whole acquisitions

  datatype Call =
    | Acquiring(key: string, owner: string, ttlSeconds: int, now: int)
    | GivingUp(key: string, owner: string)

  function ApplyCall(table: Table, call: Call): (Table, bool) {
    match call
    case Acquiring(key, owner, ttl, now) => Acquire(table, key, owner, ttl, now)
    case GivingUp(key, owner) => (Release(table, key, owner), false)
  }

  function RunCalls(table: Table, calls: seq<Call>): (Table, seq<bool>)
    decreases |calls|
  {
    if calls == [] then (table, [])
    else
      var (next, acquired) := ApplyCall(table, calls[0]);
      var (last, rest) := RunCalls(next, calls[1..]);
      (last, [acquired] + rest)
  }

  function ApplyLease(leases: Leases, call: Call): (Leases, bool) {
    match call
    case Acquiring(key, owner, ttl, now) => Grant(leases, key, owner, ttl, now)
    case GivingUp(key, owner) => (GiveUp(leases, key, owner), false)
  }

  function RunLease(leases: Leases, calls: seq<Call>): (Leases, seq<bool>)
    decreases |calls|
  {
    if calls == [] then (leases, [])
    else
      var (next, acquired) := ApplyLease(leases, calls[0]);
      var (last, rest) := RunLease(next, calls[1..]);
      (last, [acquired] + rest)
  }

  /** The statements a call runs: the second one of an acquisition only when the first found a row. */
  function StepsOfCall(table: Table, call: Call): seq<Step> {
    match call
    case GivingUp(key, owner) => [Releasing(key, owner)]
    case Acquiring(key, owner, ttl, now) =>
      var expiresAt := now + ttl * 1000;
      if key in table then [Inserting(key, owner, expiresAt), Taking(key, owner, expiresAt, now)]
      else [Inserting(key, owner, expiresAt)]
  }

  function StepsOf(table: Table, calls: seq<Call>): seq<Step>
    decreases |calls|
  {
    if calls == [] then [] else StepsOfCall(table, calls[0]) + StepsOf(ApplyCall(table, calls[0]).0, calls[1..])
  }

  /** The keys acquired in a run, in order. */
  function AcquiredKeys(steps: seq<Step>, acquired: seq<bool>): seq<string>
    requires |steps| == |acquired|
  {
    if steps == [] then []
    else (if acquired[0] then [steps[0].key] else []) + AcquiredKeys(steps[1..], acquired[1..])
  }

  function AcquiredByCalls(calls: seq<Call>, acquired: seq<bool>): seq<string>
    requires |calls| == |acquired|
  {
    if calls == [] then []
    else (if acquired[0] then [calls[0].key] else []) + AcquiredByCalls(calls[1..], acquired[1..])
  }

  lemma {:induction false} RunLengths(table: Table, steps: seq<Step>)
    ensures |Run(table, steps).1| == |steps|
    decreases |steps|
  {
    if steps != [] { RunLengths(Apply(table, steps[0]).0, steps[1..]); }
  }

  /** One step more at the front. */
  lemma StepThen(table: Table, step: Step, rest: seq<Step>)
    ensures |Run(table, [step] + rest).1| == 1 + |rest| && |Run(Apply(table, step).0, rest).1| == |rest|
    ensures Run(table, [step] + rest).0 == Run(Apply(table, step).0, rest).0
    ensures AcquiredKeys([step] + rest, Run(table, [step] + rest).1)
         == (if Apply(table, step).1 then [step.key] else []) + AcquiredKeys(rest, Run(Apply(table, step).0, rest).1)
  {
    var (next, acquired) := Apply(table, step);
    assert ([step] + rest)[1..] == rest;
    RunLengths(next, rest);
    assert ([acquired] + Run(next, rest).1)[1..] == Run(next, rest).1;
  }

  /** A call is one of the ways its statements can run, so that what holds of all runs of statements holds of calls. */
  lemma CallThen(table: Table, call: Call, rest: seq<Step>)
    ensures var steps, next := StepsOfCall(table, call) + rest, ApplyCall(table, call).0;
            && |Run(table, steps).1| == |steps| && |Run(next, rest).1| == |rest|
            && Run(table, steps).0 == Run(next, rest).0
            && AcquiredKeys(steps, Run(table, steps).1)
               == (if ApplyCall(table, call).1 then [call.key] else []) + AcquiredKeys(rest, Run(next, rest).1)
  {
    hide Run, AcquiredKeys;
    var steps := StepsOfCall(table, call);
    if |steps| == 1 {
      StepThen(table, steps[0], rest);
    } else {
      StepThen(table, steps[0], [steps[1]] + rest);
      StepThen(table, steps[1], rest);
      assert steps + rest == [steps[0]] + ([steps[1]] + rest);
      assert [] + AcquiredKeys([steps[1]] + rest, Run(table, [steps[1]] + rest).1)
          == AcquiredKeys([steps[1]] + rest, Run(table, [steps[1]] + rest).1);
    }
  }

  /** Every run of calls is a run of statements with the same table and the same acquisitions. */
  lemma {:induction false} CallsAreStatements(table: Table, calls: seq<Call>)
    ensures var (after, acquired), steps := RunCalls(table, calls), StepsOf(table, calls);
            && |acquired| == |calls| && |Run(table, steps).1| == |steps|
            && Run(table, steps).0 == after
            && AcquiredKeys(steps, Run(table, steps).1) == AcquiredByCalls(calls, acquired)
    decreases |calls|
  {
    if calls != [] {
      var next := ApplyCall(table, calls[0]).0;
      CallsAreStatements(next, calls[1..]);
      CallThen(table, calls[0], StepsOf(next, calls[1..]));
      assert RunCalls(table, calls).1[1..] == RunCalls(next, calls[1..]).1;
      hide Run, AcquiredKeys;
    }
  }

  // ----- The database lock and the in-memory lock are one lease

  function LeasesOf(table: Table): Leases {
    map key | key in table :: Lease(table[key].owner, table[key].expiresAt)
  }

  /**
    One acquisition has the same outcome on both exactly unless the key is held, unexpired, by the very
    same owner: the database lock lets an owner in again.
   */
  lemma SameOutcomeIff(table: Table, key: string, owner: string, ttlSeconds: int, now: int)
    ensures Acquire(table, key, owner, ttlSeconds, now).1 == Grant(LeasesOf(table), key, owner, ttlSeconds, now).1
       <==> !(HeldAt(LeasesOf(table), key, now) && table[key].owner == owner)
  {
  }

  /** Every acquisition draws an owner that was never used before. */
  predicate FreshOwners(used: set<string>, calls: seq<Call>)
    decreases |calls|
  {
    calls == []
    || (if calls[0].Acquiring? then calls[0].owner !in used && FreshOwners(used + {calls[0].owner}, calls[1..])
        else FreshOwners(used, calls[1..]))
  }

  /** With a fresh owner per acquisition the two locks decide alike on every run of whole calls. */
  lemma {:induction false} DatabaseRefinesInMemory(table: Table, used: set<string>, calls: seq<Call>)
    requires FreshOwners(used, calls)
    requires forall key | key in table :: table[key].owner in used
    ensures var (after, acquired) := RunCalls(table, calls);
            RunLease(LeasesOf(table), calls) == (LeasesOf(after), acquired)
    decreases |calls|
  {
    if calls != [] {
      var next := ApplyCall(table, calls[0]).0;
      assert LeasesOf(next) == ApplyLease(LeasesOf(table), calls[0]).0;
      DatabaseRefinesInMemory(next, if calls[0].Acquiring? then used + {calls[0].owner} else used, calls[1..]);
    }
  }
}
