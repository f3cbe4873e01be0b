/**
  Runs of the e-mail delivery protocol: purged content stays purged over every interleaving, and what
  needs workers to report under their lease.
 */
module EmailProtocol {
  import opened Wrappers
  import opened RetryPolicy
  import opened Tables
  import opened EmailDeliveries

  datatype Step =
    | ChangingUsers(users: map<nat, bool>)
    | Creating(requestKey: string, userId: nat, keyId: string, envelope: string, maxAttempts: int, now: int)
    | Claiming(rows: seq<nat>, workerId: string, limit: int, available: set<string>, now: int)
    | Recording(result: AttemptResult)
    | Recovering(timeoutSeconds: int, now: int)
    | CancelingDeleted
    | CleaningUp(ids: set<nat>)

  /**
    At least one attempt, claims on the database's answer, retries below the last attempt, and only finished
    rows removed.
   */
  ghost predicate Sensible(s: Store, step: Step) {
    match step
    case Creating(_, _, _, _, maxAttempts, _) => maxAttempts >= 1
    case Claiming(rows, _, limit, available, now) => ReadySelection(s, rows, limit, available, now)
    case Recording(r) => r.retry ==> !r.succeeded && r.attempt < r.maxAttempts
    case CleaningUp(ids) => forall id | id in ids && id in s.deliveries :: Terminal(s.deliveries[id])
    case _ => true
  }

  /** A worker reports while the delivery is still running under the claim it holds. */
  predicate UnderLease(s: Store, step: Step) {
    step.Recording? ==>
      var r := step.result;
      && r.id in s.deliveries
      && s.deliveries[r.id].status == Running
      && s.deliveries[r.id].attempt == r.attempt
      && s.deliveries[r.id].maxAttempts == r.maxAttempts
  }

  ghost function Apply(s: Store, step: Step): Store
    requires Sensible(s, step)
  {
    match step
    case ChangingUsers(users) => s.(users := users)
    case Creating(requestKey, userId, keyId, envelope, maxAttempts, now) =>
      Create(s, requestKey, userId, keyId, envelope, maxAttempts, now)
    case Claiming(rows, workerId, limit, available, now) =>
      SelectionHasContent(s, rows, limit, available, now);
      Claim(s, rows, workerId, limit, available, now).0
    case Recording(result) => Record(s, result)
    case Recovering(timeoutSeconds, now) => Recover(s, timeoutSeconds, now).0
    case CancelingDeleted => CancelDeletedUsers(s)
    case CleaningUp(ids) => Cleanup(s, ids)
  }

  ghost predicate SensibleRun(s: Store, steps: seq<Step>)
    decreases |steps|
  {
    steps == [] || (Sensible(s, steps[0]) && SensibleRun(Apply(s, steps[0]), steps[1..]))
  }

  ghost predicate LeaseRun(s: Store, steps: seq<Step>)
    requires SensibleRun(s, steps)
    decreases |steps|
  {
    steps == [] || (UnderLease(s, steps[0]) && LeaseRun(Apply(s, steps[0]), steps[1..]))
  }

  ghost function Run(s: Store, steps: seq<Step>): Store
    requires SensibleRun(s, steps)
    decreases |steps|
  {
    if steps == [] then s else Run(Apply(s, steps[0]), steps[1..])
  }

  const EMPTY := Store(map[], map[], 0, map[], multiset{})

  // ----- What a claim does

  lemma StartAllEffect(deliveries: map<nat, Delivery>, ids: seq<nat>, workerId: string, now: int)
    requires forall i | 0 <= i < |ids| :: ids[i] in deliveries
    requires forall i, j | 0 <= i < j < |ids| :: ids[i] != ids[j]
    ensures var after := StartAll(deliveries, ids, workerId, now);
            && after.Keys == deliveries.Keys
            && forall id | id in deliveries ::
                 after[id] == if id in ids then StartOne(deliveries[id], workerId, now) else deliveries[id]
  {
    UpdateAllEffect(deliveries, ids, Start(workerId, now));
  }

  /** The deliveries `ids`, and they alone, are started and counted once more. */
  ghost predicate Started(s: Store, after: Store, ids: set<nat>, workerId: string, now: int) {
    && after == s.(deliveries := after.deliveries, claims := after.claims)
    && after.deliveries.Keys == s.deliveries.Keys
    && (forall id | id in s.deliveries ::
          after.deliveries[id] == if id in ids then StartOne(s.deliveries[id], workerId, now) else s.deliveries[id])
    && (forall id: nat :: after.claims[id] == s.claims[id] + if id in ids then 1 else 0)
  }

  function Ids(claimed: seq<Claimed>): set<nat> { set i | 0 <= i < |claimed| :: claimed[i].id }

  lemma StartingCounts(s: Store, rows: seq<nat>, workerId: string, now: int)
    requires forall i | 0 <= i < |rows| :: rows[i] in s.deliveries
    requires forall i, j | 0 <= i < j < |rows| :: rows[i] != rows[j]
    ensures var after :=
              s.(deliveries := StartAll(s.deliveries, rows, workerId, now), claims := s.claims + multiset(rows));
            Started(s, after, Elements(rows), workerId, now)
  {
    hide StartAll, StartOne;
    StartAllEffect(s.deliveries, rows, workerId, now);
    forall id: nat ensures multiset(rows)[id] == if id in rows then 1 else 0 { CountDistinct(rows, id); }
  }

  lemma IdsOfClaimed(deliveries: map<nat, Delivery>, rows: seq<nat>)
    requires forall i | 0 <= i < |rows| :: HasContent(deliveries, rows[i])
    ensures Ids(ClaimedOf(deliveries, rows)) == Elements(rows)
  {
    hide HasContent;
    var claimed := ClaimedOf(deliveries, rows);
    forall id: nat ensures id in Ids(claimed) <==> id in rows {
      if id in rows { var i :| 0 <= i < |rows| && rows[i] == id; assert claimed[i].id == id; }
    }
  }

  lemma ClaimStarts(s: Store, rows: seq<nat>, workerId: string, limit: int, available: set<string>, now: int)
    requires ReadySelection(s, rows, limit, available, now)
    ensures forall i | 0 <= i < |rows| :: HasContent(s.deliveries, rows[i])
    ensures var (after, claimed) := Claim(s, rows, workerId, limit, available, now);
            Started(s, after, Ids(claimed), workerId, now)
  {
    SelectionHasContent(s, rows, limit, available, now);
    hide StartAll, ReadySelection, ClaimedOf, Started, Ids, Elements;
    assert forall i | 0 <= i < |rows| :: HasContent(s.deliveries, rows[i]) ==> rows[i] in s.deliveries;
    if limit > 0 && available != {} {
      IdsOfClaimed(s.deliveries, rows);
      StartingCounts(s, rows, workerId, now);
    } else {
      NothingStarts(s, workerId, now);
    }
  }

  lemma NothingStarts(s: Store, workerId: string, now: int)
    ensures Ids([]) == {} && Started(s, s, {}, workerId, now)
  {
  }

  /**
    A claim takes every row the database selected, or none when the limit is not positive or no key is at
    hand; each of them was pending and due, with content under an available key, for a user not deleted.
   */
  lemma ClaimTakesReady(s: Store, rows: seq<nat>, workerId: string, limit: int, available: set<string>, now: int)
    requires ReadySelection(s, rows, limit, available, now)
    ensures forall i | 0 <= i < |rows| :: HasContent(s.deliveries, rows[i])
    ensures var (after, claimed) := Claim(s, rows, workerId, limit, available, now);
            && |claimed| == (if limit <= 0 || available == {} then 0 else |rows|) <= Max(0, limit)
            && (forall i | 0 <= i < |claimed| :: claimed[i].id == rows[i])
            && (forall i, j | 0 <= i < j < |claimed| :: claimed[i].id != claimed[j].id)
            && (forall i | 0 <= i < |claimed| ::
                  && ReadyRow(s, claimed[i].id, available, now)
                  && var d := s.deliveries[claimed[i].id];
                     claimed[i]
                       == Claimed(claimed[i].id, d.keyId.value, d.envelope.value, d.attempt + 1, d.maxAttempts))
            && Started(s, after, Ids(claimed), workerId, now)
  {
    hide StartAll, UserIs, Started, Ids, Before;
    ClaimStarts(s, rows, workerId, limit, available, now);
    SelectionHasContent(s, rows, limit, available, now);
    assert forall i | 0 <= i < |rows| :: ReadyRow(s, rows[i], available, now);
  }

  /**
    A claim holds for the timeout: recovery leaves a claimed delivery alone before it has passed; from then
    on it makes the delivery pending with its content, or reports it failed and purges it after its last attempt.
   */
  lemma ClaimHoldsForTimeout(s: Store, rows: seq<nat>, workerId: string, limit: int, available: set<string>, now: int,
                             timeoutSeconds: int, later: int)
    requires ReadySelection(s, rows, limit, available, now)
    ensures forall i | 0 <= i < |rows| :: HasContent(s.deliveries, rows[i])
    ensures var (after, claimed) := Claim(s, rows, workerId, limit, available, now);
            var (recovered, failed) := Recover(after, timeoutSeconds, later);
            forall i | 0 <= i < |claimed| ::
              var id := claimed[i].id;
              && id in after.deliveries && id in recovered.deliveries
              && var d := recovered.deliveries[id];
                 if later < now + timeoutSeconds * 1000 then d == after.deliveries[id] && id !in failed
                 else && d.lockedAt == None
                      && if claimed[i].attempt >= claimed[i].maxAttempts
                         then d.status == Failed && id in failed && d.envelope == None && d.keyId == None
                         else d.status == Pending && id !in failed && d.envelope == Some(claimed[i].envelope)
  {
    hide ReadySelection, Claim, UserIs;
    ClaimTakesReady(s, rows, workerId, limit, available, now);
    var (after, claimed) := Claim(s, rows, workerId, limit, available, now);
    forall i | 0 <= i < |claimed| ensures claimed[i].id in Ids(claimed) {}
  }

  // ----- Every interleaving

  predicate Kept(d: Delivery, claims: nat) {
    && d.attempt == claims
    && (d.status == Running <==> d.lockedAt.Some?) && (d.status == Running <==> d.lockedBy.Some?)
    && (d.envelope.Some? <==> d.keyId.Some?)
    && (Terminal(d) ==> d.envelope.None?)
  }

  predicate SameRequest(a: Delivery, b: Delivery) { a.requestKey == b.requestKey && a.userId == b.userId }

  /** Attempts equal claims, finished deliveries have neither content nor key, and each request has one delivery. */
  ghost predicate Safe(s: Store) {
    && (forall id | id in s.deliveries :: id < s.nextDelivery && Kept(s.deliveries[id], s.claims[id]))
    && (forall a, b | a in s.deliveries && b in s.deliveries && a != b ::
         !SameRequest(s.deliveries[a], s.deliveries[b]))
    && (forall id | id in s.claims :: id < s.nextDelivery)
  }

  /** No identifier is reused, no content changes or comes back, and what has none is not claimed. */
  ghost predicate PurgeIsFinal(s: Store, after: Store) {
    && s.nextDelivery <= after.nextDelivery
    && (forall id | id in after.deliveries && id < s.nextDelivery ::
          && id in s.deliveries
          && (after.deliveries[id].envelope == None || after.deliveries[id].envelope == s.deliveries[id].envelope)
          && (after.deliveries[id].keyId == None || after.deliveries[id].keyId == s.deliveries[id].keyId))
    && (forall id: nat | id < s.nextDelivery && (id in s.deliveries ==> s.deliveries[id].envelope == None) ::
          after.claims[id] == s.claims[id])
  }

  lemma PurgeIsFinalTransitive(a: Store, b: Store, c: Store)
    requires PurgeIsFinal(a, b) && PurgeIsFinal(b, c)
    ensures PurgeIsFinal(a, c)
  {
  }

  /** How every step but a claim treats a delivery that stays. */
  predicate Edited(before: Delivery, after: Delivery) {
    && SameRequest(before, after)
    && after.attempt == before.attempt
    && (after.envelope == None || after.envelope == before.envelope)
    && (after.keyId == None || after.keyId == before.keyId)
    && Kept(after, after.attempt)
  }

  lemma RowEdits(d: Delivery, r: AttemptResult, now: int)
    requires Kept(d, d.attempt) && (r.retry ==> !r.succeeded)
    ensures Edited(d, d) && Edited(d, Unlock(d, now)) && Edited(d, CancelOne(d)) && Edited(d, Settle(d, r))
  {
  }

  lemma EditKeepsSafe(s: Store, after: Store)
    requires Safe(s)
    requires after == s.(users := after.users, deliveries := after.deliveries, attempts := after.attempts)
    requires forall id | id in after.deliveries :: id in s.deliveries && Edited(s.deliveries[id], after.deliveries[id])
    ensures Safe(after) && PurgeIsFinal(s, after)
  {
    forall a, b | a in after.deliveries && b in after.deliveries && a != b
      ensures !SameRequest(after.deliveries[a], after.deliveries[b])
    {
      assert !SameRequest(s.deliveries[a], s.deliveries[b]);
    }
  }

  lemma ClaimKeepsSafe(s: Store, rows: seq<nat>, workerId: string, limit: int, available: set<string>, now: int)
    requires Safe(s) && ReadySelection(s, rows, limit, available, now)
    ensures var after := Apply(s, Claiming(rows, workerId, limit, available, now));
            Safe(after) && PurgeIsFinal(s, after)
  {
    hide ReadySelection, Claim;
    ClaimTakesReady(s, rows, workerId, limit, available, now);
    var (after, claimed) := Claim(s, rows, workerId, limit, available, now);
    var ids := Ids(claimed);
    assert forall id | id in ids :: ReadyRow(s, id, available, now);
    forall a, b | a in after.deliveries && b in after.deliveries && a != b
      ensures !SameRequest(after.deliveries[a], after.deliveries[b])
    {
      assert !SameRequest(s.deliveries[a], s.deliveries[b]);
    }
  }

  lemma CreateKeepsSafe(s: Store, step: Step)
    requires Safe(s) && step.Creating? && Sensible(s, step)
    ensures Safe(Apply(s, step)) && PurgeIsFinal(s, Apply(s, step))
  {
    assert s.nextDelivery !in s.deliveries && s.nextDelivery !in s.claims;
    var after := Apply(s, step);
    forall a, b | a in after.deliveries && b in after.deliveries && a != b
      ensures !SameRequest(after.deliveries[a], after.deliveries[b])
    {
      if a in s.deliveries && b in s.deliveries { assert !SameRequest(s.deliveries[a], s.deliveries[b]); }
    }
  }

  /** Every single step keeps purged content purged, whichever worker takes it and however late. */
  lemma StepKeepsSafe(s: Store, step: Step)
    requires Safe(s) && Sensible(s, step)
    ensures Safe(Apply(s, step)) && PurgeIsFinal(s, Apply(s, step))
  {
    match step
    case Creating(_, _, _, _, _, _) => CreateKeepsSafe(s, step);
    case Claiming(rows, workerId, limit, available, now) => ClaimKeepsSafe(s, rows, workerId, limit, available, now);
    case _ => EditingKeepsSafe(s, step);
  }

  const NO_REPORT := AttemptResult(0, 0, 0, true, false, 0, None)

  lemma EditingKeepsSafe(s: Store, step: Step)
    requires Safe(s) && Sensible(s, step) && !step.Creating? && !step.Claiming?
    ensures Safe(Apply(s, step)) && PurgeIsFinal(s, Apply(s, step))
  {
    var after := Apply(s, step);
    assert forall id | id in s.deliveries :: Kept(s.deliveries[id], s.deliveries[id].attempt);
    hide Safe, Edited, Settle, Unlock, CancelOne, Kept, UserIs, StaleRun;
    forall id | id in after.deliveries ensures id in s.deliveries && Edited(s.deliveries[id], after.deliveries[id]) {
      var d := s.deliveries[id];
      match step
      case Recording(r) => RowEdits(d, r, 0);
      case Recovering(_, now) => RowEdits(d, NO_REPORT, now);
      case _ => RowEdits(d, NO_REPORT, 0);
    }
    EditKeepsSafe(s, after);
  }

  /**
    Over every interleaving of any number of workers, late ones included, a finished delivery has no
    content and no key, and content once purged never comes back nor is its delivery claimed again.
   */
  lemma {:induction false} PurgedOnEveryRun(s: Store, steps: seq<Step>)
    requires Safe(s) && SensibleRun(s, steps)
    ensures Safe(Run(s, steps)) && PurgeIsFinal(s, Run(s, steps))
    decreases |steps|
  {
    hide Safe, Sensible, Apply;
    if steps == [] {
    } else {
      StepKeepsSafe(s, steps[0]);
      PurgedOnEveryRun(Apply(s, steps[0]), steps[1..]);
      PurgeIsFinalTransitive(s, Apply(s, steps[0]), Run(s, steps));
    }
  }

  lemma EmptyStoreSafe()
    ensures Safe(EMPTY) && Bounded(EMPTY)
  {
  }

  // ----- Under the lease hypothesis

  predicate RowBounded(d: Delivery) {
    && d.maxAttempts >= 1
    && d.attempt <= d.maxAttempts
    && (d.status == Pending ==> d.attempt < d.maxAttempts)
    && (d.status == Running ==> d.attempt >= 1)
    && (d.envelope.Some? <==> d.status == Pending || d.status == Running)
    && (d.keyId.Some? <==> d.status == Pending || d.status == Running)
  }

  ghost predicate RowsBounded(s: Store) {
    forall id | id in s.deliveries :: RowBounded(s.deliveries[id])
  }

  /** Attempt records are numbered from 1 to the last claim, and a running attempt has no record yet. */
  ghost predicate RecordsInRange(s: Store) {
    forall key | key in s.attempts ::
      && key.0 in s.deliveries
      && 1 <= key.1 <= s.deliveries[key.0].attempt
      && (key.1 == s.deliveries[key.0].attempt ==> s.deliveries[key.0].status != Running)
  }

  ghost predicate Bounded(s: Store) { RowsBounded(s) && RecordsInRange(s) }

  ghost predicate TerminalStays(s: Store, after: Store) {
    && s.nextDelivery <= after.nextDelivery
    && (forall id | id in s.deliveries && Terminal(s.deliveries[id]) ::
         id in after.deliveries ==> after.deliveries[id] == s.deliveries[id])
    && (forall id: nat | id < s.nextDelivery && id !in s.deliveries :: id !in after.deliveries)
  }

  /** Every single step keeps the bounds under the lease hypothesis. */
  lemma StepUnderLease(s: Store, step: Step)
    requires Safe(s) && Bounded(s) && Sensible(s, step) && UnderLease(s, step)
    ensures Bounded(Apply(s, step)) && TerminalStays(s, Apply(s, step))
  {
    match step
    case Claiming(rows, workerId, limit, available, now) => ClaimUnderLease(s, rows, workerId, limit, available, now);
    case Creating(_, _, _, _, _, _) => assert s.nextDelivery !in s.deliveries;
    case _ => EditingUnderLease(s, step);
  }

  /** How every step but a claim treats a delivery that stays, under the lease hypothesis. */
  predicate LeaseEdited(before: Delivery, after: Delivery) {
    && RowBounded(after)
    && after.attempt == before.attempt
    && (after.status == Running ==> before.status == Running)
    && (Terminal(before) ==> after == before)
  }

  lemma RowLeaseEdits(d: Delivery, r: AttemptResult, now: int)
    requires RowBounded(d) && (r.retry ==> !r.succeeded && r.attempt < r.maxAttempts)
    ensures LeaseEdited(d, d)
    ensures d.status == Running ==> LeaseEdited(d, Unlock(d, now))
    ensures d.status == Pending ==> LeaseEdited(d, CancelOne(d))
    ensures d.status == Running && r.attempt == d.attempt && r.maxAttempts == d.maxAttempts ==>
              LeaseEdited(d, Settle(d, r)) && Settle(d, r).status != Running
  {
  }

  lemma EditingUnderLease(s: Store, step: Step)
    requires Bounded(s) && Sensible(s, step) && UnderLease(s, step) && !step.Creating? && !step.Claiming?
    ensures Bounded(Apply(s, step)) && TerminalStays(s, Apply(s, step))
  {
    var after := Apply(s, step);
    hide Settle, Unlock, CancelOne, UserIs, LeaseEdited, RowBounded;
    forall id | id in after.deliveries
      ensures id in s.deliveries && LeaseEdited(s.deliveries[id], after.deliveries[id])
      ensures step.Recording? && step.result.id == id ==> after.deliveries[id].status != Running
    {
      hide RecordsInRange;
      var d := s.deliveries[id];
      match step
      case Recording(r) => RowLeaseEdits(d, r, 0);
      case Recovering(_, now) => RowLeaseEdits(d, NO_REPORT, now);
      case _ => RowLeaseEdits(d, NO_REPORT, 0);
    }
    LeaseEditsBound(s, after, step);
  }

  lemma LeaseEditsBound(s: Store, after: Store, step: Step)
    requires Bounded(s)
    requires Sensible(s, step)
    requires UnderLease(s, step)
    requires !step.Creating?
    requires !step.Claiming?
    requires after == Apply(s, step)
    requires forall id | id in after.deliveries ::
        id in s.deliveries && LeaseEdited(s.deliveries[id], after.deliveries[id])
    requires forall id | id in after.deliveries ::
        step.Recording? && step.result.id == id ==> after.deliveries[id].status != Running
    ensures Bounded(after) && TerminalStays(s, after)
  {
    hide Settle, Unlock, CancelOne, UserIs, StaleRun;
    if step.Recording? { assert RowBounded(s.deliveries[step.result.id]); }
    hide RowBounded;
  }

  lemma ClaimUnderLease(s: Store, rows: seq<nat>, workerId: string, limit: int, available: set<string>, now: int)
    requires Bounded(s) && ReadySelection(s, rows, limit, available, now)
    ensures var after := Apply(s, Claiming(rows, workerId, limit, available, now));
            Bounded(after) && TerminalStays(s, after)
  {
    hide ReadySelection, Claim;
    ClaimTakesReady(s, rows, workerId, limit, available, now);
    var (after, claimed) := Claim(s, rows, workerId, limit, available, now);
    assert forall id | id in Ids(claimed) :: ReadyRow(s, id, available, now);
    assert forall id | id in after.deliveries :: RowBounded(s.deliveries[id]);
  }

  /**
    When workers report under their leases, content is present exactly while a delivery is pending or
    running, attempts never exceed the maximum, and a finished delivery is never changed.
   */
  lemma {:induction false} ContentExactlyWhileUnfinished(s: Store, steps: seq<Step>)
    requires Safe(s) && Bounded(s) && SensibleRun(s, steps) && LeaseRun(s, steps)
    ensures Bounded(Run(s, steps)) && TerminalStays(s, Run(s, steps))
    decreases |steps|
  {
    if steps != [] {
      StepKeepsSafe(s, steps[0]);
      StepUnderLease(s, steps[0]);
      hide Safe, Sensible, Apply, Bounded;
      ContentExactlyWhileUnfinished(Apply(s, steps[0]), steps[1..]);
    }
  }

  /** Under its lease a report is always recorded: its attempt number is new. */
  lemma NoAttemptLost(s: Store, r: AttemptResult)
    requires Bounded(s) && Sensible(s, Recording(r)) && UnderLease(s, Recording(r))
    ensures (r.id, r.attempt) !in s.attempts && Record(s, r).attempts == s.attempts[(r.id, r.attempt) := r.succeeded]
  {
  }

  /** A delivery a worker could take but for its key is one whose key the health report lists. */
  lemma UnavailableKeyHoldsBack(s: Store, id: nat, available: set<string>, now: int)
    requires Bounded(s) && Due(s, id, now)
    ensures s.deliveries[id].keyId.Some?
    ensures ReadyRow(s, id, available, now) <==> s.deliveries[id].keyId.value !in UnavailableKeyIds(s, available)
  {
    assert RowBounded(s.deliveries[id]);
  }

  // ----- Without it

  /**
    A report, however late, breaks these bounds exactly when it asks to retry a delivery whose content is
    already purged or that was claimed for the last time.
   */
  lemma ReportBreaksBoundIff(s: Store, r: AttemptResult)
    requires RowsBounded(s) && Sensible(s, Recording(r))
    ensures RowsBounded(Record(s, r))
       <==> !(r.retry && r.id in s.deliveries
              && (s.deliveries[r.id].envelope == None || s.deliveries[r.id].attempt == s.deliveries[r.id].maxAttempts))
  {
    var after := Record(s, r);
    if r.id in s.deliveries {
      assert RowBounded(s.deliveries[r.id]);
      assert r.id in after.deliveries;
      forall x | x in after.deliveries && x != r.id ensures RowBounded(after.deliveries[x]) {
        assert RowBounded(s.deliveries[x]);
      }
    }
  }

  function OutcomeOf(r: AttemptResult): Status {
    if r.succeeded then Succeeded else if r.retry then Pending else Failed
  }

  function DueOf(r: AttemptResult): int { if r.nextAttemptAt.Some? then r.nextAttemptAt.value else r.finishedAt }

  /**
    A report, however late, changes a finished delivery exactly unless it says again how the delivery ended,
    and when.
   */
  lemma ReportChangesFinishedIff(s: Store, r: AttemptResult)
    requires Safe(s)
    ensures TerminalStays(s, Record(s, r))
       <==> !(r.id in s.deliveries
              && var d := s.deliveries[r.id];
                 Terminal(d) && (d.status != OutcomeOf(r) || d.nextAttemptAt != DueOf(r)))
  {
    if r.id in s.deliveries { assert Kept(s.deliveries[r.id], s.claims[r.id]) && r.id in Record(s, r).deliveries; }
    hide Safe;
  }

  /** The report ends a run that another claim started. */
  ghost predicate EndsOtherRun(s: Store, r: AttemptResult) {
    exists id | id in s.deliveries ::
      && s.deliveries[id].status == Running && (id, s.deliveries[id].attempt) != (r.id, r.attempt)
      && Record(s, r).deliveries[id].status != Running
  }

  /** A report ends another claim's run exactly when its delivery is running under another attempt than its own. */
  lemma ReportEndsOtherRunIff(s: Store, r: AttemptResult)
    ensures EndsOtherRun(s, r)
       <==> r.id in s.deliveries && s.deliveries[r.id].status == Running && s.deliveries[r.id].attempt != r.attempt
  {
    if r.id in s.deliveries && s.deliveries[r.id].status == Running && s.deliveries[r.id].attempt != r.attempt {
      assert Record(s, r).deliveries[r.id].status != Running;
    }
  }

  /**
    What a report may do without harm: it is about a claim once made on a delivery that exists, it asks for
    a retry only while attempts are left, and about a finished delivery it says only what is so.
   */
  predicate Harmless(s: Store, r: AttemptResult) {
    && r.id in s.deliveries
    && var d := s.deliveries[r.id];
       && 1 <= r.attempt <= d.attempt
       && (r.retry ==> d.attempt < d.maxAttempts)
       && (Terminal(d) ==> d.status == OutcomeOf(r) && d.nextAttemptAt == DueOf(r))
  }

  lemma RowIsBounded(s: Store, id: nat)
    requires RowsBounded(s)
    ensures id in s.deliveries ==> RowBounded(s.deliveries[id])
  {
  }

  lemma ReportKeepsRecordsIff(s: Store, r: AttemptResult)
    requires Bounded(s)
    ensures RecordsInRange(Record(s, r)) <==> r.id in s.deliveries && 1 <= r.attempt <= s.deliveries[r.id].attempt
  {
    var after := Record(s, r);
    assert (r.id, r.attempt) in after.attempts;
    hide RowsBounded;
    if r.id in s.deliveries {
      assert after.deliveries[r.id].status != Running && after.deliveries[r.id].attempt == s.deliveries[r.id].attempt;
    }
  }

  /**
    What the lease hypothesis is for: a report keeps the bounds and leaves finished deliveries alone exactly
    when it is harmless.
   */
  lemma ReportHarmlessIff(s: Store, r: AttemptResult)
    requires Safe(s) && Bounded(s) && Sensible(s, Recording(r))
    ensures Bounded(Record(s, r)) && TerminalStays(s, Record(s, r)) <==> Harmless(s, r)
  {
    ReportChangesFinishedIff(s, r);
    ReportBreaksBoundIff(s, r);
    ReportKeepsRecordsIff(s, r);
    RowIsBounded(s, r.id);
    hide Safe, TerminalStays, RowsBounded, RecordsInRange, Record;
  }

  /** Every report under its lease is harmless. */
  lemma LeaseIsHarmless(s: Store, r: AttemptResult)
    requires Bounded(s) && Sensible(s, Recording(r)) && UnderLease(s, Recording(r))
    ensures Harmless(s, r)
  {
    RowIsBounded(s, r.id);
  }

  ghost predicate HarmlessRun(s: Store, steps: seq<Step>)
    requires SensibleRun(s, steps)
    decreases |steps|
  {
    steps == []
    || ((steps[0].Recording? ==> Harmless(s, steps[0].result)) && HarmlessRun(Apply(s, steps[0]), steps[1..]))
  }

  /** The bounds hold after every step, and no step changes a finished delivery. */
  ghost predicate BoundedThroughout(s: Store, steps: seq<Step>)
    requires SensibleRun(s, steps)
    decreases |steps|
  {
    steps == []
    || (Bounded(Apply(s, steps[0])) && TerminalStays(s, Apply(s, steps[0]))
         && BoundedThroughout(Apply(s, steps[0]), steps[1..]))
  }

  /**
    Over any run, late reports included, the bounds hold and finished deliveries stay exactly when every report
    is harmless.
   */
  lemma {:induction false} BoundedIffHarmless(s: Store, steps: seq<Step>)
    requires Safe(s) && Bounded(s) && SensibleRun(s, steps)
    ensures BoundedThroughout(s, steps) <==> HarmlessRun(s, steps)
    decreases |steps|
  {
    if steps != [] {
      StepKeepsSafe(s, steps[0]);
      if steps[0].Recording? { ReportHarmlessIff(s, steps[0].result); } else { StepUnderLease(s, steps[0]); }
      hide Safe, Sensible, Bounded, TerminalStays, Harmless, Record;
      if Bounded(Apply(s, steps[0])) { BoundedIffHarmless(Apply(s, steps[0]), steps[1..]); }
    }
  }

  // ----- Reports as the processor makes them

  function ReportOf(claim: Claimed, outcome: SendOutcome, now: int): AttemptResult {
    var d := DecideEmail(claim.attempt, claim.maxAttempts, outcome, now);
    AttemptResult(claim.id, claim.attempt, claim.maxAttempts, d.succeeded, d.retry, now, d.nextAttemptAt)
  }

  /**
    Every report of the processor is sensible; it purges the content unless it asks for a retry 30 to 1800
    seconds ahead.
   */
  lemma RecordedRetryWaits(s: Store, claim: Claimed, outcome: SendOutcome, now: int)
    requires claim.id in s.deliveries
    ensures var r := ReportOf(claim, outcome, now);
            && Sensible(s, Recording(r))
            && var before, row := s.deliveries[claim.id], Record(s, r).deliveries[claim.id];
               && (row.status == Pending <==> outcome == SmtpFailure(true) && claim.attempt < claim.maxAttempts)
               && (row.status == Pending ==> now + 30_000 <= row.nextAttemptAt <= now + 1_800_000)
               && (row.status == Pending ==> row.envelope == before.envelope && row.keyId == before.keyId)
               && (row.status != Pending ==> row.envelope == None && row.keyId == None)
               && (row.status == Succeeded <==> outcome == Sent)
  {
    EmailRetriesAreBounded(claim.attempt, claim.maxAttempts, outcome, now);
  }

  // ----- A late worker

  lemma RunCons(s: Store, step: Step, rest: seq<Step>)
    requires Sensible(s, step) && SensibleRun(Apply(s, step), rest)
    ensures SensibleRun(s, [step] + rest) && Run(s, [step] + rest) == Run(Apply(s, step), rest)
  {
    assert ([step] + rest)[1..] == rest;
  }

  const LAST_LATE_STEP := 7

  function LateRow(status: Status, attempt: nat, due: int, content: Option<string>, lockedAt: Option<int>): Delivery {
    Delivery("request", 7, status, attempt, 2, due, if content.Some? then Some("key") else None, content,
             if lockedAt.Some? then Some("worker") else None, lockedAt)
  }

  function LateStore(row: Delivery, claims: nat, attempts: map<(nat, nat), bool>): Store {
    Store(map[7 := false], map[0 := row], 1, attempts, multiset{}[0 := claims])
  }

  /** The story of a late worker: its steps, and the tables before each of them. */
  function LateStep(i: nat): Step {
    match i
    case 0 => ChangingUsers(map[7 := false])
    case 1 => Creating("request", 7, "key", "sealed", 2, 0)
    case 2 => Claiming([0], "worker", 1, {"key"}, 0)
    case 3 => Recovering(900, 900_000)
    case 4 => Claiming([0], "worker", 1, {"key"}, 900_000)
    case 5 => Recording(AttemptResult(0, 2, 2, true, false, 900_000, None))
    case _ => Recording(AttemptResult(0, 1, 2, false, true, 900_000, Some(930_000)))
  }

  function LateAt(i: nat): Store {
    match i
    case 0 => EMPTY
    case 1 => EMPTY.(users := map[7 := false])
    case 2 => LateStore(LateRow(Pending, 0, 0, Some("sealed"), None), 0, map[])
    case 3 => LateStore(LateRow(Running, 1, 0, Some("sealed"), Some(0)), 1, map[])
    case 4 => LateStore(LateRow(Pending, 1, 900_000, Some("sealed"), None), 1, map[])
    case 5 => LateStore(LateRow(Running, 2, 900_000, Some("sealed"), Some(900_000)), 2, map[])
    case 6 => LateStore(LateRow(Succeeded, 2, 900_000, None, None), 2, map[(0, 2) := true])
    case _ => LateStore(LateRow(Pending, 2, 930_000, None, None), 2, map[(0, 2) := true, (0, 1) := false])
  }

  function LateFrom(i: nat): seq<Step>
    decreases LAST_LATE_STEP - i
  {
    if i >= LAST_LATE_STEP then [] else [LateStep(i)] + LateFrom(i + 1)
  }

  lemma LateClaim(attempt: nat, due: int, now: int)
    requires due <= now
    ensures var s := LateStore(LateRow(Pending, attempt, due, Some("sealed"), None), attempt, map[]);
            var step := Claiming([0], "worker", 1, {"key"}, now);
            Sensible(s, step)
            && Apply(s, step)
                 == LateStore(LateRow(Running, attempt + 1, due, Some("sealed"), Some(now)), attempt + 1, map[])
  {
    var s := LateStore(LateRow(Pending, attempt, due, Some("sealed"), None), attempt, map[]);
    assert ReadyRow(s, 0, {"key"}, now);
    var started := s.deliveries[0 := StartOne(s.deliveries[0], "worker", now)];
    assert StartAll(started, [], "worker", now) == started;
    assert StartAll(s.deliveries, [0], "worker", now) == started by { assert [0][1..] == []; }
  }

  lemma LateRecovery(now: int)
    requires now >= 900_000
    ensures Recover(LateStore(LateRow(Running, 1, 0, Some("sealed"), Some(0)), 1, map[]), 900, now).0
         == LateStore(LateRow(Pending, 1, now, Some("sealed"), None), 1, map[])
  {
    var s := LateStore(LateRow(Running, 1, 0, Some("sealed"), Some(0)), 1, map[]);
    assert Recover(s, 900, now).0.deliveries == map[0 := LateRow(Pending, 1, now, Some("sealed"), None)];
  }

  lemma LateStepTaken(i: nat)
    requires i < LAST_LATE_STEP
    ensures Sensible(LateAt(i), LateStep(i)) && Apply(LateAt(i), LateStep(i)) == LateAt(i + 1)
  {
    match i
    case 2 => LateClaim(0, 0, 0);
    case 3 => LateRecovery(900_000);
    case 4 => LateClaim(1, 900_000, 900_000);
    case _ =>
  }

  lemma {:induction false} LateRunFrom(i: nat)
    requires i <= LAST_LATE_STEP
    ensures SensibleRun(LateAt(i), LateFrom(i)) && Run(LateAt(i), LateFrom(i)) == LateAt(LAST_LATE_STEP)
    decreases LAST_LATE_STEP - i
  {
    hide Apply, Sensible, LateStep, LateAt;
    if i < LAST_LATE_STEP {
      LateStepTaken(i);
      LateRunFrom(i + 1);
      RunCons(LateAt(i), LateStep(i), LateFrom(i + 1));
    }
  }

  /**
    The lease hypothesis is needed: a worker that reports a retryable failure after its delivery was
    recovered, claimed again and sent makes it pending without content, so that it is never claimed again.
   */
  lemma LateWorkerStrandsDelivery()
    ensures exists steps :: SensibleRun(EMPTY, steps)
              && var after := Run(EMPTY, steps);
                 0 in after.deliveries && after.deliveries[0].status == Pending && after.deliveries[0].envelope == None
    ensures forall rest | SensibleRun(LateAt(LAST_LATE_STEP), rest) :: Run(LateAt(LAST_LATE_STEP), rest).claims[0] == 2
  {
    hide Run, SensibleRun, LateFrom;
    LateRunFrom(0);
    assert SensibleRun(EMPTY, LateFrom(0)) && Run(EMPTY, LateFrom(0)) == LateAt(LAST_LATE_STEP);
    forall rest | SensibleRun(LateAt(LAST_LATE_STEP), rest) ensures Run(LateAt(LAST_LATE_STEP), rest).claims[0] == 2 {
      EmptyStoreSafe();
      PurgedOnEveryRun(EMPTY, LateFrom(0));
      PurgedOnEveryRun(LateAt(LAST_LATE_STEP), rest);
    }
  }
}
