/**
  E-mail deliveries: encrypted content that is kept while a delivery is unfinished and purged with its
  last attempt, with each transaction of the repository one atomic step.
 */
module EmailDeliveries {
  import opened Wrappers
  import opened RetryPolicy
  import opened Tables

  datatype Status = Pending | Running | Succeeded | Failed | Canceled

  datatype Delivery = Delivery(
    requestKey: string,
    userId: nat,
    status: Status,
    attempt: nat,
    maxAttempts: int,
    nextAttemptAt: int,
    keyId: Option<string>,
    envelope: Option<string>,
    lockedBy: Option<string>,
    lockedAt: Option<int>)

  /** What a worker holds of a delivery it claimed. */
  datatype Claimed = Claimed(id: nat, keyId: string, envelope: string, attempt: nat, maxAttempts: int)

  datatype AttemptResult = AttemptResult(
    id: nat, attempt: nat, maxAttempts: int, succeeded: bool, retry: bool, finishedAt: int, nextAttemptAt: Option<int>)

  /** The tables, users mapped to their deletion flag, and how often each delivery was claimed. */
  datatype Store = Store(
    users: map<nat, bool>,
    deliveries: map<nat, Delivery>,
    nextDelivery: nat,
    attempts: map<(nat, nat), bool>,
    claims: multiset<nat>)

  predicate Terminal(d: Delivery) { d.status == Succeeded || d.status == Failed || d.status == Canceled }

  predicate Requested(deliveries: map<nat, Delivery>, requestKey: string, userId: nat) {
    exists id | id in deliveries :: deliveries[id].requestKey == requestKey && deliveries[id].userId == userId
  }

  function Create(
    s: Store, requestKey: string, userId: nat, keyId: string, envelope: string, maxAttempts: int, now: int): Store
  {
    if Requested(s.deliveries, requestKey, userId) then s
    else
      s.(deliveries := s.deliveries[s.nextDelivery :=
           Delivery(requestKey, userId, Pending, 0, maxAttempts, now, Some(keyId), Some(envelope), None, None)],
         nextDelivery := s.nextDelivery + 1)
  }

  function Purge(d: Delivery): Delivery { d.(keyId := None, envelope := None) }

  predicate StaleRun(d: Delivery, cutoff: int) {
    d.status == Running && d.lockedAt.Some? && d.lockedAt.value <= cutoff
  }

  predicate Exhausted(d: Delivery) { d.attempt >= d.maxAttempts }

  function Unlock(d: Delivery, now: int): Delivery {
    var unlocked := d.(lockedBy := None, lockedAt := None);
    if Exhausted(d) then Purge(unlocked.(status := Failed)) else unlocked.(status := Pending, nextAttemptAt := now)
  }

  /** With the deliveries whose attempts were exhausted, for the operator's alert. */
  function Recover(s: Store, timeoutSeconds: int, now: int): (Store, set<nat>) {
    var cutoff := now - timeoutSeconds * 1000;
    (s.(deliveries := map id | id in s.deliveries ::
          if StaleRun(s.deliveries[id], cutoff) then Unlock(s.deliveries[id], now) else s.deliveries[id]),
     set id | id in s.deliveries && StaleRun(s.deliveries[id], cutoff) && Exhausted(s.deliveries[id]))
  }

  predicate UserIs(users: map<nat, bool>, userId: nat, isDeleted: bool) {
    userId in users && users[userId] == isDeleted
  }

  function CancelOne(d: Delivery): Delivery { Purge(d.(status := Canceled, lockedBy := None, lockedAt := None)) }

  function CancelDeletedUsers(s: Store): Store {
    s.(deliveries := map id | id in s.deliveries ::
         var d := s.deliveries[id];
         if d.status == Pending && UserIs(s.users, d.userId, true) then CancelOne(d) else d)
  }

  /**
    Exactly the pending deliveries of deleted users are canceled, and lose their content and key with it;
    every other delivery stays as it is.
   */
  lemma CanceledIffUserDeleted(s: Store, id: nat)
    requires id in s.deliveries
    ensures CancelDeletedUsers(s).deliveries.Keys == s.deliveries.Keys
    ensures CancelDeletedUsers(s) == s.(deliveries := CancelDeletedUsers(s).deliveries)
    ensures var d, after := s.deliveries[id], CancelDeletedUsers(s).deliveries[id];
            if d.status == Pending && d.userId in s.users && s.users[d.userId] then
              && after.status == Canceled
              && after.envelope == None && after.keyId == None && after.lockedBy == None && after.lockedAt == None
              && after.requestKey == d.requestKey && after.userId == d.userId && after.nextAttemptAt == d.nextAttemptAt
              && after.attempt == d.attempt && after.maxAttempts == d.maxAttempts
            else after == d
  {
  }

  /** The keys that unfinished deliveries need and the worker does not have. */
  function UnavailableKeyIds(s: Store, available: set<string>): set<string> {
    set id | id in s.deliveries && !Terminal(s.deliveries[id]) && s.deliveries[id].keyId.Some?
             && s.deliveries[id].keyId.value !in available :: s.deliveries[id].keyId.value
  }

  // ----- Claims

  predicate Due(s: Store, id: nat, now: int) {
    && id in s.deliveries
    && s.deliveries[id].status == Pending
    && s.deliveries[id].nextAttemptAt <= now
    && UserIs(s.users, s.deliveries[id].userId, false)
  }

  predicate ReadyRow(s: Store, id: nat, available: set<string>, now: int) {
    && Due(s, id, now)
    && s.deliveries[id].envelope.Some?
    && s.deliveries[id].keyId.Some? && s.deliveries[id].keyId.value in available
  }

  predicate Before(s: Store, a: nat, b: nat) {
    && a in s.deliveries && b in s.deliveries
    && var x, y := s.deliveries[a].nextAttemptAt, s.deliveries[b].nextAttemptAt;
       x < y || (x == y && a < b)
  }

  /** `rows` answers the claim query: the ready rows, oldest first, up to the limit. */
  ghost predicate ReadySelection(s: Store, rows: seq<nat>, limit: int, available: set<string>, now: int) {
    && |rows| <= Max(1, limit)
    && (forall i | 0 <= i < |rows| :: ReadyRow(s, rows[i], available, now))
    && (forall i, j | 0 <= i < j < |rows| :: Before(s, rows[i], rows[j]))
    && (forall d | ReadyRow(s, d, available, now) && d !in rows ::
          |rows| == Max(1, limit) && forall i | 0 <= i < |rows| :: Before(s, rows[i], d))
  }

  function StartOne(d: Delivery, workerId: string, now: int): Delivery {
    d.(status := Running, attempt := d.attempt + 1, lockedBy := Some(workerId), lockedAt := Some(now))
  }

  function Start(workerId: string, now: int): Delivery -> Delivery { d => StartOne(d, workerId, now) }

  function StartAll(deliveries: map<nat, Delivery>, ids: seq<nat>, workerId: string, now: int): map<nat, Delivery>
    requires forall i | 0 <= i < |ids| :: ids[i] in deliveries
  {
    UpdateAll(deliveries, ids, Start(workerId, now))
  }

  predicate HasContent(deliveries: map<nat, Delivery>, id: nat) {
    id in deliveries && deliveries[id].keyId.Some? && deliveries[id].envelope.Some?
  }

  function ClaimedOf(deliveries: map<nat, Delivery>, ids: seq<nat>): seq<Claimed>
    requires forall i | 0 <= i < |ids| :: HasContent(deliveries, ids[i])
  {
    seq(|ids|, i requires 0 <= i < |ids| =>
      assert HasContent(deliveries, ids[i]);
      var d := deliveries[ids[i]];
      Claimed(ids[i], d.keyId.value, d.envelope.value, d.attempt + 1, d.maxAttempts))
  }

  function Claim(
    s: Store, rows: seq<nat>, workerId: string, limit: int, available: set<string>, now: int): (Store, seq<Claimed>)
    requires forall i | 0 <= i < |rows| :: HasContent(s.deliveries, rows[i])
  {
    if limit <= 0 || available == {} then (s, [])
    else
      assert forall i | 0 <= i < |rows| :: HasContent(s.deliveries, rows[i]) ==> rows[i] in s.deliveries;
      (s.(deliveries := StartAll(s.deliveries, rows, workerId, now), claims := s.claims + multiset(rows)),
          ClaimedOf(s.deliveries, rows))
  }

  lemma SelectionHasContent(s: Store, rows: seq<nat>, limit: int, available: set<string>, now: int)
    requires ReadySelection(s, rows, limit, available, now)
    ensures forall i | 0 <= i < |rows| :: HasContent(s.deliveries, rows[i])
    ensures forall i, j | 0 <= i < j < |rows| :: rows[i] != rows[j]
  {
    forall i, j | 0 <= i < j < |rows| ensures rows[i] != rows[j] { assert Before(s, rows[i], rows[j]); }
  }

  // ----- Recording

  /** A final outcome purges the content; a retry leaves it as it is. */
  function Settle(d: Delivery, r: AttemptResult): Delivery {
    var settled := d.(
      status := if r.succeeded then Succeeded else if r.retry then Pending else Failed,
      nextAttemptAt := if r.nextAttemptAt.Some? then r.nextAttemptAt.value else r.finishedAt,
      lockedBy := None, lockedAt := None);
    if r.succeeded || !r.retry then Purge(settled) else settled
  }

  /** The attempt is recorded unless its number already is; the row is updated whatever its status. */
  function Record(s: Store, r: AttemptResult): Store {
    var key := (r.id, r.attempt);
    s.(attempts := if key in s.attempts then s.attempts else s.attempts[key := r.succeeded],
       deliveries := if r.id in s.deliveries then s.deliveries[r.id := Settle(s.deliveries[r.id], r)] else s.deliveries)
  }

  function Cleanup(s: Store, ids: set<nat>): Store {
    s.(deliveries := s.deliveries - ids, attempts := map key | key in s.attempts && key.0 !in ids :: s.attempts[key])
  }

  const CLEANUP_CAP := 1000

  predicate Removable(s: Store, aged: set<nat>, id: nat) {
    id in s.deliveries && id in aged && Terminal(s.deliveries[id])
  }

  /** `ids` answers the cleanup query: the finished rows among the aged ones, lowest identifier first, up to the cap. */
  ghost predicate CleanupSelection(s: Store, aged: set<nat>, ids: seq<nat>) {
    && |ids| <= CLEANUP_CAP
    && (forall i | 0 <= i < |ids| :: Removable(s, aged, ids[i]))
    && (forall i, j | 0 <= i < j < |ids| :: ids[i] < ids[j])
    && (forall id | Removable(s, aged, id) && id !in ids ::
         |ids| == CLEANUP_CAP && forall i | 0 <= i < |ids| :: ids[i] < id)
  }

  function Elements(rows: seq<nat>): set<nat> { set id | id in rows }

  // ----- The repository object

  class WorkerEmailDeliveryRepository {
    var users: map<nat, bool>
    var deliveries: map<nat, Delivery>
    var nextDelivery: nat
    var attempts: map<(nat, nat), bool>
    ghost var claims: multiset<nat>

    ghost function View(): Store
      reads this
    {
      Store(users, deliveries, nextDelivery, attempts, claims)
    }

    constructor (users: map<nat, bool>)
      ensures View() == Store(users, map[], 0, map[], multiset{})
    {
      this.users := users;
      deliveries, nextDelivery, attempts, claims := map[], 0, map[], multiset{};
    }

    method CreateDelivery(requestKey: string, userId: nat, keyId: string, envelope: string, maxAttempts: int, now: int)
      modifies this`deliveries, this`nextDelivery
      ensures View() == Create(old(View()), requestKey, userId, keyId, envelope, maxAttempts, now)
    {
      if !Requested(deliveries, requestKey, userId) {
        deliveries := deliveries[nextDelivery :=
          Delivery(requestKey, userId, Pending, 0, maxAttempts, now, Some(keyId), Some(envelope), None, None)];
        nextDelivery := nextDelivery + 1;
      }
    }

    method RecoverStaleRunning(timeoutSeconds: int, now: int) returns (failed: set<nat>)
      modifies this`deliveries
      ensures (View(), failed) == Recover(old(View()), timeoutSeconds, now)
    {
      var cutoff := now - timeoutSeconds * 1000;
      failed := set id | id in deliveries && StaleRun(deliveries[id], cutoff) && Exhausted(deliveries[id]);
      deliveries := map id | id in deliveries ::
        if StaleRun(deliveries[id], cutoff) then Unlock(deliveries[id], now) else deliveries[id];
    }

    method CancelDeliveriesOfDeletedUsers()
      modifies this`deliveries
      ensures View() == CancelDeletedUsers(old(View()))
    {
      deliveries := map id | id in deliveries ::
        var d := deliveries[id];
        if d.status == Pending && UserIs(users, d.userId, true) then CancelOne(d) else d;
    }

    /** `rows` is the database's answer to the claim query. */
    method ClaimReady(
      rows: seq<nat>, workerId: string, limit: int, available: set<string>, now: int) returns (claimed: seq<Claimed>)
      requires ReadySelection(View(), rows, limit, available, now)
      modifies this`deliveries, this`claims
      ensures (View(), claimed) == (SelectionHasContent(old(View()), rows, limit, available, now);
                                    Claim(old(View()), rows, workerId, limit, available, now))
    {
      if limit <= 0 || available == {} { return []; }
      SelectionHasContent(View(), rows, limit, available, now);
      claimed := StartSelected(rows, workerId, now);
    }

    /** Starts the selected deliveries one by one. */
    method StartSelected(rows: seq<nat>, workerId: string, now: int) returns (claimed: seq<Claimed>)
      requires forall i | 0 <= i < |rows| :: HasContent(deliveries, rows[i])
      requires forall i, j | 0 <= i < j < |rows| :: rows[i] != rows[j]
      modifies this`deliveries, this`claims
      ensures forall i | 0 <= i < |rows| :: rows[i] in old(deliveries)
      ensures deliveries == StartAll(old(deliveries), rows, workerId, now)
      ensures claimed == ClaimedOf(old(deliveries), rows)
      ensures claims == old(claims) + multiset(rows)
    {
      assert forall i | 0 <= i < |rows| :: HasContent(deliveries, rows[i]) ==> rows[i] in deliveries;
      claimed := [];
      assert rows[0..] == rows;
      for k := 0 to |rows|
        invariant deliveries.Keys == old(deliveries).Keys && claims == old(claims)
        invariant forall i | 0 <= i < |rows| :: rows[i] in deliveries
        invariant forall i | k <= i < |rows| :: deliveries[rows[i]] == old(deliveries)[rows[i]]
        invariant |claimed| == k && forall i | 0 <= i < k :: claimed[i] == ClaimedOf(old(deliveries), rows)[i]
        invariant StartAll(old(deliveries), rows, workerId, now) == StartAll(deliveries, rows[k..], workerId, now)
      {
        assert rows[k..][0] == rows[k] && rows[k..][1..] == rows[k + 1..];
        assert HasContent(old(deliveries), rows[k]);
        var d := deliveries[rows[k]];
        claimed := claimed + [Claimed(rows[k], d.keyId.value, d.envelope.value, d.attempt + 1, d.maxAttempts)];
        deliveries := deliveries[rows[k] := StartOne(d, workerId, now)];
      }
      claims := claims + multiset(rows);
    }

    method RecordAttempt(result: AttemptResult)
      modifies this`attempts, this`deliveries
      ensures View() == Record(old(View()), result)
    {
      var key := (result.id, result.attempt);
      if key !in attempts { attempts := attempts[key := result.succeeded]; }
      var terminal := result.succeeded || !result.retry;
      var status := if result.succeeded then Succeeded else if result.retry then Pending else Failed;
      if result.id in deliveries {
        var d := deliveries[result.id].(status := status,
          nextAttemptAt := if result.nextAttemptAt.Some? then result.nextAttemptAt.value else result.finishedAt,
          lockedBy := None, lockedAt := None);
        deliveries := deliveries[result.id := if terminal then d.(keyId := None, envelope := None) else d];
      }
    }

    /** `ids` is the database's answer to the cleanup query, `aged` the rows untouched since the cutoff. */
    method RemoveFinished(aged: set<nat>, ids: seq<nat>) returns (removed: nat)
      requires CleanupSelection(View(), aged, ids)
      modifies this`attempts, this`deliveries
      ensures View() == Cleanup(old(View()), Elements(ids)) && removed == |ids|
      ensures forall id | id in old(deliveries) && !Terminal(old(deliveries)[id]) ::
          id in deliveries && deliveries[id] == old(deliveries)[id]
    {
      for k := 0 to |ids|
        invariant deliveries == old(deliveries) - Elements(ids[..k])
        invariant attempts == map key | key in old(attempts) && key.0 !in Elements(ids[..k]) :: old(attempts)[key]
      {
        assert ids[..k + 1] == ids[..k] + [ids[k]];
        attempts := map key | key in attempts && key.0 != ids[k] :: attempts[key];
        deliveries := deliveries - {ids[k]};
      }
      assert ids[..|ids|] == ids;
      return |ids|;
    }
  }
}
