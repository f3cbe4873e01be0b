/**
  What each operation on e-mail deliveries does to the rows, one row at a time and in the terms of the rows
  themselves.
 */
module EmailRows {
  import opened Wrappers
  import opened RetryPolicy
  import opened EmailDeliveries
  import opened EmailProtocol

  /** What a row is for, which only its creation decides. */
  predicate SameMail(before: Delivery, after: Delivery) {
    && after.requestKey == before.requestKey && after.userId == before.userId && after.maxAttempts == before.maxAttempts
  }

  predicate SameContent(before: Delivery, after: Delivery) {
    after.keyId == before.keyId && after.envelope == before.envelope
  }

  predicate Free(d: Delivery) { d.lockedBy == None && d.lockedAt == None }

  /** A request without a delivery for its user gets one that is due at once, with its content; no other row changes. */
  lemma CreatedRow(
    s: Store, requestKey: string, userId: nat, keyId: string, envelope: string, maxAttempts: int, now: int)
    ensures var after := Create(s, requestKey, userId, keyId, envelope, maxAttempts, now);
            if exists id | id in s.deliveries ::
              (s.deliveries[id].requestKey, s.deliveries[id].userId) == (requestKey, userId)
            then after == s
            else
              && after == s.(deliveries := after.deliveries, nextDelivery := s.nextDelivery + 1)
              && after.deliveries.Keys == s.deliveries.Keys + {s.nextDelivery}
              && (forall id | id in s.deliveries && id != s.nextDelivery :: after.deliveries[id] == s.deliveries[id])
              && var d := after.deliveries[s.nextDelivery];
                 && d.requestKey == requestKey && d.userId == userId && d.maxAttempts == maxAttempts
                 && d.status == Pending && d.attempt == 0 && d.nextAttemptAt == now
                 && d.keyId == Some(keyId) && d.envelope == Some(envelope) && Free(d)
  {
  }

  /**
    Exactly the rows that run since the timeout or longer are freed with their content, or after their last
    attempt have failed, lost it and are reported.
   */
  lemma RecoveredRow(s: Store, timeoutSeconds: int, now: int, id: nat)
    requires id in s.deliveries
    ensures var (after, failed) := Recover(s, timeoutSeconds, now);
            && after == s.(deliveries := after.deliveries) && after.deliveries.Keys == s.deliveries.Keys
            && failed <= s.deliveries.Keys
            && var d, row := s.deliveries[id], after.deliveries[id];
               var stale := d.status == Running && d.lockedAt.Some? && now - d.lockedAt.value >= timeoutSeconds * 1000;
               && (id in failed <==> stale && d.attempt >= d.maxAttempts)
               && (!stale ==> row == d)
               && (stale ==> SameMail(d, row) && row.attempt == d.attempt && Free(row))
               && (stale && d.attempt < d.maxAttempts ==>
                     row.status == Pending && row.nextAttemptAt == now && SameContent(d, row))
               && (stale && d.attempt >= d.maxAttempts ==>
                     && row.status == Failed && row.nextAttemptAt == d.nextAttemptAt
                     && row.keyId == None && row.envelope == None)
  {
  }

  /** A row is ready when it is pending and due, has content under a key at hand, and its user is not deleted. */
  lemma ReadyIff(s: Store, id: nat, available: set<string>, now: int)
    ensures ReadyRow(s, id, available, now)
       <==> && id in s.deliveries && s.deliveries[id].status == Pending && now >= s.deliveries[id].nextAttemptAt
            && s.deliveries[id].userId in s.users && !s.users[s.deliveries[id].userId]
            && s.deliveries[id].envelope.Some?
            && (exists key | key in available :: s.deliveries[id].keyId == Some(key))
  {
    if id in s.deliveries && s.deliveries[id].keyId.Some? && s.deliveries[id].keyId.value in available {
      assert s.deliveries[id].keyId == Some(s.deliveries[id].keyId.value);
    }
  }

  /** Rows are ordered by when they are due and then by identifier. */
  lemma DueOrder(s: Store, a: nat, b: nat)
    requires a in s.deliveries && b in s.deliveries
    ensures Before(s, a, b) ==> s.deliveries[a].nextAttemptAt <= s.deliveries[b].nextAttemptAt && a != b
    ensures s.deliveries[a].nextAttemptAt < s.deliveries[b].nextAttemptAt ==> Before(s, a, b)
    ensures s.deliveries[a].nextAttemptAt == s.deliveries[b].nextAttemptAt ==> (Before(s, a, b) <==> a < b)
  {
  }

  /** A claim starts exactly the selected rows, keeping their content, unless its limit or its keys forbid any. */
  lemma ClaimedRow(
    s: Store, rows: seq<nat>, workerId: string, limit: int, available: set<string>, now: int, id: nat)
    requires ReadySelection(s, rows, limit, available, now) && id in s.deliveries
    ensures forall i | 0 <= i < |rows| :: HasContent(s.deliveries, rows[i])
    ensures var (after, claimed) := Claim(s, rows, workerId, limit, available, now);
            && after.deliveries.Keys == s.deliveries.Keys
            && var d, row := s.deliveries[id], after.deliveries[id];
               if id in rows && limit >= 1 && available != {} then
                 && SameMail(d, row) && SameContent(d, row) && row.nextAttemptAt == d.nextAttemptAt
                 && row.status == Running && row.attempt == d.attempt + 1
                 && row.lockedBy == Some(workerId) && row.lockedAt == Some(now)
               else row == d
  {
    ClaimTakesReady(s, rows, workerId, limit, available, now);
    var (after, claimed) := Claim(s, rows, workerId, limit, available, now);
    assert id in Ids(claimed) <==> id in rows && limit >= 1 && available != {} by {
      hide Claim, ReadySelection;
      if id in rows && limit >= 1 && available != {} {
        var i :| 0 <= i < |rows| && rows[i] == id;
        assert claimed[i].id == id;
      }
    }
    hide Claim, ReadySelection;
  }

  /** A report records its attempt unless that number is taken, and settles its row and no other. */
  lemma RecordedRow(s: Store, r: AttemptResult, id: nat)
    requires id in s.deliveries
    ensures var after := Record(s, r);
            && after == s.(deliveries := after.deliveries, attempts := after.attempts)
            && after.deliveries.Keys == s.deliveries.Keys
            && after.attempts.Keys == s.attempts.Keys + {(r.id, r.attempt)}
            && (forall key | key in s.attempts :: after.attempts[key] == s.attempts[key])
            && ((r.id, r.attempt) !in s.attempts ==> after.attempts[(r.id, r.attempt)] == r.succeeded)
            && var d, row := s.deliveries[id], after.deliveries[id];
               if id != r.id then row == d
               else
                 && SameMail(d, row) && row.attempt == d.attempt && Free(row)
                 && (r.succeeded ==> row.status == Succeeded)
                 && (!r.succeeded && r.retry ==> row.status == Pending && SameContent(d, row))
                 && (!r.succeeded && !r.retry ==> row.status == Failed)
                 && (r.succeeded || !r.retry ==> row.keyId == None && row.envelope == None)
                 && (r.nextAttemptAt.Some? ==> row.nextAttemptAt == r.nextAttemptAt.value)
                 && (r.nextAttemptAt.None? ==> row.nextAttemptAt == r.finishedAt)
  {
  }

  /** A delivery is finished when it neither waits nor runs. */
  lemma FinishedIff(d: Delivery)
    ensures Terminal(d) <==> d.status != Pending && d.status != Running
  {
  }

  /** Cleaning up removes the rows it is given with their attempts, and nothing else. */
  lemma CleanedUp(s: Store, ids: set<nat>)
    ensures var after := Cleanup(s, ids);
            && after == s.(deliveries := after.deliveries, attempts := after.attempts)
            && (forall id: nat :: id in after.deliveries <==> id in s.deliveries && id !in ids)
            && (forall id | id in after.deliveries :: after.deliveries[id] == s.deliveries[id])
            && (forall id: nat, n: nat :: (id, n) in after.attempts <==> (id, n) in s.attempts && id !in ids)
            && (forall key | key in after.attempts :: after.attempts[key] == s.attempts[key])
  {
  }

  /** A cleanup takes at most 1000 finished rows among the aged ones, and all of them when there are fewer. */
  lemma CleanupTakes(s: Store, aged: set<nat>, ids: seq<nat>)
    requires CleanupSelection(s, aged, ids)
    ensures |ids| <= 1000
    ensures forall id | id in ids ::
              id in s.deliveries && id in aged && s.deliveries[id].status in {Succeeded, Failed, Canceled}
    ensures |ids| < 1000 ==>
              forall id | id in s.deliveries && id in aged
                && s.deliveries[id].status in {Succeeded, Failed, Canceled} ::
                id in ids
    ensures forall i, id: nat |
              && 0 <= i < |ids| && id in s.deliveries && id in aged && id !in ids
              && s.deliveries[id].status in {Succeeded, Failed, Canceled} :: ids[i] < id
  {
    assert forall id | id in ids :: Removable(s, aged, id);
  }

  /** The health report lists exactly the keys that a pending or running delivery has and the worker has not. */
  lemma UnavailableIff(s: Store, available: set<string>, key: string)
    ensures key in UnavailableKeyIds(s, available)
       <==> && key !in available
            && exists id | id in s.deliveries ::
                 s.deliveries[id].status in {Pending, Running} && s.deliveries[id].keyId == Some(key)
  {
  }
}
