/**
  What each operation on webhook deliveries does to the rows, one row at a time and in the terms of the
  rows themselves.
 */
module WebhookRows {
  import opened Wrappers
  import opened RetryPolicy
  import opened WebhookDeliveries
  import opened WebhookProtocol

  /** A subscription gets an event exactly when it is live, asks for its type, and is the target if there is one. */
  lemma MatchingIff(s: seq<Subscription>, event: Event, id: nat)
    ensures id in MatchingSubscriptions(s, event, 0)
       <==> && id < |s| && s[id].enabled && !s[id].isDeleted
            && (exists i | 0 <= i < |s[id].eventTypes| :: s[id].eventTypes[i] == event.eventType)
            && (event.eventType == "notification.requested" && event.target.Some? ==> event.target.value == id)
  {
  }

  /** A pair without a delivery gets one that is due at once; a pair that has one gets none. */
  lemma InsertedRow(s: Store, eventId: nat, subscriptionId: nat, maxAttempts: int, now: int)
    requires subscriptionId < |s.subscriptions|
    ensures var after := Insert(s, eventId, subscriptionId, maxAttempts, now);
            if exists d | d in s.deliveries ::
              (s.deliveries[d].eventId, s.deliveries[d].subscriptionId) == (eventId, subscriptionId)
            then after == s
            else
              && after.nextDelivery == s.nextDelivery + 1
              && after.deliveries.Keys == s.deliveries.Keys + {s.nextDelivery}
              && (forall d | d in s.deliveries && d != s.nextDelivery :: after.deliveries[d] == s.deliveries[d])
              && var d := after.deliveries[s.nextDelivery];
                 && d.eventId == eventId && d.subscriptionId == subscriptionId
                 && d.revision == s.subscriptions[subscriptionId].revision
                 && d.status == Pending && d.attempt == 0 && d.maxAttempts == maxAttempts && d.nextAttemptAt == now
                 && d.lockedBy == None && d.lockedAt == None
  {
  }

  /** What a row is for, which only its insertion decides. */
  predicate SameOrder(before: Delivery, after: Delivery) {
    && after.eventId == before.eventId && after.subscriptionId == before.subscriptionId
    && after.revision == before.revision && after.maxAttempts == before.maxAttempts
  }

  /** Exactly the rows that run since the timeout or longer are freed, or have failed after their last attempt. */
  lemma RecoveredRow(s: Store, timeoutSeconds: int, now: int, id: nat)
    requires id in s.deliveries
    ensures Recover(s, timeoutSeconds, now) == s.(deliveries := Recover(s, timeoutSeconds, now).deliveries)
    ensures Recover(s, timeoutSeconds, now).deliveries.Keys == s.deliveries.Keys
    ensures var d, after := s.deliveries[id], Recover(s, timeoutSeconds, now).deliveries[id];
            if d.status == Running && d.lockedAt.Some? && now - d.lockedAt.value >= timeoutSeconds * 1000 then
              && SameOrder(d, after) && after.attempt == d.attempt
              && after.lockedBy == None && after.lockedAt == None
              && (if d.attempt < d.maxAttempts then after.status == Pending && after.nextAttemptAt == now
                  else after.status == Failed && after.nextAttemptAt == d.nextAttemptAt)
            else after == d
  {
  }

  /** A report records its attempt unless that number is taken, and settles its row and no other. */
  lemma RecordedRow(s: Store, r: AttemptResult, id: nat)
    requires id in s.deliveries
    ensures var after := Record(s, r);
            && after == s.(deliveries := after.deliveries, attempts := after.attempts)
            && after.deliveries.Keys == s.deliveries.Keys
            && after.attempts.Keys == s.attempts.Keys + {(r.delivery.id, r.delivery.attempt)}
            && (forall key | key in s.attempts :: after.attempts[key] == s.attempts[key])
            && ((r.delivery.id, r.delivery.attempt) !in s.attempts ==>
                  after.attempts[(r.delivery.id, r.delivery.attempt)] == r.succeeded)
            && var d, row := s.deliveries[id], after.deliveries[id];
               if id != r.delivery.id then row == d
               else
                 && SameOrder(d, row) && row.attempt == d.attempt && row.lockedBy == None && row.lockedAt == None
                 && (r.succeeded ==> row.status == Succeeded)
                 && (!r.succeeded && r.retry ==> row.status == Pending)
                 && (!r.succeeded && !r.retry ==> row.status == Failed)
                 && (r.nextAttemptAt.Some? ==> row.nextAttemptAt == r.nextAttemptAt.value)
                 && (r.nextAttemptAt.None? ==> row.nextAttemptAt == r.finishedAt)
  {
  }

  /** Cleaning up removes the rows it is given, the attempts of those deliveries, and nothing else. */
  lemma CleanedUp(s: Store, deliveryIds: set<nat>, eventIds: set<nat>)
    ensures var after := Cleanup(s, deliveryIds, eventIds);
            && after == s.(deliveries := after.deliveries, attempts := after.attempts, events := after.events)
            && (forall id: nat :: id in after.deliveries <==> id in s.deliveries && id !in deliveryIds)
            && (forall id | id in after.deliveries :: after.deliveries[id] == s.deliveries[id])
            && (forall e: nat :: e in after.events <==> e in s.events && e !in eventIds)
            && (forall e | e in after.events :: after.events[e] == s.events[e])
            && (forall id: nat, n: nat :: (id, n) in after.attempts <==> (id, n) in s.attempts && id !in deliveryIds)
            && (forall key | key in after.attempts :: after.attempts[key] == s.attempts[key])
  {
  }

  /** Changing a subscription cancels exactly its pending deliveries. */
  lemma SubscriptionCanceled(s: Store, subscriptionId: nat, id: nat)
    requires id in s.deliveries
    ensures var after := CancelSubscription(s, subscriptionId);
            && after == s.(deliveries := after.deliveries) && after.deliveries.Keys == s.deliveries.Keys
            && var d, row := s.deliveries[id], after.deliveries[id];
               if d.status == Pending && d.subscriptionId == subscriptionId then
                 && SameOrder(d, row) && row.status == Canceled && row.attempt == d.attempt
                 && row.nextAttemptAt == d.nextAttemptAt && row.lockedBy == None && row.lockedAt == None
               else row == d
  {
  }

  /** A delivery is finished when it neither waits nor runs. */
  lemma FinishedIff(d: Delivery)
    ensures Terminal(d) <==> d.status != Pending && d.status != Running
  {
  }

  // ----- Claims

  /** A row is ready when it is pending and due, and no delivery of its subscription runs. */
  lemma ReadyIff(s: Store, id: nat, now: int)
    ensures ReadyRow(s, id, now)
       <==> && id in s.deliveries && s.deliveries[id].status == Pending && now >= s.deliveries[id].nextAttemptAt
            && s.deliveries[id].subscriptionId < |s.subscriptions|
            && forall d | d in s.deliveries && s.deliveries[d].status == Running ::
                 s.deliveries[d].subscriptionId != s.deliveries[id].subscriptionId
  {
  }

  /** Rows are ordered by when they are due and then by identifier. */
  lemma DueOrder(s: Store, a: nat, b: nat)
    requires a in s.deliveries && b in s.deliveries
    ensures Before(s, a, b) ==> s.deliveries[a].nextAttemptAt <= s.deliveries[b].nextAttemptAt && a != b
    ensures s.deliveries[a].nextAttemptAt < s.deliveries[b].nextAttemptAt ==> Before(s, a, b)
    ensures s.deliveries[a].nextAttemptAt == s.deliveries[b].nextAttemptAt ==> (Before(s, a, b) <==> a < b)
  {
  }

  /** The subscription of a row is gone, switched off, or another revision than when the row was inserted. */
  predicate Outdated(s: Store, d: Delivery) {
    d.subscriptionId < |s.subscriptions|
    && var x := s.subscriptions[d.subscriptionId];
       x.isDeleted || !x.enabled || x.revision < d.revision || x.revision > d.revision
  }

  /** The subscriptions that have an up-to-date row among the first `n`. */
  function Served(s: Store, rows: seq<nat>, n: nat): set<nat>
    requires n <= |rows| && forall i | 0 <= i < |rows| :: rows[i] in s.deliveries
  {
    set i | 0 <= i < n && !Outdated(s, s.deliveries[rows[i]]) :: s.deliveries[rows[i]].subscriptionId
  }

  /** The walk still looks at row `n` and has not served its subscription. */
  predicate LooksAt(s: Store, rows: seq<nat>, n: nat, limit: int)
    requires n < |rows| && forall i | 0 <= i < |rows| :: rows[i] in s.deliveries
  {
    |Served(s, rows, n)| < Max(1, limit) && s.deliveries[rows[n]].subscriptionId !in Served(s, rows, n)
  }

  lemma {:induction false} ChooseLeaves(
    deliveries: map<nat, Delivery>, s: seq<Subscription>, rows: seq<nat>, limit: int, taken: set<nat>, chosen: seq<nat>,
    id: nat)
    requires Rows(deliveries, s, rows) && id in deliveries && id !in rows
    ensures var (after, ids) := Choose(deliveries, s, rows, limit, taken, chosen);
            id in after && after[id] == deliveries[id] && (id in ids <==> id in chosen)
    decreases |rows|
  {
    if rows != [] {
      var first, d, rest := rows[0], deliveries[rows[0]], rows[1..];
      RestOfRows(deliveries, s, rows);
      assert first in rows && id !in rest;
      if d.subscriptionId in taken {
        ChooseLeaves(deliveries, s, rest, limit, taken, chosen, id);
      } else if StaleSubscription(s, d) {
        ChooseLeaves(deliveries[first := CancelOne(d)], s, rest, limit, taken, chosen, id);
      } else if |chosen| + 1 < limit {
        ChooseLeaves(deliveries, s, rest, limit, taken + {d.subscriptionId}, chosen + [first], id);
      }
    }
  }

  /** After `count` chosen rows the walk still looks at a row of `subscriptionId`. */
  predicate Looks(count: nat, before: set<nat>, taken: set<nat>, subscriptionId: nat, limit: int) {
    count + |before - taken| < Max(1, limit) && subscriptionId !in taken && subscriptionId !in before
  }

  /** What becomes of a row. */
  predicate Fate(after: map<nat, Delivery>, ids: seq<nat>, id: nat, d: Delivery, looks: bool, stale: bool) {
    && id in after
    && after[id] == (if looks && stale then CancelOne(d) else d)
    && (id in ids <==> looks && !stale)
  }

  lemma FateOfOthers(deliveries: map<nat, Delivery>, ids: seq<nat>, id: nat)
    requires id in deliveries && id !in ids
    ensures forall stale :: Fate(deliveries, ids, id, deliveries[id], false, stale)
  {
  }

  lemma LooksPast(count: nat, before: set<nat>, later: set<nat>, taken: set<nat>, y: nat, x: nat, limit: int)
    requires before == later || before == later + {y}
    ensures y in taken ==> (Looks(count, before, taken, x, limit) <==> Looks(count, later, taken, x, limit))
    ensures y !in taken && before == later + {y} ==>
              (Looks(count, before, taken, x, limit) <==> Looks(count + 1, later, taken + {y}, x, limit))
    ensures y !in taken && before == later + {y} && count + 1 >= limit ==> !Looks(count, before, taken, x, limit)
  {
    if y in taken { assert before - taken == later - taken; }
    else if before == later + {y} { OneMoreWanted(before, later, taken, y); }
  }

  lemma ChooseFirst(
    deliveries: map<nat, Delivery>, s: seq<Subscription>, rows: seq<nat>, limit: int, taken: set<nat>, chosen: seq<nat>)
    requires Rows(deliveries, s, rows) && rows != [] && |chosen| < Max(1, limit) && rows[0] !in chosen
    ensures var d, before := deliveries[rows[0]], FreshSubscriptions(deliveries, s, rows[..0]);
            var (after, ids) := Choose(deliveries, s, rows, limit, taken, chosen);
            Fate(after, ids, rows[0], d, Looks(|chosen|, before, taken, d.subscriptionId, limit),
              StaleSubscription(s, d))
  {
    var first, d, rest := rows[0], deliveries[rows[0]], rows[1..];
    RestOfRows(deliveries, s, rows);
    assert first !in rest && rows[0..] == rows;
    ChooseFrom(deliveries, s, rows, 0, limit, taken, chosen);
    var before := FreshSubscriptions(deliveries, s, rows[..0]);
    assert before == {} && before - taken == {};
    hide Choose, StaleSubscription, FreshSubscriptions, Rows;
    if d.subscriptionId in taken {
      ChooseLeaves(deliveries, s, rest, limit, taken, chosen, first);
    } else if StaleSubscription(s, d) {
      ChooseLeaves(deliveries[first := CancelOne(d)], s, rest, limit, taken, chosen, first);
    } else if |chosen| + 1 < limit {
      ChooseLeaves(deliveries, s, rest, limit, taken + {d.subscriptionId}, chosen + [first], first);
    }
  }

  predicate Apart(rows: seq<nat>, chosen: seq<nat>) { forall i | 0 <= i < |rows| :: rows[i] !in chosen }

  lemma ApartRest(rows: seq<nat>, chosen: seq<nat>)
    requires rows != [] && Apart(rows, chosen) && rows[0] !in rows[1..]
    ensures Apart(rows[1..], chosen) && Apart(rows[1..], chosen + [rows[0]])
  {
    assert forall i | 0 <= i < |rows[1..]| :: rows[1..][i] == rows[i + 1] && rows[1..][i] in rows[1..];
  }

  lemma {:induction false} ChooseExact(
    deliveries: map<nat, Delivery>, s: seq<Subscription>, rows: seq<nat>, limit: int, taken: set<nat>, chosen: seq<nat>,
    k: nat)
    requires Rows(deliveries, s, rows) && k < |rows| && |chosen| < Max(1, limit)
    requires Apart(rows, chosen)
    ensures var d, before := deliveries[rows[k]], FreshSubscriptions(deliveries, s, rows[..k]);
            var (after, ids) := Choose(deliveries, s, rows, limit, taken, chosen);
            Fate(after, ids, rows[k], d, Looks(|chosen|, before, taken, d.subscriptionId, limit),
              StaleSubscription(s, d))
    decreases |rows|
  {
    var first, d, rest := rows[0], deliveries[rows[0]], rows[1..];
    RestOfRows(deliveries, s, rows);
    assert first !in rest && rows[0..] == rows;
    ChooseFrom(deliveries, s, rows, 0, limit, taken, chosen);
    if k == 0 {
      ChooseFirst(deliveries, s, rows, limit, taken, chosen);
    } else {
      var canceled := deliveries[first := CancelOne(d)];
      FreshPrefix(deliveries, s, rows, k);
      ApartRest(rows, chosen);
      assert rest[k - 1] == rows[k] != first && canceled[rows[k]] == deliveries[rows[k]];
      assert rows[k] !in chosen + [first];
      var before, later := FreshSubscriptions(deliveries, s, rows[..k]),
        FreshSubscriptions(deliveries, s, rest[..k - 1]);
      hide FreshSubscriptions, StaleSubscription, CancelOne, Choose, Looks, Rows, Fate, Apart;
      if !(d.subscriptionId in taken || StaleSubscription(s, d) || |chosen| + 1 < limit) {
        FateOfOthers(deliveries, chosen + [first], rows[k]);
      }
      LooksPast(|chosen|, before, later, taken, d.subscriptionId, deliveries[rows[k]].subscriptionId, limit);
      if d.subscriptionId in taken {
        ChooseExact(deliveries, s, rest, limit, taken, chosen, k - 1);
      } else if StaleSubscription(s, d) {
        ChooseExact(canceled, s, rest, limit, taken, chosen, k - 1);
      } else if |chosen| + 1 < limit {
        ChooseExact(deliveries, s, rest, limit, taken + {d.subscriptionId}, chosen + [first], k - 1);
      }
    }
  }

  /** The subscriptions before row `k`, with and without the first row, which may have been canceled. */
  lemma FreshPrefix(deliveries: map<nat, Delivery>, s: seq<Subscription>, rows: seq<nat>, k: nat)
    requires Rows(deliveries, s, rows) && 0 < k < |rows|
    ensures var first, rest := deliveries[rows[0]], rows[1..];
            var canceled := deliveries[rows[0] := CancelOne(first)];
            var later := FreshSubscriptions(deliveries, s, rest[..k - 1]);
            && FreshSubscriptions(deliveries, s, rows[..k])
               == later + (if StaleSubscription(s, first) then {} else {first.subscriptionId})
            && (forall i | 0 <= i < k - 1 :: rest[i] in canceled && canceled[rest[i]].subscriptionId < |s|)
            && FreshSubscriptions(canceled, s, rest[..k - 1]) == later
  {
    hide StaleSubscription;
    FreshStep(deliveries, s, rows[..k]);
    assert rows[..k][1..] == rows[1..][..k - 1];
    assert Rows(deliveries, s, rows[..k]) by { assert forall i | 0 <= i < k :: rows[..k][i] == rows[i]; }
    RestOfRows(deliveries, s, rows[..k]);
  }

  lemma ServedIsFresh(s: Store, rows: seq<nat>, k: nat)
    requires Rows(s.deliveries, s.subscriptions, rows) && k < |rows|
    ensures Served(s, rows, k) == FreshSubscriptions(s.deliveries, s.subscriptions, rows[..k])
  {
  }

  /** The chosen rows start and are returned as they start. */
  lemma StartedExactly(deliveries: map<nat, Delivery>, ids: seq<nat>, workerId: string, now: int)
    requires forall i | 0 <= i < |ids| :: ids[i] in deliveries
    requires forall i, j | 0 <= i < j < |ids| :: ids[i] != ids[j]
    ensures var after := StartAll(deliveries, ids, workerId, now);
            && after.Keys == deliveries.Keys
            && forall id | id in deliveries ::
                 after[id] == if id in ids then StartOne(deliveries[id], workerId, now) else deliveries[id]
    ensures forall id :: (exists c | c in ClaimedOf(deliveries, ids) :: c.id == id) <==> id in ids
    ensures forall id | id in ids ::
              id in deliveries
                && Claimed(id, deliveries[id].attempt + 1, deliveries[id].maxAttempts) in ClaimedOf(deliveries, ids)
  {
    StartAllEffect(deliveries, ids, workerId, now);
    var claimed := ClaimedOf(deliveries, ids);
    forall id | id in ids
      ensures id in deliveries && Claimed(id, deliveries[id].attempt + 1, deliveries[id].maxAttempts) in claimed
    {
      var i :| 0 <= i < |ids| && ids[i] == id;
      assert claimed[i] == Claimed(id, deliveries[id].attempt + 1, deliveries[id].maxAttempts);
    }
    forall c | c in claimed ensures c.id in ids {
      var i :| 0 <= i < |claimed| && claimed[i] == c;
      assert ids[i] == c.id;
    }
  }

  /** A row the walk looks at starts when it is up to date and is canceled when it is not; other rows stay. */
  predicate RowAfterClaim(d: Delivery, row: Delivery, looks: bool, outdated: bool, workerId: string, now: int) {
    && SameOrder(d, row) && row.nextAttemptAt == d.nextAttemptAt
    && (!looks ==> row == d)
    && (looks && outdated ==>
          row.status == Canceled && row.attempt == d.attempt && row.lockedBy == None && row.lockedAt == None)
    && (looks && !outdated ==>
          && row.status == Running && row.attempt == d.attempt + 1
          && row.lockedBy == Some(workerId) && row.lockedAt == Some(now))
  }

  /**
    Exactly what a claim takes. It walks the selected rows in their order until it has served as many
    subscriptions as its limit, or one. A row it looks at is started and returned when it is up to date and
    canceled when it is not.
   */
  lemma ClaimExactly(s: Store, rows: seq<nat>, workerId: string, limit: int, now: int, k: nat)
    requires ReadySelection(s, rows, limit, now) && k < |rows|
    ensures forall i | 0 <= i < |rows| ::
        rows[i] in s.deliveries && s.deliveries[rows[i]].subscriptionId < |s.subscriptions|
    ensures var (after, claimed) := Claim(s, rows, workerId, limit, now);
            var d, looks := s.deliveries[rows[k]], LooksAt(s, rows, k, limit);
            && rows[k] in after.deliveries
            && RowAfterClaim(d, after.deliveries[rows[k]], looks, Outdated(s, d), workerId, now)
            && ((exists c | c in claimed :: c.id == rows[k]) <==> looks && !Outdated(s, d))
            && (looks && !Outdated(s, d) ==> Claimed(rows[k], d.attempt + 1, d.maxAttempts) in claimed)
  {
    SelectionExists(s, rows, limit, now);
    ClaimFates(s, rows, limit, now, k);
    ChosenExist(s.deliveries, s.subscriptions, rows, limit, {}, []);
    var (kept, ids) := Choose(s.deliveries, s.subscriptions, rows, limit, {}, []);
    hide ReadySelection, Choose, LooksAt, Outdated, Rows, Fate, RowAfterClaim, StartAll, ClaimedOf;
    var d := s.deliveries[rows[k]];
    StartedFate(kept, ids, rows[k], d, LooksAt(s, rows, k, limit), Outdated(s, d), workerId, now);
  }

  /** Every row that was not selected stays as it is. */
  lemma ClaimLeavesOthers(s: Store, rows: seq<nat>, workerId: string, limit: int, now: int, id: nat)
    requires ReadySelection(s, rows, limit, now) && id in s.deliveries && id !in rows
    ensures forall i | 0 <= i < |rows| ::
        rows[i] in s.deliveries && s.deliveries[rows[i]].subscriptionId < |s.subscriptions|
    ensures var after := Claim(s, rows, workerId, limit, now).0;
            id in after.deliveries && after.deliveries[id] == s.deliveries[id]
  {
    SelectionRows(s, rows, limit, now);
    ChooseEffect(s.deliveries, s.subscriptions, rows, limit, {}, []);
    ChooseLeaves(s.deliveries, s.subscriptions, rows, limit, {}, [], id);
    var (kept, ids) := Choose(s.deliveries, s.subscriptions, rows, limit, {}, []);
    hide ReadySelection, Choose, Rows, StartAll, ClaimedOf;
    StartedExactly(kept, ids, workerId, now);
  }

  lemma StartedFate(
    kept: map<nat, Delivery>, ids: seq<nat>, id: nat, d: Delivery, looks: bool, stale: bool, workerId: string, now: int)
    requires Fate(kept, ids, id, d, looks, stale)
    requires forall i | 0 <= i < |ids| :: ids[i] in kept
    requires forall i, j | 0 <= i < j < |ids| :: ids[i] != ids[j]
    ensures id in StartAll(kept, ids, workerId, now)
    ensures RowAfterClaim(d, StartAll(kept, ids, workerId, now)[id], looks, stale, workerId, now)
    ensures (exists c | c in ClaimedOf(kept, ids) :: c.id == id) <==> looks && !stale
    ensures looks && !stale ==> Claimed(id, d.attempt + 1, d.maxAttempts) in ClaimedOf(kept, ids)
  {
    hide StartAll, ClaimedOf;
    StartedExactly(kept, ids, workerId, now);
  }

  lemma ClaimFates(s: Store, rows: seq<nat>, limit: int, now: int, k: nat)
    requires ReadySelection(s, rows, limit, now) && k < |rows|
    ensures Rows(s.deliveries, s.subscriptions, rows)
    ensures var (kept, ids) := Choose(s.deliveries, s.subscriptions, rows, limit, {}, []);
            var d := s.deliveries[rows[k]];
            && kept.Keys == s.deliveries.Keys
            && (forall i | 0 <= i < |ids| :: ids[i] in kept)
            && (forall i, j | 0 <= i < j < |ids| :: ids[i] != ids[j])
            && Fate(kept, ids, rows[k], d, LooksAt(s, rows, k, limit), Outdated(s, d))
            && forall id | id in s.deliveries && id !in rows :: id !in ids && kept[id] == s.deliveries[id]
  {
    SelectionRows(s, rows, limit, now);
    ServedIsFresh(s, rows, k);
    ChooseExact(s.deliveries, s.subscriptions, rows, limit, {}, [], k);
    ChooseEffect(s.deliveries, s.subscriptions, rows, limit, {}, []);
    assert Served(s, rows, k) - {} == Served(s, rows, k);
    hide ReadySelection, FreshSubscriptions, Served, Choose, Rows, Fate;
    forall id | id in s.deliveries && id !in rows
      ensures var (kept, ids) := Choose(s.deliveries, s.subscriptions, rows, limit, {}, []);
              id !in ids && kept[id] == s.deliveries[id]
    {
      ChooseLeaves(s.deliveries, s.subscriptions, rows, limit, {}, [], id);
    }
  }

  /** A claim is undone exactly when a row it would start has a payload that cannot be read back. */
  lemma UndoneIff(s: Store, rows: seq<nat>, unreadable: set<nat>, workerId: string, limit: int, now: int)
    requires ReadySelection(s, rows, limit, now)
    ensures forall i | 0 <= i < |rows| ::
        rows[i] in s.deliveries && s.deliveries[rows[i]].subscriptionId < |s.subscriptions|
    ensures ReadClaim(s, rows, unreadable, workerId, limit, now) == None
       <==> exists k | 0 <= k < |rows| ::
              LooksAt(s, rows, k, limit) && !Outdated(s, s.deliveries[rows[k]]) && rows[k] in unreadable
  {
    SelectionExists(s, rows, limit, now);
    var claimed := Claim(s, rows, workerId, limit, now).1;
    forall k | 0 <= k < |rows|
      ensures (exists c | c in claimed :: c.id == rows[k])
         <==> LooksAt(s, rows, k, limit) && !Outdated(s, s.deliveries[rows[k]])
    {
      ClaimExactly(s, rows, workerId, limit, now, k);
    }
    forall c | c in claimed ensures c.id in rows { ClaimedAreSelected(s, rows, workerId, limit, now, c); }
    hide ReadySelection, Claim, LooksAt, Outdated;
    if c :| c in claimed && c.id in unreadable { var k :| 0 <= k < |rows| && rows[k] == c.id; }
  }

  lemma ClaimedAreSelected(s: Store, rows: seq<nat>, workerId: string, limit: int, now: int, c: Claimed)
    requires ReadySelection(s, rows, limit, now)
    requires forall i | 0 <= i < |rows| ::
        rows[i] in s.deliveries && s.deliveries[rows[i]].subscriptionId < |s.subscriptions|
    requires c in Claim(s, rows, workerId, limit, now).1
    ensures c.id in rows
  {
    SelectionRows(s, rows, limit, now);
    hide ReadySelection;
    ChooseEffect(s.deliveries, s.subscriptions, rows, limit, {}, []);
    var (kept, ids) := Choose(s.deliveries, s.subscriptions, rows, limit, {}, []);
    hide Choose;
    var i :| 0 <= i < |ClaimedOf(kept, ids)| && ClaimedOf(kept, ids)[i] == c;
    assert Chosen(s.deliveries, s.subscriptions, rows, {}, ids[i]);
  }
}
