/**
  Runs of the webhook delivery protocol: what holds over every interleaving, late workers included, and
  what needs workers to report under their lease.
 */
module WebhookProtocol {
  import opened Wrappers
  import opened RetryPolicy
  import opened Tables
  import opened WebhookDeliveries

  datatype Step =
    | Emitting(eventType: string, target: Option<nat>, readable: bool)
    | Subscribing(subscriptions: seq<Subscription>)
    | CancelingPending(subscriptionId: nat)
    | FanningOut(allowed: set<string>, maxAttempts: int, limit: int, now: int)
    | Claiming(rows: seq<nat>, workerId: string, limit: int, now: int)
    | Recording(result: AttemptResult)
    | Recovering(timeoutSeconds: int, now: int)
    | CleaningUp(deliveryIds: set<nat>, eventIds: set<nat>)

  /**
    Subscriptions are changed but never dropped, claims work on the database's answer, only finished
    deliveries and settled events are cleaned up, and a result asks for a retry only below the last attempt.
   */
  ghost predicate Sensible(s: Store, step: Step) {
    match step
    case Subscribing(subscriptions) => |subscriptions| >= |s.subscriptions|
    case FanningOut(_, maxAttempts, _, _) => maxAttempts >= 1
    case Claiming(rows, _, limit, now) => ReadySelection(s, rows, limit, now)
    case Recording(r) => r.retry ==> !r.succeeded && r.delivery.attempt < r.delivery.maxAttempts
    case CleaningUp(deliveryIds, eventIds) =>
      && (forall id | id in deliveryIds && id in s.deliveries :: Terminal(s.deliveries[id]))
      && (forall e | e in eventIds && e in s.events :: s.events[e].status != EventPending)
    case _ => true
  }

  /** A worker reports while the delivery is still running under the claim it holds. */
  predicate UnderLease(s: Store, step: Step) {
    step.Recording? ==>
      var claim := step.result.delivery;
      && claim.id in s.deliveries
      && s.deliveries[claim.id].status == Running
      && s.deliveries[claim.id].attempt == claim.attempt
      && s.deliveries[claim.id].maxAttempts == claim.maxAttempts
  }

  ghost function Apply(s: Store, step: Step): Store
    requires Sensible(s, step)
  {
    match step
    case Emitting(eventType, target, readable) =>
      s.(events := s.events[s.nextEvent := Event(EventPending, eventType, target, readable)],
         nextEvent := s.nextEvent + 1)
    case Subscribing(subscriptions) => s.(subscriptions := subscriptions)
    case CancelingPending(subscriptionId) => CancelSubscription(s, subscriptionId)
    case FanningOut(allowed, maxAttempts, limit, now) => FanOut(s, allowed, maxAttempts, limit, now)
    case Claiming(rows, workerId, limit, now) =>
      SelectionExists(s, rows, limit, now);
      Claim(s, rows, workerId, limit, now).0
    case Recording(result) => Record(s, result)
    case Recovering(timeoutSeconds, now) => Recover(s, timeoutSeconds, now)
    case CleaningUp(deliveryIds, eventIds) => Cleanup(s, deliveryIds, eventIds)
  }

  ghost predicate SensibleRun(s: Store, steps: seq<Step>)
    decreases |steps|
  {
    steps == [] || (Sensible(s, steps[0]) && SensibleRun(Apply(s, steps[0]), steps[1..]))
  }

  ghost predicate LeaseRun(s: Store, steps: seq<Step>)
    requires SensibleRun(s, steps)
    decreases |steps|
  {
    steps == [] || (UnderLease(s, steps[0]) && LeaseRun(Apply(s, steps[0]), steps[1..]))
  }

  ghost function Run(s: Store, steps: seq<Step>): Store
    requires SensibleRun(s, steps)
    decreases |steps|
  {
    if steps == [] then s else Run(Apply(s, steps[0]), steps[1..])
  }

  // ----- Safety over every interleaving

  predicate SamePair(a: Delivery, b: Delivery) {
    a.eventId == b.eventId && a.subscriptionId == b.subscriptionId
  }

  predicate BothRunning(a: Delivery, b: Delivery) {
    a.subscriptionId == b.subscriptionId && a.status == Running && b.status == Running
  }

  predicate IsPending(s: Store, eventId: nat) {
    eventId in s.events && s.events[eventId].status == EventPending
  }

  /** Exactly the running deliveries are locked, so that each of them can be recovered. */
  predicate Locked(d: Delivery) {
    (d.status == Running <==> d.lockedAt.Some?) && (d.status == Running <==> d.lockedBy.Some?)
  }

  /** The delivery was inserted for its pair and has been claimed as often as it has attempts. */
  predicate Accounted(s: Store, id: nat)
    requires id in s.deliveries
  {
    var d := s.deliveries[id];
    && id < s.nextDelivery && d.subscriptionId < |s.subscriptions|
    && (d.eventId, d.subscriptionId) in s.created
    && d.attempt == s.claims[id]
    && Locked(d)
  }

  /** Safety while the event `open` is being fanned out. */
  ghost predicate SafeBut(s: Store, open: set<nat>) {
    && (forall id | id in s.deliveries :: Accounted(s, id))
    && (forall a, b | a in s.deliveries && b in s.deliveries && a != b ::
          !SamePair(s.deliveries[a], s.deliveries[b]) && !BothRunning(s.deliveries[a], s.deliveries[b]))
    && (forall p | p in s.created :: s.created[p] == 1 && p.0 < s.nextEvent && (p.0 !in open ==> !IsPending(s, p.0)))
    && (forall e | e in s.events :: e < s.nextEvent)
    && (forall id | id in s.claims :: id < s.nextDelivery)
    && |s.created| == s.nextDelivery
  }

  /**
    At most one delivery per subscription runs; each (event, subscription) pair has at most one delivery
    and was given at most one ever, none while its event is pending; attempts equal claims.
   */
  ghost predicate Safe(s: Store) { SafeBut(s, {}) }

  /** `after` is `s` with more deliveries, all of them fresh and for the subscription as it is. */
  ghost predicate Extends(s: Store, after: Store, maxAttempts: int, now: int) {
    && after.subscriptions == s.subscriptions
    && s.created <= after.created && s.nextDelivery <= after.nextDelivery
    && after.attempts == s.attempts && after.claims == s.claims
    && (forall id | id in s.deliveries :: id in after.deliveries && after.deliveries[id] == s.deliveries[id])
    && (forall id | id in after.deliveries && id !in s.deliveries ::
          && s.nextDelivery <= id
          && after.deliveries[id].status == Pending && after.deliveries[id].attempt == 0
          && after.deliveries[id].maxAttempts == maxAttempts && after.deliveries[id].nextAttemptAt == now
          && after.deliveries[id].lockedBy == None && after.deliveries[id].lockedAt == None
          && after.deliveries[id].subscriptionId < |s.subscriptions|
          && after.deliveries[id].revision == s.subscriptions[after.deliveries[id].subscriptionId].revision)
  }

  lemma ExtendsItself(s: Store, maxAttempts: int, now: int)
    ensures Extends(s, s, maxAttempts, now)
  {
  }

  lemma ExtendsTransitive(a: Store, b: Store, c: Store, maxAttempts: int, now: int)
    requires Extends(a, b, maxAttempts, now) && Extends(b, c, maxAttempts, now)
    ensures Extends(a, c, maxAttempts, now)
  {
  }

  lemma ExistingWasCreated(s: Store, open: set<nat>, e: nat, x: nat)
    requires SafeBut(s, open)
    ensures Exists(s.deliveries, e, x) ==> (e, x) in s.created
  {
    if d :| d in s.deliveries && s.deliveries[d].eventId == e && s.deliveries[d].subscriptionId == x {
      assert Accounted(s, d);
    }
  }

  /** What an insertion for a pair without a delivery does. */
  ghost predicate Inserted(s: Store, after: Store, row: Delivery) {
    && row.subscriptionId < |s.subscriptions| && row.revision == s.subscriptions[row.subscriptionId].revision
    && row.status == Pending && row.attempt == 0 && Locked(row)
    && after == s.(deliveries := s.deliveries[s.nextDelivery := row], nextDelivery := s.nextDelivery + 1,
                   created := s.created + multiset{(row.eventId, row.subscriptionId)})
  }

  lemma InsertInserts(s: Store, e: nat, sub: nat, maxAttempts: int, now: int) returns (row: Delivery)
    requires !Exists(s.deliveries, e, sub) && sub < |s.subscriptions|
    ensures Inserted(s, Insert(s, e, sub, maxAttempts, now), row)
    ensures row.eventId == e && row.subscriptionId == sub && row.maxAttempts == maxAttempts && row.nextAttemptAt == now
  {
    hide Exists;
    row := Delivery(e, sub, s.subscriptions[sub].revision, Pending, 0, maxAttempts, now, None, None);
  }

  lemma InsertKeeps(s: Store, e: nat, sub: nat, maxAttempts: int, now: int)
    requires SafeBut(s, {e}) && sub < |s.subscriptions| && e < s.nextEvent && (e, sub) !in s.created
    ensures var after := Insert(s, e, sub, maxAttempts, now);
            && SafeBut(after, {e}) && Extends(s, after, maxAttempts, now)
            && after.created == s.created + multiset{(e, sub)}
            && after.nextEvent == s.nextEvent && after.events == s.events && after.subscriptions == s.subscriptions
            && (forall e': nat, x: nat ::
                 Exists(after.deliveries, e', x) <==> Exists(s.deliveries, e', x) || (e', x) == (e, sub))
  {
    hide SafeBut, Exists, Insert, Extends;
    var after := Insert(s, e, sub, maxAttempts, now);
    ExistingWasCreated(s, {e}, e, sub);
    NextIsFresh(s, {e});
    var row := InsertInserts(s, e, sub, maxAttempts, now);
    forall e': nat, x: nat
      ensures Exists(after.deliveries, e', x) <==> Exists(s.deliveries, e', x) || (e', x) == (e, sub)
    {
      ExistsAfterInsert(s, after, e, sub, e', x);
    }
    InsertedExtends(s, after, row);
    InsertedKeeps(s, after, row);
  }

  lemma InsertedExtends(s: Store, after: Store, row: Delivery)
    requires Inserted(s, after, row) && s.nextDelivery !in s.deliveries
    ensures Extends(s, after, row.maxAttempts, row.nextAttemptAt)
  {
  }

  lemma NextIsFresh(s: Store, open: set<nat>)
    requires SafeBut(s, open)
    ensures s.nextDelivery !in s.deliveries && s.nextDelivery !in s.claims
  {
  }

  /** A fresh row of a pair that never had one. */
  lemma InsertedKeeps(s: Store, after: Store, row: Delivery)
    requires SafeBut(s, {row.eventId}) && Inserted(s, after, row) && row.eventId < s.nextEvent
    requires (row.eventId, row.subscriptionId) !in s.created
    requires s.nextDelivery !in s.deliveries && s.nextDelivery !in s.claims
    ensures SafeBut(after, {row.eventId})
  {
    InsertedAccounted(s, after, row);
    forall a, b | a in after.deliveries && b in after.deliveries && a != b
      ensures !SamePair(after.deliveries[a], after.deliveries[b])
      ensures !BothRunning(after.deliveries[a], after.deliveries[b])
    {
      hide SafeBut;
      InsertedApart(s, after, row, a, b);
    }
    hide SamePair, BothRunning, Accounted;
  }

  lemma InsertedAccounted(s: Store, after: Store, row: Delivery)
    requires SafeBut(s, {row.eventId}) && Inserted(s, after, row)
    requires s.nextDelivery !in s.deliveries && s.nextDelivery !in s.claims
    ensures forall id | id in after.deliveries :: Accounted(after, id)
  {
    hide SamePair, BothRunning;
    forall id | id in after.deliveries ensures Accounted(after, id) {
      if id != s.nextDelivery { assert Accounted(s, id); }
    }
  }

  lemma InsertedApart(s: Store, after: Store, row: Delivery, a: nat, b: nat)
    requires SafeBut(s, {row.eventId}) && Inserted(s, after, row) && (row.eventId, row.subscriptionId) !in s.created
    requires a in after.deliveries && b in after.deliveries && a != b && s.nextDelivery !in s.deliveries
    ensures !SamePair(after.deliveries[a], after.deliveries[b])
    ensures !BothRunning(after.deliveries[a], after.deliveries[b])
  {
    if a in s.deliveries { assert Accounted(s, a); }
    if b in s.deliveries { assert Accounted(s, b); }
    if a in s.deliveries && b in s.deliveries {
      assert !SamePair(s.deliveries[a], s.deliveries[b]) && !BothRunning(s.deliveries[a], s.deliveries[b]);
    }
  }

  lemma ExistsAfterInsert(s: Store, after: Store, e: nat, sub: nat, e': nat, x: nat)
    requires s.nextDelivery !in s.deliveries && s.nextDelivery in after.deliveries
    requires after.deliveries == s.deliveries[s.nextDelivery := after.deliveries[s.nextDelivery]]
    requires after.deliveries[s.nextDelivery].eventId == e && after.deliveries[s.nextDelivery].subscriptionId == sub
    ensures Exists(after.deliveries, e', x) <==> Exists(s.deliveries, e', x) || (e', x) == (e, sub)
  {
    if d :| d in s.deliveries && s.deliveries[d].eventId == e' && s.deliveries[d].subscriptionId == x {
      assert d in after.deliveries && after.deliveries[d] == s.deliveries[d];
    }
    if (e', x) == (e, sub) { assert s.nextDelivery in after.deliveries; }
  }

  lemma {:induction false} InsertAllKeeps(s: Store, e: nat, subs: seq<nat>, maxAttempts: int, now: int)
    requires SafeBut(s, {e}) && e < s.nextEvent
    requires forall i | 0 <= i < |subs| :: subs[i] < |s.subscriptions| && (e, subs[i]) !in s.created
    requires forall i, j | 0 <= i < j < |subs| :: subs[i] < subs[j]
    ensures var after := InsertAll(s, e, subs, maxAttempts, now);
            && SafeBut(after, {e}) && Extends(s, after, maxAttempts, now) && after.nextEvent == s.nextEvent
            && (forall e': nat, x: nat ::
                 Exists(after.deliveries, e', x) <==> Exists(s.deliveries, e', x) || (e' == e && x in subs))
            && (forall p :: p in after.created <==> p in s.created || (p.0 == e && p.1 in subs))
    decreases |subs|
  {
    hide SafeBut, Exists, Insert, Extends;
    ExtendsItself(s, maxAttempts, now);
    if subs != [] {
      InsertKeeps(s, e, subs[0], maxAttempts, now);
      var next := Insert(s, e, subs[0], maxAttempts, now);
      InsertAllKeeps(next, e, subs[1..], maxAttempts, now);
      ExtendsTransitive(s, next, InsertAll(s, e, subs, maxAttempts, now), maxAttempts, now);
      assert forall x :: x in subs <==> x == subs[0] || x in subs[1..];
    }
  }

  /** One event fanned out: published, with a delivery for exactly the matching subscriptions. */
  lemma FanOutEventKeeps(s: Store, e: nat, maxAttempts: int, now: int)
    requires Safe(s) && IsPending(s, e) && FanOutEvent(s, e, maxAttempts, now).Some?
    ensures var after := FanOutEvent(s, e, maxAttempts, now).value;
            && Safe(after) && Extends(s, after, maxAttempts, now)
            && after.nextEvent == s.nextEvent && after.subscriptions == s.subscriptions
            && after.events == s.events[e := s.events[e].(status := EventPublished)]
            && (forall x: nat :: Exists(after.deliveries, e, x) <==> MatchesEvent(s.subscriptions, x, s.events[e]))
            && (forall e': nat, x: nat | e' != e :: Exists(after.deliveries, e', x) <==> Exists(s.deliveries, e', x))
  {
    hide InsertAll, MatchesEvent, MatchingSubscriptions;
    var subs := MatchingSubscriptions(s.subscriptions, s.events[e], 0);
    forall x: nat ensures (e, x) !in s.created && !Exists(s.deliveries, e, x) { ExistingWasCreated(s, {}, e, x); }
    hide Accounted, Exists, SafeBut;
    SafeIsSafeBut(s, e);
    InsertAllKeeps(s, e, subs, maxAttempts, now);
    PublishKeeps(InsertAll(s, e, subs, maxAttempts, now), e);
  }

  lemma SafeIsSafeBut(s: Store, e: nat)
    requires Safe(s)
    ensures SafeBut(s, {e})
    ensures forall x | x in s.events :: x < s.nextEvent
    ensures forall x: nat | IsPending(s, e) :: (e, x) !in s.created
  {
  }

  lemma PublishKeeps(s: Store, e: nat)
    requires SafeBut(s, {e}) && e in s.events
    ensures Safe(s.(events := s.events[e := s.events[e].(status := EventPublished)]))
  {
    hide SamePair, BothRunning;
    var after := s.(events := s.events[e := s.events[e].(status := EventPublished)]);
    forall id | id in after.deliveries ensures Accounted(after, id) { assert Accounted(s, id); }
  }

  lemma {:induction false} FanOutAllKeeps(s: Store, es: seq<nat>, maxAttempts: int, now: int)
    requires Safe(s)
    requires forall i | 0 <= i < |es| :: es[i] in s.events && IsPending(s, es[i])
    requires forall i, j | 0 <= i < j < |es| :: es[i] < es[j]
    requires FanOutAll(s, es, maxAttempts, now).Some?
    ensures var after := FanOutAll(s, es, maxAttempts, now).value;
            && Safe(after) && Extends(s, after, maxAttempts, now)
            && after.nextEvent == s.nextEvent && after.events.Keys == s.events.Keys
            && after.subscriptions == s.subscriptions
            && (forall e | e in s.events ::
                 after.events[e] == if e in es then s.events[e].(status := EventPublished) else s.events[e])
            && (forall e: nat, x: nat | e in es ::
                 Exists(after.deliveries, e, x) <==> MatchesEvent(s.subscriptions, x, s.events[e]))
            && (forall e: nat, x: nat | e !in es :: Exists(after.deliveries, e, x) <==> Exists(s.deliveries, e, x))
    decreases |es|
  {
    hide Safe, FanOutEvent, Exists, MatchesEvent, Extends;
    ExtendsItself(s, maxAttempts, now);
    if es != [] {
      FanOutEventKeeps(s, es[0], maxAttempts, now);
      var next := FanOutEvent(s, es[0], maxAttempts, now).value;
      FanOutAllKeeps(next, es[1..], maxAttempts, now);
      ExtendsTransitive(s, next, FanOutAll(s, es, maxAttempts, now).value, maxAttempts, now);
      assert forall e :: e in es <==> e == es[0] || e in es[1..];
      assert es[0] !in es[1..];
    }
  }

  /**
    When an event becomes published it has a delivery for each subscription that matches it at that
    moment, and for no other; by safety it has exactly one.
   */
  lemma FanOutPublishesExactly(s: Store, allowed: set<string>, maxAttempts: int, limit: int, now: int)
    requires Safe(s)
    ensures var after := FanOut(s, allowed, maxAttempts, limit, now);
            && Safe(after) && Extends(s, after, maxAttempts, now)
            && after.nextEvent == s.nextEvent && after.events.Keys == s.events.Keys
            && after.subscriptions == s.subscriptions
            && (forall e | e in s.events ::
                  if IsPending(s, e) && !IsPending(after, e) then
                    && after.events[e] == s.events[e].(status := EventPublished)
                    && forall x: nat ::
                         Exists(after.deliveries, e, x) <==> MatchesEvent(s.subscriptions, x, s.events[e])
                  else after.events[e] == s.events[e])
  {
    hide Safe, FanOutAll, Exists, MatchesEvent, Extends;
    ExtendsItself(s, maxAttempts, now);
    if limit > 0 {
      var es := PendingEvents(s.events, 0, s.nextEvent, allowed, limit);
      assert forall i | 0 <= i < |es| :: es[i] in es;
      if FanOutAll(s, es, maxAttempts, now).Some? { FanOutAllKeeps(s, es, maxAttempts, now); }
    }
  }

  lemma {:induction false} FanOutFailsIff(s: Store, es: seq<nat>, maxAttempts: int, now: int)
    requires forall i | 0 <= i < |es| :: es[i] in s.events
    ensures FanOutAll(s, es, maxAttempts, now).None? <==> exists i | 0 <= i < |es| :: !s.events[es[i]].readable
    decreases |es|
  {
    hide InsertAll;
    if es != [] && s.events[es[0]].readable {
      var next := FanOutEvent(s, es[0], maxAttempts, now).value;
      FanOutFailsIff(next, es[1..], maxAttempts, now);
      assert forall i | 0 <= i < |es| :: next.events[es[i]].readable == s.events[es[i]].readable;
      assert forall i | 1 <= i < |es| :: es[i] == es[1..][i - 1];
    }
  }

  /** A pass publishes all of the oldest pending events, or, when one of them cannot be read, changes nothing at all. */
  lemma FanOutBlocksOrPublishes(s: Store, allowed: set<string>, maxAttempts: int, limit: int, now: int)
    requires Safe(s) && limit > 0
    ensures var after := FanOut(s, allowed, maxAttempts, limit, now);
            var es := PendingEvents(s.events, 0, s.nextEvent, allowed, limit);
            if exists e | e in es :: e in s.events && !s.events[e].readable then after == s
            else forall e | e in es :: !IsPending(after, e)
  {
    hide Safe, FanOutAll, Exists, MatchesEvent, Extends;
    var es := PendingEvents(s.events, 0, s.nextEvent, allowed, limit);
    assert forall i | 0 <= i < |es| :: es[i] in es;
    FanOutFailsIff(s, es, maxAttempts, now);
    if FanOutAll(s, es, maxAttempts, now).Some? { FanOutAllKeeps(s, es, maxAttempts, now); }
  }

  // ----- What a claim does

  /** How a claim treats a row that was not chosen, and one that was. */
  predicate LeftOrCanceled(before: Delivery, after: Delivery, s: seq<Subscription>) {
    || after == before
    || (before.status == Pending && before.subscriptionId < |s| && StaleSubscription(s, before)
         && after == CancelOne(before))
  }

  ghost predicate Chosen(
    deliveries: map<nat, Delivery>, s: seq<Subscription>, rows: seq<nat>, taken: set<nat>, id: nat)
  {
    && id in rows && id in deliveries
    && deliveries[id].subscriptionId < |s| && deliveries[id].subscriptionId !in taken
    && !StaleSubscription(s, deliveries[id])
  }

  ghost predicate Rows(deliveries: map<nat, Delivery>, s: seq<Subscription>, rows: seq<nat>) {
    && (forall i | 0 <= i < |rows| ::
          rows[i] in deliveries && deliveries[rows[i]].subscriptionId < |s| && deliveries[rows[i]].status == Pending)
    && (forall i, j | 0 <= i < j < |rows| :: rows[i] != rows[j])
  }

  ghost predicate DistinctSubscriptions(deliveries: map<nat, Delivery>, ids: seq<nat>) {
    && (forall i | 0 <= i < |ids| :: ids[i] in deliveries)
    && (forall i, j | 0 <= i < j < |ids| :: deliveries[ids[i]].subscriptionId != deliveries[ids[j]].subscriptionId)
  }

  /** The walk adds rows of fresh subscriptions to what was chosen, and touches only stale rows. */
  lemma {:induction false} ChooseEffect(
    deliveries: map<nat, Delivery>, s: seq<Subscription>, rows: seq<nat>, limit: int, taken: set<nat>, chosen: seq<nat>)
    requires Rows(deliveries, s, rows) && DistinctSubscriptions(deliveries, chosen)
    requires forall i | 0 <= i < |chosen| :: deliveries[chosen[i]].subscriptionId in taken
    ensures var (after, ids) := Choose(deliveries, s, rows, limit, taken, chosen);
            && after.Keys == deliveries.Keys
            && |ids| <= Max(|chosen| + 1, limit)
            && chosen <= ids
            && DistinctSubscriptions(deliveries, ids)
            && (forall i | |chosen| <= i < |ids| ::
                 Chosen(deliveries, s, rows, taken, ids[i]) && after[ids[i]] == deliveries[ids[i]])
            && (forall id | id in deliveries ::
                 LeftOrCanceled(deliveries[id], after[id], s) && (id !in rows ==> after[id] == deliveries[id]))
    decreases |rows|
  {
    if rows != [] {
      var id, d, rest := rows[0], deliveries[rows[0]], rows[1..];
      assert forall r :: r in rows <==> r == id || r in rest;
      if d.subscriptionId in taken {
        ChooseEffect(deliveries, s, rest, limit, taken, chosen);
      } else if StaleSubscription(s, d) {
        var canceled := deliveries[id := CancelOne(d)];
        assert id !in rest;
        ChooseEffect(canceled, s, rest, limit, taken, chosen);
      } else if |chosen| + 1 < limit {
        ChooseEffect(deliveries, s, rest, limit, taken + {d.subscriptionId}, chosen + [id]);
      }
    }
  }

  lemma StartAllEffect(deliveries: map<nat, Delivery>, ids: seq<nat>, workerId: string, now: int)
    requires forall i | 0 <= i < |ids| :: ids[i] in deliveries
    requires forall i, j | 0 <= i < j < |ids| :: ids[i] != ids[j]
    ensures var after := StartAll(deliveries, ids, workerId, now);
            && after.Keys == deliveries.Keys
            && forall id | id in deliveries ::
                 after[id] == if id in ids then StartOne(deliveries[id], workerId, now) else deliveries[id]
  {
    UpdateAllEffect(deliveries, ids, Start(workerId, now));
  }

  function Ids(claimed: seq<Claimed>): seq<nat> { seq(|claimed|, i requires 0 <= i < |claimed| => claimed[i].id) }

  /**
    What a claim returns: at most `limit` ready deliveries (one, when the limit is not positive) of distinct
    subscriptions.
   */
  ghost predicate ClaimReturns(s: Store, after: Store, claimed: seq<Claimed>, limit: int, now: int) {
    var ids := Ids(claimed);
    && |claimed| <= Max(1, limit)
    && (forall i | 0 <= i < |ids| ::
          && ReadyRow(s, ids[i], now) && !StaleSubscription(s.subscriptions, s.deliveries[ids[i]])
          && ids[i] in after.deliveries
          && claimed[i] == Claimed(ids[i], after.deliveries[ids[i]].attempt, after.deliveries[ids[i]].maxAttempts))
    && (forall i, j | 0 <= i < j < |ids| :: s.deliveries[ids[i]].subscriptionId != s.deliveries[ids[j]].subscriptionId)
  }

  /** What a claim changes: the returned deliveries start and are counted, stale ones may be canceled. */
  ghost predicate ClaimChanges(s: Store, after: Store, ids: seq<nat>, workerId: string, now: int) {
    && after == s.(deliveries := after.deliveries, claims := after.claims)
    && after.deliveries.Keys == s.deliveries.Keys
    && (forall id | id in s.deliveries ::
          if id in ids then after.deliveries[id] == StartOne(s.deliveries[id], workerId, now)
          else LeftOrCanceled(s.deliveries[id], after.deliveries[id], s.subscriptions))
    && (forall id: nat :: after.claims[id] == s.claims[id] + if id in ids then 1 else 0)
    && (forall i | 0 <= i < |ids| :: ids[i] in s.deliveries)
  }

  /** What the walk leaves for the second half of a claim: `kept` rows, of which `ids` will start. */
  ghost predicate Picked(s: Store, kept: map<nat, Delivery>, ids: seq<nat>, limit: int, now: int) {
    && |ids| <= Max(1, limit)
    && kept.Keys == s.deliveries.Keys
    && (forall i | 0 <= i < |ids| ::
          ReadyRow(s, ids[i], now) && !StaleSubscription(s.subscriptions, s.deliveries[ids[i]])
            && kept[ids[i]] == s.deliveries[ids[i]])
    && (forall i, j | 0 <= i < j < |ids| :: s.deliveries[ids[i]].subscriptionId != s.deliveries[ids[j]].subscriptionId)
    && (forall id | id in s.deliveries :: LeftOrCanceled(s.deliveries[id], kept[id], s.subscriptions))
  }

  lemma ClaimPicks(s: Store, rows: seq<nat>, limit: int, now: int)
    requires ReadySelection(s, rows, limit, now)
    ensures forall i | 0 <= i < |rows| ::
        rows[i] in s.deliveries && s.deliveries[rows[i]].subscriptionId < |s.subscriptions|
    ensures var (kept, ids) := Choose(s.deliveries, s.subscriptions, rows, limit, {}, []);
            Picked(s, kept, ids, limit, now)
  {
    hide Choose, SubscriptionBusy, StaleSubscription, LeftOrCanceled;
    assert Rows(s.deliveries, s.subscriptions, rows) by {
      forall i, j | 0 <= i < j < |rows| ensures rows[i] != rows[j] { assert Before(s, rows[i], rows[j]); }
    }
    ChooseEffect(s.deliveries, s.subscriptions, rows, limit, {}, []);
    var (kept, ids) := Choose(s.deliveries, s.subscriptions, rows, limit, {}, []);
    forall i | 0 <= i < |ids|
      ensures ReadyRow(s, ids[i], now)
      ensures !StaleSubscription(s.subscriptions, s.deliveries[ids[i]])
      ensures kept[ids[i]] == s.deliveries[ids[i]]
    {
      assert Chosen(s.deliveries, s.subscriptions, rows, {}, ids[i]);
      var k :| 0 <= k < |rows| && rows[k] == ids[i];
    }
  }

  lemma PickedStart(s: Store, kept: map<nat, Delivery>, ids: seq<nat>, workerId: string, limit: int, now: int)
    requires Picked(s, kept, ids, limit, now)
    ensures forall i | 0 <= i < |ids| :: ids[i] in kept
    ensures ClaimChanges(s, s.(deliveries := StartAll(kept, ids, workerId, now), claims := s.claims + multiset(ids)),
        ids, workerId, now)
  {
    hide StaleSubscription, LeftOrCanceled, SubscriptionBusy, StartAll;
    StartAllEffect(kept, ids, workerId, now);
    forall id: nat ensures multiset(ids)[id] == if id in ids then 1 else 0 { CountDistinct(ids, id); }
  }

  lemma PickedReturn(s: Store, kept: map<nat, Delivery>, ids: seq<nat>, workerId: string, limit: int, now: int)
    requires Picked(s, kept, ids, limit, now)
    ensures forall i | 0 <= i < |ids| :: ids[i] in kept
    ensures Ids(ClaimedOf(kept, ids)) == ids
    ensures ClaimReturns(s, s.(deliveries := StartAll(kept, ids, workerId, now), claims := s.claims + multiset(ids)),
                         ClaimedOf(kept, ids), limit, now)
  {
    hide StaleSubscription, LeftOrCanceled, SubscriptionBusy, StartAll;
    StartAllEffect(kept, ids, workerId, now);
    assert Ids(ClaimedOf(kept, ids)) == ids;
  }

  /** A claim takes its deliveries exclusively: see what it returns and what it changes. */
  lemma ClaimIsExclusive(s: Store, rows: seq<nat>, workerId: string, limit: int, now: int)
    requires ReadySelection(s, rows, limit, now)
    ensures forall i | 0 <= i < |rows| ::
        rows[i] in s.deliveries && s.deliveries[rows[i]].subscriptionId < |s.subscriptions|
    ensures var (after, claimed) := Claim(s, rows, workerId, limit, now);
            ClaimReturns(s, after, claimed, limit, now) && ClaimChanges(s, after, Ids(claimed), workerId, now)
  {
    hide ReadySelection, StartAll, Picked, ClaimedOf, ClaimReturns, ClaimChanges, Ids;
    ClaimPicks(s, rows, limit, now);
    var (kept, ids) := Choose(s.deliveries, s.subscriptions, rows, limit, {}, []);
    PickedStart(s, kept, ids, workerId, limit, now);
    PickedReturn(s, kept, ids, workerId, limit, now);
  }

  /**
    When the oldest ready delivery is up to date with its subscription but its stored payload cannot be read
    back, no claim succeeds, whatever its limit and whichever deliveries wait behind it.
   */
  lemma UnreadableHeadBlocksClaims(
    s: Store, rows: seq<nat>, unreadable: set<nat>, workerId: string, limit: int, now: int)
    requires ReadySelection(s, rows, limit, now) && rows != [] && rows[0] in unreadable
    requires forall i | 0 <= i < |rows| ::
        rows[i] in s.deliveries && s.deliveries[rows[i]].subscriptionId < |s.subscriptions|
    requires !StaleSubscription(s.subscriptions, s.deliveries[rows[0]])
    ensures ReadClaim(s, rows, unreadable, workerId, limit, now) == None
  {
    SelectionRows(s, rows, limit, now);
    hide ReadySelection, StaleSubscription;
    var id, d := rows[0], s.deliveries[rows[0]];
    assert rows[0..] == rows && {} + {d.subscriptionId} == {d.subscriptionId} && [] + [id] == [id];
    ChooseFrom(s.deliveries, s.subscriptions, rows, 0, limit, {}, []);
    if 1 < limit { ChooseEffect(s.deliveries, s.subscriptions, rows[1..], limit, {d.subscriptionId}, [id]); }
    assert [id] <= Choose(s.deliveries, s.subscriptions, rows, limit, {}, []).1;
    assert Claim(s, rows, workerId, limit, now).1[0].id == id;
  }

  // ----- How much a claim takes

  /** The subscriptions that have a row among `rows` and have not changed since. */
  function FreshSubscriptions(deliveries: map<nat, Delivery>, s: seq<Subscription>, rows: seq<nat>): set<nat>
    requires forall i | 0 <= i < |rows| :: rows[i] in deliveries && deliveries[rows[i]].subscriptionId < |s|
  {
    set i | 0 <= i < |rows| && !StaleSubscription(s, deliveries[rows[i]]) :: deliveries[rows[i]].subscriptionId
  }

  lemma FreshStep(deliveries: map<nat, Delivery>, s: seq<Subscription>, rows: seq<nat>)
    requires rows != []
    requires forall i | 0 <= i < |rows| :: rows[i] in deliveries && deliveries[rows[i]].subscriptionId < |s|
    ensures var first := deliveries[rows[0]];
            (FreshSubscriptions(deliveries, s, rows)
         == FreshSubscriptions(deliveries, s, rows[1..])
            + if StaleSubscription(s, first) then {} else {first.subscriptionId})
  {
    hide StaleSubscription;
    var rest := rows[1..];
    forall i | 1 <= i < |rows| ensures rows[i] == rest[i - 1] {}
    forall x | x in FreshSubscriptions(deliveries, s, rest) ensures x in FreshSubscriptions(deliveries, s, rows) {
      var i :| 0 <= i < |rest| && !StaleSubscription(s, deliveries[rest[i]]) && deliveries[rest[i]].subscriptionId == x;
      assert rows[i + 1] == rest[i];
    }
    if !StaleSubscription(s, deliveries[rows[0]]) {
      assert deliveries[rows[0]].subscriptionId in FreshSubscriptions(deliveries, s, rows);
    }
    forall x | x in FreshSubscriptions(deliveries, s, rows)
      ensures x in FreshSubscriptions(deliveries, s, rest)
          || (!StaleSubscription(s, deliveries[rows[0]]) && x == deliveries[rows[0]].subscriptionId)
    {
      var i :| 0 <= i < |rows| && !StaleSubscription(s, deliveries[rows[i]]) && deliveries[rows[i]].subscriptionId == x;
      if i > 0 { assert rest[i - 1] == rows[i]; }
    }
  }

  /** The rest of the rows, with the first one left or canceled. */
  lemma RestOfRows(deliveries: map<nat, Delivery>, s: seq<Subscription>, rows: seq<nat>)
    requires Rows(deliveries, s, rows) && rows != []
    ensures var rest, canceled := rows[1..], deliveries[rows[0] := CancelOne(deliveries[rows[0]])];
            && Rows(deliveries, s, rest) && Rows(canceled, s, rest)
            && FreshSubscriptions(canceled, s, rest) == FreshSubscriptions(deliveries, s, rest)
  {
    hide StaleSubscription;
    var rest, canceled := rows[1..], deliveries[rows[0] := CancelOne(deliveries[rows[0]])];
    assert forall i | 0 <= i < |rest| :: rest[i] == rows[i + 1] && rest[i] != rows[0];
    assert forall i | 0 <= i < |rest| :: rest[i] in canceled && canceled[rest[i]] == deliveries[rest[i]];
  }

  lemma {:induction false} ChooseCount(
    deliveries: map<nat, Delivery>, s: seq<Subscription>, rows: seq<nat>, limit: int, taken: set<nat>, chosen: seq<nat>)
    requires Rows(deliveries, s, rows) && |chosen| < limit
    ensures |Choose(deliveries, s, rows, limit, taken, chosen).1|
         == Min(limit, |chosen| + |FreshSubscriptions(deliveries, s, rows) - taken|)
    decreases |rows|
  {
    if rows == [] {
      assert FreshSubscriptions(deliveries, s, rows) - taken == {};
    } else {
      var id, d, rest := rows[0], deliveries[rows[0]], rows[1..];
      RestOfRows(deliveries, s, rows);
      FreshStep(deliveries, s, rows);
      var wanted, later := FreshSubscriptions(deliveries, s, rows), FreshSubscriptions(deliveries, s, rest);
      assert rows[0..] == rows;
      ChooseFrom(deliveries, s, rows, 0, limit, taken, chosen);
      hide StaleSubscription, FreshSubscriptions, Rows, CancelOne, Choose;
      if d.subscriptionId in taken {
        assert wanted - taken == later - taken;
        ChooseCount(deliveries, s, rest, limit, taken, chosen);
      } else if StaleSubscription(s, d) {
        assert wanted == later;
        ChooseCount(deliveries[id := CancelOne(d)], s, rest, limit, taken, chosen);
      } else {
        OneMoreWanted(wanted, later, taken, d.subscriptionId);
        if |chosen| + 1 < limit { ChooseCount(deliveries, s, rest, limit, taken + {d.subscriptionId}, chosen + [id]); }
      }
    }
  }

  lemma OneMoreWanted(wanted: set<nat>, later: set<nat>, taken: set<nat>, x: nat)
    requires wanted == later + {x} && x !in taken
    ensures |wanted - taken| == |later - (taken + {x})| + 1
  {
    assert wanted - taken == (later - (taken + {x})) + {x};
  }

  /** A claim takes as many deliveries as the limit allows and the selected rows have fresh subscriptions. */
  lemma ClaimCount(s: Store, rows: seq<nat>, workerId: string, limit: int, now: int)
    requires ReadySelection(s, rows, limit, now) && limit >= 1
    ensures forall i | 0 <= i < |rows| ::
        rows[i] in s.deliveries && s.deliveries[rows[i]].subscriptionId < |s.subscriptions|
    ensures |Claim(s, rows, workerId, limit, now).1|
        == Min(limit, |FreshSubscriptions(s.deliveries, s.subscriptions, rows)|)
  {
    SelectionRows(s, rows, limit, now);
    hide ReadySelection, Choose, FreshSubscriptions, Rows;
    ChooseCount(s.deliveries, s.subscriptions, rows, limit, {}, []);
    var wanted := FreshSubscriptions(s.deliveries, s.subscriptions, rows);
    assert wanted - {} == wanted;
  }

  lemma SelectionRows(s: Store, rows: seq<nat>, limit: int, now: int)
    requires ReadySelection(s, rows, limit, now)
    ensures Rows(s.deliveries, s.subscriptions, rows)
  {
    hide SubscriptionBusy;
    forall i, j | 0 <= i < j < |rows| ensures rows[i] != rows[j] { assert Before(s, rows[i], rows[j]); }
  }

  function SubscriptionsOf(deliveries: map<nat, Delivery>, ids: seq<nat>): set<nat>
    requires forall i | 0 <= i < |ids| :: ids[i] in deliveries
  {
    set i | 0 <= i < |ids| :: deliveries[ids[i]].subscriptionId
  }

  lemma {:induction false} DistinctSubscriptionsCount(deliveries: map<nat, Delivery>, ids: seq<nat>)
    requires DistinctSubscriptions(deliveries, ids)
    ensures |SubscriptionsOf(deliveries, ids)| == |ids|
    decreases |ids|
  {
    if ids == [] {
      assert SubscriptionsOf(deliveries, ids) == {};
    } else {
      var front, last := ids[..|ids| - 1], deliveries[ids[|ids| - 1]].subscriptionId;
      DistinctSubscriptionsCount(deliveries, front);
      assert SubscriptionsOf(deliveries, ids) == SubscriptionsOf(deliveries, front) + {last};
      assert last !in SubscriptionsOf(deliveries, front);
    }
  }

  lemma SubsetOfSameSize(a: set<nat>, b: set<nat>)
    requires a <= b && |a| == |b|
    ensures a == b
  {
    assert b == a + (b - a);
    assert |b| == |a| + |b - a|;
    assert b - a == {};
  }

  predicate ReadyAndFresh(s: Store, id: nat, now: int, subscriptionId: nat) {
    && ReadyRow(s, id, now) && s.deliveries[id].subscriptionId == subscriptionId
    && !StaleSubscription(s.subscriptions, s.deliveries[id])
  }

  /**
    A claim that stays below its limit serves exactly the fresh subscriptions among the selected rows. It
    passes over a subscription with fresh ready deliveries exactly when four times the limit of rows older
    than all of those fill the selection.
   */
  lemma ShortClaimServes(s: Store, rows: seq<nat>, workerId: string, limit: int, now: int, subscriptionId: nat)
    requires ReadySelection(s, rows, limit, now) && limit >= 1
    requires exists d :: ReadyAndFresh(s, d, now, subscriptionId)
    requires forall i | 0 <= i < |rows| ::
        rows[i] in s.deliveries && s.deliveries[rows[i]].subscriptionId < |s.subscriptions|
    requires |Claim(s, rows, workerId, limit, now).1| < limit
    ensures var ids := Ids(Claim(s, rows, workerId, limit, now).1);
            && (forall i | 0 <= i < |ids| :: ids[i] in s.deliveries)
            && SubscriptionsOf(s.deliveries, ids) == FreshSubscriptions(s.deliveries, s.subscriptions, rows)
            && (subscriptionId !in SubscriptionsOf(s.deliveries, ids)
                <==> |rows| == limit * 4
                     && forall d, i | ReadyAndFresh(s, d, now, subscriptionId) && 0 <= i < |rows| ::
                          Before(s, rows[i], d))
  {
    ClaimCount(s, rows, workerId, limit, now);
    ClaimTakesFresh(s, rows, workerId, limit, now);
    var ids, wanted := Ids(Claim(s, rows, workerId, limit, now).1),
      FreshSubscriptions(s.deliveries, s.subscriptions, rows);
    DistinctSubscriptionsCount(s.deliveries, ids);
    SubsetOfSameSize(SubscriptionsOf(s.deliveries, ids), wanted);
    hide Claim;
    OutsideWindow(s, rows, limit, now, subscriptionId);
  }

  lemma OutsideWindow(s: Store, rows: seq<nat>, limit: int, now: int, subscriptionId: nat)
    requires ReadySelection(s, rows, limit, now) && limit >= 1
    requires exists d :: ReadyAndFresh(s, d, now, subscriptionId)
    requires forall i | 0 <= i < |rows| ::
        rows[i] in s.deliveries && s.deliveries[rows[i]].subscriptionId < |s.subscriptions|
    ensures subscriptionId !in FreshSubscriptions(s.deliveries, s.subscriptions, rows)
       <==> |rows| == limit * 4
            && forall d, i | ReadyAndFresh(s, d, now, subscriptionId) && 0 <= i < |rows| :: Before(s, rows[i], d)
  {
    var wanted := FreshSubscriptions(s.deliveries, s.subscriptions, rows);
    assert forall i | 0 <= i < |rows| :: ReadyAndFresh(s, rows[i], now, subscriptionId) ==> subscriptionId in wanted;
    assert forall i | 0 <= i < |rows| :: !Before(s, rows[i], rows[i]);
    hide StaleSubscription, SubscriptionBusy;
    if subscriptionId in wanted {
      var k :| 0 <= k < |rows| && !StaleSubscription(s.subscriptions, s.deliveries[rows[k]])
               && s.deliveries[rows[k]].subscriptionId == subscriptionId;
      assert ReadyAndFresh(s, rows[k], now, subscriptionId);
    } else {
      hide Before;
      var d :| ReadyAndFresh(s, d, now, subscriptionId);
      assert d !in rows;
    }
  }

  /** What a claim takes is fresh, of distinct subscriptions. */
  lemma ClaimTakesFresh(s: Store, rows: seq<nat>, workerId: string, limit: int, now: int)
    requires ReadySelection(s, rows, limit, now)
    requires forall i | 0 <= i < |rows| ::
        rows[i] in s.deliveries && s.deliveries[rows[i]].subscriptionId < |s.subscriptions|
    ensures var ids := Ids(Claim(s, rows, workerId, limit, now).1);
            && DistinctSubscriptions(s.deliveries, ids)
            && SubscriptionsOf(s.deliveries, ids) <= FreshSubscriptions(s.deliveries, s.subscriptions, rows)
  {
    SelectionRows(s, rows, limit, now);
    hide ReadySelection, StaleSubscription, Choose;
    ChooseEffect(s.deliveries, s.subscriptions, rows, limit, {}, []);
    var (kept, ids) := Choose(s.deliveries, s.subscriptions, rows, limit, {}, []);
    assert Ids(ClaimedOf(kept, ids)) == ids by { assert forall i | 0 <= i < |ids| :: ids[i] in kept; }
    forall i | 0 <= i < |ids|
      ensures s.deliveries[ids[i]].subscriptionId in FreshSubscriptions(s.deliveries, s.subscriptions, rows)
    {
      assert Chosen(s.deliveries, s.subscriptions, rows, {}, ids[i]);
      var k :| 0 <= k < |rows| && rows[k] == ids[i];
    }
  }

  /**
    A limit that is not positive still lets one delivery be claimed: the oldest ready one, unless its
    subscription changed.
   */
  lemma ZeroLimitStillClaims(s: Store, rows: seq<nat>, workerId: string, limit: int, now: int)
    requires ReadySelection(s, rows, limit, now) && limit <= 0
    ensures forall i | 0 <= i < |rows| ::
        rows[i] in s.deliveries && s.deliveries[rows[i]].subscriptionId < |s.subscriptions|
    ensures |Claim(s, rows, workerId, limit, now).1|
         == if rows != [] && !StaleSubscription(s.subscriptions, s.deliveries[rows[0]]) then 1 else 0
    ensures rows != [] <==> exists d :: ReadyRow(s, d, now)
  {
    SelectionExists(s, rows, limit, now);
    assert |rows| <= 1;
    if rows != [] {
      var id, d := rows[0], s.deliveries[rows[0]];
      assert rows == [id] && rows[1..] == [] && ReadyRow(s, id, now) && [] + [id] == [id];
      if StaleSubscription(s.subscriptions, d) {
        assert Choose(s.deliveries, s.subscriptions, rows, limit, {}, []) == (s.deliveries[id := CancelOne(d)], []);
      } else {
        assert Choose(s.deliveries, s.subscriptions, rows, limit, {}, []) == (s.deliveries, [id]);
      }
    } else {
      assert forall d :: ReadyRow(s, d, now) ==> d in rows;
    }
  }

  /**
    A claim holds for the timeout: recovery leaves a claimed delivery alone before it has passed, and from
    then on makes it pending at once, or failed after its last attempt.
   */
  lemma ClaimHoldsForTimeout(
    s: Store, rows: seq<nat>, workerId: string, limit: int, now: int, timeoutSeconds: int, later: int)
    requires ReadySelection(s, rows, limit, now)
    ensures forall i | 0 <= i < |rows| ::
        rows[i] in s.deliveries && s.deliveries[rows[i]].subscriptionId < |s.subscriptions|
    ensures var (after, claimed) := Claim(s, rows, workerId, limit, now);
            forall i | 0 <= i < |claimed| ::
              var id := claimed[i].id;
              && id in after.deliveries && id in Recover(after, timeoutSeconds, later).deliveries
              && var d := Recover(after, timeoutSeconds, later).deliveries[id];
                 if later < now + timeoutSeconds * 1000 then d == after.deliveries[id]
                 else && d.lockedAt == None
                      && if claimed[i].attempt >= claimed[i].maxAttempts then d.status == Failed
                         else d.status == Pending && d.nextAttemptAt == later
  {
    hide ReadySelection, Claim, ReadyRow, StaleSubscription, LeftOrCanceled;
    ClaimIsExclusive(s, rows, workerId, limit, now);
    var (after, claimed) := Claim(s, rows, workerId, limit, now);
    forall i | 0 <= i < |claimed| ensures Ids(claimed)[i] == claimed[i].id && claimed[i].id in Ids(claimed) {}
  }

  // ----- Every step, every run

  /** No subscription of the chosen deliveries is running one already, and none is chosen twice. */
  ghost predicate Exclusive(s: Store, ids: seq<nat>) {
    && (forall i | 0 <= i < |ids| ::
         ids[i] in s.deliveries && !SubscriptionBusy(s.deliveries, s.deliveries[ids[i]].subscriptionId))
    && (forall i, j | 0 <= i < j < |ids| :: s.deliveries[ids[i]].subscriptionId != s.deliveries[ids[j]].subscriptionId)
  }

  lemma ClaimKeepsSafe(s: Store, after: Store, ids: seq<nat>, workerId: string, now: int)
    requires Safe(s) && Exclusive(s, ids) && ClaimChanges(s, after, ids, workerId, now)
    ensures Safe(after)
  {
    forall a, b | a in after.deliveries && b in after.deliveries && a != b
      ensures !SamePair(after.deliveries[a], after.deliveries[b])
      ensures !BothRunning(after.deliveries[a], after.deliveries[b])
    {
      hide SafeBut, ClaimChanges, Exclusive;
      ClaimKeepsApart(s, after, ids, workerId, now, a, b);
    }
    ClaimKeepsAccounts(s, after, ids, workerId, now);
    hide Exclusive, StaleSubscription, BothRunning, SamePair, Accounted, StartOne, LeftOrCanceled;
  }

  lemma ClaimKeepsApart(s: Store, after: Store, ids: seq<nat>, workerId: string, now: int, a: nat, b: nat)
    requires Safe(s) && Exclusive(s, ids) && ClaimChanges(s, after, ids, workerId, now)
    requires a in after.deliveries && b in after.deliveries && a != b
    ensures !SamePair(after.deliveries[a], after.deliveries[b])
    ensures !BothRunning(after.deliveries[a], after.deliveries[b])
  {
    hide Exclusive, StaleSubscription, Accounted;
    assert !SamePair(s.deliveries[a], s.deliveries[b]);
    if BothRunning(after.deliveries[a], after.deliveries[b]) {
      hide SafeBut;
      RunningAfterClaim(s, after, ids, workerId, now, a);
      RunningAfterClaim(s, after, ids, workerId, now, b);
      OneStartPerSubscription(s, ids, a, b);
    }
  }

  lemma ClaimKeepsAccounts(s: Store, after: Store, ids: seq<nat>, workerId: string, now: int)
    requires Safe(s) && ClaimChanges(s, after, ids, workerId, now)
    ensures forall id | id in after.deliveries :: Accounted(after, id)
    ensures forall id | id in after.claims :: id < s.nextDelivery
  {
    hide StaleSubscription, BothRunning, SamePair;
    forall id | id in after.deliveries ensures Accounted(after, id) { assert Accounted(s, id); }
    forall id | id in after.claims ensures id < s.nextDelivery {
      assert after.claims[id] > 0;
      if id in ids { assert Accounted(s, id); }
    }
  }

  lemma ReturnsExclusive(s: Store, after: Store, claimed: seq<Claimed>, limit: int, now: int)
    requires ClaimReturns(s, after, claimed, limit, now)
    ensures Exclusive(s, Ids(claimed))
  {
    hide StaleSubscription, SubscriptionBusy, Ids;
  }

  lemma RunningAfterClaim(s: Store, after: Store, ids: seq<nat>, workerId: string, now: int, id: nat)
    requires ClaimChanges(s, after, ids, workerId, now)
    requires id in after.deliveries
    requires after.deliveries[id].status == Running
    ensures id in s.deliveries && after.deliveries[id].subscriptionId == s.deliveries[id].subscriptionId
    ensures id in ids || s.deliveries[id].status == Running
  {
  }

  lemma OneStartPerSubscription(s: Store, ids: seq<nat>, a: nat, b: nat)
    requires Safe(s) && a in s.deliveries && b in s.deliveries && a != b
    requires Exclusive(s, ids)
    requires (a in ids || s.deliveries[a].status == Running) && (b in ids || s.deliveries[b].status == Running)
    ensures s.deliveries[a].subscriptionId != s.deliveries[b].subscriptionId
  {
    if s.deliveries[a].status == Running && s.deliveries[b].status == Running {
      assert !BothRunning(s.deliveries[a], s.deliveries[b]);
    }
  }

  /** How every step but a claim and a fan-out treats a delivery that stays. */
  predicate Edited(before: Delivery, after: Delivery) {
    && SamePair(after, before)
    && after.attempt == before.attempt
    && (after.status == Running ==> before.status == Running)
    && Locked(after)
  }

  const NO_REPORT := AttemptResult(Claimed(0, 0, 0), true, false, 0, None)

  lemma RowEdits(d: Delivery, r: AttemptResult, now: int)
    requires Locked(d)
    ensures Edited(d, d) && Edited(d, Unlock(d, now)) && Edited(d, Settle(d, r))
    ensures d.status == Pending ==> Edited(d, CancelOne(d))
  {
  }

  lemma EditingKeepsSafe(s: Store, step: Step)
    requires Safe(s) && Sensible(s, step) && !step.Emitting? && !step.FanningOut? && !step.Claiming?
    ensures Safe(Apply(s, step))
  {
    var after := Apply(s, step);
    forall id | id in s.deliveries ensures Locked(s.deliveries[id]) { assert Accounted(s, id); }
    hide Safe, Edited, Settle, Unlock, CancelOne, Locked, StaleRun;
    forall id | id in after.deliveries ensures id in s.deliveries && Edited(s.deliveries[id], after.deliveries[id]) {
      var d := s.deliveries[id];
      match step
      case Recording(r) => RowEdits(d, r, 0);
      case Recovering(_, now) => RowEdits(d, NO_REPORT, now);
      case _ => RowEdits(d, NO_REPORT, 0);
    }
    EditKeepsSafe(s, after);
  }

  lemma EditKeepsSafe(s: Store, after: Store)
    requires Safe(s)
    requires after
        == s.(deliveries := after.deliveries, attempts := after.attempts, events := after.events,
          subscriptions := after.subscriptions)
    requires |s.subscriptions| <= |after.subscriptions|
    requires forall id | id in after.deliveries :: id in s.deliveries && Edited(s.deliveries[id], after.deliveries[id])
    requires forall e | e in after.events :: e in s.events && after.events[e] == s.events[e]
    ensures Safe(after)
  {
    forall id | id in after.deliveries ensures Accounted(after, id) { assert Accounted(s, id); }
    forall a, b | a in after.deliveries && b in after.deliveries && a != b
      ensures !SamePair(after.deliveries[a], after.deliveries[b])
      ensures !BothRunning(after.deliveries[a], after.deliveries[b])
    {
      assert !SamePair(s.deliveries[a], s.deliveries[b]) && !BothRunning(s.deliveries[a], s.deliveries[b]);
    }
  }

  /** Every single step keeps safety, whichever worker takes it and however late. */
  lemma StepKeepsSafe(s: Store, step: Step)
    requires Safe(s) && Sensible(s, step)
    ensures Safe(Apply(s, step))
  {
    hide Choose, StartAll, FanOut;
    match step
    case Emitting(eventType, target, readable) => EmittingKeepsSafe(s, step);
    case FanningOut(allowed, maxAttempts, limit, now) => FanOutPublishesExactly(s, allowed, maxAttempts, limit, now);
    case Claiming(rows, workerId, limit, now) =>
      hide Safe, ReadySelection, ClaimReturns, ClaimChanges, Exclusive;
      ClaimIsExclusive(s, rows, workerId, limit, now);
      var claimed := Claim(s, rows, workerId, limit, now).1;
      ReturnsExclusive(s, Apply(s, step), claimed, limit, now);
      ClaimKeepsSafe(s, Apply(s, step), Ids(claimed), workerId, now);
    case _ => EditingKeepsSafe(s, step);
  }

  lemma EmittingKeepsSafe(s: Store, step: Step)
    requires Safe(s) && step.Emitting?
    ensures Safe(Apply(s, step))
  {
    var after := Apply(s, step);
    forall id | id in after.deliveries ensures Accounted(after, id) { assert Accounted(s, id); }
  }

  const EMPTY := Store(map[], 0, [], map[], 0, map[], multiset{}, multiset{})

  /** What was inserted stays on record, and an event that is no longer pending stays so. */
  ghost predicate Onward(s: Store, after: Store) {
    && s.nextEvent <= after.nextEvent
    && s.created <= after.created
    && forall e: nat | e < s.nextEvent && !IsPending(s, e) :: !IsPending(after, e)
  }

  lemma StepGoesOnward(s: Store, step: Step)
    requires Safe(s) && Sensible(s, step)
    ensures Onward(s, Apply(s, step))
  {
    hide Safe, Exists, MatchesEvent, FanOut;
    match step
    case FanningOut(allowed, maxAttempts, limit, now) => FanOutPublishesExactly(s, allowed, maxAttempts, limit, now);
    case _ =>
  }

  /**
    Every interleaving of any number of workers, late ones included, keeps safety: at most one running
    delivery per subscription, and one delivery ever per (event, subscription) pair. What has been
    fanned out never is again.
   */
  lemma {:induction false} SafeOnEveryRun(s: Store, steps: seq<Step>)
    requires Safe(s) && SensibleRun(s, steps)
    ensures Safe(Run(s, steps)) && Onward(s, Run(s, steps))
    decreases |steps|
  {
    if steps != [] {
      StepKeepsSafe(s, steps[0]);
      StepGoesOnward(s, steps[0]);
      hide Safe, Sensible, Apply;
      SafeOnEveryRun(Apply(s, steps[0]), steps[1..]);
    }
  }

  lemma EmptyStoreSafe()
    ensures Safe(EMPTY)
  {
  }

  // ----- Under the lease hypothesis

  predicate RowBounded(d: Delivery) {
    && d.maxAttempts >= 1
    && d.attempt <= d.maxAttempts
    && (d.status == Pending ==> d.attempt < d.maxAttempts)
    && (d.status == Running ==> d.attempt >= 1)
  }

  ghost predicate RowsBounded(s: Store) {
    forall id | id in s.deliveries :: RowBounded(s.deliveries[id])
  }

  /** Attempt records are numbered from 1 to the last claim, and a running attempt has no record yet. */
  ghost predicate RecordsInRange(s: Store) {
    forall key | key in s.attempts ::
      && key.0 in s.deliveries
      && 1 <= key.1 <= s.deliveries[key.0].attempt
      && (key.1 == s.deliveries[key.0].attempt ==> s.deliveries[key.0].status != Running)
  }

  ghost predicate Bounded(s: Store) { RowsBounded(s) && RecordsInRange(s) }

  /** What a step may do to one delivery under the lease hypothesis: finished ones it leaves alone. */
  ghost predicate TerminalStays(s: Store, after: Store) {
    && s.nextDelivery <= after.nextDelivery
    && (forall id | id in s.deliveries && Terminal(s.deliveries[id]) ::
         id in after.deliveries ==> after.deliveries[id] == s.deliveries[id])
    && (forall id: nat | id < s.nextDelivery && id !in s.deliveries :: id !in after.deliveries)
  }

  /** Every single step keeps the bounds under the lease hypothesis. */
  lemma StepUnderLease(s: Store, step: Step)
    requires Safe(s) && Bounded(s) && Sensible(s, step) && UnderLease(s, step)
    ensures Bounded(Apply(s, step)) && TerminalStays(s, Apply(s, step))
  {
    hide FanOut, Choose, StartAll;
    match step
    case FanningOut(allowed, maxAttempts, limit, now) =>
      hide Safe, Exists, MatchesEvent;
      FanOutPublishesExactly(s, allowed, maxAttempts, limit, now);
    case Claiming(rows, workerId, limit, now) =>
      hide Safe, ReadySelection;
      ClaimIsExclusive(s, rows, workerId, limit, now);
      var (after, claimed) := Claim(s, rows, workerId, limit, now);
      ClaimUnderLease(s, after, claimed, workerId, limit, now);
    case _ => hide Safe, ReadySelection;
  }

  lemma ClaimUnderLease(s: Store, after: Store, claimed: seq<Claimed>, workerId: string, limit: int, now: int)
    requires Bounded(s)
    requires ClaimReturns(s, after, claimed, limit, now)
    requires ClaimChanges(s, after, Ids(claimed), workerId, now)
    ensures Bounded(after) && TerminalStays(s, after)
  {
    hide StaleSubscription, SubscriptionBusy, Ids;
    var ids := Ids(claimed);
    assert forall i | 0 <= i < |ids| :: s.deliveries[ids[i]].status == Pending;
    forall id | id in s.deliveries ensures id in ids ==> s.deliveries[id].status == Pending {
      if id in ids { var i :| 0 <= i < |ids| && ids[i] == id; }
    }
    hide ReadyRow, ClaimReturns;
    assert forall id | id in after.deliveries :: RowBounded(s.deliveries[id]);
  }

  /**
    When workers report under their leases, attempts never exceed the maximum, records are numbered
    within it, and a finished delivery is never changed until it is cleaned up.
   */
  lemma {:induction false} BoundedUnderLease(s: Store, steps: seq<Step>)
    requires Safe(s) && Bounded(s) && SensibleRun(s, steps) && LeaseRun(s, steps)
    ensures Bounded(Run(s, steps)) && TerminalStays(s, Run(s, steps))
    decreases |steps|
  {
    if steps != [] {
      StepKeepsSafe(s, steps[0]);
      StepUnderLease(s, steps[0]);
      hide Safe, Sensible, Apply, Bounded;
      BoundedUnderLease(Apply(s, steps[0]), steps[1..]);
    }
  }

  /** Under its lease a report is always recorded: its attempt number is new. */
  lemma NoAttemptLost(s: Store, r: AttemptResult)
    requires Bounded(s) && Sensible(s, Recording(r)) && UnderLease(s, Recording(r))
    ensures (r.delivery.id, r.delivery.attempt) !in s.attempts
    ensures Record(s, r).attempts == s.attempts[(r.delivery.id, r.delivery.attempt) := r.succeeded]
  {
  }

  // ----- Without it

  /**
    A report, however late, breaks the attempt bound exactly when it asks to retry a delivery claimed for the
    last time.
   */
  lemma ReportBreaksBoundIff(s: Store, r: AttemptResult)
    requires RowsBounded(s) && Sensible(s, Recording(r))
    ensures RowsBounded(Record(s, r))
       <==> !(&& r.retry
              && r.delivery.id in s.deliveries
              && s.deliveries[r.delivery.id].attempt == s.deliveries[r.delivery.id].maxAttempts)
  {
    var id, after := r.delivery.id, Record(s, r);
    if id in s.deliveries {
      assert RowBounded(s.deliveries[id]);
      assert id in after.deliveries;
      forall x | x in after.deliveries && x != id ensures RowBounded(after.deliveries[x]) {
        assert RowBounded(s.deliveries[x]);
      }
    }
  }

  function OutcomeOf(r: AttemptResult): Status {
    if r.succeeded then Succeeded else if r.retry then Pending else Failed
  }

  function DueOf(r: AttemptResult): int { if r.nextAttemptAt.Some? then r.nextAttemptAt.value else r.finishedAt }

  /**
    A report, however late, changes a finished delivery exactly unless it says again how the delivery ended,
    and when.
   */
  lemma ReportChangesFinishedIff(s: Store, r: AttemptResult)
    requires Safe(s)
    ensures TerminalStays(s, Record(s, r))
       <==> !(r.delivery.id in s.deliveries
              && var d := s.deliveries[r.delivery.id];
                 Terminal(d) && (d.status != OutcomeOf(r) || d.nextAttemptAt != DueOf(r)))
  {
    var id := r.delivery.id;
    if id in s.deliveries { assert Accounted(s, id) && id in Record(s, r).deliveries; }
    hide Safe;
  }

  /** The report ends a run that another claim started. */
  ghost predicate EndsOtherRun(s: Store, r: AttemptResult) {
    exists id | id in s.deliveries ::
      && s.deliveries[id].status == Running && (id, s.deliveries[id].attempt) != (r.delivery.id, r.delivery.attempt)
      && Record(s, r).deliveries[id].status != Running
  }

  /** A report ends another claim's run exactly when its delivery is running under another attempt than its own. */
  lemma ReportEndsOtherRunIff(s: Store, r: AttemptResult)
    ensures EndsOtherRun(s, r)
       <==> r.delivery.id in s.deliveries && s.deliveries[r.delivery.id].status == Running
            && s.deliveries[r.delivery.id].attempt != r.delivery.attempt
  {
    var id := r.delivery.id;
    if id in s.deliveries && s.deliveries[id].status == Running && s.deliveries[id].attempt != r.delivery.attempt {
      assert Record(s, r).deliveries[id].status != Running;
    }
  }

  /**
    What a report may do without harm: it is about a claim once made on a delivery that exists, it asks for
    a retry only while attempts are left, and about a finished delivery it says only what is so.
   */
  predicate Harmless(s: Store, r: AttemptResult) {
    && r.delivery.id in s.deliveries
    && var d := s.deliveries[r.delivery.id];
       && 1 <= r.delivery.attempt <= d.attempt
       && (r.retry ==> d.attempt < d.maxAttempts)
       && (Terminal(d) ==> d.status == OutcomeOf(r) && d.nextAttemptAt == DueOf(r))
  }

  /**
    What the lease hypothesis is for: a report keeps the bounds and leaves finished deliveries alone exactly
    when it is harmless.
   */
  lemma ReportHarmlessIff(s: Store, r: AttemptResult)
    requires Safe(s) && Bounded(s) && Sensible(s, Recording(r))
    ensures Bounded(Record(s, r)) && TerminalStays(s, Record(s, r)) <==> Harmless(s, r)
  {
    ReportChangesFinishedIff(s, r);
    ReportBreaksBoundIff(s, r);
    ReportKeepsRecordsIff(s, r);
    hide Safe, TerminalStays, RowsBounded, RecordsInRange;
    assert r.delivery.id in s.deliveries ==> RowBounded(s.deliveries[r.delivery.id]) by {
      RowIsBounded(s, r.delivery.id);
    }
  }

  lemma RowIsBounded(s: Store, id: nat)
    requires RowsBounded(s)
    ensures id in s.deliveries ==> RowBounded(s.deliveries[id])
  {
  }

  lemma ReportKeepsRecordsIff(s: Store, r: AttemptResult)
    requires Bounded(s)
    ensures RecordsInRange(Record(s, r))
       <==> r.delivery.id in s.deliveries && 1 <= r.delivery.attempt <= s.deliveries[r.delivery.id].attempt
  {
    var key, after := (r.delivery.id, r.delivery.attempt), Record(s, r);
    assert key in after.attempts;
    hide RowsBounded;
    if r.delivery.id in s.deliveries {
      assert after.deliveries[r.delivery.id].status != Running
          && after.deliveries[r.delivery.id].attempt == s.deliveries[r.delivery.id].attempt;
    }
  }

  /** Every report under its lease is harmless. */
  lemma LeaseIsHarmless(s: Store, r: AttemptResult)
    requires Bounded(s) && Sensible(s, Recording(r)) && UnderLease(s, Recording(r))
    ensures Harmless(s, r)
  {
    RowIsBounded(s, r.delivery.id);
  }

  ghost predicate HarmlessRun(s: Store, steps: seq<Step>)
    requires SensibleRun(s, steps)
    decreases |steps|
  {
    steps == []
    || ((steps[0].Recording? ==> Harmless(s, steps[0].result)) && HarmlessRun(Apply(s, steps[0]), steps[1..]))
  }

  /** The bounds hold after every step, and no step changes a finished delivery. */
  ghost predicate BoundedThroughout(s: Store, steps: seq<Step>)
    requires SensibleRun(s, steps)
    decreases |steps|
  {
    steps == []
    || (Bounded(Apply(s, steps[0])) && TerminalStays(s, Apply(s, steps[0]))
         && BoundedThroughout(Apply(s, steps[0]), steps[1..]))
  }

  /**
    Over any run, late reports included, the bounds hold and finished deliveries stay exactly when every report
    is harmless.
   */
  lemma {:induction false} BoundedIffHarmless(s: Store, steps: seq<Step>)
    requires Safe(s) && Bounded(s) && SensibleRun(s, steps)
    ensures BoundedThroughout(s, steps) <==> HarmlessRun(s, steps)
    decreases |steps|
  {
    if steps != [] {
      StepKeepsSafe(s, steps[0]);
      if steps[0].Recording? { ReportHarmlessIff(s, steps[0].result); } else { StepUnderLease(s, steps[0]); }
      hide Safe, Sensible, Bounded, TerminalStays, Harmless, Record;
      if Bounded(Apply(s, steps[0])) { BoundedIffHarmless(Apply(s, steps[0]), steps[1..]); }
    }
  }

  // ----- Reports as the processor makes them

  function ReportOf(claim: Claimed, outcome: HttpOutcome, now: int): AttemptResult {
    var d := Decide(claim.attempt, claim.maxAttempts, outcome, now);
    AttemptResult(claim, d.succeeded, d.retry, now, d.nextAttemptAt)
  }

  /** Every report of the processor is sensible, and a recorded retry waits between 30 and 3600 seconds. */
  lemma RecordedRetryWaits(s: Store, claim: Claimed, outcome: HttpOutcome, now: int)
    requires claim.id in s.deliveries
    ensures var r := ReportOf(claim, outcome, now);
            && Sensible(s, Recording(r))
            && var row := Record(s, r).deliveries[claim.id];
               && (row.status == Pending <==> r.retry)
               && (r.retry <==> claim.attempt < claim.maxAttempts && Transient(outcome))
               && (r.retry
                   ==> claim.attempt < claim.maxAttempts && now + 30_000 <= row.nextAttemptAt <= now + 3_600_000)
               && (row.status == Succeeded <==> outcome.Response? && 200 <= outcome.statusCode < 300)
               && row.lockedBy == None && row.lockedAt == None
  {
    RetriesAreBounded(claim.attempt, claim.maxAttempts, outcome, now);
  }

  // ----- A late worker

  lemma RunCons(s: Store, step: Step, rest: seq<Step>)
    requires Sensible(s, step) && SensibleRun(Apply(s, step), rest)
    ensures SensibleRun(s, [step] + rest) && Run(s, [step] + rest) == Run(Apply(s, step), rest)
  {
    assert ([step] + rest)[1..] == rest;
  }

  const LATE_TYPE := "tenant.updated"

  function LateRow(status: Status, attempt: nat, due: int, lockedAt: Option<int>): Delivery {
    Delivery(0, 0, 1, status, attempt, 2, due, if lockedAt.Some? then Some("worker") else None, lockedAt)
  }

  function LateStore(row: Delivery, claims: nat, attempts: map<(nat, nat), bool>): Store {
    Store(map[0 := Event(EventPublished, LATE_TYPE, None, true)], 1, [Subscription(true, false, 1, [LATE_TYPE])],
          map[0 := row], 1, attempts, multiset{(0, 0)}, multiset{}[0 := claims])
  }

  const SUBSCRIBED := EMPTY.(subscriptions := [Subscription(true, false, 1, [LATE_TYPE])])
  const EMITTED := SUBSCRIBED.(events := map[0 := Event(EventPending, LATE_TYPE, None, true)], nextEvent := 1)

  lemma LateFanOut()
    ensures FanOut(EMITTED, {LATE_TYPE}, 2, 1, 0) == LateStore(LateRow(Pending, 0, 0, None), 0, map[])
  {
    var s, event := EMITTED, Event(EventPending, LATE_TYPE, None, true);
    assert MatchingSubscriptions(s.subscriptions, event, 1) == [];
    assert MatchesEvent(s.subscriptions, 0, event);
    assert MatchingSubscriptions(s.subscriptions, event, 0) == [0];
    assert PendingEvents(s.events, 0, 1, {LATE_TYPE}, 1) == [0] by {
      assert PendingEvents(s.events, 1, 1, {LATE_TYPE}, 0) == [];
    }
    var one := Insert(s, 0, 0, 2, 0);
    assert InsertAll(one, 0, [], 2, 0) == one;
    assert InsertAll(s, 0, [0], 2, 0) == one by { assert [0][1..] == []; }
    var out := FanOutEvent(s, 0, 2, 0).value;
    assert out == LateStore(LateRow(Pending, 0, 0, None), 0, map[]);
    assert FanOutAll(s, [0], 2, 0) == Some(out) by {
      assert [0][1..] == [];
      assert FanOutAll(out, [], 2, 0) == Some(out);
    }
  }

  lemma LateRecovery(now: int)
    requires now >= 900_000
    ensures Recover(LateStore(LateRow(Running, 1, 0, Some(0)), 1, map[]), 900, now)
        == LateStore(LateRow(Pending, 1, now, None), 1, map[])
  {
    var s := LateStore(LateRow(Running, 1, 0, Some(0)), 1, map[]);
    assert Recover(s, 900, now).deliveries == map[0 := LateRow(Pending, 1, now, None)];
  }

  lemma LateReport(finishedAt: int, due: int)
    ensures Record(LateStore(LateRow(Running, 2, finishedAt, Some(finishedAt)), 2, map[]),
                   AttemptResult(Claimed(0, 1, 2), false, true, finishedAt, Some(due)))
         == LateStore(LateRow(Pending, 2, due, None), 2, map[(0, 1) := false])
  {
  }

  lemma LateClaim(attempt: nat, due: int, now: int, attempts: map<(nat, nat), bool>)
    requires due <= now
    ensures var s := LateStore(LateRow(Pending, attempt, due, None), attempt, attempts);
            ReadySelection(s, [0], 1, now)
            && Apply(s, Claiming([0], "worker", 1, now))
                 == LateStore(LateRow(Running, attempt + 1, due, Some(now)), attempt + 1, attempts)
  {
    var s := LateStore(LateRow(Pending, attempt, due, None), attempt, attempts);
    assert ReadyRow(s, 0, now);
    assert [] + [0] == [0];
    assert Choose(s.deliveries, s.subscriptions, [0], 1, {}, []) == (s.deliveries, [0]);
    var started := s.deliveries[0 := StartOne(s.deliveries[0], "worker", now)];
    assert StartAll(started, [], "worker", now) == started;
    assert StartAll(s.deliveries, [0], "worker", now) == started by { assert [0][1..] == []; }
    assert started == map[0 := LateRow(Running, attempt + 1, due, Some(now))];
  }

  const LAST_LATE_STEP := 8

  /** The story of a late worker: its steps, and the tables before each of them. */
  function LateStep(i: nat): Step {
    match i
    case 0 => Subscribing([Subscription(true, false, 1, [LATE_TYPE])])
    case 1 => Emitting(LATE_TYPE, None, true)
    case 2 => FanningOut({LATE_TYPE}, 2, 1, 0)
    case 3 => Claiming([0], "worker", 1, 0)
    case 4 => Recovering(900, 900_000)
    case 5 => Claiming([0], "worker", 1, 900_000)
    case 6 => Recording(AttemptResult(Claimed(0, 1, 2), false, true, 900_000, Some(930_000)))
    case _ => Claiming([0], "worker", 1, 930_000)
  }

  function LateAt(i: nat): Store {
    match i
    case 0 => EMPTY
    case 1 => SUBSCRIBED
    case 2 => EMITTED
    case 3 => LateStore(LateRow(Pending, 0, 0, None), 0, map[])
    case 4 => LateStore(LateRow(Running, 1, 0, Some(0)), 1, map[])
    case 5 => LateStore(LateRow(Pending, 1, 900_000, None), 1, map[])
    case 6 => LateStore(LateRow(Running, 2, 900_000, Some(900_000)), 2, map[])
    case 7 => LateStore(LateRow(Pending, 2, 930_000, None), 2, map[(0, 1) := false])
    case _ => LateStore(LateRow(Running, 3, 930_000, Some(930_000)), 3, map[(0, 1) := false])
  }

  function LateFrom(i: nat): seq<Step>
    decreases LAST_LATE_STEP - i
  {
    if i >= LAST_LATE_STEP then [] else [LateStep(i)] + LateFrom(i + 1)
  }

  lemma LateStepTaken(i: nat)
    requires i < LAST_LATE_STEP
    ensures Sensible(LateAt(i), LateStep(i)) && Apply(LateAt(i), LateStep(i)) == LateAt(i + 1)
  {
    hide FanOut, Claim, Recover, Record, ReadySelection, LateStore, LateRow;
    match i
    case 2 => LateFanOut();
    case 3 => LateClaim(0, 0, 0, map[]);
    case 4 => LateRecovery(900_000);
    case 5 => LateClaim(1, 900_000, 900_000, map[]);
    case 6 => LateReport(900_000, 930_000);
    case 7 => LateClaim(2, 930_000, 930_000, map[(0, 1) := false]);
    case _ =>
  }

  lemma {:induction false} LateRunFrom(i: nat)
    requires i <= LAST_LATE_STEP
    ensures SensibleRun(LateAt(i), LateFrom(i)) && Run(LateAt(i), LateFrom(i)) == LateAt(LAST_LATE_STEP)
    decreases LAST_LATE_STEP - i
  {
    hide Apply, Sensible, LateStep, LateAt;
    if i < LAST_LATE_STEP {
      LateStepTaken(i);
      LateRunFrom(i + 1);
      RunCons(LateAt(i), LateStep(i), LateFrom(i + 1));
    }
  }

  /**
    The lease hypothesis is needed: a worker that reports a retryable failure of its first attempt after
    the delivery was recovered and claimed for the last time lets it be claimed once more than allowed.
   */
  lemma LateWorkerExceedsAttempts()
    ensures exists steps :: SensibleRun(EMPTY, steps)
              && var after := Run(EMPTY, steps);
                 0 in after.deliveries && after.deliveries[0].attempt == after.deliveries[0].maxAttempts + 1
  {
    hide Run, SensibleRun, LateFrom;
    LateRunFrom(0);
    assert SensibleRun(EMPTY, LateFrom(0)) && Run(EMPTY, LateFrom(0)) == LateAt(LAST_LATE_STEP);
  }
}
