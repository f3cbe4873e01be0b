/**
  Webhook deliveries: the outbox fan-out, claims, attempt records and stale recovery, each transaction
  one atomic step, and what every interleaving of workers keeps.
 */
module WebhookDeliveries {
  import opened Wrappers
  import opened Tables

  datatype EventStatus = EventPending | EventPublished | EventFailed

  /** `target` is the subscription a directed notification names; `readable` is whether its payload parses. */
  datatype Event = Event(status: EventStatus, eventType: string, target: Option<nat>, readable: bool)

  datatype Subscription = Subscription(enabled: bool, isDeleted: bool, revision: int, eventTypes: seq<string>)

  datatype Status = Pending | Running | Succeeded | Failed | Canceled

  datatype Delivery = Delivery(
    eventId: nat,
    subscriptionId: nat,
    revision: int,
    status: Status,
    attempt: nat,
    maxAttempts: int,
    nextAttemptAt: int,
    lockedBy: Option<string>,
    lockedAt: Option<int>)

  datatype Claimed = Claimed(id: nat, attempt: nat, maxAttempts: int)

  datatype AttemptResult = AttemptResult(
    delivery: Claimed, succeeded: bool, retry: bool, finishedAt: int, nextAttemptAt: Option<int>)

  /**
    The tables, with two records of the past: the (event, subscription) pairs for which a delivery was
    ever inserted, and how often each delivery was claimed.
   */
  datatype Store = Store(
    events: map<nat, Event>,
    nextEvent: nat,
    subscriptions: seq<Subscription>,
    deliveries: map<nat, Delivery>,
    nextDelivery: nat,
    attempts: map<(nat, nat), bool>,
    created: multiset<(nat, nat)>,
    claims: multiset<nat>)

  const NOTIFICATION_REQUESTED := "notification.requested"

  // ----- Fan-out

  predicate MatchesEvent(s: seq<Subscription>, id: nat, event: Event) {
    && id < |s|
    && s[id].enabled && !s[id].isDeleted
    && (event.eventType == NOTIFICATION_REQUESTED && event.target.Some? ==> id == event.target.value)
    && event.eventType in s[id].eventTypes
  }

  function MatchingSubscriptions(s: seq<Subscription>, event: Event, from: nat): (ids: seq<nat>)
    requires from <= |s|
    ensures forall id :: id in ids <==> from <= id && MatchesEvent(s, id, event)
    ensures forall i | 0 <= i < |ids| :: ids[i] < |s|
    ensures forall i, j | 0 <= i < j < |ids| :: ids[i] < ids[j]
    decreases |s| - from
  {
    if from == |s| then []
    else
      var rest := MatchingSubscriptions(s, event, from + 1);
      assert forall i | 0 <= i < |rest| :: rest[i] in rest;
      (if MatchesEvent(s, from, event) then [from] else []) + rest
  }

  /** The least `limit` identifiers, from `from` on, of pending events of the allowed types. */
  function PendingEvents(
    events: map<nat, Event>, from: nat, end: nat, allowed: set<string>, limit: nat): (ids: seq<nat>)
    ensures |ids| <= limit
    ensures forall id | id in ids ::
        from <= id < end && id in events && events[id].status == EventPending && events[id].eventType in allowed
    ensures forall i, j | 0 <= i < j < |ids| :: ids[i] < ids[j]
    ensures forall id |
              && from <= id < end && id in events
              && events[id].status == EventPending && events[id].eventType in allowed ::
              id in ids || |ids| == limit
    decreases end - from
  {
    if from >= end || limit == 0 then []
    else if from in events && events[from].status == EventPending && events[from].eventType in allowed then
      var rest := PendingEvents(events, from + 1, end, allowed, limit - 1);
      assert forall i | 0 <= i < |rest| :: rest[i] in rest;
      [from] + rest
    else PendingEvents(events, from + 1, end, allowed, limit)
  }

  predicate Exists(deliveries: map<nat, Delivery>, eventId: nat, subscriptionId: nat) {
    exists d | d in deliveries :: deliveries[d].eventId == eventId && deliveries[d].subscriptionId == subscriptionId
  }

  /** Inserts a delivery unless the pair already has one. */
  function Insert(s: Store, eventId: nat, subscriptionId: nat, maxAttempts: int, now: int): Store
    requires subscriptionId < |s.subscriptions|
  {
    if Exists(s.deliveries, eventId, subscriptionId) then s
    else
      s.(deliveries := s.deliveries[s.nextDelivery :=
           Delivery(eventId, subscriptionId, s.subscriptions[subscriptionId].revision, Pending, 0, maxAttempts, now,
             None, None)],
         nextDelivery := s.nextDelivery + 1,
         created := s.created + multiset{(eventId, subscriptionId)})
  }

  function InsertAll(s: Store, eventId: nat, subscriptionIds: seq<nat>, maxAttempts: int, now: int): (after: Store)
    requires forall i | 0 <= i < |subscriptionIds| :: subscriptionIds[i] < |s.subscriptions|
    ensures after.events == s.events && after.subscriptions == s.subscriptions
    decreases |subscriptionIds|
  {
    if subscriptionIds == [] then s
    else
      var next := Insert(s, eventId, subscriptionIds[0], maxAttempts, now);
      InsertAll(next, eventId, subscriptionIds[1..], maxAttempts, now)
  }

  lemma InsertFrom(s: Store, eventId: nat, ids: seq<nat>, i: nat, maxAttempts: int, now: int)
    requires i <= |ids| && forall k | 0 <= k < |ids| :: ids[k] < |s.subscriptions|
    ensures InsertAll(s, eventId, ids[i..], maxAttempts, now)
         == if i == |ids| then s
            else InsertAll(Insert(s, eventId, ids[i], maxAttempts, now), eventId, ids[i + 1..], maxAttempts, now)
  {
    hide Insert;
    if i < |ids| { assert ids[i..][0] == ids[i] && ids[i..][1..] == ids[i + 1..]; }
  }

  /** None when the payload cannot be read. */
  function FanOutEvent(s: Store, eventId: nat, maxAttempts: int, now: int): Option<Store>
    requires eventId in s.events
  {
    var event := s.events[eventId];
    if !event.readable then None
    else
      var inserted := InsertAll(s, eventId, MatchingSubscriptions(s.subscriptions, event, 0), maxAttempts, now);
      Some(inserted.(events := inserted.events[eventId := event.(status := EventPublished)]))
  }

  function FanOutAll(s: Store, eventIds: seq<nat>, maxAttempts: int, now: int): Option<Store>
    requires forall i | 0 <= i < |eventIds| :: eventIds[i] in s.events
    decreases |eventIds|
  {
    if eventIds == [] then Some(s)
    else
      match FanOutEvent(s, eventIds[0], maxAttempts, now)
      case None => None
      case Some(next) => FanOutAll(next, eventIds[1..], maxAttempts, now)
  }

  lemma FanOutFrom(s: Store, ids: seq<nat>, i: nat, maxAttempts: int, now: int)
    requires i <= |ids| && forall k | 0 <= k < |ids| :: ids[k] in s.events
    ensures FanOutAll(s, ids[i..], maxAttempts, now)
         == if i == |ids| then Some(s)
            else
              match FanOutEvent(s, ids[i], maxAttempts, now)
              case None => None
              case Some(next) => FanOutAll(next, ids[i + 1..], maxAttempts, now)
  {
    hide InsertAll;
    if i < |ids| { assert ids[i..][0] == ids[i] && ids[i..][1..] == ids[i + 1..]; }
  }

  /** One transaction: an unreadable payload undoes all of it. */
  function FanOut(s: Store, allowed: set<string>, maxAttempts: int, limit: int, now: int): Store {
    if limit <= 0 then s
    else
      match FanOutAll(s, PendingEvents(s.events, 0, s.nextEvent, allowed, limit), maxAttempts, now)
      case None => s
      case Some(next) => next
  }

  // ----- Claims

  predicate SubscriptionBusy(deliveries: map<nat, Delivery>, subscriptionId: nat) {
    exists d | d in deliveries :: deliveries[d].subscriptionId == subscriptionId && deliveries[d].status == Running
  }

  predicate ReadyRow(s: Store, id: nat, now: int) {
    && id in s.deliveries
    && s.deliveries[id].status == Pending
    && s.deliveries[id].nextAttemptAt <= now
    && s.deliveries[id].subscriptionId < |s.subscriptions|
    && !SubscriptionBusy(s.deliveries, s.deliveries[id].subscriptionId)
  }

  predicate Before(s: Store, a: nat, b: nat) {
    && a in s.deliveries && b in s.deliveries
    && var x, y := s.deliveries[a].nextAttemptAt, s.deliveries[b].nextAttemptAt;
       x < y || (x == y && a < b)
  }

  function SelectionCap(limit: int): nat { if limit * 4 >= 1 then limit * 4 else 1 }

  /** `rows` answers the claim query: the ready rows, oldest first, up to four times the limit. */
  ghost predicate ReadySelection(s: Store, rows: seq<nat>, limit: int, now: int) {
    && |rows| <= SelectionCap(limit)
    && (forall i | 0 <= i < |rows| :: ReadyRow(s, rows[i], now))
    && (forall i, j | 0 <= i < j < |rows| :: Before(s, rows[i], rows[j]))
    && (forall d | ReadyRow(s, d, now) && d !in rows ::
          |rows| == SelectionCap(limit) && forall i | 0 <= i < |rows| :: Before(s, rows[i], d))
  }

  predicate StaleSubscription(s: seq<Subscription>, d: Delivery)
    requires d.subscriptionId < |s|
  {
    s[d.subscriptionId].isDeleted || !s[d.subscriptionId].enabled || s[d.subscriptionId].revision != d.revision
  }

  function CancelOne(d: Delivery): Delivery { d.(status := Canceled, lockedBy := None, lockedAt := None) }

  /**
    Walks the selected rows: one delivery per subscription is chosen, rows whose subscription changed
    are canceled, and the walk stops once `limit` are chosen.
   */
  function Choose(deliveries: map<nat, Delivery>, s: seq<Subscription>, rows: seq<nat>, limit: int,
                  taken: set<nat>, chosen: seq<nat>): (map<nat, Delivery>, seq<nat>)
    requires forall i | 0 <= i < |rows| :: rows[i] in deliveries && deliveries[rows[i]].subscriptionId < |s|
    decreases |rows|
  {
    if rows == [] then (deliveries, chosen)
    else
      var id, d := rows[0], deliveries[rows[0]];
      if d.subscriptionId in taken then Choose(deliveries, s, rows[1..], limit, taken, chosen)
      else if StaleSubscription(s, d) then Choose(deliveries[id := CancelOne(d)], s, rows[1..], limit, taken, chosen)
      else if |chosen| + 1 >= limit then (deliveries, chosen + [id])
      else Choose(deliveries, s, rows[1..], limit, taken + {d.subscriptionId}, chosen + [id])
  }

  function StartOne(d: Delivery, workerId: string, now: int): Delivery {
    d.(status := Running, attempt := d.attempt + 1, lockedBy := Some(workerId), lockedAt := Some(now))
  }

  lemma ChooseFrom(
    deliveries: map<nat, Delivery>, s: seq<Subscription>, rows: seq<nat>, i: nat, limit: int, taken: set<nat>,
    chosen: seq<nat>)
    requires i <= |rows|
    requires forall k | 0 <= k < |rows| :: rows[k] in deliveries && deliveries[rows[k]].subscriptionId < |s|
    ensures Choose(deliveries, s, rows[i..], limit, taken, chosen)
         == if i == |rows| then (deliveries, chosen)
            else
              var id, d := rows[i], deliveries[rows[i]];
              if d.subscriptionId in taken then Choose(deliveries, s, rows[i + 1..], limit, taken, chosen)
              else if StaleSubscription(s, d)
                then Choose(deliveries[id := CancelOne(d)], s, rows[i + 1..], limit, taken, chosen)
              else if |chosen| + 1 >= limit then (deliveries, chosen + [id])
              else Choose(deliveries, s, rows[i + 1..], limit, taken + {d.subscriptionId}, chosen + [id])
  {
    hide StaleSubscription;
    if i < |rows| { assert rows[i..][0] == rows[i] && rows[i..][1..] == rows[i + 1..]; }
  }

  function Start(workerId: string, now: int): Delivery -> Delivery { d => StartOne(d, workerId, now) }

  function StartAll(deliveries: map<nat, Delivery>, ids: seq<nat>, workerId: string, now: int): map<nat, Delivery>
    requires forall i | 0 <= i < |ids| :: ids[i] in deliveries
  {
    UpdateAll(deliveries, ids, Start(workerId, now))
  }

  function ClaimedOf(deliveries: map<nat, Delivery>, ids: seq<nat>): seq<Claimed>
    requires forall i | 0 <= i < |ids| :: ids[i] in deliveries
  {
    seq(|ids|, i requires 0 <= i < |ids| =>
      Claimed(ids[i], deliveries[ids[i]].attempt + 1, deliveries[ids[i]].maxAttempts))
  }

  lemma {:induction false} ChosenExist(
    deliveries: map<nat, Delivery>, s: seq<Subscription>, rows: seq<nat>, limit: int, taken: set<nat>, chosen: seq<nat>)
    requires forall i | 0 <= i < |rows| :: rows[i] in deliveries && deliveries[rows[i]].subscriptionId < |s|
    requires forall i | 0 <= i < |chosen| :: chosen[i] in deliveries
    ensures var (after, ids) := Choose(deliveries, s, rows, limit, taken, chosen);
            after.Keys == deliveries.Keys && forall i | 0 <= i < |ids| :: ids[i] in after
    decreases |rows|
  {
    if rows != [] {
      var id, d := rows[0], deliveries[rows[0]];
      if d.subscriptionId in taken { ChosenExist(deliveries, s, rows[1..], limit, taken, chosen); }
      else if StaleSubscription(s, d) {
        ChosenExist(deliveries[id := CancelOne(d)], s, rows[1..], limit, taken, chosen);
      }
      else if |chosen| + 1 < limit {
        ChosenExist(deliveries, s, rows[1..], limit, taken + {d.subscriptionId}, chosen + [id]);
      }
    }
  }

  function Claim(s: Store, rows: seq<nat>, workerId: string, limit: int, now: int): (Store, seq<Claimed>)
    requires forall i | 0 <= i < |rows| ::
        rows[i] in s.deliveries && s.deliveries[rows[i]].subscriptionId < |s.subscriptions|
  {
    ChosenExist(s.deliveries, s.subscriptions, rows, limit, {}, []);
    var (kept, chosen) := Choose(s.deliveries, s.subscriptions, rows, limit, {}, []);
    (s.(deliveries := StartAll(kept, chosen, workerId, now), claims := s.claims + multiset(chosen)),
     ClaimedOf(kept, chosen))
  }

  /** None when the payload of a delivery to be claimed cannot be read back: the whole transaction is undone. */
  function ReadClaim(
    s: Store, rows: seq<nat>, unreadable: set<nat>, workerId: string, limit: int, now: int)
    : Option<(Store, seq<Claimed>)>
    requires forall i | 0 <= i < |rows| ::
        rows[i] in s.deliveries && s.deliveries[rows[i]].subscriptionId < |s.subscriptions|
  {
    var (after, claimed) := Claim(s, rows, workerId, limit, now);
    if exists c | c in claimed :: c.id in unreadable then None else Some((after, claimed))
  }

  // ----- Recording and recovery

  function Settle(d: Delivery, r: AttemptResult): Delivery {
    d.(status := if r.succeeded then Succeeded else if r.retry then Pending else Failed,
       nextAttemptAt := if r.nextAttemptAt.Some? then r.nextAttemptAt.value else r.finishedAt,
       lockedBy := None, lockedAt := None)
  }

  /** The attempt is recorded unless its number already is; the row is updated whatever its status. */
  function Record(s: Store, r: AttemptResult): Store {
    var key := (r.delivery.id, r.delivery.attempt);
    s.(attempts := if key in s.attempts then s.attempts else s.attempts[key := r.succeeded],
       deliveries := if r.delivery.id in s.deliveries
                     then s.deliveries[r.delivery.id := Settle(s.deliveries[r.delivery.id], r)] else s.deliveries)
  }

  predicate StaleRun(d: Delivery, cutoff: int) {
    d.status == Running && d.lockedAt.Some? && d.lockedAt.value <= cutoff
  }

  function Unlock(d: Delivery, now: int): Delivery {
    var exhausted := d.attempt >= d.maxAttempts;
    d.(status := if exhausted then Failed else Pending,
       nextAttemptAt := if exhausted then d.nextAttemptAt else now, lockedBy := None, lockedAt := None)
  }

  function Recover(s: Store, timeoutSeconds: int, now: int): Store {
    var cutoff := now - timeoutSeconds * 1000;
    s.(deliveries := map id | id in s.deliveries ::
         if StaleRun(s.deliveries[id], cutoff) then Unlock(s.deliveries[id], now) else s.deliveries[id])
  }

  predicate Terminal(d: Delivery) { d.status == Succeeded || d.status == Failed || d.status == Canceled }

  /** Old finished deliveries go with their attempts; old settled events go alone. */
  function Cleanup(s: Store, deliveryIds: set<nat>, eventIds: set<nat>): Store {
    s.(deliveries := s.deliveries - deliveryIds,
       attempts := map key | key in s.attempts && key.0 !in deliveryIds :: s.attempts[key],
       events := s.events - eventIds)
  }

  function CancelSubscription(s: Store, subscriptionId: nat): Store {
    s.(deliveries := map id | id in s.deliveries ::
         var d := s.deliveries[id];
         if d.subscriptionId == subscriptionId && d.status == Pending then CancelOne(d) else d)
  }

  // ----- The repository object

  class WebhookDeliveryRepository {
    var events: map<nat, Event>
    var nextEvent: nat
    var subscriptions: seq<Subscription>
    var deliveries: map<nat, Delivery>
    var nextDelivery: nat
    var attempts: map<(nat, nat), bool>
    ghost var created: multiset<(nat, nat)>
    ghost var claims: multiset<nat>
    const allowedEventTypes: set<string>

    ghost function View(): Store
      reads this
    {
      Store(events, nextEvent, subscriptions, deliveries, nextDelivery, attempts, created, claims)
    }

    constructor (allowedEventTypes: set<string>, subscriptions: seq<Subscription>)
      ensures this.allowedEventTypes == allowedEventTypes
      ensures View() == Store(map[], 0, subscriptions, map[], 0, map[], multiset{}, multiset{})
    {
      this.allowedEventTypes := allowedEventTypes;
      this.subscriptions := subscriptions;
      events, nextEvent, deliveries, nextDelivery := map[], 0, map[], 0;
      attempts, created, claims := map[], multiset{}, multiset{};
    }

    method InsertDelivery(eventId: nat, subscriptionId: nat, maxAttempts: int, now: int)
      requires subscriptionId < |subscriptions|
      modifies this`deliveries, this`nextDelivery, this`created
      ensures View() == Insert(old(View()), eventId, subscriptionId, maxAttempts, now)
    {
      if !Exists(deliveries, eventId, subscriptionId) {
        deliveries := deliveries[nextDelivery :=
          Delivery(eventId, subscriptionId, subscriptions[subscriptionId].revision, Pending, 0, maxAttempts, now, None,
            None)];
        nextDelivery := nextDelivery + 1;
        created := created + multiset{(eventId, subscriptionId)};
      }
    }

    method FanOutOne(eventId: nat, maxAttempts: int, now: int) returns (readable: bool)
      requires eventId in events
      modifies this`events, this`deliveries, this`nextDelivery, this`created
      ensures events.Keys == old(events).Keys
      ensures match FanOutEvent(old(View()), eventId, maxAttempts, now)
              case None => !readable && View() == old(View())
              case Some(next) => readable && View() == next
    {
      hide Insert, InsertAll, MatchingSubscriptions;
      var event := events[eventId];
      if !event.readable { return false; }
      var matching := MatchingSubscriptions(subscriptions, event, 0);
      ghost var start := View();
      assert matching[0..] == matching;
      for i := 0 to |matching|
        invariant events == old(events) && subscriptions == old(subscriptions)
        invariant attempts == old(attempts) && claims == old(claims) && nextEvent == old(nextEvent)
        invariant InsertAll(start, eventId, matching, maxAttempts, now)
            == InsertAll(View(), eventId, matching[i..], maxAttempts, now)
      {
        InsertFrom(View(), eventId, matching, i, maxAttempts, now);
        InsertDelivery(eventId, matching[i], maxAttempts, now);
      }
      InsertFrom(View(), eventId, matching, |matching|, maxAttempts, now);
      events := events[eventId := event.(status := EventPublished)];
      return true;
    }

    /** The number of events fanned out, unless an unreadable payload is thrown and the transaction undone. */
    method FanOutPending(maxAttempts: int, limit: int, now: int) returns (published: nat, thrown: bool)
      modifies this`events, this`deliveries, this`nextDelivery, this`created
      ensures View() == FanOut(old(View()), allowedEventTypes, maxAttempts, limit, now)
      ensures limit <= 0 ==> published == 0 && !thrown
      ensures limit > 0 ==>
        var rows := PendingEvents(old(events), 0, nextEvent, allowedEventTypes, limit);
        && (thrown <==> FanOutAll(old(View()), rows, maxAttempts, now).None?)
        && published == if thrown then 0 else |rows|
    {
      hide FanOutEvent, FanOutAll, PendingEvents;
      if limit <= 0 { return 0, false; }
      var rows := PendingEvents(events, 0, nextEvent, allowedEventTypes, limit);
      var savedEvents, savedDeliveries, savedNext := events, deliveries, nextDelivery;
      ghost var start := View();
      assert rows[0..] == rows && forall k | 0 <= k < |rows| :: rows[k] in rows && rows[k] in events;
      for i := 0 to |rows|
        invariant events.Keys == savedEvents.Keys
        invariant FanOutAll(start, rows, maxAttempts, now) == FanOutAll(View(), rows[i..], maxAttempts, now)
      {
        FanOutFrom(View(), rows, i, maxAttempts, now);
        var readable := FanOutOne(rows[i], maxAttempts, now);
        if !readable {
          events, deliveries, nextDelivery, created := savedEvents, savedDeliveries, savedNext, start.created;
          return 0, true;
        }
      }
      FanOutFrom(View(), rows, |rows|, maxAttempts, now);
      return |rows|, false;
    }

    method RecoverStaleRunning(timeoutSeconds: int, now: int)
      modifies this`deliveries
      ensures View() == Recover(old(View()), timeoutSeconds, now)
    {
      var cutoff := now - timeoutSeconds * 1000;
      deliveries := map id | id in deliveries ::
        if StaleRun(deliveries[id], cutoff) then Unlock(deliveries[id], now) else deliveries[id];
    }

    /**
      `rows` is the database's answer to the claim query. A payload that cannot be read back is thrown and
      undoes the claim.
     */
    method ClaimReady(
      rows: seq<nat>, unreadable: set<nat>, workerId: string, limit: int, now: int)
      returns (claimed: seq<Claimed>, thrown: bool)
      requires ReadySelection(View(), rows, limit, now)
      modifies this`deliveries, this`claims
      ensures match ReadClaim(old(View()), rows, unreadable, workerId, limit, now)
              case Some(outcome) => !thrown && (View(), claimed) == outcome
              case None => thrown && View() == old(View()) && claimed == []
    {
      hide ReadyRow, StaleSubscription, ReadySelection, Choose, StartAll, ClaimedOf;
      assert forall j | 0 <= j < |rows| ::
          rows[j] in deliveries && deliveries[rows[j]].subscriptionId < |subscriptions| by {
        SelectionExists(View(), rows, limit, now);
      }
      ChosenExist(deliveries, subscriptions, rows, limit, {}, []);
      ghost var start := deliveries;
      var saved := deliveries;
      var selected: seq<nat> := [];
      var taken: set<nat> := {};
      assert rows[0..] == rows;
      var i := 0;
      ghost var full := false;
      while i < |rows|
        invariant 0 <= i <= |rows| && !full
        invariant deliveries.Keys == start.Keys && claims == old(claims)
        invariant forall j | 0 <= j < |rows| ::
            rows[j] in deliveries && deliveries[rows[j]].subscriptionId < |subscriptions|
        invariant forall j | 0 <= j < |selected| :: selected[j] in deliveries
        invariant Choose(start, subscriptions, rows, limit, {}, [])
            == Choose(deliveries, subscriptions, rows[i..], limit, taken, selected)
      {
        var id := rows[i];
        var d := deliveries[id];
        ChooseFrom(deliveries, subscriptions, rows, i, limit, taken, selected);
        if d.subscriptionId in taken {
          i := i + 1;
          continue;
        }
        if StaleSubscription(subscriptions, d) {
          deliveries := deliveries[id := CancelOne(d)];
          i := i + 1;
          continue;
        }
        taken := taken + {d.subscriptionId};
        selected := selected + [id];
        i := i + 1;
        if |selected| >= limit {
          full := true;
          break;
        }
      }
      if !full { ChooseFrom(deliveries, subscriptions, rows, i, limit, taken, selected); }
      assert (deliveries, selected) == Choose(start, subscriptions, rows, limit, {}, []);
      claimed := ClaimedOf(deliveries, selected);
      StartSelected(selected, workerId, now);
      thrown := exists c | c in claimed :: c.id in unreadable;
      if thrown { deliveries, claims, claimed := saved, old(claims), []; }
    }

    /** The second half of a claim. */
    method StartSelected(selected: seq<nat>, workerId: string, now: int)
      requires forall i | 0 <= i < |selected| :: selected[i] in deliveries
      modifies this`deliveries, this`claims
      ensures deliveries == StartAll(old(deliveries), selected, workerId, now)
      ensures claims == old(claims) + multiset(selected)
    {
      assert selected[0..] == selected;
      for k := 0 to |selected|
        invariant deliveries.Keys == old(deliveries).Keys
        invariant claims == old(claims)
        invariant StartAll(old(deliveries), selected, workerId, now)
            == StartAll(deliveries, selected[k..], workerId, now)
      {
        assert selected[k..][0] == selected[k] && selected[k..][1..] == selected[k + 1..];
        deliveries := deliveries[selected[k] := StartOne(deliveries[selected[k]], workerId, now)];
      }
      claims := claims + multiset(selected);
    }

    method RecordAttempt(result: AttemptResult)
      modifies this`attempts, this`deliveries
      ensures View() == Record(old(View()), result)
    {
      var key := (result.delivery.id, result.delivery.attempt);
      if key !in attempts { attempts := attempts[key := result.succeeded]; }
      var status := if result.succeeded then Succeeded else if result.retry then Pending else Failed;
      if result.delivery.id in deliveries {
        deliveries := deliveries[result.delivery.id := deliveries[result.delivery.id].(
          status := status,
          nextAttemptAt := if result.nextAttemptAt.Some? then result.nextAttemptAt.value else result.finishedAt,
          lockedBy := None, lockedAt := None)];
      }
    }
  }

  lemma SelectionExists(s: Store, rows: seq<nat>, limit: int, now: int)
    requires ReadySelection(s, rows, limit, now)
    ensures forall i | 0 <= i < |rows| ::
        rows[i] in s.deliveries && s.deliveries[rows[i]].subscriptionId < |s.subscriptions|
  {
  }
}
