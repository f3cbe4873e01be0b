/**
  Announcements addressed to the whole system or to organization subtrees: target validation, the
  draft/published/deleted life cycle, and who currently sees what.
 */
module Announcements {
  import opened Wrappers
  import opened OrgPath

  datatype Organization = Organization(id: string, path: int, level: int, enabled: bool, isDeleted: bool)

  datatype Scope = System | Organizations

  datatype TargetError =
    | SystemWithTargets
    | NoTargets
    | DuplicateTargets
    | Unavailable(id: string)
    | DisabledTarget(id: string)
    | RelatedTargets
    | BadPath(error: PathError)

  // ----- The directory of organizations

  /** The stored path is the encoding of `level` segments. */
  predicate PathOf(o: Organization, segments: seq<int>) {
    ValidPath(segments) && o.path == Packed(segments, MAX_LEVEL) && o.level == |segments|
  }

  ghost predicate PathKept(o: Organization) { exists segments: seq<int> :: PathOf(o, segments) }

  ghost function Segments(o: Organization): (segments: seq<int>)
    requires PathKept(o)
    ensures PathOf(o, segments)
  {
    var segments: seq<int> :| PathOf(o, segments);
    segments
  }

  /** One valid path per organization, and one organization per identifier. */
  ghost predicate DirectoryKept(orgs: seq<Organization>) {
    && (forall o | o in orgs :: PathKept(o))
    && (forall i, j | 0 <= i < |orgs| && 0 <= j < |orgs| && i != j ::
          orgs[i].id != orgs[j].id && orgs[i].path != orgs[j].path)
  }

  function Covers(ancestor: Organization, candidate: Organization): Result<bool, PathError> {
    IsDescendant(candidate.path, ancestor.path, ancestor.level)
  }

  function OrganizationCovers(target: Organization, candidate: Organization): Result<bool, PathError> {
    if target.id == candidate.id then Ok(true) else Covers(target, candidate)
  }

  lemma CoversIsStrictPrefix(a: Organization, c: Organization)
    requires PathKept(a) && PathKept(c)
    ensures Covers(a, c) == Ok(Segments(a) < Segments(c))
  {
    hide IsDescendant, Packed;
    RangeTestDecidesAncestry(Segments(c), Segments(a));
  }

  /** Within a kept directory, a target covers exactly the organizations at or below it. */
  lemma CoversIsPrefix(orgs: seq<Organization>, a: Organization, c: Organization)
    requires DirectoryKept(orgs) && a in orgs && c in orgs
    ensures OrganizationCovers(a, c) == Ok(Segments(a) <= Segments(c))
  {
    hide Covers, Packed, PathKept;
    CoversIsStrictPrefix(a, c);
    if Segments(a) == Segments(c) { assert a.path == c.path; }
    if Segments(a) <= Segments(c) && |Segments(a)| == |Segments(c)| { assert Segments(a) == Segments(c); }
  }

  function ById(orgs: seq<Organization>): (byId: map<string, Organization>)
    ensures forall id | id in byId :: byId[id] in orgs && byId[id].id == id
    ensures forall o | o in orgs :: o.id in byId
  {
    if orgs == [] then map[]
    else
      var front, last := orgs[..|orgs| - 1], orgs[|orgs| - 1];
      assert forall o :: o in orgs <==> o in front || o == last;
      ById(front)[last.id := last]
  }

  lemma ByIdUnique(orgs: seq<Organization>, o: Organization)
    requires DirectoryKept(orgs) && o in orgs
    ensures o.id in ById(orgs) && ById(orgs)[o.id] == o
  {
    var p := ById(orgs)[o.id];
    var i :| 0 <= i < |orgs| && orgs[i] == o;
    var j :| 0 <= j < |orgs| && orgs[j] == p;
  }

  // ----- Target validation

  predicate Available(id: string, orgs: seq<Organization>) {
    exists o | o in orgs :: o.id == id && !o.isDeleted && o.enabled
  }

  predicate AllDistinct(ids: seq<string>) {
    forall i, j | 0 <= i < j < |ids| :: ids[i] != ids[j]
  }

  ghost predicate Unrelated(a: Organization, b: Organization)
    requires PathKept(a) && PathKept(b)
  {
    !(Segments(a) <= Segments(b)) && !(Segments(b) <= Segments(a))
  }

  /** The targets a scope may have: none for the system, otherwise a non-empty antichain of live organizations. */
  ghost predicate Acceptable(scope: Scope, ids: seq<string>, orgs: seq<Organization>)
    requires DirectoryKept(orgs)
  {
    match scope
    case System => ids == []
    case Organizations =>
      && ids != [] && AllDistinct(ids)
      && (forall id | id in ids :: Available(id, orgs))
      && forall a, b | a in orgs && b in orgs && a.id in ids && b.id in ids && a != b :: Unrelated(a, b)
  }

  /** Some organization has the identifier, is not deleted, and is switched on or off as said. */
  predicate Stands(id: string, orgs: seq<Organization>, enabled: bool) {
    exists o | o in orgs :: o.id == id && !o.isDeleted && o.enabled == enabled
  }

  /** What an error says about the targets, which are looked at one by one in their order. */
  ghost predicate Explains(error: TargetError, scope: Scope, ids: seq<string>, orgs: seq<Organization>)
    requires DirectoryKept(orgs)
  {
    match error
    case SystemWithTargets => scope == System && ids != []
    case NoTargets => scope == Organizations && ids == []
    case DuplicateTargets => scope == Organizations && !AllDistinct(ids)
    case Unavailable(id) =>
      && scope == Organizations && AllDistinct(ids) && FirstBad(ids, id, orgs)
      && !Stands(id, orgs, true) && !Stands(id, orgs, false)
    case DisabledTarget(id) =>
      && scope == Organizations && AllDistinct(ids) && FirstBad(ids, id, orgs)
      && Stands(id, orgs, false)
    case RelatedTargets =>
      && scope == Organizations && AllDistinct(ids) && (forall id | id in ids :: Stands(id, orgs, true))
      && exists a, b | a in orgs && b in orgs && a.id in ids && b.id in ids && a != b :: !Unrelated(a, b)
    case BadPath(_) => false
  }

  /** The first of the identifiers that stands for no live organization. */
  ghost predicate FirstBad(ids: seq<string>, id: string, orgs: seq<Organization>) {
    exists k | 0 <= k < |ids| && ids[k] == id ::
      !Stands(id, orgs, true) && forall i | 0 <= i < k :: Stands(ids[i], orgs, true)
  }

  /** What the lookup by identifier finds. */
  lemma LookedUp(id: string, orgs: seq<Organization>, enabled: bool)
    requires DirectoryKept(orgs)
    ensures Stands(id, orgs, enabled)
       <==> id in ById(orgs) && !ById(orgs)[id].isDeleted && ById(orgs)[id].enabled == enabled
  {
    if o :| o in orgs && o.id == id { ByIdUnique(orgs, o); }
  }

  /** The error for the first identifier that the lookup does not find live. */
  lemma FirstBadExplained(ids: seq<string>, orgs: seq<Organization>, k: nat)
    requires DirectoryKept(orgs) && k < |ids| && AllDistinct(ids)
    requires forall i | 0 <= i < k :: Stands(ids[i], orgs, true)
    ensures (ids[k] !in ById(orgs) || ById(orgs)[ids[k]].isDeleted) ==>
              Explains(Unavailable(ids[k]), Organizations, ids, orgs)
    ensures ids[k] in ById(orgs) && !ById(orgs)[ids[k]].isDeleted && !ById(orgs)[ids[k]].enabled ==>
              Explains(DisabledTarget(ids[k]), Organizations, ids, orgs)
  {
    LookedUp(ids[k], orgs, true);
    LookedUp(ids[k], orgs, false);
    hide AllDistinct, Stands, ById, DirectoryKept, Unrelated;
  }

  lemma RelatedExplained(ids: seq<string>, orgs: seq<Organization>, a: Organization, b: Organization)
    requires DirectoryKept(orgs) && AllDistinct(ids) && (forall i | 0 <= i < |ids| :: Stands(ids[i], orgs, true))
    requires a in orgs && b in orgs && a.id in ids && b.id in ids && a != b && !Unrelated(a, b)
    ensures Explains(RelatedTargets, Organizations, ids, orgs)
  {
    hide AllDistinct, Stands, Unrelated;
  }

  method ValidateAnnouncementTargets(scope: Scope, ids: seq<string>, orgs: seq<Organization>)
    returns (r: Result<(), TargetError>)
    ensures DirectoryKept(orgs) ==> (r.Ok? <==> Acceptable(scope, ids, orgs))
    ensures DirectoryKept(orgs) ==> !(r.Err? && r.error.BadPath?)
    ensures DirectoryKept(orgs) && r.Err? ==> Explains(r.error, scope, ids, orgs)
  {
    if scope == System {
      if |ids| > 0 { return Err(SystemWithTargets); }
      return Ok(());
    }
    if |ids| == 0 { return Err(NoTargets); }
    DistinctBySize(ids);
    if |set id | id in ids| != |ids| { return Err(DuplicateTargets); }
    hide PathKept, AllDistinct, Unrelated, Explains, Stands;

    var targets := LookUpTargets(ids, orgs);
    if targets.Err? { return Err(targets.error); }
    r := RequireUnrelated(ids, orgs, targets.value);
    if r.Ok? && DirectoryKept(orgs) { PairwiseIsAcceptable(ids, orgs, targets.value); }
  }

  /** The organizations of the identifiers, or the first one that is unavailable or disabled. */
  method LookUpTargets(ids: seq<string>, orgs: seq<Organization>) returns (r: Result<seq<Organization>, TargetError>)
    requires AllDistinct(ids)
    ensures r.Ok? ==>
              && |r.value| == |ids|
              && forall i | 0 <= i < |ids| ::
                   var o := r.value[i]; o in orgs && o.id == ids[i] && !o.isDeleted && o.enabled
    ensures r.Ok? ==> forall id | id in ids :: Available(id, orgs)
    ensures r.Err? ==> r.error.Unavailable? || r.error.DisabledTarget?
    ensures DirectoryKept(orgs) && r.Ok? ==> forall i | 0 <= i < |ids| :: Stands(ids[i], orgs, true)
    ensures DirectoryKept(orgs) && r.Err? ==>
              Explains(r.error, Organizations, ids, orgs) && exists id | id in ids :: !Available(id, orgs)
  {
    hide PathKept, ById, AllDistinct, Unrelated, Explains, Stands;
    var byId := ById(orgs);
    forall o | DirectoryKept(orgs) && o in orgs ensures byId[o.id] == o { ByIdUnique(orgs, o); }
    var targets: seq<Organization> := [];
    for k := 0 to |ids|
      invariant |targets| == k
      invariant forall i | 0 <= i < k ::
          targets[i] in orgs && targets[i].id == ids[i] && !targets[i].isDeleted && targets[i].enabled
      invariant DirectoryKept(orgs) ==> forall i | 0 <= i < k :: Stands(ids[i], orgs, true)
    {
      assert ids[k] in ids;
      if DirectoryKept(orgs) {
        FirstBadExplained(ids, orgs, k);
        LookedUp(ids[k], orgs, true);
      }
      if ids[k] !in byId || byId[ids[k]].isDeleted { return Err(Unavailable(ids[k])); }
      if !byId[ids[k]].enabled { return Err(DisabledTarget(ids[k])); }
      targets := targets + [byId[ids[k]]];
    }
    return Ok(targets);
  }

  /** Compares the targets in pairs. */
  method RequireUnrelated(ids: seq<string>, orgs: seq<Organization>, targets: seq<Organization>)
    returns (r: Result<(), TargetError>)
    requires AllDistinct(ids) && |targets| == |ids|
    requires forall i | 0 <= i < |ids| :: targets[i] in orgs && targets[i].id == ids[i]
    requires DirectoryKept(orgs) ==> forall i | 0 <= i < |ids| :: Stands(ids[i], orgs, true)
    ensures r.Err? ==> r.error.RelatedTargets? || r.error.BadPath?
    ensures DirectoryKept(orgs) ==>
              (r.Ok? <==> forall i, j | 0 <= i < j < |targets| :: Unrelated(targets[i], targets[j]))
    ensures DirectoryKept(orgs) && r.Err? ==>
              && r.error == RelatedTargets && Explains(r.error, Organizations, ids, orgs)
              && !Acceptable(Organizations, ids, orgs)
  {
    hide PathKept, Segments, Covers, AllDistinct, Unrelated, Explains, Stands, Available;
    var left := 0;
    while left < |targets|
      invariant 0 <= left <= |targets|
      invariant DirectoryKept(orgs)
          ==> forall i, j | 0 <= i < left && i < j < |targets| :: Unrelated(targets[i], targets[j])
    {
      var right := left + 1;
      while right < |targets|
        invariant left < right <= |targets|
        invariant DirectoryKept(orgs) ==> forall j | left < j < right :: Unrelated(targets[left], targets[j])
      {
        var first, second := targets[left], targets[right];
        var down := Covers(first, second);
        assert first.id != second.id by { DistinctAt(ids, left, right); }
        if DirectoryKept(orgs) {
          PairDecided(orgs, first, second);
          assert ids[left] in ids && ids[right] in ids;
          if !Unrelated(first, second) { RelatedExplained(ids, orgs, first, second); }
        }
        if down.Err? { return Err(BadPath(down.error)); }
        if down.value { return Err(RelatedTargets); }
        var up := Covers(second, first);
        if up.Err? { return Err(BadPath(up.error)); }
        if up.value { return Err(RelatedTargets); }
        right := right + 1;
      }
      left := left + 1;
    }
    return Ok(());
  }

  lemma DistinctAt(ids: seq<string>, i: nat, j: nat)
    requires AllDistinct(ids) && i < j < |ids|
    ensures ids[i] != ids[j]
  {
  }

  lemma DistinctBySize(ids: seq<string>)
    ensures |set id | id in ids| == |ids| <==> AllDistinct(ids)
  {
    if ids != [] {
      var front, last := ids[..|ids| - 1], ids[|ids| - 1];
      DistinctBySize(front);
      DistinctAtMost(front);
      assert (set id | id in ids) == (set id | id in front) + {last};
      if last in front {
        assert (set id | id in ids) == set id | id in front;
        var i :| 0 <= i < |front| && front[i] == last;
        assert ids[i] == ids[|ids| - 1];
      } else {
        assert AllDistinct(front) ==> AllDistinct(ids);
        assert AllDistinct(ids)
            ==> forall i, j | 0 <= i < j < |front| :: front[i] == ids[i] && front[j] == ids[j] && front[i] != front[j];
      }
    }
  }

  lemma {:induction false} DistinctAtMost(ids: seq<string>)
    ensures |set id | id in ids| <= |ids|
  {
    if ids != [] {
      var front, last := ids[..|ids| - 1], ids[|ids| - 1];
      DistinctAtMost(front);
      assert (set id | id in ids) == (set id | id in front) + {last};
    }
  }

  lemma PairDecided(orgs: seq<Organization>, a: Organization, b: Organization)
    requires DirectoryKept(orgs) && a in orgs && b in orgs && a.id != b.id
    ensures Covers(a, b).Ok? && Covers(b, a).Ok?
    ensures Unrelated(a, b) <==> !Covers(a, b).value && !Covers(b, a).value
  {
    CoversIsStrictPrefix(a, b);
    CoversIsStrictPrefix(b, a);
    CoversIsPrefix(orgs, a, b);
    CoversIsPrefix(orgs, b, a);
  }

  lemma PairwiseIsAcceptable(ids: seq<string>, orgs: seq<Organization>, targets: seq<Organization>)
    requires DirectoryKept(orgs) && ids != [] && AllDistinct(ids) && |targets| == |ids|
    requires forall i | 0 <= i < |ids| ::
        targets[i] in orgs && targets[i].id == ids[i] && !targets[i].isDeleted && targets[i].enabled
    requires forall i, j | 0 <= i < j < |targets| :: Unrelated(targets[i], targets[j])
    ensures Acceptable(Organizations, ids, orgs)
  {
    forall a, b | a in orgs && b in orgs && a.id in ids && b.id in ids && a != b ensures Unrelated(a, b) {
      var i :| 0 <= i < |ids| && ids[i] == a.id;
      var j :| 0 <= j < |ids| && ids[j] == b.id;
      ByIdUnique(orgs, a); ByIdUnique(orgs, targets[i]);
      ByIdUnique(orgs, b); ByIdUnique(orgs, targets[j]);
      assert targets[i] == a && targets[j] == b;
      if i < j { assert Unrelated(targets[i], targets[j]); } else { assert Unrelated(targets[j], targets[i]); }
    }
  }

  /** Accepted targets never overlap: at most one of them covers any given organization. */
  lemma AtMostOneTargetCovers(
    ids: seq<string>, orgs: seq<Organization>, a: Organization, b: Organization, c: Organization)
    requires DirectoryKept(orgs) && Acceptable(Organizations, ids, orgs)
    requires a in orgs && b in orgs && c in orgs && a.id in ids && b.id in ids
    ensures OrganizationCovers(a, c) == Ok(true) && OrganizationCovers(b, c) == Ok(true) ==> a == b
  {
    hide OrganizationCovers, PathKept, PathOf, Segments;
    CoversIsPrefix(orgs, a, c);
    CoversIsPrefix(orgs, b, c);
    if Segments(a) <= Segments(c) && Segments(b) <= Segments(c) {
      PrefixesComparable(Segments(a), Segments(b), Segments(c));
    }
  }

  // ----- The announcements

  datatype Status = Draft | Published | Removed

  datatype Announcement = Announcement(
    title: string,
    content: string,
    scope: Scope,
    targets: seq<string>,
    status: Status,
    publishedAt: Option<int>,
    expiresAt: Option<int>,
    isDeleted: bool)

  datatype Change = Change(
    title: Option<string>,
    content: Option<string>,
    scope: Option<Scope>,
    targets: Option<seq<string>>,
    expiresAt: Option<Option<int>>)

  datatype Failure = NotFound | NotDraft | NotPublished | BadTargets(reason: TargetError) | AlreadyExpired
                   | OrganizationNotFound | OrganizationDisabled | UnreadablePath

  function Or<T>(o: Option<T>, default: T): T { if o.Some? then o.value else default }

  /** A change keeps what it does not mention; the system scope drops every target. */
  function Resolve(current: Announcement, change: Change): Announcement {
    var scope := Or(change.scope, current.scope);
    current.(
      title := Or(change.title, current.title),
      content := Or(change.content, current.content),
      scope := scope,
      targets := if scope == System then [] else Or(change.targets, current.targets),
      expiresAt := Or(change.expiresAt, current.expiresAt))
  }

  /** What a change mentions is as it says, what it does not mention is as it was, and status and time stay. */
  lemma ResolvedMeans(current: Announcement, change: Change)
    ensures var next := Resolve(current, change);
            && (forall x | change.title == Some(x) :: next.title == x)
            && (change.title == None ==> next.title == current.title)
            && (forall x | change.content == Some(x) :: next.content == x)
            && (change.content == None ==> next.content == current.content)
            && (forall x | change.scope == Some(x) :: next.scope == x)
            && (change.scope == None ==> next.scope == current.scope)
            && (forall x | change.expiresAt == Some(x) :: next.expiresAt == x)
            && (change.expiresAt == None ==> next.expiresAt == current.expiresAt)
            && (next.scope.System? ==> next.targets == [])
            && (next.scope.Organizations? ==>
                  && (forall x | change.targets == Some(x) :: next.targets == x)
                  && (change.targets == None ==> next.targets == current.targets))
            && next.status == current.status && next.publishedAt == current.publishedAt
            && next.isDeleted == current.isDeleted
  {
  }

  predicate IsCurrent(a: Announcement, now: int) {
    !a.isDeleted && a.status == Published && (a.expiresAt.Some? ==> a.expiresAt.value > now)
  }

  /** What the life cycle keeps true of every announcement. */
  predicate Kept(a: Announcement) {
    && (a.status == Published <==> a.publishedAt.Some?)
    && (a.status == Removed <==> a.isDeleted)
    && (a.scope == System ==> a.targets == [])
    && (a.publishedAt.Some? && a.expiresAt.Some? ==> a.publishedAt.value < a.expiresAt.value)
  }

  /** In the life cycle, what is current has a time of publication and has not come to its expiry. */
  lemma CurrentIff(a: Announcement, now: int)
    requires Kept(a)
    ensures IsCurrent(a, now) <==> a.publishedAt != None && forall t | a.expiresAt == Some(t) :: now < t
  {
  }

  /** Whether a record is shown to members of `current`: `Err` when a stored path is unreadable. */
  function Shown(a: Announcement, byId: map<string, Organization>, current: Organization): Result<bool, PathError> {
    if a.scope == System then Ok(true) else SomeTargetCovers(a.targets, byId, current)
  }

  function SomeTargetCovers(
    ids: seq<string>, byId: map<string, Organization>, current: Organization): Result<bool, PathError>
  {
    if ids == [] then Ok(false)
    else if ids[0] !in byId then SomeTargetCovers(ids[1..], byId, current)
    else
      match OrganizationCovers(byId[ids[0]], current)
      case Err(e) => Err(e)
      case Ok(true) => Ok(true)
      case Ok(false) => SomeTargetCovers(ids[1..], byId, current)
  }

  /** An organization target reaches `current` exactly when its path is a prefix of the current path. */
  ghost predicate Reaches(a: Announcement, orgs: seq<Organization>, current: Organization)
    requires DirectoryKept(orgs) && current in orgs
  {
    || a.scope == System
    || exists o | o in orgs :: o.id in a.targets && Segments(o) <= Segments(current)
  }

  /** A list of targets covers an organization exactly when a target path is a prefix of its path. */
  lemma {:induction false} ShownIffReached(ids: seq<string>, orgs: seq<Organization>, current: Organization)
    requires DirectoryKept(orgs) && current in orgs
    ensures SomeTargetCovers(ids, ById(orgs), current)
         == Ok(exists o | o in orgs :: o.id in ids && Segments(o) <= Segments(current))
  {
    hide PathKept, OrganizationCovers, Segments, ById;
    if ids != [] {
      ShownIffReached(ids[1..], orgs, current);
      assert forall id :: id in ids <==> id == ids[0] || id in ids[1..];
      if ids[0] in ById(orgs) {
        var o := ById(orgs)[ids[0]];
        CoversIsPrefix(orgs, o, current);
        forall p | p in orgs && p.id == ids[0] ensures p == o { ByIdUnique(orgs, p); }
      }
    }
  }

  /** An announcement is shown exactly to those it reaches. */
  lemma ShownMeaning(a: Announcement, orgs: seq<Organization>, current: Organization)
    requires DirectoryKept(orgs) && current in orgs
    ensures Shown(a, ById(orgs), current) == Ok(Reaches(a, orgs, current))
  {
    hide ById, PathKept, SomeTargetCovers;
    ShownIffReached(a.targets, orgs, current);
  }

  /** Published later, or at the same time with the greater identifier. */
  predicate Newer(announcements: seq<Announcement>, a: nat, b: nat) {
    && a < |announcements| && b < |announcements|
    && announcements[a].publishedAt.Some? && announcements[b].publishedAt.Some?
    && var x, y := announcements[a].publishedAt.value, announcements[b].publishedAt.value;
       x > y || (x == y && a > b)
  }

  /** Published announcements are ordered by time and then by identifier, the greater first. */
  lemma NewerOrders(announcements: seq<Announcement>, a: nat, b: nat)
    requires a < |announcements| && b < |announcements|
    requires announcements[a].publishedAt.Some? && announcements[b].publishedAt.Some?
    ensures Newer(announcements, a, b)
        ==> announcements[a].publishedAt.value >= announcements[b].publishedAt.value && a != b
    ensures announcements[a].publishedAt.value > announcements[b].publishedAt.value ==> Newer(announcements, a, b)
    ensures announcements[a].publishedAt == announcements[b].publishedAt ==> (Newer(announcements, a, b) <==> a > b)
  {
  }

  ghost predicate NewestFirst(announcements: seq<Announcement>, ids: seq<nat>) {
    forall i, j | 0 <= i < j < |ids| :: Newer(announcements, ids[i], ids[j])
  }

  predicate CurrentAt(announcements: seq<Announcement>, id: nat, now: int) {
    id < |announcements| && IsCurrent(announcements[id], now)
  }

  /** `rows` answers the query for what is current at `now`: every such announcement, newest first. */
  ghost predicate CurrentRows(announcements: seq<Announcement>, rows: seq<nat>, now: int) {
    && (forall id: nat :: id in rows <==> CurrentAt(announcements, id, now))
    && NewestFirst(announcements, rows)
  }

  /** Where identifiers are in order, a new one has its place: before all it is newer than. */
  function Place(announcements: seq<Announcement>, ids: seq<nat>, id: nat): seq<nat> {
    if ids == [] then [id]
    else if Newer(announcements, id, ids[0]) then [id] + ids
    else [ids[0]] + Place(announcements, ids[1..], id)
  }

  lemma {:induction false} PlaceKeepsOrder(announcements: seq<Announcement>, ids: seq<nat>, id: nat)
    requires NewestFirst(announcements, ids) && id !in ids
    requires id < |announcements| && announcements[id].publishedAt.Some?
    requires forall i | 0 <= i < |ids| :: ids[i] < |announcements| && announcements[ids[i]].publishedAt.Some?
    ensures NewestFirst(announcements, Place(announcements, ids, id))
    ensures forall x :: x in Place(announcements, ids, id) <==> x == id || x in ids
    decreases |ids|
  {
    if ids != [] {
      var placed := Place(announcements, ids[1..], id);
      PlaceKeepsOrder(announcements, ids[1..], id);
      assert forall x :: x in ids <==> x == ids[0] || x in ids[1..];
      if !Newer(announcements, id, ids[0]) {
        assert Newer(announcements, ids[0], id);
        forall k | 0 <= k < |placed| ensures Newer(announcements, ids[0], placed[k]) {
          assert placed[k] in placed;
          if placed[k] != id {
            var j :| 0 <= j < |ids[1..]| && ids[1..][j] == placed[k];
            assert ids[j + 1] == placed[k];
          }
        }
      }
    }
  }

  /** As the life cycle gives every published announcement its time, the query has an answer at any time. */
  lemma {:induction false} CurrentRowsExist(
    announcements: seq<Announcement>, now: int, upTo: nat) returns (rows: seq<nat>)
    requires upTo <= |announcements| && forall i | 0 <= i < |announcements| :: Kept(announcements[i])
    ensures forall id: nat :: id in rows <==> id < upTo && CurrentAt(announcements, id, now)
    ensures NewestFirst(announcements, rows)
    ensures upTo == |announcements| ==> CurrentRows(announcements, rows, now)
    decreases upTo
  {
    if upTo == 0 {
      rows := [];
    } else {
      rows := CurrentRowsExist(announcements, now, upTo - 1);
      forall i | 0 <= i < |rows| ensures rows[i] < |announcements| && announcements[rows[i]].publishedAt.Some? {
        assert rows[i] in rows && CurrentAt(announcements, rows[i], now);
        assert Kept(announcements[rows[i]]);
      }
      if CurrentAt(announcements, upTo - 1, now) {
        assert Kept(announcements[upTo - 1]);
        PlaceKeepsOrder(announcements, rows, upTo - 1);
        rows := Place(announcements, rows, upTo - 1);
      }
    }
  }

  /** The loop over the rows: those that reach the current organization, in their order. */
  method VisibleRows(
    announcements: seq<Announcement>, rows: seq<nat>, orgs: seq<Organization>, current: Organization, now: int)
    returns (visible: Option<seq<nat>>)
    requires DirectoryKept(orgs) && current in orgs && CurrentRows(announcements, rows, now)
    ensures visible.Some? && NewestFirst(announcements, visible.value)
    ensures forall id: nat ::
        id in visible.value <==> CurrentAt(announcements, id, now) && Reaches(announcements[id], orgs, current)
  {
    hide PathKept, ById, Shown, Reaches, Newer, IsCurrent;
    var byId := ById(orgs);
    var shown: seq<nat> := [];
    forall k | 0 <= k < |rows| ensures rows[k] < |announcements| {
      assert rows[k] in rows && CurrentAt(announcements, rows[k], now);
    }
    for i := 0 to |rows|
      invariant forall id | id in shown :: id in rows[..i] && Reaches(announcements[id], orgs, current)
      invariant forall k | 0 <= k < i && Reaches(announcements[rows[k]], orgs, current) :: rows[k] in shown
      invariant forall k, j | 0 <= k < |shown| && i <= j < |rows| :: Newer(announcements, shown[k], rows[j])
      invariant NewestFirst(announcements, shown)
    {
      var id := rows[i];
      ShownMeaning(announcements[id], orgs, current);
      var yes := Shown(announcements[id], byId, current);
      if yes.Err? { return None; }
      assert rows[..i + 1] == rows[..i] + [id];
      if yes.value { shown := shown + [id]; }
    }
    return Some(shown);
  }

  function RecordsOf(announcements: seq<Announcement>, ids: seq<nat>): (records: seq<Announcement>)
    requires forall id | id in ids :: id < |announcements|
    ensures |records| == |ids|
    ensures forall i | 0 <= i < |ids| :: ids[i] in ids && records[i] == announcements[ids[i]]
  {
    seq(|ids|, i requires 0 <= i < |ids| && ids[i] in ids => announcements[ids[i]])
  }

  /** A page is at most `pageSize` consecutive elements, starting after the earlier pages. */
  function Page<T>(xs: seq<T>, page: nat, pageSize: nat): (items: seq<T>)
    requires page >= 1
    ensures |items| <= pageSize
    ensures var start := (page - 1) * pageSize;
            forall i | 0 <= i < |items| :: start + i < |xs| && items[i] == xs[start + i]
    ensures var start := (page - 1) * pageSize; start + pageSize <= |xs| ==> |items| == pageSize
  {
    var start: nat := (page - 1) * pageSize;
    if start >= |xs| then []
    else if start + pageSize >= |xs| then xs[start..] else xs[start..start + pageSize]
  }

  class AnnouncementRepository {
    var announcements: seq<Announcement>
    var organizations: seq<Organization>

    ghost predicate Valid()
      reads this
    {
      DirectoryKept(organizations) && forall i | 0 <= i < |announcements| :: Kept(announcements[i])
    }

    constructor (organizations: seq<Organization>)
      requires DirectoryKept(organizations)
      ensures Valid() && announcements == [] && this.organizations == organizations
    {
      this.organizations := organizations;
      announcements := [];
    }

    /** Organizations are moved, disabled and deleted elsewhere. */
    method ReplaceDirectory(organizations: seq<Organization>)
      requires Valid() && DirectoryKept(organizations)
      modifies this`organizations
      ensures Valid() && this.organizations == organizations
    {
      this.organizations := organizations;
    }

    /** A new announcement is a draft, and only with acceptable targets. */
    method Create(title: string, content: string, scope: Scope, targets: seq<string>, expiresAt: Option<int>)
      returns (r: Result<nat, Failure>)
      requires Valid()
      modifies this`announcements
      ensures Valid()
      ensures r.Ok? <==> Acceptable(scope, targets, organizations)
      ensures r.Ok? ==> r.value == |old(announcements)|
      ensures r.Ok? ==>
                var draft := Announcement(title, content, scope, targets, Draft, None, expiresAt, false);
                announcements == old(announcements) + [draft]
      ensures r.Err? ==> announcements == old(announcements)
    {
      var checked := ValidateAnnouncementTargets(scope, targets, organizations);
      if checked.Err? { return Err(BadTargets(checked.error)); }
      var id := |announcements|;
      announcements := announcements + [Announcement(title, content, scope, targets, Draft, None, expiresAt, false)];
      return Ok(id);
    }

    /** The live record with an identifier. */
    function Live(id: nat): (live: Option<Announcement>)
      reads this
      ensures forall a :: live == Some(a) <==> id < |announcements| && announcements[id] == a && !a.isDeleted
    {
      if id < |announcements| && !announcements[id].isDeleted then Some(announcements[id]) else None
    }

    method Update(id: nat, change: Change) returns (r: Result<(), Failure>)
      requires Valid()
      modifies this`announcements
      ensures Valid()
      ensures r.Ok? <==>
        && old(Live(id)).Some? && old(Live(id)).value.status == Draft
        && var next := Resolve(old(Live(id)).value, change); Acceptable(next.scope, next.targets, organizations)
      ensures r.Ok? ==> announcements == old(announcements)[id := Resolve(old(Live(id)).value, change)]
      ensures r.Err? ==> announcements == old(announcements)
      ensures r == Err(NotFound) <==> id >= |announcements| || old(announcements)[id].status == Removed
      ensures r == Err(NotDraft) <==> id < |announcements| && old(announcements)[id].status == Published
    {
      var found := Live(id);
      if found.None? { return Err(NotFound); }
      if found.value.status != Draft { return Err(NotDraft); }
      var next := Resolve(found.value, change);
      var checked := ValidateAnnouncementTargets(next.scope, next.targets, organizations);
      if checked.Err? { return Err(BadTargets(checked.error)); }
      announcements := announcements[id := next];
      return Ok(());
    }

    method Publish(id: nat, now: int) returns (r: Result<(), Failure>)
      requires Valid()
      modifies this`announcements
      ensures Valid()
      ensures r.Ok? <==>
        && old(Live(id)).Some? && old(Live(id)).value.status == Draft
        && Acceptable(old(Live(id)).value.scope, old(Live(id)).value.targets, organizations)
        && (old(Live(id)).value.expiresAt.Some? ==> old(Live(id)).value.expiresAt.value > now)
      ensures r.Ok? ==> announcements == old(announcements)[id :=
                old(Live(id)).value.(status := Published, publishedAt := Some(now))]
      ensures r.Ok? ==> IsCurrent(announcements[id], now)
      ensures r.Err? ==> announcements == old(announcements)
      ensures r == Err(NotFound) <==> id >= |announcements| || old(announcements)[id].status == Removed
      ensures r == Err(NotDraft) <==> id < |announcements| && old(announcements)[id].status == Published
      ensures r == Err(AlreadyExpired) <==>
        && id < |announcements| && old(announcements)[id].status == Draft
        && Acceptable(old(announcements)[id].scope, old(announcements)[id].targets, organizations)
        && old(announcements)[id].expiresAt.Some? && old(announcements)[id].expiresAt.value <= now
    {
      var found := Live(id);
      if found.None? { return Err(NotFound); }
      if found.value.status != Draft { return Err(NotDraft); }
      var checked := ValidateAnnouncementTargets(found.value.scope, found.value.targets, organizations);
      if checked.Err? { return Err(BadTargets(checked.error)); }
      if found.value.expiresAt.Some? && found.value.expiresAt.value <= now { return Err(AlreadyExpired); }
      announcements := announcements[id := found.value.(status := Published, publishedAt := Some(now))];
      return Ok(());
    }

    method Unpublish(id: nat) returns (r: Result<(), Failure>)
      requires Valid()
      modifies this`announcements
      ensures Valid()
      ensures r.Ok? <==> old(Live(id)).Some? && old(Live(id)).value.status == Published
      ensures r.Ok? ==> announcements == old(announcements)[id :=
                old(Live(id)).value.(status := Draft, publishedAt := None)]
      ensures r.Err? ==> announcements == old(announcements)
      ensures r == Err(NotFound) <==> id >= |announcements| || old(announcements)[id].status == Removed
      ensures r == Err(NotPublished) <==> id < |announcements| && old(announcements)[id].status == Draft
    {
      var found := Live(id);
      if found.None? { return Err(NotFound); }
      if found.value.status != Published { return Err(NotPublished); }
      announcements := announcements[id := found.value.(status := Draft, publishedAt := None)];
      return Ok(());
    }

    method Delete(id: nat) returns (r: Result<(), Failure>)
      requires Valid()
      modifies this`announcements
      ensures Valid()
      ensures r.Ok? <==> old(Live(id)).Some? && old(Live(id)).value.status == Draft
      ensures r.Ok? ==> announcements == old(announcements)[id :=
                old(Live(id)).value.(status := Removed, isDeleted := true)]
      ensures r.Err? ==> announcements == old(announcements)
      ensures r == Err(NotFound) <==> id >= |announcements| || old(announcements)[id].status == Removed
      ensures r == Err(NotDraft) <==> id < |announcements| && old(announcements)[id].status == Published
    {
      var found := Live(id);
      if found.None? { return Err(NotFound); }
      if found.value.status != Draft { return Err(NotDraft); }
      announcements := announcements[id := found.value.(status := Removed, isDeleted := true)];
      return Ok(());
    }

    /**
      One page of what members of an organization see at `now`: exactly the current announcements that
      reach it, newest first. `rows` is the database's answer to the query.
     */
    method ListCurrent(rows: seq<nat>, currentId: string, page: nat, pageSize: nat, now: int)
      returns (r: Result<(seq<Announcement>, nat), Failure>, ghost visible: seq<nat>)
      requires Valid() && page >= 1 && CurrentRows(announcements, rows, now)
      ensures r.Ok? <==> exists o | o in organizations :: o.id == currentId && !o.isDeleted && o.enabled
      ensures r == Err(OrganizationDisabled) <==>
                exists o | o in organizations :: o.id == currentId && !o.isDeleted && !o.enabled
      ensures r.Err? ==> r.error == OrganizationNotFound || r.error == OrganizationDisabled
      ensures r.Ok? ==> exists o | o in organizations && o.id == currentId ::
                forall id: nat ::
                  id in visible <==> CurrentAt(announcements, id, now) && Reaches(announcements[id], organizations, o)
      ensures NewestFirst(announcements, visible)
      ensures forall id | id in visible :: id < |announcements|
      ensures r.Ok? ==> r.value == (Page(RecordsOf(announcements, visible), page, pageSize), |visible|)
    {
      hide PathKept, ById, Reaches, Page, Newer, IsCurrent, NewestFirst, CurrentRows;
      visible := [];
      assert NewestFirst(announcements, []) by { NothingOrdered(announcements); }
      var byId := ById(organizations);
      forall o | o in organizations ensures o.id in byId && byId[o.id] == o { ByIdUnique(organizations, o); }
      if currentId !in byId || byId[currentId].isDeleted { return Err(OrganizationNotFound), []; }
      var current := byId[currentId];
      if !current.enabled { return Err(OrganizationDisabled), []; }
      var shown := VisibleRows(announcements, rows, organizations, current, now);
      if shown.None? { return Err(UnreadablePath), []; }
      visible := shown.value;
      forall id | id in visible ensures id < |announcements| { assert CurrentAt(announcements, id, now); }
      return Ok((Page(RecordsOf(announcements, shown.value), page, pageSize), |shown.value|)), visible;
    }
  }

  lemma NothingOrdered(announcements: seq<Announcement>)
    ensures NewestFirst(announcements, [])
  {
  }
}
