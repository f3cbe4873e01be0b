/**
  Canonical JSON and the activation projection: when two values have the same canonical form, and which
  edits an activation hash does not see.
 */
module CanonicalJson {
  import opened Wrappers
  import opened Ordering

  /**
    A JavaScript value; a finite number is known by its text, and `Unsupported` stands for functions, symbols
    and big integers.
   */
  datatype Json =
    | Null
    | Bool(flag: bool)
    | Num(digits: string)
    | Str(text: string)
    | Arr(items: seq<Json>)
    | Obj(members: seq<Keyed<Json>>)
    | Undefined
    | Unsupported

  // ----- The operations

  /** None where the program throws. */
  function Canonicalize(v: Json, le: Order): Option<Json>
    decreases v
  {
    match v
    case Arr(items) => (match CanonicalItems(items, le) case None => None case Some(canonical) => Some(Arr(canonical)))
    case Obj(members) =>
      (match CanonicalMembers(members, le)
       case None => None
       case Some(canonical) => Some(Obj(Sort(canonical, le))))
    case Undefined => None
    case Unsupported => None
    case _ => Some(v)
  }

  function CanonicalItems(items: seq<Json>, le: Order): Option<seq<Json>>
    decreases items
  {
    if items == [] then Some([])
    else
      match (Canonicalize(items[0], le), CanonicalItems(items[1..], le))
      case (Some(first), Some(rest)) => Some([first] + rest)
      case _ => None
  }

  /** Members that are undefined are dropped. */
  function CanonicalMembers(members: seq<Keyed<Json>>, le: Order): Option<seq<Keyed<Json>>>
    decreases members
  {
    if members == [] then Some([])
    else if members[0].value == Undefined then CanonicalMembers(members[1..], le)
    else
      match (Canonicalize(members[0].value, le), CanonicalMembers(members[1..], le))
      case (Some(first), Some(rest)) => Some([Keyed(members[0].key, first)] + rest)
      case _ => None
  }

  /** Removes the members with an ignored key, at any depth. */
  function Project(v: Json, ignored: set<string>): Json
    decreases v
  {
    match v
    case Arr(items) => Arr(ProjectItems(items, ignored))
    case Obj(members) => Obj(ProjectMembers(members, ignored))
    case _ => v
  }

  function ProjectItems(items: seq<Json>, ignored: set<string>): seq<Json>
    decreases items
  {
    if items == [] then [] else [Project(items[0], ignored)] + ProjectItems(items[1..], ignored)
  }

  function ProjectMembers(members: seq<Keyed<Json>>, ignored: set<string>): seq<Keyed<Json>>
    decreases members
  {
    if members == [] then []
    else
      (if members[0].key in ignored then [] else [Keyed(members[0].key, Project(members[0].value, ignored))])
      + ProjectMembers(members[1..], ignored)
  }

  // ----- What values mean

  predicate IsDigit(c: char) { '0' <= c <= '9' }

  predicate IsNumberChar(c: char) { IsDigit(c) || c == '-' || c == '+' || c == '.' || c == 'e' }

  /** The text of a finite number: a digit or a sign, and then digits, signs, a point or an exponent mark. */
  predicate NumberText(s: string) {
    s != "" && (IsDigit(s[0]) || s[0] == '-') && forall i | 0 <= i < |s| :: IsNumberChar(s[i])
  }

  /** Objects have one member per key, and numbers are texts of numbers, at every depth. */
  predicate WellFormed(v: Json)
    decreases v
  {
    match v
    case Arr(items) => forall i | 0 <= i < |items| :: WellFormed(items[i])
    case Obj(members) => DistinctKeys(members) && forall i | 0 <= i < |members| :: WellFormed(members[i].value)
    case Num(digits) => NumberText(digits)
    case _ => true
  }

  predicate Supported(v: Json)
    decreases v
  {
    match v
    case Arr(items) => forall i | 0 <= i < |items| :: Supported(items[i])
    case Obj(members) => forall i | 0 <= i < |members| :: members[i].value == Undefined || Supported(members[i].value)
    case Undefined => false
    case Unsupported => false
    case _ => true
  }

  predicate Visible(m: Keyed<Json>, ignored: set<string>) { m.key !in ignored && m.value != Undefined }

  predicate HasKey(members: seq<Keyed<Json>>, key: string) {
    exists i | 0 <= i < |members| :: members[i].key == key && members[i].value != Undefined
  }

  /** The same up to the order of members, undefined members and, at any depth, members with an ignored key. */
  predicate Same(a: Json, b: Json, ignored: set<string>)
    decreases a, 0
  {
    match a
    case Arr(items) =>
      b.Arr? && |b.items| == |items| && forall i | 0 <= i < |items| :: Same(items[i], b.items[i], ignored)
    case Obj(members) =>
      b.Obj?
      && (forall i | 0 <= i < |members| && Visible(members[i], ignored) ::
            SameMember(members[i].key, members[i].value, b.members, ignored))
      && (forall j | 0 <= j < |b.members| && Visible(b.members[j], ignored) :: HasKey(members, b.members[j].key))
    case _ => a == b
  }

  predicate SameMember(key: string, child: Json, others: seq<Keyed<Json>>, ignored: set<string>)
    decreases child, 1
  {
    exists j | 0 <= j < |others| ::
      others[j].key == key && others[j].value != Undefined && Same(child, others[j].value, ignored)
  }

  // ----- What the canonical members are

  /** The canonical member `m` comes from the member at `i`. */
  predicate Gives(members: seq<Keyed<Json>>, i: int, m: Keyed<Json>, le: Order) {
    && 0 <= i < |members|
    && members[i].value != Undefined
    && m.key == members[i].key
    && Canonicalize(members[i].value, le) == Some(m.value)
  }

  ghost predicate Given(members: seq<Keyed<Json>>, m: Keyed<Json>, le: Order) {
    exists i :: Gives(members, i, m, le)
  }

  lemma {:induction false} CanonicalMembersAre(members: seq<Keyed<Json>>, le: Order)
    requires CanonicalMembers(members, le).Some?
    ensures forall m :: m in CanonicalMembers(members, le).value <==> Given(members, m, le)
    ensures DistinctKeys(members) ==> DistinctKeys(CanonicalMembers(members, le).value)
    decreases |members|
  {
    if members != [] {
      var rest := members[1..];
      CanonicalMembersAre(rest, le);
      var c := CanonicalMembers(members, le).value;
      forall m ensures m in c <==> Given(members, m, le) { GivesTail(members, m, le); }
      if members[0].value != Undefined && DistinctKeys(members) {
        var tail := CanonicalMembers(rest, le).value;
        forall j | 0 <= j < |tail| ensures tail[j].key != members[0].key {
          assert tail[j] in tail && Given(rest, tail[j], le);
          var i :| Gives(rest, i, tail[j], le);
          assert rest[i] == members[i + 1];
        }
      }
    }
  }

  lemma GivesTail(members: seq<Keyed<Json>>, m: Keyed<Json>, le: Order)
    requires members != []
    ensures Given(members, m, le) <==> Gives(members, 0, m, le) || Given(members[1..], m, le)
  {
    if i :| Gives(members, i, m, le) {
      if i > 0 { assert Gives(members[1..], i - 1, m, le); }
    }
    if i :| Gives(members[1..], i, m, le) { assert Gives(members, i + 1, m, le); }
  }

  // ----- Which values are accepted

  /** Canonical form exists exactly for values made of JSON, where undefined may stand for a missing member. */
  lemma {:induction false} CanonicalIffSupported(v: Json, le: Order)
    ensures Canonicalize(v, le).Some? <==> Supported(v)
    decreases v
  {
    match v
    case Arr(items) => ItemsIffSupported(items, le);
    case Obj(members) => MembersIffSupported(members, le);
    case _ =>
  }

  lemma {:induction false} ItemsIffSupported(items: seq<Json>, le: Order)
    ensures CanonicalItems(items, le).Some? <==> forall i | 0 <= i < |items| :: Supported(items[i])
    ensures CanonicalItems(items, le).Some? ==>
              var c := CanonicalItems(items, le).value;
              |c| == |items| && forall i | 0 <= i < |items| :: Canonicalize(items[i], le) == Some(c[i])
    decreases items
  {
    if items != [] {
      CanonicalIffSupported(items[0], le);
      ItemsIffSupported(items[1..], le);
      assert forall i | 1 <= i < |items| :: items[i] == items[1..][i - 1];
    }
  }

  lemma {:induction false} MembersIffSupported(members: seq<Keyed<Json>>, le: Order)
    ensures CanonicalMembers(members, le).Some? <==>
              forall i | 0 <= i < |members| :: members[i].value == Undefined || Supported(members[i].value)
    decreases members
  {
    if members != [] {
      if members[0].value != Undefined { CanonicalIffSupported(members[0].value, le); }
      MembersIffSupported(members[1..], le);
      assert forall i | 1 <= i < |members| :: members[i] == members[1..][i - 1];
    }
  }

  // ----- Idempotence

  predicate IsCanonical(v: Json, le: Order) { v != Undefined && Canonicalize(v, le) == Some(v) }

  lemma {:induction false} CanonicalMembersStay(members: seq<Keyed<Json>>, le: Order)
    requires forall i | 0 <= i < |members| :: IsCanonical(members[i].value, le)
    ensures CanonicalMembers(members, le) == Some(members)
    decreases |members|
  {
    if members != [] {
      CanonicalMembersStay(members[1..], le);
      assert IsCanonical(members[0].value, le);
      assert [Keyed(members[0].key, members[0].value)] + members[1..] == members;
    }
  }

  lemma {:induction false} CanonicalItemsStay(items: seq<Json>, le: Order)
    requires forall i | 0 <= i < |items| :: IsCanonical(items[i], le)
    ensures CanonicalItems(items, le) == Some(items)
    decreases |items|
  {
    if items != [] {
      CanonicalItemsStay(items[1..], le);
      assert IsCanonical(items[0], le);
      assert [items[0]] + items[1..] == items;
    }
  }

  /** The canonical form of a canonical form is itself. */
  lemma {:induction false} CanonicalizeIdempotent(v: Json, le: Order)
    requires TotalOrder(le) && Canonicalize(v, le).Some?
    ensures IsCanonical(Canonicalize(v, le).value, le)
    decreases v
  {
    match v
    case Arr(items) =>
      ItemsIffSupported(items, le);
      var c := CanonicalItems(items, le).value;
      forall i | 0 <= i < |c| ensures IsCanonical(c[i], le) {
        assert Canonicalize(items[i], le) == Some(c[i]);
        CanonicalizeIdempotent(items[i], le);
      }
      CanonicalItemsStay(c, le);
    case Obj(members) =>
      var c := CanonicalMembers(members, le).value;
      CanonicalMembersAre(members, le);
      SortOrders(c, le);
      var sorted := Sort(c, le);
      forall k | 0 <= k < |sorted| ensures IsCanonical(sorted[k].value, le) {
        assert sorted[k] in multiset(c);
        assert sorted[k] in c && Given(members, sorted[k], le);
        var i :| Gives(members, i, sorted[k], le);
        CanonicalizeIdempotent(members[i].value, le);
      }
      CanonicalMembersStay(sorted, le);
      SortKeepsSorted(sorted, le);
    case _ =>
  }

  /** At any depth, members are in the order of their keys and none is undefined. */
  predicate InOrder(v: Json, le: Order)
    decreases v
  {
    match v
    case Arr(items) => forall i | 0 <= i < |items| :: InOrder(items[i], le)
    case Obj(members) =>
      && (forall i, j | 0 <= i < j < |members| :: le(members[i].key, members[j].key))
      && forall i | 0 <= i < |members| :: InOrder(members[i].value, le)
    case Undefined => false
    case Unsupported => false
    case _ => true
  }

  lemma {:induction false} CanonicalInOrder(v: Json, le: Order)
    requires TotalOrder(le) && Canonicalize(v, le).Some?
    ensures InOrder(Canonicalize(v, le).value, le)
    decreases v
  {
    match v
    case Arr(items) =>
      ItemsIffSupported(items, le);
      var c := CanonicalItems(items, le).value;
      forall i | 0 <= i < |c| ensures InOrder(c[i], le) {
        assert Canonicalize(items[i], le) == Some(c[i]);
        CanonicalInOrder(items[i], le);
      }
    case Obj(members) =>
      var c := CanonicalMembers(members, le).value;
      CanonicalMembersAre(members, le);
      SortOrders(c, le);
      var sorted := Sort(c, le);
      forall k | 0 <= k < |sorted| ensures InOrder(sorted[k].value, le) {
        assert sorted[k] in multiset(c);
        assert sorted[k] in c && Given(members, sorted[k], le);
        var i :| Gives(members, i, sorted[k], le);
        CanonicalInOrder(members[i].value, le);
      }
    case _ =>
  }

  // ----- Blind to the order of members, and to nothing else

  lemma {:induction false} DistinctCounts(xs: seq<Keyed<Json>>, m: Keyed<Json>)
    requires DistinctKeys(xs)
    ensures multiset(xs)[m] == if m in xs then 1 else 0
    decreases |xs|
  {
    if xs != [] {
      assert xs == [xs[0]] + xs[1..];
      DistinctCounts(xs[1..], m);
    }
  }

  lemma SameElementsSameMultiset(a: seq<Keyed<Json>>, b: seq<Keyed<Json>>)
    requires DistinctKeys(a) && DistinctKeys(b) && forall m :: m in a <==> m in b
    ensures multiset(a) == multiset(b)
  {
    forall m ensures multiset(a)[m] == multiset(b)[m] {
      DistinctCounts(a, m);
      DistinctCounts(b, m);
    }
  }

  /**
    Two values have the same canonical form exactly when they differ at most in the order of members and in
    undefined ones.
   */
  lemma {:induction false} CanonicalEqualIffSame(a: Json, b: Json, le: Order)
    requires TotalOrder(le) && WellFormed(a) && WellFormed(b) && Supported(a) && Supported(b)
    ensures Canonicalize(a, le) == Canonicalize(b, le) <==> Same(a, b, {})
    decreases a, 1
  {
    CanonicalIffSupported(a, le);
    CanonicalIffSupported(b, le);
    if a.Arr? && b.Arr? {
      ArraysEqualIffSame(a, b, le);
    } else if a.Obj? && b.Obj? {
      ObjectsEqualIffSame(a, b, le);
    }
  }

  lemma {:induction false} ArraysEqualIffSame(a: Json, b: Json, le: Order)
    requires TotalOrder(le) && WellFormed(a) && WellFormed(b) && Supported(a) && Supported(b) && a.Arr? && b.Arr?
    ensures Canonicalize(a, le) == Canonicalize(b, le) <==> Same(a, b, {})
    decreases a, 0
  {
    ItemsIffSupported(a.items, le);
    ItemsIffSupported(b.items, le);
    var x, y := CanonicalItems(a.items, le).value, CanonicalItems(b.items, le).value;
    if |a.items| == |b.items| {
      forall i | 0 <= i < |a.items| ensures x[i] == y[i] <==> Same(a.items[i], b.items[i], {}) {
        CanonicalEqualIffSame(a.items[i], b.items[i], le);
      }
      assert x == y <==> forall i | 0 <= i < |x| :: x[i] == y[i];
    }
  }

  lemma {:induction false} ObjectsEqualIffSame(a: Json, b: Json, le: Order)
    requires TotalOrder(le) && WellFormed(a) && WellFormed(b) && Supported(a) && Supported(b) && a.Obj? && b.Obj?
    ensures Canonicalize(a, le) == Canonicalize(b, le) <==> Same(a, b, {})
    decreases a, 0
  {
    MembersIffSupported(a.members, le);
    MembersIffSupported(b.members, le);
    CanonicalMembersAre(a.members, le);
    CanonicalMembersAre(b.members, le);
    ChildrenCanonical(a.members, le);
    ChildrenCanonical(b.members, le);
    var x, y := CanonicalMembers(a.members, le).value, CanonicalMembers(b.members, le).value;
    forall i, j | 0 <= i < |a.members| && 0 <= j < |b.members| && a.members[i].value != Undefined
      && b.members[j].value != Undefined
      ensures Canonicalize(a.members[i].value, le) == Canonicalize(b.members[j].value, le)
         <==> Same(a.members[i].value, b.members[j].value, {})
    {
      CanonicalEqualIffSame(a.members[i].value, b.members[j].value, le);
    }
    EqualIffSameMembers(a.members, b.members, x, y, le);
  }

  lemma EqualIffSameMembers(
    a: seq<Keyed<Json>>, b: seq<Keyed<Json>>, x: seq<Keyed<Json>>, y: seq<Keyed<Json>>, le: Order)
    requires TotalOrder(le) && DistinctKeys(a) && DistinctKeys(b) && DistinctKeys(x) && DistinctKeys(y)
    requires Decides(a, b, le) && AreCanonical(a, x, le) && AreCanonical(b, y, le)
    ensures Sort(x, le) == Sort(y, le) <==> Same(Obj(a), Obj(b), {})
  {
    hide Same, Decides, AreCanonical, TotalOrder, Sort, DistinctKeys;
    if Same(Obj(a), Obj(b), {}) {
      SameGivesSame(a, b, x, y, le);
      SameElementsSameMultiset(x, y);
      SortIgnoresOrder(x, y, le);
    }
    if Sort(x, le) == Sort(y, le) {
      SortOrders(x, le);
      SortOrders(y, le);
      assert forall m :: m in x <==> m in multiset(y);
      GivesSameIsSame(a, b, x, y, le);
    }
  }

  lemma ChildrenCanonical(members: seq<Keyed<Json>>, le: Order)
    requires Supported(Obj(members))
    ensures forall i | 0 <= i < |members| && members[i].value != Undefined :: Canonicalize(members[i].value, le).Some?
  {
    forall i | 0 <= i < |members| && members[i].value != Undefined ensures Canonicalize(members[i].value, le).Some? {
      CanonicalIffSupported(members[i].value, le);
    }
  }

  /** The canonical forms of two members decide whether the members are the same. */
  ghost predicate Decides(a: seq<Keyed<Json>>, b: seq<Keyed<Json>>, le: Order) {
    forall i, j | 0 <= i < |a| && 0 <= j < |b| && a[i].value != Undefined && b[j].value != Undefined ::
      Canonicalize(a[i].value, le) == Canonicalize(b[j].value, le) <==> Same(a[i].value, b[j].value, {})
  }

  ghost predicate AreCanonical(members: seq<Keyed<Json>>, x: seq<Keyed<Json>>, le: Order) {
    && (forall m :: m in x <==> Given(members, m, le))
    && (forall i | 0 <= i < |members| && members[i].value != Undefined :: Canonicalize(members[i].value, le).Some?)
  }

  lemma SameGivesSame(a: seq<Keyed<Json>>, b: seq<Keyed<Json>>, x: seq<Keyed<Json>>, y: seq<Keyed<Json>>, le: Order)
    requires Decides(a, b, le) && AreCanonical(a, x, le) && AreCanonical(b, y, le) && DistinctKeys(b)
    requires Same(Obj(a), Obj(b), {})
    ensures forall m :: m in x <==> m in y
  {
    hide Same, Decides;
    forall m | m in x ensures m in y {
      assert Given(a, m, le);
      var i :| Gives(a, i, m, le);
      MatchingMember(a, b, i, le);
      var j :| Matches(a, i, b, j, le);
      assert Gives(b, j, m, le);
      assert Given(b, m, le);
    }
    forall m | m in y ensures m in x {
      assert Given(b, m, le);
      var j :| Gives(b, j, m, le);
      MatchedMember(a, b, j, le);
      var i :| Matches(a, i, b, j, le);
      assert Gives(a, i, m, le);
      assert Given(a, m, le);
    }
  }

  /** Members of one key whose children have the same canonical form. */
  predicate Matches(a: seq<Keyed<Json>>, i: int, b: seq<Keyed<Json>>, j: int, le: Order) {
    && 0 <= i < |a| && 0 <= j < |b| && a[i].key == b[j].key
    && a[i].value != Undefined && b[j].value != Undefined
    && Canonicalize(a[i].value, le) == Canonicalize(b[j].value, le)
  }

  lemma MatchingMember(a: seq<Keyed<Json>>, b: seq<Keyed<Json>>, i: nat, le: Order)
    requires Decides(a, b, le) && Same(Obj(a), Obj(b), {}) && i < |a| && a[i].value != Undefined
    ensures exists j :: Matches(a, i, b, j, le)
  {
    assert SameMember(a[i].key, a[i].value, b, {}) by { assert Visible(a[i], {}); }
    hide Same, Canonicalize;
    var j :| 0 <= j < |b| && b[j].key == a[i].key && b[j].value != Undefined && Same(a[i].value, b[j].value, {});
    assert Matches(a, i, b, j, le);
  }

  lemma MatchedMember(a: seq<Keyed<Json>>, b: seq<Keyed<Json>>, j: nat, le: Order)
    requires Decides(a, b, le) && Same(Obj(a), Obj(b), {}) && DistinctKeys(b) && j < |b| && b[j].value != Undefined
    ensures exists i :: Matches(a, i, b, j, le)
  {
    assert HasKey(a, b[j].key) by { assert Visible(b[j], {}); }
    hide Same, Canonicalize, Decides;
    var i :| 0 <= i < |a| && a[i].key == b[j].key && a[i].value != Undefined;
    MatchingMember(a, b, i, le);
    var k :| Matches(a, i, b, k, le);
    assert k == j;
  }

  lemma GivesSameIsSame(a: seq<Keyed<Json>>, b: seq<Keyed<Json>>, x: seq<Keyed<Json>>, y: seq<Keyed<Json>>, le: Order)
    requires Decides(a, b, le) && AreCanonical(a, x, le) && AreCanonical(b, y, le)
    requires forall m :: m in x <==> m in y
    ensures Same(Obj(a), Obj(b), {})
  {
    forall i | 0 <= i < |a| && Visible(a[i], {}) ensures SameMember(a[i].key, a[i].value, b, {}) {
      var m := Keyed(a[i].key, Canonicalize(a[i].value, le).value);
      assert Gives(a, i, m, le);
      assert Given(a, m, le) && m in x && m in y && Given(b, m, le);
      var j :| Gives(b, j, m, le);
      hide Same, Canonicalize;
    }
    forall j | 0 <= j < |b| && Visible(b[j], {}) ensures HasKey(a, b[j].key) {
      var m := Keyed(b[j].key, Canonicalize(b[j].value, le).value);
      assert Gives(b, j, m, le);
      assert Given(b, m, le) && m in y && m in x && Given(a, m, le);
      var i :| Gives(a, i, m, le);
    }
  }

  // ----- Projection

  /** The projected member `m` comes from the member at `i`. */
  predicate Projects(members: seq<Keyed<Json>>, i: int, m: Keyed<Json>, ignored: set<string>) {
    0 <= i < |members| && members[i].key !in ignored && m == Keyed(members[i].key, Project(members[i].value, ignored))
  }

  ghost predicate Projected(members: seq<Keyed<Json>>, m: Keyed<Json>, ignored: set<string>) {
    exists i :: Projects(members, i, m, ignored)
  }

  lemma ProjectedTail(members: seq<Keyed<Json>>, m: Keyed<Json>, ignored: set<string>)
    requires members != []
    ensures Projected(members, m, ignored) <==> Projects(members, 0, m, ignored) || Projected(members[1..], m, ignored)
  {
    if i :| Projects(members, i, m, ignored) {
      if i > 0 { assert Projects(members[1..], i - 1, m, ignored); }
    }
    if i :| Projects(members[1..], i, m, ignored) { assert Projects(members, i + 1, m, ignored); }
  }

  lemma {:induction false} ProjectMembersAre(members: seq<Keyed<Json>>, ignored: set<string>)
    ensures forall m :: m in ProjectMembers(members, ignored) <==> Projected(members, m, ignored)
    ensures DistinctKeys(members) ==> DistinctKeys(ProjectMembers(members, ignored))
    decreases |members|
  {
    if members != [] {
      var rest, p := members[1..], ProjectMembers(members, ignored);
      ProjectMembersAre(rest, ignored);
      forall m ensures m in p <==> Projected(members, m, ignored) { ProjectedTail(members, m, ignored); }
      if DistinctKeys(members) {
        var tail := ProjectMembers(rest, ignored);
        forall j | 0 <= j < |tail| ensures tail[j].key != members[0].key {
          assert tail[j] in tail && Projected(rest, tail[j], ignored);
          var i :| Projects(rest, i, tail[j], ignored);
          assert rest[i] == members[i + 1];
        }
      }
    }
  }

  lemma {:induction false} ProjectItemsAre(items: seq<Json>, ignored: set<string>)
    ensures |ProjectItems(items, ignored)| == |items|
    ensures forall i | 0 <= i < |items| :: ProjectItems(items, ignored)[i] == Project(items[i], ignored)
    decreases |items|
  {
    if items != [] { ProjectItemsAre(items[1..], ignored); }
  }

  /** Projecting keeps objects well formed and values supported. */
  lemma {:induction false} ProjectKeeps(v: Json, ignored: set<string>)
    requires WellFormed(v)
    ensures WellFormed(Project(v, ignored)) && (Supported(v) ==> Supported(Project(v, ignored)))
    ensures Project(v, ignored) == Undefined <==> v == Undefined
    decreases v
  {
    match v
    case Arr(items) =>
      ProjectItemsAre(items, ignored);
      forall i | 0 <= i < |items|
        ensures WellFormed(Project(items[i], ignored))
        ensures Supported(items[i]) ==> Supported(Project(items[i], ignored))
      {
        ProjectKeeps(items[i], ignored);
      }
    case Obj(members) =>
      ProjectMembersAre(members, ignored);
      var p := ProjectMembers(members, ignored);
      forall k | 0 <= k < |p|
        ensures WellFormed(p[k].value) && (Supported(v) ==> p[k].value == Undefined || Supported(p[k].value))
      {
        assert p[k] in p && Projected(members, p[k], ignored);
        var i :| Projects(members, i, p[k], ignored);
        ProjectKeeps(members[i].value, ignored);
      }
    case _ =>
  }

  /** Projections are the same exactly when the values are, ignored members aside. */
  lemma {:induction false} ProjectionsSameIff(a: Json, b: Json, ignored: set<string>)
    requires WellFormed(a) && WellFormed(b)
    ensures Same(Project(a, ignored), Project(b, ignored), {}) <==> Same(a, b, ignored)
    decreases a, 1
  {
    if a.Arr? && b.Arr? {
      ProjectItemsAre(a.items, ignored);
      ProjectItemsAre(b.items, ignored);
      if |a.items| == |b.items| {
        forall i | 0 <= i < |a.items|
          ensures Same(ProjectItems(a.items, ignored)[i], ProjectItems(b.items, ignored)[i], {})
              <==> Same(a.items[i], b.items[i], ignored)
        {
          ProjectionsSameIff(a.items[i], b.items[i], ignored);
        }
      }
    } else if a.Obj? && b.Obj? {
      ObjectProjectionsSameIff(a, b, ignored);
    }
  }

  lemma {:induction false} ObjectProjectionsSameIff(a: Json, b: Json, ignored: set<string>)
    requires WellFormed(a) && WellFormed(b) && a.Obj? && b.Obj?
    ensures Same(Project(a, ignored), Project(b, ignored), {}) <==> Same(a, b, ignored)
    decreases a, 0
  {
    var x, y := ProjectMembers(a.members, ignored), ProjectMembers(b.members, ignored);
    forall i, j | 0 <= i < |a.members| && 0 <= j < |b.members|
      ensures Same(Project(a.members[i].value, ignored), Project(b.members[j].value, ignored), {})
         <==> Same(a.members[i].value, b.members[j].value, ignored)
    {
      ProjectionsSameIff(a.members[i].value, b.members[j].value, ignored);
    }
    assert ProjectionDecides(a.members, b.members, ignored);
    AreProjections(a.members, ignored);
    AreProjections(b.members, ignored);
    hide ProjectionDecides, AreProjected;
    ProjectedMembersSameIff(a.members, b.members, x, y, ignored);
  }

  /** `x` holds the projections of the members, undefined ones included. */
  ghost predicate AreProjected(members: seq<Keyed<Json>>, x: seq<Keyed<Json>>, ignored: set<string>) {
    && (forall m :: m in x <==> Projected(members, m, ignored))
    && (forall i | 0 <= i < |members| ::
         Project(members[i].value, ignored) == Undefined <==> members[i].value == Undefined)
  }

  lemma AreProjections(members: seq<Keyed<Json>>, ignored: set<string>)
    requires WellFormed(Obj(members))
    ensures AreProjected(members, ProjectMembers(members, ignored), ignored)
  {
    ProjectMembersAre(members, ignored);
    forall i | 0 <= i < |members|
      ensures Project(members[i].value, ignored) == Undefined <==> members[i].value == Undefined
    {
      ProjectKeeps(members[i].value, ignored);
    }
  }

  lemma ProjectionThere(members: seq<Keyed<Json>>, x: seq<Keyed<Json>>, i: nat, ignored: set<string>)
    requires AreProjected(members, x, ignored) && i < |members| && members[i].key !in ignored
    ensures exists k | 0 <= k < |x| :: x[k] == Keyed(members[i].key, Project(members[i].value, ignored))
  {
    var m := Keyed(members[i].key, Project(members[i].value, ignored));
    assert Projects(members, i, m, ignored);
    assert Projected(members, m, ignored) && m in x;
  }

  lemma ProjectionFrom(members: seq<Keyed<Json>>, x: seq<Keyed<Json>>, k: nat, ignored: set<string>)
    requires AreProjected(members, x, ignored) && k < |x|
    ensures exists i :: Projects(members, i, x[k], ignored)
  {
    assert x[k] in x && Projected(members, x[k], ignored);
  }

  lemma HasKeyIff(members: seq<Keyed<Json>>, x: seq<Keyed<Json>>, key: string, ignored: set<string>)
    requires AreProjected(members, x, ignored) && key !in ignored
    ensures HasKey(x, key) <==> HasKey(members, key)
  {
    if HasKey(members, key) {
      var i :| 0 <= i < |members| && members[i].key == key && members[i].value != Undefined;
      ProjectionThere(members, x, i, ignored);
    }
    if HasKey(x, key) {
      var k :| 0 <= k < |x| && x[k].key == key && x[k].value != Undefined;
      ProjectionFrom(members, x, k, ignored);
      var i :| Projects(members, i, x[k], ignored);
    }
  }

  lemma SameMemberIff(a: seq<Keyed<Json>>, i: nat, b: seq<Keyed<Json>>, y: seq<Keyed<Json>>, ignored: set<string>)
    requires ProjectionDecides(a, b, ignored) && AreProjected(b, y, ignored) && i < |a| && a[i].key !in ignored
    ensures SameMember(a[i].key, Project(a[i].value, ignored), y, {}) <==> SameMember(a[i].key, a[i].value, b, ignored)
  {
    var key, projected := a[i].key, Project(a[i].value, ignored);
    if SameMember(key, a[i].value, b, ignored) {
      var j :| 0 <= j < |b| && b[j].key == key && b[j].value != Undefined && Same(a[i].value, b[j].value, ignored);
      ProjectionThere(b, y, j, ignored);
      var k :| 0 <= k < |y| && y[k] == Keyed(key, Project(b[j].value, ignored));
      assert Same(projected, y[k].value, {});
    }
    if SameMember(key, projected, y, {}) {
      var k :| 0 <= k < |y| && y[k].key == key && y[k].value != Undefined && Same(projected, y[k].value, {});
      ProjectionFrom(b, y, k, ignored);
      var j :| Projects(b, j, y[k], ignored);
      assert Same(a[i].value, b[j].value, ignored);
    }
  }

  lemma ProjectedMembersSameIff(
    a: seq<Keyed<Json>>, b: seq<Keyed<Json>>, x: seq<Keyed<Json>>, y: seq<Keyed<Json>>, ignored: set<string>)
    requires ProjectionDecides(a, b, ignored) && AreProjected(a, x, ignored) && AreProjected(b, y, ignored)
    ensures Same(Obj(x), Obj(y), {}) <==> Same(Obj(a), Obj(b), ignored)
  {
    if Same(Obj(a), Obj(b), ignored) { ProjectedForward(a, b, x, y, ignored); }
    if Same(Obj(x), Obj(y), {}) { ProjectedBackward(a, b, x, y, ignored); }
  }

  lemma ProjectedForward(
    a: seq<Keyed<Json>>, b: seq<Keyed<Json>>, x: seq<Keyed<Json>>, y: seq<Keyed<Json>>, ignored: set<string>)
    requires ProjectionDecides(a, b, ignored) && AreProjected(a, x, ignored) && AreProjected(b, y, ignored)
    requires Same(Obj(a), Obj(b), ignored)
    ensures Same(Obj(x), Obj(y), {})
  {
    forall k | 0 <= k < |x| && Visible(x[k], {}) ensures SameMember(x[k].key, x[k].value, y, {}) {
      ProjectionFrom(a, x, k, ignored);
      var i :| Projects(a, i, x[k], ignored);
      assert Visible(a[i], ignored);
      SameMemberIff(a, i, b, y, ignored);
    }
    forall k | 0 <= k < |y| && Visible(y[k], {}) ensures HasKey(x, y[k].key) {
      ProjectionFrom(b, y, k, ignored);
      var j :| Projects(b, j, y[k], ignored);
      assert Visible(b[j], ignored);
      HasKeyIff(a, x, b[j].key, ignored);
    }
  }

  lemma ProjectedBackward(
    a: seq<Keyed<Json>>, b: seq<Keyed<Json>>, x: seq<Keyed<Json>>, y: seq<Keyed<Json>>, ignored: set<string>)
    requires ProjectionDecides(a, b, ignored) && AreProjected(a, x, ignored) && AreProjected(b, y, ignored)
    requires Same(Obj(x), Obj(y), {})
    ensures Same(Obj(a), Obj(b), ignored)
  {
    forall i | 0 <= i < |a| && Visible(a[i], ignored) ensures SameMember(a[i].key, a[i].value, b, ignored) {
      ProjectionThere(a, x, i, ignored);
      var k :| 0 <= k < |x| && x[k] == Keyed(a[i].key, Project(a[i].value, ignored));
      assert Visible(x[k], {});
      SameMemberIff(a, i, b, y, ignored);
    }
    forall j | 0 <= j < |b| && Visible(b[j], ignored) ensures HasKey(a, b[j].key) {
      ProjectionThere(b, y, j, ignored);
      var k :| 0 <= k < |y| && y[k] == Keyed(b[j].key, Project(b[j].value, ignored));
      assert Visible(y[k], {});
      HasKeyIff(a, x, b[j].key, ignored);
    }
  }

  ghost predicate ProjectionDecides(a: seq<Keyed<Json>>, b: seq<Keyed<Json>>, ignored: set<string>) {
    forall i, j | 0 <= i < |a| && 0 <= j < |b| ::
      Same(Project(a[i].value, ignored), Project(b[j].value, ignored), {}) <==> Same(a[i].value, b[j].value, ignored)
  }

  // ----- Edits that a projection does not see

  /** The members whose keys are not ignored. */
  function Retained(members: seq<Keyed<Json>>, ignored: set<string>): seq<Keyed<Json>> {
    if members == [] then []
    else (if members[0].key in ignored then [] else [members[0]]) + Retained(members[1..], ignored)
  }

  lemma {:induction false} ProjectionIsOfRetained(members: seq<Keyed<Json>>, ignored: set<string>)
    ensures ProjectMembers(members, ignored) == ProjectMembers(Retained(members, ignored), ignored)
    decreases |members|
  {
    if members != [] {
      ProjectionIsOfRetained(members[1..], ignored);
      var rest := Retained(members[1..], ignored);
      if members[0].key in ignored {
        assert [] + rest == rest && [] + ProjectMembers(members[1..], ignored) == ProjectMembers(members[1..], ignored);
      } else {
        assert ([members[0]] + rest)[1..] == rest;
      }
    }
  }

  /** The part of a value that a path of positions leads to. */
  function At(v: Json, path: seq<nat>): Option<Json>
    decreases |path|
  {
    if path == [] then Some(v)
    else
      match v
      case Arr(items) => if path[0] < |items| then At(items[path[0]], path[1..]) else None
      case Obj(members) => if path[0] < |members| then At(members[path[0]].value, path[1..]) else None
      case _ => None
  }

  /** The value with that part replaced. */
  function Put(v: Json, path: seq<nat>, part: Json): Json
    requires At(v, path).Some?
    decreases |path|
  {
    if path == [] then part
    else
      match v
      case Arr(items) => Arr(items[path[0] := Put(items[path[0]], path[1..], part)])
      case Obj(members) =>
        Obj(members[path[0] := Keyed(members[path[0]].key, Put(members[path[0]].value, path[1..], part))])
  }

  lemma {:induction false} ProjectMembersAgree(a: seq<Keyed<Json>>, b: seq<Keyed<Json>>, ignored: set<string>)
    requires |a| == |b|
    requires forall i | 0 <= i < |a| ::
        a[i].key == b[i].key && Project(a[i].value, ignored) == Project(b[i].value, ignored)
    ensures ProjectMembers(a, ignored) == ProjectMembers(b, ignored)
    decreases |a|
  {
    if a != [] {
      hide Project;
      ProjectMembersAgree(a[1..], b[1..], ignored);
    }
  }

  lemma {:induction false} ProjectItemsAgree(a: seq<Json>, b: seq<Json>, ignored: set<string>)
    requires |a| == |b| && forall i | 0 <= i < |a| :: Project(a[i], ignored) == Project(b[i], ignored)
    ensures ProjectItems(a, ignored) == ProjectItems(b, ignored)
    decreases |a|
  {
    if a != [] {
      hide Project;
      ProjectItemsAgree(a[1..], b[1..], ignored);
    }
  }

  /** Replacing a part by one of the same projection leaves the projection of the whole as it is. */
  lemma {:induction false} PutKeepsProjection(v: Json, path: seq<nat>, part: Json, ignored: set<string>)
    requires At(v, path).Some? && Project(At(v, path).value, ignored) == Project(part, ignored)
    ensures Project(Put(v, path, part), ignored) == Project(v, ignored)
    decreases |path|
  {
    if path != [] {
      var i := path[0];
      match v
      case Arr(items) =>
        PutKeepsProjection(items[i], path[1..], part, ignored);
        ProjectItemsAgree(items, items[i := Put(items[i], path[1..], part)], ignored);
      case Obj(members) =>
        PutKeepsProjection(members[i].value, path[1..], part, ignored);
        ProjectMembersAgree(members, members[i := Keyed(members[i].key, Put(members[i].value, path[1..], part))],
          ignored);
    }
  }

  /**
    Whatever happens to members with ignored keys in an object at any depth (added, removed, changed or
    moved, with any value), the projection of the whole stays as it is.
   */
  lemma NestedEditUnseen(v: Json, path: seq<nat>, edited: seq<Keyed<Json>>, ignored: set<string>)
    requires At(v, path).Some? && At(v, path).value.Obj?
    requires Retained(At(v, path).value.members, ignored) == Retained(edited, ignored)
    ensures Project(Put(v, path, Obj(edited)), ignored) == Project(v, ignored)
  {
    ProjectionIsOfRetained(At(v, path).value.members, ignored);
    ProjectionIsOfRetained(edited, ignored);
    hide At, Retained, ProjectMembers;
    PutKeepsProjection(v, path, Obj(edited), ignored);
  }
}
