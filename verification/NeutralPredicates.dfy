/**
  The neutral data predicate, what it means on a row, and the smart constructors that simplify
  predicates while they are built.
 */
module NeutralPredicates {
  datatype Scalar = Text(text: string) | Number(number: real) | Flag(flag: bool)

  datatype Predicate =
    | True
    | False
    | And(operands: seq<Predicate>)
    | Or(operands: seq<Predicate>)
    | Not(operand: Predicate)
    | Equal(field: string, value: Scalar)
    | In(field: string, values: seq<Scalar>)

  /** A row gives a value to some fields; a field that is absent is NULL and equals nothing. */
  type Row = map<string, Scalar>

  predicate Holds(p: Predicate, row: Row) {
    match p
    case True => true
    case False => false
    case And(ps) => forall q | q in ps :: Holds(q, row)
    case Or(ps) => exists q | q in ps :: Holds(q, row)
    case Not(q) => !Holds(q, row)
    case Equal(field, value) => field in row && row[field] == value
    case In(field, values) => field in row && row[field] in values
  }

  /** The fields a predicate mentions, in order of appearance. */
  function PredicateFields(p: Predicate): seq<string>
    decreases p, 1
  {
    match p
    case Equal(field, _) => [field]
    case In(field, _) => [field]
    case And(ps) => FieldsOfAll(ps)
    case Or(ps) => FieldsOfAll(ps)
    case Not(q) => PredicateFields(q)
    case _ => []
  }

  function FieldsOfAll(ps: seq<Predicate>): seq<string>
    decreases ps, 0
  {
    if ps == [] then [] else PredicateFields(ps[0]) + FieldsOfAll(ps[1..])
  }

  predicate FieldsWithin(p: Predicate, fields: seq<string>) {
    forall f | f in PredicateFields(p) :: f in fields
  }

  /** No conjunction or disjunction without operands anywhere inside. */
  predicate NonEmptyJunctions(p: Predicate) {
    match p
    case And(ps) => ps != [] && forall q | q in ps :: NonEmptyJunctions(q)
    case Or(ps) => ps != [] && forall q | q in ps :: NonEmptyJunctions(q)
    case Not(q) => NonEmptyJunctions(q)
    case _ => true
  }

  predicate FieldName(s: string) {
    && s != []
    && 'a' <= s[0] <= 'z'
    && forall c | c in s[1..] :: 'a' <= c <= 'z' || 'A' <= c <= 'Z' || '0' <= c <= '9'
  }

  /** The bounds a predicate must meet to be accepted from an operator. */
  predicate SchemaAccepts(p: Predicate) {
    match p
    case And(ps) => 1 <= |ps| <= 20 && forall q | q in ps :: SchemaAccepts(q)
    case Or(ps) => 1 <= |ps| <= 20 && forall q | q in ps :: SchemaAccepts(q)
    case Not(q) => SchemaAccepts(q)
    case Equal(field, _) => FieldName(field)
    case In(field, values) => FieldName(field) && |values| <= 500
    case _ => true
  }

  // ----- What is admissible, read off the parts of a predicate

  /** By code point: a to z, and A to Z or 0 to 9 besides. */
  predicate LowerCase(c: char) { c as int >= 97 && c as int < 123 }

  predicate Alphanumeric(c: char) {
    LowerCase(c) || (c as int >= 65 && c as int < 91) || (c as int >= 48 && c as int < 58)
  }

  /** A lower-case letter and then letters and digits. */
  ghost predicate CamelCase(s: string) {
    |s| >= 1 && LowerCase(s[0]) && forall i | 0 <= i < |s| :: Alphanumeric(s[i])
  }

  lemma FieldNameIff(s: string)
    ensures FieldName(s) <==> CamelCase(s)
  {
    if FieldName(s) {
      forall i | 0 <= i < |s| ensures Alphanumeric(s[i]) {
        if i > 0 { assert s[i] == s[1..][i - 1] && s[i] in s[1..]; }
      }
    }
    if CamelCase(s) {
      forall c | c in s[1..] ensures Alphanumeric(c) {
        var i :| 0 <= i < |s[1..]| && s[1..][i] == c;
        assert s[i + 1] == c;
      }
    }
  }

  /** `q` is `p` or a part of it, at any depth. */
  ghost predicate PartOf(q: Predicate, p: Predicate) {
    || q == p
    || (match p
        case And(ps) => exists r | r in ps :: PartOf(q, r)
        case Or(ps) => exists r | r in ps :: PartOf(q, r)
        case Not(r) => PartOf(q, r)
        case _ => false)
  }

  /** One to twenty operands, proper field names, and at most 500 values. */
  ghost predicate Bounded(q: Predicate) {
    && (q.And? || q.Or? ==> |q.operands| >= 1 && |q.operands| < 21)
    && (q.Equal? || q.In? ==> CamelCase(q.field))
    && (q.In? ==> |q.values| < 501)
  }

  /** A predicate is accepted from an operator exactly when all its parts keep the bounds. */
  lemma {:induction false} SchemaAcceptsIff(p: Predicate)
    ensures SchemaAccepts(p) <==> forall q | PartOf(q, p) :: Bounded(q)
  {
    assert PartOf(p, p);
    if p.Equal? || p.In? { FieldNameIff(p.field); }
    if p.And? || p.Or? {
      forall r | r in p.operands ensures SchemaAccepts(r) <==> forall q | PartOf(q, r) :: Bounded(q) {
        SchemaAcceptsIff(r);
      }
      forall q, r | r in p.operands && PartOf(q, r) ensures PartOf(q, p) {}
      hide Bounded, CamelCase;
    }
    if p.Not? { SchemaAcceptsIff(p.operand); }
  }

  /** Its fields are among the given ones exactly when those of all its comparisons are. */
  lemma {:induction false} FieldsWithinIff(p: Predicate, fields: seq<string>)
    ensures FieldsWithin(p, fields) <==> forall q | PartOf(q, p) && (q.Equal? || q.In?) :: q.field in fields
  {
    if p.And? || p.Or? {
      FieldsOfAllMembers(p.operands);
      forall r | r in p.operands
        ensures FieldsWithin(r, fields) <==> forall q | PartOf(q, r) && (q.Equal? || q.In?) :: q.field in fields
      {
        FieldsWithinIff(r, fields);
      }
      forall q, r | r in p.operands && PartOf(q, r) ensures PartOf(q, p) {}
      assert PredicateFields(p) == FieldsOfAll(p.operands);
    }
    if p.Not? { FieldsWithinIff(p.operand, fields); }
    if p.Equal? || p.In? { assert PartOf(p, p) && PredicateFields(p) == [p.field]; }
  }

  function Without(ps: seq<Predicate>, dropped: Predicate): seq<Predicate> {
    if ps == [] then []
    else (if ps[0] == dropped then [] else [ps[0]]) + Without(ps[1..], dropped)
  }

  function AndPredicates(ps: seq<Predicate>): Predicate {
    if False in ps then False
    else
      var retained := Without(ps, True);
      if |retained| == 0 then True
      else if |retained| == 1 then retained[0]
      else And(retained)
  }

  function OrPredicates(ps: seq<Predicate>): Predicate {
    if True in ps then True
    else
      var retained := Without(ps, False);
      if |retained| == 0 then False
      else if |retained| == 1 then retained[0]
      else Or(retained)
  }

  function NegatePredicate(p: Predicate): Predicate {
    match p
    case True => False
    case False => True
    case _ => Not(p)
  }

  lemma {:induction false} WithoutMembers(ps: seq<Predicate>, dropped: Predicate)
    ensures forall p :: p in Without(ps, dropped) <==> p in ps && p != dropped
  {
    if ps != [] {
      WithoutMembers(ps[1..], dropped);
      assert ps == [ps[0]] + ps[1..];
    }
  }

  /** Simplification keeps the meaning of a conjunction, and yields the constant only when it must. */
  lemma AndMeaning(ps: seq<Predicate>, row: Row)
    ensures Holds(AndPredicates(ps), row) <==> forall p | p in ps :: Holds(p, row)
    ensures AndPredicates(ps) == False <==> False in ps
    ensures AndPredicates(ps) == True <==> forall p | p in ps :: p == True
  {
    var retained := Without(ps, True);
    WithoutMembers(ps, True);
    if False in ps {
      assert !Holds(False, row);
    } else if |retained| == 1 {
      assert forall p | p in retained :: p == retained[0];
      assert retained[0] in retained;
      assert retained[0] in ps;
    } else if |retained| == 0 {
      assert forall p | p in ps :: p !in retained;
    } else {
      assert retained[0] in retained;
    }
  }

  /** Simplification keeps the meaning of a disjunction, and yields the constant only when it must. */
  lemma OrMeaning(ps: seq<Predicate>, row: Row)
    ensures Holds(OrPredicates(ps), row) <==> exists p | p in ps :: Holds(p, row)
    ensures OrPredicates(ps) == False <==> forall p | p in ps :: p == False
    ensures OrPredicates(ps) == True <==> True in ps
  {
    var retained := Without(ps, False);
    WithoutMembers(ps, False);
    if True in ps {
      assert Holds(True, row);
    } else if |retained| == 1 {
      assert forall p | p in retained :: p == retained[0];
      assert retained[0] in retained;
      assert retained[0] in ps;
    } else if |retained| == 0 {
      assert forall p | p in ps :: p !in retained;
    } else {
      assert retained[0] in retained;
    }
  }

  /** A single operand that matters stands for itself, among whatever constants that do not. */
  lemma SingleOperand(before: seq<Predicate>, p: Predicate, after: seq<Predicate>)
    requires p != True && p != False
    ensures (forall q | q in before || q in after :: q == True) ==> AndPredicates(before + [p] + after) == p
    ensures (forall q | q in before || q in after :: q == False) ==> OrPredicates(before + [p] + after) == p
  {
    forall dropped | dropped == True || dropped == False
      ensures (forall q | q in before || q in after :: q == dropped) ==> Without(before + [p] + after, dropped) == [p]
    {
      if forall q | q in before || q in after :: q == dropped {
        OnlyDropped(before, dropped);
        OnlyDropped(after, dropped);
        WithoutParts(before, [p], dropped);
        WithoutParts(before + [p], after, dropped);
        assert [p][1..] == [];
      }
    }
    hide Without;
  }

  lemma {:induction false} OnlyDropped(ps: seq<Predicate>, dropped: Predicate)
    requires forall q | q in ps :: q == dropped
    ensures Without(ps, dropped) == []
  {
    if ps != [] {
      assert ps[0] in ps;
      forall q | q in ps[1..] ensures q == dropped { assert q in ps; }
      OnlyDropped(ps[1..], dropped);
    }
  }

  lemma {:induction false} WithoutParts(a: seq<Predicate>, b: seq<Predicate>, dropped: Predicate)
    ensures Without(a + b, dropped) == Without(a, dropped) + Without(b, dropped)
    decreases |a|
  {
    if a == [] {
      assert a + b == b;
    } else {
      assert (a + b)[1..] == a[1..] + b;
      WithoutParts(a[1..], b, dropped);
    }
  }

  /** Simplification keeps the meaning of a negation. */
  lemma NegateMeaning(p: Predicate, row: Row)
    ensures Holds(NegatePredicate(p), row) <==> !Holds(p, row)
    ensures NegatePredicate(p) == False <==> p == True
    ensures NegatePredicate(p) == True <==> p == False
  {
  }

  lemma {:induction false} FieldsOfAllMembers(ps: seq<Predicate>)
    ensures forall f :: f in FieldsOfAll(ps) <==> exists p | p in ps :: f in PredicateFields(p)
  {
    if ps != [] {
      FieldsOfAllMembers(ps[1..]);
      assert FieldsOfAll(ps) == PredicateFields(ps[0]) + FieldsOfAll(ps[1..]);
      forall f ensures f in FieldsOfAll(ps) <==> exists p | p in ps :: f in PredicateFields(p) {
        if p :| p in ps && f in PredicateFields(p) {
          assert p == ps[0] || p in ps[1..];
        }
      }
    }
  }

  ghost predicate Closed(p: Predicate, fields: seq<string>) {
    FieldsWithin(p, fields) && NonEmptyJunctions(p)
  }

  /** The smart constructors introduce no field and no empty junction. */
  lemma ConstructorsKeepClosed(ps: seq<Predicate>, fields: seq<string>)
    requires forall p | p in ps :: Closed(p, fields)
    ensures Closed(AndPredicates(ps), fields) && Closed(OrPredicates(ps), fields)
  {
    WithoutMembers(ps, True);
    WithoutMembers(ps, False);
    FieldsOfAllMembers(Without(ps, True));
    FieldsOfAllMembers(Without(ps, False));
    forall p | p in ps ensures FieldsWithin(p, fields) && NonEmptyJunctions(p) {
      assert Closed(p, fields);
    }
  }

  lemma {:induction false} SchemaHasNoEmptyJunctions(p: Predicate)
    requires SchemaAccepts(p)
    ensures NonEmptyJunctions(p)
  {
    match p
    case And(ps) =>
      forall q | q in ps ensures NonEmptyJunctions(q) { SchemaHasNoEmptyJunctions(q); }
    case Or(ps) =>
      forall q | q in ps ensures NonEmptyJunctions(q) { SchemaHasNoEmptyJunctions(q); }
    case Not(q) => SchemaHasNoEmptyJunctions(q);
    case _ =>
  }
}
