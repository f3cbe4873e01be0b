/**
  Lowering a neutral predicate to an SQL condition, and SQL's three-valued reading of the result.
 */
module SqlLowering {
  import opened Wrappers
  import opened NeutralPredicates
  import opened DataPermissions

  datatype Sql =
    | OneEqualsOne
    | OneEqualsZero
    | Conjunction(operands: seq<Sql>)
    | Disjunction(operands: seq<Sql>)
    | Negation(operand: Sql)
    | ColumnEquals(column: string, value: Scalar)
    | ColumnIn(column: string, values: seq<Scalar>)

  datatype Truth = Yes | No | Unknown

  /** The value SQL gives a condition on a record; an absent column is NULL. */
  function Evaluate(e: Sql, record: map<string, Scalar>): Truth {
    match e
    case OneEqualsOne => Yes
    case OneEqualsZero => No
    case Conjunction(es) =>
      if exists x | x in es :: Evaluate(x, record) == No then No
      else if exists x | x in es :: Evaluate(x, record) == Unknown then Unknown else Yes
    case Disjunction(es) =>
      if exists x | x in es :: Evaluate(x, record) == Yes then Yes
      else if exists x | x in es :: Evaluate(x, record) == Unknown then Unknown else No
    case Negation(x) =>
      (match Evaluate(x, record) case Yes => No case No => Yes case Unknown => Unknown)
    case ColumnEquals(column, value) =>
      if column !in record then Unknown else if record[column] == value then Yes else No
    case ColumnIn(column, values) =>
      if column !in record then Unknown else if record[column] in values then Yes else No
  }

  /** Columns give each mapped field its database column; the error is the unmapped field. */
  type Columns = map<string, string>

  function Lower(p: Predicate, columns: Columns): Result<Sql, string>
    requires NonEmptyJunctions(p)
    decreases p, 1
  {
    match p
    case True => Ok(OneEqualsOne)
    case False => Ok(OneEqualsZero)
    case And(ps) =>
      (match LowerAll(ps, columns) case Ok(es) => Ok(Conjunction(es)) case Err(f) => Err(f))
    case Or(ps) =>
      (match LowerAll(ps, columns) case Ok(es) => Ok(Disjunction(es)) case Err(f) => Err(f))
    case Not(q) =>
      (match Lower(q, columns) case Ok(e) => Ok(Negation(e)) case Err(f) => Err(f))
    case Equal(field, value) =>
      if field in columns then Ok(ColumnEquals(columns[field], value)) else Err(field)
    case In(field, values) =>
      if field !in columns then Err(field)
      else if values == [] then Ok(OneEqualsZero)
      else Ok(ColumnIn(columns[field], values))
  }

  function LowerAll(ps: seq<Predicate>, columns: Columns): Result<seq<Sql>, string>
    requires forall p | p in ps :: NonEmptyJunctions(p)
    decreases ps, 0
  {
    if ps == [] then Ok([])
    else
      match Lower(ps[0], columns)
      case Err(f) => Err(f)
      case Ok(e) =>
        match LowerAll(ps[1..], columns)
        case Err(f) => Err(f)
        case Ok(es) => Ok([e] + es)
  }

  /** The row of fields that a database record presents through the column mapping. */
  function RowOf(record: map<string, Scalar>, columns: Columns): Row {
    map f | f in columns && columns[f] in record :: record[columns[f]]
  }

  ghost predicate Agrees(truth: Truth, holds: bool) {
    (truth == Yes ==> holds) && (truth == No ==> !holds)
  }

  lemma {:induction false} LowerAllIndexed(ps: seq<Predicate>, columns: Columns)
    requires forall p | p in ps :: NonEmptyJunctions(p)
    requires LowerAll(ps, columns).Ok?
    ensures var es := LowerAll(ps, columns).value;
            |es| == |ps| && forall i | 0 <= i < |ps| :: Lower(ps[i], columns) == Ok(es[i])
  {
    if ps != [] { LowerAllIndexed(ps[1..], columns); }
  }

  /** A member of the lowered list comes from a member of the list, and conversely. */
  lemma LowerAllMembers(ps: seq<Predicate>, columns: Columns)
    requires forall p | p in ps :: NonEmptyJunctions(p)
    requires LowerAll(ps, columns).Ok?
    ensures forall e | e in LowerAll(ps, columns).value :: exists p | p in ps :: Lower(p, columns) == Ok(e)
    ensures forall p | p in ps :: Lower(p, columns).Ok? && Lower(p, columns).value in LowerAll(ps, columns).value
  {
    LowerAllIndexed(ps, columns);
    var es := LowerAll(ps, columns).value;
    forall e | e in es ensures exists p | p in ps :: Lower(p, columns) == Ok(e) {
      var i :| 0 <= i < |es| && es[i] == e;
      assert Lower(ps[i], columns) == Ok(e);
    }
    forall p | p in ps ensures Lower(p, columns).Ok? && Lower(p, columns).value in es {
      var i :| 0 <= i < |ps| && ps[i] == p;
      assert Lower(p, columns) == Ok(es[i]);
    }
  }

  /** SQL says TRUE (FALSE) only where the neutral predicate is true (false). */
  lemma {:induction false} LoweringSound(p: Predicate, columns: Columns, record: map<string, Scalar>)
    requires NonEmptyJunctions(p) && Lower(p, columns).Ok?
    ensures Agrees(Evaluate(Lower(p, columns).value, record), Holds(p, RowOf(record, columns)))
  {
    match p
    case And(ps) =>
      LowerAllMembers(ps, columns);
      forall q | q in ps
        ensures Agrees(Evaluate(Lower(q, columns).value, record), Holds(q, RowOf(record, columns)))
      { LoweringSound(q, columns, record); }
    case Or(ps) =>
      LowerAllMembers(ps, columns);
      forall q | q in ps
        ensures Agrees(Evaluate(Lower(q, columns).value, record), Holds(q, RowOf(record, columns)))
      { LoweringSound(q, columns, record); }
    case Not(q) => LoweringSound(q, columns, record);
    case _ =>
  }

  ghost predicate NoNullReferenced(p: Predicate, columns: Columns, record: map<string, Scalar>) {
    forall f | f in PredicateFields(p) && f in columns :: columns[f] in record
  }

  /** Where no referenced column is NULL, SQL decides, and decides as the neutral predicate does. */
  lemma {:induction false} LoweringExact(p: Predicate, columns: Columns, record: map<string, Scalar>)
    requires NonEmptyJunctions(p) && Lower(p, columns).Ok? && NoNullReferenced(p, columns, record)
    ensures Evaluate(Lower(p, columns).value, record) == if Holds(p, RowOf(record, columns)) then Yes else No
  {
    if p.And? || p.Or? {
      var ps := p.operands;
      LowerAllMembers(ps, columns);
      FieldsOfAllMembers(ps);
      assert PredicateFields(p) == FieldsOfAll(ps);
      forall q | q in ps
        ensures Evaluate(Lower(q, columns).value, record) == if Holds(q, RowOf(record, columns)) then Yes else No
      {
        assert forall f | f in PredicateFields(q) :: f in FieldsOfAll(ps);
        LoweringExact(q, columns, record);
      }
    } else if p.Not? {
      LoweringExact(p.operand, columns, record);
    } else if p.Equal? || p.In? {
      assert p.field in PredicateFields(p);
    }
  }

  /** The two readings do part on NULL: a negated comparison is true neutrally and unknown to SQL. */
  lemma NullUnderNegation(field: string, value: Scalar, column: string)
    ensures var p := Not(Equal(field, value));
            && Holds(p, RowOf(map[], map[field := column]))
            && Lower(p, map[field := column]) == Ok(Negation(ColumnEquals(column, value)))
            && Evaluate(Negation(ColumnEquals(column, value)), map[]) == Unknown
  {
    assert Lower(Equal(field, value), map[field := column]) == Ok(ColumnEquals(column, value));
  }

  /** Lowering fails exactly when a mentioned field has no column, and then names such a field. */
  lemma {:induction false} LoweringFails(p: Predicate, columns: Columns)
    requires NonEmptyJunctions(p)
    ensures Lower(p, columns).Ok? <==> forall f | f in PredicateFields(p) :: f in columns
    ensures Lower(p, columns).Err? ==>
              Lower(p, columns).error in PredicateFields(p) && Lower(p, columns).error !in columns
    decreases p, 1
  {
    match p
    case And(ps) => LoweringAllFails(ps, columns);
    case Or(ps) => LoweringAllFails(ps, columns);
    case Not(q) => LoweringFails(q, columns);
    case _ =>
  }

  lemma {:induction false} LoweringAllFails(ps: seq<Predicate>, columns: Columns)
    requires forall p | p in ps :: NonEmptyJunctions(p)
    ensures LowerAll(ps, columns).Ok? <==> forall f | f in FieldsOfAll(ps) :: f in columns
    ensures LowerAll(ps, columns).Err? ==>
              LowerAll(ps, columns).error in FieldsOfAll(ps) && LowerAll(ps, columns).error !in columns
    decreases ps, 0
  {
    if ps != [] {
      LoweringFails(ps[0], columns);
      LoweringAllFails(ps[1..], columns);
      assert FieldsOfAll(ps) == PredicateFields(ps[0]) + FieldsOfAll(ps[1..]);
    }
  }

  // ----- What SQL reads in the presence of NULL

  /**
    What SQL makes of `p` on a record: as `Holds`, but a comparison with a NULL column counts as a match
    exactly when it stands under an odd number of negations; `negated` says whether `p` itself does.
   */
  predicate Reads(p: Predicate, columns: Columns, record: map<string, Scalar>, negated: bool) {
    match p
    case True => true
    case False => false
    case And(ps) => forall q | q in ps :: Reads(q, columns, record, negated)
    case Or(ps) => exists q | q in ps :: Reads(q, columns, record, negated)
    case Not(q) => !Reads(q, columns, record, !negated)
    case Equal(field, value) => Matches(field, value, columns, record, negated)
    case In(field, values) => exists value | value in values :: Matches(field, value, columns, record, negated)
  }

  /** The column of a field has the value, or is NULL under a negation. */
  predicate Matches(field: string, value: Scalar, columns: Columns, record: map<string, Scalar>, negated: bool) {
    field in columns && if columns[field] in record then record[columns[field]] == value else negated
  }

  /**
    SQL answers TRUE exactly where it reads `p` as holding, and anything but FALSE exactly where it does under
    a negation.
   */
  ghost predicate AnswersAsRead(truth: Truth, p: Predicate, columns: Columns, record: map<string, Scalar>) {
    && (truth == Yes <==> Reads(p, columns, record, false))
    && (truth != No <==> Reads(p, columns, record, true))
  }

  lemma {:induction false} LoweringReads(p: Predicate, columns: Columns, record: map<string, Scalar>)
    requires NonEmptyJunctions(p) && Lower(p, columns).Ok?
    ensures AnswersAsRead(Evaluate(Lower(p, columns).value, record), p, columns, record)
  {
    match p
    case And(ps) =>
      LowerAllMembers(ps, columns);
      forall q | q in ps ensures AnswersAsRead(Evaluate(Lower(q, columns).value, record), q, columns, record) {
        LoweringReads(q, columns, record);
      }
    case Or(ps) =>
      LowerAllMembers(ps, columns);
      forall q | q in ps ensures AnswersAsRead(Evaluate(Lower(q, columns).value, record), q, columns, record) {
        LoweringReads(q, columns, record);
      }
    case Not(q) => LoweringReads(q, columns, record);
    case In(_, values) => if values != [] { assert values[0] in values; }
    case _ =>
  }

  /**
    Wherever `p` compares a field under an odd number of negations, the column is not NULL; `negated` says
    whether `p` itself stands under an odd number of them.
   */
  predicate Decided(p: Predicate, columns: Columns, record: map<string, Scalar>, negated: bool) {
    match p
    case And(ps) => forall q | q in ps :: Decided(q, columns, record, negated)
    case Or(ps) => forall q | q in ps :: Decided(q, columns, record, negated)
    case Not(q) => Decided(q, columns, record, !negated)
    case Equal(field, _) => negated && field in columns ==> columns[field] in record
    case In(field, values) => negated && values != [] && field in columns ==> columns[field] in record
    case _ => true
  }

  /** Where NULL is compared only under an even number of negations, SQL reads what the predicate says. */
  lemma {:induction false} DecidedReads(p: Predicate, columns: Columns, record: map<string, Scalar>, negated: bool)
    requires Decided(p, columns, record, negated)
    ensures Reads(p, columns, record, negated) <==> Holds(p, RowOf(record, columns))
  {
    match p
    case And(ps) =>
      forall q | q in ps ensures Reads(q, columns, record, negated) <==> Holds(q, RowOf(record, columns)) {
        DecidedReads(q, columns, record, negated);
      }
    case Or(ps) =>
      forall q | q in ps ensures Reads(q, columns, record, negated) <==> Holds(q, RowOf(record, columns)) {
        DecidedReads(q, columns, record, negated);
      }
    case Not(q) => DecidedReads(q, columns, record, !negated);
    case _ =>
  }

  /**
    NULL costs a row only under an odd number of negations: elsewhere SQL says TRUE exactly where the predicate
    holds.
   */
  lemma NullCostsOnlyUnderNegation(p: Predicate, columns: Columns, record: map<string, Scalar>)
    requires NonEmptyJunctions(p) && Lower(p, columns).Ok? && Decided(p, columns, record, false)
    ensures Evaluate(Lower(p, columns).value, record) == Yes <==> Holds(p, RowOf(record, columns))
  {
    hide Evaluate, Lower, Holds, Decided, Reads;
    DecidedReads(p, columns, record, false);
    LoweringReads(p, columns, record);
  }

  lemma ConstructorsKeepDecided(ps: seq<Predicate>, columns: Columns, record: map<string, Scalar>, negated: bool)
    requires forall q | q in ps :: Decided(q, columns, record, negated)
    ensures Decided(AndPredicates(ps), columns, record, negated) && Decided(OrPredicates(ps), columns, record, negated)
    ensures forall q | q in ps :: Decided(NegatePredicate(q), columns, record, !negated)
  {
    WithoutMembers(ps, True);
    WithoutMembers(ps, False);
    hide Without;
  }

  /** The columns that matter, rule by rule: an allow rule is read as it is, a deny rule under one more negation. */
  ghost predicate RulesDecided(
    rules: seq<EffectiveRule>, resource: Resource, context: Context, handlers: Handlers,
    columns: Columns, record: map<string, Scalar>)
  {
    forall r | r in rules && About(r, resource) && r.rule.Document? ::
      Decided(CompileExpression(r.rule.expression, resource, context, handlers), columns, record, r.effect == Deny)
  }

  lemma RulesDecide(
    resources: map<string, Resource>, handlers: Handlers, resourceType: string, context: Context,
    rules: seq<EffectiveRule>, columns: Columns, record: map<string, Scalar>)
    requires resourceType in resources ==>
               RulesDecided(rules, resources[resourceType], context, handlers, columns, record)
    ensures Decided(CompilePolicy(resources, handlers, resourceType, context, rules), columns, record, false)
  {
    hide CompileExpression, CompiledRules, OrPredicates, AndPredicates, NegatePredicate, Rejected;
    if resourceType in resources {
      var resource := resources[resourceType];
      var relevant := Relevant(rules, resource);
      if forall r | r in relevant :: !Rejected(r, resource, context, handlers) {
        var allow := CompiledRules(relevant, Allow, resource, context, handlers);
        var deny := CompiledRules(relevant, Deny, resource, context, handlers);
        CompiledRulesMembers(relevant, Allow, resource, context, handlers);
        CompiledRulesMembers(relevant, Deny, resource, context, handlers);
        ConstructorsKeepDecided(allow, columns, record, false);
        ConstructorsKeepDecided(deny, columns, record, true);
        ConstructorsKeepDecided([OrPredicates(deny)], columns, record, true);
        ConstructorsKeepDecided([OrPredicates(allow), NegatePredicate(OrPredicates(deny))], columns, record, false);
      }
    }
  }

  /** A built-in condition compares without a negation, so that on its own it loses no row to NULL. */
  lemma BuiltInsNeedNoColumn(
    code: string, arguments: Arguments, resource: Resource, context: Context, handlers: Handlers,
    columns: Columns, record: map<string, Scalar>)
    requires BuiltIn(code)
    ensures Decided(CompileCondition(code, arguments, resource, context, handlers), columns, record, false)
  {
    hide ReadIdList, UsersOfRoles, TextScalars, Distinct, SchemaAccepts, FieldsWithin;
  }

  // ----- What SQL reads in a policy

  lemma ConjunctionReads(ps: seq<Predicate>, columns: Columns, record: map<string, Scalar>, negated: bool)
    ensures Reads(AndPredicates(ps), columns, record, negated)
       <==> forall p | p in ps :: Reads(p, columns, record, negated)
  {
    var retained := Without(ps, True);
    WithoutMembers(ps, True);
    if False in ps {
      assert !Reads(False, columns, record, negated);
    } else if |retained| == 1 {
      assert forall p | p in retained :: p == retained[0];
      assert retained[0] in retained;
      assert retained[0] in ps;
    } else if |retained| == 0 {
      assert forall p | p in ps :: p !in retained;
    }
  }

  lemma DisjunctionReads(ps: seq<Predicate>, columns: Columns, record: map<string, Scalar>, negated: bool)
    ensures Reads(OrPredicates(ps), columns, record, negated)
       <==> exists p | p in ps :: Reads(p, columns, record, negated)
  {
    var retained := Without(ps, False);
    WithoutMembers(ps, False);
    if True in ps {
      assert Reads(True, columns, record, negated);
    } else if |retained| == 1 {
      assert forall p | p in retained :: p == retained[0];
      assert retained[0] in retained;
      assert retained[0] in ps;
    } else if |retained| == 0 {
      assert forall p | p in ps :: p !in retained;
    } else {
      assert retained[0] in retained;
    }
  }

  lemma NegationReads(p: Predicate, columns: Columns, record: map<string, Scalar>, negated: bool)
    ensures Reads(NegatePredicate(p), columns, record, negated) <==> !Reads(p, columns, record, !negated)
  {
  }

  /**
    What SQL makes of a rule's condition: as it denotes, NULL in the governed column being a match under a
    negation.
   */
  ghost predicate ConditionReads(
    code: string, arguments: Arguments, resource: Resource, context: Context, handlers: Handlers,
    columns: Columns, record: map<string, Scalar>, negated: bool)
  {
    && ConditionValid(code, arguments, resource, context, handlers)
    && if BuiltIn(code) then
         var field := GovernedField(code, resource).value;
         exists id | id in AdmittedIds(code, arguments, context).value ::
           Matches(field, Text(id), columns, record, negated)
       else Reads(handlers[code](arguments, context, resource).predicateTree, columns, record, negated)
  }

  ghost predicate ExpressionReads(
    e: Expression, resource: Resource, context: Context, handlers: Handlers,
    columns: Columns, record: map<string, Scalar>, negated: bool)
  {
    match e
    case All => true
    case Both(parts) =>
      forall p | p in parts :: ExpressionReads(p, resource, context, handlers, columns, record, negated)
    case Either(parts) =>
      exists p | p in parts :: ExpressionReads(p, resource, context, handlers, columns, record, negated)
    case Condition(code, arguments) =>
      ConditionReads(code, arguments, resource, context, handlers, columns, record, negated)
  }

  lemma ListReads(
    field: Option<string>, ids: Option<seq<string>>, resource: Resource,
    columns: Columns, record: map<string, Scalar>, negated: bool)
    ensures var valid := UsableField(field, resource) && ids.Some? && |ids.value| <= 500;
            (Reads(ValidatePredicate(InPredicate(field, ids), resource), columns, record, negated)
             <==> valid && exists id | id in ids.value :: Matches(field.value, Text(id), columns, record, negated))
  {
    var p := InPredicate(field, ids);
    if p.In? {
      assert PredicateFields(p) == [field.value];
      forall id ensures id in ids.value <==> Text(id) in p.values {
        if id in ids.value {
          var k :| 0 <= k < |ids.value| && ids.value[k] == id;
          assert p.values[k] == Text(id);
        }
      }
    }
  }

  lemma EqualReads(
    field: Option<string>, arguments: Arguments, id: string, resource: Resource,
    columns: Columns, record: map<string, Scalar>, negated: bool)
    ensures var valid := UsableField(field, resource) && arguments == map[];
            (Reads(ValidatePredicate(EqualPredicate(field, arguments, id), resource), columns, record, negated)
             <==> valid && Matches(field.value, Text(id), columns, record, negated))
  {
    var p := EqualPredicate(field, arguments, id);
    if p.Equal? { assert PredicateFields(p) == [field.value]; }
  }

  /** What a built-in operator admits, read off the identifiers that the compiler lists for it. */
  lemma AdmittedReads(
    code: string, arguments: Arguments, ids: Option<seq<string>>, resource: Resource, context: Context,
    handlers: Handlers, columns: Columns, record: map<string, Scalar>, negated: bool)
    requires BuiltIn(code)
    requires AdmittedIds(code, arguments, context).Some? <==> ids.Some? && |ids.value| <= 500
    requires AdmittedIds(code, arguments, context).Some? ==>
               forall id :: id in AdmittedIds(code, arguments, context).value <==> id in ids.value
    ensures var p := InPredicate(GovernedField(code, resource), ids);
            (Reads(ValidatePredicate(p, resource), columns, record, negated)
             <==> ConditionReads(code, arguments, resource, context, handlers, columns, record, negated))
  {
    hide ValidatePredicate, InPredicate, AdmittedIds, Reads, UsableField, Matches, GovernedField, BuiltIn;
    ListReads(GovernedField(code, resource), ids, resource, columns, record, negated);
  }

  lemma OwnReads(
    code: string, arguments: Arguments, id: string, resource: Resource, context: Context,
    handlers: Handlers, columns: Columns, record: map<string, Scalar>, negated: bool)
    requires BuiltIn(code)
    requires AdmittedIds(code, arguments, context) == if arguments == map[] then Some(iset{id}) else None
    ensures var p := EqualPredicate(GovernedField(code, resource), arguments, id);
            (Reads(ValidatePredicate(p, resource), columns, record, negated)
             <==> ConditionReads(code, arguments, resource, context, handlers, columns, record, negated))
  {
    hide ValidatePredicate, EqualPredicate, AdmittedIds, Reads, UsableField, Matches, GovernedField, BuiltIn;
    EqualReads(GovernedField(code, resource), arguments, id, resource, columns, record, negated);
    assert id in iset{id};
  }

  lemma BuiltInReads(
    code: string, arguments: Arguments, resource: Resource, context: Context, handlers: Handlers,
    columns: Columns, record: map<string, Scalar>, negated: bool)
    requires BuiltIn(code)
    ensures Reads(CompileCondition(code, arguments, resource, context, handlers), columns, record, negated)
       <==> ConditionReads(code, arguments, resource, context, handlers, columns, record, negated)
  {
    hide ValidatePredicate, InPredicate, EqualPredicate, ReadIdList, UsersOfRoles, Distinct, Reads, ConditionReads;
    if code == CURRENT_USER {
      OwnReads(code, arguments, context.userId, resource, context, handlers, columns, record, negated);
    } else if code == CURRENT_ORGANIZATION {
      OwnReads(code, arguments, context.organizationId, resource, context, handlers, columns, record, negated);
    } else {
      var ids := ListedIds(code, arguments, context);
      ListedAreAdmitted(code, arguments, context);
      AdmittedReads(code, arguments, ids, resource, context, handlers, columns, record, negated);
    }
  }

  /** The identifiers that the compiler lists for a built-in list operator. */
  function ListedIds(code: string, arguments: Arguments, context: Context): Option<seq<string>> {
    if code == CURRENT_ORGANIZATION_DESCENDANTS then
      if arguments == map[] then Some(context.organizationDescendantIds) else None
    else if code == SPECIFIED_ROLES then
      var roleIds := ReadIdList(arguments, "roleIds");
      if roleIds.Some? then Some(Distinct(UsersOfRoles(roleIds.value, context.userIdsByRoleId))) else None
    else ReadIdList(arguments, if code == SPECIFIED_USERS then "userIds" else "organizationIds")
  }

  lemma ListedAreAdmitted(code: string, arguments: Arguments, context: Context)
    requires BuiltIn(code) && code != CURRENT_USER && code != CURRENT_ORGANIZATION
    ensures var ids, admitted := ListedIds(code, arguments, context), AdmittedIds(code, arguments, context);
            && (admitted.Some? <==> ids.Some? && |ids.value| <= 500)
            && (admitted.Some? ==> forall id :: id in admitted.value <==> id in ids.value)
  {
    hide ReadIdList, UsersOfRoles, Distinct;
    if code == SPECIFIED_ROLES {
      var roleIds := ReadIdList(arguments, "roleIds");
      if roleIds.Some? { RoleUsers(roleIds.value, context.userIdsByRoleId); }
    }
  }

  /** SQL reads a compiled expression as the rule itself is read, condition by condition. */
  lemma {:induction false} CompiledExpressionReads(
    e: Expression, resource: Resource, context: Context, handlers: Handlers,
    columns: Columns, record: map<string, Scalar>, negated: bool)
    ensures Reads(CompileExpression(e, resource, context, handlers), columns, record, negated)
       <==> ExpressionReads(e, resource, context, handlers, columns, record, negated)
  {
    match e
    case All =>
    case Condition(code, arguments) =>
      if BuiltIn(code) { BuiltInReads(code, arguments, resource, context, handlers, columns, record, negated); }
    case Both(parts) =>
      forall p | p in parts
        ensures Reads(CompileExpression(p, resource, context, handlers), columns, record, negated)
           <==> ExpressionReads(p, resource, context, handlers, columns, record, negated)
      {
        CompiledExpressionReads(p, resource, context, handlers, columns, record, negated);
      }
      PartsMembers(parts, resource, context, handlers);
      ConjunctionReads(CompileParts(parts, resource, context, handlers), columns, record, negated);
    case Either(parts) =>
      forall p | p in parts
        ensures Reads(CompileExpression(p, resource, context, handlers), columns, record, negated)
           <==> ExpressionReads(p, resource, context, handlers, columns, record, negated)
      {
        CompiledExpressionReads(p, resource, context, handlers, columns, record, negated);
      }
      PartsMembers(parts, resource, context, handlers);
      DisjunctionReads(CompileParts(parts, resource, context, handlers), columns, record, negated);
  }

  /** SQL reads some rule in force with this effect as covering the record. */
  ghost predicate SomeRuleReads(
    rules: seq<EffectiveRule>, effect: Effect, resource: Resource, context: Context, handlers: Handlers,
    columns: Columns, record: map<string, Scalar>)
  {
    exists r | r in rules ::
      && About(r, resource) && RuleParses(r.rule) && r.effect == effect
      && ExpressionReads(r.rule.expression, resource, context, handlers, columns, record, effect == Deny)
  }

  /** Every rule is usable, some allow rule is read as covering the record and no deny rule is. */
  ghost predicate PolicyReturns(
    rules: seq<EffectiveRule>, resource: Resource, context: Context, handlers: Handlers,
    columns: Columns, record: map<string, Scalar>)
  {
    && (forall r | r in rules && About(r, resource) :: !Unusable(r, resource, context, handlers))
    && SomeRuleReads(rules, Allow, resource, context, handlers, columns, record)
    && !SomeRuleReads(rules, Deny, resource, context, handlers, columns, record)
  }

  /** As access is granted, with rules as SQL reads them. */
  ghost predicate RecordReturned(
    resources: map<string, Resource>, handlers: Handlers, resourceType: string, context: Context,
    rules: seq<EffectiveRule>, columns: Columns, record: map<string, Scalar>)
  {
    && resourceType in resources
    && var resource := resources[resourceType];
       || context.isSuperAdministrator
       || (&& resource.permissionCode in context.permissionCodes
           && if resource.accessModel == Global then forall r | r in rules :: !About(r, resource)
              else PolicyReturns(rules, resource, context, handlers, columns, record))
  }

  lemma CompiledRulesRead(
    rules: seq<EffectiveRule>, effect: Effect, resource: Resource, context: Context, handlers: Handlers,
    columns: Columns, record: map<string, Scalar>)
    requires forall r | r in rules :: !Rejected(r, resource, context, handlers) && About(r, resource)
    ensures var ps := CompiledRules(rules, effect, resource, context, handlers);
            (Reads(OrPredicates(ps), columns, record, effect == Deny)
             <==> SomeRuleReads(rules, effect, resource, context, handlers, columns, record))
  {
    hide CompileExpression, ExpressionReads, CompiledRules, OrPredicates, Reads, RuleParses;
    var ps, negated := CompiledRules(rules, effect, resource, context, handlers), effect == Deny;
    CompiledRulesMembers(rules, effect, resource, context, handlers);
    DisjunctionReads(ps, columns, record, negated);
    if p :| p in ps && Reads(p, columns, record, negated) {
      assert FromRule(p, rules, effect, resource, context, handlers);
      var r :| r in rules && r.rule.Document? && r.effect == effect
               && p == CompileExpression(r.rule.expression, resource, context, handlers);
      CompiledExpressionReads(r.rule.expression, resource, context, handlers, columns, record, negated);
      assert !Rejected(r, resource, context, handlers);
    }
    if SomeRuleReads(rules, effect, resource, context, handlers, columns, record) {
      var r :| && r in rules && About(r, resource) && RuleParses(r.rule) && r.effect == effect
               && ExpressionReads(r.rule.expression, resource, context, handlers, columns, record, negated);
      CompiledExpressionReads(r.rule.expression, resource, context, handlers, columns, record, negated);
      var p := CompileExpression(r.rule.expression, resource, context, handlers);
      assert FromRule(p, rules, effect, resource, context, handlers);
      assert p in ps;
    }
  }

  lemma RelevantRulesRead(
    rules: seq<EffectiveRule>, effect: Effect, resource: Resource, context: Context, handlers: Handlers,
    columns: Columns, record: map<string, Scalar>)
    ensures SomeRuleReads(Relevant(rules, resource), effect, resource, context, handlers, columns, record)
       <==> SomeRuleReads(rules, effect, resource, context, handlers, columns, record)
  {
    hide ExpressionReads, Relevant;
    if r :| && r in rules && About(r, resource) && RuleParses(r.rule) && r.effect == effect
            && ExpressionReads(r.rule.expression, resource, context, handlers, columns, record, effect == Deny) {
      assert r in Relevant(rules, resource);
    }
  }

  lemma CompiledPolicyReads(
    rules: seq<EffectiveRule>, resource: Resource, context: Context, handlers: Handlers,
    columns: Columns, record: map<string, Scalar>)
    ensures Reads(CompileRules(Relevant(rules, resource), resource, context, handlers), columns, record, false)
       <==> PolicyReturns(rules, resource, context, handlers, columns, record)
  {
    hide ExpressionReads, CompiledRules, OrPredicates, AndPredicates, NegatePredicate, Relevant, Rejected, Unusable,
         SomeRuleReads;
    var relevant := Relevant(rules, resource);
    forall r ensures Rejected(r, resource, context, handlers) <==> Unusable(r, resource, context, handlers) {
      RejectedIffUnusable(r, resource, context, handlers);
    }
    if r :| r in relevant && Rejected(r, resource, context, handlers) {
      assert r in rules && About(r, resource) && Unusable(r, resource, context, handlers);
    } else {
      var allow := CompiledRules(relevant, Allow, resource, context, handlers);
      var deny := CompiledRules(relevant, Deny, resource, context, handlers);
      CompiledRulesRead(relevant, Allow, resource, context, handlers, columns, record);
      CompiledRulesRead(relevant, Deny, resource, context, handlers, columns, record);
      RelevantRulesRead(rules, Allow, resource, context, handlers, columns, record);
      RelevantRulesRead(rules, Deny, resource, context, handlers, columns, record);
      NegationReads(OrPredicates(deny), columns, record, false);
      var both := [OrPredicates(allow), NegatePredicate(OrPredicates(deny))];
      ConjunctionReads(both, columns, record, false);
      assert both[0] in both && both[1] in both;
      DisjunctionReads(allow, columns, record, false);
      forall r | r in rules && About(r, resource) ensures !Unusable(r, resource, context, handlers) {
        assert r in relevant;
      }
    }
  }

  /** SQL reads the compiled policy exactly as its rules are read. */
  lemma CompilationReads(
    resources: map<string, Resource>, handlers: Handlers, resourceType: string, context: Context,
    rules: seq<EffectiveRule>, columns: Columns, record: map<string, Scalar>)
    ensures Reads(CompilePolicy(resources, handlers, resourceType, context, rules), columns, record, false)
       <==> RecordReturned(resources, handlers, resourceType, context, rules, columns, record)
  {
    hide CompileExpression, Unusable, ExpressionReads, Relevant, OrPredicates, AndPredicates, Rejected;
    if resourceType in resources {
      var resource := resources[resourceType];
      var relevant := Relevant(rules, resource);
      if relevant != [] {
        assert relevant[0] in relevant;
        assert !forall r | r in rules :: !About(r, resource);
      } else {
        forall r | r in rules ensures !About(r, resource) { assert r !in relevant; }
      }
      CompiledPolicyReads(rules, resource, context, handlers, columns, record);
    }
  }

  /**
    End to end: with every declared field of the resource mapped, the compiled policy always lowers, and
    the query returns a record exactly when access is granted with rules as SQL reads them. So it returns
    only rows to which access is granted, and all of them on records without NULL in the columns that deny
    rules compare, or that any rule compares under a negation.
   */
  lemma QueryReturnsGrantedRows(
    resources: map<string, Resource>, handlers: Handlers, resourceType: string, context: Context,
    rules: seq<EffectiveRule>, columns: Columns, record: map<string, Scalar>)
    requires resourceType in resources ==> forall f | f in resources[resourceType].fields :: f in columns
    ensures var p := CompilePolicy(resources, handlers, resourceType, context, rules);
            var granted := AccessGranted(resources, handlers, resourceType, context, rules, RowOf(record, columns));
            && NonEmptyJunctions(p)
            && Lower(p, columns).Ok?
            && var truth := Evaluate(Lower(p, columns).value, record);
               && (truth == Yes <==> RecordReturned(resources, handlers, resourceType, context, rules, columns, record))
               && (truth == Yes ==> granted)
               && ((resourceType in resources ==>
                      RulesDecided(rules, resources[resourceType], context, handlers, columns, record)) ==>
                     (granted <==> truth == Yes))
  {
    hide CompilePolicy, AccessGranted, Evaluate, Lower, Holds, RulesDecided, Decided, Reads, RecordReturned;
    var p := CompilePolicy(resources, handlers, resourceType, context, rules);
    CompiledPolicyClosed(resources, handlers, resourceType, context, rules);
    CompilationPreservesMeaning(resources, handlers, resourceType, context, rules, RowOf(record, columns));
    CompilationReads(resources, handlers, resourceType, context, rules, columns, record);
    LoweringFails(p, columns);
    LoweringSound(p, columns, record);
    LoweringReads(p, columns, record);
    if resourceType in resources ==> RulesDecided(rules, resources[resourceType], context, handlers, columns, record) {
      RulesDecide(resources, handlers, resourceType, context, rules, columns, record);
      NullCostsOnlyUnderNegation(p, columns, record);
    }
  }

  // ----- A policy that loses a row

  /** Everyone may see everything but their own records. */
  function AllButOwn(resource: Resource): seq<EffectiveRule> {
    [EffectiveRule(resource.permissionCode, Allow, Document(1, resource.resourceType, All)),
     EffectiveRule(resource.permissionCode, Deny, Document(1, resource.resourceType, Condition(CURRENT_USER, map[])))]
  }

  /** A record without an owner is nobody's own, so access to it is granted; the query does not return it. */
  lemma GrantedRowNotReturned(
    resource: Resource, handlers: Handlers, context: Context, columns: Columns, record: map<string, Scalar>)
    requires |resource.resourceType| >= 3 && resource.accessModel == Policy
    requires UsableField(resource.ownerUserField, resource) && forall f | f in resource.fields :: f in columns
    requires resource.permissionCode in context.permissionCodes && !context.isSuperAdministrator
    requires columns[resource.ownerUserField.value] !in record
    ensures var resources, name := map[resource.resourceType := resource], resource.resourceType;
            var p := CompilePolicy(resources, handlers, name, context, AllButOwn(resource));
            && AccessGranted(resources, handlers, name, context, AllButOwn(resource), RowOf(record, columns))
            && NonEmptyJunctions(p) && Lower(p, columns).Ok? && Evaluate(Lower(p, columns).value, record) != Yes
  {
    var resources, name, rules := map[resource.resourceType := resource], resource.resourceType, AllButOwn(resource);
    hide CompilePolicy, Evaluate, Lower, RulesDecided, NonEmptyJunctions, PolicyGrants, PolicyReturns;
    QueryReturnsGrantedRows(resources, handlers, name, context, rules, columns, record);
    AllButOwnGrants(resource, handlers, context, RowOf(record, columns));
    AllButOwnHides(resource, handlers, context, columns, record);
  }

  lemma AllButOwnGrants(resource: Resource, handlers: Handlers, context: Context, row: Row)
    requires |resource.resourceType| >= 3
    requires UsableField(resource.ownerUserField, resource) && resource.ownerUserField.value !in row
    ensures PolicyGrants(AllButOwn(resource), resource, context, handlers, row)
  {
    var rules := AllButOwn(resource);
    var allow, deny := rules[0], rules[1];
    assert forall r | r in rules :: r == allow || r == deny;
    assert allow in rules && Denotes(allow.rule.expression, resource, context, handlers, row);
  }

  lemma AllButOwnHides(
    resource: Resource, handlers: Handlers, context: Context, columns: Columns, record: map<string, Scalar>)
    requires |resource.resourceType| >= 3 && UsableField(resource.ownerUserField, resource)
    requires resource.ownerUserField.value in columns && columns[resource.ownerUserField.value] !in record
    ensures !PolicyReturns(AllButOwn(resource), resource, context, handlers, columns, record)
  {
    var deny := AllButOwn(resource)[1];
    assert context.userId in AdmittedIds(CURRENT_USER, map[], context).value;
    assert Matches(resource.ownerUserField.value, Text(context.userId), columns, record, true);
    assert ConditionReads(CURRENT_USER, map[], resource, context, handlers, columns, record, true);
    assert deny in AllButOwn(resource) && About(deny, resource);
    assert ExpressionReads(deny.rule.expression, resource, context, handlers, columns, record, true);
  }
}
