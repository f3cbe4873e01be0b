/**
  Data-permission rules: what a rule document says about a row, and the compiler that turns the
  rules in force into one neutral predicate.
 */
module DataPermissions {
  import opened Wrappers
  import opened NeutralPredicates

  // ----- Rules, resources and the execution context

  datatype Argument =
    | TextArgument(text: string)
    | NumberArgument(number: real)
    | FlagArgument(flag: bool)
    | TextList(texts: seq<string>)
    | NumberList(numbers: seq<real>)
    | FlagList(flags: seq<bool>)

  type Arguments = map<string, Argument>

  datatype Expression =
    | All
    | Both(parts: seq<Expression>)
    | Either(parts: seq<Expression>)
    | Condition(operatorCode: string, arguments: Arguments)

  /** A stored rule is arbitrary JSON: `Malformed` is an object that is not a rule document. */
  datatype RawRule =
    | NotAnObject
    | Malformed(declaredType: Option<string>)
    | Document(version: int, resourceType: string, expression: Expression)

  datatype Effect = Allow | Deny

  datatype EffectiveRule = EffectiveRule(permissionCode: string, effect: Effect, rule: RawRule)

  datatype AccessModel = Policy | Global

  datatype Resource = Resource(
    resourceType: string,
    permissionCode: string,
    accessModel: AccessModel,
    fields: seq<string>,
    operatorCodes: seq<string>,
    ownerUserField: Option<string>,
    organizationField: Option<string>)

  datatype Context = Context(
    userId: string,
    organizationId: string,
    permissionCodes: seq<string>,
    organizationDescendantIds: seq<string>,
    userIdsByRoleId: map<string, seq<string>>,
    isSuperAdministrator: bool)

  /** A module's own operator either throws, returns something that is no predicate, or returns one. */
  datatype HandlerOutcome = Threw | NotAPredicate | Returned(predicateTree: Predicate)

  type Handler = (Arguments, Context, Resource) -> HandlerOutcome

  type Handlers = map<string, Handler>

  const CURRENT_USER := "base.current-user"
  const CURRENT_ORGANIZATION := "base.current-organization"
  const CURRENT_ORGANIZATION_DESCENDANTS := "base.current-organization-descendants"
  const SPECIFIED_ORGANIZATIONS := "base.specified-organizations"
  const SPECIFIED_USERS := "base.specified-users"
  const SPECIFIED_ROLES := "base.specified-roles"

  predicate ExpressionParses(e: Expression) {
    match e
    case All => true
    case Both(parts) => 1 <= |parts| <= 20 && forall p | p in parts :: ExpressionParses(p)
    case Either(parts) => 1 <= |parts| <= 20 && forall p | p in parts :: ExpressionParses(p)
    case Condition(code, _) => |code| >= 3
  }

  predicate RuleParses(rule: RawRule): (parses: bool)
    ensures parses ==> rule.Document?
  {
    rule.Document? && rule.version == 1 && |rule.resourceType| >= 3 && ExpressionParses(rule.expression)
  }

  function DeclaredType(rule: RawRule): Option<string> {
    match rule
    case NotAnObject => None
    case Malformed(declaredType) => declaredType
    case Document(_, resourceType, _) => Some(resourceType)
  }

  // ----- Reading condition arguments

  predicate IsId(s: string) {
    s != [] && forall c | c in s :: '0' <= c <= '9'
  }

  /** The single argument `key`, when it is an array of numeric identifiers. An empty array is one. */
  function ReadIdList(arguments: Arguments, key: string): Option<seq<string>> {
    if |arguments| != 1 || key !in arguments then None
    else
      match arguments[key]
      case TextList(texts) => if forall id | id in texts :: IsId(id) then Some(texts) else None
      case NumberList(numbers) => if numbers == [] then Some([]) else None
      case FlagList(flags) => if flags == [] then Some([]) else None
      case _ => None
  }

  /** The distinct elements in order of first appearance. */
  function Distinct(xs: seq<string>): (ys: seq<string>)
    ensures forall x :: x in ys <==> x in xs
    ensures |ys| == |set x | x in xs|
  {
    if xs == [] then []
    else
      var front := xs[..|xs| - 1];
      var last := xs[|xs| - 1];
      assert xs == front + [last];
      assert (set x | x in xs) == (set x | x in front) + {last};
      assert last in front ==> (set x | x in xs) == (set x | x in front);
      if last in front then Distinct(front) else Distinct(front) + [last]
  }

  function UsersOfRoles(roleIds: seq<string>, usersByRole: map<string, seq<string>>): (users: seq<string>)
    ensures forall u :: u in users <==> exists r | r in roleIds :: r in usersByRole && u in usersByRole[r]
  {
    if roleIds == [] then []
    else
      assert forall r :: r in roleIds <==> r == roleIds[0] || r in roleIds[1..];
      (if roleIds[0] in usersByRole then usersByRole[roleIds[0]] else [])
      + UsersOfRoles(roleIds[1..], usersByRole)
  }

  function TextScalars(xs: seq<string>): (ys: seq<Scalar>)
    ensures |ys| == |xs| && forall i | 0 <= i < |xs| :: ys[i] == Text(xs[i])
  {
    seq(|xs|, i requires 0 <= i < |xs| => Text(xs[i]))
  }

  // ----- Compilation

  function InPredicate(field: Option<string>, ids: Option<seq<string>>): Predicate {
    if ids.Some? && field.Some? && field.value != "" then In(field.value, TextScalars(ids.value)) else False
  }

  function EqualPredicate(field: Option<string>, arguments: Arguments, id: string): Predicate {
    if arguments == map[] && field.Some? && field.value != "" then Equal(field.value, Text(id)) else False
  }

  /** The predicate of a built-in operator, or None when the code is not built in. */
  function BasePredicate(code: string, arguments: Arguments, resource: Resource, context: Context): Option<Predicate> {
    if code == CURRENT_USER then
      Some(EqualPredicate(resource.ownerUserField, arguments, context.userId))
    else if code == CURRENT_ORGANIZATION then
      Some(EqualPredicate(resource.organizationField, arguments, context.organizationId))
    else if code == CURRENT_ORGANIZATION_DESCENDANTS then
      Some(InPredicate(resource.organizationField,
                       if arguments == map[] then Some(context.organizationDescendantIds) else None))
    else if code == SPECIFIED_ORGANIZATIONS then
      Some(InPredicate(resource.organizationField, ReadIdList(arguments, "organizationIds")))
    else if code == SPECIFIED_USERS then
      Some(InPredicate(resource.ownerUserField, ReadIdList(arguments, "userIds")))
    else if code == SPECIFIED_ROLES then
      var roleIds := ReadIdList(arguments, "roleIds");
      Some(InPredicate(resource.ownerUserField,
                       if roleIds.Some? then Some(Distinct(UsersOfRoles(roleIds.value, context.userIdsByRoleId)))
                       else None))
    else None
  }

  function ValidatePredicate(p: Predicate, resource: Resource): Predicate {
    if SchemaAccepts(p) && FieldsWithin(p, resource.fields) then p else False
  }

  function CompileCondition(
    code: string, arguments: Arguments, resource: Resource, context: Context, handlers: Handlers): Predicate
  {
    var base := BasePredicate(code, arguments, resource, context);
    if base.Some? then ValidatePredicate(base.value, resource)
    else if code !in resource.operatorCodes || code !in handlers then False
    else
      match handlers[code](arguments, context, resource)
      case Returned(p) => ValidatePredicate(p, resource)
      case _ => False
  }

  function CompileExpression(e: Expression, resource: Resource, context: Context, handlers: Handlers): Predicate
    decreases e, 1
  {
    match e
    case All => True
    case Both(parts) => AndPredicates(CompileParts(parts, resource, context, handlers))
    case Either(parts) => OrPredicates(CompileParts(parts, resource, context, handlers))
    case Condition(code, arguments) => CompileCondition(code, arguments, resource, context, handlers)
  }

  function CompileParts(
    parts: seq<Expression>, resource: Resource, context: Context, handlers: Handlers): seq<Predicate>
    decreases parts, 0
  {
    if parts == [] then []
    else [CompileExpression(parts[0], resource, context, handlers)]
         + CompileParts(parts[1..], resource, context, handlers)
  }

  // ----- What is admissible, read off the documents themselves

  /** `part` is `e` or a part of it, at any depth. */
  ghost predicate Within(part: Expression, e: Expression) {
    || part == e
    || (match e
        case Both(parts) => exists p | p in parts :: Within(part, p)
        case Either(parts) => exists p | p in parts :: Within(part, p)
        case _ => false)
  }

  /** One to twenty parts, and an operator code of three characters or more. */
  predicate WellSized(part: Expression) {
    && (part.Both? || part.Either? ==> |part.parts| >= 1 && |part.parts| < 21)
    && (part.Condition? ==> |part.operatorCode| > 2)
  }

  lemma {:induction false} ExpressionParsesIff(e: Expression)
    ensures ExpressionParses(e) <==> forall part | Within(part, e) :: WellSized(part)
  {
    assert Within(e, e);
    if e.Both? || e.Either? {
      forall p | p in e.parts ensures ExpressionParses(p) <==> forall part | Within(part, p) :: WellSized(part) {
        ExpressionParsesIff(p);
      }
      forall part, p | p in e.parts && Within(part, p) ensures Within(part, e) {}
    }
  }

  /** A rule parses exactly when it is a document of version 1, for a named resource, all of it well sized. */
  lemma RuleParsesIff(rule: RawRule)
    ensures RuleParses(rule)
       <==> && rule.Document? && rule.version == 1 && |rule.resourceType| > 2
            && forall part | Within(part, rule.expression) :: WellSized(part)
  {
    if rule.Document? { ExpressionParsesIff(rule.expression); }
  }

  /** A rule names a resource type whether or not the rest of it parses. */
  predicate Names(rule: RawRule, resourceType: string) {
    match rule
    case NotAnObject => false
    case Malformed(declaredType) => declaredType.Some? && declaredType.value == resourceType
    case Document(_, declaredType, _) => declaredType == resourceType
  }

  /** The only argument is a list of identifiers, each of one digit or more. */
  ghost predicate ListsIds(arguments: Arguments, key: string, ids: seq<string>) {
    && (forall i | 0 <= i < |ids| :: |ids[i]| >= 1 && forall j | 0 <= j < |ids[i]| :: 48 <= ids[i][j] as int <= 57)
    && (|| arguments == map[key := TextList(ids)]
        || (ids == [] && arguments == map[key := NumberList([])])
        || (ids == [] && arguments == map[key := FlagList([])]))
  }

  lemma ReadIdListIff(arguments: Arguments, key: string, ids: seq<string>)
    ensures ReadIdList(arguments, key) == Some(ids) <==> ListsIds(arguments, key, ids)
  {
    if |arguments| == 1 && key in arguments {
      OnlyKey(arguments, key);
      forall id | id in ids ensures IsId(id) <==> |id| >= 1 && forall j | 0 <= j < |id| :: 48 <= id[j] as int <= 57 {
        DigitsByPosition(id);
      }
    }
  }

  lemma OnlyKey(arguments: Arguments, key: string)
    requires |arguments| == 1 && key in arguments
    ensures arguments == map[key := arguments[key]]
  {
    assert arguments.Keys == {key} + (arguments.Keys - {key});
    assert |arguments.Keys - {key}| == 0;
  }

  lemma DigitsByPosition(id: string)
    ensures IsId(id) <==> |id| >= 1 && forall j | 0 <= j < |id| :: 48 <= id[j] as int <= 57
  {
    if IsId(id) { forall j | 0 <= j < |id| ensures 48 <= id[j] as int <= 57 { assert id[j] in id; } }
    if |id| >= 1 && forall j | 0 <= j < |id| :: 48 <= id[j] as int <= 57 {
      forall c | c in id ensures '0' <= c <= '9' { var j :| 0 <= j < |id| && id[j] == c; }
    }
  }

  // ----- What a rule means, independently of predicates

  /** A field the resource both points at and declares, with an admissible name. */
  predicate UsableField(field: Option<string>, resource: Resource) {
    field.Some? && FieldName(field.value) && field.value in resource.fields
  }

  function RowText(field: Option<string>, row: Row): Option<Scalar> {
    if field.Some? && field.value in row then Some(row[field.value]) else None
  }

  /** The identifiers that a built-in list operator admits; None when its arguments are invalid. */
  ghost function AdmittedIds(code: string, arguments: Arguments, context: Context): Option<iset<string>> {
    if code == CURRENT_USER then
      if arguments == map[] then Some(iset{context.userId}) else None
    else if code == CURRENT_ORGANIZATION then
      if arguments == map[] then Some(iset{context.organizationId}) else None
    else if code == CURRENT_ORGANIZATION_DESCENDANTS then
      if arguments == map[] && |context.organizationDescendantIds| <= 500
      then Some(iset id | id in context.organizationDescendantIds) else None
    else if code == SPECIFIED_ROLES then
      var roles := ReadIdList(arguments, "roleIds");
      if roles.None? then None
      else
        var users := set r, u | r in roles.value && r in context.userIdsByRoleId
                                && u in context.userIdsByRoleId[r] :: u;
        if |users| <= 500 then Some(iset u | u in users) else None
    else
      var ids := ReadIdList(arguments, if code == SPECIFIED_USERS then "userIds" else "organizationIds");
      if ids.Some? && |ids.value| <= 500 then Some(iset id | id in ids.value) else None
  }

  predicate BuiltIn(code: string) {
    code in {CURRENT_USER, CURRENT_ORGANIZATION, CURRENT_ORGANIZATION_DESCENDANTS,
             SPECIFIED_ORGANIZATIONS, SPECIFIED_USERS, SPECIFIED_ROLES}
  }

  function GovernedField(code: string, resource: Resource): Option<string> {
    if code in {CURRENT_USER, SPECIFIED_USERS, SPECIFIED_ROLES}
    then resource.ownerUserField else resource.organizationField
  }

  /** Whether a condition is valid for the resource, rather than standing for "nothing". */
  ghost predicate ConditionValid(
    code: string, arguments: Arguments, resource: Resource, context: Context, handlers: Handlers)
  {
    if BuiltIn(code) then
      UsableField(GovernedField(code, resource), resource) && AdmittedIds(code, arguments, context).Some?
    else
      && code in resource.operatorCodes
      && code in handlers
      && var outcome := handlers[code](arguments, context, resource);
         outcome.Returned? && outcome.predicateTree != False
         && SchemaAccepts(outcome.predicateTree) && FieldsWithin(outcome.predicateTree, resource.fields)
  }

  ghost predicate ConditionDenotes(
    code: string, arguments: Arguments, resource: Resource, context: Context, handlers: Handlers, row: Row)
  {
    && ConditionValid(code, arguments, resource, context, handlers)
    && if BuiltIn(code) then
         exists id | id in AdmittedIds(code, arguments, context).value ::
           RowText(GovernedField(code, resource), row) == Some(Text(id))
       else Holds(handlers[code](arguments, context, resource).predicateTree, row)
  }

  ghost predicate Denotes(e: Expression, resource: Resource, context: Context, handlers: Handlers, row: Row) {
    match e
    case All => true
    case Both(parts) => forall p | p in parts :: Denotes(p, resource, context, handlers, row)
    case Either(parts) => exists p | p in parts :: Denotes(p, resource, context, handlers, row)
    case Condition(code, arguments) => ConditionDenotes(code, arguments, resource, context, handlers, row)
  }

  /** An expression is void when invalid conditions leave it no way to accept any row. */
  ghost predicate Void(e: Expression, resource: Resource, context: Context, handlers: Handlers) {
    match e
    case All => false
    case Both(parts) => exists p | p in parts :: Void(p, resource, context, handlers)
    case Either(parts) => forall p | p in parts :: Void(p, resource, context, handlers)
    case Condition(code, arguments) => !ConditionValid(code, arguments, resource, context, handlers)
  }

  lemma ListMeaning(field: Option<string>, ids: Option<seq<string>>, resource: Resource, row: Row)
    ensures var p := ValidatePredicate(InPredicate(field, ids), resource);
            var valid := UsableField(field, resource) && ids.Some? && |ids.value| <= 500;
            && (p == False <==> !valid)
            && (Holds(p, row) <==> valid && exists id | id in ids.value :: RowText(field, row) == Some(Text(id)))
  {
    var p := InPredicate(field, ids);
    if p.In? {
      assert PredicateFields(p) == [field.value];
      forall id ensures id in ids.value <==> Text(id) in p.values {
        if id in ids.value {
          var k :| 0 <= k < |ids.value| && ids.value[k] == id;
          assert p.values[k] == Text(id);
        }
      }
    }
  }

  lemma EqualMeaning(field: Option<string>, arguments: Arguments, id: string, resource: Resource, row: Row)
    ensures var p := ValidatePredicate(EqualPredicate(field, arguments, id), resource);
            var valid := UsableField(field, resource) && arguments == map[];
            && (p == False <==> !valid)
            && (Holds(p, row) <==> valid && RowText(field, row) == Some(Text(id)))
  {
    var p := EqualPredicate(field, arguments, id);
    if p.Equal? { assert PredicateFields(p) == [field.value]; }
  }

  /** The identifier list the compiler builds for a list operator admits the same identifiers. */
  lemma RoleUsers(roleIds: seq<string>, usersByRole: map<string, seq<string>>)
    ensures var users := set r, u | r in roleIds && r in usersByRole && u in usersByRole[r] :: u;
            var listed := Distinct(UsersOfRoles(roleIds, usersByRole));
            |listed| == |users| && forall u :: u in listed <==> u in users
  {
    assert (set u | u in UsersOfRoles(roleIds, usersByRole))
        == set r, u | r in roleIds && r in usersByRole && u in usersByRole[r] :: u;
  }

  lemma BuiltInMeaning(
    code: string, arguments: Arguments, resource: Resource, context: Context, handlers: Handlers, row: Row)
    requires BuiltIn(code)
    ensures var p := CompileCondition(code, arguments, resource, context, handlers);
            && (p == False <==> !ConditionValid(code, arguments, resource, context, handlers))
            && (Holds(p, row) <==> ConditionDenotes(code, arguments, resource, context, handlers, row))
  {
    hide ValidatePredicate, InPredicate, EqualPredicate, ReadIdList, UsersOfRoles, Distinct, Holds, UsableField;
    var field := GovernedField(code, resource);
    if code == CURRENT_USER {
      EqualMeaning(field, arguments, context.userId, resource, row);
    } else if code == CURRENT_ORGANIZATION {
      EqualMeaning(field, arguments, context.organizationId, resource, row);
    } else if code == CURRENT_ORGANIZATION_DESCENDANTS {
      ListMeaning(field, if arguments == map[] then Some(context.organizationDescendantIds) else None, resource, row);
    } else if code == SPECIFIED_ROLES {
      var roleIds := ReadIdList(arguments, "roleIds");
      var ids := if roleIds.Some? then Some(Distinct(UsersOfRoles(roleIds.value, context.userIdsByRoleId))) else None;
      if roleIds.Some? { RoleUsers(roleIds.value, context.userIdsByRoleId); }
      ListMeaning(field, ids, resource, row);
    } else {
      ListMeaning(field, ReadIdList(arguments, if code == SPECIFIED_USERS then "userIds" else "organizationIds"),
        resource, row);
    }
  }

  /** A compiled condition accepts exactly the rows it denotes, and is constant false exactly when it is invalid. */
  lemma ConditionMeaning(
    code: string, arguments: Arguments, resource: Resource, context: Context, handlers: Handlers, row: Row)
    ensures var p := CompileCondition(code, arguments, resource, context, handlers);
            && (p == False <==> !ConditionValid(code, arguments, resource, context, handlers))
            && (Holds(p, row) <==> ConditionDenotes(code, arguments, resource, context, handlers, row))
  {
    if BuiltIn(code) {
      BuiltInMeaning(code, arguments, resource, context, handlers, row);
    }
  }

  /** The field is one the resource declares, properly named, and holds the identifier. */
  ghost predicate FieldHolds(field: Option<string>, resource: Resource, row: Row, id: string) {
    && field.Some? && CamelCase(field.value) && field.value in resource.fields
    && field.value in row && row[field.value] == Text(id)
  }

  /** The conditions on the current user and organization take no argument and accept what is theirs. */
  lemma CurrentAccepts(
    arguments: Arguments, resource: Resource, context: Context, handlers: Handlers, row: Row)
    ensures Holds(CompileCondition("base.current-user", arguments, resource, context, handlers), row)
       <==> arguments == map[] && FieldHolds(resource.ownerUserField, resource, row, context.userId)
    ensures Holds(CompileCondition("base.current-organization", arguments, resource, context, handlers), row)
       <==> arguments == map[] && FieldHolds(resource.organizationField, resource, row, context.organizationId)
    ensures Holds(CompileCondition("base.current-organization-descendants", arguments, resource, context, handlers),
        row)
       <==> && arguments == map[] && |context.organizationDescendantIds| <= 500
            && exists id | id in context.organizationDescendantIds ::
                 FieldHolds(resource.organizationField, resource, row, id)
  {
    hide CompileCondition, Holds;
    ConditionMeaning(CURRENT_USER, arguments, resource, context, handlers, row);
    ConditionMeaning(CURRENT_ORGANIZATION, arguments, resource, context, handlers, row);
    ConditionMeaning(CURRENT_ORGANIZATION_DESCENDANTS, arguments, resource, context, handlers, row);
    if resource.ownerUserField.Some? { FieldNameIff(resource.ownerUserField.value); }
    if resource.organizationField.Some? { FieldNameIff(resource.organizationField.value); }
    hide FieldName, CamelCase;
  }

  /**
    The conditions on specified users, organizations and roles take a list of at most 500 identifiers and
    accept the rows whose owner or organization is listed, or whose owner has a listed role.
   */
  lemma SpecifiedAccepts(
    arguments: Arguments, resource: Resource, context: Context, handlers: Handlers, row: Row)
    ensures Holds(CompileCondition("base.specified-users", arguments, resource, context, handlers), row)
       <==> exists ids: seq<string>, id | ListsIds(arguments, "userIds", ids) && id in ids ::
              |ids| <= 500 && FieldHolds(resource.ownerUserField, resource, row, id)
    ensures Holds(CompileCondition("base.specified-organizations", arguments, resource, context, handlers), row)
       <==> exists ids: seq<string>, id | ListsIds(arguments, "organizationIds", ids) && id in ids ::
              |ids| <= 500 && FieldHolds(resource.organizationField, resource, row, id)
  {
    IdListAccepts(SPECIFIED_USERS, arguments, resource, context, handlers, row);
    IdListAccepts(SPECIFIED_ORGANIZATIONS, arguments, resource, context, handlers, row);
  }

  lemma IdListAccepts(
    code: string, arguments: Arguments, resource: Resource, context: Context, handlers: Handlers, row: Row)
    requires code == SPECIFIED_USERS || code == SPECIFIED_ORGANIZATIONS
    ensures var key := if code == SPECIFIED_USERS then "userIds" else "organizationIds";
            var field := if code == SPECIFIED_USERS then resource.ownerUserField else resource.organizationField;
            (Holds(CompileCondition(code, arguments, resource, context, handlers), row)
             <==> exists ids: seq<string>, id | ListsIds(arguments, key, ids) && id in ids ::
                    |ids| <= 500 && FieldHolds(field, resource, row, id))
  {
    var key := if code == SPECIFIED_USERS then "userIds" else "organizationIds";
    var field := if code == SPECIFIED_USERS then resource.ownerUserField else resource.organizationField;
    forall ids: seq<string> ensures ReadIdList(arguments, key) == Some(ids) <==> ListsIds(arguments, key, ids) {
      ReadIdListIff(arguments, key, ids);
    }
    hide CompileCondition, Holds, ReadIdList, ListsIds;
    ConditionMeaning(code, arguments, resource, context, handlers, row);
    if field.Some? { FieldNameIff(field.value); }
    hide FieldName, CamelCase;
  }

  lemma RolesAccept(
    arguments: Arguments, resource: Resource, context: Context, handlers: Handlers, row: Row)
    ensures Holds(CompileCondition("base.specified-roles", arguments, resource, context, handlers), row)
       <==> exists ids: seq<string>, role, id |
              && ListsIds(arguments, "roleIds", ids) && role in ids
              && role in context.userIdsByRoleId && id in context.userIdsByRoleId[role] ::
              FieldHolds(resource.ownerUserField, resource, row, id) && |UsersWithRoles(ids, context)| <= 500
  {
    forall ids: seq<string>
      ensures ReadIdList(arguments, "roleIds") == Some(ids) <==> ListsIds(arguments, "roleIds", ids) {
      ReadIdListIff(arguments, "roleIds", ids);
    }
    hide CompileCondition, Holds, ReadIdList, ListsIds;
    ConditionMeaning(SPECIFIED_ROLES, arguments, resource, context, handlers, row);
    if resource.ownerUserField.Some? { FieldNameIff(resource.ownerUserField.value); }
    hide FieldName, CamelCase;
    var roles := ReadIdList(arguments, "roleIds");
    if roles.Some? {
      assert forall ids :: ListsIds(arguments, "roleIds", ids) <==> ids == roles.value;
      assert AdmittedIds(SPECIFIED_ROLES, arguments, context)
          == if |UsersWithRoles(roles.value, context)| <= 500
             then Some(iset u | u in UsersWithRoles(roles.value, context)) else None;
    } else {
      assert forall ids :: !ListsIds(arguments, "roleIds", ids);
    }
  }

  /** The users who have one of the roles. */
  function UsersWithRoles(roleIds: seq<string>, context: Context): set<string> {
    set r, u | r in roleIds && r in context.userIdsByRoleId && u in context.userIdsByRoleId[r] :: u
  }

  ghost predicate DeclaredField(field: Option<string>, resource: Resource) {
    field.Some? && CamelCase(field.value) && field.value in resource.fields
  }

  /**
    Identifiers that are not all digits, another argument key or further arguments, more than 500
    identifiers, and a field that is not declared or not properly named make these conditions void.
   */
  lemma SpecifiedVoidIff(
    arguments: Arguments, resource: Resource, context: Context, handlers: Handlers)
    ensures CompileCondition("base.specified-users", arguments, resource, context, handlers) == False
       <==> !(&& DeclaredField(resource.ownerUserField, resource)
              && exists ids: seq<string> :: ListsIds(arguments, "userIds", ids) && |ids| <= 500)
    ensures CompileCondition("base.specified-organizations", arguments, resource, context, handlers) == False
       <==> !(&& DeclaredField(resource.organizationField, resource)
              && exists ids: seq<string> :: ListsIds(arguments, "organizationIds", ids) && |ids| <= 500)
    ensures CompileCondition("base.specified-roles", arguments, resource, context, handlers) == False
       <==> !(&& DeclaredField(resource.ownerUserField, resource)
              && exists ids: seq<string> ::
                   ListsIds(arguments, "roleIds", ids) && |UsersWithRoles(ids, context)| <= 500)
  {
    hide CompileCondition, ListsIds, DeclaredField, UsersWithRoles;
    IdListVoidIff(SPECIFIED_USERS, arguments, resource, context, handlers);
    IdListVoidIff(SPECIFIED_ORGANIZATIONS, arguments, resource, context, handlers);
    RolesVoidIff(arguments, resource, context, handlers);
  }

  lemma IdListVoidIff(
    code: string, arguments: Arguments, resource: Resource, context: Context, handlers: Handlers)
    requires code == SPECIFIED_USERS || code == SPECIFIED_ORGANIZATIONS
    ensures var key := if code == SPECIFIED_USERS then "userIds" else "organizationIds";
            var field := if code == SPECIFIED_USERS then resource.ownerUserField else resource.organizationField;
            (CompileCondition(code, arguments, resource, context, handlers) == False
             <==> !(&& DeclaredField(field, resource)
                    && exists ids: seq<string> :: ListsIds(arguments, key, ids) && |ids| <= 500))
  {
    var key := if code == SPECIFIED_USERS then "userIds" else "organizationIds";
    var field := if code == SPECIFIED_USERS then resource.ownerUserField else resource.organizationField;
    forall ids: seq<string> ensures ReadIdList(arguments, key) == Some(ids) <==> ListsIds(arguments, key, ids) {
      ReadIdListIff(arguments, key, ids);
    }
    hide CompileCondition, Holds, ReadIdList, ListsIds;
    ConditionMeaning(code, arguments, resource, context, handlers, map[]);
    if field.Some? { FieldNameIff(field.value); }
    hide FieldName, CamelCase;
  }

  lemma RolesVoidIff(arguments: Arguments, resource: Resource, context: Context, handlers: Handlers)
    ensures CompileCondition(SPECIFIED_ROLES, arguments, resource, context, handlers) == False
       <==> !(&& DeclaredField(resource.ownerUserField, resource)
              && exists ids: seq<string> ::
                   ListsIds(arguments, "roleIds", ids) && |UsersWithRoles(ids, context)| <= 500)
  {
    forall ids: seq<string>
      ensures ReadIdList(arguments, "roleIds") == Some(ids) <==> ListsIds(arguments, "roleIds", ids) {
      ReadIdListIff(arguments, "roleIds", ids);
    }
    hide CompileCondition, Holds, ReadIdList, ListsIds;
    ConditionMeaning(SPECIFIED_ROLES, arguments, resource, context, handlers, map[]);
    if resource.ownerUserField.Some? { FieldNameIff(resource.ownerUserField.value); }
    hide FieldName, CamelCase;
  }

  lemma {:induction false} PartsIndexed(
    parts: seq<Expression>, resource: Resource, context: Context, handlers: Handlers)
    ensures var ps := CompileParts(parts, resource, context, handlers);
            && |ps| == |parts|
            && forall i | 0 <= i < |parts| :: ps[i] == CompileExpression(parts[i], resource, context, handlers)
  {
    if parts != [] {
      PartsIndexed(parts[1..], resource, context, handlers);
    }
  }

  lemma PartsMembers(parts: seq<Expression>, resource: Resource, context: Context, handlers: Handlers)
    ensures forall e | e in parts ::
              CompileExpression(e, resource, context, handlers) in CompileParts(parts, resource, context, handlers)
    ensures forall p | p in CompileParts(parts, resource, context, handlers) ::
              exists e | e in parts :: p == CompileExpression(e, resource, context, handlers)
  {
    PartsIndexed(parts, resource, context, handlers);
    var ps := CompileParts(parts, resource, context, handlers);
    forall p | p in ps ensures exists e | e in parts :: p == CompileExpression(e, resource, context, handlers) {
      var i :| 0 <= i < |ps| && ps[i] == p;
      assert parts[i] in parts;
    }
  }

  /** Compiling an expression preserves its meaning, and gives constant false exactly when it is void. */
  lemma {:induction false} ExpressionMeaning(
    e: Expression, resource: Resource, context: Context, handlers: Handlers, row: Row)
    ensures var p := CompileExpression(e, resource, context, handlers);
            && (p == False <==> Void(e, resource, context, handlers))
            && (Holds(p, row) <==> Denotes(e, resource, context, handlers, row))
  {
    match e
    case All =>
    case Condition(code, arguments) => ConditionMeaning(code, arguments, resource, context, handlers, row);
    case Both(parts) =>
      forall p | p in parts
        ensures var q := CompileExpression(p, resource, context, handlers);
                && (q == False <==> Void(p, resource, context, handlers))
                && (Holds(q, row) <==> Denotes(p, resource, context, handlers, row))
      {
        ExpressionMeaning(p, resource, context, handlers, row);
      }
      PartsMembers(parts, resource, context, handlers);
      AndMeaning(CompileParts(parts, resource, context, handlers), row);
    case Either(parts) =>
      forall p | p in parts
        ensures var q := CompileExpression(p, resource, context, handlers);
                && (q == False <==> Void(p, resource, context, handlers))
                && (Holds(q, row) <==> Denotes(p, resource, context, handlers, row))
      {
        ExpressionMeaning(p, resource, context, handlers, row);
      }
      PartsMembers(parts, resource, context, handlers);
      OrMeaning(CompileParts(parts, resource, context, handlers), row);
  }

  /** A compiled expression mentions declared fields only and has no empty junction. */
  lemma {:induction false} ExpressionClosed(e: Expression, resource: Resource, context: Context, handlers: Handlers)
    ensures Closed(CompileExpression(e, resource, context, handlers), resource.fields)
  {
    match e
    case All =>
    case Condition(code, arguments) =>
      var p := CompileCondition(code, arguments, resource, context, handlers);
      if p != False { SchemaHasNoEmptyJunctions(p); }
    case Both(parts) =>
      forall p | p in parts ensures Closed(CompileExpression(p, resource, context, handlers), resource.fields) {
        ExpressionClosed(p, resource, context, handlers);
      }
      PartsMembers(parts, resource, context, handlers);
      ConstructorsKeepClosed(CompileParts(parts, resource, context, handlers), resource.fields);
    case Either(parts) =>
      forall p | p in parts ensures Closed(CompileExpression(p, resource, context, handlers), resource.fields) {
        ExpressionClosed(p, resource, context, handlers);
      }
      PartsMembers(parts, resource, context, handlers);
      ConstructorsKeepClosed(CompileParts(parts, resource, context, handlers), resource.fields);
  }

  // ----- The policy of a resource

  predicate About(rule: EffectiveRule, resource: Resource) {
    DeclaredType(rule.rule) == Some(resource.resourceType)
  }

  function Relevant(rules: seq<EffectiveRule>, resource: Resource): (relevant: seq<EffectiveRule>)
    ensures forall r :: r in relevant <==> r in rules && About(r, resource)
    ensures forall r :: r in relevant <==> r in rules && Names(r.rule, resource.resourceType)
  {
    if rules == [] then []
    else
      assert forall r :: r in rules <==> r == rules[0] || r in rules[1..];
      (if About(rules[0], resource) then [rules[0]] else []) + Relevant(rules[1..], resource)
  }

  predicate Rejected(rule: EffectiveRule, resource: Resource, context: Context, handlers: Handlers): (rejected: bool)
    ensures !rejected ==> rule.rule.Document?
  {
    || !RuleParses(rule.rule)
    || rule.permissionCode != resource.permissionCode
    || CompileExpression(rule.rule.expression, resource, context, handlers) == False
  }

  /** The compiled expressions of the rules with one effect, in order. */
  function CompiledRules(
    rules: seq<EffectiveRule>, effect: Effect, resource: Resource, context: Context, handlers: Handlers): seq<Predicate>
    requires forall r | r in rules :: !Rejected(r, resource, context, handlers)
  {
    if rules == [] then []
    else
      var last := rules[|rules| - 1];
      assert last in rules && !Rejected(last, resource, context, handlers);
      CompiledRules(rules[..|rules| - 1], effect, resource, context, handlers)
      + if last.effect == effect then [CompileExpression(last.rule.expression, resource, context, handlers)] else []
  }

  function CompileRules(
    relevant: seq<EffectiveRule>, resource: Resource, context: Context, handlers: Handlers): Predicate
  {
    if exists r | r in relevant :: Rejected(r, resource, context, handlers) then False
    else
      var allow := CompiledRules(relevant, Allow, resource, context, handlers);
      var deny := CompiledRules(relevant, Deny, resource, context, handlers);
      if allow == [] then False
      else AndPredicates([OrPredicates(allow), NegatePredicate(OrPredicates(deny))])
  }

  /** The predicate for one resource type, given the declared resources. */
  function CompilePolicy(
    resources: map<string, Resource>, handlers: Handlers, resourceType: string, context: Context,
    rules: seq<EffectiveRule>): Predicate
  {
    if resourceType !in resources then False
    else
      var resource := resources[resourceType];
      var relevant := Relevant(rules, resource);
      if context.isSuperAdministrator then True
      else if resource.permissionCode !in context.permissionCodes then False
      else if resource.accessModel == Global then if relevant == [] then True else False
      else if relevant == [] then False
      else CompileRules(relevant, resource, context, handlers)
  }

  /** A rule that cannot be trusted: unreadable, for another permission, or void. */
  ghost predicate Unusable(rule: EffectiveRule, resource: Resource, context: Context, handlers: Handlers) {
    || !RuleParses(rule.rule)
    || rule.permissionCode != resource.permissionCode
    || Void(rule.rule.expression, resource, context, handlers)
  }

  /** Some rule in force with this effect is about the resource and covers the row. */
  ghost predicate SomeRuleCovers(
    rules: seq<EffectiveRule>, effect: Effect, resource: Resource, context: Context, handlers: Handlers, row: Row)
  {
    exists r | r in rules ::
      && About(r, resource) && RuleParses(r.rule) && r.effect == effect
      && Denotes(r.rule.expression, resource, context, handlers, row)
  }

  /** The access a policy resource grants: every rule usable, some allow covers, no deny covers. */
  ghost predicate PolicyGrants(
    rules: seq<EffectiveRule>, resource: Resource, context: Context, handlers: Handlers, row: Row)
  {
    && (forall r | r in rules && About(r, resource) :: !Unusable(r, resource, context, handlers))
    && SomeRuleCovers(rules, Allow, resource, context, handlers, row)
    && !SomeRuleCovers(rules, Deny, resource, context, handlers, row)
  }

  ghost predicate AccessGranted(
    resources: map<string, Resource>, handlers: Handlers, resourceType: string, context: Context,
    rules: seq<EffectiveRule>, row: Row)
  {
    && resourceType in resources
    && var resource := resources[resourceType];
       || context.isSuperAdministrator
       || (&& resource.permissionCode in context.permissionCodes
           && if resource.accessModel == Global then forall r | r in rules :: !About(r, resource)
              else PolicyGrants(rules, resource, context, handlers, row))
  }

  /** `p` is the compiled expression of one of the rules with this effect. */
  ghost predicate FromRule(
    p: Predicate, rules: seq<EffectiveRule>, effect: Effect, resource: Resource, context: Context, handlers: Handlers)
  {
    exists r | r in rules ::
      r.rule.Document? && r.effect == effect && p == CompileExpression(r.rule.expression, resource, context, handlers)
  }

  lemma {:induction false} CompiledRulesMembers(
    rules: seq<EffectiveRule>, effect: Effect, resource: Resource, context: Context, handlers: Handlers)
    requires forall r | r in rules :: !Rejected(r, resource, context, handlers)
    ensures forall p :: p in CompiledRules(rules, effect, resource, context, handlers)
                   <==> FromRule(p, rules, effect, resource, context, handlers)
  {
    hide CompileExpression, Rejected;
    if rules != [] {
      var front, last := rules[..|rules| - 1], rules[|rules| - 1];
      CompiledRulesMembers(front, effect, resource, context, handlers);
      assert last in rules && !Rejected(last, resource, context, handlers);
      forall p ensures p in CompiledRules(rules, effect, resource, context, handlers)
                  <==> FromRule(p, rules, effect, resource, context, handlers)
      {
        assert forall r :: r in rules <==> r in front || r == last;
        assert FromRule(p, rules, effect, resource, context, handlers) <==>
          FromRule(p, front, effect, resource, context, handlers)
          || (last.effect == effect && p == CompileExpression(last.rule.expression, resource, context, handlers));
      }
    }
  }

  lemma CoveredByCompiled(
    rules: seq<EffectiveRule>, effect: Effect, resource: Resource, context: Context, handlers: Handlers, row: Row)
    requires forall r | r in rules :: !Rejected(r, resource, context, handlers) && About(r, resource)
    ensures Holds(OrPredicates(CompiledRules(rules, effect, resource, context, handlers)), row)
       <==> SomeRuleCovers(rules, effect, resource, context, handlers, row)
  {
    hide CompileExpression, Denotes, CompiledRules, OrPredicates, Holds, RuleParses;
    var ps := CompiledRules(rules, effect, resource, context, handlers);
    CompiledRulesMembers(rules, effect, resource, context, handlers);
    OrMeaning(ps, row);
    if p :| p in ps && Holds(p, row) {
      assert FromRule(p, rules, effect, resource, context, handlers);
      var r :| r in rules && r.rule.Document? && r.effect == effect
               && p == CompileExpression(r.rule.expression, resource, context, handlers);
      ExpressionMeaning(r.rule.expression, resource, context, handlers, row);
      assert !Rejected(r, resource, context, handlers);
    }
    if SomeRuleCovers(rules, effect, resource, context, handlers, row) {
      var r :| && r in rules && About(r, resource) && RuleParses(r.rule) && r.effect == effect
               && Denotes(r.rule.expression, resource, context, handlers, row);
      ExpressionMeaning(r.rule.expression, resource, context, handlers, row);
      var p := CompileExpression(r.rule.expression, resource, context, handlers);
      assert FromRule(p, rules, effect, resource, context, handlers);
      assert p in ps;
    }
  }

  /** A rule makes the compiler deny everything exactly when it is unusable. */
  lemma RejectedIffUnusable(rule: EffectiveRule, resource: Resource, context: Context, handlers: Handlers)
    ensures Rejected(rule, resource, context, handlers) <==> Unusable(rule, resource, context, handlers)
  {
    if rule.rule.Document? {
      ExpressionMeaning(rule.rule.expression, resource, context, handlers, map[]);
    }
  }

  lemma RelevantCovers(
    rules: seq<EffectiveRule>, effect: Effect, resource: Resource, context: Context, handlers: Handlers, row: Row)
    ensures SomeRuleCovers(Relevant(rules, resource), effect, resource, context, handlers, row)
       <==> SomeRuleCovers(rules, effect, resource, context, handlers, row)
  {
    hide Denotes, Relevant;
    if r :| && r in rules && About(r, resource) && RuleParses(r.rule) && r.effect == effect
            && Denotes(r.rule.expression, resource, context, handlers, row) {
      assert r in Relevant(rules, resource);
    }
  }

  /** A compiled policy accepts exactly the rows the policy grants. */
  lemma PolicyMeaning(
    rules: seq<EffectiveRule>, resource: Resource, context: Context, handlers: Handlers, row: Row)
    ensures Holds(CompileRules(Relevant(rules, resource), resource, context, handlers), row)
       <==> PolicyGrants(rules, resource, context, handlers, row)
  {
    hide Denotes, CompiledRules, OrPredicates, AndPredicates, NegatePredicate, Relevant, Rejected, Unusable,
      SomeRuleCovers;
    var relevant := Relevant(rules, resource);
    forall r ensures Rejected(r, resource, context, handlers) <==> Unusable(r, resource, context, handlers) {
      RejectedIffUnusable(r, resource, context, handlers);
    }
    if r :| r in relevant && Rejected(r, resource, context, handlers) {
      assert r in rules && About(r, resource) && Unusable(r, resource, context, handlers);
    } else {
      var allow := CompiledRules(relevant, Allow, resource, context, handlers);
      var deny := CompiledRules(relevant, Deny, resource, context, handlers);
      CoveredByCompiled(relevant, Allow, resource, context, handlers, row);
      CoveredByCompiled(relevant, Deny, resource, context, handlers, row);
      RelevantCovers(rules, Allow, resource, context, handlers, row);
      RelevantCovers(rules, Deny, resource, context, handlers, row);
      NegateMeaning(OrPredicates(deny), row);
      var both := [OrPredicates(allow), NegatePredicate(OrPredicates(deny))];
      AndMeaning(both, row);
      assert both[0] in both && both[1] in both;
      OrMeaning(allow, row);
      forall r | r in rules && About(r, resource) ensures !Unusable(r, resource, context, handlers) {
        assert r in relevant;
      }
    }
  }

  /**
    The compiler preserves meaning and fails closed: the compiled predicate accepts a row exactly
    when access to it is granted.
   */
  lemma CompilationPreservesMeaning(
    resources: map<string, Resource>, handlers: Handlers, resourceType: string, context: Context,
    rules: seq<EffectiveRule>, row: Row)
    ensures Holds(CompilePolicy(resources, handlers, resourceType, context, rules), row)
       <==> AccessGranted(resources, handlers, resourceType, context, rules, row)
  {
    hide CompileExpression, Unusable, Denotes, Relevant, OrPredicates, AndPredicates, Rejected;
    if resourceType in resources {
      var resource := resources[resourceType];
      var relevant := Relevant(rules, resource);
      if relevant != [] {
        assert relevant[0] in relevant;
        assert !forall r | r in rules :: !About(r, resource);
      } else {
        forall r | r in rules ensures !About(r, resource) { assert r !in relevant; }
      }
      PolicyMeaning(rules, resource, context, handlers, row);
    }
  }

  /** Whatever is compiled mentions only fields its resource declares, and no empty junction. */
  lemma CompiledPolicyClosed(
    resources: map<string, Resource>, handlers: Handlers, resourceType: string, context: Context,
    rules: seq<EffectiveRule>)
    ensures Closed(CompilePolicy(resources, handlers, resourceType, context, rules),
                   if resourceType in resources then resources[resourceType].fields else [])
  {
    hide Relevant, CompileExpression, CompiledRules, OrPredicates, AndPredicates, Rejected;
    if resourceType in resources {
      var resource := resources[resourceType];
      var relevant := Relevant(rules, resource);
      if forall r | r in relevant :: !Rejected(r, resource, context, handlers) {
        var allow := CompiledRules(relevant, Allow, resource, context, handlers);
        var deny := CompiledRules(relevant, Deny, resource, context, handlers);
        CompiledRulesMembers(relevant, Allow, resource, context, handlers);
        CompiledRulesMembers(relevant, Deny, resource, context, handlers);
        forall r: EffectiveRule | r in relevant
          ensures Closed(CompileExpression(r.rule.expression, resource, context, handlers), resource.fields)
        {
          ExpressionClosed(r.rule.expression, resource, context, handlers);
        }
        ConstructorsKeepClosed(allow, resource.fields);
        ConstructorsKeepClosed(deny, resource.fields);
        ConstructorsKeepClosed([OrPredicates(allow), NegatePredicate(OrPredicates(deny))], resource.fields);
      }
    }
  }

  /** The order of the rules, and their repetition, is irrelevant to what is granted. */
  lemma RuleOrderIrrelevant(
    resources: map<string, Resource>, handlers: Handlers, resourceType: string, context: Context,
    rules: seq<EffectiveRule>, others: seq<EffectiveRule>, row: Row)
    requires forall r :: r in rules <==> r in others
    ensures Holds(CompilePolicy(resources, handlers, resourceType, context, rules), row)
       <==> Holds(CompilePolicy(resources, handlers, resourceType, context, others), row)
  {
    hide CompilePolicy, Denotes, Unusable, RuleParses, Holds;
    CompilationPreservesMeaning(resources, handlers, resourceType, context, rules, row);
    CompilationPreservesMeaning(resources, handlers, resourceType, context, others, row);
  }

  /** Adding a deny rule, valid or not, never widens access. */
  lemma AddingDenyNeverWidens(
    resources: map<string, Resource>, handlers: Handlers, resourceType: string, context: Context,
    rules: seq<EffectiveRule>, deny: EffectiveRule, row: Row)
    requires deny.effect == Deny
    requires Holds(CompilePolicy(resources, handlers, resourceType, context, rules + [deny]), row)
    ensures Holds(CompilePolicy(resources, handlers, resourceType, context, rules), row)
  {
    hide CompilePolicy, Denotes, Unusable, RuleParses, Holds;
    CompilationPreservesMeaning(resources, handlers, resourceType, context, rules, row);
    CompilationPreservesMeaning(resources, handlers, resourceType, context, rules + [deny], row);
    assert forall r :: r in rules + [deny] <==> r in rules || r == deny;
  }

  // ----- The compiler object

  function ResourcesOf(definitions: seq<seq<Resource>>): seq<Resource> {
    if definitions == [] then []
    else ResourcesOf(definitions[..|definitions| - 1]) + definitions[|definitions| - 1]
  }

  /** Definitions are read one after the other, each with its resources in their order. */
  lemma {:induction false} ResourcesInOrder(a: seq<seq<Resource>>, b: seq<seq<Resource>>, one: seq<Resource>)
    ensures ResourcesOf([one]) == one
    ensures ResourcesOf(a + b) == ResourcesOf(a) + ResourcesOf(b)
    decreases |b|
  {
    assert [one][..0] == [] && ResourcesOf([]) == [];
    if b == [] {
      assert a + b == a;
    } else {
      assert (a + b)[..|a + b| - 1] == a + b[..|b| - 1];
      ResourcesInOrder(a, b[..|b| - 1], one);
    }
  }

  /** `table` maps each declared type to its last declaration. */
  ghost predicate LastDeclarationWins(table: map<string, Resource>, declared: seq<Resource>) {
    && (forall t :: t in table <==> exists i :: 0 <= i < |declared| && declared[i].resourceType == t)
    && (forall t | t in table ::
          exists i :: 0 <= i < |declared| && declared[i].resourceType == t && table[t] == declared[i]
                      && forall j :: i < j < |declared| ==> declared[j].resourceType != t)
  }

  lemma DeclareOneMore(table: map<string, Resource>, declared: seq<Resource>, resource: Resource)
    requires LastDeclarationWins(table, declared)
    ensures LastDeclarationWins(table[resource.resourceType := resource], declared + [resource])
  {
    var table' := table[resource.resourceType := resource];
    var declared' := declared + [resource];
    assert declared'[|declared|] == resource;
    forall t ensures t in table' <==> exists i :: 0 <= i < |declared'| && declared'[i].resourceType == t {
      if i :| 0 <= i < |declared| && declared[i].resourceType == t {
        assert declared'[i].resourceType == t;
      }
    }
    forall t | t in table'
      ensures exists i :: 0 <= i < |declared'| && declared'[i].resourceType == t && table'[t] == declared'[i]
                          && forall j :: i < j < |declared'| ==> declared'[j].resourceType != t
    {
      if t != resource.resourceType {
        var i :| 0 <= i < |declared| && declared[i].resourceType == t && table[t] == declared[i]
                 && forall j :: i < j < |declared| ==> declared[j].resourceType != t;
        assert declared'[i] == declared[i];
      }
    }
  }

  class DataPermissionCompiler {
    var resources: map<string, Resource>
    const handlers: Handlers

    constructor (definitions: seq<seq<Resource>>, handlers: Handlers)
      ensures this.handlers == handlers
      ensures LastDeclarationWins(resources, ResourcesOf(definitions))
    {
      this.handlers := handlers;
      var table: map<string, Resource> := map[];
      for d := 0 to |definitions|
        invariant LastDeclarationWins(table, ResourcesOf(definitions[..d]))
      {
        var declared := definitions[d];
        ghost var earlier := ResourcesOf(definitions[..d]);
        assert definitions[..d + 1][..d] == definitions[..d];
        assert earlier + declared[..0] == earlier;
        for k := 0 to |declared|
          invariant LastDeclarationWins(table, earlier + declared[..k])
        {
          DeclareOneMore(table, earlier + declared[..k], declared[k]);
          assert earlier + declared[..k] + [declared[k]] == earlier + declared[..k + 1];
          table := table[declared[k].resourceType := declared[k]];
        }
        assert earlier + declared[..|declared|] == earlier + declared;
      }
      assert definitions[..|definitions|] == definitions;
      resources := table;
    }

    method Compile(resourceType: string, context: Context, rules: seq<EffectiveRule>) returns (p: Predicate)
      ensures p == CompilePolicy(resources, handlers, resourceType, context, rules)
      ensures forall row :: Holds(p, row) <==> AccessGranted(resources, handlers, resourceType, context, rules, row)
    {
      hide Denotes, CompileExpression, AccessGranted, Relevant, Holds, OrPredicates, AndPredicates, NegatePredicate,
        RuleParses;
      forall row
        ensures Holds(CompilePolicy(resources, handlers, resourceType, context, rules), row)
           <==> AccessGranted(resources, handlers, resourceType, context, rules, row)
      {
        CompilationPreservesMeaning(resources, handlers, resourceType, context, rules, row);
      }
      if resourceType !in resources { return False; }
      var resource := resources[resourceType];
      if context.isSuperAdministrator { return True; }
      if resource.permissionCode !in context.permissionCodes { return False; }
      var relevant := Relevant(rules, resource);
      if resource.accessModel == Global { return if |relevant| == 0 then True else False; }
      if |relevant| == 0 { return False; }

      var allow: seq<Predicate>, deny: seq<Predicate> := [], [];
      for i := 0 to |relevant|
        invariant forall r | r in relevant[..i] :: !Rejected(r, resource, context, handlers)
        invariant allow == CompiledRules(relevant[..i], Allow, resource, context, handlers)
        invariant deny == CompiledRules(relevant[..i], Deny, resource, context, handlers)
      {
        var candidate := relevant[i];
        assert candidate in relevant;
        if !RuleParses(candidate.rule) || candidate.permissionCode != resource.permissionCode { return False; }
        var compiled := CompileExpression(candidate.rule.expression, resource, context, handlers);
        if compiled == False { return False; }
        assert relevant[..i + 1][..i] == relevant[..i];
        if candidate.effect == Allow { allow := allow + [compiled]; } else { deny := deny + [compiled]; }
      }
      assert relevant[..|relevant|] == relevant;
      if |allow| == 0 { return False; }
      return AndPredicates([OrPredicates(allow), NegatePredicate(OrPredicates(deny))]);
    }
  }
}
