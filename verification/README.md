# Verified model of the admin base's decision code

This project models, in Dafny, the parts of the admin system whose correctness is decided by a few
hundred lines of TypeScript, and proves what those lines are for. Each module follows one source
component. Code that computes a value is a function; code that changes things step by step is a method
or a class whose contract ties it to a function of the old state; a database transaction is one atomic
step of a state machine, and invariants are proved over every run of those steps.

| module | component |
|---|---|
| `NeutralPredicates`, `DataPermissions`, `SqlLowering` | the data-permission compiler, its simplifying constructors, and the translation to SQL under three-valued logic |
| `Calendar`, `Cron` | UTC calendar arithmetic (ECMA-262, section 21.4.1), the five-field parser and the search for the next run |
| `OrgPath`, `Announcements` | organization paths packed into 63 bits, subtree ranges, announcement targets and visibility |
| `WebhookDeliveries`, `WebhookRows`, `WebhookProtocol`, `RetryPolicy` | the webhook outbox, deliveries and their retries |
| `EmailDeliveries`, `EmailRows`, `EmailProtocol` | e-mail deliveries and the purge of their encrypted content |
| `JobQueues`, `Schedulers` | the database job queue and the cron scheduler |
| `LeaseLocks`, `RateLimits` | the lease locks and the fixed-window rate limiters, database and in-memory |
| `Csv`, `SmtpMessages`, `SmtpReplies` | CSV exports against RFC 4180, messages and replies against RFC 5321 |
| `Ordering`, `CanonicalJson`, `JsonText`, `ModuleHashes`, `ModuleRegistry` | canonical JSON and its text (ECMA-262, section 25.5.2), the hashes of module definitions, and the deterministic registry |
| `Wrappers`, `Arithmetic`, `Tables` | shared option and result types, facts about division, updates of several rows |

Time is a parameter in milliseconds, read again wherever the code reads its clock again. What the outside
world decides (handler outcomes, HTTP responses, the rows a query returns, whether a payload parses) is a
parameter too; a query answer is a parameter constrained by what the query asks for. Deliveries, jobs and
schedules carry ghost records of the past (claims, inserted pairs, outcomes, events) only so that
conservation can be stated.

Two kinds of statement are made about deliveries, queued jobs and schedules. Some hold over every
interleaving of any number of workers, including late ones that report on a claim they no longer hold.
Others assume the lease hypothesis: a worker reports while the row is still running under its claim, or,
for a schedule, before the lease of its claim ends. The code does not enforce that hypothesis, so for each
of them a concrete run shows what goes wrong without it, and an if-and-only-if over whole runs says exactly
which reports break what is stated under it:

| | run without it | exact condition over runs |
|---|---|---|
| webhooks | `WebhookProtocol.LateWorkerExceedsAttempts` | `WebhookProtocol.BoundedIffHarmless` |
| e-mail | `EmailProtocol.LateWorkerStrandsDelivery` | `EmailProtocol.BoundedIffHarmless` |
| queue | `JobQueues.LateWorkerRepeatsEvent`, `JobQueues.LateWorkerRevivesJob` | `JobQueues.AtMostOneEventIff`, `JobQueues.FinishedJobsStayIff` |
| scheduler | `Schedulers.LapsedClaimAnnouncesEarly` | `Schedulers.AccountedIffInTurn` |

## Where the code and its promises part

- A claim of webhook deliveries with a limit that is not positive still takes one
  (`WebhookProtocol.ZeroLimitStillClaims`); otherwise the limit is kept.
- `recordAttempt`, `completeJob` and `failJob` do not check the row's status. A late report can change a
  delivery or job that has finished: push the attempts of a webhook delivery past their maximum, leave an
  e-mail delivery pending without content for ever, announce a dead-lettered job twice, or turn it into a
  succeeded one.
- A claim of webhook deliveries looks at four times its limit of ready rows. A subscription whose rows all
  come after those is passed over even when the claim takes less than its limit
  (`WebhookProtocol.ShortClaimServes`), and one unreadable stored payload at the head of the ready rows
  fails every claim (`WebhookProtocol.UnreadableHeadBlocksClaims`).
- One unreadable outbox payload among the oldest pending events undoes the whole fan-out pass, again on
  every pass (`WebhookProtocol.FanOutBlocksOrPublishes`).
- A schedule whose weekday field is a wildcard and that allows no date existing in every year (29 February,
  say) fails to find a run from 1 March 2021; all other parsed schedules always find one
  (`Cron.NeverStarvesIff`, `Cron.OnlyLeapDaysRunIff`). A successful scheduled run counts as a failure when
  its next run is not found (`Schedulers.SuccessCountsIff`).
- A scheduler's claim that lapses unreported still uses up an attempt, so that a failure can be announced
  before as many failures were recorded as the maximum asks for (`Schedulers.LapsedClaimAnnouncesEarly`).
- Encoding undoes decoding of a path number exactly for positive numbers below 2^63 without a zero byte
  before a non-zero one; zero decodes to a path that cannot be encoded.
- The database lock lets the same owner in again while it holds the lock, and its fencing token starts
  again at 1 after a release; the in-memory lock does neither. An acquisition is refused although the key
  is free when its holder gives it up between the acquisition's two statements
  (`LeaseLocks.TakeSucceedsIff`).
- A fixed window lets a burst of twice the limit pass within one window length
  (`RateLimits.AlignedBoundReached`); one call less when the first call opens the window.
- SQL reads a comparison with a NULL column as a match under an odd number of negations, in practice in a
  deny rule, and as no match elsewhere. A granted row is missed exactly when, so read, no allow rule covers
  it or some deny rule does (`SqlLowering.QueryReturnsGrantedRows`, with `SqlLowering.GrantedRowNotReturned`
  for a policy that loses rows); without NULL in such columns none is missed.
- Dot-stuffing also doubles a dot after a lone carriage return, a line separator or a paragraph separator,
  where the receiver does not take it back.
- A reply that ends with a bare code and no space, which RFC 5321 (section 4.2.1) allows, is not recognized
  by itself; a later line with the same code and a space ends it, and all lines up to there become one reply.
- A one-column CSV export whose last cell is empty ends in a line feed, which a reader that takes it for
  the end of the last record reads as one row less.

## Model

| member | source | states |
|---|---|---|
| `NeutralPredicates.AndMeaning` | packages/module-sdk/src/business-permissions/predicate-helpers.ts:3-8 | the simplified conjunction holds on exactly the rows on which all parts hold, and is a constant only when it must be |
| `NeutralPredicates.OrMeaning` | packages/module-sdk/src/business-permissions/predicate-helpers.ts:10-15 | the simplified disjunction holds on exactly the rows on which some part holds, and is a constant only when it must be |
| `NeutralPredicates.NegateMeaning` | packages/module-sdk/src/business-permissions/predicate-helpers.ts:17-21 | the simplified negation holds on exactly the rows on which the part does not |
| `NeutralPredicates.SingleOperand` | packages/module-sdk/src/business-permissions/predicate-helpers.ts:3-15 | a single operand that matters stands for itself, whatever constants surround it |
| `NeutralPredicates.ConstructorsKeepClosed` | packages/module-sdk/src/business-permissions/predicate-helpers.ts:3-21 | simplification introduces no field and no empty junction |
| `NeutralPredicates.FieldNameIff` | packages/contracts/src/permissions/business-permissions.ts:98-109 | a field name is a lower-case letter and then letters and digits |
| `NeutralPredicates.SchemaAcceptsIff` | packages/contracts/src/permissions/business-permissions.ts:80-112 | a predicate is accepted from an operator exactly when every part of it, at any depth, has one to twenty operands, a proper field name and at most 500 values |
| `NeutralPredicates.FieldsWithinIff` | packages/module-sdk/src/business-permissions/data-permission-compiler.ts:110-120 | its fields are declared exactly when those of all comparisons in it are |
| `DataPermissions.ConditionMeaning` | packages/module-sdk/src/business-permissions/data-permission-compiler.ts:90-182 | a compiled condition accepts exactly the rows the condition denotes, for built-in operators and handlers alike, and an invalid condition accepts none |
| `DataPermissions.ReadIdListIff` | packages/module-sdk/src/business-permissions/data-permission-compiler.ts:174-178 | an identifier list is read exactly when it is the only argument, under its key, and all identifiers are one digit or more |
| `DataPermissions.CurrentAccepts` | packages/module-sdk/src/business-permissions/data-permission-compiler.ts:128-147 | without arguments, a condition on the current user or organization accepts the rows that hold it in the declared field, and one on descendants those that hold one of at most 500 |
| `DataPermissions.SpecifiedAccepts` | packages/module-sdk/src/business-permissions/data-permission-compiler.ts:148-178 | a condition on specified users or organizations accepts exactly the rows whose declared field is one of at most 500 listed identifiers |
| `DataPermissions.RolesAccept` | packages/module-sdk/src/business-permissions/data-permission-compiler.ts:154-161 | one on specified roles accepts exactly the rows whose owner has a listed role, for at most 500 users |
| `DataPermissions.SpecifiedVoidIff` | packages/module-sdk/src/business-permissions/data-permission-compiler.ts:148-178 | these conditions are void exactly for an undeclared field, a bad identifier, another key, further arguments or too many identifiers |
| `DataPermissions.RuleParsesIff` | packages/contracts/src/permissions/business-permissions.ts:36-78 | a rule parses exactly when it is a version 1 document for a named resource whose parts, at any depth, are well sized |
| `DataPermissions.ExpressionMeaning` | packages/module-sdk/src/business-permissions/data-permission-compiler.ts:71-88 | compiling a nested expression preserves its meaning on every row, and gives constant false exactly when no condition in it can save it |
| `DataPermissions.ExpressionClosed` | packages/module-sdk/src/business-permissions/data-permission-compiler.ts:110-120 | a compiled expression mentions declared fields only |
| `DataPermissions.Relevant` | packages/module-sdk/src/business-permissions/data-permission-compiler.ts:44-50 | the rules considered are those that name the resource, whether they parse or not |
| `DataPermissions.RejectedIffUnusable` | packages/module-sdk/src/business-permissions/data-permission-compiler.ts:59-64 | a rule makes the whole policy deny exactly when it does not parse, carries another permission code or can grant nothing |
| `DataPermissions.PolicyMeaning` | packages/module-sdk/src/business-permissions/data-permission-compiler.ts:54-68 | a policy accepts a row exactly when every relevant rule is usable, some allow expression holds and no deny expression does |
| `DataPermissions.CompilationPreservesMeaning` | packages/module-sdk/src/business-permissions/data-permission-compiler.ts:33-69 | the compiled predicate accepts a row exactly when access is granted: unknown resources, super administrators, missing permission codes and global resources included |
| `DataPermissions.CompiledPolicyClosed` | packages/module-sdk/src/business-permissions/data-permission-compiler.ts:110-120 | whatever is compiled mentions only fields its resource declares |
| `DataPermissions.RuleOrderIrrelevant` | packages/module-sdk/src/business-permissions/data-permission-compiler.ts:58-68 | what is granted does not depend on the order or repetition of rules |
| `DataPermissions.AddingDenyNeverWidens` | packages/module-sdk/src/business-permissions/data-permission-compiler.ts:58-68 | adding a deny rule, valid or not, never grants a row that was not granted |
| `DataPermissions.ResourcesInOrder` | packages/module-sdk/src/business-permissions/data-permission-compiler.ts:24-31 | definitions are read one after the other, each with its resources in their order |
| `DataPermissions.DataPermissionCompiler.constructor` | packages/module-sdk/src/business-permissions/data-permission-compiler.ts:24-31 | of several declarations of a resource type the last one counts |
| `DataPermissions.DataPermissionCompiler.Compile` | packages/module-sdk/src/business-permissions/data-permission-compiler.ts:33-69 | the loop over allow and deny lists compiles the policy whose meaning is proved above |
| `SqlLowering.LoweringSound` | packages/db/src/permissions/data-permission-predicate.ts:13-32 | the SQL condition is TRUE only where the predicate is true and FALSE only where it is false |
| `SqlLowering.LoweringExact` | packages/db/src/permissions/data-permission-predicate.ts:13-32 | where no referenced column is NULL, SQL decides exactly as the predicate does |
| `SqlLowering.LoweringReads` | packages/db/src/permissions/data-permission-predicate.ts:13-32 | on every record SQL says TRUE exactly where the predicate holds with NULL counting as a match under an odd number of negations only, and FALSE exactly where it does not hold with NULL counting the other way round |
| `SqlLowering.NullUnderNegation` | packages/db/src/permissions/data-permission-predicate.ts:13-32 | on NULL the two part: a negated comparison is true for the predicate and unknown to SQL |
| `SqlLowering.NullCostsOnlyUnderNegation` | packages/db/src/permissions/data-permission-predicate.ts:13-32 | so a NULL costs a row only under an odd number of negations: with none in the columns compared there, SQL says TRUE exactly where the predicate holds |
| `SqlLowering.RulesDecide` | packages/db/src/permissions/data-permission-predicate.ts:13-32 | for a compiled policy those are the columns a deny rule compares, or any rule under a negation |
| `SqlLowering.BuiltInsNeedNoColumn` | packages/db/src/permissions/data-permission-predicate.ts:13-32 | a built-in condition compares no column under a negation |
| `SqlLowering.LoweringFails` | packages/db/src/permissions/data-permission-predicate.ts:6-26 | lowering fails exactly when a mentioned field has no column, and names such a field |
| `SqlLowering.QueryReturnsGrantedRows` | packages/db/src/permissions/data-permission-predicate.ts:13-32 | end to end: with every declared field mapped, a compiled policy always lowers, and the query returns a row exactly when all rules are usable, some allow expression is read as covering it and no deny expression is, NULL being a match in deny expressions and under their negations; it returns only granted rows, and all of them without NULL in the columns so compared |
| `SqlLowering.CompiledExpressionReads` | packages/module-sdk/src/business-permissions/data-permission-compiler.ts:71-182 | SQL reads a compiled expression as the rule itself, condition by condition, with NULL in the column a built-in governs being a match under a negation |
| `SqlLowering.CompilationReads` | packages/module-sdk/src/business-permissions/data-permission-compiler.ts:33-69 | and a compiled policy as its allow and deny rules, early returns included |
| `SqlLowering.GrantedRowNotReturned` | packages/db/src/permissions/data-permission-predicate.ts:13-32 | a policy of one allow and one deny rule that grants every row without an owner and returns none of them |
| `Calendar.Epoch` | packages/adapters/src/scheduler/cron.ts:105-113 | day 0 is 1 January 1970, a Thursday |
| `Calendar.NextDate` | packages/adapters/src/scheduler/cron.ts:105-113 | the next day has the next date of the month, until its last one by the lengths of the months and the leap-year rule, and then the first of the next month |
| `Calendar.ClockReading` | packages/adapters/src/scheduler/cron.ts:105-113 | a time value is its days, hours, minutes, seconds and milliseconds, and the weekday goes round with the days |
| `Calendar.NextYearStarts` | packages/adapters/src/scheduler/cron.ts:105-113 | consecutive years of the UTC calendar are 365 or 366 days apart by the leap-year rule |
| `Calendar.YearUnique` | packages/adapters/src/scheduler/cron.ts:105-113 | the year read from a day is the one year that contains it |
| `Calendar.DateReadBack` | packages/adapters/src/scheduler/cron.ts:105-113 | month and date read back from a day are those it was made from |
| `Calendar.DateRecurs` | packages/adapters/src/scheduler/cron.ts:1-13 | the same date recurs within 366 days |
| `Calendar.SettersMoveByMinutes` | packages/adapters/src/scheduler/cron.ts:1-13 | clearing the seconds rounds down to the minute and setting the next minute advances by exactly one, across hours, days, months and years |
| `Cron.AddToken` | packages/adapters/src/scheduler/cron.ts:62-79 | the loop adds exactly the values of the token's stepped range, with 7 read as 0 in the weekday field |
| `Cron.ParseField` | packages/adapters/src/scheduler/cron.ts:48-60 | a field is accepted exactly when all its tokens are, and denotes the union of their ranges |
| `Cron.TokenAccepted` | packages/adapters/src/scheduler/cron.ts:69-99 | a token is accepted exactly when its step is positive and its value or span lies within the bounds and does not run backwards; the error says which it is |
| `Cron.TokenMeaning` | packages/adapters/src/scheduler/cron.ts:70-103 | an accepted token denotes the values of its range that are a whole number of steps above its start, with 7 as 0 among weekdays |
| `Cron.DenotedInRange` | packages/adapters/src/scheduler/cron.ts:81-103 | what an accepted field denotes lies in the field's range |
| `Cron.WildcardDenotesAll` | packages/adapters/src/scheduler/cron.ts:81-93 | a star denotes every value of the range |
| `Cron.ParseCronExpression` | packages/adapters/src/scheduler/cron.ts:34-46 | five accepted fields give a schedule of non-empty sets in range, each the denotation of its field |
| `Cron.ComputeNextCronRun` | packages/adapters/src/scheduler/cron.ts:1-13 | the minute-by-minute loop returns the next run, or throws when there is none |
| `Cron.NextRunIsLeast` | packages/adapters/src/scheduler/cron.ts:1-13 | the next run is the least whole minute after the start and at most 366 days later that matches; there is none exactly when no such minute matches |
| `Cron.MatchesIff` | packages/adapters/src/scheduler/cron.ts:105-125 | a time matches exactly when minute, hour and month do and so does the day: by date and weekday when one of these fields is a wildcard, by either when both are restricted |
| `Cron.MatchesAt` | packages/adapters/src/scheduler/cron.ts:105-125 | a time of day matches exactly when its minute, hour, month and day do, and of two restricted day fields either may match |
| `Cron.WeekOfMonth` | packages/adapters/src/scheduler/cron.ts:1-13 | any 365 consecutive days contain seven consecutive days of any given month |
| `Cron.RestrictedWeekdayRuns` | packages/adapters/src/scheduler/cron.ts:1-13 | a schedule with a restricted weekday field always finds a run |
| `Cron.EveryYearsDateRuns` | packages/adapters/src/scheduler/cron.ts:1-13 | so does one with a wildcard weekday that allows a date existing in every year |
| `Cron.NoEveryYearsDateStarves` | packages/adapters/src/scheduler/cron.ts:1-13 | without such a date none is found from 1 March 2021 |
| `Cron.OnlyLeapDaysRunIff` | packages/adapters/src/scheduler/cron.ts:1-13 | such a schedule finds a run from a moment exactly when it allows 29 February and one of its minutes on such a day lies within 366 days |
| `Cron.NeverStarvesIff` | packages/adapters/src/scheduler/cron.ts:1-13 | a parsed schedule finds a run from every moment exactly when its weekday is restricted or it allows a date existing in every year |
| `OrgPath.BitwiseMeaning` | packages/db/src/organizations/org-path.ts:30-44 | each bit of a bitwise or, or and, is the or, or and, of the bits there |
| `OrgPath.DisjointBitsAdd` | packages/db/src/organizations/org-path.ts:30 | the bitwise or of a shifted number and a smaller one is their sum |
| `OrgPath.MaskIsByte` | packages/db/src/organizations/org-path.ts:44 | masking with 255 is the remainder modulo 256 |
| `OrgPath.ShiftRightDivides` | packages/db/src/organizations/org-path.ts:43-44 | shifting right divides by a power of two |
| `OrgPath.EncodeOrgPath` | packages/db/src/organizations/org-path.ts:19-34 | the shift-and-or loop packs a valid path base 256, most significant segment first, and refuses others |
| `OrgPath.ValidateSegments` | packages/db/src/organizations/org-path.ts:104-115 | segments are accepted exactly when the first is 1 to 127 and the others 1 to 255 |
| `OrgPath.DecodeOrgPath` | packages/db/src/organizations/org-path.ts:36-53 | the shift-and-mask loop reads the bytes up to the first zero |
| `OrgPath.GetOrgPathRange` | packages/db/src/organizations/org-path.ts:55-76 | the range runs from the prefix to the prefix filled with 255 |
| `OrgPath.IsDescendantPath` | packages/db/src/organizations/org-path.ts:78-85 | the descendant test is the range test without the ancestor itself |
| `OrgPath.AllocateNextOrgSegment` | packages/db/src/organizations/org-path.ts:87-102 | the least free segment of a level, or exhaustion exactly when none is free |
| `OrgPath.EncodeMonotone` | packages/db/src/organizations/org-path.ts:19-34 | encoded paths lie strictly between 0 and 2^63 and are ordered exactly as the paths are lexicographically |
| `OrgPath.DecodeAfterEncode` | packages/db/src/organizations/org-path.ts:19-53 | decoding undoes encoding |
| `OrgPath.EncodeAfterDecode` | packages/db/src/organizations/org-path.ts:19-53 | encoding undoes decoding exactly for positive 63-bit numbers without a non-zero byte after a zero one |
| `OrgPath.SubtreeIsPrefixes` | packages/db/src/organizations/org-path.ts:55-76 | an encoded path lies in a subtree range exactly when the subtree's path is a prefix of it |
| `OrgPath.RangeTestDecidesAncestry` | packages/db/src/organizations/org-path.ts:78-85 | the range test on encoded paths decides strict ancestry |
| `OrgPath.SubtreesNestedOrDisjoint` | packages/db/src/organizations/org-path.ts:55-76 | any two subtree ranges are nested along the tree or disjoint |
| `Announcements.CoversIsPrefix` | apps/api/src/modules/communications/announcement.validation.ts:91-100 | a target covers exactly the organizations at or below it |
| `Announcements.ValidateAnnouncementTargets` | apps/api/src/modules/communications/announcement.validation.ts:10-48 | targets are accepted exactly when system scope has none, or organization scope has some, distinct, enabled and pairwise unrelated in the tree; an error names the first rule broken and the first target that breaks it |
| `Announcements.LookUpTargets` | apps/api/src/modules/communications/announcement.validation.ts:26-36 | the lookup finds all targets live, or stops at the first that is unavailable or disabled |
| `Announcements.RequireUnrelated` | apps/api/src/modules/communications/announcement.validation.ts:38-47 | the two loops find a related pair exactly when there is one |
| `Announcements.AtMostOneTargetCovers` | apps/api/src/modules/communications/announcement.validation.ts:10-48 | accepted targets never overlap: at most one covers any organization |
| `Announcements.ShownIffReached` | apps/api/src/modules/communications/announcement.repository.ts:72-79 | some target of a list covers the current organization exactly when a target path is a prefix of the current one |
| `Announcements.ShownMeaning` | apps/api/src/modules/communications/announcement.repository.ts:72-79 | an announcement is shown exactly to those it reaches |
| `Announcements.CurrentIff` | apps/api/src/modules/communications/announcement.repository.ts:60-66 | in the life cycle an announcement is current exactly when it has a time of publication and has not come to its expiry |
| `Announcements.NewerOrders` | apps/api/src/modules/communications/announcement.repository.ts:64 | later publications come first, and of equal ones the greater identifier |
| `Announcements.Page` | apps/api/src/modules/communications/announcement.repository.ts:80-86 | a page is at most its size of consecutive elements, starting after the earlier pages |
| `Announcements.CurrentRowsExist` | apps/api/src/modules/communications/announcement.repository.ts:52-71 | published announcements always have their time, so the query for what is current has an answer in its order at any time |
| `Announcements.PlaceKeepsOrder` | apps/api/src/modules/communications/announcement.repository.ts:52-71 | a newly published announcement has one place in that order |
| `Announcements.VisibleRows` | apps/api/src/modules/communications/announcement.repository.ts:72-79 | the loop over the current rows keeps exactly those that reach the organization, in their order |
| `Announcements.AnnouncementRepository.Create` | apps/api/src/modules/communications/announcement.repository.ts:89-111 | creates a draft exactly when its targets are acceptable |
| `Announcements.ResolvedMeans` | apps/api/src/modules/communications/announcement.validation.ts:50-73 | a change sets what it mentions and keeps the rest, except that system scope drops the targets |
| `Announcements.AnnouncementRepository.Update` | apps/api/src/modules/communications/announcement.repository.ts:113-128 | changes a draft exactly when the resulting targets are acceptable, and nothing otherwise |
| `Announcements.AnnouncementRepository.Publish` | apps/api/src/modules/communications/announcement.repository.ts:130-145 | publishes a draft exactly when its targets are still acceptable and it has not expired; it is then current |
| `Announcements.AnnouncementRepository.Unpublish` | apps/api/src/modules/communications/announcement.repository.ts:147-160 | makes a published announcement a draft again, and no other |
| `Announcements.AnnouncementRepository.Delete` | apps/api/src/modules/communications/announcement.repository.ts:162-183 | removes drafts only |
| `Announcements.AnnouncementRepository.ListCurrent` | apps/api/src/modules/communications/announcement.repository.ts:52-87 | a page of exactly the stored announcements that are current at the time and reach the organization, newest first, with their total; an unknown or deleted organization and a disabled one are told apart |
| `RetryPolicy.ScheduledDelay` | apps/worker/src/webhooks/webhook-delivery.processor.ts:180-186 | delays lie between 30 and 1800 seconds and end at the longest |
| `RetryPolicy.DelayTable` | apps/worker/src/webhooks/webhook-delivery.processor.ts:180-186 | half a minute, two, ten and thirty minutes after the first, second, third and every further attempt |
| `RetryPolicy.DelaysNeverShrink` | apps/worker/src/email/email-delivery.processor.ts:186-190 | delays never shrink from one attempt to the next |
| `RetryPolicy.RetriesAreBounded` | apps/worker/src/webhooks/webhook-delivery.processor.ts:117-194 | a webhook is retried exactly below its last attempt after a network error or a response 408, 425, 429 or from 500 on, and has succeeded exactly for 2xx; every retry lies 30 to 3600 seconds ahead, as Retry-After (RFC 9110, section 10.2.3) asks within those bounds on 429 and 503, and by the fixed schedule otherwise |
| `RetryPolicy.EmailRetriesAreBounded` | apps/worker/src/email/email-delivery.processor.ts:114-190 | an e-mail is retried exactly after a retryable SMTP failure below the last attempt, 30 to 1800 seconds ahead |
| `WebhookDeliveries.MatchingSubscriptions` | apps/worker/src/webhooks/webhook-delivery.repository.ts:247-262 | exactly the enabled, undeleted subscriptions of the event's type, or the one targeted |
| `WebhookDeliveries.PendingEvents` | apps/worker/src/webhooks/webhook-delivery.repository.ts:53-57 | the oldest pending events of the allowed types, as many as the limit |
| `WebhookDeliveries.WebhookDeliveryRepository.InsertDelivery` | apps/worker/src/webhooks/webhook-delivery.repository.ts:218-239 | a pair that has a delivery gets no second one |
| `WebhookDeliveries.WebhookDeliveryRepository.FanOutOne` | apps/worker/src/webhooks/webhook-delivery.repository.ts:207-245 | the loop inserts for all matching subscriptions and publishes, or stops at an unreadable payload |
| `WebhookDeliveries.WebhookDeliveryRepository.FanOutPending` | apps/worker/src/webhooks/webhook-delivery.repository.ts:50-62 | the pass over the pending events, which returns how many it fanned out, or is undone as a whole and throws when one cannot be read |
| `WebhookDeliveries.WebhookDeliveryRepository.RecoverStaleRunning` | apps/worker/src/webhooks/webhook-delivery.repository.ts:64-77 | running deliveries locked before the cutoff become pending, or failed after their last attempt |
| `WebhookDeliveries.WebhookDeliveryRepository.ClaimReady` | apps/worker/src/webhooks/webhook-delivery.repository.ts:79-116 | the loop over selected rows and subscription set takes what the claim specification takes, or throws and undoes everything when a chosen payload cannot be read back |
| `WebhookDeliveries.WebhookDeliveryRepository.RecordAttempt` | apps/worker/src/webhooks/webhook-delivery.repository.ts:118-161 | records the attempt unless its number is taken, and settles the row whatever its status |
| `WebhookRows.MatchingIff` | apps/worker/src/webhooks/webhook-delivery.repository.ts:247-262 | a subscription gets an event exactly when it is enabled, not deleted, subscribed to its type, and the target of a directed notification |
| `WebhookRows.InsertedRow` | apps/worker/src/webhooks/webhook-delivery.repository.ts:207-239 | a pair without a delivery gets a pending one with the subscription's revision, due at once; a pair with one gets none |
| `WebhookRows.RecoveredRow` | apps/worker/src/webhooks/webhook-delivery.repository.ts:64-77 | exactly the rows that run since the timeout are freed and due now, or have failed after their last attempt |
| `WebhookRows.RecordedRow` | apps/worker/src/webhooks/webhook-delivery.repository.ts:118-161 | a report records its attempt unless the number is taken and settles its row and no other: status, due time and lock |
| `WebhookRows.CleanedUp` | apps/worker/src/webhooks/webhook-delivery.repository.ts:163-205 | cleaning up removes the given rows, the attempts of those deliveries, and nothing else |
| `WebhookRows.SubscriptionCanceled` | apps/api/src/modules/communications/webhook.repository.ts:182-189 | changing a subscription cancels exactly its pending deliveries |
| `WebhookRows.ReadyIff` | apps/worker/src/webhooks/webhook-delivery.repository.ts:82-92 | a row is ready when it is pending and due and no delivery of its subscription runs |
| `WebhookRows.DueOrder` | apps/worker/src/webhooks/webhook-delivery.repository.ts:89 | ready rows are ordered by due time and then by identifier |
| `WebhookRows.ClaimExactly` | apps/worker/src/webhooks/webhook-delivery.repository.ts:79-116 | exactly what a claim does to the selected rows: it walks them until it has served its limit of subscriptions, starts and returns an up-to-date row whose subscription is not served yet, cancels an outdated one, and leaves the rest |
| `WebhookRows.ClaimLeavesOthers` | apps/worker/src/webhooks/webhook-delivery.repository.ts:79-116 | a claim leaves every row that was not selected as it is |
| `WebhookRows.UndoneIff` | apps/worker/src/webhooks/webhook-delivery.repository.ts:79-116 | a claim is undone exactly when a row it would start has a payload that cannot be read back |
| `WebhookProtocol.FanOutPublishesExactly` | apps/worker/src/webhooks/webhook-delivery.repository.ts:207-262 | an event that becomes published has a delivery for each subscription matching it then, and for no other |
| `WebhookProtocol.FanOutBlocksOrPublishes` | apps/worker/src/webhooks/webhook-delivery.repository.ts:50-62 | a pass publishes all of the oldest pending events, or changes nothing when one of them cannot be read |
| `WebhookProtocol.ChooseEffect` | apps/worker/src/webhooks/webhook-delivery.repository.ts:94-106 | the walk chooses rows of fresh subscriptions only and changes only rows whose subscription changed |
| `WebhookProtocol.ClaimIsExclusive` | apps/worker/src/webhooks/webhook-delivery.repository.ts:79-116 | a claim returns at most max(1, limit) ready deliveries of distinct subscriptions, none of them running or changed, and starts and counts exactly those |
| `WebhookProtocol.ClaimCount` | apps/worker/src/webhooks/webhook-delivery.repository.ts:79-106 | a claim takes exactly the lesser of its limit and the number of unchanged subscriptions among the selected rows |
| `WebhookProtocol.ShortClaimServes` | apps/worker/src/webhooks/webhook-delivery.repository.ts:79-106 | a claim that stays below its limit serves exactly those subscriptions, and passes one over that has a ready delivery exactly when four times the limit of older rows fill the selection |
| `WebhookProtocol.UnreadableHeadBlocksClaims` | apps/worker/src/webhooks/webhook-delivery.repository.ts:79-116 | while the oldest ready delivery is current but its payload unreadable, no claim of any limit succeeds |
| `WebhookProtocol.ZeroLimitStillClaims` | apps/worker/src/webhooks/webhook-delivery.repository.ts:79-106 | with a limit that is not positive a claim takes one delivery exactly when the oldest ready one is not stale |
| `WebhookProtocol.ClaimHoldsForTimeout` | apps/worker/src/webhooks/webhook-delivery.repository.ts:64-116 | recovery leaves a claimed delivery alone until the timeout has passed, and then frees or fails it |
| `WebhookProtocol.SafeOnEveryRun` | apps/worker/src/webhooks/webhook-delivery.repository.ts:50-262 | over every interleaving, late workers included: at most one running delivery per subscription, one delivery ever per event and subscription, attempts equal claims, running rows are the locked ones, and a published event never becomes pending again |
| `WebhookProtocol.StepKeepsSafe` | apps/worker/src/webhooks/webhook-delivery.repository.ts:50-262 | every single transaction keeps these |
| `WebhookProtocol.BoundedUnderLease` | apps/worker/src/webhooks/webhook-delivery.repository.ts:64-161 | under the lease hypothesis: pending implies attempt below the maximum, claims never exceed it, recorded attempt numbers are distinct and within 1 to attempt, finished deliveries never change |
| `WebhookProtocol.NoAttemptLost` | apps/worker/src/webhooks/webhook-delivery.repository.ts:118-141 | under its lease a report's attempt number is new, so that nothing is dropped |
| `WebhookProtocol.ReportBreaksBoundIff` | apps/worker/src/webhooks/webhook-delivery.repository.ts:142-160 | any report, however late, breaks the attempt bound exactly when it asks to retry a delivery claimed for the last time |
| `WebhookProtocol.ReportChangesFinishedIff` | apps/worker/src/webhooks/webhook-delivery.repository.ts:142-160 | any report, however late, changes a finished delivery exactly unless it repeats its outcome and its due time |
| `WebhookProtocol.ReportEndsOtherRunIff` | apps/worker/src/webhooks/webhook-delivery.repository.ts:142-160 | a report ends a run that another claim started exactly when its delivery is running under another attempt |
| `WebhookProtocol.ReportHarmlessIff` | apps/worker/src/webhooks/webhook-delivery.repository.ts:142-160 | a report keeps all bounds and leaves finished deliveries alone exactly when it is about a claim once made, asks to retry only while attempts are left, and says of a finished delivery only what is so |
| `WebhookProtocol.LeaseIsHarmless` | apps/worker/src/webhooks/webhook-delivery.repository.ts:142-160 | every report under its lease is such a report |
| `WebhookProtocol.BoundedIffHarmless` | apps/worker/src/webhooks/webhook-delivery.repository.ts:64-161 | over every run the bounds hold throughout and finished deliveries never change if and only if every report is of that kind |
| `WebhookProtocol.RecordedRetryWaits` | apps/worker/src/webhooks/webhook-delivery.processor.ts:117-194 | what the processor reports is settled as pending exactly below the last attempt after a network error or a response 408, 425, 429 or from 500 on, 30 to 3600 seconds ahead, and as succeeded exactly for a 2xx response |
| `WebhookProtocol.LateWorkerExceedsAttempts` | apps/worker/src/webhooks/webhook-delivery.repository.ts:118-161 | a reachable run in which a late report makes a delivery be claimed once more than allowed |
| `EmailDeliveries.WorkerEmailDeliveryRepository.CreateDelivery` | apps/api/src/modules/infrastructure/email-delivery.repository.ts:89-125 | a request key and user get one delivery |
| `EmailDeliveries.WorkerEmailDeliveryRepository.RecoverStaleRunning` | apps/worker/src/email/email-delivery.repository.ts:32-68 | stale runs become pending with their content, or are failed, purged and returned |
| `EmailDeliveries.WorkerEmailDeliveryRepository.CancelDeliveriesOfDeletedUsers` | apps/worker/src/email/email-delivery.repository.ts:70-83 | pending deliveries of deleted users are canceled and purged |
| `EmailDeliveries.WorkerEmailDeliveryRepository.ClaimReady` | apps/worker/src/email/email-delivery.repository.ts:99-130 | the loop starts the selected rows one by one and returns them as they were selected |
| `EmailDeliveries.WorkerEmailDeliveryRepository.RecordAttempt` | apps/worker/src/email/email-delivery.repository.ts:132-195 | a final outcome purges the content, a retry keeps it |
| `EmailDeliveries.WorkerEmailDeliveryRepository.RemoveFinished` | apps/worker/src/email/email-delivery.repository.ts:197-216 | removes at most 1000 aged finished deliveries with their attempts, lowest identifiers first, and touches no unfinished one |
| `EmailDeliveries.CanceledIffUserDeleted` | apps/worker/src/email/email-delivery.repository.ts:70-83 | exactly the pending deliveries of deleted users are canceled, unlocked and purged; every other delivery stays |
| `EmailRows.CreatedRow` | apps/api/src/modules/infrastructure/email-delivery.repository.ts:89-125 | a request without a delivery for its user gets a pending one with its content, due at once |
| `EmailRows.RecoveredRow` | apps/worker/src/email/email-delivery.repository.ts:42-68 | exactly the rows that run since the timeout are freed with their content, or after their last attempt have failed, lost it and are reported |
| `EmailRows.ReadyIff` | apps/worker/src/email/email-delivery.repository.ts:109-116 | a row is ready when it is pending and due, has content under a key at hand, and its user is not deleted |
| `EmailRows.DueOrder` | apps/worker/src/email/email-delivery.repository.ts:114 | ready rows are ordered by due time and then by identifier |
| `EmailRows.ClaimedRow` | apps/worker/src/email/email-delivery.repository.ts:104-128 | a claim starts exactly the selected rows, keeping their content, unless its limit or its keys forbid any |
| `EmailRows.RecordedRow` | apps/worker/src/email/email-delivery.repository.ts:132-195 | a report records its attempt unless the number is taken and settles its row and no other, purging the content of a final one |
| `EmailRows.CleanedUp` | apps/worker/src/email/email-delivery.repository.ts:206-214 | cleaning up removes the given rows with their attempts and nothing else |
| `EmailRows.CleanupTakes` | apps/worker/src/email/email-delivery.repository.ts:197-205 | a cleanup takes at most 1000 finished rows among the aged, lowest identifiers first, and all when there are fewer |
| `EmailRows.UnavailableIff` | apps/worker/src/email/email-delivery.repository.ts:85-97 | the health report lists exactly the keys that a pending or running delivery has and the worker has not |
| `EmailProtocol.ClaimTakesReady` | apps/worker/src/email/email-delivery.repository.ts:99-130 | takes all selected rows in their order, none without a positive limit and a key, each pending and due, with content under an available key, for a user not deleted |
| `EmailProtocol.ClaimHoldsForTimeout` | apps/worker/src/email/email-delivery.repository.ts:32-130 | recovery leaves a claimed delivery alone until the timeout has passed, then frees it with its content or fails, purges and reports it |
| `EmailProtocol.StepKeepsSafe` | apps/worker/src/email/email-delivery.repository.ts:32-216 | every single transaction keeps finished deliveries without content and restores none |
| `EmailProtocol.PurgedOnEveryRun` | apps/worker/src/email/email-delivery.repository.ts:32-216 | over every interleaving, late workers included: a succeeded, failed or canceled delivery has no envelope and no key id, purged content never comes back, and its delivery is never claimed again |
| `EmailProtocol.ContentExactlyWhileUnfinished` | apps/worker/src/email/email-delivery.repository.ts:32-195 | under the lease hypothesis: content is present exactly while pending or running, attempts stay within the maximum, finished deliveries never change |
| `EmailProtocol.NoAttemptLost` | apps/worker/src/email/email-delivery.repository.ts:132-155 | under its lease a report's attempt number is new |
| `EmailProtocol.UnavailableKeyHoldsBack` | apps/worker/src/email/email-delivery.repository.ts:85-119 | a due delivery of a live user is claimable exactly when its key is not among those the health report lists |
| `EmailProtocol.ReportBreaksBoundIff` | apps/worker/src/email/email-delivery.repository.ts:156-195 | a report breaks the bounds exactly when it asks to retry a delivery already purged or claimed for the last time |
| `EmailProtocol.ReportChangesFinishedIff` | apps/worker/src/email/email-delivery.repository.ts:156-195 | any report, however late, changes a finished delivery exactly unless it repeats its outcome and its due time |
| `EmailProtocol.ReportEndsOtherRunIff` | apps/worker/src/email/email-delivery.repository.ts:156-195 | a report ends a run that another claim started exactly when its delivery is running under another attempt |
| `EmailProtocol.ReportHarmlessIff` | apps/worker/src/email/email-delivery.repository.ts:156-195 | a report keeps all bounds and leaves finished deliveries alone exactly when it is about a claim once made, asks to retry only while attempts are left, and says of a finished delivery only what is so |
| `EmailProtocol.LeaseIsHarmless` | apps/worker/src/email/email-delivery.repository.ts:156-195 | every report under its lease is such a report |
| `EmailProtocol.BoundedIffHarmless` | apps/worker/src/email/email-delivery.repository.ts:32-195 | over every run the bounds hold throughout and finished deliveries never change if and only if every report is of that kind |
| `EmailProtocol.RecordedRetryWaits` | apps/worker/src/email/email-delivery.processor.ts:114-190 | what the processor reports keeps the content exactly for a retry, 30 to 1800 seconds ahead |
| `EmailProtocol.LateWorkerStrandsDelivery` | apps/worker/src/email/email-delivery.repository.ts:132-195 | a reachable run in which a late report leaves a delivery pending without content, never to be claimed again |
| `JobQueues.FirstReady` | packages/adapters/src/queue/database-queue.ts:113-121 | the ready job with the least identifier |
| `JobQueues.DatabaseQueue.EnqueueJob` | packages/adapters/src/queue/database-queue.ts:35-54 | a new pending job without attempts |
| `JobQueues.DatabaseQueue.ClaimNextJob` | packages/adapters/src/queue/database-queue.ts:106-129 | starts and counts the first ready job of the kind asked for |
| `JobQueues.DatabaseQueue.CompleteJob` | packages/adapters/src/queue/database-queue.ts:131-137 | the job has succeeded, whatever its status was |
| `JobQueues.DatabaseQueue.FailJob` | packages/adapters/src/queue/database-queue.ts:139-176 | the job is retried later, or dead-lettered and announced after its last attempt |
| `JobQueues.DatabaseQueue.RecoverStaleRunningJobs` | packages/adapters/src/queue/database-queue.ts:178-195 | stale jobs are freed, or dead-lettered without an event |
| `JobQueues.DatabaseQueue.ProcessNext` | packages/adapters/src/queue/database-queue.ts:58-86 | one turn: recover, claim, and finish as the handler turned out; no handler is a failure |
| `JobQueues.DatabaseQueue.ProcessReady` | packages/adapters/src/queue/database-queue.ts:87-95 | the loop takes turns, each with its own clock readings, until none is ready or the limit is reached, and counts them |
| `JobQueues.EnqueuedJob` | packages/adapters/src/queue/database-queue.ts:35-46 | a new job is appended waiting, without attempts, error or lock |
| `JobQueues.ReadyIff` | packages/adapters/src/queue/database-queue.ts:113-120 | a job is ready when it waits, is available and due, and is of the kind asked for |
| `JobQueues.RecoveredJob` | packages/adapters/src/queue/database-queue.ts:178-195 | exactly the jobs that run since the timeout are freed to run now or dead-lettered after their last attempt, keeping an error they have |
| `JobQueues.ClaimedJob` | packages/adapters/src/queue/database-queue.ts:106-129 | a claim starts the ready job with the least identifier, counts and locks it, and touches no other |
| `JobQueues.MissingJobFails` | packages/adapters/src/queue/database-queue.ts:139-176 | a failure of a job that is gone changes no job and is announced as attempt 1 of 1 |
| `JobQueues.TurnEnds` | packages/adapters/src/queue/database-queue.ts:58-86 | how a turn ends, on the rows: the job it takes has succeeded exactly when its kind has a handler that returns normally; otherwise its error is kept and it waits for its retry, or is dead-lettered and announced; other jobs are as recovery left them |
| `JobQueues.EarlyStopDrains` | packages/adapters/src/queue/database-queue.ts:87-95 | a pass that stops before its limit leaves nothing ready at the time of its last look |
| `JobQueues.ClaimHoldsForTimeout` | packages/adapters/src/queue/database-queue.ts:106-195 | recovery leaves a claimed job alone until the timeout has passed, and then makes it ready again or dead-letters it |
| `JobQueues.ReadinessInTime` | packages/adapters/src/queue/database-queue.ts:35-176 | a new job is ready at once; one that failed below its last attempt is ready after the retry delay and not before |
| `JobQueues.StepKeeps` | packages/adapters/src/queue/database-queue.ts:106-195 | every step keeps attempts equal to claims and within bounds |
| `JobQueues.AttemptsConserved` | packages/adapters/src/queue/database-queue.ts:35-195 | over every interleaving, late finishes included: attempt equals the number of claims and is at most the maximum, pending implies below it, dead-lettered implies equal to it, running exactly when locked |
| `JobQueues.FinishedJobsStay` | packages/adapters/src/queue/database-queue.ts:131-195 | under the lease hypothesis succeeded and dead-lettered jobs are never touched again |
| `JobQueues.AtMostOneFailureEvent` | packages/adapters/src/queue/database-queue.ts:139-176 | under the lease hypothesis each job emits at most one event, exactly when it is dead-lettered by a failure with events enabled and its type is not a webhook's |
| `JobQueues.LateWorkerRepeatsEvent` | packages/adapters/src/queue/database-queue.ts:139-176 | a reachable run in which a late failure is announced a second time |
| `JobQueues.LateWorkerRevivesJob` | packages/adapters/src/queue/database-queue.ts:131-137 | a reachable run in which a late completion turns a dead-lettered job into a succeeded one |
| `JobQueues.SecondEventIff` | packages/adapters/src/queue/database-queue.ts:139-176 | a step announces some job a second time exactly when it fails an already announced job that has no attempts left, with events enabled and a type that is not a webhook's |
| `JobQueues.AtMostOneEventIff` | packages/adapters/src/queue/database-queue.ts:139-176 | over every run, late reports included, each job emits at most one event if and only if no step is such a report |
| `JobQueues.FinishedMovesIff` | packages/adapters/src/queue/database-queue.ts:131-176 | a step changes the status of a finished job exactly when it completes a dead-lettered job or fails a succeeded one |
| `JobQueues.FinishedJobsStayIff` | packages/adapters/src/queue/database-queue.ts:131-195 | over every run finished jobs stay as they ended throughout if and only if no step is such a report |
| `Schedulers.FirstDue` | packages/adapters/src/scheduler/database-scheduler.ts:129-151 | the due schedule with the least identifier |
| `Schedulers.DatabaseScheduler.RegisterJob` | packages/adapters/src/scheduler/database-scheduler.ts:38-52 | inserts or updates a schedule, keeping a next run it already has; the handler is kept even when no run is found |
| `Schedulers.DatabaseScheduler.UnregisterJob` | packages/adapters/src/scheduler/database-scheduler.ts:53-59 | disables the schedule and drops the handler |
| `Schedulers.DatabaseScheduler.ClaimNextDueJob` | packages/adapters/src/scheduler/database-scheduler.ts:129-151 | counts an attempt and moves the next run to the end of the lease |
| `Schedulers.DatabaseScheduler.MarkScheduleSuccess` | packages/adapters/src/scheduler/database-scheduler.ts:153-169 | clears the attempts and sets the next run, or throws when there is none |
| `Schedulers.DatabaseScheduler.MarkScheduleFailure` | packages/adapters/src/scheduler/database-scheduler.ts:171-212 | retries below the last attempt; after it starts over at the next run and announces the failure |
| `Schedulers.DatabaseScheduler.ProcessDue` | packages/adapters/src/scheduler/database-scheduler.ts:60-97 | the loop over due schedules, each turn with its own clock readings, in which a success that throws becomes a failure and a failure that throws escapes |
| `Schedulers.DueIff` | packages/adapters/src/scheduler/database-scheduler.ts:129-140 | a schedule is due when it is enabled and its next run, if it has one, has come |
| `Schedulers.RegisteredRow` | packages/adapters/src/scheduler/database-scheduler.ts:38-52 | what registering makes of every row: a new one of a single attempt, or the old one with the new expression and switch and the next run it had; it fails exactly without a next run |
| `Schedulers.UnregisteredRow` | packages/adapters/src/scheduler/database-scheduler.ts:53-59 | unregistering switches the schedule off and changes nothing else |
| `Schedulers.TurnRecords` | packages/adapters/src/scheduler/database-scheduler.ts:60-97 | how a turn ends: the first schedule due records a success exactly when it has a handler that returns normally and a next run is found, and otherwise a failure, with its attempt, next run and event; the pass ends when a failure needs a next run and there is none |
| `Schedulers.PassCounts` | packages/adapters/src/scheduler/database-scheduler.ts:60-97 | a pass processes no more schedules than its limit, and with none nothing happens |
| `Schedulers.ClaimExcludesOthers` | packages/adapters/src/scheduler/database-scheduler.ts:129-151 | until a claim's lease ends no claim takes that schedule again, and from then on it is due |
| `Schedulers.FailedRunWaits` | packages/adapters/src/scheduler/database-scheduler.ts:171-191 | a failure below the last attempt keeps the attempts, announces nothing, and is due after the retry delay and not before |
| `Schedulers.OneMoreOutcome` | packages/adapters/src/scheduler/database-scheduler.ts:171-212 | one more failure adds an exhaustion exactly when it completes another full set of attempts of its streak |
| `Schedulers.FreshRowsKept` | packages/adapters/src/scheduler/database-scheduler.ts:105-114 | freshly inserted schedules meet the accounting |
| `Schedulers.FailuresAccounted` | packages/adapters/src/scheduler/database-scheduler.ts:129-212 | over every run in which claims end before their leases: the stored attempt between runs is the streak of recorded failures modulo the maximum, and the events are the sum over streaks of floor(length / maximum) |
| `Schedulers.FinishAccountedIff` | packages/adapters/src/scheduler/database-scheduler.ts:153-212 | a finish, however late, leaves events and attempts in accord with the recorded outcomes exactly when it records a success, or a failure whose claim counts as the attempt that the failures before it make it |
| `Schedulers.AccountedIffInTurn` | packages/adapters/src/scheduler/database-scheduler.ts:129-212 | over every run, lapsed claims and late finishes included, they accord throughout if and only if every recorded failure is of that kind |
| `Schedulers.TimelyIsInTurn` | packages/adapters/src/scheduler/database-scheduler.ts:129-212 | a finish before its lease ends always is |
| `Schedulers.FinishEndsOtherClaimIff` | packages/adapters/src/scheduler/database-scheduler.ts:153-212 | a finish ends a claim other than its own exactly when it is recorded while a different claim of the schedule is open |
| `Schedulers.LapsedClaimAnnouncesEarly` | packages/adapters/src/scheduler/database-scheduler.ts:129-212 | a run with a maximum of two in which one recorded failure after a lapsed claim is announced |
| `Schedulers.SuccessCountsIff` | packages/adapters/src/scheduler/database-scheduler.ts:80-93 | a success counts as one exactly when a next run is found; otherwise it is a failure, or lost after the last attempt |
| `Schedulers.NextRunLiesAhead` | packages/adapters/src/scheduler/database-scheduler.ts:153-212 | after any success that does not throw and any exhausted failure that does not, in time or late, the next run is in the future, within a year, and matches the expression the run was claimed with |
| `LeaseLocks.DatabaseLock.InsertIfAbsent` | packages/adapters/src/lock/database-lock.ts:43-67 | inserts a row with token 1 exactly when the key is free |
| `LeaseLocks.DatabaseLock.TakeExpiredOrOwned` | packages/adapters/src/lock/database-lock.ts:69-92 | takes the row over with the next token exactly when it has expired or is the owner's |
| `LeaseLocks.DatabaseLock.AcquireLock` | packages/adapters/src/lock/database-lock.ts:26-41 | one or the other |
| `LeaseLocks.DatabaseLock.ReleaseLock` | packages/adapters/src/lock/database-lock.ts:94-104 | deletes the owner's own row only |
| `LeaseLocks.InMemoryLock.AcquireLock` | packages/adapters/src/lock/in-memory-lock.ts:17-26 | grants a key that is free or expired |
| `LeaseLocks.InMemoryLock.ReleaseLock` | packages/adapters/src/lock/in-memory-lock.ts:26-34 | gives up the owner's own lease only |
| `LeaseLocks.LeaseExcludesOthers` | packages/adapters/src/lock/database-lock.ts:26-104 | while a lease lasts no statement of any run, even between the two of another acquisition, acquires its key, and stale releases leave its row as it is |
| `LeaseLocks.AcquisitionExcludesOthers` | packages/adapters/src/lock/database-lock.ts:26-104 | after an acquisition, by whichever of its statements, no other owner acquires the key before the release or the end of the lease |
| `LeaseLocks.TokenCountsAcquisitions` | packages/adapters/src/lock/database-lock.ts:43-92 | while its row survives the fencing token grows by exactly one with every acquisition |
| `LeaseLocks.NextTokenExceedsIff` | packages/adapters/src/lock/database-lock.ts:43-104 | over any run, the next acquisition's token exceeds the last one's exactly when the row was not released in between, and is then the next number; otherwise it is 1 again |
| `LeaseLocks.TakeSucceedsIff` | packages/adapters/src/lock/database-lock.ts:26-92 | an acquisition that found a row succeeds exactly when it may take that row and nobody released it between its two statements |
| `LeaseLocks.CallsAreStatements` | packages/adapters/src/lock/database-lock.ts:26-104 | every run of whole acquisitions and releases is a run of their statements with the same table and the same acquisitions |
| `LeaseLocks.RowGoneIffReleased` | packages/adapters/src/lock/database-lock.ts:26-104 | between acquisitions of a key its row stays as it is, and is gone exactly when its owner released it |
| `LeaseLocks.TokensStayPositive` | packages/adapters/src/lock/database-lock.ts:43-92 | fencing tokens are positive over every run |
| `LeaseLocks.SameOutcomeIff` | packages/adapters/src/lock/in-memory-lock.ts:17-34 | both locks decide one acquisition alike unless the same owner still holds the key |
| `LeaseLocks.DatabaseRefinesInMemory` | packages/adapters/src/lock/in-memory-lock.ts:17-34 | with a fresh owner per acquisition both locks decide alike on every run of whole acquisitions and releases |
| `RateLimits.DatabaseRateLimit.Check` | packages/adapters/src/rate-limit/database-rate-limit.ts:21-56 | counts the call in its aligned window and allows it up to the limit |
| `RateLimits.InMemoryRateLimit.Check` | packages/adapters/src/rate-limit/in-memory-rate-limit.ts:15-31 | counts the call in the window its first call started and allows it up to the limit |
| `RateLimits.AllowedIsMinimum` | packages/adapters/src/rate-limit/database-rate-limit.ts:21-56 | exactly min(calls, limit) calls are allowed in each window |
| `RateLimits.SlidingBound` | packages/adapters/src/rate-limit/database-rate-limit.ts:21-56 | any half-open interval of one window length admits at most twice the limit |
| `RateLimits.OpenedSlidingBound` | packages/adapters/src/rate-limit/in-memory-rate-limit.ts:15-31 | where the first call opens the window it is one call less |
| `RateLimits.AlignedRunIsFixedWindows` | packages/adapters/src/rate-limit/database-rate-limit.ts:21-56 | the aligned limiter keeps fixed windows and reports the calls still allowed, whatever the order of the times |
| `RateLimits.AnchoredRunIsFixedWindows` | packages/adapters/src/rate-limit/in-memory-rate-limit.ts:15-31 | so does the anchored limiter when times never decrease |
| `RateLimits.LimitersBoundSlidingWindow` | packages/adapters/src/rate-limit/in-memory-rate-limit.ts:15-31 | over any calls with non-decreasing times the aligned limiter admits at most twice the limit in one window length, the anchored one at most one call less, and every reset lies in the future |
| `RateLimits.AlignedBoundReached` | packages/adapters/src/rate-limit/database-rate-limit.ts:21-56 | for every limit some calls reach twice the limit with the aligned limiter |
| `RateLimits.AnchoredBoundReached` | packages/adapters/src/rate-limit/in-memory-rate-limit.ts:15-31 | and twice the limit less one with the anchored limiter |
| `Csv.ReadCell` | apps/worker/src/tasks/import-export-task.ts:261-266 | a written cell is read as its text, whatever quotes, commas and line breaks it holds, and reading stops at its end |
| `Csv.LogTableCells` | apps/worker/src/tasks/import-export-task.ts:242-262 | the log export has one line per row and one cell per column, with the text the row holds there or nothing |
| `Csv.LogExportRoundTrip` | apps/worker/src/tasks/import-export-task.ts:242-266 | a reader of RFC 4180, section 2, finds exactly the header and the cell texts of the log export |
| `Csv.GuardedTableCells` | packages/module-sdk/src/capabilities/csv-capability.ts:79-91 | the business export has the fields as its header and per row what it holds in each, with an apostrophe before texts that start with plus, minus, equals or at |
| `Csv.BusinessExportRoundTrip` | packages/module-sdk/src/capabilities/csv-capability.ts:79-91 | it finds exactly the guarded header and cell texts of a business export if and only if there is a column |
| `Csv.NoColumns` | packages/module-sdk/src/capabilities/csv-capability.ts:79-84 | without a column each line reads as one empty cell |
| `Csv.NoFormulaCells` | packages/module-sdk/src/capabilities/csv-capability.ts:86-91 | no cell found in a business export starts a formula |
| `Csv.GuardCollides` | packages/module-sdk/src/capabilities/csv-capability.ts:88-89 | the guard keeps two texts apart unless one is a formula and the other the same text already marked |
| `Csv.FinalLineBreakLosesRow` | packages/module-sdk/src/capabilities/csv-capability.ts:79-84 | a reader that takes a final line break as an end loses the last row exactly when it is one empty cell |
| `SmtpMessages.LineEnds` | packages/adapters/src/notification/smtp-transport.ts:294-296 | a line starts after a line feed, a carriage return, a line separator or a paragraph separator (ECMA-262, section 12.3) |
| `SmtpMessages.NormalizeMeaning` | packages/adapters/src/notification/smtp-transport.ts:294-296 | normalizing line ends puts a carriage return before every line feed and changes nothing else |
| `SmtpMessages.CollapseMeaning` | packages/adapters/src/notification/smtp-transport.ts:290-292 | text without line breaks stays, and each run of them becomes one space |
| `SmtpMessages.SanitizeMeaning` | packages/adapters/src/notification/smtp-transport.ts:290-292 | a header value then loses white space at its ends and nothing else |
| `SmtpMessages.EncodedMeaning` | packages/adapters/src/notification/smtp-transport.ts:276-281 | characters beyond the first 128 make a header value an encoded word |
| `SmtpMessages.HeadersByName` | packages/adapters/src/notification/smtp-transport.ts:257-268 | a reader that looks headers up by name finds the values of the message |
| `SmtpMessages.FormattedReadsBack` | packages/adapters/src/notification/smtp-transport.ts:257-270 | a reader that takes lines up to the empty one finds exactly the headers and then the dot-stuffed body |
| `SmtpMessages.SanitizedHasNoBreaks` | packages/adapters/src/notification/smtp-transport.ts:290-292 | a sanitized header value has no line break |
| `SmtpMessages.HeadersArePlainLines` | packages/adapters/src/notification/smtp-transport.ts:257-288 | whatever addresses, subject and identifier hold, each header is one line that starts with no dot |
| `SmtpMessages.StuffDoubles` | packages/adapters/src/notification/smtp-transport.ts:294-296 | after stuffing, every dot that starts a line is followed by another |
| `SmtpMessages.TerminatorOnlyAtEnd` | packages/adapters/src/notification/smtp-transport.ts:138-145 | for every message the data contains CRLF.CRLF at its end and nowhere else |
| `SmtpMessages.ReceiveStuffed` | packages/adapters/src/notification/smtp-transport.ts:294-296 | a receiver of RFC 5321, section 4.5.2, takes back every added dot except after a lone line end |
| `SmtpMessages.BodyRoundTrip` | packages/adapters/src/notification/smtp-transport.ts:294-296 | the receiver gets the body with its line ends normalized exactly when no dot follows a lone CR, LS or PS |
| `SmtpMessages.OrdinaryBodyHasNoOddDot` | packages/adapters/src/notification/smtp-transport.ts:294-296 | so it is for bodies whose line ends are LF or CRLF |
| `SmtpMessages.MessageRoundTrip` | packages/adapters/src/notification/smtp-transport.ts:138-145 | the receiver reads the headers, a blank line and the normalized body, and leaves what follows the data |
| `SmtpReplies.SplitRestores` | packages/adapters/src/notification/smtp-transport.ts:240-242 | the buffer is its complete lines, each with its CRLF, and the rest |
| `SmtpReplies.SplitExtends` | packages/adapters/src/notification/smtp-transport.ts:240-242 | more text leaves the complete lines as they are |
| `SmtpReplies.FinalLine` | packages/adapters/src/notification/smtp-transport.ts:245-253 | the first line that starts with the code and a space |
| `SmtpReplies.ConsumedFits` | packages/adapters/src/notification/smtp-transport.ts:246-251 | what a reply takes off the buffer is exactly its lines with their CRLFs |
| `SmtpReplies.ReplyIsStable` | packages/adapters/src/notification/smtp-transport.ts:239-255 | a reply found in a buffer is found in every longer one, and what follows it grows by as much |
| `SmtpReplies.NoNumberNoReply` | packages/adapters/src/notification/smtp-transport.ts:243-244 | a first line without a number is never a reply, however much follows |
| `SmtpReplies.ChunksDoNotMatter` | packages/adapters/src/notification/smtp-transport.ts:147-183 | however the text is cut into chunks, the replies are those of the whole text |
| `SmtpReplies.WellFormedReplyFound` | packages/adapters/src/notification/smtp-transport.ts:239-255 | a multi-line reply of RFC 5321 with a final space is found with its code and lines, and nothing more is taken |
| `SmtpReplies.BareCodeRunsOn` | packages/adapters/src/notification/smtp-transport.ts:245-253 | a reply that ends with its code alone is found exactly when a later complete line has the code and a space; it then takes all lines up to that one and leaves what follows it |
| `SmtpReplies.DeliveredIsPrefix` | packages/adapters/src/notification/smtp-transport.ts:147-183 | what a client handed out are the first replies of the whole stream |
| `SmtpReplies.SmtpClient.TakeReply` | packages/adapters/src/notification/smtp-transport.ts:166-179 | hands out the first reply of the buffer and keeps the rest |
| `SmtpReplies.SmtpClient.Expect` | packages/adapters/src/notification/smtp-transport.ts:147-183 | waits for the next reply of the stream using no more chunks than it needs, and rejects unexpected codes, retryably exactly from 400 to 499 |
| `Ordering.SortOrders` | packages/module-sdk/src/normalization.ts:27-29 | sorting orders the keys and keeps every value as often as it was there |
| `Ordering.SortIgnoresOrder` | packages/module-sdk/src/normalization.ts:27-29 | permutations with distinct keys sort to the same sequence |
| `CanonicalJson.CanonicalIffSupported` | packages/module-sdk/src/canonical-json.ts:3-27 | canonicalization throws exactly for values not made of JSON |
| `CanonicalJson.CanonicalizeIdempotent` | packages/module-sdk/src/canonical-json.ts:3-27 | the canonical form of a canonical form is itself |
| `CanonicalJson.CanonicalInOrder` | packages/module-sdk/src/canonical-json.ts:3-27 | in a canonical form members are in the order of their keys and defined, at any depth |
| `CanonicalJson.CanonicalEqualIffSame` | packages/module-sdk/src/canonical-json.ts:3-27 | two values have the same canonical form exactly when they differ at most in key order and undefined members, at any depth |
| `CanonicalJson.ProjectKeeps` | packages/module-sdk/src/hashes.ts:18-32 | projecting keeps a value JSON with one member per key |
| `CanonicalJson.ProjectionsSameIff` | packages/module-sdk/src/hashes.ts:18-32 | projections agree exactly when the values do, presentation members aside |
| `CanonicalJson.NestedEditUnseen` | packages/module-sdk/src/hashes.ts:18-32 | whatever happens to ignored members of an object at any depth, the projection of the whole stays as it is |
| `JsonText.EscapeStandsFor` | packages/module-sdk/src/canonical-json.ts:29-31 | every escape in a string stands for its character (RFC 8259, section 7) |
| `JsonText.TextsOfValues` | packages/module-sdk/src/canonical-json.ts:29-31 | literal names, elements in brackets and members in braces with commas between them |
| `JsonText.StringifyInjective` | packages/module-sdk/src/canonical-json.ts:29-31 | different canonical values have different JSON texts |
| `JsonText.CanonicalPrintable` | packages/module-sdk/src/canonical-json.ts:3-31 | every canonical form has a text |
| `JsonText.CanonicalTextEqualIffSame` | packages/module-sdk/src/canonical-json.ts:3-31 | two JSON values have the same canonical text exactly when they differ at most in key order and undefined members, at any depth |
| `ModuleHashes.PresentationMembers` | packages/module-sdk/src/hashes.ts:7-16 | the members left out of the activation hash are those with one of the eight presentation keys |
| `ModuleHashes.DefinitionHashSeesContent` | packages/module-sdk/src/hashes.ts:34-40 | definition hashes agree exactly when the definitions differ at most in key order and undefined members, or their canonical texts are a collision of the digest |
| `ModuleHashes.ActivationHashIgnoresPresentation` | packages/module-sdk/src/hashes.ts:7-44 | activation hashes agree exactly when the definitions differ at most in key order, undefined members and, at any depth, presentation members, or the texts of what is left are a collision |
| `ModuleHashes.PresentationEditKeepsActivation` | packages/module-sdk/src/hashes.ts:18-44 | adding, removing or changing presentation members of an object at any depth keeps the activation hash |
| `ModuleRegistry.AdjacentDuplicate` | packages/module-sdk/src/registry.ts:23-25 | finds a code that equals its neighbour exactly when there is one |
| `ModuleRegistry.AdjacentCheckComplete` | packages/module-sdk/src/registry.ts:20-25 | after sorting, comparing neighbours finds a shared code exactly when two definitions share one |
| `ModuleRegistry.ThrowsIffSharedCode` | packages/module-sdk/src/registry.ts:17-47 | creating a registry throws exactly when two definitions share a code, and otherwise lists each definition once |
| `ModuleRegistry.ReportedCodeIsShared` | packages/module-sdk/src/registry.ts:23-29 | the code the error names is one that two definitions share |
| `ModuleRegistry.NormalizedContributions` | packages/module-sdk/src/normalization.ts:27-43 | normalizing keeps the contributions of each list, in the order of their identities, and everything else |
| `ModuleRegistry.DocumentOf` | packages/module-sdk/src/registry.ts:31-35 | a definition is hashed as a document of its code, its other members and its contribution lists |
| `ModuleRegistry.RegistryContents` | packages/module-sdk/src/registry.ts:31-46 | a registry lists its modules by code with their two hashes, and its own hash is that of the list of codes and hashes |
| `ModuleRegistry.RegistryIgnoresOrder` | packages/module-sdk/src/registry.ts:17-47 | the registry, or the error, is the same for every permutation of the definitions |
| `ModuleRegistry.NormalizationIgnoresOrder` | packages/module-sdk/src/normalization.ts:31-43 | a definition normalizes to the same whatever the order of contributions with distinct identities |
| `ModuleRegistry.RegistryIgnoresContributionOrder` | packages/module-sdk/src/normalization.ts:31-43 | so the registry does not depend on that order either |

## Left out

- SQL text, dialects, `SKIP LOCKED` and weaker isolation: tables are maps or sequences and each transaction is one atomic step; the queue's failure, whose read precedes its transaction, is one step too, while the two statements of a lock acquisition are two.
- Order among rows the database leaves unordered, such as matching subscriptions; they are taken by identifier.
- Columns that record errors, timestamps of the past and log tables, and publishing outcomes to alerts and logs; the e-mail processor's memory of its last missing-key alert among them.
- E-mail key migration, request creation beyond its insert, schedule edits by administrators, and listing and filtering for administration pages.
- Schema parsing of rules beyond the bounds on children, value lists and identifiers; prototype keys of JavaScript objects.
- Splitting a cron expression into tokens, and odd tokens such as an empty range or `1-2-3`; the model starts from a star, a value or a span with an optional step.
- How text becomes a number in SMTP replies, how numbers are written, what counts as white space, Base64 and the current date: parameters.
- Sockets, TLS, authentication and the dialogue around one message; cells of CSV exports are taken as the text `String(value)` gives.
- `localeCompare` is an abstract total order, the digest is an uninterpreted function, and integer-like keys, which JavaScript lists first, are ordered like others.
- Numbers of JSON are known by their shortest decimal text; NaN, infinities and lone surrogates are not part of the model.
- Default values filled in by definition parsing, conformance checks and reference validation of modules.
- Workers within one pass that report concurrently: each report is its own step of a run, so that all orders are covered.
- Schedulers.FailuresAccounted: counts what is recorded; a handler that succeeds without a next run is recorded as a failure or not at all, and `Schedulers.SuccessCountsIff` says exactly when.
- SmtpReplies.SmtpClient.Expect: the stream is the text that arrives while a reply is awaited; text that arrives at other times is not part of the model.
- EmailDeliveries.WorkerEmailDeliveryRepository.RemoveFinished: which rows have aged is a parameter, since the column of the last change is not kept.
- WebhookProtocol.ClaimIsExclusive: the bound is max(1, limit) rather than the limit, because a limit that is not positive still claims one delivery.
- ModuleRegistry.ThrowsIffSharedCode: for definitions made of JSON, since others make hashing throw.
- RateLimits.LimitersBoundSlidingWindow: windows are positive whole numbers of seconds.
