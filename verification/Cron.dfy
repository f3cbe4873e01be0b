/**
  Five-field cron schedules: what the fields denote, the minute-by-minute search for the next run, and
  which schedules can never be left without one within a year.
 */
module Cron {
  import opened Arithmetic
  import opened Wrappers
  import opened Calendar

  // ----- Fields

  datatype RangeToken = Star | Value(v: int) | Span(first: int, last: int)

  /** One comma-separated token: a range with an optional step. */
  datatype Token = Token(range: RangeToken, step: Option<int>)

  type Field = seq<Token>

  datatype CronError = NotFiveFields | EmptyField | BadStep | OutOfRange | ReversedRange | NoRunWithinAYear

  function Step(token: Token): int { if token.step.Some? then token.step.value else 1 }

  function ParseRange(range: RangeToken, min: int, max: int): Result<(int, int), CronError> {
    match range
    case Star => Ok((min, max))
    case Span(first, last) =>
      if !(min <= first <= max) || !(min <= last <= max) then Err(OutOfRange)
      else if first > last then Err(ReversedRange) else Ok((first, last))
    case Value(v) => if min <= v <= max then Ok((v, v)) else Err(OutOfRange)
  }

  function ParseToken(token: Token, min: int, max: int): Result<(int, int), CronError> {
    if Step(token) <= 0 then Err(BadStep) else ParseRange(token.range, min, max)
  }

  function Normalize(value: int, weekday: bool): int { if weekday && value == 7 then 0 else value }

  /** `v` is the step number `k` of a range: first + k steps, not beyond last. */
  ghost predicate StepGives(v: int, first: int, last: int, step: int, weekday: bool, k: nat) {
    first + k * step <= last && v == Normalize(first + k * step, weekday)
  }

  ghost predicate TokenDenotes(token: Token, min: int, max: int, weekday: bool, v: int) {
    && ParseToken(token, min, max).Ok?
    && var (first, last) := ParseToken(token, min, max).value;
       exists k: nat :: StepGives(v, first, last, Step(token), weekday, k)
  }

  /** A field denotes the union of the stepped ranges of its tokens. */
  ghost predicate FieldDenotes(field: Field, min: int, max: int, weekday: bool, v: int) {
    exists token | token in field :: TokenDenotes(token, min, max, weekday, v)
  }

  predicate FieldAccepted(field: Field, min: int, max: int) {
    field != [] && forall token | token in field :: ParseToken(token, min, max).Ok?
  }

  /** Adds the values of one token to the set being built. */
  method AddToken(values: set<int>, token: Token, min: int, max: int, weekday: bool)
    returns (r: Result<set<int>, CronError>)
    ensures r.Ok? <==> ParseToken(token, min, max).Ok?
    ensures r.Ok? ==> forall v :: v in r.value <==> v in values || TokenDenotes(token, min, max, weekday, v)
    ensures r.Err? ==> r.error == ParseToken(token, min, max).error
  {
    var step := Step(token);
    if step <= 0 { return Err(BadStep); }
    var range := ParseRange(token.range, min, max);
    if range.Err? { return Err(range.error); }
    var (first, last) := range.value;
    var added := values;
    var value := first;
    ghost var k: nat := 0;
    while value <= last
      invariant value == first + k * step
      invariant forall v ::
          v in added <==> v in values || exists j: nat | j < k :: StepGives(v, first, last, step, weekday, j)
      decreases last - value
    {
      assert StepGives(Normalize(value, weekday), first, last, step, weekday, k);
      added := added + {Normalize(value, weekday)};
      assert (k + 1) * step == k * step + step;
      value := value + step;
      k := k + 1;
    }
    forall v, j: nat | StepGives(v, first, last, step, weekday, j) ensures j < k {
      if j >= k { StepsGrow(k, j, step); }
    }
    return Ok(added);
  }

  lemma StepsGrow(k: nat, j: nat, step: int)
    requires k <= j && step > 0
    ensures k * step <= j * step
  {
    assert j * step - k * step == (j - k) * step;
  }

  method ParseField(field: Field, min: int, max: int, weekday: bool) returns (r: Result<set<int>, CronError>)
    requires min <= max
    ensures r.Ok? <==> FieldAccepted(field, min, max)
    ensures r.Ok? ==> forall v :: v in r.value <==> FieldDenotes(field, min, max, weekday, v)
  {
    var values: set<int> := {};
    for i := 0 to |field|
      invariant forall token | token in field[..i] :: ParseToken(token, min, max).Ok?
      invariant forall v :: v in values <==> FieldDenotes(field[..i], min, max, weekday, v)
      invariant values == {} <==> i == 0
    {
      var added := AddToken(values, field[i], min, max, weekday);
      assert field[..i + 1] == field[..i] + [field[i]];
      if added.Err? { assert field[i] in field; return Err(added.error); }
      FirstIsDenoted(field[i], min, max, weekday);
      values := added.value;
    }
    assert field[..|field|] == field;
    if values == {} { return Err(EmptyField); }
    return Ok(values);
  }

  // ----- What tokens mean, read off the token itself

  /** A step is positive, a value lies within the bounds, and a span within them does not run backwards. */
  predicate Admissible(token: Token, min: int, max: int) {
    && (token.step.Some? ==> token.step.value >= 1)
    && match token.range
       case Star => true
       case Value(v) => v >= min && v <= max
       case Span(first, last) => first >= min && last <= max && first <= last
  }

  /** The value is in the range and a whole number of steps above its start. */
  predicate Reaches(token: Token, min: int, max: int, value: int) {
    var start, end :=
      if token.range.Star? then min else if token.range.Value? then token.range.v else token.range.first,
      if token.range.Star? then max else if token.range.Value? then token.range.v else token.range.last;
    && start <= value && value <= end
    && (token.step.Some? && token.step.value != 0 ==> (value - start) % token.step.value == 0)
  }

  /**
    A token is refused for its step, for a bound that is out of range, or for running backwards, in this
    order, and accepted exactly when it is admissible.
   */
  lemma TokenAccepted(token: Token, min: int, max: int)
    ensures ParseToken(token, min, max).Ok? <==> Admissible(token, min, max)
    ensures ParseToken(token, min, max) == Err(BadStep) <==> token.step.Some? && token.step.value < 1
    ensures ParseToken(token, min, max) == Err(ReversedRange) ==>
              token.range.Span? && min <= token.range.last < token.range.first <= max
    ensures ParseToken(token, min, max).Err?
        ==> ParseToken(token, min, max).error in {BadStep, OutOfRange, ReversedRange}
  {
  }

  /** An accepted token denotes the values it reaches, except that Sunday's 7 is a 0. */
  lemma TokenMeaning(token: Token, min: int, max: int, weekday: bool, v: int)
    requires Admissible(token, min, max)
    ensures TokenDenotes(token, min, max, weekday, v)
       <==> if !weekday then Reaches(token, min, max, v)
            else (v != 7 && Reaches(token, min, max, v)) || (v == 0 && Reaches(token, min, max, 7))
  {
    TokenAccepted(token, min, max);
    var (first, last) := ParseToken(token, min, max).value;
    if TokenDenotes(token, min, max, weekday, v) {
      var k: nat :| StepGives(v, first, last, Step(token), weekday, k);
      ReachedBySteps(first, last, Step(token), first + k * Step(token));
    }
    if Reaches(token, min, max, v) { ReachedIsDenoted(token, min, max, weekday, v); }
    if Reaches(token, min, max, 7) { ReachedIsDenoted(token, min, max, weekday, 7); }
  }

  lemma ReachedIsDenoted(token: Token, min: int, max: int, weekday: bool, value: int)
    requires Admissible(token, min, max) && Reaches(token, min, max, value)
    ensures TokenDenotes(token, min, max, weekday, if weekday && value == 7 then 0 else value)
  {
    TokenAccepted(token, min, max);
    var (first, last) := ParseToken(token, min, max).value;
    ReachedBySteps(first, last, Step(token), value);
    var k: nat :| first + k * Step(token) <= last && value == first + k * Step(token);
    assert StepGives(if weekday && value == 7 then 0 else value, first, last, Step(token), weekday, k);
  }

  lemma ReachedBySteps(first: int, last: int, step: int, value: int)
    requires step > 0
    ensures (first <= value <= last && (value - first) % step == 0)
       <==> exists k: nat :: first + k * step <= last && value == first + k * step
  {
    if first <= value <= last && (value - first) % step == 0 {
      var k := (value - first) / step;
      assert value - first == k * step;
      assert k >= 0;
    }
    if k: nat :| first + k * step <= last && value == first + k * step {
      assert k * step >= 0;
      assert (k * step) % step == 0 by { DivModUnique(k * step, step, k, 0); }
    }
  }

  /** An accepted token denotes at least the start of its range. */
  lemma FirstIsDenoted(token: Token, min: int, max: int, weekday: bool)
    requires ParseToken(token, min, max).Ok? && min <= max
    ensures var (first, last) := ParseToken(token, min, max).value;
            min <= first <= last <= max && TokenDenotes(token, min, max, weekday, Normalize(first, weekday))
  {
    var (first, last) := ParseToken(token, min, max).value;
    assert StepGives(Normalize(first, weekday), first, last, Step(token), weekday, 0);
  }

  // ----- Schedules

  datatype Schedule = Schedule(
    minutes: set<int>,
    hours: set<int>,
    daysOfMonth: set<int>,
    months: set<int>,
    daysOfWeek: set<int>,
    dayOfMonthWildcard: bool,
    dayOfWeekWildcard: bool)

  const WILDCARD: Field := [Token(Star, None)]

  ghost predicate WithinAndNonEmpty(values: set<int>, min: int, max: int) {
    (exists v :: v in values) && forall v | v in values :: min <= v <= max
  }

  /** What parsing guarantees of a schedule: non-empty fields in range, and full fields for wildcards. */
  ghost predicate Parsed(s: Schedule) {
    && WithinAndNonEmpty(s.minutes, 0, 59)
    && WithinAndNonEmpty(s.hours, 0, 23)
    && WithinAndNonEmpty(s.daysOfMonth, 1, 31)
    && WithinAndNonEmpty(s.months, 1, 12)
    && WithinAndNonEmpty(s.daysOfWeek, 0, 6)
    && (s.dayOfMonthWildcard ==> forall d | 1 <= d <= 31 :: d in s.daysOfMonth)
    && (s.dayOfWeekWildcard ==> forall d | 0 <= d <= 6 :: d in s.daysOfWeek)
  }

  /** What an accepted field denotes lies in its range. */
  lemma DenotedInRange(field: Field, min: int, max: int, weekday: bool, v: int)
    requires FieldAccepted(field, min, max) && FieldDenotes(field, min, max, weekday, v)
    requires min <= max && (weekday ==> min == 0 && max == 7)
    ensures min <= v <= if weekday then 6 else max
  {
    var token :| token in field && TokenDenotes(token, min, max, weekday, v);
    var (first, last) := ParseToken(token, min, max).value;
    var k: nat :| StepGives(v, first, last, Step(token), weekday, k);
    assert k * Step(token) >= 0;
  }

  /** A star denotes the whole range. */
  lemma WildcardDenotesAll(min: int, max: int, weekday: bool, v: int)
    requires min <= v <= max
    ensures FieldDenotes(WILDCARD, min, max, weekday, Normalize(v, weekday))
  {
    var token := WILDCARD[0];
    assert token in WILDCARD && Step(token) == 1 && ParseToken(token, min, max) == Ok((min, max));
    assert StepGives(Normalize(v, weekday), min, max, Step(token), weekday, v - min);
    assert TokenDenotes(token, min, max, weekday, Normalize(v, weekday));
  }

  method ParseCronExpression(parts: seq<Field>) returns (r: Result<Schedule, CronError>)
    ensures r.Ok? <==>
      && |parts| == 5
      && FieldAccepted(parts[0], 0, 59) && FieldAccepted(parts[1], 0, 23) && FieldAccepted(parts[2], 1, 31)
      && FieldAccepted(parts[3], 1, 12) && FieldAccepted(parts[4], 0, 7)
    ensures r.Ok? ==> Parsed(r.value)
    ensures r.Ok? ==> forall v ::
      && (v in r.value.minutes <==> FieldDenotes(parts[0], 0, 59, false, v))
      && (v in r.value.hours <==> FieldDenotes(parts[1], 0, 23, false, v))
      && (v in r.value.daysOfMonth <==> FieldDenotes(parts[2], 1, 31, false, v))
      && (v in r.value.months <==> FieldDenotes(parts[3], 1, 12, false, v))
      && (v in r.value.daysOfWeek <==> FieldDenotes(parts[4], 0, 7, true, v))
    ensures r.Ok?
        ==> r.value.dayOfMonthWildcard == (parts[2] == WILDCARD) && r.value.dayOfWeekWildcard == (parts[4] == WILDCARD)
  {
    hide FieldDenotes, FieldAccepted;
    if |parts| != 5 { return Err(NotFiveFields); }
    var minutes := ParseWithin(parts[0], 0, 59, false);
    if minutes.Err? { return Err(minutes.error); }
    var hours := ParseWithin(parts[1], 0, 23, false);
    if hours.Err? { return Err(hours.error); }
    var daysOfMonth := ParseWithin(parts[2], 1, 31, false);
    if daysOfMonth.Err? { return Err(daysOfMonth.error); }
    var months := ParseWithin(parts[3], 1, 12, false);
    if months.Err? { return Err(months.error); }
    var daysOfWeek := ParseWithin(parts[4], 0, 7, true);
    if daysOfWeek.Err? { return Err(daysOfWeek.error); }
    forall d | 1 <= d <= 31 && parts[2] == WILDCARD ensures d in daysOfMonth.value {
      WildcardDenotesAll(1, 31, false, d);
    }
    forall d | 0 <= d <= 6 && parts[4] == WILDCARD ensures d in daysOfWeek.value { WildcardDenotesAll(0, 7, true, d); }
    return Ok(Schedule(minutes.value, hours.value, daysOfMonth.value, months.value, daysOfWeek.value,
                       parts[2] == WILDCARD, parts[4] == WILDCARD));
  }

  /** Parsing a field, with what that gives about the values. */
  method ParseWithin(field: Field, min: int, max: int, weekday: bool) returns (r: Result<set<int>, CronError>)
    requires min <= max && (weekday ==> min == 0 && max == 7)
    ensures r.Ok? <==> FieldAccepted(field, min, max)
    ensures r.Ok? ==> forall v :: v in r.value <==> FieldDenotes(field, min, max, weekday, v)
    ensures r.Ok? ==> WithinAndNonEmpty(r.value, min, if weekday then 6 else max)
  {
    r := ParseField(field, min, max, weekday);
    if r.Ok? {
      FirstIsDenoted(field[0], min, max, weekday);
      var (first, _) := ParseToken(field[0], min, max).value;
      assert field[0] in field && Normalize(first, weekday) in r.value;
      forall v | v in r.value ensures min <= v <= if weekday then 6 else max {
        DenotedInRange(field, min, max, weekday, v);
      }
    }
  }

  // ----- Matching

  predicate MatchesCronDay(s: Schedule, dayOfMonthMatches: bool, dayOfWeekMatches: bool) {
    if s.dayOfMonthWildcard && s.dayOfWeekWildcard then true
    else if s.dayOfMonthWildcard then dayOfWeekMatches
    else if s.dayOfWeekWildcard then dayOfMonthMatches
    else dayOfMonthMatches || dayOfWeekMatches
  }

  predicate Matches(s: Schedule, t: int) {
    && UTCMinutes(t) in s.minutes
    && UTCHours(t) in s.hours
    && UTCMonth(t) + 1 in s.months
    && MatchesCronDay(s, UTCDate(t) in s.daysOfMonth, UTCDay(t) in s.daysOfWeek)
  }

  /** Whether some minute of a day may match, as far as the day is concerned. */
  predicate DayMatches(s: Schedule, day: int) {
    && MonthOfDay(day) in s.months
    && MatchesCronDay(s, DateOfDay(day) in s.daysOfMonth, (day + 4) % 7 in s.daysOfWeek)
  }

  const ONE_YEAR := 366 * 24 * 60 * 60 * 1000

  /** The first match among candidate, candidate + 1 minute, ... up to the deadline. */
  function FirstMatch(s: Schedule, candidate: int, deadline: int): Option<int>
    decreases deadline - candidate
  {
    if candidate > deadline then None
    else if Matches(s, candidate) then Some(candidate)
    else FirstMatch(s, candidate + MS_PER_MINUTE, deadline)
  }

  function StartOfSearch(from: int): int { from + MS_PER_MINUTE - (from + MS_PER_MINUTE) % MS_PER_MINUTE }

  function NextRun(s: Schedule, from: int): Option<int> {
    FirstMatch(s, StartOfSearch(from), from + ONE_YEAR)
  }

  method ComputeNextCronRun(s: Schedule, from: int) returns (r: Result<int, CronError>)
    ensures match NextRun(s, from) case Some(t) => r == Ok(t) case None => r == Err(NoRunWithinAYear)
  {
    var candidate := from + 60_000;
    SettersMoveByMinutes(candidate);
    candidate := SetUTCSeconds(candidate, 0, 0);
    var deadline := from + 366 * 24 * 60 * 60 * 1000;
    while candidate <= deadline
      invariant NextRun(s, from) == FirstMatch(s, candidate, deadline)
      decreases deadline - candidate
    {
      if Matches(s, candidate) { return Ok(candidate); }
      SettersMoveByMinutes(candidate);
      candidate := SetUTCMinutes(candidate, UTCMinutes(candidate) + 1);
    }
    return Err(NoRunWithinAYear);
  }

  predicate WholeMinute(t: int) { t % MS_PER_MINUTE == 0 }

  lemma NextWholeMinute(t: int)
    requires WholeMinute(t)
    ensures WholeMinute(t + MS_PER_MINUTE)
    ensures forall u | t <= u < t + MS_PER_MINUTE && WholeMinute(u) :: u == t
  {
  }

  lemma {:induction false} FirstMatchIsLeast(s: Schedule, candidate: int, deadline: int)
    requires WholeMinute(candidate)
    ensures match FirstMatch(s, candidate, deadline)
            case Some(t) => && WholeMinute(t) && candidate <= t <= deadline && Matches(s, t)
                            && forall u | candidate <= u < t && WholeMinute(u) :: !Matches(s, u)
            case None => forall u | candidate <= u <= deadline && WholeMinute(u) :: !Matches(s, u)
    decreases deadline - candidate
  {
    hide Matches;
    if candidate <= deadline && !Matches(s, candidate) {
      NextWholeMinute(candidate);
      hide WholeMinute;
      FirstMatchIsLeast(s, candidate + MS_PER_MINUTE, deadline);
    }
  }

  /**
    The next run is the least whole minute after `from`, at most 366 days later, that matches; there is
    none exactly when no such minute matches.
   */
  lemma NextRunIsLeast(s: Schedule, from: int)
    ensures match NextRun(s, from)
            case Some(t) => && WholeMinute(t) && from < t <= from + ONE_YEAR && Matches(s, t)
                            && forall u | from < u < t && WholeMinute(u) :: !Matches(s, u)
            case None => forall u | from < u <= from + ONE_YEAR && WholeMinute(u) :: !Matches(s, u)
  {
    hide Matches;
    var start := StartOfSearch(from);
    assert WholeMinute(start) && from < start <= from + MS_PER_MINUTE;
    assert forall u | from < u < start :: !WholeMinute(u);
    FirstMatchIsLeast(s, start, from + ONE_YEAR);
  }

  /**
    A time matches exactly when its minute, hour and month do and so does its day: by date and weekday when
    one of the two fields is a wildcard, by either of them when both are restricted.
   */
  lemma MatchesIff(s: Schedule, t: int)
    requires Parsed(s)
    ensures var byDate, byWeekday := UTCDate(t) in s.daysOfMonth, UTCDay(t) in s.daysOfWeek;
            (Matches(s, t)
             <==> && UTCMinutes(t) in s.minutes && UTCHours(t) in s.hours && UTCMonth(t) + 1 in s.months
                  && if s.dayOfMonthWildcard || s.dayOfWeekWildcard then byDate && byWeekday else byDate || byWeekday)
  {
    ShortestMonth(MonthOfDay(Day(t)), IsLeap(YearOfDay(Day(t))));
    hide DayFromYear, MonthStart;
  }

  // ----- Completeness

  lemma MatchesAt(s: Schedule, day: int, hours: int, minutes: int)
    requires 0 <= hours < 24 && 0 <= minutes < 60
    ensures WholeMinute(MakeDate(day, hours, minutes, 0, 0))
    ensures Matches(s, MakeDate(day, hours, minutes, 0, 0))
       <==> minutes in s.minutes && hours in s.hours && DayMatches(s, day)
  {
    hide MatchesCronDay, MonthOfDay, DateOfDay;
    PartsOf(day, hours, minutes, 0, 0);
  }

  /** Any matching day that lies wholly in the window yields a run. */
  lemma MatchingDayGivesRun(s: Schedule, from: int, day: int)
    requires Parsed(s) && DayMatches(s, day)
    requires Day(from) < day <= Day(from) + 365
    ensures NextRun(s, from).Some?
  {
    hide DayMatches, Matches, NextRun;
    var hours :| hours in s.hours;
    var minutes :| minutes in s.minutes;
    MatchesAt(s, day, hours, minutes);
    NextRunIsLeast(s, from);
    var t := MakeDate(day, hours, minutes, 0, 0);
    assert from < t <= from + ONE_YEAR;
  }

  /** Any 365 consecutive days hold seven consecutive days of any given month. */
  lemma WeekOfMonth(first: int, month: int) returns (start: int)
    requires 1 <= month <= 12
    ensures first <= start && start + 6 <= first + 364
    ensures forall day | start <= day <= start + 6 :: MonthOfDay(day) == month
  {
    hide DayFromYear, MonthStart, MonthOfDay, DateOfDay, IsLeap, YearOfDay;
    var y := YearOfDay(first);
    if DayNumber(y, month, 1) < first { y := y + 1; }
    assert DayNumber(y - 1, month, 1) < first <= DayNumber(y, month, 1) by {
      NextYearStarts(y - 1);
      if YearOfDay(first) == y {
        MonthWithinYear(y - 1, month);
      } else {
        MonthWithinYear(y, month);
      }
    }
    DateRecurs(y - 1, month, 1);
    var date := 1;
    if DayNumber(y, month, 1) + 6 <= first + 364 {
      start := DayNumber(y, month, 1);
    } else {
      y, date := y - 1, 15;
      start := DayNumber(y, month, 15);
    }
    ShortestMonth(month, IsLeap(y));
    forall day | start <= day <= start + 6 ensures MonthOfDay(day) == month {
      DateReadBack(y, month, date + (day - start));
    }
  }

  lemma MonthWithinYear(y: int, month: int)
    requires 1 <= month <= 12
    ensures DayFromYear(y) <= DayNumber(y, month, 1) < DayFromYear(y + 1)
  {
    NextYearStarts(y);
    MonthStartsGrow(month, 13, IsLeap(y));
    if month > 1 { MonthStartsGrow(1, month, IsLeap(y)); }
  }

  lemma ShortestMonth(month: int, leap: bool)
    requires 1 <= month <= 12
    ensures 28 <= MonthLength(month, false) <= MonthLength(month, leap) <= 31
  {
  }

  /** A schedule with a restricted weekday always has a run within a year. */
  lemma RestrictedWeekdayRuns(s: Schedule, from: int)
    requires Parsed(s) && !s.dayOfWeekWildcard
    ensures NextRun(s, from).Some?
  {
    hide NextRun, MonthOfDay, DateOfDay;
    var month :| month in s.months;
    var weekday :| weekday in s.daysOfWeek;
    var start := WeekOfMonth(Day(from) + 1, month);
    var day := start + (weekday - (start + 4)) % 7;
    assert (day + 4) % 7 == weekday;
    MatchingDayGivesRun(s, from, day);
  }

  /** A date that exists in every year comes, at any time of day, within 366 days of any moment. */
  lemma EveryYearsDate(from: int, month: int, date: int, hours: int, minutes: int) returns (y: int)
    requires 1 <= month <= 12 && 1 <= date <= MonthLength(month, false)
    requires 0 <= hours < 24 && 0 <= minutes < 60
    ensures from < MakeDate(DayNumber(y, month, date), hours, minutes, 0, 0) <= from + ONE_YEAR
  {
    hide DayFromYear, MonthStart, DayNumber, IsLeap, YearOfDay;
    y := YearOfDay(Day(from));
    DateWithinYear(y - 1, month, date);
    DateWithinYear(y + 1, month, date);
    if MakeDate(DayNumber(y, month, date), hours, minutes, 0, 0) <= from { y := y + 1; }
    DateRecurs(y - 1, month, date);
  }

  lemma DateWithinYear(y: int, month: int, date: int)
    requires 1 <= month <= 12 && 1 <= date <= MonthLength(month, false)
    ensures DayFromYear(y) <= DayNumber(y, month, date) < DayFromYear(y + 1)
  {
    NextYearStarts(y);
    ShortestMonth(month, IsLeap(y));
    if month > 1 { MonthStartsGrow(1, month, IsLeap(y)); }
    if month < 12 { MonthStartsGrow(month + 1, 13, IsLeap(y)); }
  }

  /** The schedule allows some month and date that exist in every year. */
  ghost predicate AllowsEveryYearsDate(s: Schedule) {
    exists month, date | month in s.months && date in s.daysOfMonth :: DateInEveryYear(month, date)
  }

  predicate DateInEveryYear(month: int, date: int) {
    1 <= month <= 12 && 1 <= date <= MonthLength(month, false)
  }

  /** So has one with a wildcard weekday that allows a date existing in every year. */
  lemma EveryYearsDateRuns(s: Schedule, from: int)
    requires Parsed(s) && s.dayOfWeekWildcard && AllowsEveryYearsDate(s)
    ensures NextRun(s, from).Some?
  {
    hide NextRun, MonthOfDay, DateOfDay, Matches;
    var month, date :| month in s.months && date in s.daysOfMonth && DateInEveryYear(month, date);
    var hours :| hours in s.hours;
    var minutes :| minutes in s.minutes;
    var y := EveryYearsDate(from, month, date, hours, minutes);
    var day := DayNumber(y, month, date);
    ShortestMonth(month, IsLeap(y));
    DateReadBack(y, month, date);
    MatchesAt(s, day, hours, minutes);
    NextRunIsLeast(s, from);
  }

  // ----- Schedules that can starve

  function LeapMinute(y: int, hours: int, minutes: int): int { MakeDate(DayNumber(y, 2, 29), hours, minutes, 0, 0) }

  predicate LeapMinuteWithin(y: int, hours: int, minutes: int, from: int) {
    IsLeap(y) && from < LeapMinute(y, hours, minutes) <= from + ONE_YEAR
  }

  /** The schedule allows 29 February, and one of its minutes on such a day lies in the year that is searched. */
  ghost predicate LeapDayAhead(s: Schedule, from: int) {
    && 2 in s.months && 29 in s.daysOfMonth
    && exists y: int, hours, minutes | hours in s.hours && minutes in s.minutes ::
         LeapMinuteWithin(y, hours, minutes, from)
  }

  lemma MatchAllowsItsDate(s: Schedule, t: int)
    requires Parsed(s) && s.dayOfWeekWildcard && Matches(s, t)
    ensures MonthOfDay(Day(t)) in s.months && DateOfDay(Day(t)) in s.daysOfMonth
  {
    hide Day, MonthOfDay, DateOfDay;
    ShortestMonth(MonthOfDay(Day(t)), IsLeap(YearOfDay(Day(t))));
  }

  /** The only date that exists in some years and not in others is 29 February. */
  lemma OnlyLeapDay(day: int)
    requires !DateInEveryYear(MonthOfDay(day), DateOfDay(day))
    ensures MonthOfDay(day) == 2
    ensures DateOfDay(day) == 29
    ensures IsLeap(YearOfDay(day))
    ensures day == DayNumber(YearOfDay(day), 2, 29)
  {
    hide YearOfDay, IsLeap, DayFromYear;
    assert 1 <= DateOfDay(day) <= MonthLength(MonthOfDay(day), IsLeap(YearOfDay(day)));
  }

  lemma WholeMinuteParts(t: int)
    requires WholeMinute(t)
    ensures 0 <= UTCHours(t) < 24 && 0 <= UTCMinutes(t) < 60 && t == MakeDate(Day(t), UTCHours(t), UTCMinutes(t), 0, 0)
  {
    var day, hours, minutes, seconds, ms := Recompose(t);
    PartsOf(day, hours, minutes, seconds, ms);
  }

  lemma LeapMinuteRuns(s: Schedule, from: int, y: int, hours: int, minutes: int)
    requires Parsed(s) && s.dayOfWeekWildcard && 2 in s.months && 29 in s.daysOfMonth
    requires hours in s.hours && minutes in s.minutes && LeapMinuteWithin(y, hours, minutes, from)
    ensures NextRun(s, from).Some?
  {
    hide NextRun, MonthOfDay, DateOfDay, Matches, DayNumber;
    assert MonthLength(2, true) == 29;
    DateReadBack(y, 2, 29);
    MatchesAt(s, DayNumber(y, 2, 29), hours, minutes);
    NextRunIsLeast(s, from);
  }

  /**
    A schedule with a wildcard weekday and no date that exists in every year finds a run from a moment
    exactly when it allows 29 February and one of its minutes on such a day lies within 366 days.
   */
  lemma OnlyLeapDaysRunIff(s: Schedule, from: int)
    requires Parsed(s) && s.dayOfWeekWildcard && !AllowsEveryYearsDate(s)
    ensures NextRun(s, from).Some? <==> LeapDayAhead(s, from)
  {
    hide NextRun, MonthOfDay, DateOfDay, DayNumber, YearOfDay, Day, UTCHours, UTCMinutes, IsLeap, DateInEveryYear;
    NextRunIsLeast(s, from);
    if NextRun(s, from).Some? {
      var t := NextRun(s, from).value;
      MatchAllowsItsDate(s, t);
      OnlyLeapDay(Day(t));
      WholeMinuteParts(t);
      assert LeapMinuteWithin(YearOfDay(Day(t)), UTCHours(t), UTCMinutes(t), from);
    }
    if LeapDayAhead(s, from) {
      var y: int, hours, minutes :| hours in s.hours && minutes in s.minutes
        && LeapMinuteWithin(y, hours, minutes, from);
      LeapMinuteRuns(s, from, y, hours, minutes);
    }
  }

  /** Midnight of 1 March 2021: the 366 days after it hold no 29 February. */
  const MARCH_2021 := 18687 * MS_PER_DAY

  lemma CommonYears(t: int)
    requires MARCH_2021 < t <= MARCH_2021 + ONE_YEAR
    ensures !IsLeap(YearOfDay(Day(t)))
  {
    var day := Day(t);
    assert 18687 <= day <= 18687 + 366;
    assert DayFromYear(2021) == 18628 && DayFromYear(2022) == 18993 && DayFromYear(2023) == 19358;
    if day < 18993 { YearUnique(day, 2021); } else { YearUnique(day, 2022); }
  }

  /** From 1 March 2021 it finds none: the 366 days that follow lie in common years. */
  lemma NoEveryYearsDateStarves(s: Schedule)
    requires Parsed(s) && s.dayOfWeekWildcard && !AllowsEveryYearsDate(s)
    ensures NextRun(s, MARCH_2021).None?
  {
    hide NextRun, Day, MonthLength, MonthOfDay, DateOfDay, Matches;
    NextRunIsLeast(s, MARCH_2021);
    forall u | MARCH_2021 < u <= MARCH_2021 + ONE_YEAR ensures !Matches(s, u) {
      CommonYears(u);
      assert DateInEveryYear(MonthOfDay(Day(u)), DateOfDay(Day(u)));
      if Matches(s, u) { MatchAllowsItsDate(s, u); }
    }
  }

  /**
    A parsed schedule finds a run from every moment exactly when its weekday is restricted or it allows
    a date that exists in every year.
   */
  lemma NeverStarvesIff(s: Schedule)
    requires Parsed(s)
    ensures (forall from :: NextRun(s, from).Some?) <==> (!s.dayOfWeekWildcard || AllowsEveryYearsDate(s))
  {
    hide NextRun, AllowsEveryYearsDate;
    if !s.dayOfWeekWildcard {
      forall from ensures NextRun(s, from).Some? { RestrictedWeekdayRuns(s, from); }
    } else if AllowsEveryYearsDate(s) {
      forall from ensures NextRun(s, from).Some? { EveryYearsDateRuns(s, from); }
    } else {
      NoEveryYearsDateStarves(s);
    }
  }
}
