/**
  Coordinated universal time as ECMA-262 section 21.4.1 defines it: time values are milliseconds since
  1970, days and years follow the proleptic Gregorian calendar.
 */
module Calendar {
  const MS_PER_MINUTE := 60_000
  const MS_PER_HOUR := 3_600_000
  const MS_PER_DAY := 86_400_000

  function Day(t: int): int { t / MS_PER_DAY }

  function UTCHours(t: int): int { t % MS_PER_DAY / MS_PER_HOUR }

  function UTCMinutes(t: int): int { t % MS_PER_HOUR / MS_PER_MINUTE }

  function UTCSeconds(t: int): int { t % MS_PER_MINUTE / 1000 }

  function UTCMilliseconds(t: int): int { t % 1000 }

  function UTCDay(t: int): int { (Day(t) + 4) % 7 }

  predicate IsLeap(y: int) { y % 4 == 0 && (y % 100 != 0 || y % 400 == 0) }

  function DaysInYear(y: int): int { if IsLeap(y) then 366 else 365 }

  /** The number of the first day of a year. */
  function DayFromYear(y: int): int {
    365 * (y - 1970) + (y - 1969) / 4 - (y - 1901) / 100 + (y - 1601) / 400
  }

  lemma QuarterStep(y: int)
    ensures (y - 1968) / 4 == (y - 1969) / 4 + if y % 4 == 0 then 1 else 0
  {
  }

  lemma CenturyStep(y: int)
    ensures (y - 1900) / 100 == (y - 1901) / 100 + if y % 100 == 0 then 1 else 0
  {
  }

  lemma FourCenturiesStep(y: int)
    ensures (y - 1600) / 400 == (y - 1601) / 400 + if y % 400 == 0 then 1 else 0
  {
  }

  lemma LeapRulesNest(y: int)
    ensures y % 400 == 0 ==> y % 100 == 0
    ensures y % 100 == 0 ==> y % 4 == 0
  {
  }

  /** Consecutive years start 365 or 366 days apart, by the leap-year rule. */
  lemma NextYearStarts(y: int)
    ensures DayFromYear(y + 1) == DayFromYear(y) + DaysInYear(y)
  {
    QuarterStep(y);
    CenturyStep(y);
    FourCenturiesStep(y);
    LeapRulesNest(y);
  }

  /** The year a day belongs to, walking up or down from a year on the near side of it. */
  function YearUp(day: int, guess: int): (y: int)
    requires DayFromYear(guess) <= day
    ensures DayFromYear(y) <= day < DayFromYear(y + 1)
    decreases day - DayFromYear(guess)
  {
    NextYearStarts(guess);
    if day >= DayFromYear(guess + 1) then YearUp(day, guess + 1) else guess
  }

  function YearDown(day: int, guess: int): (y: int)
    requires day < DayFromYear(guess + 1)
    ensures DayFromYear(y) <= day < DayFromYear(y + 1)
    decreases DayFromYear(guess + 1) - day
  {
    NextYearStarts(guess);
    if day < DayFromYear(guess) then YearDown(day, guess - 1) else guess
  }

  function YearOfDay(day: int): (y: int)
    ensures DayFromYear(y) <= day < DayFromYear(y + 1)
  {
    if day >= 0 then YearUp(day, 1970) else YearDown(day, 1969)
  }

  lemma {:induction false} YearsGrow(a: int, b: int)
    requires a < b
    ensures DayFromYear(a) + 365 <= DayFromYear(b)
    decreases b - a
  {
    NextYearStarts(b - 1);
    if a < b - 1 { YearsGrow(a, b - 1); }
  }

  /** The year of a day is the one year that contains it. */
  lemma YearUnique(day: int, y: int)
    requires DayFromYear(y) <= day < DayFromYear(y + 1)
    ensures YearOfDay(day) == y
  {
    var found := YearOfDay(day);
    if found < y { if found + 1 < y { YearsGrow(found + 1, y); } }
    if y < found { if y + 1 < found { YearsGrow(y + 1, found); } }
  }

  /** Days before a month (1 to 13) within a year. */
  function MonthStart(month: int, leap: bool): int
    requires 1 <= month <= 13
  {
    [0, 31, 59, 90, 120, 151, 181, 212, 243, 273, 304, 334, 365][month - 1] + if leap && month > 2 then 1 else 0
  }

  function MonthLength(month: int, leap: bool): int
    requires 1 <= month <= 12
  {
    MonthStart(month + 1, leap) - MonthStart(month, leap)
  }

  /** The month, counted from 1, of a day within its year. */
  function MonthWithin(dayInYear: int, leap: bool): (month: int)
    requires 0 <= dayInYear < if leap then 366 else 365
    ensures 1 <= month <= 12 && MonthStart(month, leap) <= dayInYear < MonthStart(month + 1, leap)
  {
    if dayInYear < MonthStart(2, leap) then 1
    else if dayInYear < MonthStart(3, leap) then 2
    else if dayInYear < MonthStart(4, leap) then 3
    else if dayInYear < MonthStart(5, leap) then 4
    else if dayInYear < MonthStart(6, leap) then 5
    else if dayInYear < MonthStart(7, leap) then 6
    else if dayInYear < MonthStart(8, leap) then 7
    else if dayInYear < MonthStart(9, leap) then 8
    else if dayInYear < MonthStart(10, leap) then 9
    else if dayInYear < MonthStart(11, leap) then 10
    else if dayInYear < MonthStart(12, leap) then 11
    else 12
  }

  function DayWithinYear(day: int): (d: int)
    ensures 0 <= d < DaysInYear(YearOfDay(day))
  {
    NextYearStarts(YearOfDay(day));
    day - DayFromYear(YearOfDay(day))
  }

  function MonthOfDay(day: int): (month: int)
    ensures 1 <= month <= 12
  {
    MonthWithin(DayWithinYear(day), IsLeap(YearOfDay(day)))
  }

  function DateOfDay(day: int): (date: int)
    ensures 1 <= date <= MonthLength(MonthOfDay(day), IsLeap(YearOfDay(day)))
  {
    DayWithinYear(day) - MonthStart(MonthOfDay(day), IsLeap(YearOfDay(day))) + 1
  }

  /** Counted from 0, as the ECMAScript getter does. */
  function UTCMonth(t: int): int { MonthOfDay(Day(t)) - 1 }

  function UTCDate(t: int): int { DateOfDay(Day(t)) }

  /** The day of a calendar date. */
  function DayNumber(y: int, month: int, date: int): int
    requires 1 <= month <= 12
  {
    DayFromYear(y) + MonthStart(month, IsLeap(y)) + date - 1
  }

  lemma MonthStartsGrow(a: int, b: int, leap: bool)
    requires 1 <= a < b <= 13
    ensures MonthStart(a, leap) < MonthStart(b, leap)
  {
  }

  /** Reading back the date a day was made from. */
  lemma DateReadBack(y: int, month: int, date: int)
    requires 1 <= month <= 12 && 1 <= date <= MonthLength(month, IsLeap(y))
    ensures var day := DayNumber(y, month, date);
            YearOfDay(day) == y && MonthOfDay(day) == month && DateOfDay(day) == date
  {
    var day := DayNumber(y, month, date);
    var leap := IsLeap(y);
    NextYearStarts(y);
    if month > 1 { MonthStartsGrow(1, month, leap); }
    if month < 12 { MonthStartsGrow(month + 1, 13, leap); }
    YearUnique(day, y);
    var found := MonthOfDay(day);
    if found < month && found + 1 < month { MonthStartsGrow(found + 1, month, leap); }
    if month < found && month + 1 < found { MonthStartsGrow(month + 1, found, leap); }
  }

  /** The same date recurs within 366 days. */
  lemma DateRecurs(y: int, month: int, date: int)
    requires 1 <= month <= 12
    ensures DayNumber(y, month, date) < DayNumber(y + 1, month, date) <= DayNumber(y, month, date) + 366
  {
    NextYearStarts(y);
  }

  // ----- The setters the search uses

  function MakeDate(day: int, hours: int, minutes: int, seconds: int, ms: int): int {
    day * MS_PER_DAY + hours * MS_PER_HOUR + minutes * MS_PER_MINUTE + seconds * 1000 + ms
  }

  function SetUTCSeconds(t: int, seconds: int, ms: int): int {
    MakeDate(Day(t), UTCHours(t), UTCMinutes(t), seconds, ms)
  }

  function SetUTCMinutes(t: int, minutes: int): int {
    MakeDate(Day(t), UTCHours(t), minutes, UTCSeconds(t), UTCMilliseconds(t))
  }

  /** A time value below a day, an hour or a minute, read from its parts. */
  lemma PartsOf(day: int, hours: int, minutes: int, seconds: int, ms: int)
    requires 0 <= hours < 24 && 0 <= minutes < 60 && 0 <= seconds < 60 && 0 <= ms < 1000
    ensures var t := MakeDate(day, hours, minutes, seconds, ms);
            && Day(t) == day && UTCHours(t) == hours && UTCMinutes(t) == minutes
            && t % MS_PER_MINUTE == seconds * 1000 + ms
            && UTCSeconds(t) == seconds && UTCMilliseconds(t) == ms
  {
    var t := MakeDate(day, hours, minutes, seconds, ms);
    var belowMinute := seconds * 1000 + ms;
    var belowHour := minutes * MS_PER_MINUTE + belowMinute;
    var belowDay := hours * MS_PER_HOUR + belowHour;
    assert Day(t) == day && t % MS_PER_DAY == belowDay by { Split(t, day, belowDay, MS_PER_DAY); }
    assert t % MS_PER_HOUR == belowHour by { Split(t, 24 * day + hours, belowHour, MS_PER_HOUR); }
    assert t % MS_PER_MINUTE == belowMinute by {
      Split(t, 1440 * day + 60 * hours + minutes, belowMinute, MS_PER_MINUTE);
    }
    assert t % 1000 == ms by { Split(t, 86400 * day + 3600 * hours + 60 * minutes + seconds, ms, 1000); }
    Split(belowDay, hours, belowHour, MS_PER_HOUR);
    Split(belowHour, minutes, belowMinute, MS_PER_MINUTE);
    Split(belowMinute, seconds, ms, 1000);
  }

  lemma Split(t: int, quotient: int, remainder: int, unit: int)
    requires unit in {1000, MS_PER_MINUTE, MS_PER_HOUR, MS_PER_DAY}
    requires t == quotient * unit + remainder && 0 <= remainder < unit
    ensures t / unit == quotient && t % unit == remainder
  {
    if unit == 1000 { assert t == quotient * 1000 + remainder; }
    else if unit == MS_PER_MINUTE { assert t == quotient * 60_000 + remainder; }
    else if unit == MS_PER_HOUR { assert t == quotient * 3_600_000 + remainder; }
    else { assert t == quotient * 86_400_000 + remainder; }
  }

  /** Every time value is made of its parts. */
  lemma Recompose(t: int) returns (day: int, hours: int, minutes: int, seconds: int, ms: int)
    ensures 0 <= hours < 24 && 0 <= minutes < 60 && 0 <= seconds < 60 && 0 <= ms < 1000
    ensures t == MakeDate(day, hours, minutes, seconds, ms)
  {
    day := t / MS_PER_DAY;
    var belowDay := t % MS_PER_DAY;
    hours := belowDay / MS_PER_HOUR;
    var belowHour := belowDay % MS_PER_HOUR;
    minutes := belowHour / MS_PER_MINUTE;
    var belowMinute := belowHour % MS_PER_MINUTE;
    seconds := belowMinute / 1000;
    ms := belowMinute % 1000;
  }

  /** Clearing the seconds rounds down to the minute, and setting the next minute advances by one. */
  lemma SettersMoveByMinutes(t: int)
    ensures SetUTCSeconds(t, 0, 0) == t - t % MS_PER_MINUTE
    ensures SetUTCMinutes(t, UTCMinutes(t) + 1) == t + MS_PER_MINUTE
  {
    hide Day, UTCHours, UTCMinutes, UTCSeconds, UTCMilliseconds;
    var day, hours, minutes, seconds, ms := Recompose(t);
    PartsOf(day, hours, minutes, seconds, ms);
  }

  // ----- The calendar, one day after the other

  /** The days of a month: thirty for April, June, September and November, and February's own rule. */
  function LastDate(y: int, month: int): int {
    if month == 2 then (if y % 400 == 0 || (y % 4 == 0 && y % 100 != 0) then 29 else 28)
    else if month == 4 || month == 6 || month == 9 || month == 11 then 30 else 31
  }

  /** Day 0 is 1 January 1970, a Thursday. */
  lemma Epoch()
    ensures YearOfDay(0) == 1970 && MonthOfDay(0) == 1 && DateOfDay(0) == 1 && UTCDay(0) == 4
  {
    FirstDay();
    hide YearOfDay, MonthOfDay, DateOfDay, DayNumber, MonthLength, DayFromYear, MonthStart;
    LengthOfMonth(1970, 1);
    DateReadBack(1970, 1, 1);
  }

  lemma FirstDay()
    ensures DayNumber(1970, 1, 1) == 0
  {
    hide IsLeap;
    assert DayFromYear(1970) == 0;
  }

  lemma LengthOfMonth(y: int, month: int)
    requires 1 <= month <= 12
    ensures MonthLength(month, IsLeap(y)) == LastDate(y, month)
  {
  }

  lemma MadeOfItsDate(day: int)
    ensures day == DayNumber(YearOfDay(day), MonthOfDay(day), DateOfDay(day))
  {
    hide DayFromYear, MonthStart, YearOfDay, MonthOfDay, IsLeap;
  }

  lemma DateAfter(y: int, month: int, date: int)
    requires 1 <= month <= 12
    ensures DayNumber(y, month, date) + 1 == DayNumber(y, month, date + 1)
    ensures date == MonthLength(month, IsLeap(y)) ==>
              DayNumber(y, month, date) + 1 == if month < 12 then DayNumber(y, month + 1, 1) else DayNumber(y + 1, 1, 1)
  {
    NextYearStarts(y);
    hide DayFromYear;
  }

  /** The next day has the next date, of the same month until its last date and then of the month after it. */
  lemma NextDate(day: int)
    ensures var y, month, date := YearOfDay(day), MonthOfDay(day), DateOfDay(day);
            && 1 <= date <= LastDate(y, month)
            && (YearOfDay(day + 1), MonthOfDay(day + 1), DateOfDay(day + 1))
               == if date < LastDate(y, month) then (y, month, date + 1)
                  else if month < 12 then (y, month + 1, 1) else (y + 1, 1, 1)
  {
    var y, month, date := YearOfDay(day), MonthOfDay(day), DateOfDay(day);
    hide DayFromYear, MonthStart, YearOfDay, MonthOfDay, DateOfDay, IsLeap, MonthLength, LastDate, DayNumber;
    MadeOfItsDate(day);
    LengthOfMonth(y, month);
    LengthOfMonth(y, if month < 12 then month + 1 else 1);
    LengthOfMonth(y + 1, 1);
    DateAfter(y, month, date);
    SomeDate(y, if month < 12 then month + 1 else 1);
    SomeDate(y + 1, 1);
    if date < LastDate(y, month) { DateReadBack(y, month, date + 1); }
    else if month < 12 { DateReadBack(y, month + 1, 1); }
    else { DateReadBack(y + 1, 1, 1); }
  }

  lemma SomeDate(y: int, month: int)
    requires 1 <= month <= 12
    ensures LastDate(y, month) >= 28
  {
  }

  /** A time value is its days, hours, minutes, seconds and milliseconds, and the weekday goes round with the days. */
  lemma ClockReading(t: int)
    ensures Day(t) * 86_400_000 + UTCHours(t) * 3_600_000 + UTCMinutes(t) * 60_000 + UTCSeconds(t) * 1_000
              + UTCMilliseconds(t) == t
    ensures 0 <= UTCHours(t) < 24
    ensures 0 <= UTCMinutes(t) < 60
    ensures 0 <= UTCSeconds(t) < 60
    ensures 0 <= UTCMilliseconds(t) < 1_000
    ensures 0 <= UTCDay(t) < 7 && UTCDay(t + 86_400_000) == if UTCDay(t) == 6 then 0 else UTCDay(t) + 1
  {
    var day, hours, minutes, seconds, ms := Recompose(t);
    PartsOf(day, hours, minutes, seconds, ms);
    assert Day(t + 86_400_000) == Day(t) + 1;
  }
}
