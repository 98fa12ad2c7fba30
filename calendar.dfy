/** Gregorian calendar arithmetic behind the JavaScript `Date` calls of the
    helpers section: day numbers, `new Date(y, m, d)` with roll-over,
    `getDay`, and the ISO 8601 week number of `getWeekNumber`.

    Day number 0 is Monday 1 January of year 1 of the proleptic Gregorian
    calendar; Dafny's `/` rounds down for a positive divisor, so the formulas
    below hold for every year, before year 1 too. Local time and UTC share
    one calendar here: time zones and daylight saving are not modelled. */
module Calendar {

  datatype CalendarDate = CalendarDate(year: int, month: int, day: int)

  predicate IsLeapYear(y: int) {
    y % 4 == 0 && (y % 100 != 0 || y % 400 == 0)
  }

  function DaysInMonth(y: int, m: int): (n: int)
    requires 1 <= m <= 12
    ensures 28 <= n <= 31
    ensures m == 2 <==> n < 30
  {
    if m == 2 then (if IsLeapYear(y) then 29 else 28)
    else if m == 4 || m == 6 || m == 9 || m == 11 then 30
    else 31
  }

  /** Month 1..12 and a day that exists in that month. */
  predicate IsValid(d: CalendarDate) {
    1 <= d.month <= 12 && 1 <= d.day <= DaysInMonth(d.year, d.month)
  }

  /** A calendar date as a JavaScript Date reports it: `getFullYear()`,
      `getMonth() + 1`, `getDate()`. */
  type Date = d: CalendarDate | IsValid(d) witness CalendarDate(1970, 1, 1)

  function YearLength(y: int): int {
    if IsLeapYear(y) then 366 else 365
  }

  /** Days from 1 January of year 1 to 1 January of year y (negative for
      years before 1), year by year. */
  function DaysBeforeYear(y: int): int
    decreases if y < 1 then 1 - y else y - 1
  {
    if y == 1 then 0
    else if y > 1 then DaysBeforeYear(y - 1) + YearLength(y - 1)
    else DaysBeforeYear(y + 1) - YearLength(y)
  }

  /** Days from 1 January of year y to the first of month m (m == 13 is the
      next 1 January). */
  function DaysBeforeMonth(y: int, m: int): (n: int)
    requires 1 <= m <= 13
    ensures 0 <= n <= YearLength(y)
    ensures m == 13 ==> n == YearLength(y)
  {
    var common :=
      if m == 1 then 0 else if m == 2 then 31 else if m == 3 then 59
      else if m == 4 then 90 else if m == 5 then 120 else if m == 6 then 151
      else if m == 7 then 181 else if m == 8 then 212 else if m == 9 then 243
      else if m == 10 then 273 else if m == 11 then 304 else if m == 12 then 334
      else 365;
    common + (if m > 2 && IsLeapYear(y) then 1 else 0)
  }

  lemma MonthStep(y: int, m: int)
    requires 1 <= m <= 12
    ensures DaysBeforeMonth(y, m + 1) == DaysBeforeMonth(y, m) + DaysInMonth(y, m)
  {
  }

  /** One calendar year is 365 days, 366 in a leap year. */
  lemma YearStep(y: int)
    ensures DaysBeforeYear(y + 1) == DaysBeforeYear(y) + YearLength(y)
  {
  }

  lemma {:induction false} DaysBeforeYearMonotone(a: int, b: int)
    requires a <= b
    ensures DaysBeforeYear(a) + 365 * (b - a) <= DaysBeforeYear(b)
    decreases b - a
  {
    if a < b {
      DaysBeforeYearMonotone(a, b - 1);
      YearStep(b - 1);
    }
  }

  /** The number of the day `d`; consecutive dates have consecutive numbers. */
  function DayNumber(d: Date): int {
    DaysBeforeYear(d.year) + DaysBeforeMonth(d.year, d.month) + d.day - 1
  }

  lemma DayNumberInYear(d: Date)
    ensures DaysBeforeYear(d.year) <= DayNumber(d) < DaysBeforeYear(d.year + 1)
  {
    MonthStep(d.year, d.month);
    YearStep(d.year);
  }

  /** A later day number never lies in an earlier year. */
  lemma DayNumberOrdersYears(a: Date, b: Date)
    requires DayNumber(a) <= DayNumber(b)
    ensures a.year <= b.year
  {
    DayNumberInYear(a);
    DayNumberInYear(b);
    if a.year > b.year {
      DaysBeforeYearMonotone(b.year + 1, a.year);
    }
  }

  function YearUp(n: int, y: int): (r: int)
    requires DaysBeforeYear(y) <= n
    ensures DaysBeforeYear(r) <= n < DaysBeforeYear(r + 1)
    decreases n - DaysBeforeYear(y)
  {
    YearStep(y);
    if DaysBeforeYear(y + 1) <= n then YearUp(n, y + 1) else y
  }

  function YearDown(n: int, y: int): (r: int)
    requires n < DaysBeforeYear(y + 1)
    ensures DaysBeforeYear(r) <= n < DaysBeforeYear(r + 1)
    decreases DaysBeforeYear(y + 1) - n
  {
    YearStep(y);
    if DaysBeforeYear(y) <= n then y else YearDown(n, y - 1)
  }

  /** The year that contains day number n (`getUTCFullYear`). */
  function YearOf(n: int): (y: int)
    ensures DaysBeforeYear(y) <= n < DaysBeforeYear(y + 1)
  {
    if n >= 0 then YearUp(n, 1) else YearDown(n, 0)
  }

  lemma YearOfUnique(n: int, y: int)
    requires DaysBeforeYear(y) <= n < DaysBeforeYear(y + 1)
    ensures YearOf(n) == y
  {
    var r := YearOf(n);
    if r < y {
      DaysBeforeYearMonotone(r + 1, y);
    } else if r > y {
      DaysBeforeYearMonotone(y + 1, r);
    }
  }

  function MonthFrom(y: int, dayOfYear: int, m: int): (r: int)
    requires 1 <= m <= 12
    requires DaysBeforeMonth(y, m) <= dayOfYear < YearLength(y)
    ensures m <= r <= 12
    ensures DaysBeforeMonth(y, r) <= dayOfYear < DaysBeforeMonth(y, r + 1)
    decreases 12 - m
  {
    if dayOfYear < DaysBeforeMonth(y, m + 1) then m else MonthFrom(y, dayOfYear, m + 1)
  }

  /** The date of day number n: the inverse of DayNumber. */
  function FromDayNumber(n: int): (d: Date)
    ensures DayNumber(d) == n
  {
    var y := YearOf(n);
    YearStep(y);
    var doy := n - DaysBeforeYear(y);
    var m := MonthFrom(y, doy, 1);
    MonthStep(y, m);
    CalendarDate(y, m, doy - DaysBeforeMonth(y, m) + 1)
  }

  lemma MonthUnique(y: int, m1: int, m2: int, k: int)
    requires 1 <= m1 <= 12 && 1 <= m2 <= 12
    requires DaysBeforeMonth(y, m1) <= k < DaysBeforeMonth(y, m1 + 1)
    requires DaysBeforeMonth(y, m2) <= k < DaysBeforeMonth(y, m2 + 1)
    ensures m1 == m2
  {
  }

  /** Different dates have different day numbers. */
  lemma DayNumberInjective(a: Date, b: Date)
    requires DayNumber(a) == DayNumber(b)
    ensures a == b
  {
    var n := DayNumber(a);
    DayNumberInYear(a);
    DayNumberInYear(b);
    YearOfUnique(n, a.year);
    YearOfUnique(n, b.year);
    var y := a.year;
    MonthStep(y, a.month);
    MonthStep(y, b.month);
    MonthUnique(y, a.month, b.month, n - DaysBeforeYear(y));
  }

  lemma FromDayNumberOfDate(d: Date)
    ensures FromDayNumber(DayNumber(d)) == d
  {
    DayNumberInjective(FromDayNumber(DayNumber(d)), d);
  }

  /** `getDay()`: 0 is Sunday, 1 Monday, ..., 6 Saturday. */
  function DayOfWeek(d: Date): (w: int)
    ensures 0 <= w <= 6
  {
    (DayNumber(d) + 1) % 7
  }

  /** The weekday of the first of month m of year y. */
  function MonthStartWeekday(y: int, m: int): (w: int)
    requires 1 <= m <= 12
    ensures 0 <= w <= 6
  {
    DayOfWeek(CalendarDate(y, m, 1))
  }

  /** The weekday of the last day of month m of year y. */
  function MonthEndWeekday(y: int, m: int): (w: int)
    requires 1 <= m <= 12
    ensures 0 <= w <= 6
  {
    DayOfWeek(CalendarDate(y, m, DaysInMonth(y, m)))
  }

  /** The year a two-argument-or-more `new Date(y, ...)` uses: years 0..99
      are taken as 1900..1999. */
  function FullYear(y: int): int {
    if 0 <= y <= 99 then 1900 + y else y
  }

  /** ECMAScript's MakeDay: month index 0..11 (others roll into adjacent
      years) and a day of month that rolls into adjacent months. This is
      `setDate`, and `new Date(y, mi, day)` after FullYear. */
  function MakeDay(y: int, monthIndex: int, day: int): Date {
    var first := CalendarDate(y + monthIndex / 12, monthIndex % 12 + 1, 1);
    FromDayNumber(DayNumber(first) + day - 1)
  }

  /** For a month index 0..11, MakeDay counts from the first of that month. */
  lemma MakeDayInYear(y: int, monthIndex: int, day: int)
    requires 0 <= monthIndex <= 11
    ensures IsValid(CalendarDate(y, monthIndex + 1, 1))
    ensures MakeDay(y, monthIndex, day) == FromDayNumber(DayNumber(CalendarDate(y, monthIndex + 1, 1)) + day - 1)
  {
    MonthIndexInYear(monthIndex);
  }

  lemma MonthIndexInYear(monthIndex: int)
    requires 0 <= monthIndex <= 11
    ensures monthIndex / 12 == 0 && monthIndex % 12 == monthIndex
  {
  }

  /** Rolling forward from the first of a month never goes back a year. */
  lemma MakeDayNotEarlier(y: int, monthIndex: int, day: int)
    requires 0 <= monthIndex <= 11 && day >= 1
    ensures MakeDay(y, monthIndex, day).year >= y
  {
    MakeDayInYear(y, monthIndex, day);
    var first: Date := CalendarDate(y, monthIndex + 1, 1);
    DayNumberOrdersYears(first, MakeDay(y, monthIndex, day));
  }

  /** `new Date(y, monthIndex, day)` in local time. */
  function NewDate(y: int, monthIndex: int, day: int): Date {
    MakeDay(FullYear(y), monthIndex, day)
  }

  /** A date in range is left as it is. */
  lemma MakeDayOfDate(d: Date)
    ensures MakeDay(d.year, d.month - 1, d.day) == d
  {
    MakeDayInYear(d.year, d.month - 1, d.day);
    DayNumberFromFirst(d);
    FromDayNumberOfDate(d);
  }

  /** Day `day` of a month is `day - 1` days after its first. */
  lemma DayNumberFromFirst(d: Date)
    ensures DayNumber(CalendarDate(d.year, d.month, 1)) + d.day - 1 == DayNumber(d)
  {
  }

  /** Day 0 of the month after month m (`new Date(y, m, 0)` with m the
      month index of the next month) is the last day of month m. */
  lemma LastOfMonth(y: int, m: int)
    requires 1 <= m <= 12
    ensures MakeDay(y, m, 0) == CalendarDate(y, m, DaysInMonth(y, m))
  {
    var last: Date := CalendarDate(y, m, DaysInMonth(y, m));
    if m == 12 {
      FirstOfNextYear(y);
    } else {
      FirstOfNextMonth(y, m);
    }
    DayNumberInjective(MakeDay(y, m, 0), last);
  }

  lemma FirstOfNextMonth(y: int, m: int)
    requires 1 <= m < 12
    ensures DayNumber(CalendarDate(y + m / 12, m % 12 + 1, 1)) == DayNumber(CalendarDate(y, m, DaysInMonth(y, m))) + 1
  {
    assert m / 12 == 0 && m % 12 == m;
    MonthStep(y, m);
  }

  lemma FirstOfNextYear(y: int)
    ensures DayNumber(CalendarDate(y + 12 / 12, 12 % 12 + 1, 1)) == DayNumber(CalendarDate(y, 12, DaysInMonth(y, 12))) + 1
  {
    MonthStep(y, 12);
    YearStep(y);
  }

  /** Day `day` of month index 0..11 is that very date when it exists. */
  lemma MakeDayInMonth(y: int, monthIndex: int, day: int)
    requires 0 <= monthIndex <= 11
    requires 1 <= day <= DaysInMonth(y, monthIndex + 1)
    ensures MakeDay(y, monthIndex, day) == CalendarDate(y, monthIndex + 1, day)
  {
    MakeDayOfDate(CalendarDate(y, monthIndex + 1, day));
  }

  /** `Math.ceil(x / 7)` for an integer x. */
  function CeilDiv7(x: int): int {
    -((-x) / 7)
  }

  lemma CeilDiv7Succ(k: int)
    requires k >= 0
    ensures CeilDiv7(k + 1) == k / 7 + 1
  {
    var q, r := k / 7, k % 7;
    assert -(k + 1) == 7 * (-q - 1) + (6 - r);
  }

  /** `getUTCDay() || 7`: Monday 1, ..., Sunday 7. */
  function IsoWeekday(n: int): (w: int)
    ensures 1 <= w <= 7
  {
    var utcDay := (n + 1) % 7;
    if utcDay == 0 then 7 else utcDay
  }

  /** Weeks counted from 1 January of the year holding day number t:
      `Math.ceil(((t - yearStart) / 86400000 + 1) / 7)`. */
  function WeekOfYear(t: int): (w: int)
    ensures 1 <= w <= 53
  {
    var y := YearOf(t);
    YearStep(y);
    CeilDiv7Succ(t - DaysBeforeYear(y));
    CeilDiv7((t - DaysBeforeYear(y)) + 1)
  }

  /** `getWeekNumber`: move to the Thursday of the Monday-to-Sunday week
      (`d + 4 - (getUTCDay() || 7)`), then count weeks from 1 January of that
      Thursday's year. */
  function WeekNumber(d: Date): (w: int)
    ensures 1 <= w <= 53
  {
    var n := DayNumber(d);
    WeekOfYear(n + 4 - IsoWeekday(n))
  }

  /** The Thursday of the Monday-to-Sunday week that holds day number n
      (day 0 is a Monday). */
  function ThursdayOf(n: int): int {
    n - n % 7 + 3
  }

  lemma IsoWeekdayMovesToThursday(n: int)
    ensures n + 4 - IsoWeekday(n) == ThursdayOf(n)
  {
  }

  /** The first Thursday on or after 1 January of year y. */
  function FirstThursday(y: int): (t: int)
    ensures DaysBeforeYear(y) <= t < DaysBeforeYear(y) + 7 && t % 7 == 3
  {
    DaysBeforeYear(y) + (3 - DaysBeforeYear(y)) % 7
  }

  lemma WeekOfThursday(t: int)
    requires t % 7 == 3
    ensures WeekOfYear(t) == 1 + (t - FirstThursday(YearOf(t))) / 7
  {
    var y := YearOf(t);
    CeilDiv7Succ(t - DaysBeforeYear(y));
    SameWeekCount(t, FirstThursday(y), DaysBeforeYear(y));
  }

  /** Two days with the same weekday, the second within a week of `base`,
      are as many whole weeks apart as the first is whole weeks from `base`. */
  lemma SameWeekCount(t: int, first: int, base: int)
    requires t % 7 == first % 7 && base <= first < base + 7 && base <= t
    ensures (t - first) / 7 == (t - base) / 7
  {
    var k, f := t - base, first - base;
    assert (k - f) % 7 == 0;
    assert k % 7 == f;
  }

  lemma WeekOfDayNumberIsIsoWeek(n: int)
    ensures WeekOfYear(n + 4 - IsoWeekday(n)) == 1 + (ThursdayOf(n) - FirstThursday(YearOf(ThursdayOf(n)))) / 7
  {
    IsoWeekdayMovesToThursday(n);
    WeekOfThursday(ThursdayOf(n));
  }

  /** ISO 8601 week numbering: week w of year Y is the week whose Thursday
      is the w-th Thursday of Y, so week 1 holds the first Thursday. */
  lemma WeekNumberIsIsoWeek(d: Date)
    ensures var t := ThursdayOf(DayNumber(d));
            WeekNumber(d) == 1 + (t - FirstThursday(YearOf(t))) / 7
  {
    WeekOfDayNumberIsIsoWeek(DayNumber(d));
  }

  /** All seven days Monday to Sunday of one week share their week number. */
  lemma WeekNumberConstantInWeek(a: Date, b: Date)
    requires DayNumber(a) / 7 == DayNumber(b) / 7
    ensures WeekNumber(a) == WeekNumber(b)
  {
    IsoWeekdayMovesToThursday(DayNumber(a));
    IsoWeekdayMovesToThursday(DayNumber(b));
  }

  /** 4 January always lies in week 1. */
  lemma FourthOfJanuaryIsWeekOne(y: int)
    ensures WeekNumber(CalendarDate(y, 1, 4)) == 1
  {
    var d: Date := CalendarDate(y, 1, 4);
    var n := DayNumber(d);
    var t := ThursdayOf(n);
    YearStep(y);
    YearOfUnique(t, y);
    IsoWeekdayMovesToThursday(n);
    CeilDiv7Succ(t - DaysBeforeYear(y));
  }

  lemma FirstThursdayWeek(y: int)
    ensures WeekOfYear(FirstThursday(y) + 4 - IsoWeekday(FirstThursday(y))) == 1
  {
    var t := FirstThursday(y);
    YearStep(y);
    YearOfUnique(t, y);
    IsoWeekdayMovesToThursday(t);
    CeilDiv7Succ(t - DaysBeforeYear(y));
  }

  /** The first Thursday of year y falls on 1..7 January of y and lies in
      week 1. */
  lemma FirstThursdayInWeekOne(y: int, d: Date)
    requires DayNumber(d) == FirstThursday(y)
    ensures d.year == y && d.month == 1 && d.day <= 7
    ensures DayOfWeek(d) == 4 && WeekNumber(d) == 1
  {
    FirstThursdayDate(y, d);
    FirstThursdayWeekday(y, d);
  }

  lemma FirstThursdayWeekday(y: int, d: Date)
    requires DayNumber(d) == FirstThursday(y)
    ensures DayOfWeek(d) == 4 && WeekNumber(d) == 1
  {
    ThursdayIsDayFour(FirstThursday(y));
    FirstThursdayWeekNumber(y, d);
  }

  lemma FirstThursdayWeekNumber(y: int, d: Date)
    requires DayNumber(d) == FirstThursday(y)
    ensures WeekNumber(d) == 1
  {
    var t := FirstThursday(y);
    FirstThursdayWeek(y);
    assert WeekNumber(d) == WeekOfYear(t + 4 - IsoWeekday(t));
  }

  lemma FirstThursdayDate(y: int, d: Date)
    requires DayNumber(d) == FirstThursday(y)
    ensures d == CalendarDate(y, 1, FirstThursday(y) - DaysBeforeYear(y) + 1)
  {
    var t := FirstThursday(y);
    var j: Date := CalendarDate(y, 1, t - DaysBeforeYear(y) + 1);
    assert DayNumber(j) == t;
    DayNumberInjective(d, j);
  }

  lemma ThursdayIsDayFour(t: int)
    requires t % 7 == 3
    ensures (t + 1) % 7 == 4
  {
  }

  /** Two Thursdays of different weeks at most 36 days apart have different
      ISO week numbers: in one ISO year they are whole weeks apart, and
      across a year boundary the earlier lies in week 47 or later while the
      later lies in week 6 or earlier. */
  lemma ThursdaysApart(ta: int, tc: int)
    requires ta % 7 == 3 && tc % 7 == 3
    requires ta < tc <= ta + 36
    ensures WeekOfYear(ta) != WeekOfYear(tc)
  {
    WeekOfThursday(ta);
    WeekOfThursday(tc);
    ThursdayWeeksDiffer(ta, tc);
  }

  lemma ThursdayWeeksDiffer(ta: int, tc: int)
    requires ta % 7 == 3 && tc % 7 == 3
    requires ta < tc <= ta + 36
    ensures (ta - FirstThursday(YearOf(ta))) / 7 != (tc - FirstThursday(YearOf(tc))) / 7
  {
    NearYears(ta, tc);
    if YearOf(ta) == YearOf(tc) {
      WholeWeeksApart(ta, tc, FirstThursday(YearOf(ta)));
    } else {
      AcrossNewYear(ta, tc);
    }
  }

  /** Days at most 36 apart lie in the same year or in consecutive years. */
  lemma NearYears(ta: int, tc: int)
    requires ta < tc <= ta + 36
    ensures YearOf(ta) <= YearOf(tc) <= YearOf(ta) + 1
  {
    var ya, yc := YearOf(ta), YearOf(tc);
    YearStep(ya);
    if yc < ya {
      DaysBeforeYearMonotone(yc + 1, ya);
    } else if yc > ya + 1 {
      YearStep(ya + 1);
      DaysBeforeYearMonotone(ya + 2, yc);
    }
  }

  /** Two Thursdays a week or more apart are different whole weeks after
      an earlier Thursday f. */
  lemma WholeWeeksApart(ta: int, tc: int, f: int)
    requires ta % 7 == 3 && tc % 7 == 3 && f % 7 == 3
    requires ta < tc
    ensures (ta - f) / 7 != (tc - f) / 7
  {
    assert (ta - f) % 7 == 0 && (tc - f) % 7 == 0;
    assert (tc - f) / 7 - (ta - f) / 7 == (tc - ta) / 7;
  }

  /** Across a new year, the earlier Thursday is at least 46 weeks after
      its year's first and the later one at most 5 weeks after its own. */
  lemma AcrossNewYear(ta: int, tc: int)
    requires ta < tc <= ta + 36 && YearOf(tc) == YearOf(ta) + 1
    ensures (ta - FirstThursday(YearOf(ta))) / 7 >= 46
    ensures (tc - FirstThursday(YearOf(tc))) / 7 <= 5
  {
    YearStep(YearOf(ta));
  }

  /** Days of different weeks at most 30 days apart have different week
      numbers. */
  lemma NearDaysWeeks(na: int, nc: int)
    requires na / 7 < nc / 7 && nc <= na + 30
    ensures WeekOfYear(na + 4 - IsoWeekday(na)) != WeekOfYear(nc + 4 - IsoWeekday(nc))
  {
    ThursdayBounds(na);
    ThursdayBounds(nc);
    IsoWeekdayMovesToThursday(na);
    IsoWeekdayMovesToThursday(nc);
    ThursdaysApart(ThursdayOf(na), ThursdayOf(nc));
  }

  lemma ThursdayBounds(n: int)
    ensures ThursdayOf(n) % 7 == 3 && ThursdayOf(n) / 7 == n / 7 && n - 3 <= ThursdayOf(n) <= n + 3
  {
  }

  /** Two days of one month with the same week number lie in the same
      Monday-to-Sunday week. */
  lemma SameMonthSameWeek(a: Date, c: Date)
    requires a.year == c.year && a.month == c.month
    requires WeekNumber(a) == WeekNumber(c)
    ensures DayNumber(a) / 7 == DayNumber(c) / 7
  {
    var na, nc := DayNumber(a), DayNumber(c);
    assert nc - na == c.day - a.day;
    if na / 7 < nc / 7 {
      NearDaysWeeks(na, nc);
    } else if nc / 7 < na / 7 {
      NearDaysWeeks(nc, na);
    }
  }

  /** Within one month, the days of one week number are consecutive: a day
      between two days of week w is in week w too. */
  lemma WeekRunsInMonth(a: Date, b: Date, c: Date)
    requires a.year == b.year == c.year && a.month == b.month == c.month
    requires DayNumber(a) <= DayNumber(b) <= DayNumber(c)
    requires WeekNumber(a) == WeekNumber(c)
    ensures WeekNumber(b) == WeekNumber(a)
  {
    SameMonthSameWeek(a, c);
    WeekNumberConstantInWeek(a, b);
  }

  /** The ascending days of one month have contiguous week numbers: no
      week number comes back after another. */
  lemma MonthWeeksRun(days: seq<Date>)
    requires forall i, j :: 0 <= i < j < |days| ==> days[i].year == days[j].year && days[i].month == days[j].month
    requires forall i, j :: 0 <= i < j < |days| ==> DayNumber(days[i]) < DayNumber(days[j])
    ensures forall i, l, j :: 0 <= i < l < j < |days| && WeekNumber(days[i]) == WeekNumber(days[j]) ==>
      WeekNumber(days[l]) == WeekNumber(days[i])
  {
    forall i, l, j | 0 <= i < l < j < |days| && WeekNumber(days[i]) == WeekNumber(days[j])
      ensures WeekNumber(days[l]) == WeekNumber(days[i])
    {
      WeekRunsInMonth(days[i], days[l], days[j]);
    }
  }
}
