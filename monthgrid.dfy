/** `renderCalendarView`: the month grid under the Sun..Sat header, blank
    `other-month` cells up to the weekday of the first, one cell per day of
    the month with its `today`, `selected` and `has-shift` classes, and
    blank cells to the end of the last row. The HTML text and the click
    handlers are left out. */
module MonthGrid {
  import opened Calendar
  import opened Records

  /** A cell of the grid. */
  datatype Cell = OtherMonth | DayCell(day: int, date: Date, today: bool, selected: bool, hasShift: bool)

  /** `shiftDates`: the dates of the shifts in month m of year y, whatever
      their source. The text `s.date` is the formatted date of a record, so
      `shiftDates.has(dateStr)` is membership of the date. */
  function ShiftDates(shifts: seq<Shift>, y: int, m: int): set<Date> {
    set x | x in shifts && x.date.year == y && x.date.month == m :: x.date
  }

  function Blanks(n: nat): seq<Cell> {
    if n == 0 then [] else Blanks(n - 1) + [OtherMonth]
  }

  /** The cell of day `day`, dated `date`; `isSameDay` compares year,
      month and day, which is equality of dates. */
  function DayCellFor(day: int, date: Date, today: Date, selected: Date, dates: set<Date>): Cell {
    DayCell(day, date, date == today, date == selected, date in dates)
  }

  /** `new Date(year, month, day)` for the days of the shown month. */
  function MonthDay(y: int, monthIndex: int): int -> Date {
    day => NewDate(y, monthIndex, day)
  }

  /** The cells of days 1..n. */
  function DayCells(dateOf: int -> Date, n: nat, today: Date, selected: Date, dates: set<Date>): seq<Cell> {
    if n == 0 then [] else DayCells(dateOf, n - 1, today, selected, dates) + [DayCellFor(n, dateOf(n), today, selected, dates)]
  }

  /** The number of days of the month (`new Date(year, month + 1, 0).getDate()`). */
  function TotalDays(y: int, monthIndex: int): nat {
    NewDate(y, monthIndex + 1, 0).day
  }

  /** Blanks, the day cells, blanks. */
  function GridOf(first: nat, totalDays: nat, remaining: nat, dateOf: int -> Date,
                  today: Date, selected: Date, dates: set<Date>): seq<Cell> {
    Blanks(first) + DayCells(dateOf, totalDays, today, selected, dates) + Blanks(remaining)
  }

  /** `start.getDay()`: the weekday of the first of the month. */
  function FirstWeekday(y: int, monthIndex: int): nat {
    DayOfWeek(NewDate(y, monthIndex, 1))
  }

  /** `6 - lastDay.getDay()`: the blanks after the last day. */
  function Remaining(y: int, monthIndex: int): nat {
    6 - DayOfWeek(NewDate(y, monthIndex, TotalDays(y, monthIndex)))
  }

  /** The grid of the month with index `monthIndex` of year y, against
      the shift dates `dates`, as the three loops write it. */
  function Grid(y: int, monthIndex: int, today: Date, selected: Date, dates: set<Date>): seq<Cell> {
    GridOf(FirstWeekday(y, monthIndex), TotalDays(y, monthIndex), Remaining(y, monthIndex), MonthDay(y, monthIndex),
           today, selected, dates)
  }

  method RenderCalendarView(selected: Date, today: Date, shifts: seq<Shift>) returns (cells: seq<Cell>)
    ensures cells == Grid(selected.year, selected.month - 1, today, selected, ShiftDates(shifts, selected.year, selected.month))
  {
    var year, month := selected.year, selected.month - 1;
    var shiftDates := ShiftDates(shifts, year, month + 1);
    var totalDays := TotalDays(year, month);
    var firstWeekday := FirstWeekday(year, month);
    var remaining := Remaining(year, month);
    cells := FillGrid(firstWeekday, totalDays, remaining, MonthDay(year, month), today, selected, shiftDates);
  }

  /** The three loops: `firstWeekday` blank cells, the cells of days
      1..`totalDays`, and `remaining` blank cells. */
  method FillGrid(firstWeekday: nat, totalDays: nat, remaining: nat, dateOf: int -> Date,
                  today: Date, selected: Date, shiftDates: set<Date>) returns (cells: seq<Cell>)
    ensures cells == GridOf(firstWeekday, totalDays, remaining, dateOf, today, selected, shiftDates)
  {
    cells := [];
    for i := 0 to firstWeekday
      invariant cells == Blanks(i)
    {
      cells := cells + [OtherMonth];
    }
    for day := 0 to totalDays
      invariant cells == Blanks(firstWeekday) + DayCells(dateOf, day, today, selected, shiftDates)
    {
      cells := cells + [DayCellFor(day + 1, dateOf(day + 1), today, selected, shiftDates)];
    }
    var prefix := cells;
    for i := 0 to remaining
      invariant cells == prefix + Blanks(i)
    {
      cells := cells + [OtherMonth];
    }
  }

  lemma {:induction false} BlanksSpec(n: nat)
    ensures |Blanks(n)| == n && forall i :: 0 <= i < n ==> Blanks(n)[i] == OtherMonth
  {
    if n > 0 {
      BlanksSpec(n - 1);
    }
  }

  lemma {:induction false} DayCellsSpec(dateOf: int -> Date, n: nat, today: Date, selected: Date, dates: set<Date>)
    ensures var r := DayCells(dateOf, n, today, selected, dates);
      |r| == n && forall k :: 0 <= k < n ==> r[k] == DayCellFor(k + 1, dateOf(k + 1), today, selected, dates)
  {
    if n > 0 {
      DayCellsSpec(dateOf, n - 1, today, selected, dates);
    }
  }

  /** Blanks, then the days in order, then blanks. */
  lemma Layout(a: nat, n: nat, b: nat, dateOf: int -> Date, today: Date, selected: Date, dates: set<Date>)
    ensures var g := GridOf(a, n, b, dateOf, today, selected, dates);
      && |g| == a + n + b
      && (forall i :: 0 <= i < |g| ==> (g[i].DayCell? <==> a <= i < a + n))
      && (forall i :: a <= i < a + n ==> g[i] == DayCellFor(i - a + 1, dateOf(i - a + 1), today, selected, dates))
  {
    BlanksSpec(a);
    BlanksSpec(b);
    DayCellsSpec(dateOf, n, today, selected, dates);
  }

  /** `dateOf` dates day k of month m of year y as the k-th of that month. */
  predicate DatesOfMonth(dateOf: int -> Date, y: int, m: int)
    requires 1 <= m <= 12
  {
    forall k :: 1 <= k <= DaysInMonth(y, m) ==> dateOf(k) == CalendarDate(y, m, k)
  }

  /** Outside years 0..99 (which `new Date` reads as 1900..1999) the month
      has `DaysInMonth` days, day k is dated the k-th of the month, and the
      blanks are the weekday of the first and six less the weekday of the
      last. */
  lemma MonthDays(y: int, m: int)
    requires 1 <= m <= 12 && FullYear(y) == y
    ensures TotalDays(y, m - 1) == DaysInMonth(y, m)
    ensures DatesOfMonth(MonthDay(y, m - 1), y, m)
    ensures FirstWeekday(y, m - 1) == MonthStartWeekday(y, m)
    ensures Remaining(y, m - 1) == 6 - MonthEndWeekday(y, m)
  {
    LastOfMonth(y, m);
    forall k | 1 <= k <= DaysInMonth(y, m) ensures MonthDay(y, m - 1)(k) == CalendarDate(y, m, k) {
      MakeDayInMonth(y, m - 1, k);
    }
    MakeDayInMonth(y, m - 1, 1);
    MakeDayInMonth(y, m - 1, DaysInMonth(y, m));
  }

  /** A date is in `shiftDates` exactly when it is in the month and some
      shift falls on it. */
  lemma ShiftDatesMembers(shifts: seq<Shift>, y: int, m: int)
    ensures forall d: Date :: d in ShiftDates(shifts, y, m) <==> d.year == y && d.month == m && exists x :: x in shifts && x.date == d
  {
  }

  /** `g` is laid out for month m of year y: `first` blanks, then one
      cell per day of the month, dated that day and marked today, selected
      or with a shift exactly when it is, then `last` blanks. */
  predicate Shaped(g: seq<Cell>, y: int, m: int, first: int, last: int,
                   today: Date, selected: Date, shifts: seq<Shift>)
    requires 1 <= m <= 12
  {
    && |g| == first + DaysInMonth(y, m) + last
    && (forall i :: 0 <= i < |g| ==> (g[i].DayCell? <==> first <= i < first + DaysInMonth(y, m)))
    && (forall i :: 0 <= i < |g| && g[i].DayCell? ==>
          && g[i].date == CalendarDate(y, m, i - first + 1) && g[i].day == i - first + 1
          && (g[i].today <==> g[i].date == today) && (g[i].selected <==> g[i].date == selected)
          && (g[i].hasShift <==> exists x :: x in shifts && x.date == g[i].date))
  }

  /** `g` is laid out for month m of year y from the weekday of its first
      to the weekday of its last, Sunday first. */
  predicate MonthShaped(g: seq<Cell>, y: int, m: int, today: Date, selected: Date, shifts: seq<Shift>)
    requires 1 <= m <= 12
  {
    Shaped(g, y, m, MonthStartWeekday(y, m), 6 - MonthEndWeekday(y, m), today, selected, shifts)
  }

  /** A grid laid out with the days of month m of year y, dated by
      `dateOf`, against the shift dates of that month. */
  lemma MonthLayout(y: int, m: int, first: nat, n: nat, last: nat, dateOf: int -> Date,
                    today: Date, selected: Date, shifts: seq<Shift>, dates: set<Date>)
    requires 1 <= m <= 12 && n == DaysInMonth(y, m)
    requires DatesOfMonth(dateOf, y, m)
    requires forall d: Date :: d in dates <==> d.year == y && d.month == m && exists x :: x in shifts && x.date == d
    ensures Shaped(GridOf(first, n, last, dateOf, today, selected, dates), y, m, first, last, today, selected, shifts)
  {
    Layout(first, n, last, dateOf, today, selected, dates);
  }

  /** Outside years 0..99 (which `new Date` reads as 1900..1999) the grid
      `g` of month m of year y has blanks for the weekday of the first,
      then the days 1 to the month's length in order, a day marked today,
      selected or with a shift exactly when it is, then blanks to the end
      of the row of the last. */
  lemma MonthShape(y: int, m: int, today: Date, selected: Date, shifts: seq<Shift>, g: seq<Cell>)
    requires 1 <= m <= 12 && FullYear(y) == y
    requires g == Grid(y, m - 1, today, selected, ShiftDates(shifts, y, m))
    ensures MonthShaped(g, y, m, today, selected, shifts)
  {
    MonthDays(y, m);
    ShiftDatesMembers(shifts, y, m);
    MonthLayout(y, m, FirstWeekday(y, m - 1), TotalDays(y, m - 1), Remaining(y, m - 1), MonthDay(y, m - 1),
                today, selected, shifts, ShiftDates(shifts, y, m));
  }

  /** A month laid out from the weekday of its first to the weekday of its
      last fills whole rows of seven, four to six of them, and every day
      sits in the column of its weekday, Sunday first. */
  lemma ShapedRows(g: seq<Cell>, y: int, m: int, today: Date, selected: Date, shifts: seq<Shift>)
    requires 1 <= m <= 12
    requires MonthShaped(g, y, m, today, selected, shifts)
    ensures |g| % 7 == 0 && 28 <= |g| <= 42
    ensures forall i :: 0 <= i < |g| && g[i].DayCell? ==> DayOfWeek(g[i].date) == i % 7
  {
    WeekdaysInMonth(y, m);
    RowsFill(MonthStartWeekday(y, m), DaysInMonth(y, m));
  }

  /** The grid of the selected month fills whole rows of seven, four to
      six of them, with every day in the column of its weekday. */
  lemma GridRows(selected: Date, today: Date, shifts: seq<Shift>, g: seq<Cell>)
    requires FullYear(selected.year) == selected.year
    requires g == Grid(selected.year, selected.month - 1, today, selected, ShiftDates(shifts, selected.year, selected.month))
    ensures |g| % 7 == 0 && 28 <= |g| <= 42
    ensures forall i :: 0 <= i < |g| && g[i].DayCell? ==> DayOfWeek(g[i].date) == i % 7
  {
    MonthShape(selected.year, selected.month, today, selected, shifts, g);
    ShapedRows(g, selected.year, selected.month, today, selected, shifts);
  }

  /** Blanks for the weekday of the first, n days and blanks to the end of
      the last row fill whole rows. */
  lemma RowsFill(first: int, n: int)
    requires 0 <= first <= 6 && 28 <= n <= 31
    ensures var size := first + n + (6 - (first + n - 1) % 7);
      size % 7 == 0 && 28 <= size <= 42
  {
  }

  /** Day k of a month falls k - 1 weekdays after the first; so the last
      day's weekday is that of the first moved by the month's length. */
  lemma WeekdaysInMonth(y: int, m: int)
    requires 1 <= m <= 12
    ensures forall k :: 1 <= k <= DaysInMonth(y, m) ==>
      DayOfWeek(CalendarDate(y, m, k)) == (MonthStartWeekday(y, m) + k - 1) % 7
    ensures MonthEndWeekday(y, m) == (MonthStartWeekday(y, m) + DaysInMonth(y, m) - 1) % 7
  {
    forall k | 1 <= k <= DaysInMonth(y, m)
      ensures DayOfWeek(CalendarDate(y, m, k)) == (MonthStartWeekday(y, m) + k - 1) % 7
    {
      WeekdayInMonth(y, m, k);
    }
    WeekdayInMonth(y, m, DaysInMonth(y, m));
  }

  lemma WeekdayInMonth(y: int, m: int, k: int)
    requires 1 <= m <= 12 && 1 <= k <= DaysInMonth(y, m)
    ensures DayOfWeek(CalendarDate(y, m, k)) == (MonthStartWeekday(y, m) + k - 1) % 7
  {
    var d: Date := CalendarDate(y, m, k);
    DayNumberFromFirst(d);
    WeekdayShift(DayNumber(CalendarDate(y, m, 1)) + 1, k - 1);
  }

  lemma WeekdayShift(n: int, j: nat)
    ensures (n + j) % 7 == (n % 7 + j) % 7
  {
    assert n + j == 7 * (n / 7) + (n % 7 + j);
  }
}
