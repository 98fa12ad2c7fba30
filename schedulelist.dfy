/** `renderScheduleList`: the shifts of the selected month that pass the
    source filter, grouped by day (`shiftsByDay`), the days in ascending
    order, one card per day with its paid time, take-home pay and sources,
    and a week summary each time the week number changes and after the last
    day. The HTML text of the cards is left out; each card is modelled by
    the values it shows. */
module ScheduleList {
  import opened Wrappers
  import opened Calendar
  import opened Records
  import opened Sums
  import opened Totals

  /** `appState.currentFilter`: `'all'` or one source. */
  datatype Filter = AllSources | OnlySource(source: Source)

  /** The shift lies in the month of `selected` and passes the filter. */
  predicate Listed(x: Shift, selected: Date, filter: Filter) {
    x.date.year == selected.year && x.date.month == selected.month
    && (filter.AllSources? || x.source == filter.source)
  }

  /** `shiftsInMonth`: the listed shifts, in their order. */
  function MonthShifts(shifts: seq<Shift>, selected: Date, filter: Filter): seq<Shift> {
    if shifts == [] then []
    else
      var x := shifts[|shifts| - 1];
      MonthShifts(shifts[..|shifts| - 1], selected, filter) + (if Listed(x, selected, filter) then [x] else [])
  }

  /** The month's shifts are exactly the listed ones. */
  lemma {:induction false} MonthShiftsMembers(shifts: seq<Shift>, selected: Date, filter: Filter)
    ensures forall x :: x in MonthShifts(shifts, selected, filter) <==> x in shifts && Listed(x, selected, filter)
  {
    if shifts != [] {
      var n := |shifts| - 1;
      MonthShiftsMembers(shifts[..n], selected, filter);
      assert shifts == shifts[..n] + [shifts[n]];
    }
  }

  /** Whether one of the shifts falls on d. */
  predicate HasShiftOn(month: seq<Shift>, d: Date) {
    exists x :: x in month && x.date == d
  }

  /** The dates from day `day` of the month of `selected` on that hold a
      shift, ascending. */
  function DaysFrom(month: seq<Shift>, selected: Date, day: int): seq<Date>
    requires day >= 1
    decreases DaysInMonth(selected.year, selected.month) + 1 - day
  {
    if day > DaysInMonth(selected.year, selected.month) then []
    else
      var d: Date := CalendarDate(selected.year, selected.month, day);
      (if HasShiftOn(month, d) then [d] else []) + DaysFrom(month, selected, day + 1)
  }

  /** `sortedDays`: the keys of `shiftsByDay`, sorted. For four-digit
      years the text order of `YYYY-MM-DD` is the order of the dates. */
  function SortedDays(month: seq<Shift>, selected: Date): seq<Date> {
    DaysFrom(month, selected, 1)
  }

  lemma DaysFromSpec(month: seq<Shift>, selected: Date, day: int)
    requires day >= 1
    ensures var r := DaysFrom(month, selected, day);
      && (forall d :: d in r ==> d.year == selected.year && d.month == selected.month && d.day >= day)
      && (forall i, j :: 0 <= i < j < |r| ==> r[i].day < r[j].day)
      && (forall d: Date :: d.year == selected.year && d.month == selected.month && d.day >= day ==>
            (d in r <==> HasShiftOn(month, d)))
  {
    DaysFromInMonth(month, selected, day);
    DaysFromAscending(month, selected, day);
    DaysFromMembers(month, selected, day);
  }

  /** The days listed from `day` on are days of the month from `day` on. */
  lemma {:induction false} DaysFromInMonth(month: seq<Shift>, selected: Date, day: int)
    requires day >= 1
    ensures forall d :: d in DaysFrom(month, selected, day) ==>
      d.year == selected.year && d.month == selected.month && d.day >= day
    decreases DaysInMonth(selected.year, selected.month) + 1 - day
  {
    if day <= DaysInMonth(selected.year, selected.month) {
      DaysFromInMonth(month, selected, day + 1);
    }
  }

  /** The days of `days` strictly ascend. */
  predicate DaysAscend(days: seq<Date>) {
    forall i, j :: 0 <= i < j < |days| ==> days[i].day < days[j].day
  }

  /** A day before every day of an ascending list keeps it ascending. */
  lemma AscendCons(d: Date, rest: seq<Date>)
    requires DaysAscend(rest)
    requires forall e :: e in rest ==> d.day < e.day
    ensures DaysAscend([d] + rest)
  {
    var r := [d] + rest;
    forall i, j | 0 <= i < j < |r| ensures r[i].day < r[j].day {
      assert r[j] == rest[j - 1];
      if i > 0 {
        assert r[i] == rest[i - 1];
      }
    }
  }

  /** The days listed from `day` on ascend. */
  lemma {:induction false} DaysFromAscending(month: seq<Shift>, selected: Date, day: int)
    requires day >= 1
    ensures DaysAscend(DaysFrom(month, selected, day))
    decreases DaysInMonth(selected.year, selected.month) + 1 - day
  {
    if day <= DaysInMonth(selected.year, selected.month) {
      var d: Date := CalendarDate(selected.year, selected.month, day);
      var rest := DaysFrom(month, selected, day + 1);
      DaysFromAscending(month, selected, day + 1);
      if HasShiftOn(month, d) {
        DaysFromInMonth(month, selected, day + 1);
        AscendCons(d, rest);
      }
    }
  }

  /** A day of the month from `day` on is listed exactly when it has a
      shift. */
  lemma {:induction false} DaysFromMembers(month: seq<Shift>, selected: Date, day: int)
    requires day >= 1
    ensures forall d: Date :: d.year == selected.year && d.month == selected.month && d.day >= day ==>
      (d in DaysFrom(month, selected, day) <==> HasShiftOn(month, d))
    decreases DaysInMonth(selected.year, selected.month) + 1 - day
  {
    var r := DaysFrom(month, selected, day);
    if day <= DaysInMonth(selected.year, selected.month) {
      var d: Date := CalendarDate(selected.year, selected.month, day);
      var pre := if HasShiftOn(month, d) then [d] else [];
      var rest := DaysFrom(month, selected, day + 1);
      assert r == pre + rest;
      DaysFromMembers(month, selected, day + 1);
      DaysFromInMonth(month, selected, day + 1);
      forall e: Date | e.year == selected.year && e.month == selected.month && e.day >= day
        ensures e in r <==> HasShiftOn(month, e)
      {
        if e.day == day {
          assert e == d;
          assert e !in rest;
        } else {
          assert e != d;
        }
      }
    }
  }


  /** The days hold exactly the dates with a shift of the selected month, in
      strictly ascending order. */
  lemma SortedDaysSpec(month: seq<Shift>, selected: Date)
    requires forall x :: x in month ==> x.date.year == selected.year && x.date.month == selected.month
    ensures var days := SortedDays(month, selected);
      && (forall i, j :: 0 <= i < j < |days| ==> DayNumber(days[i]) < DayNumber(days[j]))
      && Distinct(days)
      && (forall d :: d in days <==> HasShiftOn(month, d))
      && (forall d :: d in days ==> d.year == selected.year && d.month == selected.month)
  {
    var days := SortedDays(month, selected);
    DaysFromSpec(month, selected, 1);
    forall i, j | 0 <= i < j < |days| ensures DayNumber(days[i]) < DayNumber(days[j]) {
      assert days[i] in days && days[j] in days;
    }
    forall d ensures d in days <==> HasShiftOn(month, d) {
      if HasShiftOn(month, d) {
        var x :| x in month && x.date == d;
      }
    }
  }

  /** One card of the list. A day card shows one line per shift of the day
      (its job, the Overlap! badge, start - end and paid hours), then the
      day's paid time and take-home pay; its class comes from `sources`. */
  datatype ListItem =
    | DayCard(date: Date, shifts: seq<Shift>, paidMinutes: real, netPay: real, sources: seq<Source>)
    | WeekTotal(week: int, paidMinutes: real, netPay: real)

  /** `[...new Set(dayShifts.map(s => s.source))]`: the sources in the
      order they first appear. */
  function SourcesOf(shifts: seq<Shift>): seq<Source> {
    if shifts == [] then []
    else
      var rest := SourcesOf(shifts[..|shifts| - 1]);
      var src := shifts[|shifts| - 1].source;
      if src in rest then rest else rest + [src]
  }

  /** Each source of the day's shifts is listed once. */
  lemma {:induction false} SourcesOfSpec(shifts: seq<Shift>)
    ensures Distinct(SourcesOf(shifts))
    ensures forall src :: src in SourcesOf(shifts) <==> exists x :: x in shifts && x.source == src
  {
    if shifts != [] {
      var n := |shifts| - 1;
      SourcesOfSpec(shifts[..n]);
      assert shifts == shifts[..n] + [shifts[n]];
      forall x | x in shifts[..n] ensures x in shifts {
      }
    }
  }

  /** The card's class: `multi` for more than one source, otherwise the
      one source (`sources[0] || ''`, empty when there is none). */
  datatype CardClass = Multi | Single(source: Source) | Plain

  function CardClassOf(sources: seq<Source>): CardClass {
    if |sources| > 1 then Multi else if sources == [] then Plain else Single(sources[0])
  }

  /** A day is marked `multi` exactly when it has both a Walmart and a
      Cane's shift, and otherwise carries the source of its shifts. */
  lemma DayClass(shifts: seq<Shift>)
    requires shifts != []
    ensures CardClassOf(SourcesOf(shifts)) == Multi <==>
      (exists x :: x in shifts && x.source == Walmart) && (exists y :: y in shifts && y.source == Canes)
    ensures CardClassOf(SourcesOf(shifts)) != Multi ==>
      forall x :: x in shifts ==> CardClassOf(SourcesOf(shifts)) == Single(x.source)
  {
    var r := SourcesOf(shifts);
    SourcesOfSpec(shifts);
    assert shifts[0] in shifts;
    assert r != [];
    if |r| > 1 {
      assert r[0] != r[1];
      if r[0] == Walmart {
        assert Canes in r by { assert r[1] == Canes; }
      } else {
        assert Walmart in r by { assert r[1] == Walmart; }
      }
      assert Walmart in r && Canes in r;
    } else {
      assert |r| == 1;
      forall x | x in shifts ensures x.source == r[0] {
        assert x.source in r;
      }
    }
  }

  /** The shifts of day d, in order (`shiftsByDay[dateStr]`). */
  function DayShifts(month: seq<Shift>, d: Date): seq<Shift> {
    Keyed(month, DateOf, d)
  }

  /** The shifts of week w in the whole filtered month (`weekShifts`). */
  function WeekShifts(month: seq<Shift>, w: int): seq<Shift> {
    Keyed(month, WeekOf, w)
  }

  /** The card of day d: its lines are the month's shifts on d, each as
      often as the month holds it, and its sources are exactly the sources
      of those lines, each once. */
  function DayCardOf(month: seq<Shift>, d: Date): (card: ListItem)
    ensures card.DayCard? && card.date == d
    ensures forall x :: x in card.shifts <==> x in month && x.date == d
    ensures forall x :: multiset(card.shifts)[x] == if x.date == d then multiset(month)[x] else 0
    ensures Distinct(card.sources)
    ensures forall src :: src in card.sources <==> exists x :: x in card.shifts && x.source == src
  {
    var shifts := DayShifts(month, d);
    KeyedMembers(month, DateOf, d);
    forall x ensures multiset(shifts)[x] == if x.date == d then multiset(month)[x] else 0 {
      KeyedCount(month, DateOf, d, x);
    }
    SourcesOfSpec(shifts);
    DayCard(d, shifts, Sum(shifts, PaidOf), Sum(shifts, NetOf), SourcesOf(shifts))
  }

  /** The card's paid time and take-home pay are the sums over its lines,
      and so the month's sums with the shifts of other days counted as 0. */
  lemma DayCardTotals(month: seq<Shift>, d: Date)
    ensures var card := DayCardOf(month, d);
      && card.paidMinutes == Sum(card.shifts, PaidOf) && card.netPay == Sum(card.shifts, NetOf)
      && card.paidMinutes == Sum(month, Masked(PaidOf, DateOf, d))
      && card.netPay == Sum(month, Masked(NetOf, DateOf, d))
  {
    SumKeyed(month, DateOf, d, PaidOf);
    SumKeyed(month, DateOf, d, NetOf);
  }

  /** The card's lines keep the month's order: the lines for a month
      that is one list followed by another are the first list's lines,
      then the second's. */
  lemma DayCardLinesInOrder(a: seq<Shift>, b: seq<Shift>, d: Date)
    ensures DayCardOf(a + b, d).shifts == DayCardOf(a, d).shifts + DayCardOf(b, d).shifts
  {
    KeyedAppend(a, b, DateOf, d);
  }

  function WeekTotalOf(month: seq<Shift>, w: int): ListItem {
    var shifts := WeekShifts(month, w);
    WeekTotal(w, Sum(shifts, PaidOf), Sum(shifts, NetOf))
  }

  /** The summary owed for `current` when a week is open
      (`currentWeek !== -1`). */
  function Close(month: seq<Shift>, current: int): seq<ListItem> {
    if current == -1 then [] else [WeekTotalOf(month, current)]
  }

  /** The cards the loop appends for `days` when the week of the cards
      already written is `current` (-1 before the first), each day's week
      being `week` of it (`getWeekNumber`). */
  function ListFrom(month: seq<Shift>, days: seq<Date>, current: int, week: Date -> int): seq<ListItem> {
    if days == [] then Close(month, current)
    else
      var w := week(days[0]);
      (if w != current then Close(month, current) else []) + [DayCardOf(month, days[0])] + ListFrom(month, days[1..], w, week)
  }

  /** One step of the loop: the list from day i on closes the open week
      when day i starts another, writes day i's card and goes on from
      day i's week. */
  lemma ListStep(month: seq<Shift>, days: seq<Date>, i: int, current: int, week: Date -> int)
    requires 0 <= i < |days|
    ensures ListFrom(month, days[i..], current, week) ==
      (if week(days[i]) != current then Close(month, current) else []) + [DayCardOf(month, days[i])]
      + ListFrom(month, days[i + 1..], week(days[i]), week)
  {
    assert days[i..][1..] == days[i + 1..];
  }

  /** `renderScheduleList`: None for "No shifts for this filter", otherwise
      the cards in the order the loop appends them. */
  method RenderScheduleList(shifts: seq<Shift>, selected: Date, filter: Filter) returns (list: Option<seq<ListItem>>)
    ensures var month := MonthShifts(shifts, selected, filter);
      && (list.None? <==> month == [])
      && (list.Some? ==> list.value == ListFrom(month, SortedDays(month, selected), -1, WeekNumber))
  {
    var month := MonthShifts(shifts, selected, filter);
    if month == [] {
      return None;
    }
    var items := AppendCards(month, SortedDays(month, selected), WeekNumber);
    return Some(items);
  }

  /** The `sortedDays.forEach` loop: a week summary when the week changes
      (`weekNumber !== currentWeek`) and one was open, then the day's card;
      the open week's summary after the last day. */
  method AppendCards(month: seq<Shift>, days: seq<Date>, week: Date -> int) returns (items: seq<ListItem>)
    ensures items == ListFrom(month, days, -1, week)
  {
    items := [];
    var currentWeek := -1;
    for i := 0 to |days|
      invariant items + ListFrom(month, days[i..], currentWeek, week) == ListFrom(month, days, -1, week)
    {
      var d := days[i];
      ListStep(month, days, i, currentWeek, week);
      ghost var before, open := items, currentWeek;
      var weekNumber := week(d);
      if weekNumber != currentWeek {
        if currentWeek != -1 {
          items := items + [WeekTotalOf(month, currentWeek)];
        }
        currentWeek := weekNumber;
      }
      var card := DayCardOf(month, d);
      items := items + [card];
      assert items == before + (if week(d) != open then Close(month, open) else []) + [card];
      Regroup(before, if week(d) != open then Close(month, open) else [], [card],
              ListFrom(month, days[i + 1..], week(d), week));
    }
    if currentWeek != -1 {
      items := items + [WeekTotalOf(month, currentWeek)];
    }
    assert days[|days|..] == [];
  }

  lemma Regroup<T>(a: seq<T>, b: seq<T>, c: seq<T>, d: seq<T>)
    ensures a + b + c + d == a + (b + c + d)
  {
  }

  /** The day cards of a list, in order. */
  function Cards(items: seq<ListItem>): seq<ListItem> {
    if items == [] then []
    else (if items[0].DayCard? then [items[0]] else []) + Cards(items[1..])
  }

  /** The week summaries of a list, in order. */
  function Summaries(items: seq<ListItem>): seq<ListItem> {
    if items == [] then []
    else (if items[0].WeekTotal? then [items[0]] else []) + Summaries(items[1..])
  }

  lemma {:induction false} CardsAppend(a: seq<ListItem>, b: seq<ListItem>)
    ensures Cards(a + b) == Cards(a) + Cards(b)
    ensures Summaries(a + b) == Summaries(a) + Summaries(b)
  {
    if a != [] {
      assert (a + b)[1..] == a[1..] + b;
      CardsAppend(a[1..], b);
    } else {
      assert a + b == b;
    }
  }

  /** One card per day, in the order of the days. */
  function CardsFor(month: seq<Shift>, days: seq<Date>): seq<ListItem> {
    if days == [] then [] else [DayCardOf(month, days[0])] + CardsFor(month, days[1..])
  }

  /** The summaries of the weeks in the order the list closes them: a week
      is closed when the next day's week differs, and the open week at the
      end. */
  function WeekRuns(days: seq<Date>, current: int, week: Date -> int): seq<int> {
    if days == [] then (if current == -1 then [] else [current])
    else
      var w := week(days[0]);
      (if w != current && current != -1 then [current] else []) + WeekRuns(days[1..], w, week)
  }

  function SummariesFor(month: seq<Shift>, weeks: seq<int>): seq<ListItem> {
    if weeks == [] then [] else [WeekTotalOf(month, weeks[0])] + SummariesFor(month, weeks[1..])
  }

  /** The list holds one card per day in the order of the days, and a
      summary for each run of days of one week, in order. */
  lemma ListShape(month: seq<Shift>, days: seq<Date>, current: int, week: Date -> int)
    ensures Cards(ListFrom(month, days, current, week)) == CardsFor(month, days)
    ensures Summaries(ListFrom(month, days, current, week)) == SummariesFor(month, WeekRuns(days, current, week))
  {
    CardsShape(month, days, current, week);
    SummariesShape(month, days, current, week);
  }

  lemma {:induction false} CardsShape(month: seq<Shift>, days: seq<Date>, current: int, week: Date -> int)
    ensures Cards(ListFrom(month, days, current, week)) == CardsFor(month, days)
  {
    CloseItems(month, current);
    if days != [] {
      var w := week(days[0]);
      var close := if w != current then Close(month, current) else [];
      var card := [DayCardOf(month, days[0])];
      var rest := ListFrom(month, days[1..], w, week);
      assert ListFrom(month, days, current, week) == close + card + rest;
      CardsShape(month, days[1..], w, week);
      Singleton(DayCardOf(month, days[0]));
      CardsAppend(close + card, rest);
      CardsAppend(close, card);
    }
  }

  lemma {:induction false} SummariesShape(month: seq<Shift>, days: seq<Date>, current: int, week: Date -> int)
    ensures Summaries(ListFrom(month, days, current, week)) == SummariesFor(month, WeekRuns(days, current, week))
  {
    CloseItems(month, current);
    if days != [] {
      var w := week(days[0]);
      var close := if w != current then Close(month, current) else [];
      var card := [DayCardOf(month, days[0])];
      var rest := ListFrom(month, days[1..], w, week);
      assert ListFrom(month, days, current, week) == close + card + rest;
      SummariesShape(month, days[1..], w, week);
      Singleton(DayCardOf(month, days[0]));
      CardsAppend(close + card, rest);
      CardsAppend(close, card);
      var pre := if w != current && current != -1 then [current] else [];
      assert WeekRuns(days, current, week) == pre + WeekRuns(days[1..], w, week);
      PrefixSummaries(month, pre, WeekRuns(days[1..], w, week));
    }
  }

  /** The summary owed when a week closes is a summary and no card. */
  lemma CloseItems(month: seq<Shift>, current: int)
    ensures Cards(Close(month, current)) == []
    ensures Summaries(Close(month, current)) == Close(month, current)
    ensures Close(month, current) == SummariesFor(month, if current == -1 then [] else [current])
  {
    if current != -1 {
      Singleton(WeekTotalOf(month, current));
      assert [current][1..] == [];
    }
  }

  lemma Singleton(x: ListItem)
    ensures Cards([x]) == (if x.DayCard? then [x] else [])
    ensures Summaries([x]) == (if x.WeekTotal? then [x] else [])
  {
    assert [x][1..] == [];
  }

  lemma PrefixSummaries(month: seq<Shift>, pre: seq<int>, weeks: seq<int>)
    requires |pre| <= 1
    ensures SummariesFor(month, pre + weeks) == SummariesFor(month, pre) + SummariesFor(month, weeks)
  {
    if pre == [] {
      assert pre + weeks == weeks;
    } else {
      assert (pre + weeks)[1..] == weeks && pre[1..] == [];
    }
  }

  /** No week comes back after another, and the open week `current`, if
      any, only continues at the front. */
  predicate WeeksRun(days: seq<Date>, current: int, week: Date -> int) {
    && (forall i, l, j :: 0 <= i < l < j < |days| && week(days[i]) == week(days[j]) ==> week(days[l]) == week(days[i]))
    && (current != -1 ==> forall l, j :: 0 <= l < j < |days| && week(days[j]) == current ==> week(days[l]) == current)
  }

  /** After the first day the weeks still run, with the first day's week
      open. */
  lemma WeeksRunTail(days: seq<Date>, current: int, week: Date -> int)
    requires days != [] && WeeksRun(days, current, week)
    ensures WeeksRun(days[1..], week(days[0]), week)
  {
    var rest := days[1..];
    forall i, l, j | 0 <= i < l < j < |rest| && week(rest[i]) == week(rest[j]) ensures week(rest[l]) == week(rest[i]) {
      assert rest[i] == days[i + 1] && rest[l] == days[l + 1] && rest[j] == days[j + 1];
    }
    forall l, j | 0 <= l < j < |rest| && week(rest[j]) == week(days[0]) ensures week(rest[l]) == week(days[0]) {
      assert rest[l] == days[l + 1] && rest[j] == days[j + 1];
    }
  }

  /** A week closed by the first day does not come back. */
  lemma ClosedWeekGone(days: seq<Date>, current: int, week: Date -> int)
    requires days != [] && WeeksRun(days, current, week)
    requires current != -1 && week(days[0]) != current
    ensures forall d :: d in days[1..] ==> week(d) != current
  {
    forall d | d in days[1..] ensures week(d) != current {
      var j :| 0 <= j < |days[1..]| && days[1..][j] == d;
      assert days[j + 1] == d;
    }
  }

  /** The summaries are for exactly the weeks of the days, and the open
      week. */
  lemma {:induction false} WeekRunsMembers(days: seq<Date>, current: int, week: Date -> int)
    requires forall d :: d in days ==> week(d) != -1
    ensures forall w :: w in WeekRuns(days, current, week) <==> (w == current && current != -1) || exists d :: d in days && week(d) == w
  {
    if days != [] {
      var rest := days[1..];
      assert days[0] in days;
      forall d | d in rest ensures week(d) != -1 {
        assert d in days;
      }
      WeekRunsMembers(rest, week(days[0]), week);
      forall v ensures v in WeekRuns(days, current, week) <==> (v == current && current != -1) || exists d :: d in days && week(d) == v {
        if exists d :: d in rest && week(d) == v {
          var d :| d in rest && week(d) == v;
          assert d in days;
        }
        if exists d :: d in days && week(d) == v {
          var d :| d in days && week(d) == v;
          if d != days[0] {
            assert d in rest;
          }
        }
      }
    }
  }

  /** When the weeks of the days run contiguously, every week is closed
      once. */
  lemma {:induction false} WeekRunsDistinct(days: seq<Date>, current: int, week: Date -> int)
    requires forall d :: d in days ==> week(d) != -1
    requires WeeksRun(days, current, week)
    ensures Distinct(WeekRuns(days, current, week))
  {
    if days != [] {
      var w := week(days[0]);
      var rest := days[1..];
      WeeksRunTail(days, current, week);
      forall d | d in rest ensures week(d) != -1 {
        assert d in days;
      }
      WeekRunsDistinct(rest, w, week);
      if w != current && current != -1 {
        ClosedWeekGone(days, current, week);
        WeekRunsMembers(rest, w, week);
        DistinctCons(current, WeekRuns(rest, w, week));
      }
    }
  }

  /** Which total a sum is about: paid time or take-home pay. */
  datatype Measure = Paid | Net

  function MeasureOf(m: Measure): Shift -> real {
    if m == Paid then PaidOf else NetOf
  }

  function Shown(item: ListItem, m: Measure): real {
    if m == Paid then item.paidMinutes else item.netPay
  }

  /** The sum of a measure over the cards of a list. */
  function ShownTotal(items: seq<ListItem>, m: Measure): real {
    if items == [] then 0.0 else Shown(items[0], m) + ShownTotal(items[1..], m)
  }

  lemma {:induction false} DayCardsTotal(month: seq<Shift>, days: seq<Date>, m: Measure)
    ensures ShownTotal(CardsFor(month, days), m) == GroupSums(month, DateOf, days, MeasureOf(m))
  {
    if days != [] {
      DayCardsTotal(month, days[1..], m);
      GroupSumsFront(month, DateOf, days, MeasureOf(m));
    }
  }

  lemma {:induction false} SummariesTotal(month: seq<Shift>, weeks: seq<int>, m: Measure)
    ensures ShownTotal(SummariesFor(month, weeks), m) == GroupSums(month, WeekOf, weeks, MeasureOf(m))
  {
    if weeks != [] {
      SummariesTotal(month, weeks[1..], m);
      GroupSumsFront(month, WeekOf, weeks, MeasureOf(m));
    }
  }

  /** The day cards add up to the filtered month's totals. */
  lemma DayCardsPartition(month: seq<Shift>, days: seq<Date>, m: Measure)
    requires Distinct(days)
    requires forall x :: x in month ==> DateOf(x) in days
    ensures ShownTotal(CardsFor(month, days), m) == Sum(month, MeasureOf(m))
  {
    DayCardsTotal(month, days, m);
    PartitionSum(month, DateOf, days, MeasureOf(m));
  }

  /** The week summaries add up to the filtered month's totals when the
      days' weeks run contiguously. */
  lemma SummariesPartition(month: seq<Shift>, days: seq<Date>, m: Measure, week: Date -> int)
    requires forall d :: d in days ==> week(d) != -1
    requires WeeksRun(days, -1, week)
    requires forall x :: x in month ==> x.date in days
    requires forall x :: x in month ==> WeekOf(x) == week(x.date)
    ensures ShownTotal(SummariesFor(month, WeekRuns(days, -1, week)), m) == Sum(month, MeasureOf(m))
  {
    WeekRunsMembers(days, -1, week);
    WeekRunsDistinct(days, -1, week);
    var weeks := WeekRuns(days, -1, week);
    forall x | x in month ensures WeekOf(x) in weeks {
      assert x.date in days && week(x.date) == WeekOf(x);
    }
    SummariesTotal(month, weeks, m);
    PartitionSum(month, WeekOf, weeks, MeasureOf(m));
  }

  /** Day groups and week groups both partition the filtered month: the
      day cards add up to the month's paid time and take-home pay, and so
      do the week summaries. */
  lemma ListPartitionsMonth(shifts: seq<Shift>, selected: Date, filter: Filter, m: Measure)
    ensures var month := MonthShifts(shifts, selected, filter);
      var items := ListFrom(month, SortedDays(month, selected), -1, WeekNumber);
      && ShownTotal(Cards(items), m) == Sum(month, MeasureOf(m))
      && ShownTotal(Summaries(items), m) == Sum(month, MeasureOf(m))
  {
    var month := MonthShifts(shifts, selected, filter);
    MonthShiftsMembers(shifts, selected, filter);
    MonthCardsTotal(month, selected, m);
    MonthSummariesTotal(month, selected, m);
  }

  /** The day cards of the list add up to the month's total. */
  lemma MonthCardsTotal(month: seq<Shift>, selected: Date, m: Measure)
    requires forall x :: x in month ==> x.date.year == selected.year && x.date.month == selected.month
    ensures ShownTotal(Cards(ListFrom(month, SortedDays(month, selected), -1, WeekNumber)), m)
      == Sum(month, MeasureOf(m))
  {
    var days := SortedDays(month, selected);
    SortedDaysSpec(month, selected);
    ListShape(month, days, -1, WeekNumber);
    forall x | x in month ensures DateOf(x) in days {
      assert HasShiftOn(month, x.date);
    }
    DayCardsPartition(month, days, m);
  }

  /** The week summaries of the list add up to the month's total. */
  lemma MonthSummariesTotal(month: seq<Shift>, selected: Date, m: Measure)
    requires forall x :: x in month ==> x.date.year == selected.year && x.date.month == selected.month
    ensures ShownTotal(Summaries(ListFrom(month, SortedDays(month, selected), -1, WeekNumber)), m)
      == Sum(month, MeasureOf(m))
  {
    var days := SortedDays(month, selected);
    SortedDaysSpec(month, selected);
    ListShape(month, days, -1, WeekNumber);
    forall x | x in month ensures x.date in days {
      assert HasShiftOn(month, x.date);
    }
    MonthWeeksRun(days);
    SummariesPartition(month, days, m, WeekNumber);
  }
}
