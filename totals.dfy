/** The folds over `appState.allShifts`: the totals and the date range of
    `updateHeaderInfo`, the gross per week of `renderAnalytics` and its
    paycheck estimate. Paid hours are summed in minutes; a value is never
    missing from a record here, so `|| 0` adds nothing. The date a record's
    text reads back as is the record's date (`DateText.ParseFormatRoundTrip`). */
module Totals {
  import opened Wrappers
  import opened Calendar
  import opened Records
  import opened ShiftOrder
  import opened Sorting
  import opened Sums
  import opened Weekly

  function PaidOf(x: Shift): real {
    x.paidMinutes as real
  }

  function GrossOf(x: Shift): real {
    x.grossPay
  }

  function NetOf(x: Shift): real {
    x.netPay
  }

  /** The header: "No shifts", or the first and last shift's dates and the
      paid, gross and net totals. */
  datatype Header = NoShifts | Summary(first: Date, last: Date, paidMinutes: real, grossPay: real, netPay: real)

  function HeaderInfo(shifts: seq<Shift>): Header {
    if shifts == [] then NoShifts
    else Summary(shifts[0].date, shifts[|shifts| - 1].date,
                 Sum(shifts, PaidOf), Sum(shifts, GrossOf), Sum(shifts, NetOf))
  }

  /** On the records `parseShifts` returns, the header totals are the
      totals of the records as built, whatever the order the sort left. */
  lemma HeaderTotalsOfParsed(built: seq<Shift>)
    ensures var h := HeaderInfo(SortShifts(built));
      && (h.NoShifts? <==> built == [])
      && (h.Summary? ==> h.paidMinutes == Sum(built, PaidOf) && h.grossPay == Sum(built, GrossOf)
                         && h.netPay == Sum(built, NetOf))
  {
    SortShiftsSpec(built);
    SumPermutation(SortShifts(built), built, PaidOf);
    SumPermutation(SortShifts(built), built, GrossOf);
    SumPermutation(SortShifts(built), built, NetOf);
  }

  /** On the records `parseShifts` returns, the header range runs from the
      earliest date of a record to the latest. */
  lemma HeaderRangeOfParsed(built: seq<Shift>)
    requires built != []
    ensures var h := HeaderInfo(SortShifts(built));
      && h.Summary?
      && (exists x :: x in built && x.date == h.first)
      && (exists x :: x in built && x.date == h.last)
      && forall x :: x in built ==> DayNumber(h.first) <= DayNumber(x.date) <= DayNumber(h.last)
  {
    var r := SortShifts(built);
    SortByPermutes(built, Key);
    assert r[0] in multiset(built) && r[|r| - 1] in multiset(built);
    SortByEnds(built, Key);
  }

  /** When every record's net is its gross times the take-home multiplier,
      as `parseShifts` makes it, the header's net is the header's gross times
      that multiplier. */
  lemma HeaderNetIsShare(shifts: seq<Shift>, multiplier: real)
    requires shifts != []
    requires forall x :: x in shifts ==> x.netPay == x.grossPay * multiplier
    ensures HeaderInfo(shifts).netPay == HeaderInfo(shifts).grossPay * multiplier
  {
    SumScaled(shifts, NetOf, GrossOf, multiplier);
  }

  /** `getWeekNumber(parseYMDAsLocal(shift.date))`. */
  function WeekOf(x: Shift): int {
    WeekNumber(x.date)
  }

  /** `weeklyData` of `renderAnalytics`. */
  function WeeklyChart(shifts: seq<Shift>): seq<WeekGross> {
    WeeklyGross(shifts, WeekOf, GrossOf)
  }

  /** The chart has one bar per week that has a shift and no other, each
      bar is the gross of its week's shifts, the bars keep the order in
      which their weeks first appear, and they add up to the total gross. */
  lemma WeeklyChartSpec(shifts: seq<Shift>)
    ensures var r := WeeklyChart(shifts);
      && DistinctWeeks(r)
      && (forall w :: HasWeek(r, w) <==> exists x :: x in shifts && WeekOf(x) == w)
      && (forall e :: e in r ==> e.gross == Sum(Keyed(shifts, WeekOf, e.week), GrossOf))
      && Sum(r, BarGross) == Sum(shifts, GrossOf)
  {
    WeeklyDistinct(shifts, WeekOf, GrossOf);
    WeeklyCovers(shifts, WeekOf, GrossOf);
    WeeklyValues(shifts, WeekOf, GrossOf);
    WeeklyTotal(shifts, WeekOf, GrossOf);
  }

  /** More shifts never move a bar. */
  lemma WeeklyChartOrder(p: seq<Shift>, q: seq<Shift>)
    ensures |WeeklyChart(p)| <= |WeeklyChart(p + q)|
    ensures forall i :: 0 <= i < |WeeklyChart(p)| ==> WeeklyChart(p + q)[i].week == WeeklyChart(p)[i].week
  {
    WeeklyKeepsOrder(p, q, WeekOf, GrossOf);
  }

  /** The estimate of `renderAnalytics`: None ("No shift data to
      analyze.") without shifts, otherwise the estimate for today's week at
      `takeHomePercent / 100`. */
  function PaycheckEstimate(shifts: seq<Shift>, today: Date, takeHomePercent: real): Option<Paycheck> {
    if shifts == [] then None
    else Some(Estimate(shifts, WeekOf, GrossOf, WeekNumber(today), takeHomePercent / 100.0))
  }

  /** The estimate covers exactly weeks `currentWeek` and `currentWeek - 1`,
      the current week being today's. */
  lemma PaycheckSpec(shifts: seq<Shift>, today: Date, takeHomePercent: real)
    ensures PaycheckEstimate(shifts, today, takeHomePercent).None? <==> shifts == []
    ensures shifts != [] ==>
      var p := PaycheckEstimate(shifts, today, takeHomePercent).value;
      && p.currentWeek == WeekNumber(today) && p.lastWeek == p.currentWeek - 1
      && p.grossPay == Sum(Keyed(shifts, WeekOf, WeekNumber(today)), GrossOf) + Sum(Keyed(shifts, WeekOf, WeekNumber(today) - 1), GrossOf)
  {
    EstimateGross(shifts, WeekOf, GrossOf, WeekNumber(today), takeHomePercent / 100.0);
  }

  /** In week 1 of the year the previous week is "week 0", which no shift
      has: the last weeks of the previous year are not counted. */
  lemma PaycheckInWeekOne(shifts: seq<Shift>, today: Date, takeHomePercent: real)
    requires shifts != [] && WeekNumber(today) == 1
    ensures PaycheckEstimate(shifts, today, takeHomePercent).value.grossPay == Sum(Keyed(shifts, WeekOf, 1), GrossOf)
  {
    EstimateInWeekOne(shifts, WeekOf, GrossOf, takeHomePercent / 100.0);
  }
}
