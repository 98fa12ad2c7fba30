/** `updateNextShiftTicker`: the first shift in list order that starts
    after now, and the hours and minutes until it starts. `now` is a
    parameter: the local clock reading in milliseconds, counted on the day
    scale of `Calendar.DayNumber`. The ticker's HTML is left out; what it
    shows is the job and the two numbers. */
module NextShift {
  import opened Wrappers
  import opened Calendar
  import opened Records
  import opened DateText
  import opened TimeOfDay

  /** `Array.prototype.find` from index i on, as the index of the element
      found: the first element from i on that `p` accepts. */
  function FindFrom<T>(s: seq<T>, p: T -> bool, i: nat): (r: Option<nat>)
    requires i <= |s|
    ensures r.Some? ==> i <= r.value < |s| && p(s[r.value]) && forall j :: i <= j < r.value ==> !p(s[j])
    ensures r.None? ==> forall j :: i <= j < |s| ==> !p(s[j])
    decreases |s| - i
  {
    if i == |s| then None
    else if p(s[i]) then Some(i)
    else FindFrom(s, p, i + 1)
  }

  /** `shiftStart.getHours()` and `shiftStart.getMinutes()` as minutes of
      the day: `setHours` rolls hours past 23 into later days, which the
      two getters drop. */
  function ClockMinutes(t: nat): (r: nat)
    ensures r == t % 1440
  {
    var a := t % 1440;
    assert t == 60 * (24 * (t / 1440)) + a;
    assert t % 60 == a % 60 by { ModAfterMultiple(24 * (t / 1440), a); }
    a / 60 * 60 + t % 60
  }

  lemma ModAfterMultiple(k: nat, a: nat)
    ensures (60 * k + a) % 60 == a % 60
  {
  }

  /** `startDateTime` in milliseconds: None when `parseTime(shift.start)`
      is null or the date text reads as an invalid date (then the
      comparison with `now` is false). */
  function StartInstant(x: Shift): Option<int> {
    InstantOf(ParseTime(x.start), ParseYMDAsLocal(FormatLocalDate(x.date)))
  }

  /** `new Date(shiftDate.getFullYear(), shiftDate.getMonth(),
      shiftDate.getDate(), shiftStart.getHours(), shiftStart.getMinutes())`
      in milliseconds, for the start t and the date p read back. */
  function InstantOf(t: Option<nat>, p: Option<Date>): Option<int> {
    if t.None? || p.None? then None
    else Some(Millis(StartDay(p.value), ClockMinutes(t.value)))
  }

  /** Minute `minute` of day `day` in milliseconds. */
  function Millis(day: int, minute: int): int {
    (day * 1440 + minute) * 60000
  }

  /** The day of `new Date(p.getFullYear(), p.getMonth(), p.getDate())`. */
  function StartDay(p: Date): int {
    DayNumber(NewDate(p.year, p.month - 1, p.day))
  }

  /** From year 100 on, rebuilding a date from its fields gives its day. */
  lemma StartDayOfDate(d: Date)
    requires d.year >= 100
    ensures StartDay(d) == DayNumber(d)
  {
    MakeDayOfDate(d);
  }

  /** The test `find` applies: the start parses and is strictly after now. */
  predicate Upcoming(now: int, x: Shift) {
    StartInstant(x).Some? && StartInstant(x).value > now
  }

  /** `nextShift`: the index of the first upcoming shift, if any. */
  function NextShift(shifts: seq<Shift>, now: int): Option<nat> {
    FindFrom(shifts, x => Upcoming(now, x), 0)
  }

  /** The next shift is the first one in list order whose start parses and
      is strictly after now, so a shift starting exactly now is skipped;
      there is none exactly when no shift starts after now. */
  lemma NextShiftSpec(shifts: seq<Shift>, now: int)
    ensures var r := NextShift(shifts, now);
      && (r.None? <==> forall x :: x in shifts ==> !Upcoming(now, x))
      && (r.Some? ==> && r.value < |shifts| && Upcoming(now, shifts[r.value])
                      && forall j :: 0 <= j < r.value ==> !Upcoming(now, shifts[j]))
      && forall j :: 0 <= j < |shifts| && StartInstant(shifts[j]) == Some(now) ==> r != Some(j)
  {
    var r := NextShift(shifts, now);
    if r.Some? {
      assert shifts[r.value] in shifts;
    } else {
      forall x | x in shifts ensures !Upcoming(now, x) {
        var j :| 0 <= j < |shifts| && shifts[j] == x;
      }
    }
  }

  /** From year 100 on, the instant of start t on date d is the minute
      of the day t names on the day of d. */
  lemma InstantOfDate(t: nat, d: Date)
    requires d.year >= 100
    ensures InstantOf(Some(t), Some(d)) == Some(Millis(DayNumber(d), t % 1440))
  {
    StartDayOfDate(d);
  }

  /** For a record dated from year 100 on, the start instant is the day of
      the record's date and the minute of the day its start names. */
  lemma RecordStart(x: Shift)
    requires x.date.year >= 100
    ensures ParseTime(x.start).None? ==> StartInstant(x).None?
    ensures ParseTime(x.start).Some? ==>
      StartInstant(x) == Some(Millis(DayNumber(x.date), ParseTime(x.start).value % 1440))
  {
    if ParseTime(x.start).Some? {
      ParseFormatRoundTrip(x.date);
      InstantOfDate(ParseTime(x.start).value, x.date);
    }
  }

  /** `diffHours` and `diffMins` as written: the whole hours, and the rest
      rounded to the nearest minute with `Math.round` (for a positive
      difference, `floor(r / 60000 + 0.5)`). */
  function CountdownAsWritten(diffMs: nat): (int, int) {
    (diffMs / 3600000, (diffMs % 3600000 + 30000) / 60000)
  }

  /** A start 59 minutes 30 seconds away shows as "0h 60m". */
  lemma SixtyMinutesShown()
    ensures CountdownAsWritten(3570000) == (0, 60)
  {
  }

  /** As written, the two numbers add up to the difference rounded to the
      nearest minute, but the minutes reach 60 in the last half minute of
      every hour. */
  lemma AsWrittenTotal(diffMs: nat)
    ensures var (h, m) := CountdownAsWritten(diffMs);
      && h * 60 + m == (diffMs + 30000) / 60000 && 0 <= m <= 60
      && (m == 60 <==> diffMs % 3600000 >= 3570000)
  {
    var q, r := diffMs / 3600000, diffMs % 3600000;
    assert diffMs + 30000 == 60000 * (60 * q) + (r + 30000);
  }

  /** The countdown with the rounding done before the split: the hours and
      the minutes (0..59) of the difference rounded to the nearest minute. */
  function Countdown(diffMs: nat): (int, int) {
    var total := (diffMs + 30000) / 60000;
    (total / 60, total % 60)
  }

  /** The countdown is within half a minute of the difference, and its
      minutes are 0..59; it agrees with the code as written except in the
      last half minute of an hour, where it shows the next hour. */
  lemma CountdownNearest(diffMs: nat)
    ensures var (h, m) := Countdown(diffMs);
      && 0 <= h && 0 <= m < 60
      && diffMs - 30000 < (h * 60 + m) * 60000 <= diffMs + 30000
      && (diffMs % 3600000 < 3570000 ==> (h, m) == CountdownAsWritten(diffMs))
      && (diffMs % 3600000 >= 3570000 ==> (h, m) == (diffMs / 3600000 + 1, 0))
  {
    AsWrittenTotal(diffMs);
  }

  /** What the ticker shows: nothing, or the job of the next shift and the
      hours and minutes until it starts. */
  datatype Ticker = Hidden | Shown(job: string, hours: int, minutes: int)

  function TickerAt(shifts: seq<Shift>, now: int): Ticker {
    match NextShift(shifts, now)
    case None => Hidden
    case Some(i) =>
      var x := shifts[i];
      var (h, m) := Countdown(StartInstant(x).value - now);
      Shown(x.job, h, m)
  }

  /** The ticker is hidden exactly when no shift starts after now; when
      shown it names the first such shift's job, and its hours and minutes
      (0..59) are within half a minute of the time left. */
  lemma TickerSpec(shifts: seq<Shift>, now: int)
    ensures var t := TickerAt(shifts, now);
      && (t.Hidden? <==> forall x :: x in shifts ==> !Upcoming(now, x))
      && (t.Shown? ==> exists i :: (0 <= i < |shifts| && NextShift(shifts, now) == Some(i)
            && t.job == shifts[i].job && 0 <= t.hours && 0 <= t.minutes < 60
            && StartInstant(shifts[i]).value - now - 30000 < (t.hours * 60 + t.minutes) * 60000
                 <= StartInstant(shifts[i]).value - now + 30000))
  {
    NextShiftSpec(shifts, now);
    var r := NextShift(shifts, now);
    if r.Some? {
      CountdownNearest(StartInstant(shifts[r.value]).value - now);
    }
  }
}
