/** `parseShifts(data)`: the Walmart weeks and the Canes list turned into
    one list of shift records with hours and pay, sorted by date and start.

    The Walmart start and end texts come in already formatted
    (`toLocaleTimeString(...).replace(' ', '')`), and `new Date()` for the
    Canes day of month is the parameter `today`. */
module Normalizer {
  import opened Wrappers
  import opened JsText
  import opened Calendar
  import opened TimeOfDay
  import opened Records
  import opened ShiftOrder
  import opened Sorting

  /** Walmart's unpaid break: an hour off a shift longer than 5.5 hours
      (330 minutes). */
  function PaidAfterBreak(durationMinutes: int): (paid: int)
    ensures durationMinutes > 330 ==> paid == durationMinutes - 60
    ensures durationMinutes <= 330 ==> paid == durationMinutes
  {
    if durationMinutes > 330 then durationMinutes - 60 else durationMinutes
  }

  /** `paidHours * rate`, with minutes turned back into hours. */
  function GrossPay(paidMinutes: int, rate: real): real {
    (paidMinutes as real / 60.0) * rate
  }

  /** `grossPay * takeHomeMultiplier`. */
  function NetPay(grossPay: real, multiplier: real): real {
    grossPay * multiplier
  }

  /** `a || b` on strings: the fallback replaces a missing or empty value. */
  function OrElse(value: Option<string>, fallback: string): (r: string)
    ensures value.Some? && value.value != "" ==> r == value.value
    ensures value.None? || value.value == "" ==> r == fallback
  {
    if value.Some? && value.value != "" then value.value else fallback
  }

  /** What every record `parseShifts` builds satisfies: the duration is the
      one between the stored start and end, Walmart pays it less the break
      and Canes pays all of it, gross is paid hours times the source's rate
      and net is gross times the take-home multiplier. */
  predicate PayConsistent(s: Shift, settings: Settings, multiplier: real) {
    && s.durationMinutes == HoursDuration(s.start, s.end)
    && (s.source == Walmart ==> s.paidMinutes == PaidAfterBreak(s.durationMinutes))
    && (s.source == Canes ==> s.paidMinutes == s.durationMinutes)
    && s.paidMinutes <= s.durationMinutes
    && s.grossPay == GrossPay(s.paidMinutes, Rate(settings, s.source))
    && s.netPay == NetPay(s.grossPay, multiplier)
  }

  /** The record pushed for one Walmart schedule entry. */
  function WalmartRecord(w: WalmartSchedule, settings: Settings, multiplier: real): (r: Shift)
    ensures r.source == Walmart && r.date == w.date && !r.hasOverlap
    ensures PayConsistent(r, settings, multiplier)
  {
    var duration := HoursDuration(w.startText, w.endText);
    var paid := PaidAfterBreak(duration);
    var gross := GrossPay(paid, settings.walmartRate);
    Shift(w.date, w.startText, w.endText, duration, paid, gross, NetPay(gross, multiplier),
          OrElse(w.jobDescription, "Walmart Shift"), Walmart, false)
  }

  /** `(s.duration || '').split('-').map(p => p?.trim() || '')`, first two
      sides; a missing second side reads like an empty one. */
  function CanesSides(duration: Option<string>): (string, string) {
    var parts := Split(duration.GetOr(""), '-');
    (Trim(parts[0]), if |parts| > 1 then Trim(parts[1]) else "")
  }

  /** `new Date()` moved to day `day` of the current month by `setDate`. */
  function CanesDate(today: Date, day: int): Date {
    MakeDay(today.year, today.month - 1, day)
  }

  /** The record pushed for one Canes entry: no break rule. */
  function CanesRecord(c: CanesEntry, settings: Settings, multiplier: real, today: Date): (r: Shift)
    ensures r.source == Canes && r.date == CanesDate(today, c.day) && !r.hasOverlap
    ensures PayConsistent(r, settings, multiplier)
  {
    var (start, end) := CanesSides(c.duration);
    var duration := HoursDuration(start, end);
    NotApplicableDuration(start, end);
    var gross := GrossPay(duration, settings.canesRate);
    Shift(CanesDate(today, c.day), OrElse(Some(start), "N/A"), OrElse(Some(end), "N/A"),
          duration, duration, gross, NetPay(gross, multiplier), OrElse(c.job, "Cane's Shift"), Canes, false)
  }

  /** `start || 'N/A'` reads as a time exactly when `start` does. */
  lemma NotApplicableParses(side: string)
    ensures ParseTime(OrElse(Some(side), "N/A")) == ParseTime(side)
  {
    if side == "" {
      ParseNotATime();
    }
  }

  /** Filling empty sides with "N/A" leaves the duration as it was. */
  lemma NotApplicableDuration(start: string, end: string)
    ensures HoursDuration(OrElse(Some(start), "N/A"), OrElse(Some(end), "N/A")) == HoursDuration(start, end)
  {
    NotApplicableParses(start);
    NotApplicableParses(end);
  }

  /** The record builders as the two `forEach` callbacks see them. */
  function WalmartRecordOf(settings: Settings, multiplier: real): WalmartSchedule -> Shift {
    w => WalmartRecord(w, settings, multiplier)
  }

  function CanesRecordOf(settings: Settings, multiplier: real, today: Date): CanesEntry -> Shift {
    c => CanesRecord(c, settings, multiplier, today)
  }

  /** One pushed record per element, in order. */
  function MapSeq<A, B>(s: seq<A>, f: A -> B): (r: seq<B>)
    ensures |r| == |s|
    ensures forall i :: 0 <= i < |s| ==> r[i] == f(s[i])
  {
    seq(|s|, i requires 0 <= i < |s| => f(s[i]))
  }

  /** Pushing one more element pushes its image. */
  lemma MapSeqSnoc<A, B>(s: seq<A>, k: int, f: A -> B)
    requires 0 <= k < |s|
    ensures MapSeq(s[..k + 1], f) == MapSeq(s[..k], f) + [f(s[k])]
  {
  }

  /** The records of every schedule of every week, week by week. */
  function MapWeeks<A, B>(weeks: seq<seq<A>>, f: A -> B): seq<B> {
    if weeks == [] then [] else MapWeeks(weeks[..|weeks| - 1], f) + MapSeq(weeks[|weeks| - 1], f)
  }

  /** The `parsed` array before sorting, for given record builders: every
      Walmart schedule week by week, then every Canes entry, all in input
      order; nothing for a missing document or a missing part. */
  function BuildShifts(data: Option<ScheduleData>, walmart: WalmartSchedule -> Shift,
                       cane: CanesEntry -> Shift): seq<Shift>
  {
    if data.None? then []
    else
      (if data.value.walmartWeeks.Some? then MapWeeks(data.value.walmartWeeks.value, walmart) else [])
      + (if data.value.canes.Some? then MapSeq(data.value.canes.value, cane) else [])
  }

  /** `appState.takeHomePercent / 100`, read once per call. */
  function TakeHome(settings: Settings): real {
    settings.takeHomePercent / 100.0
  }

  /** `parseShifts(data)`: push every record, then sort the array in place. */
  method ParseShifts(data: Option<ScheduleData>, settings: Settings, today: Date) returns (shifts: array<Shift>)
    ensures fresh(shifts)
    ensures shifts[..] == SortShifts(BuildShifts(data, WalmartRecordOf(settings, TakeHome(settings)),
                                                 CanesRecordOf(settings, TakeHome(settings), today)))
  {
    var parsed: seq<Shift> := [];
    if data.Some? {
      var multiplier := TakeHome(settings);
      parsed := PushAll(data, WalmartRecordOf(settings, multiplier), CanesRecordOf(settings, multiplier, today));
    }
    shifts := new Shift[|parsed|](i requires 0 <= i < |parsed| => parsed[i]);
    assert shifts[..] == parsed;
    SortInPlace(shifts, Key);
  }

  /** Both `forEach` passes over the fetched document. */
  method PushAll(data: Option<ScheduleData>, walmart: WalmartSchedule -> Shift, cane: CanesEntry -> Shift)
    returns (parsed: seq<Shift>)
    ensures parsed == BuildShifts(data, walmart, cane)
  {
    parsed := [];
    if data.Some? {
      if data.value.walmartWeeks.Some? {
        parsed := PushWeeks(parsed, data.value.walmartWeeks.value, walmart);
      }
      if data.value.canes.Some? {
        parsed := PushEach(parsed, data.value.canes.value, cane);
      }
    }
  }

  /** `weeks.forEach(week => week.schedules.forEach(shift => parsed.push(...)))`. */
  method PushWeeks<A>(parsed0: seq<Shift>, weeks: seq<seq<A>>, record: A -> Shift) returns (parsed: seq<Shift>)
    ensures parsed == parsed0 + MapWeeks(weeks, record)
  {
    parsed := parsed0;
    var w := 0;
    while w < |weeks|
      invariant 0 <= w <= |weeks|
      invariant parsed == parsed0 + MapWeeks(weeks[..w], record)
    {
      var week := weeks[w];
      var k := 0;
      while k < |week|
        invariant 0 <= k <= |week|
        invariant parsed == parsed0 + MapWeeks(weeks[..w], record) + MapSeq(week[..k], record)
      {
        parsed := parsed + [record(week[k])];
        MapSeqSnoc(week, k, record);
        k := k + 1;
      }
      assert week[..k] == week;
      assert weeks[..w + 1][..w] == weeks[..w];
      w := w + 1;
    }
    assert weeks[..w] == weeks;
  }

  /** `list.forEach(s => parsed.push(...))`. */
  method PushEach<A>(parsed0: seq<Shift>, list: seq<A>, record: A -> Shift) returns (parsed: seq<Shift>)
    ensures parsed == parsed0 + MapSeq(list, record)
  {
    parsed := parsed0;
    var k := 0;
    while k < |list|
      invariant 0 <= k <= |list|
      invariant parsed == parsed0 + MapSeq(list[..k], record)
    {
      parsed := parsed + [record(list[k])];
      MapSeqSnoc(list, k, record);
      k := k + 1;
    }
    assert list[..k] == list;
  }

  /** How many schedules the weeks hold together. */
  function ScheduleCount<A>(weeks: seq<seq<A>>): nat {
    if weeks == [] then 0 else ScheduleCount(weeks[..|weeks| - 1]) + |weeks[|weeks| - 1]|
  }

  /** How many records `parseShifts` pushes for a document. */
  function RecordCount(data: Option<ScheduleData>): nat {
    if data.None? then 0
    else
      (if data.value.walmartWeeks.Some? then ScheduleCount(data.value.walmartWeeks.value) else 0)
      + (if data.value.canes.Some? then |data.value.canes.value| else 0)
  }

  lemma {:induction false} MapWeeksLength<A, B>(weeks: seq<seq<A>>, f: A -> B)
    ensures |MapWeeks(weeks, f)| == ScheduleCount(weeks)
  {
    if weeks != [] {
      MapWeeksLength(weeks[..|weeks| - 1], f);
    }
  }

  /** `y` is the image under `f` of an element of `s`. */
  ghost predicate InImage<A, B>(s: seq<A>, f: A -> B, y: B) {
    exists a :: a in s && y == f(a)
  }

  /** `y` is the image under `f` of an element of one of the weeks. */
  ghost predicate InWeeksImage<A, B>(weeks: seq<seq<A>>, f: A -> B, y: B) {
    exists week, a :: week in weeks && a in week && y == f(a)
  }

  /** The mapped list holds exactly the images of the list's elements. */
  lemma MapSeqMember<A, B>(s: seq<A>, f: A -> B, y: B)
    ensures y in MapSeq(s, f) <==> InImage(s, f, y)
  {
    if y in MapSeq(s, f) {
      var i :| 0 <= i < |s| && MapSeq(s, f)[i] == y;
      assert s[i] in s;
    }
    if a :| a in s && y == f(a) {
      var i :| 0 <= i < |s| && s[i] == a;
      assert MapSeq(s, f)[i] == y;
    }
  }

  /** The mapped weeks hold exactly the images of the schedules of all weeks. */
  lemma {:induction false} MapWeeksMember<A, B>(weeks: seq<seq<A>>, f: A -> B, y: B)
    ensures y in MapWeeks(weeks, f) <==> InWeeksImage(weeks, f, y)
  {
    if weeks != [] {
      var init, last := weeks[..|weeks| - 1], weeks[|weeks| - 1];
      assert weeks == init + [last];
      MapWeeksMember(init, f, y);
      MapSeqMember(last, f, y);
      if week, a :| week in weeks && a in week && y == f(a) {
        if week != last {
          assert week in init;
        }
      }
    }
  }

  /** `parseShifts` returns one record per Walmart schedule plus one per
      Canes entry, whatever the records are. */
  lemma ParsedLength(data: Option<ScheduleData>, walmart: WalmartSchedule -> Shift, cane: CanesEntry -> Shift)
    ensures |SortShifts(BuildShifts(data, walmart, cane))| == RecordCount(data)
  {
    if data.Some? && data.value.walmartWeeks.Some? {
      MapWeeksLength(data.value.walmartWeeks.value, walmart);
    }
  }

  /** Sorting does not change which shifts there are. */
  lemma SortedMember(built: seq<Shift>, s: Shift)
    ensures s in SortShifts(built) <==> s in built
  {
    SortByPermutes(built, Key);
    assert s in SortShifts(built) <==> s in multiset(SortShifts(built));
  }

  /** The shifts `parseShifts` returns are exactly the records built from
      the document's Walmart schedules and from its Canes entries. */
  lemma ParsedRecords(data: ScheduleData, walmart: WalmartSchedule -> Shift, cane: CanesEntry -> Shift, s: Shift)
    ensures s in SortShifts(BuildShifts(Some(data), walmart, cane)) <==>
      (data.walmartWeeks.Some? && InWeeksImage(data.walmartWeeks.value, walmart, s))
      || (data.canes.Some? && InImage(data.canes.value, cane, s))
  {
    SortedMember(BuildShifts(Some(data), walmart, cane), s);
    if data.walmartWeeks.Some? {
      MapWeeksMember(data.walmartWeeks.value, walmart, s);
    }
    if data.canes.Some? {
      MapSeqMember(data.canes.value, cane, s);
    }
  }

  /** A property every built record has holds for every returned shift. */
  lemma ParsedAll(data: Option<ScheduleData>, walmart: WalmartSchedule -> Shift, cane: CanesEntry -> Shift,
                  p: Shift -> bool)
    requires forall w :: p(walmart(w))
    requires forall c :: p(cane(c))
    ensures forall s :: s in SortShifts(BuildShifts(data, walmart, cane)) ==> p(s)
  {
    if data.Some? {
      forall s | s in SortShifts(BuildShifts(data, walmart, cane)) ensures p(s) {
        ParsedRecords(data.value, walmart, cane, s);
        if data.value.walmartWeeks.Some? && InWeeksImage(data.value.walmartWeeks.value, walmart, s) {
          var week, w :| week in data.value.walmartWeeks.value && w in week && s == walmart(w);
        } else {
          var c :| c in data.value.canes.value && s == cane(c);
        }
      }
    }
  }

  /** Every shift `parseShifts` returns carries the pay rules of its source
      and no overlap flag yet. */
  lemma ParsedPayConsistent(data: Option<ScheduleData>, settings: Settings, today: Date)
    ensures var multiplier := TakeHome(settings);
      forall s :: s in SortShifts(BuildShifts(data, WalmartRecordOf(settings, multiplier),
                                              CanesRecordOf(settings, multiplier, today))) ==>
        PayConsistent(s, settings, multiplier) && !s.hasOverlap
  {
    var multiplier := TakeHome(settings);
    var p := (s: Shift) => PayConsistent(s, settings, multiplier) && !s.hasOverlap;
    RecordsConsistent(settings, multiplier, today);
    ParsedAll(data, WalmartRecordOf(settings, multiplier), CanesRecordOf(settings, multiplier, today), p);
  }

  lemma RecordsConsistent(settings: Settings, multiplier: real, today: Date)
    ensures forall w :: PayConsistent(WalmartRecordOf(settings, multiplier)(w), settings, multiplier)
                        && !WalmartRecordOf(settings, multiplier)(w).hasOverlap
    ensures forall c :: PayConsistent(CanesRecordOf(settings, multiplier, today)(c), settings, multiplier)
                        && !CanesRecordOf(settings, multiplier, today)(c).hasOverlap
  {
  }

  /** A Canes duration "a-b" gives the trimmed sides a and b. */
  lemma CanesSidesOfRange(a: string, b: string)
    requires '-' !in a && '-' !in b
    ensures CanesSides(Some(a + "-" + b)) == (Trim(a), Trim(b))
  {
    assert Join([a, b], '-') == a + "-" + b;
    SplitJoin([a, b], '-');
  }

  /** A Canes entry with no duration text gets "N/A" for both times, no
      hours and no pay. */
  lemma CanesWithoutDuration(c: CanesEntry, settings: Settings, multiplier: real, today: Date)
    requires c.duration.None? || c.duration == Some("")
    ensures var r := CanesRecord(c, settings, multiplier, today);
      r.start == "N/A" && r.end == "N/A" && r.durationMinutes == 0 && r.paidMinutes == 0
      && r.grossPay == 0.0 && r.netPay == 0.0
  {
    NoDurationNoSides(c.duration);
    CanesEmptySides(c, settings, multiplier, today);
  }

  lemma NoDurationNoSides(duration: Option<string>)
    requires duration.None? || duration == Some("")
    ensures CanesSides(duration) == ("", "")
  {
    assert Split("", '-') == [""];
    TrimUnspaced("");
  }

  lemma CanesEmptySides(c: CanesEntry, settings: Settings, multiplier: real, today: Date)
    requires CanesSides(c.duration) == ("", "")
    ensures var r := CanesRecord(c, settings, multiplier, today);
      r.start == "N/A" && r.end == "N/A" && r.durationMinutes == 0 && r.paidMinutes == 0
      && r.grossPay == 0.0 && r.netPay == 0.0
  {
    assert HoursDuration("", "") == 0;
    assert GrossPay(0, settings.canesRate) == 0.0 by {
      assert 0 as real / 60.0 == 0.0;
    }
  }

  /** The break rule on whole hours: 6h pays 5h, 5h pays 5h, 8h pays 7h. */
  lemma BreakExamples()
    ensures PaidAfterBreak(360) == 300 && PaidAfterBreak(300) == 300 && PaidAfterBreak(480) == 420
  {
  }
}
