/** `detectOverlaps`: the shifts are grouped by date in the order they
    appear, and within each date with two or more shifts every shift is
    compared with the next one of that date; when the first ends after the
    second starts, both get `hasOverlap = true`.

    The groups hold the shift objects themselves, so setting the flag
    through a group sets it in `appState.allShifts`; here the groups hold
    indices into the array of shifts, which the scan updates in place
    (`GroupScan.ScanAll`, instantiated with the date, the time comparison
    and the flag). Grouping is by the date value, which the date text
    stands for one to one (`DateText.FormatLocalDateInjective`). */
module Overlaps {
  import opened Wrappers
  import opened Calendar
  import opened TimeOfDay
  import opened Records
  import opened ShiftOrder
  import opened GroupScan

  /** `parseTime(end) > parseTime(start)` as JavaScript evaluates it: a Date
      compares by its (positive) time value and null as 0, so an end that
      does not parse is never after anything and a start that does not parse
      is before every end that does. */
  predicate EndsAfter(end: string, start: string) {
    var e, b := ParseTime(end), ParseTime(start);
    e.Some? && (b.None? || e.value > b.value)
  }

  /** Shift x, followed on its date by shift y, runs into y. */
  predicate RunsInto(x: Shift, y: Shift) {
    EndsAfter(x.end, y.start)
  }

  /** `shift.hasOverlap = true`, and nothing else changes. */
  function SetOverlap(x: Shift): (r: Shift)
    ensures r.hasOverlap && r.(hasOverlap := x.hasOverlap) == x
  {
    x.(hasOverlap := true)
  }

  /** Setting the flag keeps the date and the times the scan compares. */
  lemma SetOverlapCompatible()
    ensures Compatible(DateOf, RunsInto, SetOverlap)
  {
  }

  /** The shifts `detectOverlaps` leaves behind. */
  function Detected(s: seq<Shift>): seq<Shift> {
    Scanned(s, DateOf, RunsInto, SetOverlap)
  }

  /** Shift k is one that `detectOverlaps` flags. */
  predicate OverlapFlagged(s: seq<Shift>, k: int)
    requires 0 <= k < |s|
  {
    Flagged(s, DateOf, RunsInto, k)
  }

  method DetectOverlaps(a: array<Shift>)
    modifies a
    ensures a[..] == Detected(old(a[..]))
  {
    SetOverlapCompatible();
    ScanAll(a, DateOf, RunsInto, SetOverlap);
  }

  /** The scan keeps every shift and changes only its flag: a flag already
      set stays set, and a flag is set where the shift overlaps a
      neighbour of its date. */
  lemma DetectedShift(s: seq<Shift>, k: int)
    requires 0 <= k < |s|
    ensures |Detected(s)| == |s|
    ensures Detected(s)[k].hasOverlap == (s[k].hasOverlap || OverlapFlagged(s, k))
    ensures Detected(s)[k].(hasOverlap := s[k].hasOverlap) == s[k]
  {
  }

  /** Running the detection again changes nothing. */
  lemma DetectIdempotent(s: seq<Shift>)
    ensures Detected(Detected(s)) == Detected(s)
  {
    SetOverlapCompatible();
    ScannedIdempotent(s, DateOf, RunsInto, SetOverlap);
  }

  /** A shift alone on its date is never flagged. */
  lemma AloneOnItsDate(s: seq<Shift>, k: int)
    requires 0 <= k < |s|
    requires forall j :: 0 <= j < |s| && j != k ==> s[j].date != s[k].date
    ensures !OverlapFlagged(s, k)
  {
    AloneNotFlagged(s, DateOf, RunsInto, k);
  }

  /** The shifts of one date sit together in the order `parseShifts`
      returns. */
  lemma SortedRuns(s: seq<Shift>)
    ensures Runs(SortShifts(s), DateOf)
  {
    var r := SortShifts(s);
    SortShiftsSpec(s);
    forall i, l, j | 0 <= i < l < j < |r| ensures Between(r, DateOf, i, l, j) {
      if r[i].date == r[j].date {
        assert !Precedes(r[l], r[i]) && !Precedes(r[j], r[l]);
        DayNumberInjective(r[l].date, r[i].date);
      }
    }
  }

  /** On shifts in the order `parseShifts` returns, a shift is flagged
      exactly when it ends after the next shift of its date starts, or the
      previous shift of its date ends after it starts. */
  lemma SortedAdjacent(s: seq<Shift>, k: int)
    requires 0 <= k < |s|
    ensures var r := SortShifts(s);
      OverlapFlagged(r, k) <==>
        || (k + 1 < |r| && r[k + 1].date == r[k].date && EndsAfter(r[k].end, r[k + 1].start))
        || (0 < k && r[k - 1].date == r[k].date && EndsAfter(r[k - 1].end, r[k].start))
  {
    SortedRuns(s);
    AdjacentFlagged(SortShifts(s), DateOf, RunsInto, k);
  }

  /** On shifts in the order `parseShifts` returns, a date whose shifts
      each end no later than the next one of that date starts gets no
      flag: the detection leaves every shift of that date as it was. */
  lemma DisjointDayUnflagged(s: seq<Shift>, d: Date)
    requires var r := SortShifts(s);
      forall k :: 0 <= k && k + 1 < |r| && r[k].date == d && r[k + 1].date == d ==> !RunsInto(r[k], r[k + 1])
    ensures var r := SortShifts(s);
      forall k :: 0 <= k < |r| && r[k].date == d ==> !OverlapFlagged(r, k) && Detected(r)[k] == r[k]
  {
    var r := SortShifts(s);
    forall k | 0 <= k < |r| && r[k].date == d
      ensures !OverlapFlagged(r, k) && Detected(r)[k] == r[k]
    {
      SortedAdjacent(s, k);
      DetectedShift(r, k);
    }
  }

  /** Three shifts on one date: 9:00 AM to 1:00 PM, 12:00 PM to 2:00 PM
      and 3:00 PM to 5:00 PM. */
  predicate ThreeShifts(s: seq<Shift>) {
    && |s| == 3 && s[1].date == s[0].date && s[2].date == s[0].date
    && s[0].start == "9:00 AM" && s[0].end == "1:00 PM"
    && s[1].start == "12:00 PM" && s[1].end == "2:00 PM"
    && s[2].start == "3:00 PM" && s[2].end == "5:00 PM"
  }

  /** Three shifts on one date where the first runs into the second and
      the second ends before the third starts: the first two are flagged,
      the third is not. */
  lemma HitThenMiss(s: seq<Shift>)
    requires |s| == 3 && s[1].date == s[0].date && s[2].date == s[0].date
    requires RunsInto(s[0], s[1]) && !RunsInto(s[1], s[2])
    ensures OverlapFlagged(s, 0) && OverlapFlagged(s, 1) && !OverlapFlagged(s, 2)
  {
    assert forall i :: 0 <= i < |s| ==> DateOf(s[i]) == DateOf(s[0]);
    OneKeyRuns(s, DateOf);
    assert OverlapFlagged(s, 0) by { AdjacentFlagged(s, DateOf, RunsInto, 0); }
    assert OverlapFlagged(s, 1) by { AdjacentFlagged(s, DateOf, RunsInto, 1); }
    assert !OverlapFlagged(s, 2) by { AdjacentFlagged(s, DateOf, RunsInto, 2); }
  }

  /** With no flag set beforehand, the detection sets exactly the first
      two. */
  lemma ThreeShiftsDetected(s: seq<Shift>)
    requires ThreeShifts(s) && !s[0].hasOverlap && !s[1].hasOverlap && !s[2].hasOverlap
    ensures Detected(s)[0].hasOverlap && Detected(s)[1].hasOverlap && !Detected(s)[2].hasOverlap
  {
    OneAfterNoon(s[0].end, s[1].start);
    TwoBeforeThree(s[1].end, s[2].start);
    HitThenMiss(s);
    DetectedShift(s, 0);
    DetectedShift(s, 1);
    DetectedShift(s, 2);
  }

  lemma OneAfterNoon(end: string, start: string)
    requires end == "1:00 PM" && start == "12:00 PM"
    ensures EndsAfter(end, start)
  {
    ParseOnePM();
    ParseNoon();
  }

  lemma TwoBeforeThree(end: string, start: string)
    requires end == "2:00 PM" && start == "3:00 PM"
    ensures !EndsAfter(end, start)
  {
    ParseTwoPM();
    ParseThreePM();
  }

  lemma ParseOnePM()
    ensures ParseTime("1:00 PM") == Some(780)
  {
    ParseOneDigitHour("1:00 PM");
    MarkerAfterSpace("1:00 PM", 4);
  }

  lemma ParseNoon()
    ensures ParseTime("12:00 PM") == Some(720)
  {
    ParseTwoDigitHour("12:00 PM");
    MarkerAfterSpace("12:00 PM", 5);
  }

  lemma ParseTwoPM()
    ensures ParseTime("2:00 PM") == Some(840)
  {
    ParseOneDigitHour("2:00 PM");
    MarkerAfterSpace("2:00 PM", 4);
  }

  lemma ParseThreePM()
    ensures ParseTime("3:00 PM") == Some(900)
  {
    ParseOneDigitHour("3:00 PM");
    MarkerAfterSpace("3:00 PM", 4);
  }
}
