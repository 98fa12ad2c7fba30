/** `parseTime` and `calculateHoursDuration`: the first `H:MM` or `HH:MM` in a
    string, with an optional AM/PM marker in any case, read as minutes after
    midnight, and the length of a shift in minutes.

    `parseTime` returns `new Date()` with `setHours(h, m, 0, 0)` applied; the
    model keeps only `h * 60 + m`, the offset from today's midnight, which is
    all that differences and comparisons of two results depend on. Hours and
    minutes are not range-checked by the source (`setHours` rolls over), so
    the value is unbounded above. */
module TimeOfDay {
  import opened Wrappers
  import opened JsText

  /** What `(AM|PM)?` captured. */
  datatype Marker = NoMarker | AM | PM

  /** The `(\d{1,2}:\d{2})` group: its hour and minute, and where the match
      of the group ends. */
  datatype TimeMatch = TimeMatch(hour: nat, minute: nat, end: nat)

  /** `c` matches the letter `upper` under the `i` flag (no `u` flag: only
      the ASCII pair folds together). */
  predicate SameLetter(c: char, upper: char)
    requires 'A' <= upper <= 'Z'
  {
    c == upper || c as int == upper as int + 32
  }

  /** `\d{1,2}:\d{2}` at position i. `\d{1,2}` is greedy, so two hour digits
      are tried before one. */
  function MatchAt(t: string, i: nat): (r: Option<TimeMatch>)
    ensures r.Some? ==> i < r.value.end <= |t| && IsDigit(t[i])
    ensures r.Some? ==> r.value.hour <= 99 && r.value.minute <= 99
  {
    if i + 5 <= |t| && IsDigit(t[i]) && IsDigit(t[i + 1]) && t[i + 2] == ':'
       && IsDigit(t[i + 3]) && IsDigit(t[i + 4])
    then
      Some(TimeMatch(DigitValue(t[i]) * 10 + DigitValue(t[i + 1]),
                     DigitValue(t[i + 3]) * 10 + DigitValue(t[i + 4]), i + 5))
    else if i + 4 <= |t| && IsDigit(t[i]) && t[i + 1] == ':'
       && IsDigit(t[i + 2]) && IsDigit(t[i + 3])
    then
      Some(TimeMatch(DigitValue(t[i]), DigitValue(t[i + 2]) * 10 + DigitValue(t[i + 3]), i + 4))
    else None
  }

  /** The leftmost position from i on where the time pattern matches. */
  function FirstMatchFrom(t: string, i: nat): (r: Option<nat>)
    ensures r.Some? ==> i <= r.value < |t| && MatchAt(t, r.value).Some?
    ensures r.Some? ==> forall j :: i <= j < r.value ==> MatchAt(t, j).None?
    ensures r.None? ==> forall j :: i <= j < |t| ==> MatchAt(t, j).None?
    decreases |t| - i
  {
    if i >= |t| then None
    else if MatchAt(t, i).Some? then Some(i)
    else FirstMatchFrom(t, i + 1)
  }

  /** The end of the `\s*` run that starts at j. */
  function SkipSpaces(t: string, j: nat): (r: nat)
    requires j <= |t|
    ensures j <= r <= |t|
    ensures forall k :: j <= k < r ==> IsJsSpace(t[k])
    ensures r == |t| || !IsJsSpace(t[r])
    decreases |t| - j
  {
    if j < |t| && IsJsSpace(t[j]) then SkipSpaces(t, j + 1) else j
  }

  /** `\s*(AM|PM)?` from position j. */
  function MarkerAt(t: string, j: nat): Marker
    requires j <= |t|
  {
    var k := SkipSpaces(t, j);
    if k + 2 <= |t| && SameLetter(t[k + 1], 'M') then
      if SameLetter(t[k], 'A') then AM
      else if SameLetter(t[k], 'P') then PM
      else NoMarker
    else NoMarker
  }

  /** The 12-hour adjustment: PM before noon adds 12 hours, 12 AM is hour 0,
      the result counted in minutes after midnight. */
  function ToMinutes(h: nat, m: nat, marker: Marker): nat {
    var h24 :=
      if marker == PM && h < 12 then h + 12
      else if marker == AM && h == 12 then 0
      else h;
    h24 * 60 + m
  }

  /** `parseTime(t)`: None (`null`) for the empty string and for a string
      without a time in it. */
  function ParseTime(t: string): Option<nat> {
    if t == "" then None
    else
      match FirstMatchFrom(t, 0)
      case None => None
      case Some(i) =>
        var mt := MatchAt(t, i).value;
        Some(ToMinutes(mt.hour, mt.minute, MarkerAt(t, mt.end)))
  }

  /** A time written as `String(h) + ':' + pad(m)` and followed by anything
      reads back as h and m with the marker found after it. */
  lemma ParseWrittenTime(h: nat, m: nat, rest: string)
    requires h <= 99 && m <= 99
    ensures var t := NatToString(h) + ":" + Pad(m) + rest;
      ParseTime(t) == Some(ToMinutes(h, m, MarkerAt(t, |NatToString(h)| + 3)))
  {
    var t := NatToString(h) + ":" + Pad(m) + rest;
    WrittenMatch(h, m, rest);
    assert FirstMatchFrom(t, 0) == Some(0);
  }

  lemma WrittenMatch(h: nat, m: nat, rest: string)
    requires h <= 99 && m <= 99
    ensures var t := NatToString(h) + ":" + Pad(m) + rest;
      |NatToString(h)| + 3 <= |t| && MatchAt(t, 0) == Some(TimeMatch(h, m, |NatToString(h)| + 3))
  {
    var hs, ms := NatToString(h), Pad(m);
    PadBelowHundred(m);
    TwoDigitValue(ms);
    DigitsValueOfNatToString(h);
    if h < 10 {
      WrittenMatchOneDigit(hs, ms, rest);
    } else {
      NatToStringBelowHundred(h);
      TwoDigitValue(hs);
      WrittenMatchTwoDigits(hs, ms, rest);
    }
  }

  lemma WrittenMatchOneDigit(hs: string, ms: string, rest: string)
    requires |hs| == 1 && |ms| == 2 && AllDigits(hs) && AllDigits(ms)
    ensures var t := hs + ":" + ms + rest;
      MatchAt(t, 0) == Some(TimeMatch(DigitValue(hs[0]), DigitValue(ms[0]) * 10 + DigitValue(ms[1]), 4))
  {
    var t := hs + ":" + ms + rest;
    assert t[0] == hs[0] && t[1] == ':' && t[2] == ms[0] && t[3] == ms[1];
  }

  lemma WrittenMatchTwoDigits(hs: string, ms: string, rest: string)
    requires |hs| == 2 && |ms| == 2 && AllDigits(hs) && AllDigits(ms)
    ensures var t := hs + ":" + ms + rest;
      MatchAt(t, 0) == Some(TimeMatch(DigitValue(hs[0]) * 10 + DigitValue(hs[1]),
                                      DigitValue(ms[0]) * 10 + DigitValue(ms[1]), 5))
  {
    var t := hs + ":" + ms + rest;
    assert t[0] == hs[0] && t[1] == hs[1] && t[2] == ':' && t[3] == ms[0] && t[4] == ms[1];
  }

  /** The same time after text that holds no digit: the search skips the
      text, so the result is the same. */
  lemma ParseAfterDigitFree(pre: string, t: string)
    requires forall k :: 0 <= k < |pre| ==> !IsDigit(pre[k])
    requires FirstMatchFrom(t, 0).Some?
    ensures ParseTime(pre + t) == ParseTime(t)
  {
    var u := pre + t;
    var i := FirstMatchFrom(t, 0).value;
    var mt := MatchAt(t, i).value;
    var e := |pre| + mt.end;
    var mu := mt.(end := e);
    var marker := MarkerAt(t, mt.end);
    ParseFound(t, i, mt, marker);
    assert FirstMatchFrom(u, 0) == Some(|pre| + i) by { FirstMatchAfterDigitFree(pre, t, i); }
    assert MatchAt(u, |pre| + i) == Some(mu) by { MatchAtShift(pre, t, i); }
    assert MarkerAt(u, e) == marker by { MarkerShift(pre, t, mt.end); }
    ParseFound(u, |pre| + i, mu, marker);
  }

  /** What `parseTime` returns once the leftmost match and its marker are
      known. */
  lemma ParseFound(t: string, i: nat, mt: TimeMatch, marker: Marker)
    requires FirstMatchFrom(t, 0) == Some(i) && MatchAt(t, i) == Some(mt)
    requires mt.end <= |t| && MarkerAt(t, mt.end) == marker
    ensures ParseTime(t) == Some(ToMinutes(mt.hour, mt.minute, marker))
  {
  }

  lemma FirstMatchAfterDigitFree(pre: string, t: string, i: nat)
    requires forall k :: 0 <= k < |pre| ==> !IsDigit(pre[k])
    requires i < |t| && MatchAt(t, i).Some?
    requires forall j :: 0 <= j < i ==> MatchAt(t, j).None?
    ensures FirstMatchFrom(pre + t, 0) == Some(|pre| + i)
  {
    var u := pre + t;
    forall j | 0 <= j < |pre| + i ensures MatchAt(u, j).None? {
      if j < |pre| {
        assert u[j] == pre[j];
      } else {
        MatchAtShift(pre, t, j - |pre|);
      }
    }
    MatchAtShift(pre, t, i);
    FirstMatchFromAfter(u, 0, |pre| + i);
  }

  function ShiftMatch(r: Option<TimeMatch>, n: nat): Option<TimeMatch> {
    match r
    case None => None
    case Some(mt) => Some(mt.(end := mt.end + n))
  }

  lemma MatchAtShift(pre: string, t: string, j: nat)
    ensures MatchAt(pre + t, |pre| + j) == ShiftMatch(MatchAt(t, j), |pre|)
  {
    var u := pre + t;
    var n := |pre|;
    if j + 5 <= |t| {
      assert u[n + j] == t[j] && u[n + j + 1] == t[j + 1] && u[n + j + 2] == t[j + 2];
      assert u[n + j + 3] == t[j + 3] && u[n + j + 4] == t[j + 4];
    } else if j + 4 <= |t| {
      assert u[n + j] == t[j] && u[n + j + 1] == t[j + 1] && u[n + j + 2] == t[j + 2];
      assert u[n + j + 3] == t[j + 3];
    }
  }

  lemma {:induction false} FirstMatchFromAfter(u: string, i: nat, k: nat)
    requires i <= k < |u| && MatchAt(u, k).Some?
    requires forall j :: i <= j < k ==> MatchAt(u, j).None?
    ensures FirstMatchFrom(u, i) == Some(k)
    decreases k - i
  {
    if i < k {
      FirstMatchFromAfter(u, i + 1, k);
    }
  }

  lemma {:induction false} SkipShift(pre: string, t: string, j: nat)
    requires j <= |t|
    ensures SkipSpaces(pre + t, |pre| + j) == |pre| + SkipSpaces(t, j)
    decreases |t| - j
  {
    var u := pre + t;
    if j < |t| {
      assert u[|pre| + j] == t[j];
      if IsJsSpace(t[j]) {
        SkipShift(pre, t, j + 1);
      }
    }
  }

  lemma MarkerShift(pre: string, t: string, j: nat)
    requires j <= |t|
    ensures MarkerAt(pre + t, |pre| + j) == MarkerAt(t, j)
  {
    SkipShift(pre, t, j);
    var k := SkipSpaces(t, j);
    var u := pre + t;
    if k + 2 <= |t| {
      assert u[|pre| + k] == t[k] && u[|pre| + k + 1] == t[k + 1];
    }
  }

  lemma NatToStringBelowHundred(n: nat)
    requires 10 <= n <= 99
    ensures |NatToString(n)| == 2
  {
  }

  lemma PadBelowHundred(m: nat)
    requires m <= 99
    ensures |Pad(m)| == 2
  {
    if m >= 10 {
      NatToStringBelowHundred(m);
    }
  }

  lemma TwoDigitValue(s: string)
    requires AllDigits(s) && |s| == 2
    ensures DigitsValue(s) == DigitValue(s[0]) * 10 + DigitValue(s[1])
  {
    assert s[..1][..0] == [];
    assert s[..|s| - 1] == s[..1];
    assert DigitsValue(s[..1]) == DigitValue(s[0]);
  }

  /** The marker after white space, in any case. */
  lemma MarkerAfterSpaces(gap: string, a: char, b: char, rest: string)
    requires forall k :: 0 <= k < |gap| ==> IsJsSpace(gap[k])
    requires SameLetter(b, 'M') && (SameLetter(a, 'A') || SameLetter(a, 'P'))
    ensures MarkerAt(gap + [a, b] + rest, 0) == if SameLetter(a, 'A') then AM else PM
  {
    var u := gap + [a, b] + rest;
    SpacesThen(u, gap, 0);
    assert u[|gap|] == a && u[|gap| + 1] == b;
  }

  lemma {:induction false} SpacesThen(u: string, gap: string, j: nat)
    requires j <= |gap| < |u| && u[..|gap|] == gap && !IsJsSpace(u[|gap|])
    requires forall k :: 0 <= k < |gap| ==> IsJsSpace(gap[k])
    ensures SkipSpaces(u, j) == |gap|
    decreases |gap| - j
  {
    if j < |gap| {
      assert u[j] == gap[j];
      SpacesThen(u, gap, j + 1);
    }
  }

  /** With no marker the hour is kept; for hours 1..12 with a marker the
      result is the usual 12-hour to 24-hour conversion. */
  lemma ToMinutesTwelveHour(h: nat, m: nat)
    ensures ToMinutes(h, m, NoMarker) == h * 60 + m
    ensures 1 <= h <= 12 ==> ToMinutes(h, m, AM) == (h % 12) * 60 + m
    ensures 1 <= h <= 12 ==> ToMinutes(h, m, PM) == (h % 12 + 12) * 60 + m
  {
  }

  /** A string reads as a time exactly when the pattern matches somewhere
      in it. */
  lemma ParseTimeNone(t: string)
    ensures ParseTime(t).None? <==> forall i :: 0 <= i < |t| ==> MatchAt(t, i).None?
  {
    if t != "" && FirstMatchFrom(t, 0).Some? {
      assert MatchAt(t, FirstMatchFrom(t, 0).value).Some?;
    }
  }

  /** The time read is the one at the leftmost position where the pattern
      matches. */
  lemma ParseAtFirst(t: string, i: nat)
    requires i < |t| && MatchAt(t, i).Some?
    requires forall j :: 0 <= j < i ==> MatchAt(t, j).None?
    ensures var mt := MatchAt(t, i).value;
      ParseTime(t) == Some(ToMinutes(mt.hour, mt.minute, MarkerAt(t, mt.end)))
  {
    FirstMatchFromAfter(t, 0, i);
  }

  /** A string that starts with `HH:MM` reads as that time with the marker
      found after it. */
  lemma ParseTwoDigitHour(t: string)
    requires 5 <= |t| && IsDigit(t[0]) && IsDigit(t[1]) && t[2] == ':'
    requires IsDigit(t[3]) && IsDigit(t[4])
    ensures ParseTime(t) == Some(ToMinutes(DigitValue(t[0]) * 10 + DigitValue(t[1]),
                                           DigitValue(t[3]) * 10 + DigitValue(t[4]), MarkerAt(t, 5)))
  {
    assert MatchAt(t, 0).Some?;
    assert FirstMatchFrom(t, 0) == Some(0);
  }

  /** A string that starts with `H:MM` reads as that time with the marker
      found after it. */
  lemma ParseOneDigitHour(t: string)
    requires 4 <= |t| && IsDigit(t[0]) && t[1] == ':' && IsDigit(t[2]) && IsDigit(t[3])
    ensures ParseTime(t) == Some(ToMinutes(DigitValue(t[0]), DigitValue(t[2]) * 10 + DigitValue(t[3]), MarkerAt(t, 4)))
  {
    assert !IsDigit(t[1]);
    assert MatchAt(t, 0).Some?;
    assert FirstMatchFrom(t, 0) == Some(0);
  }

  /** One space and then "AM" or "PM" is that marker. */
  lemma MarkerAfterSpace(t: string, j: nat)
    requires j + 3 <= |t| && t[j] == ' ' && t[j + 2] == 'M' && (t[j + 1] == 'A' || t[j + 1] == 'P')
    ensures MarkerAt(t, j) == if t[j + 1] == 'A' then AM else PM
  {
    assert IsJsSpace(t[j]) && !IsJsSpace(t[j + 1]);
    assert SkipSpaces(t, j + 1) == j + 1;
  }

  lemma ParseElevenThirtyPM()
    ensures ParseTime("11:30 PM") == Some(1410)
  {
    ParseTwoDigitHour("11:30 PM");
    MarkerAfterSpace("11:30 PM", 5);
  }

  lemma ParseTwelveFifteenAM()
    ensures ParseTime("12:15 AM") == Some(15)
  {
    ParseTwoDigitHour("12:15 AM");
    MarkerAfterSpace("12:15 AM", 5);
  }

  lemma ParseNineOhFive()
    ensures ParseTime("9:05") == Some(545)
  {
    assert "9:05" == NatToString(9) + ":" + Pad(5) + "";
    ParseWrittenTime(9, 5, "");
  }

  lemma ParseNotATime()
    ensures ParseTime("N/A") == None
  {
    assert MatchAt("N/A", 0).None? && MatchAt("N/A", 1).None? && MatchAt("N/A", 2).None?;
  }

  /** `calculateHoursDuration(start, end)` in minutes: 0 unless both sides
      parse, otherwise end - start, one day added when that is negative. */
  function HoursDuration(start: string, end: string): (r: int)
    ensures ParseTime(start).None? || ParseTime(end).None? ==> r == 0
  {
    match (ParseTime(start), ParseTime(end))
    case (Some(s), Some(e)) =>
      var diff := e as int - s as int;
      if diff < 0 then diff + 1440 else diff
    case _ => 0
  }

  /** For two clock times of one day the duration is the forward distance
      from start to end around the clock: within [0, 24h). */
  lemma DurationOfClockTimes(start: string, end: string)
    requires ParseTime(start).Some? && ParseTime(start).value < 1440
    requires ParseTime(end).Some? && ParseTime(end).value < 1440
    ensures HoursDuration(start, end) == (ParseTime(end).value - ParseTime(start).value) % 1440
    ensures 0 <= HoursDuration(start, end) < 1440
  {
  }

  lemma DurationDayShift()
    ensures HoursDuration("9:00", "17:00") == 480
  {
    ParseOClock(9);
    ParseOClock(17);
    assert NatToString(9) + ":00" == "9:00";
    assert NatToString(17) + ":00" == "17:00";
  }

  lemma DurationNightShift()
    ensures HoursDuration("22:00", "6:00") == 480
  {
    ParseOClock(22);
    ParseOClock(6);
    assert NatToString(22) + ":00" == "22:00";
    assert NatToString(6) + ":00" == "6:00";
  }

  lemma DurationMissingEnd()
    ensures HoursDuration("9:00", "N/A") == 0
  {
    ParseNotATime();
  }

  lemma ParseOClock(h: nat)
    requires h <= 23
    ensures ParseTime(NatToString(h) + ":00") == Some(h * 60)
  {
    assert Pad(0) == "00";
    assert NatToString(h) + ":" + Pad(0) + "" == NatToString(h) + ":00";
    ParseWrittenTime(h, 0, "");
  }
}
