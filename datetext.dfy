/** The YYYY-MM-DD text the source keeps in every shift's `date` field:
    `formatLocalDate` writes it and `parseYMDAsLocal` reads it back. */
module DateText {
  import opened Wrappers
  import opened JsText
  import opened Calendar

  /** `pad(n)`: `String(n).padStart(2, '0')`. */
  function PadTwo(n: nat): (s: string)
    ensures AllDigits(s) && |s| >= 2 && DigitsValue(s) == n
  {
    Pad(n)
  }

  /** `formatLocalDate(d)`: the year as `String` writes it (no padding), then
      the month and the day padded to two digits. */
  function FormatLocalDate(d: Date): string {
    Join([IntToString(d.year), PadTwo(d.month), PadTwo(d.day)], '-')
  }

  /** `parseYMDAsLocal(ymd)`: None for the empty string (`!ymd`), otherwise
      the pieces around '-' read with `Number` and handed to
      `new Date(y, m - 1, day)`. A missing piece or a piece `Number` cannot
      read gives an invalid Date, also None here. */
  function ParseYMDAsLocal(ymd: string): Option<Date> {
    if ymd == "" then None else DateOfPieces(PiecesOf(Split(ymd, '-')))
  }

  /** `new Date(y, m - 1, day)` of the numbers read, if all were read. */
  function DateOfPieces(read: Option<(int, int, int)>): Option<Date> {
    match read
    case None => None
    case Some(p) => Some(NewDate(p.0, p.1 - 1, p.2))
  }

  /** The first three pieces read with `Number`, if there are three and
      all of them read as numbers. */
  function PiecesOf(parts: seq<string>): Option<(int, int, int)> {
    if |parts| < 3 then None
    else
      var y, m, day := JsNumber(parts[0]), JsNumber(parts[1]), JsNumber(parts[2]);
      if y.Some? && m.Some? && day.Some? then Some((y.value, m.value, day.value))
      else None
  }

  lemma FormatIsJoin(d: Date)
    requires d.year >= 0
    ensures FormatLocalDate(d) == Join([NatToString(d.year), PadTwo(d.month), PadTwo(d.day)], '-')
    ensures forall p :: p in [NatToString(d.year), PadTwo(d.month), PadTwo(d.day)] ==> AllDigits(p)
  {
    var parts := [NatToString(d.year), PadTwo(d.month), PadTwo(d.day)];
    assert parts[1..][1..] == [PadTwo(d.day)];
    assert Join(parts[1..], '-') == PadTwo(d.month) + "-" + PadTwo(d.day);
  }

  lemma DigitsHaveNoDash(p: string)
    requires AllDigits(p)
    ensures '-' !in p
  {
  }

  /** Reading back a formatted date gives the date, for every year from 100
      on (years 0..99 are taken as 1900..1999 by `new Date`). */
  lemma ParseFormatRoundTrip(d: Date)
    requires d.year >= 100
    ensures ParseYMDAsLocal(FormatLocalDate(d)) == Some(d)
  {
    ReadFormatted(d.year, d.month, d.day);
    MakeDayOfDate(d);
  }

  lemma SplitFormatted(d: Date)
    requires d.year >= 0
    ensures Split(FormatLocalDate(d), '-') == [NatToString(d.year), PadTwo(d.month), PadTwo(d.day)]
  {
    var parts := [NatToString(d.year), PadTwo(d.month), PadTwo(d.day)];
    FormatIsJoin(d);
    DigitsHaveNoDash(parts[0]);
    DigitsHaveNoDash(parts[1]);
    DigitsHaveNoDash(parts[2]);
    SplitJoin(parts, '-');
  }

  /** Three pieces that `Number` reads as y, m and day. */
  lemma PiecesRead(parts: seq<string>, y: int, m: int, day: int)
    requires |parts| == 3
    requires JsNumber(parts[0]) == Some(y) && JsNumber(parts[1]) == Some(m)
    requires JsNumber(parts[2]) == Some(day)
    ensures PiecesOf(parts) == Some((y, m, day))
  {
  }

  /** A non-empty text goes to `new Date` with the numbers its pieces read as. */
  lemma ParseOfPieces(s: string, y: int, m: int, day: int)
    requires s != "" && PiecesOf(Split(s, '-')) == Some((y, m, day))
    ensures ParseYMDAsLocal(s) == DateOfPieces(Some((y, m, day)))
  {
  }

  lemma DateOfRead(y: int, m: int, day: int)
    ensures DateOfPieces(Some((y, m, day))) == Some(NewDate(y, m - 1, day))
  {
  }

  lemma SplitEmpty(sep: char)
    ensures Split("", sep) == [""]
  {
  }

  /** The three pieces of a formatted date read back as year, month and day. */
  lemma PiecesOfFormatted(d: Date)
    requires d.year >= 0
    ensures var parts := Split(FormatLocalDate(d), '-');
      |parts| == 3 && JsNumber(parts[0]) == Some(d.year)
      && JsNumber(parts[1]) == Some(d.month) && JsNumber(parts[2]) == Some(d.day)
  {
    var parts := [NatToString(d.year), PadTwo(d.month), PadTwo(d.day)];
    SplitFormatted(d);
    JsNumberOfDigits(parts[0]);
    JsNumberOfDigits(parts[1]);
    JsNumberOfDigits(parts[2]);
    DigitsValueOfNatToString(d.year);
  }

  /** A formatted date reads back as `new Date(year, month - 1, day)`. */
  lemma ReadFormatted(y: int, m: int, day: int)
    requires y >= 0 && IsValid(CalendarDate(y, m, day))
    ensures ParseYMDAsLocal(FormatLocalDate(CalendarDate(y, m, day))) == Some(NewDate(y, m - 1, day))
  {
    var d: Date := CalendarDate(y, m, day);
    var s := FormatLocalDate(d);
    PiecesOfFormatted(d);
    PiecesRead(Split(s, '-'), y, m, day);
    SplitEmpty('-');
    assert s != "";
    ParseOfPieces(s, y, m, day);
    DateOfRead(y, m, day);
  }

  /** A year from 0 to 99 does not survive the round trip: it comes back
      as 1900 + year. */
  lemma TwoDigitYearComesBackShifted(y: int, m: int, day: int)
    requires 0 <= y <= 99 && IsValid(CalendarDate(y, m, day))
    ensures ParseYMDAsLocal(FormatLocalDate(CalendarDate(y, m, day))) == Some(MakeDay(1900 + y, m - 1, day))
  {
    ReadFormatted(y, m, day);
    assert NewDate(y, m - 1, day) == MakeDay(1900 + y, m - 1, day);
  }

  /** ... and so lands in the twentieth century or later. */
  lemma TwoDigitYearComesBackLater(y: int, m: int, day: int)
    requires 0 <= y <= 99 && IsValid(CalendarDate(y, m, day))
    ensures var r := ParseYMDAsLocal(FormatLocalDate(CalendarDate(y, m, day)));
      r.Some? && r.value.year >= 1900
  {
    TwoDigitYearComesBackShifted(y, m, day);
    MakeDayNotEarlier(1900 + y, m - 1, day);
  }

  /** Different dates from year 100 on are written differently, so grouping
      shifts by their text groups them by date. */
  lemma FormatLocalDateInjective(a: Date, b: Date)
    requires a.year >= 100 && b.year >= 100
    requires FormatLocalDate(a) == FormatLocalDate(b)
    ensures a == b
  {
    ParseFormatRoundTrip(a);
    ParseFormatRoundTrip(b);
  }
}
