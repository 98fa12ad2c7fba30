/** `exportToCsv`: the text written to `my_schedule.csv`, a header line and
    then one row of seven comma-separated fields per shift, in list order.
    `toFixed(2)` is the parameter `fixed2`; the URI encoding and the
    download link are left out. */
module CsvExport {
  import opened JsText
  import opened Calendar
  import opened Records
  import opened DateText

  /** The names of the seven columns. */
  const Columns: seq<string> := ["Date", "Job", "Start", "End", "Paid Hours", "Gross Pay", "Net Pay"]

  /** The start of `csvContent`: the data-URI prefix and the header line. */
  const Heading: string := DataUri + Join(Columns, ',')

  const DataUri: string := "data:text/csv;charset=utf-8,"

  /** The seven fields of a shift's row; the job is wrapped in quotes. */
  function Fields(x: Shift, fixed2: real -> string): seq<string> {
    [FormatLocalDate(x.date), "\"" + x.job + "\"", x.start, x.end,
     fixed2(x.paidMinutes as real / 60.0), fixed2(x.grossPay), fixed2(x.netPay)]
  }

  /** `row`: the fields joined with commas. */
  function Row(x: Shift, fixed2: real -> string): string {
    Join(Fields(x, fixed2), ',')
  }

  /** The row of each shift, as a function. */
  function RowOf(fixed2: real -> string): Shift -> string {
    x => Row(x, fixed2)
  }

  /** The line of each element, each followed by a line break. */
  function Lines<T>(s: seq<T>, line: T -> string): string {
    if s == [] then "" else line(s[0]) + "\n" + Lines(s[1..], line)
  }

  /** `csvContent` after the `forEach` that appends `row + "\n"` for every
      shift. */
  method ExportCsv(shifts: seq<Shift>, fixed2: real -> string) returns (csvContent: string)
    ensures csvContent == Heading + "\n" + Lines(shifts, RowOf(fixed2))
  {
    csvContent := AppendLines(Heading + "\n", shifts, RowOf(fixed2));
  }

  /** Appending the line of every element, in order, to `start`. */
  method AppendLines<T>(start: string, s: seq<T>, line: T -> string) returns (content: string)
    ensures content == start + Lines(s, line)
  {
    content := start;
    for i := 0 to |s|
      invariant content == start + Lines(s[..i], line)
    {
      LinesSnoc(s[..i], s[i], line);
      assert s[..i + 1] == s[..i] + [s[i]];
      content := content + line(s[i]) + "\n";
    }
    assert s[..|s|] == s;
  }

  lemma {:induction false} LinesSnoc<T>(s: seq<T>, x: T, line: T -> string)
    ensures Lines(s + [x], line) == Lines(s, line) + line(x) + "\n"
  {
    if s != [] {
      assert (s + [x])[1..] == s[1..] + [x];
      LinesSnoc(s[1..], x, line);
    }
  }

  /** A character of a join is the separator or a character of a piece. */
  lemma {:induction false} JoinChars(parts: seq<string>, sep: char, c: char)
    requires |parts| >= 1 && c in Join(parts, sep)
    ensures c == sep || exists p :: p in parts && c in p
  {
    if |parts| > 1 {
      if c !in parts[0] && c != sep {
        JoinChars(parts[1..], sep, c);
        var p :| p in parts[1..] && c in p;
        assert p in parts;
      }
    }
  }

  /** The date text is digits and dashes. */
  lemma DateTextChars(d: Date)
    ensures forall c :: c in FormatLocalDate(d) ==> IsDigit(c) || c == '-'
  {
    var parts := [IntToString(d.year), PadTwo(d.month), PadTwo(d.day)];
    forall c | c in FormatLocalDate(d) ensures IsDigit(c) || c == '-' {
      JoinChars(parts, '-', c);
      if c != '-' {
        var p :| p in parts && c in p;
        if p == IntToString(d.year) && d.year < 0 {
          assert p == "-" + NatToString(-d.year);
        }
      }
    }
  }

  /** Splitting a row at its commas gives back its seven fields, the job
      in quotes, when no field holds a comma of its own. */
  lemma RowFields(x: Shift, fixed2: real -> string)
    requires ',' !in x.job && ',' !in x.start && ',' !in x.end
    requires forall v :: ',' !in fixed2(v)
    ensures Split(Row(x, fixed2), ',') == Fields(x, fixed2)
    ensures |Split(Row(x, fixed2), ',')| == 7 && Split(Row(x, fixed2), ',')[1] == "\"" + x.job + "\""
  {
    DateTextChars(x.date);
    SplitJoin(Fields(x, fixed2), ',');
  }

  /** Split at its line breaks, the text holds one line per element, in
      order, and the empty text after the last break, when no line holds a
      line break of its own. */
  lemma {:induction false} LinesSplit<T>(s: seq<T>, line: T -> string)
    requires forall x :: x in s ==> '\n' !in line(x)
    ensures var lines := Split(Lines(s, line), '\n');
      |lines| == |s| + 1 && lines[|s|] == ""
      && forall i :: 0 <= i < |s| ==> lines[i] == line(s[i])
  {
    if s != [] {
      assert forall x :: x in s[1..] ==> x in s;
      LinesSplit(s[1..], line);
      SplitPrefix(line(s[0]), Lines(s[1..], line), '\n');
    }
  }

  /** A first line, then the lines of the elements: split at its line
      breaks, the text gives the first line and then one line per element,
      in order. */
  lemma HeadedLines<T>(head: string, s: seq<T>, line: T -> string)
    requires '\n' !in head && forall x :: x in s ==> '\n' !in line(x)
    ensures var lines := Split(head + "\n" + Lines(s, line), '\n');
      |lines| == |s| + 2 && lines[0] == head
      && forall i :: 0 <= i < |s| ==> lines[i + 1] == line(s[i])
  {
    LinesSplit(s, line);
    SplitPrefix(head, Lines(s, line), '\n');
  }

  /** The exported text has the heading line, then one line per shift in
      list order, when no row holds a line break. */
  lemma ExportLines(shifts: seq<Shift>, fixed2: real -> string)
    requires forall x :: x in shifts ==> '\n' !in Row(x, fixed2)
    ensures var lines := Split(Heading + "\n" + Lines(shifts, RowOf(fixed2)), '\n');
      |lines| == |shifts| + 2 && lines[0] == Heading
      && forall i :: 0 <= i < |shifts| ==> lines[i + 1] == Row(shifts[i], fixed2)
  {
    HeadingOneLine();
    HeadedLines(Heading, shifts, RowOf(fixed2));
  }

  /** The header line holds no line break, and its text after the
      data-URI prefix splits at its commas into the seven column names. */
  lemma HeadingOneLine()
    ensures '\n' !in Heading
    ensures Split(Heading[|DataUri|..], ',') == Columns
  {
    PlainColumns();
    JoinWithout(Columns, ',', '\n');
    UriOneLine();
    assert Heading[|DataUri|..] == Join(Columns, ',');
    SplitJoin(Columns, ',');
  }

  lemma UriOneLine()
    ensures '\n' !in DataUri
  {
  }

  lemma PlainColumns()
    ensures forall p :: p in Columns ==> '\n' !in p && ',' !in p
  {
  }

  /** A join holds a character other than the separator only if a piece does. */
  lemma JoinWithout(parts: seq<string>, sep: char, c: char)
    requires |parts| >= 1 && c != sep && forall p :: p in parts ==> c !in p
    ensures c !in Join(parts, sep)
  {
    if c in Join(parts, sep) {
      JoinChars(parts, sep, c);
    }
  }
}
