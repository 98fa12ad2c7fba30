/** The order `parseShifts` leaves its result in:
    `parsed.sort((a, b) => new Date(a.date) - new Date(b.date) || parseTime(a.start) - parseTime(b.start))`.

    `Array.prototype.sort` is stable, and this comparator is a consistent
    lexicographic comparison of (date, start), so the sorted array is the
    one insertion sort produces: every shift after all earlier shifts whose
    key is not greater. `SortShifts` is that order as a function and
    `SortInPlace` the in-place algorithm proved equal to it. */
module ShiftOrder {
  import opened Wrappers
  import opened Calendar
  import opened TimeOfDay
  import opened Records
  import opened Sorting

  /** `parseTime(s.start)` as the subtraction sees it: null coerces to 0,
      below every Date (whose time value is positive), so it is ranked
      below every time of day. */
  function StartKey(s: Shift): (k: int)
    ensures k >= -1
    ensures k == -1 <==> ParseTime(s.start).None?
  {
    match ParseTime(s.start)
    case None => -1
    case Some(v) => v
  }

  /** The sign of the comparator: the date difference, or when it is 0
      (falsy) the start difference. */
  function Compare(a: Shift, b: Shift): int {
    var days := DayNumber(a.date) - DayNumber(b.date);
    if days != 0 then days else StartKey(a) - StartKey(b)
  }

  /** `a` sorts strictly before `b`. */
  predicate Precedes(a: Shift, b: Shift) {
    Compare(a, b) < 0
  }

  /** The sort key of a shift. */
  function Key(s: Shift): (int, int) {
    (DayNumber(s.date), StartKey(s))
  }

  /** The comparator is the lexicographic order on (date, start): negative
      exactly when the key is smaller, zero exactly when the keys tie. */
  lemma CompareIsLexicographic(a: Shift, b: Shift)
    ensures Precedes(a, b) <==> KeyLess(Key(a), Key(b))
    ensures Compare(a, b) == 0 <==> a.date == b.date && StartKey(a) == StartKey(b)
    ensures Compare(a, b) < 0 <==> Compare(b, a) > 0
  {
    if DayNumber(a.date) == DayNumber(b.date) {
      DayNumberInjective(a.date, b.date);
    }
  }

  /** The order `parseShifts` returns. */
  function SortShifts(s: seq<Shift>): (r: seq<Shift>)
    ensures |r| == |s|
  {
    SortBy(s, Key)
  }

  /** The result is ordered by (date, start), a permutation of the input,
      and keeps shifts with equal keys in their input order. */
  lemma SortShiftsSpec(s: seq<Shift>)
    ensures forall i, j :: 0 <= i < j < |s| ==> !Precedes(SortShifts(s)[j], SortShifts(s)[i])
    ensures multiset(SortShifts(s)) == multiset(s)
    ensures forall k :: WithKey(SortShifts(s), Key, k) == WithKey(s, Key, k)
  {
    var r := SortShifts(s);
    SortByOrdered(s, Key);
    forall i, j | 0 <= i < j < |s| ensures !Precedes(r[j], r[i]) {
      OrderedPairwise(r, Key, i, j);
      CompareIsLexicographic(r[j], r[i]);
    }
    SortByPermutes(s, Key);
    forall k { SortByStable(s, Key, k); }
  }

  /** On one date, a shift whose start does not parse comes before every
      shift whose start does. */
  lemma UnparseableStartsFirst(s: seq<Shift>, i: int, j: int)
    requires 0 <= i < j < |s|
    requires var r := SortShifts(s); r[i].date == r[j].date && ParseTime(r[i].start).Some?
    ensures ParseTime(SortShifts(s)[j].start).Some?
  {
    var r := SortShifts(s);
    SortByOrdered(s, Key);
    OrderedPairwise(r, Key, i, j);
  }

}
