/** The weekly fold of `renderAnalytics`: one entry per week label, in the
    order the weeks first appear, each the gross of that week's shifts; and
    the two-week window of the paycheck estimate. Written over any element
    type with its week and its gross as parameters, so that the week
    arithmetic of the calendar stays out of these proofs. */
module Weekly {
  import opened Wrappers
  import opened Sums

  /** One bar of the earnings chart: `Week N` and its gross. */
  datatype WeekGross = WeekGross(week: int, gross: real)

  /** The position of week w's entry, if there is one. */
  function FindWeek(acc: seq<WeekGross>, w: int): (r: Option<nat>)
    ensures r.Some? ==> r.value < |acc| && acc[r.value].week == w
    ensures r.None? ==> forall i :: 0 <= i < |acc| ==> acc[i].week != w
  {
    if acc == [] then None
    else if acc[0].week == w then Some(0)
    else match FindWeek(acc[1..], w)
      case None => None
      case Some(i) => Some(i + 1)
  }

  /** `weeklyData[week] = (weeklyData[week] || 0) + grossPay`: add to the
      week's entry, or append an entry for a label not seen before. */
  function AddGross(acc: seq<WeekGross>, week: int, gross: real): seq<WeekGross> {
    match FindWeek(acc, week)
    case Some(i) => acc[i := WeekGross(week, acc[i].gross + gross)]
    case None => acc + [WeekGross(week, gross)]
  }

  /** `weeklyData` after the `forEach`, in insertion order. */
  function WeeklyGross<T>(s: seq<T>, week: T -> int, gross: T -> real): seq<WeekGross> {
    if s == [] then []
    else
      var x := s[|s| - 1];
      AddGross(WeeklyGross(s[..|s| - 1], week, gross), week(x), gross(x))
  }

  /** The elements of week w or of the week before it, in order. */
  function InWindow<T>(s: seq<T>, week: T -> int, w: int): seq<T> {
    if s == [] then []
    else
      var x := s[|s| - 1];
      InWindow(s[..|s| - 1], week, w) + (if week(x) == w || week(x) == w - 1 then [x] else [])
  }

  predicate HasWeek(acc: seq<WeekGross>, w: int) {
    exists i :: 0 <= i < |acc| && acc[i].week == w
  }

  /** The entries have distinct weeks. */
  predicate DistinctWeeks(acc: seq<WeekGross>) {
    forall i, j :: 0 <= i < j < |acc| ==> acc[i].week != acc[j].week
  }

  function BarGross(e: WeekGross): real {
    e.gross
  }

  /** Every week has one entry at most. */
  lemma {:induction false} WeeklyDistinct<T>(s: seq<T>, week: T -> int, gross: T -> real)
    ensures DistinctWeeks(WeeklyGross(s, week, gross))
  {
    if s != [] {
      WeeklyDistinct(s[..|s| - 1], week, gross);
    }
  }

  /** A week has an entry exactly when one of the elements falls in it. */
  lemma {:induction false} WeeklyCovers<T>(s: seq<T>, week: T -> int, gross: T -> real)
    ensures forall w :: HasWeek(WeeklyGross(s, week, gross), w) <==> exists x :: x in s && week(x) == w
  {
    if s != [] {
      var n := |s| - 1;
      var p, x := s[..n], s[n];
      WeeklyCovers(p, week, gross);
      var acc := WeeklyGross(p, week, gross);
      var r := WeeklyGross(s, week, gross);
      assert s == p + [x];
      forall w ensures HasWeek(r, w) <==> exists y :: y in s && week(y) == w {
        AddGrossHas(acc, week(x), gross(x), w);
        if HasWeek(acc, w) {
          var y :| y in p && week(y) == w;
          assert y in s;
        }
      }
    }
  }

  lemma AddGrossHas(acc: seq<WeekGross>, week: int, gross: real, w: int)
    ensures HasWeek(AddGross(acc, week, gross), w) <==> HasWeek(acc, w) || w == week
  {
    var r := AddGross(acc, week, gross);
    if HasWeek(r, w) {
      var i :| 0 <= i < |r| && r[i].week == w;
      if i < |acc| && w != week {
        assert acc[i].week == w;
      }
    }
    if HasWeek(acc, w) {
      var i :| 0 <= i < |acc| && acc[i].week == w;
      assert r[i].week == w;
    }
    if w == week {
      match FindWeek(acc, week)
      case Some(k) => assert r[k].week == w;
      case None => assert r[|acc|].week == w;
    }
  }

  /** Entries are never moved: the weeks of a prefix keep their positions,
      so the entries stand in the order their weeks first appear. */
  lemma {:induction false} WeeklyKeepsOrder<T>(p: seq<T>, q: seq<T>, week: T -> int, gross: T -> real)
    ensures var before, after := WeeklyGross(p, week, gross), WeeklyGross(p + q, week, gross);
      |before| <= |after| && forall i :: 0 <= i < |before| ==> after[i].week == before[i].week
  {
    if q == [] {
      assert p + q == p;
    } else {
      var n := |q| - 1;
      assert (p + q)[..|p + q| - 1] == p + q[..n];
      WeeklyKeepsOrder(p, q[..n], week, gross);
    }
  }

  /** Each entry is the gross of its week's elements. */
  lemma {:induction false} WeeklyValues<T(!new)>(s: seq<T>, week: T -> int, gross: T -> real)
    ensures forall e :: e in WeeklyGross(s, week, gross) ==> e.gross == Sum(Keyed(s, week, e.week), gross)
  {
    if s != [] {
      var n := |s| - 1;
      var p, x := s[..n], s[n];
      assert s == p + [x];
      WeeklyValues(p, week, gross);
      WeeklyDistinct(p, week, gross);
      WeeklyCovers(p, week, gross);
      var acc := WeeklyGross(p, week, gross);
      var r := WeeklyGross(s, week, gross);
      forall e | e in r ensures e.gross == Sum(Keyed(s, week, e.week), gross) {
        var i :| 0 <= i < |r| && r[i] == e;
        AddGrossValue(acc, p, x, week, gross, i);
      }
    }
  }

  /** Adding one more element keeps each entry the gross of its week. */
  lemma AddGrossValue<T(!new)>(acc: seq<WeekGross>, p: seq<T>, x: T, week: T -> int, gross: T -> real, i: int)
    requires forall e :: e in acc ==> e.gross == Sum(Keyed(p, week, e.week), gross)
    requires forall w :: HasWeek(acc, w) <==> exists y :: y in p && week(y) == w
    requires DistinctWeeks(acc)
    requires 0 <= i < |AddGross(acc, week(x), gross(x))|
    ensures var r := AddGross(acc, week(x), gross(x));
      r[i].gross == Sum(Keyed(p + [x], week, r[i].week), gross)
  {
    match FindWeek(acc, week(x))
    case Some(k) => AddToWeek(acc, p, x, week, gross, i, k);
    case None => AddNewWeek(acc, p, x, week, gross, i);
  }

  /** The element's week has entry k. */
  lemma AddToWeek<T(!new)>(acc: seq<WeekGross>, p: seq<T>, x: T, week: T -> int, gross: T -> real, i: int, k: nat)
    requires forall e :: e in acc ==> e.gross == Sum(Keyed(p, week, e.week), gross)
    requires DistinctWeeks(acc)
    requires FindWeek(acc, week(x)) == Some(k) && 0 <= i < |acc|
    ensures var r := acc[k := WeekGross(week(x), acc[k].gross + gross(x))];
      r[i].gross == Sum(Keyed(p + [x], week, r[i].week), gross)
  {
    assert acc[i] in acc;
    KeyedStep(p, x, week, gross, acc[i].week);
    if i != k {
      assert acc[i].week != acc[k].week;
    }
  }

  /** The element's week has no entry yet. */
  lemma AddNewWeek<T(!new)>(acc: seq<WeekGross>, p: seq<T>, x: T, week: T -> int, gross: T -> real, i: int)
    requires forall e :: e in acc ==> e.gross == Sum(Keyed(p, week, e.week), gross)
    requires forall w :: HasWeek(acc, w) <==> exists y :: y in p && week(y) == w
    requires FindWeek(acc, week(x)) == None && 0 <= i <= |acc|
    ensures var r := acc + [WeekGross(week(x), gross(x))];
      r[i].gross == Sum(Keyed(p + [x], week, r[i].week), gross)
  {
    if i == |acc| {
      assert !HasWeek(acc, week(x));
      NoneKeyed(p, week, week(x));
      KeyedStep(p, x, week, gross, week(x));
    } else {
      assert acc[i] in acc;
      KeyedStep(p, x, week, gross, acc[i].week);
    }
  }

  /** The entries add up to the gross of all the elements. */
  lemma {:induction false} WeeklyTotal<T>(s: seq<T>, week: T -> int, gross: T -> real)
    ensures Sum(WeeklyGross(s, week, gross), BarGross) == Sum(s, gross)
  {
    if s != [] {
      var n := |s| - 1;
      var x := s[n];
      WeeklyTotal(s[..n], week, gross);
      var acc := WeeklyGross(s[..n], week, gross);
      match FindWeek(acc, week(x))
      case Some(i) =>
        SumUpdate(acc, i, WeekGross(week(x), acc[i].gross + gross(x)), BarGross);
      case None =>
        SumAppend(acc, [WeekGross(week(x), gross(x))], BarGross);
        SumSingle(WeekGross(week(x), gross(x)), BarGross);
    }
  }

  /** The window holds the elements of the two weeks. */
  lemma {:induction false} InWindowMembers<T(!new)>(s: seq<T>, week: T -> int, w: int)
    ensures forall x :: x in InWindow(s, week, w) <==> x in s && (week(x) == w || week(x) == w - 1)
  {
    if s != [] {
      var n := |s| - 1;
      InWindowMembers(s[..n], week, w);
      assert s == s[..n] + [s[n]];
    }
  }

  /** The window's gross is the gross of week w plus the gross of the week
      before. */
  lemma {:induction false} WindowSplits<T>(s: seq<T>, week: T -> int, gross: T -> real, w: int)
    ensures Sum(InWindow(s, week, w), gross) == Sum(Keyed(s, week, w), gross) + Sum(Keyed(s, week, w - 1), gross)
  {
    if s != [] {
      var n := |s| - 1;
      var x := s[n];
      WindowSplits(s[..n], week, gross, w);
      SumAppend(InWindow(s[..n], week, w), if week(x) == w || week(x) == w - 1 then [x] else [], gross);
      SumAppend(Keyed(s[..n], week, w), if week(x) == w then [x] else [], gross);
      SumAppend(Keyed(s[..n], week, w - 1), if week(x) == w - 1 then [x] else [], gross);
      SumSingle(x, gross);
    }
  }

  /** When one measure is a fixed share of another on every element, the
      same holds for the window's sums. */
  lemma WindowScaled<T(!new)>(s: seq<T>, week: T -> int, w: int, f: T -> real, g: T -> real, m: real)
    requires forall x :: x in s ==> f(x) == g(x) * m
    ensures Sum(InWindow(s, week, w), f) == Sum(InWindow(s, week, w), g) * m
  {
    InWindowMembers(s, week, w);
    forall x | x in InWindow(s, week, w) ensures f(x) == g(x) * m {
      assert x in s;
    }
    SumScaled(InWindow(s, week, w), f, g, m);
  }

  /** The paycheck estimate over weeks `lastWeek` and `currentWeek`. */
  datatype Paycheck = Paycheck(lastWeek: int, currentWeek: int, grossPay: real, netPay: real)

  /** The estimate for the weeks `currentWeek - 1` and `currentWeek`: the
      gross of the elements of those two weeks, and that gross times the
      take-home multiplier. `lastWeek` does not wrap into the previous
      year. */
  function Estimate<T>(s: seq<T>, week: T -> int, gross: T -> real, currentWeek: int, multiplier: real): Paycheck {
    var total := Sum(InWindow(s, week, currentWeek), gross);
    Paycheck(currentWeek - 1, currentWeek, total, total * multiplier)
  }

  /** The estimate's gross is the gross of the current week plus the gross
      of the week before. */
  lemma EstimateGross<T>(s: seq<T>, week: T -> int, gross: T -> real, currentWeek: int, multiplier: real)
    ensures var p := Estimate(s, week, gross, currentWeek, multiplier);
      && p.lastWeek == currentWeek - 1 && p.currentWeek == currentWeek
      && p.grossPay == Sum(Keyed(s, week, currentWeek), gross) + Sum(Keyed(s, week, currentWeek - 1), gross)
  {
    WindowSplits(s, week, gross, currentWeek);
  }

  /** When every element's net is its gross times the multiplier, the
      estimate's net is the net of the elements of the two weeks. */
  lemma EstimateNet<T(!new)>(s: seq<T>, week: T -> int, gross: T -> real, net: T -> real, currentWeek: int, multiplier: real)
    requires forall x :: x in s ==> net(x) == gross(x) * multiplier
    ensures Estimate(s, week, gross, currentWeek, multiplier).netPay == Sum(InWindow(s, week, currentWeek), net)
  {
    WindowScaled(s, week, currentWeek, net, gross, multiplier);
  }

  /** When no element falls in a week before week 1, the estimate in week 1
      is the gross of week 1 alone. */
  lemma EstimateInWeekOne<T(!new)>(s: seq<T>, week: T -> int, gross: T -> real, multiplier: real)
    requires forall x :: x in s ==> week(x) >= 1
    ensures Estimate(s, week, gross, 1, multiplier).grossPay == Sum(Keyed(s, week, 1), gross)
  {
    WindowSplits(s, week, gross, 1);
    NoneKeyed(s, week, 0);
  }
}
