/** The date rule behind monthly series: the n-th (or last) given weekday of
    a month (events/utils.py). */
module WeekdayRule {
  import opened Options
  import opened Calendar

  /** The week-of-month code that selects the last matching day. */
  const LastWeek := 5

  /** The days of month (y, m), from day `from` on, whose weekday is `wd`, in
      calendar order. Of the dates `itermonthdates` yields, only those inside
      the month survive the comprehension's filter, so these are its result. */
  function MatchingDaysFrom(y: int, m: int, wd: int, from: int): (r: seq<Date>)
    requires 1 <= y && 1 <= m <= 12 && 1 <= from
    ensures forall d | d in r :: d.Valid() && d.year == y && d.month == m && from <= d.day && Weekday(d) == wd
    decreases DaysInMonth(y, m) + 1 - from
  {
    if from > DaysInMonth(y, m) then []
    else
      (if Weekday(Date(y, m, from)) == wd then [Date(y, m, from)] else [])
      + MatchingDaysFrom(y, m, wd, from + 1)
  }

  function MatchingDays(y: int, m: int, wd: int): seq<Date>
    requires 1 <= y && 1 <= m <= 12
  {
    MatchingDaysFrom(y, m, wd, 1)
  }

  /** `nth_weekday_of_month`: the n-th day of month (y, m) with weekday `wd`
      for n in 1..4, the last one for n = 5, and None when there is no such
      day. The week-of-month field is non-negative; n = 0 reaches Python's
      `days[-1]`, the last match, and n > 5 exceeds every month. */
  function NthWeekdayOfMonth(y: int, m: int, wd: int, n: nat): (r: Option<Date>)
    requires 1 <= y && 1 <= m <= 12
    ensures r.Some? ==> r.value.Valid() && r.value.year == y && r.value.month == m
    ensures r.Some? ==> Weekday(r.value) == wd
  {
    var days := MatchingDays(y, m, wd);
    if |days| == 0 then None
    else if n == LastWeek then Some(days[|days| - 1])
    else if |days| >= n then (if n == 0 then Some(days[|days| - 1]) else Some(days[n - 1]))
    else None
  }

  /** Weekday of day j of month (y, m), by counting on from the first. */
  function DayWeekday(y: int, m: int, j: int): int
    requires 1 <= y && 1 <= m <= 12
  {
    (Weekday(Date(y, m, 1)) + (j - 1)) % 7
  }

  /** The first day j' >= j of the month whose weekday is `wd`. */
  function FirstMatchFrom(y: int, m: int, wd: int, j: int): int
    requires 1 <= y && 1 <= m <= 12
  {
    j + (wd - DayWeekday(y, m, j)) % 7
  }

  function MatchCount(y: int, m: int, f: int): int
    requires 1 <= m <= 12
  {
    if f > DaysInMonth(y, m) then 0 else (DaysInMonth(y, m) - f) / 7 + 1
  }

  /** Moving the search start one day on keeps the first match, unless the
      start day itself matched; then the next match is a week later. */
  lemma FirstMatchStep(y: int, m: int, wd: int, from: int)
    requires 1 <= y && 1 <= m <= 12 && 0 <= wd < 7
    ensures DayWeekday(y, m, from) == wd ==>
              FirstMatchFrom(y, m, wd, from) == from && FirstMatchFrom(y, m, wd, from + 1) == from + 7
    ensures DayWeekday(y, m, from) != wd ==>
              FirstMatchFrom(y, m, wd, from + 1) == FirstMatchFrom(y, m, wd, from)
  {
    var a := DayWeekday(y, m, from);
    ModShift(Weekday(Date(y, m, 1)) + (from - 1), 1);
    assert DayWeekday(y, m, from + 1) == (a + 1) % 7;
    if a == 6 {
      assert DayWeekday(y, m, from + 1) == 0;
    } else {
      assert DayWeekday(y, m, from + 1) == a + 1;
    }
  }

  /** `r` is the run of days f, f+7, f+14, ... of month (y, m) that fit in
      the month. */
  ghost predicate WeeklyRun(r: seq<Date>, y: int, m: int, f: int)
    requires 1 <= m <= 12
  {
    |r| == MatchCount(y, m, f) && forall i | 0 <= i < |r| :: r[i] == Date(y, m, f + 7 * i)
  }

  /** A matching day in front of the run a week later is the run from it. */
  lemma RunCons(r: seq<Date>, y: int, m: int, from: int)
    requires 1 <= y && 1 <= m <= 12 && 1 <= from <= DaysInMonth(y, m)
    requires WeeklyRun(r, y, m, from + 7)
    ensures WeeklyRun([Date(y, m, from)] + r, y, m, from)
  {
    var r' := [Date(y, m, from)] + r;
    assert MatchCount(y, m, from) == MatchCount(y, m, from + 7) + 1;
    forall i | 0 <= i < |r'| ensures r'[i] == Date(y, m, from + 7 * i) {
      if i > 0 {
        assert r'[i] == r[i - 1];
      }
    }
  }

  lemma DayWeekdayIsWeekday(y: int, m: int, j: int)
    requires 1 <= y && 1 <= m <= 12 && 1 <= j <= DaysInMonth(y, m)
    ensures Weekday(Date(y, m, j)) == DayWeekday(y, m, j)
  {
    WeekdayInMonth(y, m, 1, j);
  }

  lemma {:induction false} MatchingDaysFromShape(y: int, m: int, wd: int, from: int)
    requires 1 <= y && 1 <= m <= 12 && 0 <= wd < 7 && 1 <= from <= DaysInMonth(y, m) + 1
    ensures WeeklyRun(MatchingDaysFrom(y, m, wd, from), y, m, FirstMatchFrom(y, m, wd, from))
    decreases DaysInMonth(y, m) + 1 - from
  {
    if from > DaysInMonth(y, m) {
      assert MatchingDaysFrom(y, m, wd, from) == [];
      assert FirstMatchFrom(y, m, wd, from) >= from;
    } else {
      DayWeekdayIsWeekday(y, m, from);
      var rest := MatchingDaysFrom(y, m, wd, from + 1);
      MatchingDaysFromShape(y, m, wd, from + 1);
      FirstMatchStep(y, m, wd, from);
      if DayWeekday(y, m, from) == wd {
        assert MatchingDaysFrom(y, m, wd, from) == [Date(y, m, from)] + rest;
        RunCons(rest, y, m, from);
      } else {
        assert MatchingDaysFrom(y, m, wd, from) == rest;
      }
    }
  }

  /** The first matching day of the month, 1..7. */
  function FirstMatch(y: int, m: int, wd: int): (f: int)
    requires 1 <= y && 1 <= m <= 12 && 0 <= wd < 7
    ensures 1 <= f <= 7
  {
    FirstMatchFrom(y, m, wd, 1)
  }

  /** For a weekday 0..6 the matching days are f, f+7, f+14, ... within the
      month, where f = FirstMatch; they are 4 or 5, February included. */
  lemma MatchingDaysShape(y: int, m: int, wd: int)
    requires 1 <= y && 1 <= m <= 12 && 0 <= wd < 7
    ensures var days := MatchingDays(y, m, wd);
            |days| == (DaysInMonth(y, m) - FirstMatch(y, m, wd)) / 7 + 1 &&
            (4 <= |days| <= 5) &&
            forall i | 0 <= i < |days| :: days[i] == Date(y, m, FirstMatch(y, m, wd) + 7 * i)
  {
    MatchingDaysFromShape(y, m, wd, 1);
  }

  /** Week-of-month 0 selects, through index -1, the same day as "last". */
  lemma ZeroWeekIsLast(y: int, m: int, wd: int)
    requires 1 <= y && 1 <= m <= 12
    ensures NthWeekdayOfMonth(y, m, wd, 0) == NthWeekdayOfMonth(y, m, wd, LastWeek)
  {
  }

  /** The matching days are ascending, seven days apart, 4 or 5 of them. */
  lemma MatchingDaysWeekApart(y: int, m: int, wd: int)
    requires 1 <= y && 1 <= m <= 12 && 0 <= wd < 7
    ensures var days := MatchingDays(y, m, wd);
            4 <= |days| <= 5 &&
            forall i | 0 <= i < |days| - 1 :: days[i + 1].day == days[i].day + 7
  {
    MatchingDaysShape(y, m, wd);
  }

  /** A day of the month has weekday `wd` exactly when it lies a whole number
      of weeks after the first match. */
  lemma MatchIffWeeksAfterFirst(y: int, m: int, wd: int, j: int)
    requires 1 <= y && 1 <= m <= 12 && 0 <= wd < 7 && 1 <= j <= DaysInMonth(y, m)
    ensures Weekday(Date(y, m, j)) == wd <==> (j >= FirstMatch(y, m, wd) && (j - FirstMatch(y, m, wd)) % 7 == 0)
  {
    var w1 := Weekday(Date(y, m, 1));
    WeekdayInMonth(y, m, 1, j);
    assert w1 % 7 == w1;
    assert FirstMatch(y, m, wd) == 1 + (wd - w1) % 7;
    WeeksAfterIff(w1, wd, j);
  }

  /** The arithmetic behind it: counting on j - 1 days from weekday w1 reaches
      wd exactly when j is 1 + ((wd - w1) mod 7) plus whole weeks. */
  lemma WeeksAfterIff(w1: int, wd: int, j: int)
    requires 0 <= w1 < 7 && 0 <= wd < 7 && 1 <= j
    ensures var f := 1 + (wd - w1) % 7;
            (w1 + (j - 1)) % 7 == wd <==> (j >= f && (j - f) % 7 == 0)
  {
    var f := 1 + (wd - w1) % 7;
    var x := w1 + (j - 1);
    var q := (wd - w1) / 7;
    var gap := j - f;
    assert gap == (x - wd) + 7 * q;
    MultipleOfSeven(x - wd, q);
    assert wd % 7 == wd;
    ModEqIff(x, wd);
    if gap % 7 == 0 {
      assert gap == 7 * (gap / 7) && -7 < gap;
    }
  }

  lemma ModEqIff(a: int, b: int)
    ensures a % 7 == b % 7 <==> (a - b) % 7 == 0
  {
    var qa, qb := a / 7, b / 7;
    assert a - b == (a % 7 - b % 7) + 7 * (qa - qb);
    MultipleOfSeven(a % 7 - b % 7, qa - qb);
  }

  /** Every day of the month with weekday `wd` is among the matching days. */
  lemma MatchingDaysComplete(y: int, m: int, wd: int, j: int)
    requires 1 <= y && 1 <= m <= 12 && 0 <= wd < 7 && 1 <= j <= DaysInMonth(y, m)
    requires Weekday(Date(y, m, j)) == wd
    ensures Date(y, m, j) in MatchingDays(y, m, wd)
  {
    MatchingDaysShape(y, m, wd);
    MatchIffWeeksAfterFirst(y, m, wd, j);
    var f := FirstMatch(y, m, wd);
    var k := (j - f) / 7;
    assert j == f + 7 * k;
    assert MatchingDays(y, m, wd)[k] == Date(y, m, j);
  }

  /** An out-of-range weekday never matches, so the rule gives None. */
  lemma NoMatchesForBadWeekday(y: int, m: int, wd: int, n: nat)
    requires 1 <= y && 1 <= m <= 12 && !(0 <= wd < 7)
    ensures MatchingDays(y, m, wd) == [] && NthWeekdayOfMonth(y, m, wd, n) == None
  {
    NoMatchesFrom(y, m, wd, 1);
  }

  lemma {:induction false} NoMatchesFrom(y: int, m: int, wd: int, from: int)
    requires 1 <= y && 1 <= m <= 12 && 1 <= from && !(0 <= wd < 7)
    ensures MatchingDaysFrom(y, m, wd, from) == []
    decreases DaysInMonth(y, m) + 1 - from
  {
    if from <= DaysInMonth(y, m) {
      NoMatchesFrom(y, m, wd, from + 1);
    }
  }

  /** For weekday 0..6 and n in 1..5 the rule always finds a day. */
  lemma NthWeekdayExists(y: int, m: int, wd: int, n: nat)
    requires 1 <= y && 1 <= m <= 12 && 0 <= wd < 7 && n <= 5
    ensures NthWeekdayOfMonth(y, m, wd, n).Some?
  {
    MatchingDaysShape(y, m, wd);
  }

  /** None arises only from an out-of-range weekday or from an n (other than
      the "last" code) beyond the number of matches. */
  lemma NthWeekdayNoneIff(y: int, m: int, wd: int, n: nat)
    requires 1 <= y && 1 <= m <= 12
    ensures NthWeekdayOfMonth(y, m, wd, n).None? <==>
            (!(0 <= wd < 7) || (n != LastWeek && n > |MatchingDays(y, m, wd)|))
  {
    if !(0 <= wd < 7) {
      NoMatchesForBadWeekday(y, m, wd, n);
    } else {
      MatchingDaysShape(y, m, wd);
    }
  }

  /** n = 1..4: the result is the unique day with weekday `wd` among days
      7(n-1)+1 .. 7n of the month, and exactly the n-1 matching days listed
      before it precede it. */
  lemma NthWeekdayIsNth(y: int, m: int, wd: int, n: int, j: int)
    requires 1 <= y && 1 <= m <= 12 && 0 <= wd < 7 && 1 <= n <= 4
    ensures NthWeekdayOfMonth(y, m, wd, n) == Some(Date(y, m, j)) <==>
            (Date(y, m, j).Valid() && Weekday(Date(y, m, j)) == wd && 7 * (n - 1) < j <= 7 * n)
  {
    MatchingDaysShape(y, m, wd);
    var f := FirstMatch(y, m, wd);
    if Date(y, m, j).Valid() && Weekday(Date(y, m, j)) == wd && 7 * (n - 1) < j <= 7 * n {
      MatchIffWeeksAfterFirst(y, m, wd, j);
      var k := (j - f) / 7;
      assert j == f + 7 * k;
      assert k == n - 1;
    }
  }

  /** The days before the n-th match that share its weekday are exactly the
      first n-1 matches. */
  lemma NthWeekdayPredecessors(y: int, m: int, wd: int, n: int, j: int)
    requires 1 <= y && 1 <= m <= 12 && 0 <= wd < 7 && 1 <= n <= 4
    requires NthWeekdayOfMonth(y, m, wd, n).Some?
    requires 1 <= j < NthWeekdayOfMonth(y, m, wd, n).value.day
    ensures Weekday(Date(y, m, j)) == wd <==> Date(y, m, j) in MatchingDays(y, m, wd)[..n - 1]
  {
    MatchingDaysShape(y, m, wd);
    var days := MatchingDays(y, m, wd);
    var f := FirstMatch(y, m, wd);
    MatchIffWeeksAfterFirst(y, m, wd, j);
    if Weekday(Date(y, m, j)) == wd {
      var k := (j - f) / 7;
      assert j == f + 7 * k;
      assert days[..n - 1][k] == Date(y, m, j);
    }
  }

  /** n = 5 ("last"): the result is the day with weekday `wd` that has no
      later day of that weekday in the month. */
  lemma LastWeekdayIsLast(y: int, m: int, wd: int, j: int)
    requires 1 <= y && 1 <= m <= 12 && 0 <= wd < 7
    ensures NthWeekdayOfMonth(y, m, wd, LastWeek) == Some(Date(y, m, j)) <==>
            (Date(y, m, j).Valid() && Weekday(Date(y, m, j)) == wd &&
             forall k | j < k <= DaysInMonth(y, m) :: Weekday(Date(y, m, k)) != wd)
  {
    MatchingDaysShape(y, m, wd);
    var days := MatchingDays(y, m, wd);
    var f := FirstMatch(y, m, wd);
    var dim := DaysInMonth(y, m);
    var last := days[|days| - 1];
    assert last.day == f + 7 * (|days| - 1);
    assert last.day + 7 > dim;
    if NthWeekdayOfMonth(y, m, wd, LastWeek) == Some(Date(y, m, j)) {
      forall k | j < k <= dim ensures Weekday(Date(y, m, k)) != wd {
        MatchIffWeeksAfterFirst(y, m, wd, k);
      }
    }
    if Date(y, m, j).Valid() && Weekday(Date(y, m, j)) == wd &&
       forall k | j < k <= dim :: Weekday(Date(y, m, k)) != wd
    {
      assert Weekday(Date(y, m, last.day)) == wd;
      assert j >= last.day;
      MatchIffWeeksAfterFirst(y, m, wd, j);
      var k := (j - f) / 7;
      assert j == f + 7 * k;
      assert k <= |days| - 1;
    }
  }
}
