/** Dates of the proleptic Gregorian calendar, numbered the way Python's
    `datetime.date` numbers them: `Ord` is `date.toordinal()` (0001-01-01 is
    day 1) and `Weekday` is `date.weekday()` (Monday is 0, Sunday is 6). */
module Calendar {

  datatype Date = Date(year: int, month: int, day: int) {
    /** The year/month/day triple names a day that exists (year 1 onwards). */
    predicate Valid() {
      1 <= year && 1 <= month <= 12 && 1 <= day <= DaysInMonth(year, month)
    }
  }

  type ValidDate = d: Date | d.Valid() witness Date(1, 1, 1)

  /** Divisible by 4, except centuries not divisible by 400. */
  predicate IsLeapYear(y: int) {
    y % 4 == 0 && (y % 100 != 0 || y % 400 == 0)
  }

  function DaysInMonth(y: int, m: int): (n: int)
    requires 1 <= m <= 12
    ensures 28 <= n <= 31
    ensures m == 2 ==> (n == 29 <==> IsLeapYear(y))
  {
    if m == 2 then (if IsLeapYear(y) then 29 else 28)
    else if m == 4 || m == 6 || m == 9 || m == 11 then 30
    else 31
  }

  /** Days in the years before year `y`, counted from year 1. */
  function DaysBeforeYear(y: int): int {
    var z := y - 1;
    z * 365 + z / 4 - z / 100 + z / 400
  }

  /** Days in the months of year `y` before month `m`. */
  function DaysBeforeMonth(y: int, m: int): int
    requires 1 <= m <= 12
  {
    [0, 31, 59, 90, 120, 151, 181, 212, 243, 273, 304, 334][m - 1]
    + (if m > 2 && IsLeapYear(y) then 1 else 0)
  }

  function DayNumber(y: int, m: int, day: int): int
    requires 1 <= m <= 12
  {
    DaysBeforeYear(y) + DaysBeforeMonth(y, m) + day
  }

  /** The day number of a date, as `date.toordinal()`. */
  function Ord(d: Date): int
    requires d.Valid()
  {
    DayNumber(d.year, d.month, d.day)
  }

  /** The day of the week, 0 = Monday .. 6 = Sunday, as `date.weekday()`. */
  function Weekday(d: Date): (w: int)
    requires d.Valid()
    ensures 0 <= w < 7
  {
    (Ord(d) + 6) % 7
  }

  /** Weekday 0 is Monday: 0001-01-01 and 2024-01-01 were both Mondays. */
  lemma MondayAnchors()
    ensures Weekday(Date(1, 1, 1)) == 0
    ensures Weekday(Date(2024, 1, 1)) == 0
  {
  }

  /** From one day to the next the weekday advances by one, Sunday (6)
      wrapping to Monday (0). */
  lemma NextDayWeekday(d: Date)
    requires d.Valid()
    ensures Weekday(NextDay(d)) == (Weekday(d) + 1) % 7
  {
    ModShift(Ord(d) + 6, 1);
  }

  /** Consecutive months get consecutive indices. */
  function MonthIndex(y: int, m: int): int {
    12 * y + m
  }

  /** The month after (y, m): December wraps to January of the next year. */
  function NextMonth(y: int, m: int): (r: (int, int))
    requires 1 <= m <= 12
    ensures 1 <= r.1 <= 12 && r.0 >= y
    ensures MonthIndex(r.0, r.1) == MonthIndex(y, m) + 1
  {
    if m == 12 then (y + 1, 1) else (y, m + 1)
  }

  lemma YearLength(y: int)
    requires 1 <= y
    ensures DaysBeforeYear(y + 1) == DaysBeforeYear(y) + (if IsLeapYear(y) then 366 else 365)
  {
    QuotientStep(y, 4);
    QuotientStep(y, 100);
    QuotientStep(y, 400);
    DivisorChain(y);
    var z := y - 1;
    assert DaysBeforeYear(y + 1) - DaysBeforeYear(y) == 365 + (y / 4 - z / 4) - (y / 100 - z / 100) + (y / 400 - z / 400);
  }

  /** Multiples of 400 are multiples of 100, which are multiples of 4. */
  lemma DivisorChain(y: int)
    ensures y % 400 == 0 ==> y % 100 == 0
    ensures y % 100 == 0 ==> y % 4 == 0
  {
    if y % 400 == 0 {
      var q := y / 400;
      assert y == 400 * q;
      MultipleRemainder(4 * q, 100);
    }
    if y % 100 == 0 {
      var q := y / 100;
      assert y == 100 * q;
      MultipleRemainder(25 * q, 4);
    }
  }

  lemma MultipleRemainder(q: int, k: int)
    requires k == 4 || k == 100
    ensures (k * q) % k == 0
  {
    if k == 4 {
      assert (4 * q) % 4 == 0;
    } else {
      assert (100 * q) % 100 == 0;
    }
  }

  /** Moving from y - 1 to y raises the quotient by k exactly when k divides y. */
  lemma QuotientStep(y: int, k: int)
    requires k == 4 || k == 100 || k == 400
    ensures y / k - (y - 1) / k == (if y % k == 0 then 1 else 0)
  {
    if k == 4 {
      assert y / 4 - (y - 1) / 4 == (if y % 4 == 0 then 1 else 0);
    } else if k == 100 {
      assert y / 100 - (y - 1) / 100 == (if y % 100 == 0 then 1 else 0);
    } else {
      assert y / 400 - (y - 1) / 400 == (if y % 400 == 0 then 1 else 0);
    }
  }

  /** The first of the next month comes exactly DaysInMonth days after the
      first of this one. */
  lemma FirstOfNextMonth(y: int, m: int)
    requires 1 <= y && 1 <= m <= 12
    ensures var (y', m') := NextMonth(y, m);
            DayNumber(y', m', 1) == DayNumber(y, m, 1) + DaysInMonth(y, m)
  {
    if m == 12 {
      YearLength(y);
    }
  }

  /** The day after `d`. */
  function NextDay(d: Date): (r: Date)
    requires d.Valid()
    ensures r.Valid() && Ord(r) == Ord(d) + 1
  {
    if d.day < DaysInMonth(d.year, d.month) then
      Date(d.year, d.month, d.day + 1)
    else
      FirstOfNextMonth(d.year, d.month);
      var (y', m') := NextMonth(d.year, d.month);
      Date(y', m', 1)
  }

  /** `d + timedelta(days=n)` for a non-negative n. */
  function AddDays(d: Date, n: nat): (r: Date)
    requires d.Valid()
    ensures r.Valid() && Ord(r) == Ord(d) + n
    decreases n
  {
    if n == 0 then d else AddDays(NextDay(d), n - 1)
  }

  /** Every day of an earlier month comes before the first of a later month. */
  lemma {:induction false} EarlierMonthFirst(y1: int, m1: int, y2: int, m2: int)
    requires 1 <= y1 && 1 <= m1 <= 12 && 1 <= m2 <= 12
    requires MonthIndex(y1, m1) < MonthIndex(y2, m2)
    ensures DayNumber(y1, m1, 1) + DaysInMonth(y1, m1) <= DayNumber(y2, m2, 1)
    decreases MonthIndex(y2, m2) - MonthIndex(y1, m1)
  {
    FirstOfNextMonth(y1, m1);
    var (y', m') := NextMonth(y1, m1);
    if MonthIndex(y', m') < MonthIndex(y2, m2) {
      EarlierMonthFirst(y', m', y2, m2);
    } else {
      assert y' == y2 && m' == m2;
    }
  }

  /** Day numbers never run backwards across months. */
  lemma MonthOrder(a: Date, b: Date)
    requires a.Valid() && b.Valid() && Ord(a) <= Ord(b)
    ensures MonthIndex(a.year, a.month) <= MonthIndex(b.year, b.month)
  {
    if MonthIndex(a.year, a.month) > MonthIndex(b.year, b.month) {
      EarlierMonthFirst(b.year, b.month, a.year, a.month);
    }
  }

  /** Distinct valid dates have distinct day numbers. */
  lemma OrdInjective(a: Date, b: Date)
    requires a.Valid() && b.Valid() && Ord(a) == Ord(b)
    ensures a == b
  {
    MonthOrder(a, b);
    MonthOrder(b, a);
  }

  /** The first of month (y, m) is on or before `d` exactly when that month
      is `d`'s month or an earlier one. */
  lemma FirstOfMonthOnOrBefore(y: int, m: int, d: Date)
    requires 1 <= y && 1 <= m <= 12 && d.Valid()
    ensures DayNumber(y, m, 1) <= Ord(d) <==> MonthIndex(y, m) <= MonthIndex(d.year, d.month)
  {
    assert Ord(d) == DayNumber(d.year, d.month, 1) + d.day - 1;
    if MonthIndex(y, m) < MonthIndex(d.year, d.month) {
      EarlierMonthFirst(y, m, d.year, d.month);
    } else if MonthIndex(d.year, d.month) < MonthIndex(y, m) {
      EarlierMonthFirst(d.year, d.month, y, m);
    } else {
      assert y == d.year && m == d.month;
    }
  }

  /** The days numbered from the first of (y, m) up to the first of the
      next month are exactly the days of month (y, m). */
  lemma DayInMonth(y: int, m: int, d: Date)
    requires 1 <= y && 1 <= m <= 12 && d.Valid()
    requires DayNumber(y, m, 1) <= Ord(d) < DayNumber(y, m, 1) + DaysInMonth(y, m)
    ensures d.year == y && d.month == m
  {
    FirstOfNextMonth(y, m);
    var (y', m') := NextMonth(y, m);
    FirstOfMonthOnOrBefore(y, m, d);
    FirstOfMonthOnOrBefore(y', m', d);
  }

  /** Within a month, the weekday advances by one per day. */
  lemma WeekdayInMonth(y: int, m: int, i: int, j: int)
    requires Date(y, m, i).Valid() && Date(y, m, j).Valid()
    ensures Weekday(Date(y, m, j)) == (Weekday(Date(y, m, i)) + (j - i)) % 7
  {
    ModShift(Ord(Date(y, m, i)) + 6, j - i);
  }

  lemma ModShift(a: int, b: int)
    ensures (a + b) % 7 == (a % 7 + b) % 7
  {
    var q := a / 7;
    assert a + b == (a % 7 + b) + 7 * q;
    MultipleOfSeven(a % 7 + b, q);
  }

  lemma MultipleOfSeven(x: int, q: int)
    ensures (x + 7 * q) % 7 == x % 7
  {
    var r := x % 7;
    var p := x / 7;
    assert x + 7 * q == 7 * (p + q) + r;
  }
}
