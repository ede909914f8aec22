/** What the occurrence generator and the future-event sync of
    events/services.py promise, stated over the rows of the Event table
    (a sequence in primary-key order). */
module OccurrenceSpec {
  import opened Options
  import opened Calendar
  import opened WeekdayRule
  import opened EventModel

  /** The table holds an occurrence of series `sid` starting at `start`. */
  predicate Has(rows: seq<Event>, sid: nat, start: Timestamp) {
    exists i | 0 <= i < |rows| :: rows[i].series == Some(sid) && rows[i].start == start
  }

  /** Rows kept as a prefix keep their occurrences. */
  lemma HasGrows(a: seq<Event>, b: seq<Event>, sid: nat, start: Timestamp)
    requires |a| <= |b| && b[..|a|] == a && Has(a, sid, start)
    ensures Has(b, sid, start)
  {
    var i :| 0 <= i < |a| && a[i].series == Some(sid) && a[i].start == start;
    assert b[i] == a[i];
  }

  /** The row `get_or_create` inserts for series `s` at `start`: the series'
      shared fields, status published, and an end `defaultDurationMinutes`
      after the start. */
  function NewOccurrence(s: Series, start: Timestamp, slug: string): (e: Event)
    ensures e.end.Some? && Instant(e.end.value) == Instant(start) + 60 * s.defaultDurationMinutes
  {
    Event(
      title := s.title,
      slug := slug,
      summary := s.description,
      content := s.content,
      image := s.image,
      start := start,
      end := Some(AddMinutes(start, s.defaultDurationMinutes)),
      locationName := s.defaultLocation,
      address := s.defaultAddress,
      status := Published,
      visibility := s.visibility,
      series := Some(s.id),
      category := s.category)
  }

  /** No two occurrences of one series share a start. */
  ghost predicate OccurrencesUnique(rows: seq<Event>) {
    forall i, j | 0 <= i < j < |rows| && rows[i].series.Some? && rows[i].series == rows[j].series ::
      rows[i].start != rows[j].start
  }

  /** No two rows share a slug (the slug column is unique). */
  ghost predicate SlugsUnique(rows: seq<Event>) {
    forall i, j | 0 <= i < j < |rows| :: rows[i].slug != rows[j].slug
  }

  /** The slugs of all rows except the one at index `skip`. */
  function SlugsExcept(rows: seq<Event>, skip: int): set<string> {
    set i | 0 <= i < |rows| && i != skip :: rows[i].slug
  }

  /** The slugs of all rows. */
  function SlugsOf(rows: seq<Event>): set<string> {
    SlugsExcept(rows, -1)
  }

  /** The primary keys (row indices) of the occurrences of series `sid`
      starting at `start`: what `get_or_create` looks up. */
  function Matches(rows: seq<Event>, sid: nat, start: Timestamp): (m: set<nat>)
    ensures forall i | i in m :: i < |rows| && rows[i].series == Some(sid) && rows[i].start == start
    ensures forall i: nat | i < |rows| && rows[i].series == Some(sid) && rows[i].start == start :: i in m
    ensures m == {} <==> !Has(rows, sid, start)
  {
    var m := set i: nat | i < |rows| && rows[i].series == Some(sid) && rows[i].start == start;
    assert forall i | 0 <= i < |rows| && rows[i].series == Some(sid) && rows[i].start == start :: i in m;
    m
  }

  /** Two rows for one (series, start) break occurrence uniqueness. */
  lemma TwoMatchesNotUnique(rows: seq<Event>, sid: nat, start: Timestamp)
    requires |Matches(rows, sid, start)| >= 2
    ensures !OccurrencesUnique(rows)
  {
    var m := Matches(rows, sid, start);
    var i :| i in m;
    assert |m - {i}| >= 1;
    var j :| j in m - {i};
    if i < j {
      assert rows[i].series.Some? && rows[i].series == rows[j].series && rows[i].start == rows[j].start;
    } else {
      assert rows[j].series.Some? && rows[j].series == rows[i].series && rows[j].start == rows[i].start;
    }
  }

  /** Appending a row keeps every other row's slug out of its way exactly
      when its slug is new. */
  lemma AppendKeepsSlugsUnique(rows: seq<Event>, e: Event)
    requires SlugsUnique(rows) && e.slug !in SlugsOf(rows)
    ensures SlugsUnique(rows + [e])
  {
    var r := rows + [e];
    forall i, j | 0 <= i < j < |r| ensures r[i].slug != r[j].slug {
      if j == |rows| {
        assert r[i].slug == rows[i].slug && rows[i].slug in SlugsOf(rows);
      }
    }
  }

  /** Replacing one row keeps slugs unique when its new slug is not another
      row's. */
  lemma ReplaceKeepsSlugsUnique(rows: seq<Event>, k: int, e: Event)
    requires SlugsUnique(rows) && 0 <= k < |rows| && e.slug !in SlugsExcept(rows, k)
    ensures SlugsUnique(rows[k := e])
  {
    var r := rows[k := e];
    forall i, j | 0 <= i < j < |r| ensures r[i].slug != r[j].slug {
      if i == k {
        assert rows[j].slug in SlugsExcept(rows, k);
      } else if j == k {
        assert rows[i].slug in SlugsExcept(rows, k);
      }
    }
  }

  /** `after` is `before` with new occurrences of `s` appended: old rows are
      untouched, each new row is what `get_or_create` builds for a start
      that had no occurrence yet, and no start is added twice. */
  ghost predicate AppendsOccurrences(before: seq<Event>, after: seq<Event>, s: Series) {
    && |before| <= |after|
    && after[..|before|] == before
    && (forall i | |before| <= i < |after| ::
          after[i] == NewOccurrence(s, after[i].start, after[i].slug) && !Has(before, s.id, after[i].start))
    && (forall i, j | |before| <= i < j < |after| :: after[i].start != after[j].start)
  }

  /** Each appended row got the first free slug from its title, given the
      slugs already in the table when it was saved. */
  ghost predicate SlugsAssigned(before: seq<Event>, after: seq<Event>, slugify: string -> string)
    requires |before| <= |after|
  {
    forall i | |before| <= i < |after| ::
      IsFirstFreeSlug(SlugBase(slugify(after[i].title)), SlugsOf(after[..i]), after[i].slug)
  }

  /** Appending one more fresh occurrence extends the append relation. */
  lemma AppendStep(before: seq<Event>, mid: seq<Event>, s: Series, e: Event, slugify: string -> string)
    requires AppendsOccurrences(before, mid, s) && SlugsAssigned(before, mid, slugify)
    requires e == NewOccurrence(s, e.start, e.slug) && !Has(mid, s.id, e.start)
    requires IsFirstFreeSlug(SlugBase(slugify(e.title)), SlugsOf(mid), e.slug)
    ensures AppendsOccurrences(before, mid + [e], s) && SlugsAssigned(before, mid + [e], slugify)
  {
    AppendOccurrenceStep(before, mid, s, e);
    AssignSlugStep(before, mid, e, slugify);
  }

  lemma AppendOccurrenceStep(before: seq<Event>, mid: seq<Event>, s: Series, e: Event)
    requires AppendsOccurrences(before, mid, s)
    requires e == NewOccurrence(s, e.start, e.slug) && !Has(mid, s.id, e.start)
    ensures AppendsOccurrences(before, mid + [e], s)
  {
    var after := mid + [e];
    assert after[..|before|] == mid[..|before|];
    if Has(before, s.id, e.start) {
      HasGrows(before, mid, s.id, e.start);
    }
    forall i | |before| <= i < |mid| ensures after[i] == mid[i] && mid[i].start != e.start {
      assert mid[i].series == Some(s.id);
    }
  }

  lemma AssignSlugStep(before: seq<Event>, mid: seq<Event>, e: Event, slugify: string -> string)
    requires |before| <= |mid| && SlugsAssigned(before, mid, slugify)
    requires IsFirstFreeSlug(SlugBase(slugify(e.title)), SlugsOf(mid), e.slug)
    ensures SlugsAssigned(before, mid + [e], slugify)
  {
    var after := mid + [e];
    assert after[..|mid|] == mid;
    forall i | |before| <= i < |mid| ensures after[i] == mid[i] && after[..i] == mid[..i] {
    }
  }

  /** `rows` is `base` plus generated occurrences of `s`, each with its
      first free slug, and duplicates were not introduced. */
  ghost predicate AppendedFrom(base: seq<Event>, rows: seq<Event>, s: Series, slugify: string -> string) {
    && AppendsOccurrences(base, rows, s)
    && SlugsAssigned(base, rows, slugify)
    && (OccurrencesUnique(base) ==> OccurrencesUnique(rows))
  }

  /** One more fresh occurrence with its first free slug keeps the table
      appended from `base`. */
  lemma AppendedFromStep(base: seq<Event>, mid: seq<Event>, s: Series, e: Event, slugify: string -> string)
    requires AppendedFrom(base, mid, s, slugify)
    requires e == NewOccurrence(s, e.start, e.slug) && !Has(mid, s.id, e.start)
    requires IsFirstFreeSlug(SlugBase(slugify(e.title)), SlugsOf(mid), e.slug)
    ensures AppendedFrom(base, mid + [e], s, slugify)
  {
    AppendStep(base, mid, s, e, slugify);
    if OccurrencesUnique(base) {
      AppendOneKeepsUnique(mid, e, s.id);
    }
  }

  /** A row the generator appended had no occurrence at its start before. */
  lemma AppendedRowIsNew(before: seq<Event>, after: seq<Event>, s: Series, i: int)
    ensures AppendsOccurrences(before, after, s) && |before| <= i < |after| ==>
              !Has(before, s.id, after[i].start)
  {
  }

  /** Appending an occurrence whose (series, start) is new keeps
      occurrences unique. */
  lemma AppendOneKeepsUnique(rows: seq<Event>, e: Event, sid: nat)
    requires OccurrencesUnique(rows) && e.series == Some(sid) && !Has(rows, sid, e.start)
    ensures OccurrencesUnique(rows + [e])
  {
    var r := rows + [e];
    forall i, j | 0 <= i < j < |r| && r[i].series.Some? && r[i].series == r[j].series
      ensures r[i].start != r[j].start
    {
      assert r[i] == rows[i];
      if j < |rows| {
        assert r[j] == rows[j];
      }
    }
  }

  /** Appending occurrences never creates a duplicate (series, start). */
  lemma AppendsKeepUnique(before: seq<Event>, after: seq<Event>, s: Series)
    requires OccurrencesUnique(before) && AppendsOccurrences(before, after, s)
    ensures OccurrencesUnique(after)
  {
    forall i, j | 0 <= i < j < |after| && after[i].series.Some? && after[i].series == after[j].series
      ensures after[i].start != after[j].start
    {
      if i < |before| && |before| <= j {
        assert before[i] == after[i];
      }
    }
  }

  // ---------------------------------------------------------------------
  // Weekly series

  /** A start the weekly generator produces over [from, to]: a day of the
      window whose weekday is the series' weekday, at the series' time. */
  ghost predicate WeeklyTarget(s: Series, from: Date, to: Date, t: Timestamp)
    requires from.Valid() && to.Valid()
  {
    && s.weekday.Some? && s.weekday.value == Weekday(t.date)
    && t.second == s.startTime
    && Ord(from) <= Ord(t.date) <= Ord(to)
  }

  /** The effect `generate_weekly_events` promises. */
  ghost predicate WeeklyOutcome(before: seq<Event>, after: seq<Event>, s: Series, from: Date, to: Date)
    requires from.Valid() && to.Valid()
  {
    && AppendsOccurrences(before, after, s)
    && (forall i | |before| <= i < |after| :: WeeklyTarget(s, from, to, after[i].start))
    && (forall t | WeeklyTarget(s, from, to, t) :: Has(after, s.id, t))
  }

  /** Every weekly target dated before day number `bound` is in the table. */
  ghost predicate WeeklyCovered(rows: seq<Event>, s: Series, from: Date, to: Date, bound: int)
    requires from.Valid() && to.Valid()
  {
    forall t | WeeklyTarget(s, from, to, t) && Ord(t.date) < bound :: Has(rows, s.id, t)
  }

  /** Handling one more day (an occurrence at the series' time when the day
      has the series' weekday) extends weekly coverage by that day. */
  lemma WeeklyCoverStep(rows0: seq<Event>, rows1: seq<Event>, s: Series, from: Date, to: Date, day: Date)
    requires from.Valid() && to.Valid() && day.Valid()
    requires WeeklyCovered(rows0, s, from, to, Ord(day))
    requires |rows0| <= |rows1| && rows1[..|rows0|] == rows0
    requires s.weekday == Some(Weekday(day)) ==> Has(rows1, s.id, Timestamp(day, s.startTime))
    ensures WeeklyCovered(rows1, s, from, to, Ord(day) + 1)
  {
    forall t | WeeklyTarget(s, from, to, t) && Ord(t.date) < Ord(day) + 1
      ensures Has(rows1, s.id, t)
    {
      if Ord(t.date) < Ord(day) {
        HasGrows(rows0, rows1, s.id, t);
      } else {
        OrdInjective(t.date, day);
        assert t == Timestamp(day, s.startTime);
      }
    }
  }

  /** The rows appended so far stay weekly targets when rows for one more
      target are appended. */
  lemma WeeklyNewRowsStep(base: seq<Event>, rows0: seq<Event>, rows1: seq<Event>, s: Series, from: Date, to: Date, start: Timestamp)
    requires from.Valid() && to.Valid() && WeeklyTarget(s, from, to, start)
    requires |base| <= |rows0| <= |rows1| && rows1[..|rows0|] == rows0
    requires forall i | |base| <= i < |rows0| :: WeeklyTarget(s, from, to, rows0[i].start)
    requires forall i | |rows0| <= i < |rows1| :: rows1[i].start == start
    ensures forall i | |base| <= i < |rows1| :: WeeklyTarget(s, from, to, rows1[i].start)
  {
    forall i | |base| <= i < |rows1| ensures WeeklyTarget(s, from, to, rows1[i].start) {
      if i < |rows0| {
        assert rows1[i] == rows0[i];
      }
    }
  }

  /** Running the weekly generator again over the same window adds nothing. */
  lemma WeeklyRerunAddsNothing(b: seq<Event>, a: seq<Event>, a2: seq<Event>, s: Series, from: Date, to: Date)
    requires from.Valid() && to.Valid()
    requires WeeklyOutcome(b, a, s, from, to) && WeeklyOutcome(a, a2, s, from, to)
    ensures a2 == a
  {
    if |a2| > |a| {
      AppendedRowIsNew(a, a2, s, |a|);
      assert false;
    }
  }

  /** A weekly series without a weekday generates nothing. */
  lemma WeeklyWithoutWeekday(b: seq<Event>, a: seq<Event>, s: Series, from: Date, to: Date)
    requires from.Valid() && to.Valid() && s.weekday.None?
    requires WeeklyOutcome(b, a, s, from, to)
    ensures a == b
  {
    if |a| > |b| {
      AppendedRowIsNew(b, a, s, |b|);
      assert false;
    }
  }

  // ---------------------------------------------------------------------
  // Monthly series

  /** A start the monthly generator produces over [from, to]: the series'
      n-th weekday of its own month, inside the window, at the series' time.
      A computed day before `from` is not a target (it is skipped, not
      moved into the window). */
  ghost predicate MonthlyTarget(s: Series, from: Date, to: Date, t: Timestamp)
    requires from.Valid() && to.Valid()
  {
    && s.weekday.Some? && s.weekOfMonth.Some?
    && t.second == s.startTime
    && Ord(from) <= Ord(t.date) <= Ord(to)
    && NthWeekdayOfMonth(t.date.year, t.date.month, s.weekday.value, s.weekOfMonth.value) == Some(t.date)
  }

  /** The effect `generate_monthly_events` promises. */
  ghost predicate MonthlyOutcome(before: seq<Event>, after: seq<Event>, s: Series, from: Date, to: Date)
    requires from.Valid() && to.Valid()
  {
    && AppendsOccurrences(before, after, s)
    && (forall i | |before| <= i < |after| :: MonthlyTarget(s, from, to, after[i].start))
    && (forall t | MonthlyTarget(s, from, to, t) :: Has(after, s.id, t))
  }

  /** Every monthly target dated before day number `bound` is in the table. */
  ghost predicate MonthlyCovered(rows: seq<Event>, s: Series, from: Date, to: Date, bound: int)
    requires from.Valid() && to.Valid()
  {
    forall t | MonthlyTarget(s, from, to, t) && Ord(t.date) < bound :: Has(rows, s.id, t)
  }

  /** Handling month (y, m) (an occurrence at the series' time on the
      computed day, when there is one inside the window) extends monthly
      coverage to the first of the next month, the month's length on. */
  lemma MonthlyCoverStep(rows0: seq<Event>, rows1: seq<Event>, s: Series, from: Date, to: Date, y: int, m: int)
    requires from.Valid() && to.Valid() && 1 <= y && 1 <= m <= 12
    requires s.weekday.Some? && s.weekOfMonth.Some?
    requires MonthlyCovered(rows0, s, from, to, DayNumber(y, m, 1))
    requires |rows0| <= |rows1| && rows1[..|rows0|] == rows0
    requires var d := NthWeekdayOfMonth(y, m, s.weekday.value, s.weekOfMonth.value);
             d.Some? && Ord(from) <= Ord(d.value) <= Ord(to) ==> Has(rows1, s.id, Timestamp(d.value, s.startTime))
    ensures var (y', m') := NextMonth(y, m);
            DayNumber(y', m', 1) == DayNumber(y, m, 1) + DaysInMonth(y, m) &&
            MonthlyCovered(rows1, s, from, to, DayNumber(y', m', 1))
  {
    FirstOfNextMonth(y, m);
    forall t | MonthlyTarget(s, from, to, t) && Ord(t.date) < DayNumber(y, m, 1) + DaysInMonth(y, m)
      ensures Has(rows1, s.id, t)
    {
      if Ord(t.date) < DayNumber(y, m, 1) {
        HasGrows(rows0, rows1, s.id, t);
      } else {
        DayInMonth(y, m, t.date);
        assert t == Timestamp(t.date, s.startTime);
      }
    }
  }

  /** The rows appended so far stay monthly targets when rows for one more
      target are appended. */
  lemma MonthlyNewRowsStep(base: seq<Event>, rows0: seq<Event>, rows1: seq<Event>, s: Series, from: Date, to: Date, start: Timestamp)
    requires from.Valid() && to.Valid() && MonthlyTarget(s, from, to, start)
    requires |base| <= |rows0| <= |rows1| && rows1[..|rows0|] == rows0
    requires forall i | |base| <= i < |rows0| :: MonthlyTarget(s, from, to, rows0[i].start)
    requires forall i | |rows0| <= i < |rows1| :: rows1[i].start == start
    ensures forall i | |base| <= i < |rows1| :: MonthlyTarget(s, from, to, rows1[i].start)
  {
    forall i | |base| <= i < |rows1| ensures MonthlyTarget(s, from, to, rows1[i].start) {
      if i < |rows0| {
        assert rows1[i] == rows0[i];
      }
    }
  }

  /** At most one monthly target falls in any month. */
  lemma MonthlyOnePerMonth(s: Series, from: Date, to: Date, t1: Timestamp, t2: Timestamp)
    requires from.Valid() && to.Valid()
    requires MonthlyTarget(s, from, to, t1) && MonthlyTarget(s, from, to, t2)
    requires t1.date.year == t2.date.year && t1.date.month == t2.date.month
    ensures t1 == t2
  {
  }

  /** When the computed day of `from`'s month falls before `from`, that
      month gets no new occurrence. */
  lemma MonthlySkipsEarlyDay(b: seq<Event>, a: seq<Event>, s: Series, from: Date, to: Date, i: int)
    requires from.Valid() && to.Valid() && s.weekday.Some? && s.weekOfMonth.Some?
    requires MonthlyOutcome(b, a, s, from, to)
    requires var d := NthWeekdayOfMonth(from.year, from.month, s.weekday.value, s.weekOfMonth.value);
             d.Some? && Ord(d.value) < Ord(from)
    requires |b| <= i < |a|
    ensures a[i].start.date.year != from.year || a[i].start.date.month != from.month
  {
    assert MonthlyTarget(s, from, to, a[i].start);
  }

  /** Running the monthly generator again over the same window adds nothing. */
  lemma MonthlyRerunAddsNothing(b: seq<Event>, a: seq<Event>, a2: seq<Event>, s: Series, from: Date, to: Date)
    requires from.Valid() && to.Valid()
    requires MonthlyOutcome(b, a, s, from, to) && MonthlyOutcome(a, a2, s, from, to)
    ensures a2 == a
  {
    if |a2| > |a| {
      AppendedRowIsNew(a, a2, s, |a|);
      assert false;
    }
  }

  /** A monthly series missing its weekday or week of month generates
      nothing. */
  lemma MonthlyWithoutRule(b: seq<Event>, a: seq<Event>, s: Series, from: Date, to: Date)
    requires from.Valid() && to.Valid() && (s.weekday.None? || s.weekOfMonth.None?)
    requires MonthlyOutcome(b, a, s, from, to)
    ensures a == b
  {
    if |a| > |b| {
      AppendedRowIsNew(b, a, s, |b|);
      assert false;
    }
  }

  // ---------------------------------------------------------------------
  // Generation watermark

  /** The start of the series' latest occurrence (`order_by("-start").first()`). */
  function LatestStart(rows: seq<Event>, sid: nat): (r: Option<Timestamp>)
    ensures r.None? <==> forall i | 0 <= i < |rows| :: rows[i].series != Some(sid)
    ensures r.Some? ==> Has(rows, sid, r.value)
    ensures r.Some? ==> forall i | 0 <= i < |rows| && rows[i].series == Some(sid) ::
                          Instant(rows[i].start) <= Instant(r.value)
    decreases |rows|
  {
    if |rows| == 0 then None
    else
      var e := rows[|rows| - 1];
      var rest := LatestStart(rows[..|rows| - 1], sid);
      HasPrefix(rows, sid);
      assert forall i | 0 <= i < |rows| - 1 :: rows[..|rows| - 1][i] == rows[i];
      if e.series != Some(sid) then rest
      else if rest.Some? && Instant(rest.value) >= Instant(e.start) then rest
      else Some(e.start)
  }

  lemma HasPrefix(rows: seq<Event>, sid: nat)
    requires |rows| > 0
    ensures forall t | Has(rows[..|rows| - 1], sid, t) :: Has(rows, sid, t)
  {
    forall t | Has(rows[..|rows| - 1], sid, t) ensures Has(rows, sid, t) {
      HasGrows(rows[..|rows| - 1], rows, sid, t);
    }
  }

  /** `get_generation_start_date`: the day after the latest occurrence's
      date, or the series' start date when it has none. */
  function GenerationStart(rows: seq<Event>, s: Series): (d: Date)
    ensures d.Valid()
    ensures (forall i | 0 <= i < |rows| :: rows[i].series != Some(s.id)) ==> d == s.startDate
    ensures forall i | 0 <= i < |rows| && rows[i].series == Some(s.id) :: Ord(rows[i].start.date) < Ord(d)
  {
    match LatestStart(rows, s.id)
    case None => s.startDate
    case Some(t) => NextDay(t.date)
  }

  /** The watermark is the day after some occurrence of the series, unless
      the series has none. */
  lemma GenerationStartIsAfterAnOccurrence(rows: seq<Event>, s: Series)
    requires exists i | 0 <= i < |rows| :: rows[i].series == Some(s.id)
    ensures exists i | 0 <= i < |rows| :: rows[i].series == Some(s.id) &&
              Ord(GenerationStart(rows, s)) == Ord(rows[i].start.date) + 1
  {
    var t := LatestStart(rows, s.id).value;
    var i :| 0 <= i < |rows| && rows[i].series == Some(s.id) && rows[i].start == t;
    assert Ord(GenerationStart(rows, s)) == Ord(rows[i].start.date) + 1;
  }

  /** Appending occurrences dated on or after the watermark never moves the
      watermark back, so each generation run starts where the last one
      left off or later. */
  lemma WatermarkNeverRecedes(before: seq<Event>, after: seq<Event>, s: Series)
    requires AppendsOccurrences(before, after, s)
    requires forall i | |before| <= i < |after| :: Ord(GenerationStart(before, s)) <= Ord(after[i].start.date)
    ensures Ord(GenerationStart(before, s)) <= Ord(GenerationStart(after, s))
  {
    if exists i | 0 <= i < |before| :: before[i].series == Some(s.id) {
      GenerationStartIsAfterAnOccurrence(before, s);
      var i :| 0 <= i < |before| && before[i].series == Some(s.id) &&
               Ord(GenerationStart(before, s)) == Ord(before[i].start.date) + 1;
      assert after[i] == before[i];
    } else if exists i | 0 <= i < |after| :: after[i].series == Some(s.id) {
      var i :| 0 <= i < |after| && after[i].series == Some(s.id);
      if i < |before| {
        assert after[i] == before[i];
      }
    }
  }

  // ---------------------------------------------------------------------
  // Future-event sync

  /** The rows `apply_series_defaults_to_future_events` updates: this
      series' events that start at or after now. */
  predicate SyncSelects(e: Event, sid: nat, now: Timestamp) {
    e.series == Some(sid) && IsUpcoming(e.start, now)
  }

  /** One row after the sync's update: category, location, address,
      visibility and content from the series, the image only on request. */
  function SyncedRow(e: Event, s: Series, syncImage: bool): Event {
    e.(category := s.category,
       locationName := s.defaultLocation,
       address := s.defaultAddress,
       visibility := s.visibility,
       content := s.content,
       image := if syncImage then s.image else e.image)
  }

  function SyncedRows(rows: seq<Event>, s: Series, syncImage: bool, now: Timestamp): (r: seq<Event>)
    ensures |r| == |rows|
  {
    seq(|rows|, i requires 0 <= i < |rows| =>
      if SyncSelects(rows[i], s.id, now) then SyncedRow(rows[i], s, syncImage) else rows[i])
  }

  /** The positions of the rows the sync updates. */
  function SelectedIndices(rows: seq<Event>, sid: nat, now: Timestamp): set<nat> {
    set i: nat | i < |rows| && SyncSelects(rows[i], sid, now)
  }

  /** Dropping the last row drops at most its own position. */
  lemma SelectedIndicesSplit(rows: seq<Event>, sid: nat, now: Timestamp)
    requires |rows| > 0
    ensures var k := |rows| - 1;
            && k !in SelectedIndices(rows[..k], sid, now)
            && SelectedIndices(rows, sid, now) ==
               SelectedIndices(rows[..k], sid, now) + (if SyncSelects(rows[k], sid, now) then {k} else {})
  {
    var k := |rows| - 1;
    assert forall i | 0 <= i < k :: rows[..k][i] == rows[i];
  }

  /** The number of rows the sync updates, which `update()` returns. */
  function CountSelected(rows: seq<Event>, sid: nat, now: Timestamp): (n: nat)
    ensures n == |SelectedIndices(rows, sid, now)|
    ensures n <= |rows|
    ensures n == 0 <==> forall i | 0 <= i < |rows| :: !SyncSelects(rows[i], sid, now)
    decreases |rows|
  {
    if |rows| == 0 then
      assert SelectedIndices(rows, sid, now) == {};
      0
    else
      var k := |rows| - 1;
      SelectedIndicesSplit(rows, sid, now);
      var n := CountSelected(rows[..k], sid, now) + (if SyncSelects(rows[k], sid, now) then 1 else 0);
      assert n == 0 ==> SelectedIndices(rows, sid, now) == {};
      assert forall i | 0 <= i < |rows| && SyncSelects(rows[i], sid, now) :: i in SelectedIndices(rows, sid, now);
      n
  }

  /** The sync writes exactly the shared fields of the selected rows: the
      image only when asked, and never the title, summary, start, end,
      status, slug or series of any row, nor anything of an unselected row. */
  lemma SyncedRowsEffect(rows: seq<Event>, s: Series, syncImage: bool, now: Timestamp, i: int)
    requires 0 <= i < |rows|
    ensures var r := SyncedRows(rows, s, syncImage, now)[i];
            var e := rows[i];
            && r.title == e.title && r.summary == e.summary && r.start == e.start
            && r.end == e.end && r.status == e.status && r.slug == e.slug && r.series == e.series
            && (!SyncSelects(e, s.id, now) ==> r == e)
            && (SyncSelects(e, s.id, now) ==>
                  r.category == s.category && r.locationName == s.defaultLocation &&
                  r.address == s.defaultAddress && r.visibility == s.visibility &&
                  r.content == s.content &&
                  r.image == (if syncImage then s.image else e.image))
  {
  }

  /** Syncing twice is syncing once. */
  lemma SyncIdempotent(rows: seq<Event>, s: Series, syncImage: bool, now: Timestamp)
    ensures SyncedRows(SyncedRows(rows, s, syncImage, now), s, syncImage, now) == SyncedRows(rows, s, syncImage, now)
  {
  }

  /** The sync keeps the slugs, so it keeps them unique, and keeps every
      occurrence key. */
  lemma SyncKeepsKeys(rows: seq<Event>, s: Series, syncImage: bool, now: Timestamp)
    ensures SlugsUnique(rows) ==> SlugsUnique(SyncedRows(rows, s, syncImage, now))
    ensures OccurrencesUnique(rows) ==> OccurrencesUnique(SyncedRows(rows, s, syncImage, now))
  {
  }
}
