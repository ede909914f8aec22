/** The Event table and the operations that write it: `Event.save` (slug
    regeneration and de-duplication), `get_or_create` of one occurrence,
    the weekly and monthly occurrence generators, the 90-day driver and the
    sync of series defaults onto upcoming events (events/models.py,
    events/services.py). Rows are kept in primary-key order and the primary
    key of a row is its index. */
module EventStore {
  import opened Options
  import opened Calendar
  import opened WeekdayRule
  import opened EventModel
  import opened OccurrenceSpec

  datatype SaveResult = Saved(pk: nat) | SlugConflict

  /** The outcome of `get_or_create`: the one matching row, a new row, or
      the error raised when the lookup matches more than one row. */
  datatype Lookup = Found(pk: nat) | Created(pk: nat) | MultipleObjectsReturned

  /** `Event.save` picks a new slug for a new row and for a row whose title
      changed; otherwise it keeps the slug it is given. */
  predicate Regenerates(rows: seq<Event>, pk: Option<nat>, e: Event)
    requires pk.Some? ==> pk.value < |rows|
  {
    pk.None? || rows[pk.value].title != e.title
  }

  /** The row the slug search excludes (`exclude(pk=self.pk)`); -1 for a new row. */
  function Skip(pk: Option<nat>): int {
    if pk.None? then -1 else pk.value
  }

  class EventTable {
    var rows: seq<Event>
    /** Django's `slugify`, which the model treats as given. */
    const slugify: string -> string

    /** The slug column is unique. */
    ghost predicate Valid()
      reads this
    {
      SlugsUnique(rows)
    }

    constructor (slugify: string -> string)
      ensures Valid() && rows == [] && this.slugify == slugify
    {
      rows := [];
      this.slugify := slugify;
    }

    /** `Event.save` with primary key `pk` (None for a new row). A new row,
        or a row whose title changed, gets the first free slug derived from
        its title, ignoring its own current slug; any other row keeps the
        slug it carries, and saving fails when another row has that slug. */
    method Save(pk: Option<nat>, e: Event) returns (r: SaveResult)
      requires Valid()
      requires pk.Some? ==> pk.value < |rows|
      modifies this
      ensures Valid()
      ensures r.SlugConflict? <==> !Regenerates(old(rows), pk, e) && e.slug in SlugsExcept(old(rows), Skip(pk))
      ensures r.SlugConflict? ==> rows == old(rows)
      ensures pk.None? ==> r == Saved(old(|rows|)) && |rows| == old(|rows|) + 1 && rows == old(rows) + [rows[|rows| - 1]]
      ensures pk.Some? && r.Saved? ==> r.pk == pk.value && |rows| == old(|rows|) && rows == old(rows)[pk.value := rows[pk.value]]
      ensures r.Saved? ==> rows[r.pk] == e.(slug := rows[r.pk].slug)
      ensures r.Saved? && Regenerates(old(rows), pk, e) ==>
                IsFirstFreeSlug(SlugBase(slugify(e.title)), SlugsExcept(old(rows), Skip(pk)), rows[r.pk].slug)
      ensures r.Saved? && !Regenerates(old(rows), pk, e) ==> rows[r.pk].slug == e.slug
    {
      var row := e;
      if pk.None? || rows[pk.value].title != e.title {
        var slug := FirstFreeSlug(SlugBase(slugify(e.title)), SlugsExcept(rows, Skip(pk)));
        row := e.(slug := slug);
      } else if e.slug in SlugsExcept(rows, pk.value) {
        return SlugConflict;
      }
      if pk.None? {
        AppendKeepsSlugsUnique(rows, row);
        rows := rows + [row];
        r := Saved(|rows| - 1);
      } else {
        ReplaceKeepsSlugsUnique(rows, pk.value, row);
        rows := rows[pk.value := row];
        r := Saved(pk.value);
      }
    }

    /** `Event.objects.get_or_create(series=s, start=start, defaults=...)`:
        return the one occurrence of `s` at `start`, or save a new one built
        from the series when there is none. */
    method GetOrCreate(s: Series, start: Timestamp) returns (r: Lookup)
      requires Valid()
      modifies this
      ensures Valid()
      ensures r.Created? <==> Matches(old(rows), s.id, start) == {}
      ensures r.Found? <==> |Matches(old(rows), s.id, start)| == 1
      ensures r.Found? ==> Matches(old(rows), s.id, start) == {r.pk}
      ensures !r.Created? ==> rows == old(rows)
      ensures r.Created? ==> r.pk == old(|rows|) && |rows| == r.pk + 1 && rows == old(rows) + [NewOccurrence(s, start, rows[r.pk].slug)]
      ensures r.Created? ==> IsFirstFreeSlug(SlugBase(slugify(s.title)), SlugsOf(old(rows)), rows[r.pk].slug)
      ensures Has(rows, s.id, start)
    {
      var m := Matches(rows, s.id, start);
      if |m| >= 2 {
        return MultipleObjectsReturned;
      }
      if |m| == 1 {
        var i :| i in m;
        assert m == {i} by {
          assert |m - {i}| == 0;
        }
        return Found(i);
      }
      var saved := Save(None, NewOccurrence(s, start, ""));
      r := Created(saved.pk);
      assert rows[r.pk].series == Some(s.id) && rows[r.pk].start == start;
    }

    /** One `get_or_create` call of a generator: afterwards the table holds
        an occurrence of `s` at `start`, unless the lookup raised
        `MultipleObjectsReturned`, which cannot happen while occurrences
        are unique. */
    method AddOccurrence(s: Series, start: Timestamp, ghost base: seq<Event>) returns (ok: bool)
      requires Valid() && AppendedFrom(base, rows, s, slugify)
      modifies this
      ensures Valid() && AppendedFrom(base, rows, s, slugify)
      ensures old(|rows|) <= |rows| && rows[..old(|rows|)] == old(rows)
      ensures forall i | old(|rows|) <= i < |rows| :: rows[i].start == start
      ensures ok ==> Has(rows, s.id, start)
      ensures !ok ==> rows == old(rows) && !OccurrencesUnique(base)
    {
      var before := rows;
      var r := GetOrCreate(s, start);
      if r.MultipleObjectsReturned? {
        TwoMatchesNotUnique(rows, s.id, start);
        return false;
      }
      ok := true;
      if r.Created? {
        AppendedFromStep(base, before, s, rows[r.pk], slugify);
      }
    }

    /** `generate_weekly_events`: walk the days from `from` to `to` and
        get-or-create an occurrence on each day with the series' weekday.
        Returns false when a lookup raised `MultipleObjectsReturned`; the
        rows created before that stay. */
    method GenerateWeekly(s: Series, from: ValidDate, to: ValidDate) returns (ok: bool)
      requires Valid()
      modifies this
      ensures Valid() && AppendedFrom(old(rows), rows, s, slugify)
      ensures forall i | old(|rows|) <= i < |rows| :: WeeklyTarget(s, from, to, rows[i].start)
      ensures ok ==> WeeklyOutcome(old(rows), rows, s, from, to)
      ensures OccurrencesUnique(old(rows)) ==> ok
    {
      ok := true;
      var current: ValidDate := from;
      while Ord(current) <= Ord(to)
        invariant Valid() && AppendedFrom(old(rows), rows, s, slugify)
        invariant Ord(from) <= Ord(current)
        invariant forall i | old(|rows|) <= i < |rows| :: WeeklyTarget(s, from, to, rows[i].start)
        invariant WeeklyCovered(rows, s, from, to, Ord(current))
        decreases Ord(to) + 1 - Ord(current)
      {
        var before := rows;
        if s.weekday == Some(Weekday(current)) {
          var start := Timestamp(current, s.startTime);
          ok := AddOccurrence(s, start, old(rows));
          if !ok {
            return;
          }
          WeeklyNewRowsStep(old(rows), before, rows, s, from, to, start);
        }
        WeeklyCoverStep(before, rows, s, from, to, current);
        current := NextDay(current);
      }
    }

    /** `generate_monthly_events`: for each month from `from`'s month while
        its first day is not after `to`, get-or-create an occurrence on the
        series' n-th weekday of that month when that day lies in the window.
        Returns false when a lookup raised `MultipleObjectsReturned`. */
    method GenerateMonthly(s: Series, from: ValidDate, to: ValidDate) returns (ok: bool)
      requires Valid()
      modifies this
      ensures Valid() && AppendedFrom(old(rows), rows, s, slugify)
      ensures forall i | old(|rows|) <= i < |rows| :: MonthlyTarget(s, from, to, rows[i].start)
      ensures ok ==> MonthlyOutcome(old(rows), rows, s, from, to)
      ensures OccurrencesUnique(old(rows)) ==> ok
    {
      ok := true;
      if s.weekday.None? || s.weekOfMonth.None? {
        return;
      }
      var year, month := from.year, from.month;
      assert DayNumber(year, month, 1) <= Ord(from);
      while DayNumber(year, month, 1) <= Ord(to)
        invariant 1 <= year && 1 <= month <= 12
        invariant Valid() && AppendedFrom(old(rows), rows, s, slugify)
        invariant forall i | old(|rows|) <= i < |rows| :: MonthlyTarget(s, from, to, rows[i].start)
        invariant MonthlyCovered(rows, s, from, to, DayNumber(year, month, 1))
        decreases Ord(to) - DayNumber(year, month, 1)
      {
        ok := GenerateMonth(s, from, to, year, month, old(rows));
        if !ok {
          return;
        }
        ghost var next := NextMonth(year, month);
        if month == 12 {
          year := year + 1;
          month := 1;
        } else {
          month := month + 1;
        }
        assert year == next.0 && month == next.1;
      }
    }

    /** One pass of the monthly generator's loop: the occurrence on the
        series' n-th weekday of month (year, month), when that day exists and
        lies in the window. Coverage grows to the first of the next month. */
    method GenerateMonth(s: Series, from: ValidDate, to: ValidDate, year: int, month: int, ghost base: seq<Event>)
      returns (ok: bool)
      requires 1 <= year && 1 <= month <= 12 && s.weekday.Some? && s.weekOfMonth.Some?
      requires Valid() && AppendedFrom(base, rows, s, slugify)
      requires forall i | |base| <= i < |rows| :: MonthlyTarget(s, from, to, rows[i].start)
      requires MonthlyCovered(rows, s, from, to, DayNumber(year, month, 1))
      modifies this
      ensures Valid() && AppendedFrom(base, rows, s, slugify)
      ensures forall i | |base| <= i < |rows| :: MonthlyTarget(s, from, to, rows[i].start)
      ensures ok ==> var (y', m') := NextMonth(year, month);
                     DayNumber(y', m', 1) == DayNumber(year, month, 1) + DaysInMonth(year, month) &&
                     MonthlyCovered(rows, s, from, to, DayNumber(y', m', 1))
      ensures !ok ==> !OccurrencesUnique(base)
    {
      ok := true;
      var before := rows;
      var eventDay := NthWeekdayOfMonth(year, month, s.weekday.value, s.weekOfMonth.value);
      if eventDay.Some? && Ord(from) <= Ord(eventDay.value) <= Ord(to) {
        var start := Timestamp(eventDay.value, s.startTime);
        ok := AddOccurrence(s, start, base);
        if !ok {
          return;
        }
        MonthlyNewRowsStep(base, before, rows, s, from, to, start);
      }
      MonthlyCoverStep(before, rows, s, from, to, year, month);
    }

    /** `generate_next_90_days`: generate from the generation start date
        through `days` days later; bi-weekly series generate nothing. */
    method GenerateNextDays(s: Series, days: nat) returns (ok: bool)
      requires Valid()
      modifies this
      ensures Valid()
      ensures s.recurrence == Biweekly ==> ok && rows == old(rows)
      ensures AppendedFrom(old(rows), rows, s, slugify)
      ensures s.recurrence == Weekly && ok ==>
                WeeklyOutcome(old(rows), rows, s, GenerationStart(old(rows), s), AddDays(GenerationStart(old(rows), s), days))
      ensures s.recurrence == Monthly && ok ==>
                MonthlyOutcome(old(rows), rows, s, GenerationStart(old(rows), s), AddDays(GenerationStart(old(rows), s), days))
      ensures OccurrencesUnique(old(rows)) ==> ok
      ensures Ord(GenerationStart(old(rows), s)) <= Ord(GenerationStart(rows, s))
    {
      var from := GenerationStart(rows, s);
      var to := AddDays(from, days);
      ok := true;
      if s.recurrence == Weekly {
        ok := GenerateWeekly(s, from, to);
      } else if s.recurrence == Monthly {
        ok := GenerateMonthly(s, from, to);
      }
      WatermarkNeverRecedes(old(rows), rows, s);
    }

    /** `apply_series_defaults_to_future_events`: copy the series' shared
        fields onto its events starting at or after `now`, and return how
        many rows were updated. */
    method ApplySeriesDefaults(s: Series, syncImage: bool, now: Timestamp) returns (count: nat)
      requires Valid()
      modifies this
      ensures Valid()
      ensures rows == SyncedRows(old(rows), s, syncImage, now)
      ensures count == CountSelected(old(rows), s.id, now)
    {
      count := CountSelected(rows, s.id, now);
      SyncKeepsKeys(rows, s, syncImage, now);
      rows := SyncedRows(rows, s, syncImage, now);
    }
  }
}
