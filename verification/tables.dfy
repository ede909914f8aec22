/** The column renderers of the event tables (events/tables.py): the
    recurrence and weekday labels of the series list, and the badge classes
    of the event list. */
module EventTables {
  import opened Options
  import opened Text
  import opened WeekdayRule
  import opened EventModel

  /** `calendar.day_name`, Monday first (English names). */
  const DayNames: seq<string> := ["Monday", "Tuesday", "Wednesday", "Thursday", "Friday", "Saturday", "Sunday"]

  /** English ordinal suffix of 1..4. */
  function OrdinalSuffix(n: int): string
    requires 1 <= n <= 4
  {
    ["st", "nd", "rd", "th"][n - 1]
  }

  /** The word for a week of month: "1st".."4th", "last" for 5, and the
      plain number for anything else (`wom_map.get(n, str(n))`). */
  function WeekOfMonthWord(n: nat): (w: string)
    ensures !(1 <= n <= 5) ==> w == DecimalString(n)
  {
    if n == 1 then "1st"
    else if n == 2 then "2nd"
    else if n == 3 then "3rd"
    else if n == 4 then "4th"
    else if n == 5 then "last"
    else DecimalString(n)
  }

  /** The words agree with the week-of-month encoding of the occurrence rule:
      weeks 1..4 read as the English ordinal of the number and the rule's
      "last week" value reads "last". */
  lemma WeekOfMonthWordMatchesRule(n: nat)
    ensures 1 <= n <= 4 ==> WeekOfMonthWord(n) == DecimalString(n) + OrdinalSuffix(n)
    ensures WeekOfMonthWord(n) == "last" <==> n == LastWeek
  {
    if n > 5 {
      var w := DecimalString(n);
      assert IsDigit(w[0]);
      assert w != "last" by {
        assert !IsDigit("last"[0]);
      }
    }
  }

  /** The words of weeks 1..5 end in a letter, the plain numbers in a digit. */
  lemma WordEndsInDigit(n: nat)
    ensures var w := WeekOfMonthWord(n); |w| > 0 && (IsDigit(w[|w| - 1]) <==> n == 0 || n > 5)
  {
    if n == 0 || n > 5 {
      var w := DecimalString(n);
      assert IsDigit(w[|w| - 1]);
    }
  }

  /** Different weeks of month get different words, so a label determines
      the week it stands for. */
  lemma WeekOfMonthWordInjective(a: nat, b: nat)
    requires WeekOfMonthWord(a) == WeekOfMonthWord(b)
    ensures a == b
  {
    WordEndsInDigit(a);
    WordEndsInDigit(b);
    if (a == 0 || a > 5) && (b == 0 || b > 5) {
      DecimalStringInjective(a, b);
    }
  }

  /** A week of month is shown only when it is set and non-zero. */
  predicate Truthy(n: Option<nat>) {
    n.Some? && n.value != 0
  }

  /** `EventSeriesTable.render_recurrence`: the recurrence label, followed
      by the week of month in parentheses when that is set. */
  function RenderRecurrence(recurrence: Recurrence, weekOfMonth: Option<nat>): (r: string)
    ensures RecurrenceLabel(recurrence) <= r
  {
    var display := RecurrenceLabel(recurrence);
    if Truthy(weekOfMonth) then
      WithWeekShape(display, WeekOfMonthWord(weekOfMonth.value));
      display + " (" + WeekOfMonthWord(weekOfMonth.value) + ")"
    else display
  }

  /** The rendered recurrence starts with the choice label, and is longer
      than it exactly when a week of month is set, in which case the week's
      word closes it in parentheses. */
  lemma RenderRecurrenceShape(recurrence: Recurrence, weekOfMonth: Option<nat>)
    ensures var r := RenderRecurrence(recurrence, weekOfMonth);
            var display := RecurrenceLabel(recurrence);
            && |display| <= |r| && r[..|display|] == display
            && (|r| > |display| <==> Truthy(weekOfMonth))
            && (Truthy(weekOfMonth) ==>
                  r[|display|..] == " (" + WeekOfMonthWord(weekOfMonth.value) + ")")
  {
    if Truthy(weekOfMonth) {
      WithWeekShape(RecurrenceLabel(recurrence), WeekOfMonthWord(weekOfMonth.value));
    }
  }

  lemma WithWeekShape(display: string, word: string)
    ensures var r := display + " (" + word + ")";
            |r| > |display| && r[..|display|] == display && r[|display|..] == " (" + word + ")"
  {
  }

  /** `EventSeriesTable.render_weekday`: the day name, prefixed by the week
      of month when that is set, or an em dash when no weekday is set.
      None stands for the IndexError a weekday of 7 or more raises. */
  function RenderWeekday(weekday: Option<nat>, weekOfMonth: Option<nat>): (r: Option<string>)
    ensures r.None? <==> weekday.Some? && weekday.value >= 7
  {
    if weekday.None? then Some(EmDash)
    else if weekday.value >= |DayNames| then None
    else
      var dayName := DayNames[weekday.value];
      if Truthy(weekOfMonth) then Some(WeekOfMonthWord(weekOfMonth.value) + " " + dayName)
      else Some(dayName)
  }

  /** The weekday column: the dash for no weekday, the bare day name without
      a week of month, and "<week word> <day name>" with one. The day name
      is the one of the weekday numbering the occurrence rule uses (0 is
      Monday). */
  lemma RenderWeekdayCases(weekday: Option<nat>, weekOfMonth: Option<nat>)
    ensures weekday.None? ==> RenderWeekday(weekday, weekOfMonth) == Some("—")
    ensures weekday.Some? && weekday.value < 7 && !Truthy(weekOfMonth) ==>
              RenderWeekday(weekday, weekOfMonth) == Some(DayNames[weekday.value])
    ensures weekday.Some? && weekday.value < 7 && Truthy(weekOfMonth) ==>
              RenderWeekday(weekday, weekOfMonth) ==
              Some(WeekOfMonthWord(weekOfMonth.value) + " " + DayNames[weekday.value])
    ensures weekday == Some(0) ==> RenderWeekday(weekday, None) == Some("Monday")
    ensures weekday == Some(6) ==> RenderWeekday(weekday, None) == Some("Sunday")
  {
  }

  /** Distinct weekdays render distinctly (with the same week of month). */
  lemma RenderWeekdayInjective(a: nat, b: nat, weekOfMonth: Option<nat>)
    requires a < 7 && b < 7
    requires RenderWeekday(Some(a), weekOfMonth) == RenderWeekday(Some(b), weekOfMonth)
    ensures a == b
  {
    if Truthy(weekOfMonth) {
      var p := WeekOfMonthWord(weekOfMonth.value) + " ";
      assert (p + DayNames[a])[|p|..] == DayNames[a];
      assert (p + DayNames[b])[|p|..] == DayNames[b];
    }
  }

  // ---------------------------------------------------------------------
  // Badge classes

  const SuccessBadge := "badge bg-success"
  const SecondaryBadge := "badge bg-secondary"
  const DangerBadge := "badge bg-danger"
  const WarningBadge := "badge bg-warning text-dark"
  const PrimaryBadge := "badge bg-all-primary"
  const LightBadge := "badge bg-light text-dark border"

  /** `EventTable.render_status` as written: the canceled branch tests the
      value "cancelled", which no status is stored as. */
  function StatusClassAsWritten(status: EventStatus): string {
    var v := StatusValue(status);
    if v == "published" then SuccessBadge
    else if v == "draft" then SecondaryBadge
    else if v == "cancelled" then DangerBadge
    else WarningBadge
  }

  /** A canceled event gets the warning badge, never the danger badge. */
  lemma CanceledGetsWarningBadge()
    ensures StatusClassAsWritten(Canceled) == WarningBadge
    ensures forall st: EventStatus :: StatusClassAsWritten(st) != DangerBadge
  {
    assert StatusValue(Canceled) != "cancelled" by {
      assert |StatusValue(Canceled)| == 8 && |"cancelled"| == 9;
    }
  }

  /** The badge the status column evidently intends: success for published,
      secondary for draft, danger for canceled. */
  function StatusClass(status: EventStatus): string {
    var v := StatusValue(status);
    if v == "published" then SuccessBadge
    else if v == "draft" then SecondaryBadge
    else if v == StatusValue(Canceled) then DangerBadge
    else WarningBadge
  }

  /** Each status gets its own badge, and a canceled event the danger one. */
  lemma StatusClassDistinguishes(a: EventStatus, b: EventStatus)
    ensures StatusClass(Canceled) == DangerBadge
    ensures StatusClass(a) == StatusClass(b) ==> a == b
  {
  }

  /** `EventTable.render_visibility` as written: the public branch tests the
      value "PUBLIC", while visibilities are stored in lower case. */
  function VisibilityClassAsWritten(visibility: Visibility): string {
    if VisibilityValue(visibility) == "PUBLIC" then PrimaryBadge else LightBadge
  }

  /** The primary badge is never chosen: every visibility gets the light one. */
  lemma PublicNeverPrimary(v: Visibility)
    ensures VisibilityClassAsWritten(v) == LightBadge
  {
    assert VisibilityValue(v) != "PUBLIC" by {
      assert VisibilityValue(v)[0] != 'P';
    }
  }

  /** The badge the visibility column evidently intends: primary for public
      events, light for the others. */
  function VisibilityClass(visibility: Visibility): string {
    if VisibilityValue(visibility) == VisibilityValue(Public) then PrimaryBadge else LightBadge
  }

  /** Exactly the public events get the primary badge. */
  lemma VisibilityClassPublicIff(v: Visibility)
    ensures VisibilityClass(v) == PrimaryBadge <==> v == Public
  {
  }
}
