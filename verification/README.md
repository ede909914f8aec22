# Allied Angels events core in Dafny

This project models the core of the Allied Angels community site: recurring event series and
the dated occurrences generated from them. The model covers:

- the calendar rule "the n-th (or last) weekday of a month";
- the weekly and monthly generators, which get-or-create one `Event` row per occurrence;
- the generation watermark and the 90-day driver;
- the sync of series defaults onto upcoming events;
- the slug rules of the `save` methods;
- the contact-tracking rules for interest submissions;
- the label and badge renderers of the event tables;
- the file naming of image uploads.

Layout, one module per file:

| file | module | models |
|---|---|---|
| `options.dfy` | `Options` | the `Option` type |
| `calendar.dfy` | `Calendar` | Python `datetime.date` as day numbers of the proleptic Gregorian calendar (`toordinal`, `weekday`, the day after, `+ timedelta(days=n)`, the month step) |
| `text.dfy` | `Text` | `str(n)` of a natural, `", ".join`, ASCII `lower()` |
| `weekday_rule.dfy` | `WeekdayRule` | `nth_weekday_of_month` (events/utils.py) |
| `event_model.dfy` | `EventModel` | the choice values, start timestamps, the `Event` and `EventSeries` records, the blank-slug defaulting of `EventCategory.save` and `EventSeries.save`, and the slug de-duplication loop of `Event.save` |
| `occurrence_spec.dfy` | `OccurrenceSpec` | the specification side of events/services.py: which rows the generators must create, the watermark, what the sync writes |
| `event_store.dfy` | `EventStore` | the Event table as a class whose methods change its rows in place: `save`, `get_or_create`, the generators, `generate_next_90_days`, `apply_series_defaults_to_future_events` |
| `tables.dfy` | `EventTables` | the column renderers of events/tables.py |
| `intake.dfy` | `Intake` | the `contacted_at` rules of intake/admin.py and intake/views.py, and the interest summary |
| `uploads.dfy` | `Uploads` | `normalize_ext`, `owner_label`, `image_upload` and the landscape rule of extras/utils.py |

How the table is modelled:

- The Event table is a sequence of rows in primary-key order, so a row's primary key is its index.
- `EventTable.Valid()` is the unique slug column.
- `slugify` is a function value fixed when the table is built. Nothing is assumed about it.
- `timezone.now()` and the random UUID fragment are parameters.

Code and documentation disagree in two places. In both, the model follows the code:

- `image_upload`'s doc comment says `images/`, but the code writes `media/`.
- `nth_weekday_of_month` documents n in 1..5, but callers can pass 0 (the week-of-month field only has to be non-negative). With 0 the code reaches `days[-1]`, the last match. `NthWeekdayOfMonth` takes any natural n and returns that last match for 0 (`WeekdayRule.ZeroWeekIsLast`).

## Model

| member | source | states |
|---|---|---|
| Calendar.Weekday | events/utils.py:12 | a weekday is one of 0 through 6 (which one is Monday is fixed by `Calendar.MondayAnchors`) |
| Calendar.MondayAnchors | events/utils.py:12 | weekday 0 is Monday: 0001-01-01 and 2024-01-01, both Mondays, get 0 |
| Calendar.NextDayWeekday | events/services.py:13 | from one day to the next the weekday advances by one, Sunday (6) wrapping to Monday (0) |
| Calendar.NextDay | events/services.py:35 | the day after a valid date is valid and has the next day number |
| Calendar.AddDays | events/services.py:100 | `from + timedelta(days=n)` is valid and exactly n day numbers later |
| Calendar.NextMonth | events/services.py:73-78 | the month step stays in 1..12 and moves the month index on by exactly one, so the month loop ends |
| Calendar.FirstOfNextMonth | events/services.py:73-78 | the first of the next month comes exactly the month's length after the first of this one |
| Calendar.FirstOfMonthOnOrBefore | events/services.py:50 | the monthly loop test "first of (year, month) <= to_date" holds exactly when (year, month) is not after to_date's month |
| Calendar.DayInMonth | events/services.py:50-53 | the days numbered from the first of a month up to the first of the next are exactly that month's days |
| Calendar.OrdInjective | events/services.py:12 | distinct dates have distinct day numbers, so comparing dates is comparing day numbers |
| Text.DecimalRoundTrip | events/models.py:212 | the rendered digits of a counter parse back to it |
| Text.DecimalStringInjective | events/models.py:212 | different counters render differently |
| Text.JoinLength | intake/admin.py:69 | a join is as long as its parts plus one separator between neighbours |
| WeekdayRule.MatchingDaysFrom | events/utils.py:10-13 | every listed day is a valid day of the requested month, on or after the start day, with the requested weekday |
| WeekdayRule.NthWeekdayOfMonth | events/utils.py:4-21 | a result lies in the requested year and month and falls on the requested weekday |
| WeekdayRule.MatchingDaysFromShape | events/utils.py:10-13 | the matches from a given day on are the first match on or after it and every seventh day after that, as many as fit in the month |
| WeekdayRule.MatchingDaysShape | events/utils.py:10-13 | for weekday 0..6 the matches are f, f+7, ... with f in 1..7, and there are 4 or 5 of them in every month, February included |
| WeekdayRule.MatchingDaysWeekApart | events/utils.py:10-13 | the matches ascend seven days apart and number 4 or 5 |
| WeekdayRule.MatchIffWeeksAfterFirst | events/utils.py:10-13 | a day of the month has the weekday exactly when it lies whole weeks after the first match |
| WeekdayRule.MatchingDaysComplete | events/utils.py:10-13 | every day of the month with the weekday is among the matches |
| WeekdayRule.NoMatchesForBadWeekday | events/utils.py:10-16 | a weekday outside 0..6 matches nothing, and the result is None |
| WeekdayRule.NthWeekdayExists | events/utils.py:15-21 | for weekday 0..6 and n in 0..5 a day is always found |
| WeekdayRule.NthWeekdayNoneIff | events/utils.py:15-21 | None exactly when the weekday is out of range or n (other than 5) exceeds the number of matches |
| WeekdayRule.NthWeekdayIsNth | events/utils.py:21 | for n in 1..4 the result is the day j exactly when j has the weekday and 7(n-1) < j <= 7n |
| WeekdayRule.NthWeekdayPredecessors | events/utils.py:21 | the earlier days with the same weekday are exactly the first n-1 matches |
| WeekdayRule.LastWeekdayIsLast | events/utils.py:18-19 | for n = 5 the result is the day j exactly when j has the weekday and no later day of the month has it |
| WeekdayRule.ZeroWeekIsLast | events/utils.py:21 | n = 0 selects, through index -1, the same day as n = 5 |
| EventModel.AddMinutes | events/services.py:25 | the end is exactly 60 seconds times the duration after the start |
| EventModel.InstantInjective | events/services.py:18-20 | two starts at the same instant are the same start |
| EventModel.IsUpcoming | events/models.py:218-220 | `is_upcoming`: the start is at or after now (a predicate; its meaning in dates is `EventModel.UpcomingByDate`) |
| EventModel.UpcomingByDate | events/models.py:218-220 | `is_upcoming` holds exactly when the start is on a later day than now, or on the same day at or after now's time |
| EventModel.FilledSlug | events/models.py:27-30 | the slug after `save`: kept when set, `slugify` of the source text when blank (its rules are `EventModel.FilledSlugRule`) |
| EventModel.FilledSlugRule | events/models.py:27-30 | a set slug is kept, a blank one is filled from the source text, and filling is idempotent |
| EventModel.EventCategory.Save | events/models.py:27-30 | the category's slug becomes `slugify(name)` only when it was blank, a set slug is never overwritten, and the row is stored exactly when no other category has that slug (the unique column's `IntegrityError` otherwise, events/models.py:19) |
| EventModel.EventSeries.Save | events/models.py:101-104 | the series' slug becomes `slugify(title)` only when it was blank, a set slug is never overwritten, and the row is stored exactly when no other series has that slug (the unique column's `IntegrityError` otherwise, events/models.py:39) |
| EventModel.SlugBase | events/models.py:208 | "event" exactly when the slugified title is empty; otherwise the slugified title cut to its first 200 characters (all of it when shorter) |
| EventModel.SlugCandidate | events/models.py:209-212 | every candidate starts with the base, and only the first candidate is the base itself |
| EventModel.SlugCandidateInjective | events/models.py:209-213 | `base`, `base-2`, `base-3`, ... are pairwise distinct |
| EventModel.CandidateNotTried | events/models.py:211-213 | each attempt tries a slug not tried before, so the set of tried slugs grows by one per pass |
| EventModel.FirstFreeSlugUnique | events/models.py:209-214 | at most one slug is the first candidate not taken |
| EventModel.FirstFreeSlug | events/models.py:207-214 | the loop stops, and the slug it returns is not taken while every earlier candidate is |
| OccurrenceSpec.NewOccurrence | events/services.py:21-31 | a created occurrence ends `default_duration_minutes` after its start |
| OccurrenceSpec.Matches | events/services.py:18-20 | the lookup finds exactly the rows of the series at that start (every index found matches, every matching index is found), and finds none exactly when the table has no such occurrence |
| OccurrenceSpec.TwoMatchesNotUnique | events/services.py:18-33 | `MultipleObjectsReturned` can only arise when two rows already share a (series, start) |
| OccurrenceSpec.AppendKeepsSlugsUnique | events/models.py:209-216 | inserting a row whose slug is new keeps the slug column unique |
| OccurrenceSpec.ReplaceKeepsSlugsUnique | events/models.py:209-216 | updating a row to a slug no other row has keeps the slug column unique |
| OccurrenceSpec.AppendStep | events/services.py:18-33 | creating one more fresh occurrence, with its first free slug, extends "old rows untouched, new rows built from the series" |
| OccurrenceSpec.AppendedFromStep | events/services.py:18-33 | the same step also keeps (series, start) unique when it was unique before |
| OccurrenceSpec.AppendOneKeepsUnique | events/services.py:18-33 | inserting an occurrence at a new (series, start) never creates a duplicate |
| OccurrenceSpec.AppendsKeepUnique | events/services.py:18-33 | any run of get-or-create inserts keeps (series, start) unique |
| OccurrenceSpec.AppendedRowIsNew | events/services.py:18-33 | an unfolding helper of the append relation: a row the generator appended had no occurrence at its start before; it lets a dead branch be closed without a contradiction |
| OccurrenceSpec.WeeklyCoverStep | events/services.py:12-35 | handling one day extends "every weekly target so far is present" by that day |
| OccurrenceSpec.WeeklyNewRowsStep | events/services.py:13-33 | rows created on a matching day are weekly targets |
| OccurrenceSpec.WeeklyRerunAddsNothing | events/services.py:9-35 | re-running the weekly generator over the same window adds no row |
| OccurrenceSpec.WeeklyWithoutWeekday | events/services.py:13 | a series without a weekday gets no occurrences |
| OccurrenceSpec.MonthlyCoverStep | events/services.py:50-78 | handling a month extends "every monthly target so far is present" to the first of the next month |
| OccurrenceSpec.MonthlyNewRowsStep | events/services.py:51-71 | a row created for a month's computed day is a monthly target |
| OccurrenceSpec.MonthlyOnePerMonth | events/services.py:50-71 | at most one occurrence is due per month |
| OccurrenceSpec.MonthlySkipsEarlyDay | events/services.py:53 | a computed day before `from_date` is skipped, not moved into the window |
| OccurrenceSpec.MonthlyRerunAddsNothing | events/services.py:38-78 | re-running the monthly generator over the same window adds no row |
| OccurrenceSpec.MonthlyWithoutRule | events/services.py:44-45 | a series missing its weekday or week of month gets no occurrences |
| OccurrenceSpec.LatestStart | events/services.py:82-86 | the latest start of the series' events, None exactly when it has none, and no event of the series starts later |
| OccurrenceSpec.GenerationStart | events/services.py:81-91 | the series' start date when it has no events; otherwise a date after every event's date |
| OccurrenceSpec.GenerationStartIsAfterAnOccurrence | events/services.py:88-89 | with events, the watermark is exactly the day after one of them |
| OccurrenceSpec.WatermarkNeverRecedes | events/services.py:94-106 | appending occurrences dated from the watermark on never moves the watermark back |
| OccurrenceSpec.SyncSelects | events/services.py:122 | the rows the sync updates: this series' events starting at or after now (a predicate) |
| OccurrenceSpec.SyncedRow | events/services.py:110-120 | one selected row after the update: the five shared fields from the series, the image only on request (its effect is `OccurrenceSpec.SyncedRowsEffect`) |
| OccurrenceSpec.SyncedRows | events/services.py:109-122 | the table after the update keeps its length; selected rows become synced rows, the others stay |
| OccurrenceSpec.SyncedRowsEffect | events/services.py:109-122 | the sync writes category, location, address, visibility, content, and the image only on request; only to this series' rows starting at or after now; never title, summary, start, end, status, slug or series |
| OccurrenceSpec.CountSelected | events/services.py:122 | the returned count is exactly the number of selected rows (the size of `SelectedIndices`), so at most the table size and 0 exactly when no row is selected |
| OccurrenceSpec.SyncIdempotent | events/services.py:109-122 | syncing twice is syncing once |
| OccurrenceSpec.SyncKeepsKeys | events/services.py:109-122 | the sync keeps slugs unique and keeps (series, start) unique |
| EventStore.EventTable.Save | events/models.py:195-216 | a new row, or a row whose title changed, gets the first free slug of its title; another row keeps its slug, and the save fails exactly when another row has that slug; the other rows stay untouched |
| EventStore.EventTable.GetOrCreate | events/services.py:18-33 | found exactly when one row matches (table unchanged); created exactly when none matches (the series' defaults appended with the first free slug); an error otherwise |
| EventStore.EventTable.AddOccurrence | events/services.py:18-33 | afterwards the occurrence is present and the table is still the old rows plus fresh occurrences; an error is possible only when the rows were not unique |
| EventStore.EventTable.GenerateWeekly | events/services.py:9-35 | the old rows untouched; new rows only at the series' time on days of the window with the series' weekday; every such start present; succeeds whenever (series, start) was unique |
| EventStore.EventTable.GenerateMonthly | events/services.py:38-78 | the old rows untouched; new rows only on the computed day of a month inside the window; every such start present; nothing without weekday and week of month |
| EventStore.EventTable.GenerateMonth | events/services.py:51-71 | one pass of the month loop keeps the new rows monthly targets and extends coverage to the next month's first |
| EventStore.EventTable.GenerateNextDays | events/services.py:94-106 | generation runs from the watermark through `days` days later; bi-weekly series create nothing; the watermark never moves back |
| EventStore.EventTable.ApplySeriesDefaults | events/services.py:109-122 | the table becomes the synced rows, and the result is the number of rows selected |
| EventTables.WeekOfMonthWord | events/tables.py:49-51 | any week of month other than 1..5 is shown as its plain decimal number (`wom_map.get(n, str(n))`) |
| EventTables.WeekOfMonthWordMatchesRule | events/tables.py:49-51 | weeks 1..4 read as the ordinal of the number, and "last" stands for week 5, the rule's "last" code, only |
| EventTables.WeekOfMonthWordInjective | events/tables.py:72-74 | different weeks of month get different words |
| EventTables.RenderRecurrence | events/tables.py:37-55 | `render_recurrence`: the rendered text always starts with the choice label |
| EventTables.RenderRecurrenceShape | events/tables.py:37-55 | the label starts with the choice label, and has " (word)" appended exactly when the week of month is set and non-zero |
| EventTables.RenderWeekday | events/tables.py:57-77 | the renderer fails (IndexError) exactly for a weekday of 7 or more |
| EventTables.RenderWeekdayCases | events/tables.py:57-77 | the dash for no weekday, the day name (0 is Monday, 6 Sunday) without a week of month, "<week word> <day name>" with one |
| EventTables.RenderWeekdayInjective | events/tables.py:70-77 | different weekdays render differently |
| EventTables.StatusClassAsWritten | events/tables.py:130-139 | `render_status`'s badge as written, comparing with "cancelled" (a function; its consequence is `EventTables.CanceledGetsWarningBadge`) |
| EventTables.CanceledGetsWarningBadge | events/tables.py:130-139 | as written, a canceled event gets the warning badge and no status gets the danger badge |
| EventTables.StatusClass | events/tables.py:130-139 | the badge with the canceled branch comparing with the stored value (a function; proved about in `EventTables.StatusClassDistinguishes`) |
| EventTables.StatusClassDistinguishes | events/tables.py:130-139 | corrected, canceled gets the danger badge and each status its own badge |
| EventTables.VisibilityClassAsWritten | events/tables.py:142-146 | `render_visibility`'s badge as written, comparing with "PUBLIC" (a function; its consequence is `EventTables.PublicNeverPrimary`) |
| EventTables.PublicNeverPrimary | events/tables.py:142-146 | as written, every visibility gets the light badge |
| EventTables.VisibilityClass | events/tables.py:142-146 | the badge comparing with the stored public value (a function; proved about in `EventTables.VisibilityClassPublicIff`) |
| EventTables.VisibilityClassPublicIff | events/tables.py:142-146 | corrected, exactly public events get the primary badge |
| Intake.AdminContactedAt | intake/admin.py:73-82 | after a save that changed the flag, a timestamp is present exactly when contacted; a timestamp the save sets is always now |
| Intake.AdminContactedAtRules | intake/admin.py:73-82 | unchanged flag keeps `contacted_at`; newly contacted without a time stamps now; contacted with a time keeps it; uncontacted clears it |
| Intake.AdminSaveConsistent | intake/admin.py:73-82 | after a save that changed the flag, a timestamp is present exactly when contacted, and saving again changes nothing |
| Intake.InterestSubmission.AdminSave | intake/admin.py:73-82 | only `contacted_at` is written, by the four rules, and it agrees with the flag when the flag changed |
| Intake.Confirmed | intake/views.py:145-157 | confirming always leaves the submission contacted, leaves a contacted one as it was, and keeps a consistent state consistent |
| Intake.ConfirmedRules | intake/views.py:145-157 | confirming marks the submission contacted, stamps now only when it was not contacted, is idempotent and keeps the state consistent |
| Intake.InterestSubmission.ConfirmPost | intake/views.py:145-157 | only `contacted` and `contacted_at` change, as confirming prescribes; the success message exactly when it was not contacted; always a redirect to the inbox |
| Intake.Shown | intake/admin.py:66 | the first three names, or all when fewer |
| Intake.SummaryOf | intake/admin.py:58-69 | `interest_summary` with the text for no interests as a parameter (a function; its cases are `Intake.SummaryFewNames` and `Intake.SummaryManyNames`) |
| Intake.InterestSummaryAsWritten | intake/admin.py:58-69 | the summary with the literal of line 64 (a function; see `Intake.EmptySummaryIsMisdecodedDash`) |
| Intake.InterestSummary | intake/admin.py:58-69 | the summary with an em dash for no interests (a function; see `Intake.EmptySummaryIsEmDash`) |
| Intake.SummaryFewNames | intake/admin.py:66-69 | one to three interests are all listed, joined by ", ", with no count |
| Intake.SummaryManyNames | intake/admin.py:66-69 | more than three list the first three and end with " +k", where k, read back, is the number not shown |
| Intake.EmptySummaryIsMisdecodedDash | intake/admin.py:63-64 | as written, the empty summary is not an em dash but its three UTF-8 bytes read as Windows-1252 |
| Intake.EmptySummaryIsEmDash | intake/admin.py:63-64 | corrected, the empty summary is the one-character em dash |
| Uploads.RFind | extras/utils.py:19 | the index of the last occurrence of a character, or -1 when there is none |
| Uploads.Extension | extras/utils.py:19 | `splitext` finds an extension exactly when the last dot comes after the last slash with a non-dot character of the last component before it; the extension then runs from that dot to the end, contains no other dot or slash, and is a suffix of the name; "" otherwise |
| Uploads.StripLeadingDots | extras/utils.py:19 | `lstrip(".")` removes a prefix made only of dots and leaves a suffix that does not start with a dot |
| Uploads.NormalizeExt | extras/utils.py:18-20 | `normalize_ext` never answers "jpeg", and answers "" for a name without an extension |
| Uploads.NormalizeExtOfExtension | extras/utils.py:18-20 | whenever `splitext` finds an extension, the result is what follows its dot, lower-cased, with "jpeg" spelled "jpg" |
| Uploads.ExtensionOfJoined | extras/utils.py:19 | `splitext` of `stem.e`, for an `e` without dots or slashes and a stem not ending in one, is `.e` |
| Uploads.NormalizeExtShape | extras/utils.py:18-20 | the result has no dot, slash or capital, is never "jpeg", and is empty exactly when the name has no extension or a bare trailing dot |
| Uploads.NormalizeExtOfJoined | extras/utils.py:18-20 | the extension of `stem.e` is `e` lower-cased, with "jpeg" in any case spelled "jpg" |
| Uploads.NormalizeExtIdempotent | extras/utils.py:18-20 | normalising a name that carries a normalised extension gives that extension back |
| Uploads.OwnerLabel | extras/utils.py:23-30 | "unassigned" exactly when there is no content type id or it is 0, the model name otherwise |
| Uploads.ObjectIdText | extras/utils.py:44 | "noid" exactly when the object id is missing or 0; otherwise its decimal digits, which read back as the id |
| Uploads.ImageUpload | extras/utils.py:33-51 | `image_upload`'s path starts "media/" and ends ".jpg" |
| Uploads.ImageUploadLayout | extras/utils.py:33-51 | the path starts "media/" and ends in the random fragment plus ".jpg", whatever the uploaded name |
| Uploads.ImageUploadIsJpg | extras/utils.py:45-51 | the stored name always normalises to the extension "jpg" |
| Uploads.ValidateLandscape | extras/utils.py:54-67 | accepted exactly when the file decodes and width > height; an undecodable file gets the not-an-image message |
| Uploads.SquareRejected | extras/utils.py:66-67 | square and portrait images get the landscape message |

## Left out

- Views, templates, URL routing, page metadata, the carousel script, forms, deletion signals, the authentication backend and the email sent by the connect view: rendering, framework plumbing or I/O.
- `process_image_to_jpeg` and the PIL decoding: foreign library calls. `Uploads.ValidateLandscape` receives the decoded size, or None for a file that does not decode.
- `uuid4`: the eight-hex-digit fragment is a parameter of `Uploads.ImageUpload`.
- `timezone.now()`: a parameter.
- `timezone.make_aware`, time zones and daylight saving time: starts are local (date, second-of-day) pairs.
- OccurrenceSpec.GenerationStart: takes the local date of the latest start. The source calls `.date()` on an aware datetime, which can name the previous or next day in UTC.
- Microseconds and `MAXYEAR` (and the `OverflowError` past year 9999): dates are unbounded above.
- Concurrency and database atomicity: `get_or_create` is a sequential lookup followed by an insert.
- Transactions: a generator stopped by `MultipleObjectsReturned` keeps the rows it created before the error, which is the source's behaviour without a transaction.
- EventStore.EventTable.Save: requires the primary key of a stored row. The source's save of an instance whose key has no row keeps the slug it carries; that case is not modelled.
- EventStore.EventTable.Save: a slug collision on a save that keeps its slug is the `IntegrityError` of the unique slug column. The model reports it as `SlugConflict`; other database errors are not modelled.
- EventStore.EventTable.GenerateNextDays: takes `days` as a natural number; a negative `days` is not modelled.
- EventModel.EventCategory.Save: the unique `name` column (events/models.py:18) can also refuse the row; only the slug column's refusal is modelled, since the other categories' names are not part of the model.
- Field lengths (slug 220, title 200, name 60): not enforced. Only the 200-character cut of the slug base is modelled.
- `slugify`: uninterpreted. `lower()` is modelled on ASCII letters only, and day names are the English ones.
- `get_recurrence_display` not being callable: not modelled; the label is always the choice label.
- Event fields the core never reads or writes (time zone name, online flag and URLs, capacity, author, featured and registration flags): not modelled.
- Flash messages: not modelled. `ConfirmPost` returns which of the two messages is shown.
- `InterestSubmission` fields other than names, email, notes and the two tracking fields: not modelled, and neither is the interest tag query.

## Findings

| source | as written | input that shows it | evidently intended | confidence | as-written member | corrected member |
|---|---|---|---|---|---|---|
| events/tables.py:136 | the danger badge is chosen for status "cancelled" | an event with status canceled, stored as "canceled" (events/choices.py:7), gets "badge bg-warning text-dark" | canceled events get "badge bg-danger" | high; not executed | EventTables.StatusClassAsWritten, EventTables.CanceledGetsWarningBadge | EventTables.StatusClass, EventTables.StatusClassDistinguishes |
| events/tables.py:143 | the primary badge is chosen for visibility "PUBLIC" | a public event, stored as "public" (events/choices.py:17), gets "badge bg-light text-dark border" | public events get "badge bg-all-primary" | high; not executed | EventTables.VisibilityClassAsWritten, EventTables.PublicNeverPrimary | EventTables.VisibilityClass, EventTables.VisibilityClassPublicIff |
| intake/admin.py:64 | the text for no interests is the three characters U+00E2 U+20AC U+201D | a submission with no interests shows those three characters | an em dash U+2014, as the tables show for an empty weekday (events/tables.py:68) | high; not executed | Intake.InterestSummaryAsWritten, Intake.EmptySummaryIsMisdecodedDash | Intake.InterestSummary, Intake.EmptySummaryIsEmDash |
