/** The records of the events module (events/models.py, events/choices.py):
    categories, series and event occurrences, the choice values they store,
    start timestamps, and the slug rules of their `save` methods. */
module EventModel {
  import opened Options
  import opened Calendar
  import opened Text

  datatype EventStatus = Draft | Published | Canceled

  /** The value an event status is stored as. */
  function StatusValue(st: EventStatus): string {
    match st
    case Draft => "draft"
    case Published => "published"
    case Canceled => "canceled"
  }

  datatype Visibility = Public | Members | Private

  /** The value a visibility is stored as. */
  function VisibilityValue(v: Visibility): string {
    match v
    case Public => "public"
    case Members => "members"
    case Private => "private"
  }

  datatype Recurrence = Weekly | Biweekly | Monthly

  /** The display label of a recurrence choice. */
  function RecurrenceLabel(r: Recurrence): string {
    match r
    case Weekly => "Weekly"
    case Biweekly => "Every 2 Weeks"
    case Monthly => "Monthly"
  }

  /** Seconds since midnight (microseconds are not modelled). */
  type TimeOfDay = s: int | 0 <= s < 86400

  const SecondsPerDay := 86400

  /** A local date-time, as `datetime.combine(date, time)` builds it. */
  datatype Timestamp = Timestamp(date: ValidDate, second: TimeOfDay)

  /** Seconds since the start of day 0; orders timestamps. */
  function Instant(t: Timestamp): int {
    Ord(t.date) * SecondsPerDay + t.second
  }

  /** Distinct timestamps are distinct instants. */
  lemma InstantInjective(a: Timestamp, b: Timestamp)
    requires Instant(a) == Instant(b)
    ensures a == b
  {
    assert Ord(a.date) == Ord(b.date);
    OrdInjective(a.date, b.date);
  }

  /** `t + timedelta(minutes=minutes)`. */
  function AddMinutes(t: Timestamp, minutes: nat): (r: Timestamp)
    ensures Instant(r) == Instant(t) + 60 * minutes
  {
    var total := t.second + 60 * minutes;
    Timestamp(AddDays(t.date, total / SecondsPerDay), total % SecondsPerDay)
  }

  /** `Event.is_upcoming`: the start is not before now. */
  predicate IsUpcoming(start: Timestamp, now: Timestamp) {
    Instant(start) >= Instant(now)
  }

  /** An event is upcoming exactly when it starts on a later day than now,
      or on the same day at or after now's time of day. */
  lemma UpcomingByDate(start: Timestamp, now: Timestamp)
    ensures IsUpcoming(start, now) <==>
            (Ord(start.date) > Ord(now.date) ||
             (start.date == now.date && start.second >= now.second))
  {
    if start.date != now.date && Ord(start.date) == Ord(now.date) {
      OrdInjective(start.date, now.date);
    }
  }

  /** One event row. Fields the events core never reads or writes (time zone
      name, online flag and URLs, capacity, author, featured and registration
      flags) are not modelled. */
  datatype Event = Event(
    title: string,
    slug: string,
    summary: string,
    content: Option<string>,
    image: Option<nat>,
    start: Timestamp,
    end: Option<Timestamp>,
    locationName: string,
    address: string,
    status: EventStatus,
    visibility: Visibility,
    series: Option<nat>,
    category: Option<nat>)

  /** What the generator reads of an `EventSeries` row. */
  datatype Series = Series(
    id: nat,
    title: string,
    description: string,
    content: Option<string>,
    image: Option<nat>,
    category: Option<nat>,
    visibility: Visibility,
    defaultLocation: string,
    defaultAddress: string,
    defaultDurationMinutes: nat,
    startDate: ValidDate,
    endDate: Option<ValidDate>,
    startTime: TimeOfDay,
    recurrence: Recurrence,
    weekday: Option<nat>,
    weekOfMonth: Option<nat>,
    isActive: bool)

  // ---------------------------------------------------------------------
  // Slugs

  /** A blank slug is filled from `slugify(source)`; a set one is kept. */
  function FilledSlug(slug: string, source: string, slugify: string -> string): string {
    if slug == "" then slugify(source) else slug
  }

  /** Filling never overwrites a slug that is set, fills a blank one from
      the source, and filling twice is filling once. */
  lemma FilledSlugRule(slug: string, source: string, slugify: string -> string)
    ensures slug != "" ==> FilledSlug(slug, source, slugify) == slug
    ensures slug == "" ==> FilledSlug(slug, source, slugify) == slugify(source)
    ensures FilledSlug(FilledSlug(slug, source, slugify), source, slugify) == FilledSlug(slug, source, slugify)
  {
  }

  class EventCategory {
    var name: string
    var slug: string

    constructor (name: string, slug: string)
      ensures this.name == name && this.slug == slug
    {
      this.name := name;
      this.slug := slug;
    }

    /** `EventCategory.save`: default a blank slug from the name, then
        store the row. `otherSlugs` are the slugs of the other stored
        categories; the unique slug column refuses the row (an
        `IntegrityError`, `saved` false) when its slug is among them. */
    method Save(slugify: string -> string, otherSlugs: set<string>) returns (saved: bool)
      modifies this`slug
      ensures slug == FilledSlug(old(slug), name, slugify)
      ensures old(slug) != "" ==> slug == old(slug)
      ensures saved <==> slug !in otherSlugs
    {
      if slug == "" {
        slug := slugify(name);
      }
      saved := slug !in otherSlugs;
    }
  }

  class EventSeries {
    var definition: Series
    var slug: string

    constructor (definition: Series, slug: string)
      ensures this.definition == definition && this.slug == slug
    {
      this.definition := definition;
      this.slug := slug;
    }

    /** `EventSeries.save`: default a blank slug from the title, then store
        the row; `saved` is false when the unique slug column refuses it
        because another stored series has that slug (`IntegrityError`). */
    method Save(slugify: string -> string, otherSlugs: set<string>) returns (saved: bool)
      modifies this`slug
      ensures slug == FilledSlug(old(slug), definition.title, slugify)
      ensures old(slug) != "" ==> slug == old(slug)
      ensures saved <==> slug !in otherSlugs
    {
      if slug == "" {
        slug := slugify(definition.title);
      }
      saved := slug !in otherSlugs;
    }
  }

  const SlugBaseLength := 200

  /** `slugify(title)[:200] or "event"`. */
  function SlugBase(slugified: string): (b: string)
    ensures 1 <= |b| <= SlugBaseLength
    ensures slugified == "" ==> b == "event"
    ensures slugified != "" ==> b <= slugified && |b| == if |slugified| < SlugBaseLength then |slugified| else SlugBaseLength
  {
    var cut := if |slugified| <= SlugBaseLength then slugified else slugified[..SlugBaseLength];
    if cut == "" then "event" else cut
  }

  /** The i-th slug tried: `base`, then `base-2`, `base-3`, ... */
  function SlugCandidate(base: string, i: nat): (c: string)
    requires 1 <= i
    ensures base <= c
    ensures c == base <==> i == 1
  {
    if i == 1 then base else base + "-" + DecimalString(i)
  }

  /** Different attempts try different slugs. */
  lemma SlugCandidateInjective(base: string, i: nat, j: nat)
    requires 1 <= i && 1 <= j && SlugCandidate(base, i) == SlugCandidate(base, j)
    ensures i == j
  {
    if i != 1 && j != 1 {
      var si, sj := SlugCandidate(base, i), SlugCandidate(base, j);
      assert si[|base| + 1..] == DecimalString(i);
      assert sj[|base| + 1..] == DecimalString(j);
      DecimalStringInjective(i, j);
    }
  }

  /** `slug` is the first candidate not in `taken`. */
  ghost predicate IsFirstFreeSlug(base: string, taken: set<string>, slug: string) {
    slug !in taken &&
    exists k: nat :: 1 <= k && slug == SlugCandidate(base, k) &&
      forall j: nat | 1 <= j < k :: SlugCandidate(base, j) in taken
  }

  /** At most one slug is the first free one. */
  lemma FirstFreeSlugUnique(base: string, taken: set<string>, a: string, b: string)
    requires IsFirstFreeSlug(base, taken, a) && IsFirstFreeSlug(base, taken, b)
    ensures a == b
  {
    var ka: nat :| 1 <= ka && a == SlugCandidate(base, ka) &&
      forall j: nat | 1 <= j < ka :: SlugCandidate(base, j) in taken;
    var kb: nat :| 1 <= kb && b == SlugCandidate(base, kb) &&
      forall j: nat | 1 <= j < kb :: SlugCandidate(base, j) in taken;
    assert ka >= kb;
    assert kb >= ka;
  }

  /** The slugs tried before the k-th attempt. */
  ghost function Tried(base: string, k: nat): set<string> {
    set j: nat | 1 <= j < k :: SlugCandidate(base, j)
  }

  /** The k-th candidate is new: it is not among those tried before it. */
  lemma CandidateNotTried(base: string, k: nat)
    requires 1 <= k
    ensures SlugCandidate(base, k) !in Tried(base, k)
    ensures Tried(base, k + 1) == Tried(base, k) + {SlugCandidate(base, k)}
  {
    forall j: nat | 1 <= j < k
      ensures SlugCandidate(base, j) != SlugCandidate(base, k)
    {
      if SlugCandidate(base, j) == SlugCandidate(base, k) {
        SlugCandidateInjective(base, j, k);
      }
    }
  }

  lemma ShrinkRemaining(taken: set<string>, tried: set<string>, slug: string)
    requires slug in taken && slug !in tried
    ensures |taken - (tried + {slug})| < |taken - tried|
  {
    assert taken - (tried + {slug}) == (taken - tried) - {slug};
  }

  /** The de-duplication loop of `Event.save`: try `base`, `base-2`,
      `base-3`, ... until one is not taken. It stops because the candidates
      are pairwise distinct and only finitely many slugs are taken. */
  method FirstFreeSlug(base: string, taken: set<string>) returns (slug: string)
    ensures IsFirstFreeSlug(base, taken, slug)
  {
    slug := base;
    var i: nat := 2;
    while slug in taken
      invariant 2 <= i && slug == SlugCandidate(base, i - 1)
      invariant Tried(base, i - 1) <= taken
      decreases |taken - Tried(base, i - 1)|
    {
      CandidateNotTried(base, i - 1);
      ShrinkRemaining(taken, Tried(base, i - 1), slug);
      slug := base + "-" + DecimalString(i);
      i := i + 1;
    }
    assert forall j: nat | 1 <= j < i - 1 :: SlugCandidate(base, j) in Tried(base, i - 1);
  }
}
