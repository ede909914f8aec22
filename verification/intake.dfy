/** Contact tracking of interest submissions (intake/admin.py,
    intake/views.py): the admin's rule for `contacted_at`, the idempotent
    "mark contacted" confirmation, and the admin's interest summary. */
module Intake {
  import opened Options
  import opened Text
  import opened EventModel

  // ---------------------------------------------------------------------
  // Contact state

  /** The two tracking fields of a submission. */
  datatype ContactState = ContactState(contacted: bool, contactedAt: Option<Timestamp>)

  /** The flag and the timestamp agree: a timestamp is recorded exactly when
      the submission is marked contacted. */
  predicate Consistent(c: ContactState) {
    c.contacted <==> c.contactedAt.Some?
  }

  /** `contacted_at` after `InterestSubmissionAdmin.save_model`, given the
      flag and timestamp as the admin form left them. */
  function AdminContactedAt(contacted: bool, contactedAt: Option<Timestamp>, contactedChanged: bool, now: Timestamp): (r: Option<Timestamp>)
    ensures contactedChanged ==> (r.Some? <==> contacted)
    ensures r.Some? && r != contactedAt ==> r == Some(now)
  {
    if !contactedChanged then contactedAt
    else if contacted && contactedAt.None? then Some(now)
    else if !contacted then None
    else contactedAt
  }

  /** The four rules of the admin save. */
  lemma AdminContactedAtRules(contacted: bool, at: Option<Timestamp>, changed: bool, now: Timestamp)
    ensures !changed ==> AdminContactedAt(contacted, at, changed, now) == at
    ensures changed && contacted && at.None? ==> AdminContactedAt(contacted, at, changed, now) == Some(now)
    ensures changed && contacted && at.Some? ==> AdminContactedAt(contacted, at, changed, now) == at
    ensures changed && !contacted ==> AdminContactedAt(contacted, at, changed, now) == None
  {
  }

  /** Whenever the flag was changed, the admin save leaves flag and
      timestamp consistent, and saving again changes nothing more. */
  lemma AdminSaveConsistent(contacted: bool, at: Option<Timestamp>, changed: bool, now: Timestamp, later: Timestamp)
    ensures changed ==> Consistent(ContactState(contacted, AdminContactedAt(contacted, at, changed, now)))
    ensures var at' := AdminContactedAt(contacted, at, changed, now);
            AdminContactedAt(contacted, at', changed, later) == at'
  {
  }

  /** The state after `InterestSubmissionConfirmView.post`. */
  function Confirmed(c: ContactState, now: Timestamp): (r: ContactState)
    ensures r.contacted
    ensures c.contacted ==> r == c
    ensures Consistent(c) ==> Consistent(r)
  {
    if !c.contacted then ContactState(true, Some(now)) else c
  }

  /** Confirming marks the submission contacted, stamps it with `now` only
      when it was not contacted, is idempotent, and keeps a consistent state
      consistent. */
  lemma ConfirmedRules(c: ContactState, now: Timestamp, later: Timestamp)
    ensures Confirmed(c, now).contacted
    ensures !c.contacted ==> Confirmed(c, now).contactedAt == Some(now)
    ensures c.contacted ==> Confirmed(c, now) == c
    ensures Confirmed(Confirmed(c, now), later) == Confirmed(c, now)
    ensures Consistent(c) ==> Consistent(Confirmed(c, now))
  {
  }

  /** Where the confirmation redirects. */
  const InboxRoute := "connect_inbox"

  class InterestSubmission {
    var firstName: string
    var lastName: string
    var email: string
    var notes: string
    var contacted: bool
    var contactedAt: Option<Timestamp>

    constructor (firstName: string, lastName: string, email: string)
      ensures this.firstName == firstName && this.lastName == lastName && this.email == email
      ensures notes == "" && !contacted && contactedAt.None?
    {
      this.firstName := firstName;
      this.lastName := lastName;
      this.email := email;
      notes := "";
      contacted := false;
      contactedAt := None;
    }

    function State(): ContactState
      reads this
    {
      ContactState(contacted, contactedAt)
    }

    /** `InterestSubmissionAdmin.save_model`: the form has already set the
        fields; only `contacted_at` is adjusted, and only when the contacted
        flag is among the changed fields. */
    method AdminSave(contactedChanged: bool, now: Timestamp)
      modifies this`contactedAt
      ensures contactedAt == AdminContactedAt(contacted, old(contactedAt), contactedChanged, now)
      ensures contactedChanged ==> Consistent(State())
    {
      if contactedChanged {
        if contacted && contactedAt.None? {
          contactedAt := Some(now);
        }
        if !contacted {
          contactedAt := None;
        }
      }
    }

    /** `InterestSubmissionConfirmView.post`: mark an uncontacted submission
        contacted at `now`; an already contacted one is left as it is. Both
        paths redirect to the inbox; `marked` tells which message is shown. */
    method ConfirmPost(now: Timestamp) returns (redirect: string, marked: bool)
      modifies this`contacted, this`contactedAt
      ensures State() == Confirmed(old(State()), now)
      ensures marked <==> !old(contacted)
      ensures redirect == InboxRoute
    {
      marked := !contacted;
      if !contacted {
        contacted := true;
        contactedAt := Some(now);
      }
      redirect := InboxRoute;
    }
  }

  // ---------------------------------------------------------------------
  // Interest summary

  /** The first three names (all of them when there are fewer). */
  function Shown(names: seq<string>): (r: seq<string>)
    ensures |r| == if |names| <= 3 then |names| else 3
    ensures r == names[..|r|]
  {
    if |names| <= 3 then names else names[..3]
  }

  /** `interest_summary` with `empty` as the text for no interests: up to
      three names joined by ", ", then " +k" when k more are not shown. */
  function SummaryOf(names: seq<string>, empty: string): string {
    if |names| == 0 then empty
    else
      var shown := Shown(names);
      var extra := |names| - |shown|;
      Join(", ", shown) + (if extra > 0 then " +" + DecimalString(extra) else "")
  }

  /** The text the admin shows for a submission without interests, as
      written: the em dash's UTF-8 bytes read as Windows-1252. */
  const MisencodedDash: string := "\U{00E2}\U{20AC}\U{201D}"

  /** `InterestSubmissionAdmin.interest_summary` as written. */
  function InterestSummaryAsWritten(names: seq<string>): string {
    SummaryOf(names, MisencodedDash)
  }

  /** The summary with the evidently intended em dash for no interests. */
  function InterestSummary(names: seq<string>): string {
    SummaryOf(names, EmDash)
  }

  /** With one to three interests the summary lists them all, with no count. */
  lemma SummaryFewNames(names: seq<string>, empty: string)
    requires 1 <= |names| <= 3
    ensures SummaryOf(names, empty) == Join(", ", names)
    ensures |SummaryOf(names, empty)| == TotalLength(names) + 2 * (|names| - 1)
  {
    JoinLength(", ", names);
  }

  /** With more than three interests the summary lists the first three and
      ends with " +k", from which the number k of hidden interests reads
      back. */
  lemma SummaryManyNames(names: seq<string>, empty: string)
    requires |names| > 3
    ensures var r := SummaryOf(names, empty);
            var d := DecimalString(|names| - 3);
            && |r| == |Join(", ", names[..3])| + 2 + |d|
            && r[..|Join(", ", names[..3])|] == Join(", ", names[..3])
            && r[|r| - |d| - 2..|r| - |d|] == " +"
            && ParseDecimal(r[|r| - |d|..]) == |names| - 3
  {
    var d := DecimalString(|names| - 3);
    var r := SummaryOf(names, empty);
    assert r == Join(", ", names[..3]) + " +" + d;
    assert r[|r| - |d|..] == d;
    DecimalRoundTrip(|names| - 3);
  }

  // The misencoding: UTF-8 of a character in U+0800..U+FFFF, and the
  // Windows-1252 reading of a byte.

  function Utf8Three(c: char): seq<int>
    requires 0x800 <= c as int < 0x10000
  {
    var n := c as int;
    [0xE0 + n / 4096, 0x80 + (n / 64) % 64, 0x80 + n % 64]
  }

  /** The Windows-1252 character of a byte; None for the five unassigned
      bytes. */
  function Cp1252(b: int): Option<char>
    requires 0 <= b < 256
  {
    if b < 0x80 || 0xA0 <= b then Some(b as char)
    else
      var table: seq<int> := [
        0x20AC, 0, 0x201A, 0x0192, 0x201E, 0x2026, 0x2020, 0x2021,
        0x02C6, 0x2030, 0x0160, 0x2039, 0x0152, 0, 0x017D, 0,
        0, 0x2018, 0x2019, 0x201C, 0x201D, 0x2022, 0x2013, 0x2014,
        0x02DC, 0x2122, 0x0161, 0x203A, 0x0153, 0, 0x017E, 0x0178];
      var c := table[b - 0x80];
      if c == 0 then None else Some(c as char)
  }

  /** The empty-interest text as written is not an em dash: it is the em
      dash's three UTF-8 bytes, each shown as its Windows-1252 character. */
  lemma EmptySummaryIsMisdecodedDash()
    ensures InterestSummaryAsWritten([]) != EmDash
    ensures var bytes := Utf8Three(EmDash[0]);
            |bytes| == 3 && |InterestSummaryAsWritten([])| == 3 &&
            forall i | 0 <= i < 3 :: 0 <= bytes[i] < 256 && Cp1252(bytes[i]) == Some(InterestSummaryAsWritten([])[i])
  {
    var bytes := Utf8Three(EmDash[0]);
    assert bytes == [0xE2, 0x80, 0x94];
  }

  /** The corrected summary shows the same em dash as the tables' empty
      weekday, and a single character. */
  lemma EmptySummaryIsEmDash()
    ensures InterestSummary([]) == EmDash && |InterestSummary([])| == 1
  {
  }
}
