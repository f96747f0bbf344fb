/** The recurrence and exception synthesiser: day-change groups, the inclusion (RDATE) and
    exclusion (EXDATE) sets of a weekly meeting, the `RRULE` line, colours, and the event
    payloads of a course. Configuration values are parameters. */
module Events {
  import opened Results
  import opened Civil
  import opened Text
  import Dates
  import opened Timetable

  /** Day codes of the weekly rule, Monday to Saturday (`RFC_WDAY`). */
  const RFC_WDAY: seq<string> := ["MO", "TU", "WE", "TH", "FR", "SA"]

  const MIDSEM_COLOR := "4"
  const COMPRE_COLOR := "7"
  const REMINDER_MINUTES := 10

  /** The change dates that take on the timetable of one weekday. */
  datatype Group = Group(code: string, dates: seq<Date>)

  /** The configuration state the module works from: today's date, the mid-semester range,
      the holidays, the day-change groups (`INCLUDE_DATES`) and the configured last date. */
  datatype Settings = Settings(today: Date, midsem: Option<(Date, Date)>, holidays: set<Date>,
                               groups: seq<Group>, lastDate: Option<Date>)

  ghost predicate ValidSettings(s: Settings) {
    && (s.midsem.Some? ==> Valid(s.midsem.value.0) && Valid(s.midsem.value.1))
    && (s.lastDate.Some? ==> Valid(s.lastDate.value))
  }

  /** `INCLUDE_DATES[code].append(d)` on a `defaultdict(list)`: a new code goes last. */
  function AddTo(gs: seq<Group>, code: string, d: Date): seq<Group> {
    if gs == [] then [Group(code, [d])]
    else if gs[0].code == code then [Group(code, gs[0].dates + [d])] + gs[1..]
    else [gs[0]] + AddTo(gs[1..], code, d)
  }

  /** The groups the day-change entries produce, in entry order. */
  function Grouped(dc: seq<(Date, string)>): seq<Group> {
    if dc == [] then [] else AddTo(Grouped(dc[..|dc| - 1]), dc[|dc| - 1].1, dc[|dc| - 1].0)
  }

  /** `INCLUDE_DATES.get(code, [])`. */
  function Lookup(gs: seq<Group>, code: string): seq<Date> {
    if gs == [] then [] else if gs[0].code == code then gs[0].dates else Lookup(gs[1..], code)
  }

  /** The dates of the entries that target `code`, in entry order. */
  function DatesFor(dc: seq<(Date, string)>, code: string): seq<Date> {
    if dc == [] then []
    else DatesFor(dc[..|dc| - 1], code) + (if dc[|dc| - 1].1 == code then [dc[|dc| - 1].0] else [])
  }

  /** `CHANGE_DATES`: the groups' dates, one group after another. */
  function Flatten(gs: seq<Group>): seq<Date> {
    if gs == [] then [] else gs[0].dates + Flatten(gs[1..])
  }

  function EntryDates(dc: seq<(Date, string)>): seq<Date> {
    if dc == [] then [] else EntryDates(dc[..|dc| - 1]) + [dc[|dc| - 1].0]
  }

  lemma {:induction false} AddToLookup(gs: seq<Group>, code: string, d: Date, c: string)
    ensures Lookup(AddTo(gs, code, d), c) == Lookup(gs, c) + (if c == code then [d] else [])
  {
    if gs == [] {
    } else if gs[0].code == code {
      assert ([Group(code, gs[0].dates + [d])] + gs[1..])[1..] == gs[1..];
    } else {
      assert ([gs[0]] + AddTo(gs[1..], code, d))[1..] == AddTo(gs[1..], code, d);
      AddToLookup(gs[1..], code, d, c);
    }
  }

  /** Each code's group holds exactly the dates of the entries targeting it, in order. */
  lemma {:induction false} GroupedLookup(dc: seq<(Date, string)>, c: string)
    ensures Lookup(Grouped(dc), c) == DatesFor(dc, c)
  {
    if dc != [] {
      GroupedLookup(dc[..|dc| - 1], c);
      AddToLookup(Grouped(dc[..|dc| - 1]), dc[|dc| - 1].1, dc[|dc| - 1].0, c);
    }
  }

  lemma {:induction false} AddToFlatten(gs: seq<Group>, code: string, d: Date)
    ensures multiset(Flatten(AddTo(gs, code, d))) == multiset(Flatten(gs)) + multiset{d}
  {
    if gs == [] {
      assert Flatten([Group(code, [d])]) == [d] + Flatten([]);
    } else if gs[0].code == code {
      var u := [Group(code, gs[0].dates + [d])] + gs[1..];
      assert u[1..] == gs[1..];
      assert Flatten(u) == (gs[0].dates + [d]) + Flatten(gs[1..]);
    } else {
      var u := [gs[0]] + AddTo(gs[1..], code, d);
      assert u[1..] == AddTo(gs[1..], code, d);
      AddToFlatten(gs[1..], code, d);
    }
  }

  /** `CHANGE_DATES` holds every change date exactly as often as the entries name it. */
  lemma {:induction false} ChangeDatesComplete(dc: seq<(Date, string)>)
    ensures multiset(Flatten(Grouped(dc))) == multiset(EntryDates(dc))
  {
    if dc != [] {
      ChangeDatesComplete(dc[..|dc| - 1]);
      AddToFlatten(Grouped(dc[..|dc| - 1]), dc[|dc| - 1].1, dc[|dc| - 1].0);
    }
  }

  /** The module-level loop: every day-change entry must target one of MO..SA; the dates are
      grouped by target code. */
  method BuildIncludeDates(dc: seq<(Date, string)>) returns (r: Result<seq<Group>>)
    ensures r.Success? <==> forall i :: 0 <= i < |dc| ==> dc[i].1 in RFC_WDAY
    ensures r.Success? ==> r.value == Grouped(dc)
    ensures r.Failure? ==> exists i :: 0 <= i < |dc| && dc[i].1 !in RFC_WDAY
                                       && (forall j :: 0 <= j < i ==> dc[j].1 in RFC_WDAY)
                                       && r.error == AssertionError("Invalid day '" + dc[i].1 + "' in 'day_change' config")
  {
    var groups: seq<Group> := [];
    var i := 0;
    while i < |dc|
      invariant 0 <= i <= |dc|
      invariant forall j :: 0 <= j < i ==> dc[j].1 in RFC_WDAY
      invariant groups == Grouped(dc[..i])
    {
      var (changeDate, day) := dc[i];
      if day !in RFC_WDAY {
        return Failure(AssertionError("Invalid day '" + day + "' in 'day_change' config"));
      }
      assert dc[..i + 1][..i] == dc[..i];
      groups := AddTo(groups, day, changeDate);
      i := i + 1;
    }
    assert dc[..i] == dc;
    return Success(groups);
  }

  /** The module-level check of the configured mid-semester range. */
  function CheckMidsem(today: Date, midsem: Option<(Date, Date)>): (r: Result<Option<(Date, Date)>>)
    ensures r.Success? <==> midsem.None? || Ordinal(midsem.value.0) >= Ordinal(today)
    ensures r.Success? ==> r.value == midsem
    ensures r.Failure? ==> r.error == AssertionError("Midsem start date is in the past")
  {
    if midsem.Some? && Ordinal(midsem.value.0) < Ordinal(today)
    then Failure(AssertionError("Midsem start date is in the past"))
    else Success(midsem)
  }

  /** `get_last_date`: the day after the configured last date (default: Nov 29 or Apr 29 of
      this year); when that is already past, the default itself, without the extra day. */
  function GetLastDate(today: Date, configured: Option<Date>): (d: Date)
    requires configured.Some? ==> Valid(configured.value)
    ensures var base := if configured.Some? then configured.value else Dates.SemLastDate(today);
      && Valid(d)
      && (Ordinal(base) + 1 >= Ordinal(today) ==> Ordinal(d) == Ordinal(base) + 1)
      && (Ordinal(base) + 1 < Ordinal(today) ==> d == Dates.SemLastDate(today))
  {
    var default := Dates.SemLastDate(today);
    var last := NextDay(if configured.Some? then configured.value else default);
    if Ordinal(last) < Ordinal(today) then default else last
  }

  /** The last date of every weekly rule, `get_last_date()`. */
  function Until(s: Settings): Date
    requires ValidSettings(s)
  {
    GetLastDate(s.today, s.lastDate)
  }

  /** `strftime('%Y%m%d')`. */
  function Compact(d: Date): string {
    PadNat(if d.year < 0 then 0 else d.year, 4) + PadNat(if d.month < 0 then 0 else d.month, 2)
    + PadNat(if d.day < 0 then 0 else d.day, 2)
  }

  /** The weekly rule's day list: the meeting days' codes in the meeting's order. */
  function ByDayCodes(wdays: seq<DayNumber>): (codes: seq<string>)
    ensures |codes| == |wdays| && forall i :: 0 <= i < |wdays| ==> codes[i] == RFC_WDAY[wdays[i] - 1]
  {
    seq(|wdays|, i requires 0 <= i < |wdays| => RFC_WDAY[wdays[i] - 1])
  }

  /** The text of a weekly rule: its day codes comma-joined, its last date as `%Y%m%d`. */
  function RRuleText(byday: seq<string>, until: Date): string {
    "RRULE:FREQ=WEEKLY;BYDAY=" + Join(",", byday) + ";UNTIL=" + Compact(until)
  }

  /** The `BYDAY` field splits back into the meeting days' codes, in order. */
  lemma ByDayRoundTrip(wdays: seq<DayNumber>)
    requires wdays != []
    ensures Split(Join(",", ByDayCodes(wdays)), ',') == ByDayCodes(wdays)
  {
    var codes := ByDayCodes(wdays);
    forall i | 0 <= i < |codes| ensures ',' !in codes[i] {
      assert codes[i] in RFC_WDAY;
    }
    SplitJoin(codes, ',');
  }

  /** `get_indates`: the change dates of every meeting day's group. */
  function Indates(groups: seq<Group>, wdays: seq<DayNumber>): set<Date> {
    if wdays == [] then {}
    else Indates(groups, wdays[..|wdays| - 1]) + Elements(Lookup(groups, RFC_WDAY[wdays[|wdays| - 1] - 1]))
  }

  function Elements(ds: seq<Date>): set<Date> {
    set d | d in ds
  }

  /** A date is included exactly when some meeting day's group holds it. */
  lemma IndatesMembers(groups: seq<Group>, wdays: seq<DayNumber>, d: Date)
    ensures d in Indates(groups, wdays)
            <==> exists i :: 0 <= i < |wdays| && d in Lookup(groups, RFC_WDAY[wdays[i] - 1])
  {
    if d in Indates(groups, wdays) {
      IndatesFrom(groups, wdays, d);
    }
    if exists i :: 0 <= i < |wdays| && d in Lookup(groups, RFC_WDAY[wdays[i] - 1]) {
      var i :| 0 <= i < |wdays| && d in Lookup(groups, RFC_WDAY[wdays[i] - 1]);
      IndatesHas(groups, wdays, i, d);
    }
  }

  lemma {:induction false} IndatesFrom(groups: seq<Group>, wdays: seq<DayNumber>, d: Date)
    requires d in Indates(groups, wdays)
    ensures exists i :: 0 <= i < |wdays| && d in Lookup(groups, RFC_WDAY[wdays[i] - 1])
  {
    var init := wdays[..|wdays| - 1];
    if d in Indates(groups, init) {
      IndatesFrom(groups, init, d);
      var i :| 0 <= i < |init| && d in Lookup(groups, RFC_WDAY[init[i] - 1]);
      assert wdays[i] == init[i];
    } else {
      assert d in Lookup(groups, RFC_WDAY[wdays[|wdays| - 1] - 1]);
    }
  }

  lemma {:induction false} IndatesHas(groups: seq<Group>, wdays: seq<DayNumber>, i: nat, d: Date)
    requires i < |wdays| && d in Lookup(groups, RFC_WDAY[wdays[i] - 1])
    ensures d in Indates(groups, wdays)
  {
    var init := wdays[..|wdays| - 1];
    if i < |init| {
      assert init[i] == wdays[i];
      IndatesHas(groups, init, i, d);
    }
  }

  /** With the groups built from the day-change entries, an inclusion date is the date of an
      entry retargeting one of the meeting's days, and every such entry's date is included. */
  lemma IndatesAreChanges(dc: seq<(Date, string)>, wdays: seq<DayNumber>, d: Date)
    ensures d in Indates(Grouped(dc), wdays)
            <==> exists i :: 0 <= i < |wdays| && d in DatesFor(dc, RFC_WDAY[wdays[i] - 1])
  {
    IndatesMembers(Grouped(dc), wdays, d);
    forall i | 0 <= i < |wdays| {
      GroupedLookup(dc, RFC_WDAY[wdays[i] - 1]);
    }
  }

  method GetIndates(groups: seq<Group>, wdays: seq<DayNumber>) returns (indates: set<Date>)
    ensures indates == Indates(groups, wdays)
  {
    indates := {};
    var i := 0;
    while i < |wdays|
      invariant 0 <= i <= |wdays|
      invariant indates == Indates(groups, wdays[..i])
    {
      var dates := Lookup(groups, RFC_WDAY[wdays[i] - 1]);
      assert wdays[..i + 1][..i] == wdays[..i];
      indates := indates + Elements(dates);
      i := i + 1;
    }
    assert wdays[..i] == wdays;
  }

  /** The days from `cur` to `end` inclusive that fall on a meeting day. */
  function MidsemRange(cur: Date, end: Date, wdays: seq<DayNumber>): set<Date>
    requires Valid(cur)
    decreases Ordinal(end) - Ordinal(cur) + 1
  {
    if Ordinal(cur) > Ordinal(end) then {}
    else (if IsoWeekday(cur) in wdays then {cur} else {}) + MidsemRange(NextDay(cur), end, wdays)
  }

  /** The range holds exactly the valid days between its ends that are meeting days. */
  lemma {:induction false} MidsemRangeExact(cur: Date, end: Date, wdays: seq<DayNumber>, d: Date)
    requires Valid(cur)
    ensures d in MidsemRange(cur, end, wdays)
            <==> Valid(d) && Ordinal(cur) <= Ordinal(d) <= Ordinal(end) && IsoWeekday(d) in wdays
    decreases Ordinal(end) - Ordinal(cur) + 1
  {
    if Ordinal(cur) <= Ordinal(end) {
      MidsemRangeExact(NextDay(cur), end, wdays, d);
      if Valid(d) && Ordinal(d) == Ordinal(cur) {
        OrdinalInjective(d, cur);
      }
    }
  }

  function MidsemExclusions(midsem: Option<(Date, Date)>, wdays: seq<DayNumber>): set<Date>
    requires midsem.Some? ==> Valid(midsem.value.0)
  {
    if midsem.None? then {} else MidsemRange(midsem.value.0, midsem.value.1, wdays)
  }

  /** `get_exdates`: every holiday, every meeting day of the mid-semester range, and every
      change date on a meeting day that is not an inclusion date. */
  function Exdates(s: Settings, wdays: seq<DayNumber>, indates: set<Date>): set<Date>
    requires ValidSettings(s)
  {
    s.holidays + MidsemExclusions(s.midsem, wdays) + ChangeExclusions(Flatten(s.groups), wdays, indates)
  }

  /** The change dates on a meeting day that are not inclusion dates. */
  function ChangeExclusions(changes: seq<Date>, wdays: seq<DayNumber>, indates: set<Date>): set<Date> {
    if changes == [] then {}
    else
      var d := changes[|changes| - 1];
      ChangeExclusions(changes[..|changes| - 1], wdays, indates)
      + (if IsoWeekday(d) in wdays && d !in indates then {d} else {})
  }

  /** A date is a change exclusion exactly when it is a change date on a meeting day that is
      not an inclusion date. */
  lemma {:induction false} ChangeExclusionsMembers(changes: seq<Date>, wdays: seq<DayNumber>, indates: set<Date>, d: Date)
    ensures d in ChangeExclusions(changes, wdays, indates) <==> d in changes && IsoWeekday(d) in wdays && d !in indates
  {
    if changes != [] {
      var init := changes[..|changes| - 1];
      ChangeExclusionsMembers(init, wdays, indates, d);
      assert changes == init + [changes[|changes| - 1]];
    }
  }

  /** Holidays are excluded whatever their weekday and even when they are inclusion dates;
      a change date that is no holiday and outside the mid-semester range is excluded exactly
      when it falls on a meeting day and is not an inclusion date. */
  lemma ExdatesMembers(s: Settings, wdays: seq<DayNumber>, indates: set<Date>, d: Date)
    requires ValidSettings(s)
    ensures d in s.holidays ==> d in Exdates(s, wdays, indates)
    ensures (s.midsem.Some? && Valid(d) && Ordinal(s.midsem.value.0) <= Ordinal(d) <= Ordinal(s.midsem.value.1)
             && IsoWeekday(d) in wdays) ==> d in Exdates(s, wdays, indates)
    ensures d in Flatten(s.groups) && d !in s.holidays && d !in MidsemExclusions(s.midsem, wdays)
            ==> (d in Exdates(s, wdays, indates) <==> IsoWeekday(d) in wdays && d !in indates)
    ensures d !in s.holidays && d !in Flatten(s.groups) && s.midsem.Some?
            ==> (d in Exdates(s, wdays, indates)
                 <==> Valid(d) && Ordinal(s.midsem.value.0) <= Ordinal(d) <= Ordinal(s.midsem.value.1)
                      && IsoWeekday(d) in wdays)
  {
    if s.midsem.Some? {
      MidsemRangeExact(s.midsem.value.0, s.midsem.value.1, wdays, d);
    }
    ChangeExclusionsMembers(Flatten(s.groups), wdays, indates, d);
  }

  method GetExdates(s: Settings, wdays: seq<DayNumber>, indates: set<Date>) returns (exdates: set<Date>)
    requires ValidSettings(s)
    ensures exdates == Exdates(s, wdays, indates)
  {
    var excluded := CollectMidsem(s.midsem, wdays);
    var changed := CollectChanges(Flatten(s.groups), wdays, indates);
    exdates := s.holidays + excluded + changed;
  }

  /** The meeting days of the mid-semester range, collected day by day. */
  method CollectMidsem(midsem: Option<(Date, Date)>, wdays: seq<DayNumber>) returns (days: set<Date>)
    requires midsem.Some? ==> Valid(midsem.value.0)
    ensures days == MidsemExclusions(midsem, wdays)
  {
    days := {};
    if midsem.Some? {
      var (start, end) := midsem.value;
      var day := start;
      while Ordinal(day) <= Ordinal(end)
        invariant Valid(day)
        invariant days + MidsemRange(day, end, wdays) == MidsemRange(start, end, wdays)
        decreases Ordinal(end) - Ordinal(day) + 1
      {
        if IsoWeekday(day) in wdays {
          days := days + {day};
        }
        day := NextDay(day);
      }
    }
  }

  /** The change dates on a meeting day that are not inclusion dates. */
  method CollectChanges(changes: seq<Date>, wdays: seq<DayNumber>, indates: set<Date>) returns (days: set<Date>)
    ensures days == ChangeExclusions(changes, wdays, indates)
  {
    days := {};
    var i := 0;
    while i < |changes|
      invariant 0 <= i <= |changes|
      invariant days == ChangeExclusions(changes[..i], wdays, indates)
    {
      var d := changes[i];
      assert changes[..i + 1][..i] == changes[..i];
      if IsoWeekday(d) in wdays && d !in indates {
        days := days + {d};
      }
      i := i + 1;
    }
    assert changes[..i] == changes;
  }

  /** One line of an event's recurrence. The weekly rule carries its day codes and last date
      (`RRuleText` is its text). RDATE and EXDATE lines carry their dates (each at the
      meeting's start time) as a set, because their textual order is not determined. */
  datatype RecurrenceLine =
    | RRule(byday: seq<string>, until: Date)
    | RDate(dates: set<Date>, minute: int)
    | ExDate(dates: set<Date>, minute: int)

  /** A calendar-event payload: a weekly meeting with reminders, or a single timed event. */
  datatype Payload =
    | Recurring(summary: string, description: string, location: string, start: DateTime, end: DateTime,
                recurrence: seq<RecurrenceLine>, reminderMinutes: int, colorId: string)
    | Single(summary: string, start: DateTime, end: DateTime, colorId: string)

  /** `COLORS['event'][num[0]]`. */
  function SectionColor(num: string): (r: Result<string>)
    ensures num == [] ==> r == Failure(IndexError)
    ensures num != [] ==> (r.Success? <==> num[0] in {'L', 'P', 'T'})
    ensures r.Success? ==> r.value == (if num[0] == 'L' then "9" else if num[0] == 'P' then "6" else "10")
  {
    if num == [] then Failure(IndexError)
    else if num[0] == 'L' then Success("9")
    else if num[0] == 'P' then Success("6")
    else if num[0] == 'T' then Success("10")
    else Failure(KeyError)
  }

  /** The recurrence of a meeting: the weekly rule, then an RDATE line when there are
      inclusion dates, then an EXDATE line when there are exclusion dates. */
  function Recurrence(m: Meeting, until: Date, indates: set<Date>, exdates: set<Date>): seq<RecurrenceLine> {
    [RRule(ByDayCodes(m.wdays), until)]
    + (if indates != {} then [RDate(indates, m.start.minute)] else [])
    + (if exdates != {} then [ExDate(exdates, m.start.minute)] else [])
  }

  lemma RecurrenceShape(m: Meeting, until: Date, indates: set<Date>, exdates: set<Date>)
    ensures var r := Recurrence(m, until, indates, exdates);
      && r[0] == RRule(ByDayCodes(m.wdays), until)
      && |r| == 1 + (if indates != {} then 1 else 0) + (if exdates != {} then 1 else 0)
      && (indates != {} ==> r[1] == RDate(indates, m.start.minute))
      && (exdates != {} ==> r[|r| - 1] == ExDate(exdates, m.start.minute))
      && forall i :: 0 <= i < |r| ==> (r[i].RDate? ==> r[i].dates != {}) && (r[i].ExDate? ==> r[i].dates != {})
  {
  }

  /** The payload of one meeting of a section: titled by course and section number, described
      by the instructors, at the meeting's room and times, recurring weekly on its days until
      `get_last_date()` with its inclusion and exclusion dates, a 10-minute reminder and the
      section type's colour. */
  function MeetingEvent(courseName: string, sec: ParsedSection, m: Meeting, s: Settings)
    : (r: Result<Payload>)
    requires ValidSettings(s)
    ensures r.Success? <==> SectionColor(sec.num).Success?
    ensures r.Failure? ==> r.error == SectionColor(sec.num).error
    ensures r.Success? ==> r.value.Recurring? && r.value.summary == courseName + " " + sec.num
                           && r.value.description == sec.instructors && r.value.location == m.room
                           && r.value.start == m.start && r.value.end == m.end
                           && r.value.reminderMinutes == REMINDER_MINUTES
                           && r.value.colorId == SectionColor(sec.num).value
    ensures r.Success? ==> r.value.recurrence == MeetingRecurrence(m, s)
  {
    var color :- SectionColor(sec.num);
    Success(Recurring(courseName + " " + sec.num, sec.instructors, m.room, m.start, m.end,
                      MeetingRecurrence(m, s), REMINDER_MINUTES, color))
  }

  /** A meeting's recurrence: the weekly rule until `get_last_date()`, with the meeting's
      inclusion dates and exclusion dates. */
  function MeetingRecurrence(m: Meeting, s: Settings): seq<RecurrenceLine>
    requires ValidSettings(s)
  {
    var indates := Indates(s.groups, m.wdays);
    Recurrence(m, Until(s), indates, Exdates(s, m.wdays, indates))
  }

  /** A payload's recurrence: the weekly rule over the meeting's day codes until the day after
      the last date; an RDATE line exactly when some meeting day's group holds a date, then an
      EXDATE line exactly when some date is excluded. */
  lemma MeetingEventRecurrence(courseName: string, sec: ParsedSection, m: Meeting, s: Settings)
    requires ValidSettings(s) && MeetingEvent(courseName, sec, m, s).Success?
    ensures var rec := MeetingEvent(courseName, sec, m, s).value.recurrence;
      var indates := Indates(s.groups, m.wdays);
      var exdates := Exdates(s, m.wdays, indates);
      && rec[0] == RRule(ByDayCodes(m.wdays), GetLastDate(s.today, s.lastDate))
      && (exists i :: 0 <= i < |rec| && rec[i].RDate?) == (indates != {})
      && (exists i :: 0 <= i < |rec| && rec[i].ExDate?) == (exdates != {})
      && (forall i :: 0 <= i < |rec| && rec[i].RDate? ==> rec[i].dates == indates)
      && (forall i :: 0 <= i < |rec| && rec[i].ExDate? ==> rec[i].dates == exdates)
  {
    var indates := Indates(s.groups, m.wdays);
    RecurrenceLines(m, Until(s), indates, Exdates(s, m.wdays, indates));
  }

  /** The RDATE line is present exactly for a non-empty inclusion set and carries it; the
      EXDATE line likewise for the exclusion set. */
  lemma RecurrenceLines(m: Meeting, until: Date, indates: set<Date>, exdates: set<Date>)
    ensures var rec := Recurrence(m, until, indates, exdates);
      && rec[0] == RRule(ByDayCodes(m.wdays), until)
      && (exists i :: 0 <= i < |rec| && rec[i].RDate?) == (indates != {})
      && (exists i :: 0 <= i < |rec| && rec[i].ExDate?) == (exdates != {})
      && (forall i :: 0 <= i < |rec| && rec[i].RDate? ==> rec[i].dates == indates)
      && (forall i :: 0 <= i < |rec| && rec[i].ExDate? ==> rec[i].dates == exdates)
  {
    var rec := Recurrence(m, until, indates, exdates);
    RecurrenceShape(m, until, indates, exdates);
    if indates != {} {
      assert rec[1].RDate?;
    }
    if exdates != {} {
      assert rec[|rec| - 1].ExDate?;
    }
  }

  /** `make_section_events` as a list: one payload per meeting, in order. */
  function SectionEvents(courseName: string, sec: ParsedSection, s: Settings, k: nat)
    : (r: Result<seq<Payload>>)
    requires ValidSettings(s) && k <= |sec.sched|
    ensures r.Success? ==> |r.value| == |sec.sched| - k
    decreases |sec.sched| - k
  {
    if k == |sec.sched| then Success([])
    else
      var e :- MeetingEvent(courseName, sec, sec.sched[k], s);
      var rest :- SectionEvents(courseName, sec, s, k + 1);
      Success([e] + rest)
  }

  /** A section without meetings yields nothing and so cannot fail; otherwise the section
      number's colour decides. */
  lemma {:induction false} SectionEventsFail(courseName: string, sec: ParsedSection, s: Settings, k: nat)
    requires ValidSettings(s) && k <= |sec.sched|
    ensures SectionEvents(courseName, sec, s, k).Failure?
            <==> k < |sec.sched| && SectionColor(sec.num).Failure?
    decreases |sec.sched| - k
  {
    if k < |sec.sched| {
      SectionEventsFail(courseName, sec, s, k + 1);
    }
  }

  /** `make_section_events`: for each meeting, the inclusion and exclusion sets, the weekly
      rule and the payload. */
  method MakeSectionEvents(courseName: string, sec: ParsedSection, s: Settings)
    returns (r: Result<seq<Payload>>)
    requires ValidSettings(s)
    ensures r == SectionEvents(courseName, sec, s, 0)
  {
    var events: seq<Payload> := [];
    var k := 0;
    PrefixPayloadsEmpty(SectionEvents(courseName, sec, s, 0));
    while k < |sec.sched|
      invariant 0 <= k <= |sec.sched|
      invariant SectionEvents(courseName, sec, s, 0)
                == PrefixPayloads(events, SectionEvents(courseName, sec, s, k))
    {
      var event := MakeMeetingEvent(courseName, sec, sec.sched[k], s);
      SectionEventsUnfold(courseName, sec, s, k);
      if event.Failure? {
        return Failure(event.error);
      }
      PrefixPayloadsStep(events, event.value, SectionEvents(courseName, sec, s, k + 1));
      events := events + [event.value];
      k := k + 1;
    }
    assert events + [] == events;
    return Success(events);
  }

  /** One meeting's payload, with its inclusion and exclusion sets collected. */
  method MakeMeetingEvent(courseName: string, sec: ParsedSection, m: Meeting, s: Settings)
    returns (r: Result<Payload>)
    requires ValidSettings(s)
    ensures r == MeetingEvent(courseName, sec, m, s)
  {
    var until := GetLastDate(s.today, s.lastDate);
    var indates := GetIndates(s.groups, m.wdays);
    var exdates := GetExdates(s, m.wdays, indates);
    var color := SectionColor(sec.num);
    if color.Failure? {
      return Failure(color.error);
    }
    return Success(Recurring(courseName + " " + sec.num, sec.instructors, m.room, m.start, m.end,
                             Recurrence(m, until, indates, exdates), REMINDER_MINUTES, color.value));
  }

  /** One step of `SectionEvents`: the meeting's payload, unless it or a later one fails. */
  lemma SectionEventsUnfold(courseName: string, sec: ParsedSection, s: Settings, k: nat)
    requires ValidSettings(s) && k < |sec.sched|
    ensures var e := MeetingEvent(courseName, sec, sec.sched[k], s);
      var rest := SectionEvents(courseName, sec, s, k + 1);
      SectionEvents(courseName, sec, s, k)
      == if e.Failure? then Failure(e.error)
         else if rest.Failure? then rest
         else Success([e.value] + rest.value)
  {
  }

  lemma PrefixPayloadsEmpty(r: Result<seq<Payload>>)
    ensures PrefixPayloads([], r) == r
  {
    if r.Success? {
      assert [] + r.value == r.value;
    }
  }

  function PrefixPayloads(ps: seq<Payload>, r: Result<seq<Payload>>): Result<seq<Payload>> {
    if r.Success? then Success(ps + r.value) else r
  }

  lemma PrefixPayloadsStep(ps: seq<Payload>, p: Payload, r: Result<seq<Payload>>)
    ensures PrefixPayloads(ps, if r.Success? then Success([p] + r.value) else r) == PrefixPayloads(ps + [p], r)
  {
    if r.Success? {
      assert ps + ([p] + r.value) == (ps + [p]) + r.value;
    }
  }

  /** `make_event`. */
  function MakeEvent(title: string, start: DateTime, end: DateTime, color: string): Payload {
    Single(title, start, end, color)
  }

  function MakeMidsemEvent(courseName: string, midsem: Slot): Payload {
    MakeEvent(courseName + " Midsem", midsem.start, midsem.end, MIDSEM_COLOR)
  }

  function MakeCompreEvent(courseName: string, compre: Slot): Payload {
    MakeEvent(courseName + " Compre", compre.start, compre.end, COMPRE_COLOR)
  }

  function AllSectionEvents(courseName: string, secs: seq<ParsedSection>, s: Settings)
    : Result<seq<Payload>>
    requires ValidSettings(s)
  {
    if secs == [] then Success([])
    else
      var first :- SectionEvents(courseName, secs[0], s, 0);
      var rest :- AllSectionEvents(courseName, secs[1..], s);
      Success(first + rest)
  }

  function MeetingCount(secs: seq<ParsedSection>): nat {
    if secs == [] then 0 else |secs[0].sched| + MeetingCount(secs[1..])
  }

  /** `make_course_events`: every section's payloads in order, then the mid-semester event,
      then the comprehensive-exam event, each only when present. The mid-semester slot is a
      parameter because the course records never carry one. */
  function MakeCourseEvents(course: ParsedCourse, midsem: Option<Slot>, s: Settings)
    : Result<seq<Payload>>
    requires ValidSettings(s)
  {
    var sectionEvents :- AllSectionEvents(course.name, course.sections, s);
    Success(sectionEvents
            + (if midsem.Some? then [MakeMidsemEvent(course.name, midsem.value)] else [])
            + (if course.compre.Some? then [MakeCompreEvent(course.name, course.compre.value)] else []))
  }

  lemma {:induction false} AllSectionEventsCount(courseName: string, secs: seq<ParsedSection>, s: Settings)
    requires ValidSettings(s)
    requires AllSectionEvents(courseName, secs, s).Success?
    ensures var r := AllSectionEvents(courseName, secs, s).value;
      |r| == MeetingCount(secs) && forall i :: 0 <= i < |r| ==> r[i].Recurring?
  {
    if secs != [] {
      AllSectionEventsCount(courseName, secs[1..], s);
      SectionEventsRecurring(courseName, secs[0], s, 0);
    }
  }

  /** `ps` are the payloads of the meetings from index `k` on, one for one. */
  ghost predicate PayloadsFrom(ps: seq<Payload>, courseName: string, sec: ParsedSection, s: Settings, k: nat)
    requires ValidSettings(s)
  {
    k + |ps| <= |sec.sched|
    && forall j :: k <= j < k + |ps| ==> MeetingEvent(courseName, sec, sec.sched[j], s) == Success(ps[j - k])
  }

  lemma PayloadsFromCons(e: Payload, rest: seq<Payload>, courseName: string, sec: ParsedSection, s: Settings, k: nat)
    requires ValidSettings(s) && k < |sec.sched|
    requires MeetingEvent(courseName, sec, sec.sched[k], s) == Success(e)
    requires PayloadsFrom(rest, courseName, sec, s, k + 1)
    ensures PayloadsFrom([e] + rest, courseName, sec, s, k)
  {
    var ps := [e] + rest;
    forall j | k < j < k + |ps|
      ensures MeetingEvent(courseName, sec, sec.sched[j], s) == Success(ps[j - k])
    {
      assert ps[j - k] == rest[j - (k + 1)];
    }
  }

  /** The i-th payload is the payload of the i-th remaining meeting. */
  lemma {:induction false} SectionEventsAt(courseName: string, sec: ParsedSection, s: Settings, k: nat)
    requires ValidSettings(s) && k <= |sec.sched|
    requires SectionEvents(courseName, sec, s, k).Success?
    ensures PayloadsFrom(SectionEvents(courseName, sec, s, k).value, courseName, sec, s, k)
    decreases |sec.sched| - k
  {
    if k < |sec.sched| {
      SectionEventsUnfold(courseName, sec, s, k);
      var e := MeetingEvent(courseName, sec, sec.sched[k], s);
      var rest := SectionEvents(courseName, sec, s, k + 1);
      SectionEventsAt(courseName, sec, s, k + 1);
      PayloadsFromCons(e.value, rest.value, courseName, sec, s, k);
    }
  }

  /** Every meeting payload is a weekly event with a 10-minute reminder in the section's
      colour. */
  lemma SectionEventsRecurring(courseName: string, sec: ParsedSection, s: Settings, k: nat)
    requires ValidSettings(s) && k <= |sec.sched|
    requires SectionEvents(courseName, sec, s, k).Success?
    ensures var r := SectionEvents(courseName, sec, s, k).value;
      forall i :: 0 <= i < |r| ==>
        r[i].Recurring? && r[i].reminderMinutes == REMINDER_MINUTES
        && r[i].colorId == SectionColor(sec.num).value
  {
    SectionEventsAt(courseName, sec, s, k);
    var r := SectionEvents(courseName, sec, s, k).value;
    forall i | 0 <= i < |r|
      ensures r[i].Recurring? && r[i].reminderMinutes == REMINDER_MINUTES
              && r[i].colorId == SectionColor(sec.num).value
    {
      assert MeetingEvent(courseName, sec, sec.sched[k + i], s) == Success(r[(k + i) - k]);
    }
  }

  /** The sections' payloads are built exactly when every section with meetings has a colour. */
  lemma {:induction false} AllSectionEventsSucceed(courseName: string, secs: seq<ParsedSection>, s: Settings)
    requires ValidSettings(s)
    ensures AllSectionEvents(courseName, secs, s).Success?
            <==> forall i :: 0 <= i < |secs| ==> secs[i].sched == [] || SectionColor(secs[i].num).Success?
  {
    if secs != [] {
      SectionEventsFail(courseName, secs[0], s, 0);
      AllSectionEventsSucceed(courseName, secs[1..], s);
      assert forall i :: 1 <= i < |secs| ==> secs[i] == secs[1..][i - 1];
    }
  }

  /** `make_course_events` fails exactly when a section with meetings has no colour, and then
      with the section payloads' error; the mid-semester and exam events cannot fail. */
  lemma MakeCourseEventsOutcome(course: ParsedCourse, midsem: Option<Slot>, s: Settings)
    requires ValidSettings(s)
    ensures var r := MakeCourseEvents(course, midsem, s);
      && (r.Success? <==> forall i :: 0 <= i < |course.sections| ==>
                            course.sections[i].sched == [] || SectionColor(course.sections[i].num).Success?)
      && (r.Failure? ==> r.error == AllSectionEvents(course.name, course.sections, s).error)
  {
    AllSectionEventsSucceed(course.name, course.sections, s);
  }

  /** A course yields one weekly payload per meeting, then the mid-semester event (colour 4)
      when given, then the exam event (colour 7) when the course has one. */
  lemma CourseEventsOrder(course: ParsedCourse, midsem: Option<Slot>, s: Settings)
    requires ValidSettings(s)
    requires MakeCourseEvents(course, midsem, s).Success?
    ensures var r := MakeCourseEvents(course, midsem, s).value;
      var n := MeetingCount(course.sections);
      && |r| == n + (if midsem.Some? then 1 else 0) + (if course.compre.Some? then 1 else 0)
      && (forall i :: 0 <= i < n ==> r[i].Recurring?)
      && (midsem.Some? ==> r[n] == Single(course.name + " Midsem", midsem.value.start, midsem.value.end, "4"))
      && (course.compre.Some? ==> r[|r| - 1] == Single(course.name + " Compre", course.compre.value.start,
                                                       course.compre.value.end, "7"))
  {
    AllSectionEventsCount(course.name, course.sections, s);
  }
}
