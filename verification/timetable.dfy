/** The schedule resolver of the timetable: weekday letters to ISO day numbers, hour codes
    to clock times, the first meeting date (found with `bisect`), the comprehensive-exam
    slot, and section lookup with its fall-back to lecture sections. The current date and
    the current clock time are parameters. */
module Timetable {
  import opened Results
  import opened Civil
  import opened Text

  /** ISO day numbers a meeting can fall on: `ISO_WDAY` has Monday (1) to Saturday (6). */
  type DayNumber = x: int | 1 <= x <= 6 witness 1

  /** One raw meeting of a section: its room, day letters and hour codes. */
  datatype SchedRow = SchedRow(room: string, days: seq<string>, hours: seq<int>)

  /** A resolved meeting: the first occurrence's start and end, and the meeting days. */
  datatype Meeting = Meeting(room: string, start: DateTime, end: DateTime, wdays: seq<DayNumber>)

  datatype ParsedSection = ParsedSection(num: string, instructors: string, sched: seq<Meeting>)

  /** A timed slot, such as the comprehensive exam. */
  datatype Slot = Slot(start: DateTime, end: DateTime)

  /** The comprehensive-exam cell of a course: a `dd/mm` date and a session name. */
  datatype CompreCell = CompreCell(date: Option<string>, session: Option<string>)

  datatype ParsedCourse = ParsedCourse(code: string, name: string, sections: seq<ParsedSection>,
                                       compre: Option<Slot>)

  const DAY_LETTERS: seq<string> := ["M", "T", "W", "Th", "F", "S"]

  /** `ISO_WDAY[day]`: `KeyError` for anything but the six day letters. */
  function IsoDay(letter: string): (r: Result<DayNumber>)
    ensures r.Success? <==> letter in DAY_LETTERS
    ensures r.Success? ==> DAY_LETTERS[r.value - 1] == letter
    ensures r.Failure? ==> r.error == KeyError
  {
    if letter == "M" then Success(1) else if letter == "T" then Success(2)
    else if letter == "W" then Success(3) else if letter == "Th" then Success(4)
    else if letter == "F" then Success(5) else if letter == "S" then Success(6)
    else Failure(KeyError)
  }

  /** `tuple(ISO_WDAY[day] for day in days)`: the first unknown letter raises. */
  function IsoDays(days: seq<string>): (r: Result<seq<DayNumber>>)
    ensures r.Success? <==> forall i :: 0 <= i < |days| ==> days[i] in DAY_LETTERS
    ensures r.Success? ==> |r.value| == |days|
                           && forall i :: 0 <= i < |days| ==> DAY_LETTERS[r.value[i] - 1] == days[i]
    ensures r.Failure? ==> r.error == KeyError
  {
    if days == [] then Success([])
    else
      var d :- IsoDay(days[0]);
      var rest :- IsoDays(days[1..]);
      assert forall i :: 1 <= i < |days| ==> days[i] == days[1..][i - 1];
      Success([d] + rest)
  }

  /** `bisect.bisect_right` exactly as CPython searches `a[lo..hi]`, sorted or not. */
  function BisectRight(a: seq<int>, x: int, lo: nat, hi: nat): (n: nat)
    requires lo <= hi <= |a|
    ensures lo <= n <= hi
    decreases hi - lo
  {
    if lo < hi then
      var mid := (lo + hi) / 2;
      if x < a[mid] then BisectRight(a, x, lo, mid) else BisectRight(a, x, mid + 1, hi)
    else lo
  }

  predicate Sorted(a: seq<int>) {
    forall i, j :: 0 <= i < j < |a| ==> a[i] <= a[j]
  }

  /** On a sorted list, `bisect_right` splits it into the items at most `x` and those above. */
  lemma {:induction false} BisectRightSorted(a: seq<int>, x: int, lo: nat, hi: nat)
    requires lo <= hi <= |a| && Sorted(a)
    requires forall i :: 0 <= i < lo ==> a[i] <= x
    requires forall i :: hi <= i < |a| ==> x < a[i]
    ensures var n := BisectRight(a, x, lo, hi);
      (forall i :: 0 <= i < n ==> a[i] <= x) && (forall i :: n <= i < |a| ==> x < a[i])
    decreases hi - lo
  {
    if lo < hi {
      var mid := (lo + hi) / 2;
      if x < a[mid] {
        BisectRightSorted(a, x, lo, mid);
      } else {
        BisectRightSorted(a, x, mid + 1, hi);
      }
    }
  }

  /** `calc_start_date`: today when it is a meeting day and not skipped; else the weekday at
      `bisect` position (wrapping to the first one, a week on). An empty day list raises at
      the modulo. */
  function CalcStartDate(today: Date, wdays: seq<int>, skipToday: bool): (r: Result<Date>)
    ensures !skipToday && IsoWeekday(today) in wdays ==> r == Success(today)
    ensures r.Failure? <==> wdays == [] && r == Failure(ZeroDivision)
  {
    var iso := IsoWeekday(today);
    if !skipToday && iso in wdays then Success(today)
    else if wdays == [] then Failure(ZeroDivision)
    else
      var lower := BisectRight(wdays, iso, 0, |wdays|);
      Success(AddDays(today, Offset(wdays, iso, lower)))
  }

  /** The days from `iso` to the weekday at the insertion point, into the next week when the
      insertion point is past the end. */
  function Offset(wdays: seq<int>, iso: int, lower: nat): int
    requires wdays != [] && lower <= |wdays|
  {
    wdays[lower % |wdays|] - iso + (if lower == |wdays| then 7 else 0)
  }

  ghost predicate IsMeetingDay(d: Date, wdays: seq<int>) {
    IsoWeekday(d) in wdays
  }

  /** The ISO weekday `v - 1` days after a Monday, for `v` up to two weeks. */
  function WrapIso(v: int): int {
    if v <= 7 then v else v - 7
  }

  lemma IsoAfter(today: Date, k: int)
    requires Valid(today) && 0 <= k <= 7
    ensures IsoWeekday(AddDays(today, k)) == WrapIso(IsoWeekday(today) + k)
  {
    AddDaysWeekday(today, k);
    var w := Weekday(today);
    SmallMod(w + k);
  }

  lemma SmallMod(x: int)
    requires 0 <= x < 14
    ensures x % 7 == if x < 7 then x else x - 7
  {
  }

  /** The offset `calc_start_date` adds reaches the first listed weekday after `iso`,
      wrapping into the next week, and skips no listed weekday on the way. */
  lemma NextOffset(wdays: seq<int>, iso: int, lower: nat)
    requires wdays != [] && Sorted(wdays) && 1 <= iso <= 7 && lower <= |wdays|
    requires forall i :: 0 <= i < |wdays| ==> 1 <= wdays[i] <= 7
    requires forall i :: 0 <= i < lower ==> wdays[i] <= iso
    requires forall i :: lower <= i < |wdays| ==> iso < wdays[i]
    ensures var days := Offset(wdays, iso, lower);
      && 1 <= days <= 7
      && WrapIso(iso + days) == wdays[lower % |wdays|]
      && forall v :: iso < v < iso + days ==> WrapIso(v) !in wdays
  {
    if lower == |wdays| {
      assert lower % |wdays| == 0;
      var days := wdays[0] - iso + 7;
      forall v | iso < v < iso + days
        ensures WrapIso(v) !in wdays
      {
        if v > 7 {
          assert forall j :: 0 <= j < |wdays| ==> wdays[0] <= wdays[j];
        }
      }
    } else {
      assert lower % |wdays| == lower;
      var days := wdays[lower] - iso;
      forall v | iso < v < iso + days
        ensures WrapIso(v) !in wdays
      {
        assert forall j :: lower <= j < |wdays| ==> wdays[lower] <= wdays[j];
      }
    }
  }

  /** `d` is the first meeting day strictly after `today`, at most a week on. */
  ghost predicate FirstMeetingAfter(today: Date, d: Date, wdays: seq<int>) {
    && Valid(d) && IsMeetingDay(d, wdays)
    && 0 < Ordinal(d) - Ordinal(today) <= 7
    && forall k :: 0 < k < Ordinal(d) - Ordinal(today) ==> !IsMeetingDay(AddDays(today, k), wdays)
  }

  /** For sorted ISO weekdays, when today is skipped or not a meeting day, the start date is
      the first meeting day strictly after today, at most a week on. */
  lemma CalcStartDateNext(today: Date, wdays: seq<int>, skipToday: bool)
    requires Valid(today) && wdays != [] && Sorted(wdays)
    requires forall i :: 0 <= i < |wdays| ==> 1 <= wdays[i] <= 7
    requires skipToday || IsoWeekday(today) !in wdays
    ensures CalcStartDate(today, wdays, skipToday).Success?
    ensures FirstMeetingAfter(today, CalcStartDate(today, wdays, skipToday).value, wdays)
  {
    var lower := BisectRight(wdays, IsoWeekday(today), 0, |wdays|);
    NextMeeting(today, wdays, lower);
    StartDateIs(today, wdays, skipToday, lower);
  }

  lemma StartDateIs(today: Date, wdays: seq<int>, skipToday: bool, lower: nat)
    requires wdays != [] && (skipToday || IsoWeekday(today) !in wdays)
    requires lower == BisectRight(wdays, IsoWeekday(today), 0, |wdays|)
    ensures CalcStartDate(today, wdays, skipToday)
            == Success(AddDays(today, Offset(wdays, IsoWeekday(today), lower)))
  {
  }

  /** The offset computed from the insertion point of today's weekday leads to the next
      meeting day. */
  lemma NextMeeting(today: Date, wdays: seq<int>, lower: nat)
    requires Valid(today) && wdays != [] && Sorted(wdays)
    requires forall i :: 0 <= i < |wdays| ==> 1 <= wdays[i] <= 7
    requires lower == BisectRight(wdays, IsoWeekday(today), 0, |wdays|)
    ensures lower <= |wdays|
    ensures FirstMeetingAfter(today, AddDays(today, Offset(wdays, IsoWeekday(today), lower)), wdays)
  {
    var iso := IsoWeekday(today);
    BisectRightSorted(wdays, iso, 0, |wdays|);
    NextOffset(wdays, iso, lower);
    StepToWeekday(today, wdays, Offset(wdays, iso, lower));
  }

  lemma StepToWeekday(today: Date, wdays: seq<int>, days: int)
    requires Valid(today) && 1 <= days <= 7
    requires WrapIso(IsoWeekday(today) + days) in wdays
    requires forall v :: IsoWeekday(today) < v < IsoWeekday(today) + days ==> WrapIso(v) !in wdays
    ensures FirstMeetingAfter(today, AddDays(today, days), wdays)
  {
    IsoAfter(today, days);
    forall k | 0 < k < days
      ensures !IsMeetingDay(AddDays(today, k), wdays)
    {
      IsoAfter(today, k);
      assert WrapIso(IsoWeekday(today) + k) !in wdays;
    }
  }

  /** `parse_sched`: meeting days from the letters, start at `hours[0] + 7` on the hour, end at
      `hours[-1] + 7` at minute 50, and the first meeting date, skipping today when the
      meeting has already ended (`end_time < now`, with `now` in seconds since midnight). */
  function ParseSched(today: Date, now: int, row: SchedRow): (r: Result<Meeting>)
    ensures r.Success? ==> |row.hours| > 0
    ensures r.Success? ==> var m := r.value;
      && m.room == row.room && IsoDays(row.days) == Success(m.wdays)
      && m.start.minute == 60 * (row.hours[0] + 7)
      && m.end.minute == 60 * (row.hours[|row.hours| - 1] + 7) + 50
      && m.start.date == m.end.date
      && CalcStartDate(today, m.wdays, 60 * m.end.minute < now) == Success(m.start.date)
    ensures IsoDays(row.days).Failure? ==> r == Failure(KeyError)
    ensures row.hours == [] && (forall i :: 0 <= i < |row.days| ==> row.days[i] in DAY_LETTERS)
            ==> r == Failure(IndexError)
  {
    var weekdays :- IsoDays(row.days);
    var start :- if row.hours == [] then Failure(IndexError) else Time(row.hours[0] + 7, 0);
    var end :- Time(row.hours[|row.hours| - 1] + 7, 50);
    var startDate :- CalcStartDate(today, weekdays, 60 * end < now);
    Success(Meeting(row.room, DateTime(startDate, start), DateTime(startDate, end), weekdays))
  }

  /** A meeting parses exactly when its letters are known and there is at least one, it has
      hour codes, and the first and last give hours of the day; a bad hour is the
      `ValueError` of `time`, and no letters the `ZeroDivisionError` of `calc_start_date`. */
  lemma ParseSchedOutcome(today: Date, now: int, row: SchedRow)
    ensures var r := ParseSched(today, now, row);
      r.Success? <==> && IsoDays(row.days).Success? && row.days != [] && row.hours != []
                      && 0 <= row.hours[0] + 7 <= 23 && 0 <= row.hours[|row.hours| - 1] + 7 <= 23
    ensures IsoDays(row.days).Success? && row.hours != []
            && !(0 <= row.hours[0] + 7 <= 23 && 0 <= row.hours[|row.hours| - 1] + 7 <= 23)
            ==> ParseSched(today, now, row) == Failure(ValueError)
    ensures row.days == [] && row.hours != []
            && 0 <= row.hours[0] + 7 <= 23 && 0 <= row.hours[|row.hours| - 1] + 7 <= 23
            ==> ParseSched(today, now, row) == Failure(ZeroDivision)
  {
  }

  /** A meeting that has already ended today starts on a later day; one still to come today,
      on a meeting day, starts today. */
  lemma SkipTodayExactly(today: Date, now: int, row: SchedRow)
    requires ParseSched(today, now, row).Success?
    ensures var m := ParseSched(today, now, row).value;
      && (60 * m.end.minute >= now && IsoWeekday(today) in m.wdays ==> m.start.date == today)
      && (60 * m.end.minute < now && Valid(today) && Sorted(m.wdays) ==> Ordinal(m.start.date) > Ordinal(today))
  {
    var m := ParseSched(today, now, row).value;
    if 60 * m.end.minute < now && Valid(today) && Sorted(m.wdays) {
      CalcStartDateNext(today, m.wdays, true);
    }
  }

  /** `tuple(map(parse_sched, ...))`: the first failing meeting raises. */
  function ParseScheds(today: Date, now: int, rows: seq<SchedRow>): (r: Result<seq<Meeting>>)
    ensures r.Success? ==> |r.value| == |rows|
    ensures r.Success? ==> forall i :: 0 <= i < |rows| ==> ParseSched(today, now, rows[i]) == Success(r.value[i])
  {
    if rows == [] then Success([])
    else
      var m :- ParseSched(today, now, rows[0]);
      var rest :- ParseScheds(today, now, rows[1..]);
      var ms := [m] + rest;
      assert forall i :: 0 <= i < |rows| ==> ParseSched(today, now, rows[i]) == Success(ms[i]) by {
        forall i | 1 <= i < |rows| ensures ParseSched(today, now, rows[i]) == Success(ms[i]) {
          assert rows[i] == rows[1..][i - 1] && ms[i] == rest[i - 1];
        }
      }
      Success(ms)
  }

  /** The meetings parse exactly when each of them does. */
  lemma {:induction false} ParseSchedsSucceed(today: Date, now: int, rows: seq<SchedRow>)
    ensures ParseScheds(today, now, rows).Success?
            <==> forall i :: 0 <= i < |rows| ==> ParseSched(today, now, rows[i]).Success?
  {
    if rows != [] {
      ParseSchedsSucceed(today, now, rows[1..]);
      assert forall i :: 1 <= i < |rows| ==> rows[i] == rows[1..][i - 1];
    }
  }

  /** `parse_section`: the number, the instructors joined with ", ", and every meeting. */
  function ParseSection(today: Date, now: int, num: string, instructors: seq<string>,
                        sched: seq<SchedRow>): (r: Result<ParsedSection>)
    ensures r.Success? <==> ParseScheds(today, now, sched).Success?
    ensures r.Success? ==> r.value.num == num && r.value.sched == ParseScheds(today, now, sched).value
                           && r.value.instructors == Join(", ", instructors)
  {
    var meetings :- ParseScheds(today, now, sched);
    Success(ParsedSection(num, Join(", ", instructors), meetings))
  }

  /** A section parses exactly when each of its meeting descriptors does. */
  lemma ParseSectionSucceeds(today: Date, now: int, num: string, instructors: seq<string>, sched: seq<SchedRow>)
    ensures ParseSection(today, now, num, instructors, sched).Success?
            <==> forall i :: 0 <= i < |sched| ==> ParseSched(today, now, sched[i]).Success?
  {
    ParseSchedsSucceed(today, now, sched);
  }

  /** `map(int, s.split('/'))` unpacked into exactly two integers. */
  function DayMonth(s: string): (r: Result<(int, int)>)
    ensures var parts := Split(s, '/');
      r.Success? <==> |parts| == 2 && ParseInt(parts[0]).Success? && ParseInt(parts[1]).Success?
    ensures var parts := Split(s, '/');
      r.Success? ==> r.value == (ParseInt(parts[0]).value, ParseInt(parts[1]).value)
    ensures r.Failure? ==> r.error == ValueError
  {
    var parts := Split(s, '/');
    if |parts| != 2 then Failure(ValueError)
    else
      var dd :- ParseInt(parts[0]);
      var mm :- ParseInt(parts[1]);
      Success((dd, mm))
  }

  /** The exam day `dd/mm`: this year's, or next year's when this year's is already past.
      A text that is not two integers, or a day that does not exist, fails. */
  function CompreDate(today: Date, text: string): (r: Result<Date>)
    ensures r.Failure? ==> r.error == ValueError
    ensures r.Success? ==> var d := r.value;
      && Valid(d) && DayMonth(text) == Success((d.day, d.month))
      && !Before(d, today)
      && (d.year == today.year || d.year == today.year + 1)
      && (d.year == today.year + 1 ==> Before(Date(today.year, d.month, d.day), today))
    ensures var dm := DayMonth(text);
      r.Success? <==>
        && dm.Success?
        && var thisYear := Date(today.year, dm.value.1, dm.value.0);
        && Valid(thisYear)
        && (Before(thisYear, today) ==> Valid(Date(today.year + 1, dm.value.1, dm.value.0)))
  {
    var (dd, mm) :- DayMonth(text);
    var thisYear :- Replace(today.year, mm, dd);
    if Before(thisYear, today) then Replace(today.year + 1, mm, dd) else Success(thisYear)
  }

  /** For a valid today the exam day is today or later. */
  lemma CompreDateNotPast(today: Date, text: string)
    requires Valid(today) && CompreDate(today, text).Success?
    ensures Ordinal(CompreDate(today, text).value) >= Ordinal(today)
  {
    OrdinalOrder(CompreDate(today, text).value, today);
  }

  /** `parse_compre`: none for a missing descriptor; else the exam day, 09:00-12:00 for `FN`
      and 14:00-17:00 for anything else. */
  function ParseCompre(today: Date, compre: Option<CompreCell>): (r: Result<Option<Slot>>)
    ensures compre.None? ==> r == Success(None)
    ensures compre.Some? && compre.value.date.None? ==> r == Failure(AttributeError)
    ensures compre.Some? && compre.value.date.Some?
            ==> (r.Success? <==> CompreDate(today, compre.value.date.value).Success?)
    ensures r.Success? && r.value.Some? ==> var s := r.value.value;
      && s.start.date == s.end.date && s.start.date == CompreDate(today, compre.value.date.value).value
      && s.end.minute == s.start.minute + 180
      && (s.start.minute == 9 * 60 <==> compre.value.session == Some("FN"))
      && (s.start.minute == 9 * 60 || s.start.minute == 14 * 60)
  {
    if compre.None? then Success(None)
    else if compre.value.date.None? then Failure(AttributeError)
    else
      var compreDate :- CompreDate(today, compre.value.date.value);
      var start := if compre.value.session == Some("FN") then 9 else 14;
      Success(Some(Slot(DateTime(compreDate, 60 * start), DateTime(compreDate, 60 * (start + 3)))))
  }

  /** `s[1:]`. */
  function Tail(s: string): string {
    if s == [] then [] else s[1..]
  }

  /** The key `get_section` resolves `secNum` to: the exact code; failing that, `L` followed by
      the rest of the code when every section code starts with `L`; else none. */
  function SectionKey(keys: set<string>, secNum: string): (k: Option<string>)
    requires forall c :: c in keys ==> c != []
    ensures k.Some? ==> k.value in keys
    ensures secNum in keys ==> k == Some(secNum)
    ensures secNum !in keys && k.Some? ==> k.value == "L" + Tail(secNum) && forall c :: c in keys ==> c[0] == 'L'
    ensures secNum !in keys && (exists c :: c in keys && c[0] != 'L') ==> k.None?
  {
    if secNum in keys then Some(secNum)
    else if (forall c :: c in keys ==> c[0] == 'L') && "L" + Tail(secNum) in keys then Some("L" + Tail(secNum))
    else None
  }

  /** A section of the course database. `get_section` writes the requested code into `num`. */
  class Section {
    var num: string
    const instructors: seq<string>
    const sched: seq<SchedRow>

    constructor (num: string, instructors: seq<string>, sched: seq<SchedRow>)
      ensures this.num == num && this.instructors == instructors && this.sched == sched
    {
      this.num := num;
      this.instructors := instructors;
      this.sched := sched;
    }
  }

  /** A course of the database; its sections are shared with every lookup. */
  datatype Course = Course(name: string, sections: map<string, Section>, compre: Option<CompreCell>)

  ghost predicate NonEmptyCodes(sections: map<string, Section>) {
    forall c :: c in sections ==> c != []
  }

  /** What `get_section` returns for `secNum`, given today and the clock. */
  function SectionResult(today: Date, now: int, sections: map<string, Section>, secNum: string)
    : Result<Option<ParsedSection>>
    requires NonEmptyCodes(sections)
  {
    var key := SectionKey(sections.Keys, secNum);
    if key.None? then Success(None)
    else
      var s := sections[key.value];
      var p :- ParseSection(today, now, secNum, s.instructors, s.sched);
      Success(Some(p))
  }

  /** `get_section`: resolves the code, stamps it into the chosen section's `num` and parses
      the section; no section is touched when none is found. */
  method GetSection(today: Date, now: int, sections: map<string, Section>, secNum: string)
    returns (r: Result<Option<ParsedSection>>)
    requires NonEmptyCodes(sections)
    modifies sections.Values
    ensures r == SectionResult(today, now, sections, secNum)
    ensures var key := SectionKey(sections.Keys, secNum);
      && (key.Some? ==> sections[key.value].num == secNum)
      && forall s :: s in sections.Values && (key.None? || s != sections[key.value]) ==> s.num == old(s.num)
  {
    var key := SectionKey(sections.Keys, secNum);
    if key.None? {
      return Success(None);
    }
    var section := sections[key.value];
    section.num := secNum;
    var parsed := ParseSection(today, now, section.num, section.instructors, section.sched);
    if parsed.Failure? {
      return Failure(parsed.error);
    }
    return Success(Some(parsed.value));
  }

  /** The sections `get_course` collects: the found ones in `sel` order, unresolvable codes
      dropped, the first failing parse raising. */
  function SelectedSections(today: Date, now: int, sections: map<string, Section>, sel: seq<string>)
    : (r: Result<seq<ParsedSection>>)
    requires NonEmptyCodes(sections)
    ensures r.Success? ==> |r.value| <= |sel|
    ensures r.Success? ==> forall i :: 0 <= i < |r.value| ==> exists j :: 0 <= j < |sel| && r.value[i].num == sel[j]
  {
    if sel == [] then Success([])
    else
      var first :- SectionResult(today, now, sections, sel[0]);
      var rest :- SelectedSections(today, now, sections, sel[1..]);
      assert forall i :: 1 <= i < |sel| ==> sel[i] == sel[1..][i - 1];
      Success((if first.Some? then [first.value] else []) + rest)
  }

  /** The collection succeeds exactly when every selected code's lookup succeeds. */
  lemma {:induction false} SelectedSectionsSucceed(today: Date, now: int, sections: map<string, Section>, sel: seq<string>)
    requires NonEmptyCodes(sections)
    ensures SelectedSections(today, now, sections, sel).Success?
            <==> forall i :: 0 <= i < |sel| ==> SectionResult(today, now, sections, sel[i]).Success?
  {
    if sel != [] {
      SelectedSectionsSucceed(today, now, sections, sel[1..]);
      assert forall i :: 1 <= i < |sel| ==> sel[i] == sel[1..][i - 1];
    }
  }

  /** The sections of `a + b` are those of `a` followed by those of `b`; a failure in `a`
      comes first. Together with the one-code case (the section when found, nothing when
      not), this fixes the result as the found sections in `sel` order. */
  lemma {:induction false} SelectedSectionsAppend(today: Date, now: int, sections: map<string, Section>,
                                                  a: seq<string>, b: seq<string>)
    requires NonEmptyCodes(sections)
    ensures SelectedSections(today, now, sections, a + b)
            == (var x :- SelectedSections(today, now, sections, a);
                var y :- SelectedSections(today, now, sections, b);
                Success(x + y))
  {
    if a == [] {
      assert a + b == b;
      var y := SelectedSections(today, now, sections, b);
      if y.Success? {
        assert [] + y.value == y.value;
      }
    } else {
      assert (a + b)[0] == a[0] && (a + b)[1..] == a[1..] + b;
      SelectedSectionsAppend(today, now, sections, a[1..], b);
      var first := SectionResult(today, now, sections, a[0]);
      var x := SelectedSections(today, now, sections, a[1..]);
      var y := SelectedSections(today, now, sections, b);
      if first.Success? && x.Success? && y.Success? {
        var f := if first.value.Some? then [first.value.value] else [];
        assert f + (x.value + y.value) == (f + x.value) + y.value;
      }
    }
  }

  /** One code yields its section when it resolves and nothing when it does not. */
  lemma SelectedSectionsOne(today: Date, now: int, sections: map<string, Section>, code: string)
    requires NonEmptyCodes(sections)
    ensures var f := SectionResult(today, now, sections, code);
      SelectedSections(today, now, sections, [code])
      == if f.Failure? then Failure(f.error) else if f.value.Some? then Success([f.value.value]) else Success([])
  {
    var f := SectionResult(today, now, sections, code);
    assert [code][1..] == [];
    if f.Success? && f.value.Some? {
      assert [f.value.value] + [] == [f.value.value];
    }
  }

  /** When every selected code names a section of the course, each yields one section,
      carrying that code, in `sel` order. */
  lemma {:induction false} SelectedSectionsAll(today: Date, now: int, sections: map<string, Section>, sel: seq<string>)
    requires NonEmptyCodes(sections)
    requires SelectedSections(today, now, sections, sel).Success?
    requires forall i :: 0 <= i < |sel| ==> sel[i] in sections
    ensures var r := SelectedSections(today, now, sections, sel).value;
      |r| == |sel| && forall i :: 0 <= i < |sel| ==> r[i].num == sel[i]
  {
    if sel != [] {
      var first := SectionResult(today, now, sections, sel[0]);
      var rest := SelectedSections(today, now, sections, sel[1..]);
      assert first.Success? && rest.Success?;
      KnownSection(today, now, sections, sel[0]);
      SelectedSectionsAll(today, now, sections, sel[1..]);
      assert SelectedSections(today, now, sections, sel).value == [first.value.value] + rest.value;
      NumsCons(first.value.value, rest.value, sel);
    }
  }

  lemma NumsCons(first: ParsedSection, rest: seq<ParsedSection>, sel: seq<string>)
    requires sel != [] && first.num == sel[0]
    requires |rest| == |sel| - 1 && forall i :: 0 <= i < |rest| ==> rest[i].num == sel[1..][i]
    ensures var r := [first] + rest; |r| == |sel| && forall i :: 0 <= i < |sel| ==> r[i].num == sel[i]
  {
    var r := [first] + rest;
    forall i | 0 < i < |sel| ensures r[i].num == sel[i] {
      assert r[i] == rest[i - 1] && sel[i] == sel[1..][i - 1];
    }
  }

  /** A code the course lists resolves to itself and, when it parses, yields a section
      carrying it. */
  lemma KnownSection(today: Date, now: int, sections: map<string, Section>, code: string)
    requires NonEmptyCodes(sections) && code in sections
    requires SectionResult(today, now, sections, code).Success?
    ensures var r := SectionResult(today, now, sections, code).value;
      r.Some? && r.value.num == code
  {
  }

  /** Codes that resolve to no section contribute nothing. */
  lemma UnknownCodesDropped(today: Date, now: int, sections: map<string, Section>, code: string, sel: seq<string>)
    requires NonEmptyCodes(sections) && SectionKey(sections.Keys, code).None?
    ensures SelectedSections(today, now, sections, [code] + sel) == SelectedSections(today, now, sections, sel)
  {
    assert ([code] + sel)[1..] == sel;
    var rest := SelectedSections(today, now, sections, sel);
    if rest.Success? {
      assert [] + rest.value == rest.value;
    }
  }

  /** The course's sections, which `get_course` may stamp. */
  function CourseSections(data: map<string, Course>, code: string): set<Section> {
    if code in data then data[code].sections.Values else {}
  }

  /** The sections the codes of `sel` resolve to, which `get_section` stamps. */
  ghost function Stamped(sections: map<string, Section>, sel: seq<string>): set<Section>
    requires NonEmptyCodes(sections)
  {
    if sel == [] then {}
    else
      var key := SectionKey(sections.Keys, sel[|sel| - 1]);
      Stamped(sections, sel[..|sel| - 1]) + (if key.Some? then {sections[key.value]} else {})
  }

  /** A section is stamped exactly when some code of `sel` resolves to a key it is filed
      under. */
  lemma {:induction false} StampedMembers(sections: map<string, Section>, sel: seq<string>, s: Section)
    requires NonEmptyCodes(sections)
    ensures s in Stamped(sections, sel)
            <==> exists i :: 0 <= i < |sel| && SectionKey(sections.Keys, sel[i]).Some?
                             && sections[SectionKey(sections.Keys, sel[i]).value] == s
  {
    if sel != [] {
      var init := sel[..|sel| - 1];
      StampedMembers(sections, init, s);
      if exists i :: 0 <= i < |init| && SectionKey(sections.Keys, init[i]).Some?
                     && sections[SectionKey(sections.Keys, init[i]).value] == s {
        var i :| 0 <= i < |init| && SectionKey(sections.Keys, init[i]).Some?
                 && sections[SectionKey(sections.Keys, init[i]).value] == s;
        assert sel[i] == init[i];
      }
      if exists i :: 0 <= i < |sel| && SectionKey(sections.Keys, sel[i]).Some?
                     && sections[SectionKey(sections.Keys, sel[i]).value] == s {
        var i :| 0 <= i < |sel| && SectionKey(sections.Keys, sel[i]).Some?
                 && sections[SectionKey(sections.Keys, sel[i]).value] == s;
        if i < |init| {
          assert init[i] == sel[i];
        }
      }
    }
  }

  lemma {:induction false} StampedPrefix(sections: map<string, Section>, sel: seq<string>, n: nat)
    requires NonEmptyCodes(sections) && n <= |sel|
    ensures Stamped(sections, sel[..n]) <= Stamped(sections, sel)
    decreases |sel|
  {
    if n < |sel| {
      var init := sel[..|sel| - 1];
      assert init[..n] == sel[..n];
      StampedPrefix(sections, init, n);
    } else {
      assert sel[..n] == sel;
    }
  }

  /** `get_course`: none for an unknown course; else its name, the selected sections in
      `sel` order and its exam slot. A section no selected code resolves to keeps its
      number; after a successful call every section a code resolved to carries a code of
      `sel`. */
  method GetCourse(today: Date, now: int, data: map<string, Course>, code: string, sel: seq<string>)
    returns (r: Result<Option<ParsedCourse>>)
    requires code in data ==> NonEmptyCodes(data[code].sections)
    modifies CourseSections(data, code)
    ensures code !in data ==> r == Success(None)
    ensures code in data ==>
      var c := data[code];
      r == (var secs :- SelectedSections(today, now, c.sections, sel);
            var compre :- ParseCompre(today, c.compre);
            Success(Some(ParsedCourse(code, c.name, secs, compre))))
    ensures code in data ==> forall s :: s in data[code].sections.Values && s !in Stamped(data[code].sections, sel)
                                         ==> s.num == old(s.num)
    ensures code in data && r.Success? ==> forall s :: s in Stamped(data[code].sections, sel) ==> s.num in sel
  {
    if code !in data {
      return Success(None);
    }
    var course := data[code];
    var sections := CollectSections(today, now, course.sections, sel);
    if sections.Failure? {
      return Failure(sections.error);
    }
    var compre := ParseCompre(today, course.compre);
    if compre.Failure? {
      return Failure(compre.error);
    }
    return Success(Some(ParsedCourse(code, course.name, sections.value, compre.value)));
  }

  /** `tuple(filter(None, map(get_sec_data, sel_sections)))`: every code looked up in turn,
      the found sections kept in order, the first failing parse raising. */
  method CollectSections(today: Date, now: int, course: map<string, Section>, sel: seq<string>)
    returns (r: Result<seq<ParsedSection>>)
    requires NonEmptyCodes(course)
    modifies course.Values
    ensures r == SelectedSections(today, now, course, sel)
    ensures forall s :: s in course.Values && s !in Stamped(course, sel) ==> s.num == old(s.num)
    ensures r.Success? ==> forall s :: s in Stamped(course, sel) ==> s.num in sel
  {
    ghost var nums := map s | s in course.Values :: s.num;
    r := CollectFrom(today, now, course, sel, nums);
  }

  /** The loop of `CollectSections`, with the sections' numbers on entry recorded in `nums`. */
  method CollectFrom(today: Date, now: int, course: map<string, Section>, sel: seq<string>,
                     ghost nums: map<Section, string>)
    returns (r: Result<seq<ParsedSection>>)
    requires NonEmptyCodes(course)
    requires forall s :: s in course.Values ==> s in nums && s.num == nums[s]
    modifies course.Values
    ensures r == SelectedSections(today, now, course, sel)
    ensures forall s :: s in course.Values && s !in Stamped(course, sel) ==> s in nums && s.num == nums[s]
    ensures r.Success? ==> forall s :: s in Stamped(course, sel) ==> s.num in sel
  {
    var sections: seq<ParsedSection> := [];
    var i := 0;
    assert sel[i..] == sel;
    PrefixSectionsEmpty(SelectedSections(today, now, course, sel));
    ghost var stamped: set<Section> := {};
    assert sel[..i] == [];
    while i < |sel|
      invariant 0 <= i <= |sel|
      invariant SelectedSections(today, now, course, sel)
                == PrefixSections(sections, SelectedSections(today, now, course, sel[i..]))
      invariant stamped == Stamped(course, sel[..i]) && stamped <= course.Values
      invariant forall s :: s in stamped ==> s.num in sel
      invariant forall s :: s in course.Values && s !in stamped ==> s in nums && s.num == nums[s]
    {
      var s;
      s, sections, stamped := StampNext(today, now, course, sel, i, sections, stamped, nums);
      if s.Failure? {
        return Failure(s.error);
      }
      i := i + 1;
    }
    assert sel[i..] == [] && sections + [] == sections;
    assert sel[..i] == sel;
    return Success(sections);
  }

  /** One step of the collection: `get_section` for the `i`-th code stamps the section that
      code resolves to (if any) and leaves every other section alone. A found section joins
      the collected prefix; a failure ends the collection with its error. */
  method StampNext(today: Date, now: int, course: map<string, Section>, sel: seq<string>, i: nat,
                   sections: seq<ParsedSection>, ghost stamped: set<Section>, ghost nums: map<Section, string>)
    returns (s: Result<Option<ParsedSection>>, sections': seq<ParsedSection>, ghost stamped': set<Section>)
    requires NonEmptyCodes(course) && i < |sel|
    requires SelectedSections(today, now, course, sel)
             == PrefixSections(sections, SelectedSections(today, now, course, sel[i..]))
    requires stamped == Stamped(course, sel[..i]) && stamped <= course.Values
    requires forall c :: c in stamped ==> c.num in sel
    requires forall c :: c in course.Values && c !in stamped ==> c in nums && c.num == nums[c]
    modifies course.Values
    ensures s == SectionResult(today, now, course, sel[i])
    ensures stamped' == Stamped(course, sel[..i + 1]) && stamped' <= course.Values
    ensures forall c :: c in stamped' ==> c.num in sel
    ensures forall c :: c in course.Values && c !in stamped' ==> c in nums && c.num == nums[c]
    ensures s.Failure? ==> SelectedSections(today, now, course, sel) == Failure(s.error)
    ensures s.Failure? ==> forall c :: c in course.Values && c !in Stamped(course, sel) ==> c in nums && c.num == nums[c]
    ensures s.Success? ==> SelectedSections(today, now, course, sel)
                           == PrefixSections(sections', SelectedSections(today, now, course, sel[i + 1..]))
  {
    s := GetSection(today, now, course, sel[i]);
    ghost var key := SectionKey(course.Keys, sel[i]);
    assert sel[..i + 1][..i] == sel[..i] && sel[..i + 1][i] == sel[i];
    stamped' := stamped + (if key.Some? then {course[key.value]} else {});
    assert stamped' == Stamped(course, sel[..i + 1]);
    assert sel[i] in sel;
    if s.Failure? {
      sections' := sections;
      CollectStopsAt(today, now, course, sel, i, sections);
    } else {
      sections' := sections + (if s.value.Some? then [s.value.value] else []);
      CollectStep(today, now, course, sel, i, sections);
    }
  }

  /** A failing lookup of the `i`-th code ends the collection from `i` on. */
  lemma CollectStopsAt(today: Date, now: int, course: map<string, Section>, sel: seq<string>, i: nat,
                       sections: seq<ParsedSection>)
    requires NonEmptyCodes(course) && i < |sel|
    requires SectionResult(today, now, course, sel[i]).Failure?
    requires SelectedSections(today, now, course, sel)
             == PrefixSections(sections, SelectedSections(today, now, course, sel[i..]))
    ensures SelectedSections(today, now, course, sel) == Failure(SectionResult(today, now, course, sel[i]).error)
    ensures Stamped(course, sel[..i + 1]) <= Stamped(course, sel)
  {
    assert sel[i..][0] == sel[i];
    StampedPrefix(course, sel, i + 1);
  }

  /** A successful lookup of the `i`-th code moves its section, if any, to the collected
      prefix. */
  lemma CollectStep(today: Date, now: int, course: map<string, Section>, sel: seq<string>, i: nat,
                    sections: seq<ParsedSection>)
    requires NonEmptyCodes(course) && i < |sel|
    requires SectionResult(today, now, course, sel[i]).Success?
    ensures var f := SectionResult(today, now, course, sel[i]).value;
      PrefixSections(sections, SelectedSections(today, now, course, sel[i..]))
      == PrefixSections(sections + (if f.Some? then [f.value] else []), SelectedSections(today, now, course, sel[i + 1..]))
  {
    var f := SectionResult(today, now, course, sel[i]).value;
    var found := if f.Some? then [f.value] else [];
    assert sel[i..][0] == sel[i] && sel[i..][1..] == sel[i + 1..];
    var rest := SelectedSections(today, now, course, sel[i + 1..]);
    assert SelectedSections(today, now, course, sel[i..])
        == (if rest.Success? then Success(found + rest.value) else rest);
    PrefixSectionsStep(sections, found, rest);
  }

  function PrefixSections(ps: seq<ParsedSection>, r: Result<seq<ParsedSection>>): Result<seq<ParsedSection>> {
    if r.Success? then Success(ps + r.value) else r
  }

  lemma PrefixSectionsStep(ps: seq<ParsedSection>, first: seq<ParsedSection>, r: Result<seq<ParsedSection>>)
    ensures PrefixSections(ps, if r.Success? then Success(first + r.value) else r) == PrefixSections(ps + first, r)
  {
    if r.Success? {
      assert ps + (first + r.value) == (ps + first) + r.value;
    }
  }

  lemma PrefixSectionsEmpty(r: Result<seq<ParsedSection>>)
    ensures PrefixSections([], r) == r
  {
    if r.Success? {
      assert [] + r.value == r.value;
    }
  }
}
