/** The older schedule resolver: a section record whose days and hours are still
    space-separated text, hour codes indexing a table of 07:00..17:00 start times, and the
    exam slot keyed by session name. */
module Gcal {
  import opened Results
  import opened Civil
  import opened Text
  import Timetable

  /** Weekday tokens; a token's ISO weekday is its position plus one. */
  const WEEK: seq<string> := ["M", "T", "W", "Th", "F", "S"]

  /** The start-time table `[time(hour=h) for h in range(7, 18)]` has this many entries. */
  const START_SLOTS := 11

  /** A section record as `parse_section` receives it; days and hours may be missing. */
  datatype SectionRecord = SectionRecord(num: string, instructors: seq<string>, room: string,
                                         days: Option<string>, hours: Option<string>)

  /** A section's weekly meeting as `parse_section` returns it. */
  datatype SectionMeeting = SectionMeeting(num: string, instructors: string, room: string,
                                           start: DateTime, end: DateTime, wdays: seq<Timetable.DayNumber>)

  /** `WEEK.index(day) + 1`: an unknown token raises. */
  function WeekNumber(day: string): (r: Result<Timetable.DayNumber>)
    ensures r.Success? <==> day in WEEK
    ensures r.Success? ==> WEEK[r.value - 1] == day
    ensures r.Failure? ==> r.error == ValueError
  {
    if day == "M" then Success(1) else if day == "T" then Success(2)
    else if day == "W" then Success(3) else if day == "Th" then Success(4)
    else if day == "F" then Success(5) else if day == "S" then Success(6)
    else Failure(ValueError)
  }

  /** One weekday number per token, each naming its token. */
  predicate NameDays(wdays: seq<Timetable.DayNumber>, tokens: seq<string>) {
    |wdays| == |tokens| && forall i :: 0 <= i < |tokens| ==> WEEK[wdays[i] - 1] == tokens[i]
  }

  /** The weekday numbers of the tokens of `days`, in order; the first unknown one raises. */
  function WeekNumbers(tokens: seq<string>): (r: Result<seq<Timetable.DayNumber>>)
    ensures r.Success? <==> forall i :: 0 <= i < |tokens| ==> tokens[i] in WEEK
    ensures r.Success? ==> NameDays(r.value, tokens)
    ensures r.Failure? ==> r.error == ValueError
  {
    if tokens == [] then Success([])
    else
      var d :- WeekNumber(tokens[0]);
      var rest :- WeekNumbers(tokens[1..]);
      assert forall i :: 1 <= i < |tokens| ==> tokens[i] == tokens[1..][i - 1];
      Success([d] + rest)
  }

  /** `calc_start_date`: the timetable's rule without the option of skipping today. */
  function CalcStartDate(today: Date, wdays: seq<int>): (r: Result<Date>)
    ensures IsoWeekday(today) in wdays ==> r == Success(today)
    ensures r.Failure? <==> wdays == []
    ensures r.Failure? ==> r.error == ZeroDivision
  {
    Timetable.CalcStartDate(today, wdays, false)
  }

  /** For sorted ISO weekdays the start date is the first meeting day from today on, at most
      six days ahead. */
  lemma CalcStartDateNearest(today: Date, wdays: seq<int>)
    requires Valid(today) && wdays != [] && Timetable.Sorted(wdays)
    requires forall i :: 0 <= i < |wdays| ==> 1 <= wdays[i] <= 7
    ensures CalcStartDate(today, wdays).Success?
    ensures var d := CalcStartDate(today, wdays).value;
      && Valid(d) && IsoWeekday(d) in wdays
      && 0 <= Ordinal(d) - Ordinal(today) <= 6
      && forall k :: 0 <= k < Ordinal(d) - Ordinal(today) ==> IsoWeekday(AddDays(today, k)) !in wdays
  {
    if IsoWeekday(today) !in wdays {
      Timetable.CalcStartDateNext(today, wdays, false);
      var d := CalcStartDate(today, wdays).value;
      var delta := Ordinal(d) - Ordinal(today);
      if delta == 7 {
        AddDaysWeekday(today, 7);
        OrdinalInjective(d, AddDays(today, 7));
        assert false;
      }
    }
  }

  /** `start_times[i]` with Python indexing: negative indices count from the end. */
  function StartHour(i: int): (h: Result<int>)
    ensures h.Success? <==> -START_SLOTS <= i < START_SLOTS
    ensures h.Success? ==> 7 <= h.value <= 17
    ensures h.Success? && i >= 0 ==> h.value == 7 + i
    ensures h.Success? && i < 0 ==> h.value == 7 + START_SLOTS + i
    ensures h.Failure? ==> h.error == IndexError
  {
    if 0 <= i < START_SLOTS then Success(7 + i)
    else if -START_SLOTS <= i < 0 then Success(7 + START_SLOTS + i)
    else Failure(IndexError)
  }

  /** `parse_times`: the first hour code picks the start hour, and the class runs for as
      many hours as there are codes, ending at :50 of the last one. The last code itself is
      never read. */
  function ParseTimes(hours: string): (r: Result<(int, int)>)
    ensures SplitWhitespace(hours) == [] ==> r == Failure(IndexError)
  {
    TimesOf(SplitWhitespace(hours))
  }

  /** `parse_times` on the hour codes. */
  function TimesOf(codes: seq<string>): (r: Result<(int, int)>)
    ensures codes == [] ==> r == Failure(IndexError)
    ensures r.Success? ==> && codes != [] && ParseInt(codes[0]).Success?
                           && StartHour(ParseInt(codes[0]).value) == Success(r.value.0 / 60)
                           && r.value.0 % 60 == 0
                           && r.value.1 == r.value.0 + 60 * (|codes| - 1) + 50
    ensures codes != [] && ParseInt(codes[0]).Success? && StartHour(ParseInt(codes[0]).value).Success?
            ==> (r.Success? <==> StartHour(ParseInt(codes[0]).value).value + |codes| - 1 <= 23)
  {
    if codes == [] then Failure(IndexError)
    else
      var i :- ParseInt(codes[0]);
      var h :- StartHour(i);
      var end :- Time(h + |codes| - 1, 50);
      Success((60 * h, end))
  }

  /** Only the number of codes matters after the first: two lists of codes with the same
      first code and length give the same times. */
  lemma TimesIgnoreLaterCodes(a: seq<string>, b: seq<string>)
    requires a != [] && b != [] && a[0] == b[0] && |a| == |b|
    ensures TimesOf(a) == TimesOf(b)
  {
  }

  /** `parse_compre`: none for an empty date; otherwise the exam day, 09:00-12:00 for `FN`,
      14:00-17:00 for `AN`, and a failed lookup for any other session, which is reached only
      once the date has been resolved. */
  function ParseCompre(today: Date, compre: Timetable.CompreCell): (r: Result<Option<Timetable.Slot>>)
    ensures compre.date.None? || compre.date == Some("") ==> r == Success(None)
    ensures compre.date.Some? && compre.date.value != [] ==>
      var day := Timetable.CompreDate(today, compre.date.value);
      && (day.Failure? ==> r == Failure(day.error))
      && (day.Success? && compre.session != Some("FN") && compre.session != Some("AN") ==> r == Failure(KeyError))
      && (day.Success? && compre.session == Some("FN") ==>
            r == Success(Some(Timetable.Slot(DateTime(day.value, 9 * 60), DateTime(day.value, 12 * 60)))))
      && (day.Success? && compre.session == Some("AN") ==>
            r == Success(Some(Timetable.Slot(DateTime(day.value, 14 * 60), DateTime(day.value, 17 * 60)))))
  {
    if compre.date.None? || compre.date.value == [] then Success(None)
    else
      var day :- Timetable.CompreDate(today, compre.date.value);
      if compre.session == Some("FN") then Success(Some(Timetable.Slot(DateTime(day, 9 * 60), DateTime(day, 12 * 60))))
      else if compre.session == Some("AN") then Success(Some(Timetable.Slot(DateTime(day, 14 * 60), DateTime(day, 17 * 60))))
      else Failure(KeyError)
  }

  /** A resolved exam lasts three hours on one day that is not before today. */
  lemma CompreSlot(today: Date, compre: Timetable.CompreCell)
    requires Valid(today)
    requires ParseCompre(today, compre).Success? && ParseCompre(today, compre).value.Some?
    ensures var s := ParseCompre(today, compre).value.value;
      && s.start.date == s.end.date && Valid(s.start.date)
      && Ordinal(s.start.date) >= Ordinal(today)
      && s.end.minute == s.start.minute + 180
  {
    Timetable.CompreDateNotPast(today, compre.date.value);
  }

  /** `parse_section`: weekday numbers from the day tokens, the start date, the times, and
      the instructors joined with ", ". Missing days or hours raise `AttributeError`. */
  function ParseSection(today: Date, sec: SectionRecord): (r: Result<SectionMeeting>)
    ensures sec.days.None? ==> r == Failure(AttributeError)
    ensures r.Success? ==> sec.days.Some? && sec.hours.Some?
  {
    if sec.days.None? then Failure(AttributeError)
    else
      var wdays :- WeekNumbers(SplitWhitespace(sec.days.value));
      var startDate :- CalcStartDate(today, wdays);
      if sec.hours.None? then Failure(AttributeError)
      else
        var times :- ParseTimes(sec.hours.value);
        Success(SectionMeeting(sec.num, Join(", ", sec.instructors), sec.room,
                               DateTime(startDate, times.0), DateTime(startDate, times.1), wdays))
  }

  /** A parsed section has one weekday per day token, naming that token, and at least one. */
  lemma ParseSectionDays(today: Date, sec: SectionRecord)
    requires ParseSection(today, sec).Success?
    ensures var m := ParseSection(today, sec).value;
      var tokens := SplitWhitespace(sec.days.value);
      tokens != [] && NameDays(m.wdays, tokens)
  {
    var w := WeekNumbers(SplitWhitespace(sec.days.value));
    assert w.Success? && ParseSection(today, sec).value.wdays == w.value;
  }

  /** A parsed section starts on the computed start date of its weekdays and ends that day;
      its times are the parsed hours; its number and room are kept and its instructors
      joined with ", ". */
  lemma ParseSectionMeeting(today: Date, sec: SectionRecord)
    requires ParseSection(today, sec).Success?
    ensures var m := ParseSection(today, sec).value;
      && m.start.date == m.end.date && Success(m.start.date) == CalcStartDate(today, m.wdays)
      && Success((m.start.minute, m.end.minute)) == ParseTimes(sec.hours.value)
      && m.num == sec.num && m.room == sec.room && m.instructors == Join(", ", sec.instructors)
  {
    var w := WeekNumbers(SplitWhitespace(sec.days.value));
    assert w.Success? && ParseSection(today, sec).value.wdays == w.value;
  }

  /** Every day token must be one of the six; the first other token fails the section. */
  lemma ParseSectionUnknownDay(today: Date, sec: SectionRecord, i: int)
    requires sec.days.Some? && 0 <= i < |SplitWhitespace(sec.days.value)|
    requires SplitWhitespace(sec.days.value)[i] !in WEEK
    ensures ParseSection(today, sec) == Failure(ValueError)
  {
  }
}
