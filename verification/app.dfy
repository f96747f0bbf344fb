/** The older entry point's transforms: restricting the registered sections to a
    whitelist, overriding section codes, looking a section up (falling back to a lecture
    section), and building one weekly event per section and the exam event. */
module App {
  import opened Results
  import opened Civil
  import opened Text
  import Timetable
  import Gcal
  import Events

  /** Course code to its sections: section type to section code. */
  type Courses = map<string, map<string, string>>

  /** A whitelist entry: the whole course, a list of section types, or anything else. */
  datatype Choice = All | Types(types: seq<string>) | Invalid

  /** `{t: course[t] for t in types}`: a type the course lacks raises. */
  function Pick(course: map<string, string>, types: seq<string>): (r: Result<map<string, string>>)
    ensures r.Success? <==> forall i :: 0 <= i < |types| ==> types[i] in course
    ensures r.Failure? ==> r.error == KeyError
    ensures r.Success? ==> r.value.Keys == (set i | 0 <= i < |types| :: types[i])
                           && forall t :: t in r.value ==> t in course && r.value[t] == course[t]
  {
    if exists i :: 0 <= i < |types| && types[i] !in course then Failure(KeyError)
    else Success(map t | t in types :: course[t])
  }

  /** A course that is missing or has no sections counts as unknown. */
  predicate Known(orig: Courses, code: string) {
    code in orig && orig[code] != map[]
  }

  /** The entries of a (non-empty) whitelist processed in order into a new map. */
  function Build(orig: Courses, wl: seq<(string, Choice)>): Result<Courses> {
    if wl == [] then Success(map[])
    else
      var before :- Build(orig, wl[..|wl| - 1]);
      var (code, choice) := wl[|wl| - 1];
      if !Known(orig, code) then Success(before)
      else match choice
        case All => Success(before[code := orig[code]])
        case Types(ts) =>
          var picked :- Pick(orig[code], ts);
          Success(before[code := picked])
        case Invalid => Success(before)
  }

  /** `whitelist_sections`: without a whitelist the input itself. */
  function Whitelisted(orig: Courses, wl: seq<(string, Choice)>): Result<Courses> {
    if wl == [] then Success(orig) else Build(orig, wl)
  }

  predicate DistinctCodes<T>(entries: seq<(string, T)>) {
    forall i, j :: 0 <= i < j < |entries| ==> entries[i].0 != entries[j].0
  }

  /** The result holds only known, whitelisted courses, each with sections of its own. */
  lemma {:induction false} BuildSound(orig: Courses, wl: seq<(string, Choice)>)
    requires Build(orig, wl).Success?
    ensures forall c :: c in Build(orig, wl).value ==>
      && Known(orig, c)
      && (exists i :: 0 <= i < |wl| && wl[i].0 == c && !wl[i].1.Invalid?)
      && forall t :: t in Build(orig, wl).value[c] ==> t in orig[c] && Build(orig, wl).value[c][t] == orig[c][t]
  {
    if wl != [] {
      var init := wl[..|wl| - 1];
      BuildSound(orig, init);
      forall c | c in Build(orig, init).value
        ensures exists i :: 0 <= i < |wl| && wl[i].0 == c && !wl[i].1.Invalid?
      {
        var i :| 0 <= i < |init| && init[i].0 == c && !init[i].1.Invalid?;
        assert wl[i] == init[i];
      }
    }
  }

  /** With distinct course codes, each whitelist entry decides its course: an unknown course
      or an invalid entry leaves it out, `all` copies it, and a list of types keeps exactly
      those types. */
  lemma {:induction false} BuildEntry(orig: Courses, wl: seq<(string, Choice)>, i: nat)
    requires DistinctCodes(wl) && i < |wl|
    requires Build(orig, wl).Success?
    ensures var (c, choice) := wl[i];
      var r := Build(orig, wl).value;
      && (!Known(orig, c) || choice.Invalid? ==> c !in r)
      && (Known(orig, c) && choice.All? ==> c in r && r[c] == orig[c])
      && (Known(orig, c) && choice.Types? ==> c in r && Success(r[c]) == Pick(orig[c], choice.types))
  {
    var init := wl[..|wl| - 1];
    var c := wl[i].0;
    assert DistinctCodes(init);
    if i < |init| {
      BuildEntry(orig, init, i);
      assert init[i] == wl[i];
      assert wl[|wl| - 1].0 != c;
    } else {
      BuildSound(orig, init);
    }
  }

  /** The whitelist fails exactly when some entry lists a type its known course lacks. */
  lemma {:induction false} BuildFails(orig: Courses, wl: seq<(string, Choice)>)
    ensures Build(orig, wl).Failure? <==>
      exists i :: 0 <= i < |wl| && Known(orig, wl[i].0) && wl[i].1.Types? && Pick(orig[wl[i].0], wl[i].1.types).Failure?
    ensures Build(orig, wl).Failure? ==> Build(orig, wl).error == KeyError
  {
    if wl != [] {
      var init := wl[..|wl| - 1];
      BuildFails(orig, init);
      if exists i :: 0 <= i < |init| && Known(orig, init[i].0) && init[i].1.Types? && Pick(orig[init[i].0], init[i].1.types).Failure? {
        var i :| 0 <= i < |init| && Known(orig, init[i].0) && init[i].1.Types? && Pick(orig[init[i].0], init[i].1.types).Failure?;
        assert wl[i] == init[i];
      }
      if exists i :: 0 <= i < |wl| && Known(orig, wl[i].0) && wl[i].1.Types? && Pick(orig[wl[i].0], wl[i].1.types).Failure? {
        var i :| 0 <= i < |wl| && Known(orig, wl[i].0) && wl[i].1.Types? && Pick(orig[wl[i].0], wl[i].1.types).Failure?;
        if i < |init| {
          assert init[i] == wl[i];
        }
      }
    }
  }

  /** `whitelist_sections`: a new map filled entry by entry. */
  method WhitelistSections(orig: Courses, wl: seq<(string, Choice)>) returns (r: Result<Courses>)
    ensures r == Whitelisted(orig, wl)
  {
    if wl == [] {
      return Success(orig);
    }
    var sections: Courses := map[];
    var i := 0;
    while i < |wl|
      invariant 0 <= i <= |wl|
      invariant Build(orig, wl[..i]) == Success(sections)
    {
      var (code, choice) := wl[i];
      assert wl[..i + 1][..i] == wl[..i];
      if code in orig && orig[code] != map[] {
        match choice {
          case All =>
            sections := sections[code := orig[code]];
          case Types(ts) =>
            var picked := Pick(orig[code], ts);
            if picked.Failure? {
              PrefixFails(orig, wl, i + 1);
              return Failure(picked.error);
            }
            sections := sections[code := picked.value];
          case Invalid =>
        }
      }
      i := i + 1;
    }
    assert wl[..i] == wl;
    return Success(sections);
  }

  /** A failing prefix of the whitelist fails the whole of it, with the same error. */
  lemma {:induction false} PrefixFails(orig: Courses, wl: seq<(string, Choice)>, n: nat)
    requires n <= |wl| && Build(orig, wl[..n]).Failure?
    ensures Build(orig, wl) == Build(orig, wl[..n])
    decreases |wl| - n
  {
    if n < |wl| {
      assert wl[..n + 1][..n] == wl[..n];
      PrefixFails(orig, wl, n + 1);
    } else {
      assert wl[..n] == wl;
    }
  }

  /** A course's overrides, in configuration order: (section type, new section code). */
  type Replacements = seq<(string, string)>

  /** `course[sec_code] = sec` for the types the course already has; others are skipped. */
  function ReplaceAll(course: map<string, string>, reps: Replacements): map<string, string> {
    if reps == [] then course
    else
      var before := ReplaceAll(course, reps[..|reps| - 1]);
      var (t, code) := reps[|reps| - 1];
      if t in before then before[t := code] else before
  }

  /** `override_sections` over all entries; unknown and empty courses are skipped. */
  function OverriddenCourses(sections: Courses, overrides: seq<(string, Replacements)>): Courses {
    if overrides == [] then sections
    else
      var before := OverriddenCourses(sections, overrides[..|overrides| - 1]);
      var (code, reps) := overrides[|overrides| - 1];
      if code in before && before[code] != map[] then before[code := ReplaceAll(before[code], reps)] else before
  }

  /** Replacing never adds or drops a section type, and each type ends with its own code or
      with one of the replacements given for it. */
  lemma {:induction false} ReplaceAllShape(course: map<string, string>, reps: Replacements)
    ensures ReplaceAll(course, reps).Keys == course.Keys
    ensures forall t :: t in course ==>
      ReplaceAll(course, reps)[t] == course[t] || exists i :: 0 <= i < |reps| && reps[i] == (t, ReplaceAll(course, reps)[t])
  {
    if reps != [] {
      var init := reps[..|reps| - 1];
      ReplaceAllShape(course, init);
      forall t | t in course && ReplaceAll(course, reps)[t] != course[t]
        ensures exists i :: 0 <= i < |reps| && reps[i] == (t, ReplaceAll(course, reps)[t])
      {
        if reps[|reps| - 1].0 != t {
          var i :| 0 <= i < |init| && init[i] == (t, ReplaceAll(course, init)[t]);
          assert reps[i] == init[i];
        }
      }
    }
  }

  /** Overriding keeps the set of courses and each course's section types; a course no
      override names is untouched. */
  lemma {:induction false} OverriddenShape(sections: Courses, overrides: seq<(string, Replacements)>)
    ensures OverriddenCourses(sections, overrides).Keys == sections.Keys
    ensures forall c :: c in sections ==> OverriddenCourses(sections, overrides)[c].Keys == sections[c].Keys
    ensures forall c :: c in sections && (forall i :: 0 <= i < |overrides| ==> overrides[i].0 != c)
                        ==> OverriddenCourses(sections, overrides)[c] == sections[c]
  {
    if overrides != [] {
      var init := overrides[..|overrides| - 1];
      OverriddenShape(sections, init);
      var before := OverriddenCourses(sections, init);
      var (code, reps) := overrides[|overrides| - 1];
      if code in before && before[code] != map[] {
        ReplaceAllShape(before[code], reps);
      }
      forall c | c in sections && (forall i :: 0 <= i < |overrides| ==> overrides[i].0 != c)
        ensures OverriddenCourses(sections, overrides)[c] == sections[c]
      {
        assert forall i :: 0 <= i < |init| ==> init[i] == overrides[i];
      }
    }
  }

  /** `override_sections`: each known course's map is edited in place. */
  method OverrideSections(sections: Courses, overrides: seq<(string, Replacements)>) returns (r: Courses)
    ensures r == OverriddenCourses(sections, overrides)
  {
    r := sections;
    var i := 0;
    while i < |overrides|
      invariant 0 <= i <= |overrides|
      invariant r == OverriddenCourses(sections, overrides[..i])
    {
      var (code, reps) := overrides[i];
      assert overrides[..i + 1][..i] == overrides[..i];
      if code in r && r[code] != map[] {
        var course := r[code];
        var j := 0;
        while j < |reps|
          invariant 0 <= j <= |reps|
          invariant course == ReplaceAll(r[code], reps[..j])
        {
          var (t, secCode) := reps[j];
          assert reps[..j + 1][..j] == reps[..j];
          if t in course {
            course := course[t := secCode];
          }
          j := j + 1;
        }
        assert reps[..j] == reps;
        r := r[code := course];
      }
      i := i + 1;
    }
    assert overrides[..i] == overrides;
  }

  /** A section as the older timetable stores it; `get_section` writes its `num`. */
  class Section {
    var num: string
    const instructors: seq<string>
    const room: string
    const days: Option<string>
    const hours: Option<string>

    constructor (num: string, instructors: seq<string>, room: string, days: Option<string>, hours: Option<string>)
      ensures this.num == num && this.instructors == instructors && this.room == room
      ensures this.days == days && this.hours == hours
    {
      this.num := num;
      this.instructors := instructors;
      this.room := room;
      this.days := days;
      this.hours := hours;
    }

    /** The section as `parse_section` reads it. */
    function Record(): Gcal.SectionRecord
      reads this
    {
      Gcal.SectionRecord(num, instructors, room, days, hours)
    }
  }

  /** The key this `get_section` resolves `secNum` to. Unlike the one in `timetable.py`, it
      builds the whole list `[sec_code[0] == 'L' for ...]` before `all` reads it, so an empty
      code raises `IndexError` whenever the exact code is missing, wherever it stands. */
  function SectionKey(keys: set<string>, secNum: string): (r: Result<Option<string>>)
    ensures secNum in keys ==> r == Success(Some(secNum))
    ensures secNum !in keys ==> (r == Failure(IndexError) <==> "" in keys)
    ensures "" !in keys ==> r == Success(Timetable.SectionKey(keys, secNum))
  {
    if secNum in keys then Success(Some(secNum))
    else if "" in keys then Failure(IndexError)
    else Success(Timetable.SectionKey(keys, secNum))
  }

  /** `get_section`: the exact code, else `L` plus the rest of the code when every code is a
      lecture code; the found section gets `secNum` as its number and is parsed. */
  method GetSection(today: Date, secNum: string, sections: map<string, Section>)
    returns (r: Result<Option<Gcal.SectionMeeting>>)
    modifies sections.Values
    ensures var key := SectionKey(sections.Keys, secNum);
      && (key.Failure? ==> r == Failure(key.error))
      && (key == Success(None) ==> r == Success(None))
      && (key.Success? && key.value.Some? ==>
            sections[key.value.value].num == secNum
            && var p := Gcal.ParseSection(today, sections[key.value.value].Record());
            r == if p.Success? then Success(Some(p.value)) else Failure(p.error))
      && forall s :: s in sections.Values && (key.Failure? || key.value.None? || s != sections[key.value.value])
                     ==> s.num == old(s.num)
  {
    var key := SectionKey(sections.Keys, secNum);
    if key.Failure? {
      return Failure(key.error);
    }
    if key.value.None? {
      return Success(None);
    }
    var section := sections[key.value.value];
    section.num := secNum;
    var parsed := Gcal.ParseSection(today, section.Record());
    if parsed.Failure? {
      return Failure(parsed.error);
    }
    return Success(Some(parsed.value));
  }

  /** The payload of one parsed section: the weekly rule until the configured last date,
      no inclusion or exclusion dates. */
  function SectionEvent(courseName: string, s: Gcal.SectionMeeting, lastDate: Date, color: string): Events.Payload {
    Events.Recurring(courseName + " " + s.num, s.instructors, s.room, s.start, s.end,
                     [Events.RRule(Events.ByDayCodes(s.wdays), lastDate)],
                     Events.REMINDER_MINUTES, color)
  }

  /** `make_section_events`: one payload per section, in order. A section that was not found
      (`None`) raises `TypeError`, and a failed colour lookup raises its error. */
  function SectionEvents(courseName: string, sections: seq<Option<Gcal.SectionMeeting>>, lastDate: Date)
    : (r: Result<seq<Events.Payload>>)
    ensures r.Success? ==> |r.value| == |sections|
  {
    if sections == [] then Success([])
    else if sections[0].None? then Failure(TypeError)
    else
      var color :- Events.SectionColor(sections[0].value.num);
      var rest :- SectionEvents(courseName, sections[1..], lastDate);
      Success([SectionEvent(courseName, sections[0].value, lastDate, color)] + rest)
  }

  /** The payloads are produced exactly when every section was found and has a known
      section type. */
  lemma {:induction false} SectionEventsSucceed(courseName: string, sections: seq<Option<Gcal.SectionMeeting>>, lastDate: Date)
    ensures SectionEvents(courseName, sections, lastDate).Success? <==>
      forall i :: 0 <= i < |sections| ==> sections[i].Some? && Events.SectionColor(sections[i].value.num).Success?
  {
    if sections != [] {
      SectionEventsSucceed(courseName, sections[1..], lastDate);
      assert forall i :: 1 <= i < |sections| ==> sections[i] == sections[1..][i - 1];
    }
  }

  /** Each payload is its section's weekly event, in the section's colour. */
  lemma {:induction false} SectionEventsAt(courseName: string, sections: seq<Option<Gcal.SectionMeeting>>, lastDate: Date)
    requires SectionEvents(courseName, sections, lastDate).Success?
    ensures forall i :: 0 <= i < |sections| ==>
      sections[i].Some? && Events.SectionColor(sections[i].value.num).Success? &&
      SectionEvents(courseName, sections, lastDate).value[i] ==
        SectionEvent(courseName, sections[i].value, lastDate, Events.SectionColor(sections[i].value.num).value)
  {
    if sections != [] {
      SectionEventsAt(courseName, sections[1..], lastDate);
      assert forall i :: 1 <= i < |sections| ==> sections[i] == sections[1..][i - 1];
    }
  }

  /** `make_compre_event`: none without an exam; otherwise the exam event in colour 11. */
  function MakeCompreEvent(courseName: string, compre: Option<Timetable.Slot>): (r: Option<Events.Payload>)
    ensures r.None? <==> compre.None?
    ensures r.Some? ==> r.value.Single? && r.value.colorId == "11"
  {
    if compre.None? then None
    else Some(Events.Single(courseName + " Compre", compre.value.start, compre.value.end, "11"))
  }

  /** The older exam event is the newer one in a different colour. */
  lemma CompreEventsAgree(courseName: string, compre: Timetable.Slot)
    ensures MakeCompreEvent(courseName, Some(compre)) == Some(Events.MakeCompreEvent(courseName, compre).(colorId := "11"))
  {
  }
}
