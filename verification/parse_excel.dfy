/** The spreadsheet importer: one forward pass over the rows of the timetable sheet that
    carries the current course, section type and section from row to row and fills the
    course database in place.

    The database's dictionaries are shared: the current course is also an entry of the
    database, and the current section is also an entry of some course's sections. The model
    keeps every course and section record in an append-only table (`courses`, `sections`),
    refers to them by position, and reads the database out of the tables at the end, so that
    an update through the current course or section reaches every place that holds it. */
module ParseExcel {
  import opened Results
  import opened Text
  import Timetable

  /** A cell value: empty, text, or a whole number. */
  datatype Cell = Empty | Text(s: string) | Number(n: int)

  /** Python truthiness of a cell value. */
  predicate Truthy(c: Cell) {
    match c
    case Empty => false
    case Text(s) => s != []
    case Number(n) => n != 0
  }

  /** `str(value)`. */
  function CellStr(c: Cell): string {
    match c
    case Empty => "None"
    case Text(s) => s
    case Number(n) => IntToString(n)
  }

  /** Columns A..H of one row: course number, title, section number, instructor, room,
      days, hours, exam date and session. */
  datatype Row = Row(code: Cell, title: Cell, secNum: Cell, instructor: Cell,
                     room: Cell, days: Cell, hours: Cell, compre: Cell)

  /** Words that keep their case after the first word. */
  const EXCEPTIONS: seq<string> := ["I", "II", "III", "IV"]

  function KeepOrCapitalize(w: string): string {
    if w in EXCEPTIONS then w else Capitalize(w)
  }

  /** The words of a title: the first capitalised, the others kept when they are exceptions. */
  function TitledWords(ws: seq<string>): (r: seq<string>)
    requires ws != []
    ensures |r| == |ws| && r[0] == Capitalize(ws[0])
    ensures forall i :: 1 <= i < |ws| ==> r[i] == (if ws[i] in EXCEPTIONS then ws[i] else Capitalize(ws[i]))
  {
    [Capitalize(ws[0])] + seq(|ws| - 1, i requires 0 <= i < |ws| - 1 => KeepOrCapitalize(ws[i + 1]))
  }

  /** `title_except`. */
  function TitleExcept(s: string): string {
    Join(" ", TitledWords(Split(s, ' ')))
  }

  lemma CapitalizeNoSpace(w: string)
    requires ' ' !in w
    ensures ' ' !in Capitalize(w)
  {
    forall i | 0 <= i < |w|
      ensures Capitalize(w)[i] != ' '
    {
      CaseMappingKeepsSpaces(w[i]);
    }
  }

  /** Splitting the title again on single spaces gives as many words as the input had: the
      first capitalised, exceptions after it unchanged, every other word capitalised. */
  lemma TitleExceptWords(s: string)
    ensures Split(TitleExcept(s), ' ') == TitledWords(Split(s, ' '))
    ensures |Split(TitleExcept(s), ' ')| == |Split(s, ' ')|
  {
    var ws := Split(s, ' ');
    var ts := TitledWords(ws);
    forall i | 0 <= i < |ts|
      ensures ' ' !in ts[i]
    {
      CapitalizeNoSpace(ws[i]);
    }
    SplitJoin(ts, ' ');
  }

  /** `title_except` as the loop that builds the list of words. */
  method TitleExceptLoop(s: string) returns (r: string)
    ensures r == TitleExcept(s)
  {
    var words := Split(s, ' ');
    var final := [Capitalize(words[0])];
    var i := 1;
    while i < |words|
      invariant 1 <= i <= |words| && |final| == i && final[0] == Capitalize(words[0])
      invariant forall j :: 1 <= j < i ==> final[j] == KeepOrCapitalize(words[j])
    {
      final := final + [if words[i] in EXCEPTIONS then words[i] else Capitalize(words[i])];
      i := i + 1;
    }
    assert final == TitledWords(words);
    r := Join(" ", final);
  }

  /** A section: its instructors in row order and the room, days and hours fields once set. */
  datatype SectionRec = SectionRec(instructors: seq<Cell>, fields: map<string, Option<string>>)

  /** A course: its title, its sections by key (positions in the section table) and its exam. */
  datatype CourseRec = CourseRec(name: string, sections: map<string, nat>, compre: Timetable.CompreCell)

  /** The importer's state: the database (course number to position in the course table),
      the two tables, and the current course, section type and section, each unbound until
      a row first sets it. */
  datatype State = State(db: map<Cell, nat>, courses: seq<CourseRec>, sections: seq<SectionRec>,
                         course: Option<nat>, secType: Option<string>, section: Option<nat>)

  /** Every position held anywhere in the state names an existing record. */
  predicate Wf(st: State) {
    && (forall c :: c in st.db ==> st.db[c] < |st.courses|)
    && (forall i :: 0 <= i < |st.courses| ==>
          forall k :: k in st.courses[i].sections ==> st.courses[i].sections[k] < |st.sections|)
    && (st.course.Some? ==> st.course.value < |st.courses|)
    && (st.section.Some? ==> st.section.value < |st.sections|)
  }

  const Init: State := State(map[], [], [], None, None, None)

  /** The exam cell's first two whitespace-separated tokens; an empty cell gives neither. */
  function CompreOf(c: Cell): (r: Result<Timetable.CompreCell>)
    ensures !Truthy(c) ==> r == Success(Timetable.CompreCell(None, None))
    ensures Truthy(c) && r.Success? ==>
      c.Text? && |SplitWhitespace(c.s)| >= 2 && r.value == Timetable.CompreCell(Some(SplitWhitespace(c.s)[0]), Some(SplitWhitespace(c.s)[1]))
    ensures Truthy(c) && c.Text? ==> (r.Failure? <==> |SplitWhitespace(c.s)| < 2)
    ensures r.Failure? ==> r.error == (if c.Text? then IndexError else AttributeError)
  {
    if !Truthy(c) then Success(Timetable.CompreCell(None, None))
    else if !c.Text? then Failure(AttributeError)
    else
      var tokens := SplitWhitespace(c.s);
      if |tokens| < 2 then Failure(IndexError)
      else Success(Timetable.CompreCell(Some(tokens[0]), Some(tokens[1])))
  }

  /** A row with a course number opens a new course under that number, with no sections,
      and resets the section type to lectures. A title that is not text cannot be titled. */
  function OpenCourse(st: State, row: Row): (r: Result<State>)
    ensures Wf(st) && r.Success? ==> Wf(r.value)
    ensures r.Success? ==> r.value.sections == st.sections && r.value.section == st.section
  {
    if !row.title.Text? then Failure(TypeError)
    else
      var compre :- CompreOf(row.compre);
      var idx := |st.courses|;
      Success(st.(db := st.db[row.code := idx],
                  courses := st.courses + [CourseRec(TitleExcept(row.title.s), map[], compre)],
                  course := Some(idx), secType := Some("L")))
  }

  /** A row without a course number but with a title names the section type by the
      title's first character. */
  function SetType(st: State, row: Row): (r: Result<State>)
    ensures r.Success? ==> r.value == st.(secType := r.value.secType)
  {
    if Truthy(row.code) || !Truthy(row.title) then Success(st)
    else if !row.title.Text? then Failure(TypeError)
    else Success(st.(secType := Some([row.title.s[0]])))
  }

  /** `str(row[2].value or 1)`. */
  function SecNumStr(c: Cell): string {
    if Truthy(c) then CellStr(c) else "1"
  }

  /** A row with a room or a title opens a fresh section, stored in the current course
      under the section type followed by the section number. */
  function OpenSection(st: State, row: Row): (r: Result<State>)
    requires Wf(st)
    ensures r.Success? ==> Wf(r.value)
    ensures !(Truthy(row.room) || Truthy(row.title)) ==> r == Success(st)
    ensures r.Success? && (Truthy(row.room) || Truthy(row.title)) ==>
      r.value.sections == st.sections + [SectionRec([], map[])] && r.value.section == Some(|st.sections|)
  {
    if !(Truthy(row.room) || Truthy(row.title)) then Success(st)
    else if st.course.None? || st.secType.None? then Failure(NameError)
    else
      var c := st.courses[st.course.value];
      var idx := |st.sections|;
      var key := st.secType.value + SecNumStr(row.secNum);
      Success(st.(courses := st.courses[st.course.value := c.(sections := c.sections[key := idx])],
                  sections := st.sections + [SectionRec([], map[])],
                  section := Some(idx)))
  }

  /** The value a field takes from its cell: the cell as text, or none for an empty cell. */
  function FieldValue(c: Cell): Option<string> {
    if Truthy(c) then Some(CellStr(c)) else None
  }

  function SetIfAbsent(fields: map<string, Option<string>>, key: string, c: Cell): map<string, Option<string>> {
    if key in fields then fields else fields[key := FieldValue(c)]
  }

  /** The room, days and hours fields that the section does not have yet, from columns E..G. */
  function Fill(fields: map<string, Option<string>>, row: Row): (r: map<string, Option<string>>)
    ensures r.Keys == fields.Keys + {"room", "days", "hours"}
    ensures forall k :: k in fields ==> r[k] == fields[k]
  {
    SetIfAbsent(SetIfAbsent(SetIfAbsent(fields, "room", row.room), "days", row.days), "hours", row.hours)
  }

  /** The instructor is appended to the current section, whose missing fields are filled. */
  function Record(st: State, row: Row): (r: Result<State>)
    requires Wf(st)
    ensures r.Success? ==> Wf(r.value)
  {
    if st.section.None? then Failure(NameError)
    else
      var sec := st.sections[st.section.value];
      Success(st.(sections := st.sections[st.section.value :=
                    SectionRec(sec.instructors + [row.instructor], Fill(sec.fields, row))]))
  }

  /** One row of the loop; a row without an instructor is passed over. */
  function Step(st: State, row: Row): (r: Result<State>)
    requires Wf(st)
    ensures r.Success? ==> Wf(r.value)
  {
    if !Truthy(row.instructor) then Success(st)
    else
      var st3 :- Prepare(st, row);
      Record(st3, row)
  }

  /** A processed row before its instructor and fields are recorded: the course it opens,
      the section type it sets and the section it opens. Sections are only ever appended. */
  function Prepare(st: State, row: Row): (r: Result<State>)
    requires Wf(st)
    ensures r.Success? ==> Wf(r.value) && FieldsKept(st.sections, r.value.sections)
  {
    var st1 :- if Truthy(row.code) then OpenCourse(st, row) else Success(st);
    var st2 :- SetType(st1, row);
    FieldsKeptExtend(st2.sections, [SectionRec([], map[])]);
    OpenSection(st2, row)
  }

  /** The rows processed in order from the empty state; the first failing row stops the pass. */
  function Run(rows: seq<Row>): (r: Result<State>)
    ensures r.Success? ==> Wf(r.value)
  {
    if rows == [] then Success(Init)
    else
      var st :- Run(rows[..|rows| - 1]);
      Step(st, rows[|rows| - 1])
  }

  /** A course of the written database. */
  datatype Course = Course(name: string, sections: map<string, SectionRec>, compre: Timetable.CompreCell)

  /** The database read out of the tables. */
  function Render(st: State): map<Cell, Course>
    requires Wf(st)
  {
    map c | c in st.db ::
      var rec := st.courses[st.db[c]];
      Course(rec.name, map k | k in rec.sections :: st.sections[rec.sections[k]], rec.compre)
  }

  /** `course_db` once every row has been processed. */
  function CourseDb(rows: seq<Row>): Result<map<Cell, Course>> {
    var st :- Run(rows);
    Success(Render(st))
  }

  /** A row with no instructor changes nothing. */
  lemma StepSkipsRow(st: State, row: Row)
    requires Wf(st) && !Truthy(row.instructor)
    ensures Step(st, row) == Success(st)
  {
  }

  /** A row with a course number opens a fresh course under that number, named by its
      titled title, with the exam cell's tokens; the section type becomes `L`, and the new
      course holds only the section this row opens, if any. */
  lemma StepCourseRow(st: State, row: Row)
    requires Wf(st) && Truthy(row.instructor) && Truthy(row.code)
    requires Step(st, row).Success?
    ensures var r := Step(st, row).value;
      && r.db == st.db[row.code := |st.courses|]
      && r.course == Some(|st.courses|) && r.secType == Some("L")
      && row.title.Text? && r.courses[|st.courses|].name == TitleExcept(row.title.s)
      && Success(r.courses[|st.courses|].compre) == CompreOf(row.compre)
      && r.courses[|st.courses|].sections ==
           if Truthy(row.room) || Truthy(row.title) then map["L" + SecNumStr(row.secNum) := |st.sections|] else map[]
  {
  }

  /** A row without a course number but with a title takes its section type from the
      title's first character. */
  lemma StepTypeRow(st: State, row: Row)
    requires Wf(st) && Truthy(row.instructor) && !Truthy(row.code) && Truthy(row.title)
    requires Step(st, row).Success?
    ensures row.title.Text? && Step(st, row).value.secType == Some([row.title.s[0]])
  {
  }

  /** A row with a room or a title opens a fresh section holding just this row's instructor
      and this row's fields, and files it in the current course under the section type and
      number, replacing any section already under that key. */
  lemma StepOpensSection(st: State, row: Row)
    requires Wf(st) && Truthy(row.instructor) && (Truthy(row.room) || Truthy(row.title))
    requires Step(st, row).Success?
    ensures var r := Step(st, row).value;
      && r.section == Some(|st.sections|) && |r.sections| == |st.sections| + 1
      && r.sections[|st.sections|] == SectionRec([row.instructor], Fill(map[], row))
      && r.course.Some? && r.secType.Some?
      && r.courses[r.course.value].sections[r.secType.value + SecNumStr(row.secNum)] == |st.sections|
  {
    var st3 := Prepare(st, row).value;
    assert Step(st, row) == Record(st3, row);
  }

  /** A row with neither room nor title adds its instructor, duplicates included, to the
      section already current; no section is opened and no field is overwritten. */
  lemma StepAppendsInstructor(st: State, row: Row)
    requires Wf(st) && Truthy(row.instructor) && !Truthy(row.room) && !Truthy(row.title)
    requires Step(st, row).Success?
    ensures var r := Step(st, row).value;
      && st.section.Some? && r.section == st.section && |r.sections| == |st.sections|
      && r.sections[st.section.value].instructors == st.sections[st.section.value].instructors + [row.instructor]
      && r.sections[st.section.value].fields == Fill(st.sections[st.section.value].fields, row)
  {
  }

  /** A row can fail only by reaching an unbound name, a non-text title, or a malformed
      exam cell. */
  lemma StepFailure(st: State, row: Row)
    requires Wf(st) && Step(st, row).Failure?
    ensures Step(st, row).error in {NameError, TypeError, IndexError, AttributeError}
    ensures Step(st, row).error == NameError ==>
      st.section.None? || ((Truthy(row.room) || Truthy(row.title)) && (st.course.None? || st.secType.None?))
  {
  }

  /** Every section of `a` is still in `b` at its position, with every field it had. */
  predicate FieldsKept(a: seq<SectionRec>, b: seq<SectionRec>) {
    |a| <= |b| &&
    forall j, k :: 0 <= j < |a| && k in a[j].fields ==> k in b[j].fields && b[j].fields[k] == a[j].fields[k]
  }

  lemma FieldsKeptRecord(st: State, row: Row)
    requires Wf(st) && Record(st, row).Success?
    ensures FieldsKept(st.sections, Record(st, row).value.sections)
  {
  }

  /** A field, once set, keeps its value: no row overwrites it, and every section that
      existed before keeps its fields. */
  lemma StepKeepsFields(st: State, row: Row)
    requires Wf(st) && Step(st, row).Success?
    ensures FieldsKept(st.sections, Step(st, row).value.sections)
  {
    if Truthy(row.instructor) {
      var st3 := Prepare(st, row).value;
      FieldsKeptRecord(st3, row);
      FieldsKeptTrans(st.sections, st3.sections, Step(st, row).value.sections);
    }
  }

  lemma FieldsKeptExtend(a: seq<SectionRec>, extra: seq<SectionRec>)
    ensures FieldsKept(a, a + extra)
  {
    forall j | 0 <= j < |a| ensures (a + extra)[j] == a[j] {
    }
  }

  lemma FieldsKeptTrans(a: seq<SectionRec>, b: seq<SectionRec>, c: seq<SectionRec>)
    requires FieldsKept(a, b) && FieldsKept(b, c)
    ensures FieldsKept(a, c)
  {
  }

  /** The course numbers of the rows that are processed and open a course. */
  function CourseRows(rows: seq<Row>): set<Cell> {
    set i | 0 <= i < |rows| && Truthy(rows[i].instructor) && Truthy(rows[i].code) :: rows[i].code
  }

  /** A processed row with a course number adds that number to the database; no other
      row changes its keys. */
  lemma StepCodes(st: State, row: Row)
    requires Wf(st) && Step(st, row).Success?
    ensures Step(st, row).value.db.Keys ==
      st.db.Keys + (if Truthy(row.instructor) && Truthy(row.code) then {row.code} else {})
  {
  }

  lemma CourseRowsSnoc(rows: seq<Row>)
    requires rows != []
    ensures var last := rows[|rows| - 1];
      CourseRows(rows) == CourseRows(rows[..|rows| - 1]) +
        (if Truthy(last.instructor) && Truthy(last.code) then {last.code} else {})
  {
    var init := rows[..|rows| - 1];
    assert forall i :: 0 <= i < |init| ==> init[i] == rows[i];
  }

  /** The database holds exactly the course numbers of processed rows. */
  lemma {:induction false} RunCodes(rows: seq<Row>)
    requires Run(rows).Success?
    ensures Run(rows).value.db.Keys == CourseRows(rows)
  {
    if rows != [] {
      var init := rows[..|rows| - 1];
      RunCodes(init);
      StepCodes(Run(init).value, rows[|rows| - 1]);
      CourseRowsSnoc(rows);
    }
  }

  /** One row of the loop: the state's parts updated in place, in the order the script
      updates them. */
  method ProcessRow(st: State, row: Row) returns (r: Result<State>)
    requires Wf(st)
    ensures r == Step(st, row)
  {
    if !Truthy(row.instructor) {
      return Success(st);
    }
    var cur := st;
    if Truthy(row.code) {
      var started := OpenCourseRow(cur, row);
      if started.Failure? {
        return Failure(started.error);
      }
      cur := started.value;
    }
    if !Truthy(row.code) && Truthy(row.title) {
      if !row.title.Text? {
        return Failure(TypeError);
      }
      cur := cur.(secType := Some([row.title.s[0]]));
    }
    assert Wf(cur);
    var withSection := OpenSectionRow(cur, row);
    if withSection.Failure? {
      return Failure(withSection.error);
    }
    r := RecordRow(withSection.value, row);
  }

  /** A new course record appended and filed under the row's course number. */
  method OpenCourseRow(cur: State, row: Row) returns (r: Result<State>)
    ensures r == OpenCourse(cur, row)
  {
    if !row.title.Text? {
      return Failure(TypeError);
    }
    var compre := CompreOf(row.compre);
    if compre.Failure? {
      return Failure(compre.error);
    }
    var idx := |cur.courses|;
    r := Success(cur.(db := cur.db[row.code := idx],
                      courses := cur.courses + [CourseRec(TitleExcept(row.title.s), map[], compre.value)],
                      course := Some(idx), secType := Some("L")));
  }

  /** A new section record appended and filed in the current course. */
  method OpenSectionRow(cur: State, row: Row) returns (r: Result<State>)
    requires Wf(cur)
    ensures r == OpenSection(cur, row)
  {
    if !(Truthy(row.room) || Truthy(row.title)) {
      return Success(cur);
    }
    if cur.course.None? || cur.secType.None? {
      return Failure(NameError);
    }
    var c := cur.courses[cur.course.value];
    var idx := |cur.sections|;
    r := Success(cur.(courses := cur.courses[cur.course.value := c.(sections := c.sections[cur.secType.value + SecNumStr(row.secNum) := idx])],
                      sections := cur.sections + [SectionRec([], map[])],
                      section := Some(idx)));
  }

  /** The instructor appended and the absent fields set, one key after another. */
  method RecordRow(cur: State, row: Row) returns (r: Result<State>)
    requires Wf(cur)
    ensures r == Record(cur, row)
  {
    if cur.section.None? {
      return Failure(NameError);
    }
    var sec := cur.sections[cur.section.value];
    var fields := sec.fields;
    if "room" !in fields {
      fields := fields["room" := FieldValue(row.room)];
    }
    if "days" !in fields {
      fields := fields["days" := FieldValue(row.days)];
    }
    if "hours" !in fields {
      fields := fields["hours" := FieldValue(row.hours)];
    }
    r := Success(cur.(sections := cur.sections[cur.section.value := SectionRec(sec.instructors + [row.instructor], fields)]));
  }

  /** The loop over the rows; the first failing row ends the pass. */
  method BuildCourseDb(rows: seq<Row>) returns (r: Result<map<Cell, Course>>)
    ensures r == CourseDb(rows)
  {
    var st := Init;
    var i := 0;
    while i < |rows|
      invariant 0 <= i <= |rows|
      invariant Run(rows[..i]) == Success(st)
    {
      assert rows[..i + 1][..i] == rows[..i];
      var next := ProcessRow(st, rows[i]);
      if next.Failure? {
        PrefixFails(rows, i + 1);
        return Failure(next.error);
      }
      st := next.value;
      i := i + 1;
    }
    assert rows[..i] == rows;
    return Success(Render(st));
  }

  /** A failing prefix of the rows fails the whole pass with the same error. */
  lemma {:induction false} PrefixFails(rows: seq<Row>, n: nat)
    requires n <= |rows| && Run(rows[..n]).Failure?
    ensures CourseDb(rows) == Failure(Run(rows[..n]).error)
    decreases |rows| - n
  {
    if n < |rows| {
      assert rows[..n + 1][..n] == rows[..n];
      PrefixFails(rows, n + 1);
    } else {
      assert rows[..n] == rows;
    }
  }
}
