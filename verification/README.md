# erp-gcal core in Dafny

erp-gcal turns a university's semester timetable into Google Calendar events. It takes
two kinds of input:

- **The weekly class timetable.** This is either a spreadsheet export with one row per
  instructor line, or the student's registered sections scraped from the enrolment portal
  (ERP).
- **The academic calendar's events table.** This is tab-separated text of
  `Month day (Wd)` cells and event names.

From these it derives the semester's exception calendar: holidays, day-order changes
("Tuesday's timetable to be followed"), the first and last working day, and the
mid-semester test week. It resolves each section's meetings to concrete first
occurrences. It then synthesises calendar-event payloads: a weekly `RRULE` per meeting,
with `RDATE` inclusion dates and `EXDATE` exclusion dates, plus single events for the
mid-semester and comprehensive exams.

This project models the repository's core as Dafny modules that follow its files:

| module | file | models |
|---|---|---|
| `Results` | results.dfy | `Option`, `Result` and the Python exception kinds the core raises |
| `Civil` | civil.dfy | proleptic Gregorian dates as Python's `date` has them: `toordinal`, `weekday`, `isoweekday`, `replace`, `timedelta` arithmetic |
| `Text` | text.dfy | the `str` methods the core uses: `strip`, `split`, `join`, `capitalize`, `int()` on digits |
| `Dates` | dates.dfy | `dates.py`: date-cell resolution, the events table, holidays, milestone lookup and the semester boundaries |
| `Timetable` | timetable.dfy | `timetable.py`: start dates, meeting parsing, exam slots, section lookup and course assembly |
| `Events` | events.dfy | `events.py`: day-change groups, inclusion and exclusion dates, recurrence lines and event payloads |
| `Gcal` | gcal.dfy | the older `gcal.py` schedule resolver |
| `App` | app.dfy | the older `app.py` transforms and event builders |
| `Overrides` | overrides.dfy | `main.py`'s section overrides |
| `Erp` | erp.dfy | `erp.py`'s parsing of the weekly schedule grid |
| `Utils` | weekday.dfy | `utils.py`'s `get_weekday` |
| `ParseExcel` | parse_excel.dfy | `parse_excel.py`'s title casing and row state machine |

Conventions of the model:

- **Current date and clock.** They are parameters: `today: Date`, and `now` in seconds
  since midnight. Times of day are minutes since midnight.
- **Configuration.** Values arrive already parsed, as parameters or a `Settings` record.
- **Similarity score.** `difflib`'s ratio is an uninterpreted function `Similarity`.
- **The date grammar's regular expression.** It is replaced by the tokens it yields, as
  `DateToken`.
- **Code that loops and updates state.** It is a `method`. Each method is proved equal to
  a specification function, and the source's promises are lemmas about that function.
- **Exceptions.** An exception becomes `Failure(error)`, carrying the Python exception
  kind. `AssertionError` and `InvalidDate` also carry the message.

Points where the model follows the code closely, because its behaviour is easy to misread:

- **Month fallbacks of `_match_wday`.** Its docstring (dates.py:38) says it tries changing
  the year and then the month of `dd`. Each `replace` (dates.py:40-60) applies to the
  previous candidate. So the month fallbacks keep the year the previous `replace` set. The
  month before today's falls in *next* year, except in January, where it is December of
  last year. The month after today's keeps the year just set: February of last year in
  January, January of next year in December, otherwise next year. `Dates.MatchCandidates`
  lists the five candidates in that order.
- **Anchor of start dates.** Both `calc_start_date`s (timetable.py:22-30, gcal.py:88-96)
  count from the wall-clock date (today), not from the first working day.
- **Duplicate instructors.** Instructor lists keep duplicates (parse_excel.py:44).
- **Negative hour codes.** In `gcal.parse_times` a negative hour code indexes the start-time
  table from the end, as Python list indexing does.
- **The weekly rule.** A recurrence's `RRULE` line is kept as its parts (the `BYDAY` codes
  and the `UNTIL` date); `Events.RRuleText` renders it as the text events.py:87 builds.

## Model

| member | source | states |
|---|---|---|
| Dates.WeekdayIndex | dates.py:16 | succeeds exactly for the seven abbreviations M..Su, and returns the position of the abbreviation; any other key is a `KeyError` |
| Dates.MatchWday | dates.py:37-65 | a returned date is valid, has the requested weekday and keeps the day of month; a date already on that weekday is returned unchanged; any other failure is `InvalidDateError("Unable to match with weekday")` or the `ValueError` of a `replace` that names a non-existent day |
| Dates.MatchWdayCandidates | dates.py:39-63 | a result is one of the five dates of `MatchCandidates` |
| Dates.MatchWdayCascade | dates.py:37-65 | `_match_wday` is exactly the search for the first of the five candidates, in their fixed order, that is on the weekday |
| Dates.MatchCandidates | dates.py:39-63 | five candidates with the input's day: the input; its month in the year before and after today's; then, keeping the year the previous `replace` left, the month before and after today's, wrapping at January and December |
| Dates.FirstOnWeekdayFound | dates.py:39-63 | when every earlier candidate is a date off the weekday, a candidate on the weekday is returned |
| Dates.FirstOnWeekdayInvalid | dates.py:45-58 | when every earlier candidate is a date off the weekday, a candidate that is no date raises `ValueError` |
| Dates.FirstOnWeekdayNone | dates.py:63 | `InvalidDateError` comes exactly when every candidate is a date off the weekday; a success is one of the candidates |
| Dates.SearchWeekday | dates.py:94-104 | a result keeps the day and agrees with the abbreviation (`S` is Saturday or Sunday); a date already on the weekday is kept; every `InvalidDateError` carries the whole cell text |
| Dates.ResolveToken | dates.py:83-109 | a resolved date is valid, keeps the token's day and agrees with its weekday, and is less than 12 weeks from the previous date; a month-less first token raises `InvalidDateError(cell)` |
| Dates.ResolveTokenMonth | dates.py:85-104 | a resolved token has a month, its own or the previous date's, and the result is a `_match_wday` candidate of that day and month in today's year |
| Dates.MonthInherited | dates.py:85-87 | a token without a month resolves exactly as if it named the previous date's month |
| Dates.ResolveTokenOnWeekday | dates.py:85-109 | when the token's day and month in today's year is a date on the stated weekday, close enough to the previous date, that date is the result |
| Dates.SaturdayRetriedAsSunday | dates.py:97-100 | an `S` token that matches no Saturday is resolved by the Sunday search, and the result is a Sunday |
| Dates.ResolveAllResolves | dates.py:82-109 | the resolved dates correspond one to one with the tokens, in token order, each within 12 weeks of its predecessor |
| Dates.ParseDatesSpec | dates.py:79-112 | a resolved cell is non-empty and in token order, and its first token names a month; a cell with no token raises `InvalidDateError(cell)`; every `InvalidDateError` carries the cell text |
| Dates.ResolveAllErrors | dates.py:85-108 | every `InvalidDateError` raised while resolving carries the whole cell text |
| Dates.ParseDateStr | dates.py:68-112 | the loop over the tokens returns exactly `ParseDates` |
| Dates.Insert | dates.py:137 | the append on the `defaultdict(list)` adds the name under its key only, and keeps the keys distinct |
| Dates.CollectFiles | dates.py:125-137 | after filing, every date tuple holds its earlier names followed by the names of the pairs whose date cell parses to it, in order |
| Dates.CollectDistinct | dates.py:125-137 | filing keeps the table's keys distinct, as a dict's are |
| Dates.CollectFails | dates.py:137 | filing fails exactly when some date cell fails to parse |
| Dates.ParseFile | dates.py:115-138 | reads each row's stripped (date, name) pairs: a pair with an empty date is skipped, a dangling single cell ends the row, and the names are filed in order under the parsed date tuples |
| Dates.Holidays | dates.py:141-144 | a date is a holiday exactly when an entry holding it has a name ending in `(H)` |
| Dates.HolidaySet | dates.py:249 | configured holidays win when there are any; otherwise the set is the table's holidays |
| Dates.FirstMatchIndex | dates.py:165-172 | the first entry in table order that has a name scoring above the threshold; no earlier entry does |
| Dates.FirstMatch | dates.py:165-172 | none exactly when no entry matches; otherwise the dates of the first matching entry |
| Dates.FindEventDate | dates.py:165-172 | the scan over entries and names returns exactly `FirstMatch` |
| Dates.CurSem | dates.py:239 | semester 2 exactly from January to May, else 1 |
| Dates.SemLastDate | dates.py:187-189 | the 29th of November in semester 1 and of April in semester 2, in today's year |
| Dates.GetFirstWorkday | dates.py:192-201 | the configured date, else the first matching entry's first date, else the semester start; accepted exactly when at most 180 days after today, with the source's assertion message otherwise |
| Dates.FirstWorkdayPrecedence | dates.py:194-199 | with nothing configured and no match, the fallback is used; a configured date overrides the table |
| Dates.GetLastWorkday | dates.py:204-213 | the same precedence with `calc_sem_last_date` as fallback; accepted exactly when not before today |
| Dates.LastWorkdayDefault | dates.py:208-212 | with nothing configured and no match, the last working day is the semester's 29th, accepted exactly while today is not after it |
| Dates.GetMidsemDates | dates.py:216-225 | a configured range is returned exactly when its start is not before today. With nothing configured, an empty table gives none. Otherwise the table's lookup is used: its failure is passed on, and its range is returned exactly when its start is not before today. A refused range fails with `AssertionError("Midsem start date is in the past")` |
| Dates.MidsemFromTable | dates.py:219-222 | a table without a matching entry raises `TypeError`; a matching entry with fewer than two dates raises `IndexError`; otherwise the result is the entry's first and second dates |
| Dates.GetDayChanges | dates.py:228-236 | the configured changes when any, else the parsed ones; succeeds exactly when every code is one of the seven, with the dates as keys and the codes as values |
| Dates.CheckDayChanges | dates.py:228-234 | the loop succeeds exactly when every code is one of the seven, and then holds every entry's date as a key with its code as value, and no other key; a bad code is an `AssertionError` |
| Timetable.IsoDay | timetable.py:7 | succeeds exactly for the six day letters, with the ISO weekday as the letter's position plus one; otherwise `KeyError` |
| Timetable.IsoDays | timetable.py:34 | maps every letter, in order, and fails on the first unknown one |
| Timetable.BisectRight | timetable.py:26 | the index CPython's `bisect_right` computes, within the searched bounds |
| Timetable.BisectRightSorted | timetable.py:26 | on a sorted list the index splits the items at most `x` from those above it |
| Timetable.CalcStartDate | timetable.py:22-30 | today when it is a meeting day and not skipped; fails with `ZeroDivisionError` exactly for an empty weekday list |
| Timetable.CalcStartDateNext | timetable.py:26-30 | for sorted weekdays, when today is skipped or not a meeting day, the start is 1 to 7 days ahead on a meeting day, and no meeting day lies before it |
| Timetable.NextMeeting | timetable.py:26-30 | the offset from the insertion point of today's weekday lands on the next meeting day |
| Timetable.ParseSched | timetable.py:33-43 | a meeting keeps its room, and its weekdays are exactly `IsoDays` of the day letters; an unknown letter is a `KeyError`; it starts at `hours[0] + 7` on the hour and ends at `hours[-1] + 7` at :50, on one day; that day is `calc_start_date` skipping today when the meeting has already ended; no hour codes raises `IndexError` |
| Timetable.ParseSchedOutcome | timetable.py:33-37 | `ParseSched` succeeds exactly when every day letter is known, there is at least one letter and one hour code, and `hours[0] + 7` and `hours[-1] + 7` are hours of the day; with known letters and at least one hour code, an hour outside 0..23 is a `ValueError`; with valid hours, no letters is a `ZeroDivisionError` |
| Timetable.SkipTodayExactly | timetable.py:37 | a meeting still to come today, on a meeting day, starts today; one already over starts on a later day |
| Timetable.ParseScheds | timetable.py:50 | one meeting per descriptor in order, each as `ParseSched` gives it |
| Timetable.ParseSchedsSucceed | timetable.py:50 | `ParseScheds` succeeds exactly when every descriptor parses |
| Timetable.ParseSection | timetable.py:46-51 | succeeds exactly when every meeting descriptor list parses as `ParseScheds`; keeps the number, joins the instructors with ", ", and its meetings are exactly `ParseScheds` of the descriptors |
| Timetable.ParseSectionSucceeds | timetable.py:46-51 | a section parses exactly when each of its meeting descriptors parses |
| Timetable.DayMonth | timetable.py:57 | succeeds exactly for text that splits on `/` into two parts that both parse as integers, and returns those two integers as (day, month); otherwise `ValueError` |
| Timetable.CompreDate | timetable.py:57-61 | succeeds exactly when the day and month parse, this year's date exists, and next year's date exists whenever this year's is before today. The exam date is valid and carries the given day and month. It is this year's date unless that is before today, and then next year's, so it is never before today. Every failure is a `ValueError` |
| Timetable.CompreDateNotPast | timetable.py:58-61 | the exam date's ordinal is at least today's |
| Timetable.ParseCompre | timetable.py:54-67 | a missing descriptor gives none; a missing date raises `AttributeError`; otherwise it succeeds exactly when the date resolves; the slot lasts three hours on the exam day, from 09:00 exactly for `FN` and from 14:00 otherwise |
| Timetable.SectionKey | timetable.py:70-77 | the exact code when present; otherwise `L` plus the rest of the code, but only when every code starts with `L`; otherwise none |
| Timetable.GetSection | timetable.py:70-79 | returns the parse of the found section, which gets the requested code as its `num`; every other section's `num` is unchanged; an unresolvable code gives none |
| Timetable.SelectedSections | timetable.py:86-90 | at most one parsed section per requested code, each numbered by a requested code |
| Timetable.SelectedSectionsSucceed | timetable.py:86-90 | the collection succeeds exactly when every requested code's lookup succeeds |
| Timetable.SelectedSectionsAppend | timetable.py:90 | the sections for `a + b` are those for `a` followed by those for `b`, and a failure in `a` comes first |
| Timetable.SelectedSectionsOne | timetable.py:70-79 | one code gives its parsed section when it resolves, nothing when it does not, and its failure otherwise |
| Timetable.SelectedSectionsAll | timetable.py:86-90 | when every requested code exists, there is exactly one section per code, in request order |
| Timetable.UnknownCodesDropped | timetable.py:90 | a code that resolves to no section contributes nothing |
| Timetable.GetCourse | timetable.py:82-92 | an unknown course gives none. Otherwise: the code, the name, exactly `SelectedSections` and the exam slot, failing as they fail. A section no requested code resolves to keeps its `num`; after a success, every section a code resolved to carries one of the requested codes |
| Timetable.CollectSections | timetable.py:86-90 | the lookups in turn compute exactly `SelectedSections`; a section no requested code resolves to keeps its `num`; after a success, every section a code resolved to carries one of the requested codes |
| Timetable.StampedMembers | timetable.py:78 | a section gets a new `num` exactly when some requested code resolves to a key it is filed under |
| Events.AddToLookup | events.py:24 | appending under a code extends that code's group only |
| Events.GroupedLookup | events.py:20-24 | each code's group holds exactly the dates of the entries targeting it, in entry order |
| Events.ChangeDatesComplete | events.py:25 | `CHANGE_DATES` holds every change date exactly as often as the entries name it |
| Events.BuildIncludeDates | events.py:20-24 | succeeds exactly when every entry targets one of MO..SA, and then returns the groups; otherwise the message names the first bad code |
| Events.CheckMidsem | events.py:13-16 | a configured range starting before today is refused with the source's message; otherwise the range is kept |
| Events.GetLastDate | events.py:28-34 | the day after the configured (or default) last date, unless that is before today, and then the default Nov 29 / Apr 29 with no extra day |
| Events.ByDayCodes | events.py:67 | one code per meeting day, `RFC_WDAY[w - 1]`, in the meeting's order |
| Events.ByDayRoundTrip | events.py:67 | the comma-joined `BYDAY` list splits back into exactly those codes |
| Events.IndatesMembers | events.py:41-46 | a date is an inclusion date exactly when some meeting day's group holds it |
| Events.IndatesAreChanges | events.py:41-46 | with groups built from the day changes, an inclusion date is exactly the date of an entry targeting a meeting day |
| Events.GetIndates | events.py:41-46 | the loop computes exactly `Indates` |
| Events.MidsemRangeExact | events.py:51-56 | the mid-semester walk adds exactly the valid days of the inclusive range that fall on a meeting day |
| Events.ExdatesMembers | events.py:49-60 | every holiday is excluded whatever its weekday; every meeting day of the mid-semester range is excluded; a change date that is neither is excluded exactly when it falls on a meeting day and is not an inclusion date |
| Events.GetExdates | events.py:49-60 | the holidays, the mid-semester meeting days and the remaining change dates together are exactly `Exdates` |
| Events.CollectMidsem | events.py:51-56 | the day-by-day walk collects exactly the meeting days of the mid-semester range |
| Events.CollectChanges | events.py:57-59 | the scan collects exactly `ChangeExclusions`, the change dates on a meeting day that are not inclusion dates |
| Events.ChangeExclusionsMembers | events.py:57-59 | a date is a change exclusion exactly when it is a change date, falls on a meeting day and is not an inclusion date |
| Events.SectionColor | events.py:98 | colour 9 for `L`, 6 for `P` and 10 for `T`; an empty number raises `IndexError` and any other letter `KeyError` |
| Events.RecurrenceShape | events.py:86-105 | the recurrence starts with the weekly rule; an RDATE line follows only for a non-empty inclusion set, then an EXDATE line only for a non-empty exclusion set, each at the meeting's start time |
| Events.RecurrenceLines | events.py:86-105 | the weekly rule comes first; an RDATE line is present exactly for a non-empty inclusion set and carries exactly it; an EXDATE line likewise for the exclusion set |
| Events.MeetingEvent | events.py:64-106 | fails exactly when the colour lookup fails, with its error. Otherwise the payload is a recurring event: title course name and section number, description the instructors, location the room, the meeting's start and end, a 10-minute reminder, the section's colour, and the recurrence `MeetingRecurrence` (weekly rule until `get_last_date()`, inclusion dates and exclusion dates) |
| Events.MeetingEventRecurrence | events.py:65-105 | the recurrence starts with the weekly rule over the meeting's day codes until `get_last_date()`. An RDATE line is present exactly when there are inclusion dates, and it carries exactly them. An EXDATE line is present exactly when there are exclusion dates, and it carries exactly them |
| Events.SectionEvents | events.py:63-106 | one payload per remaining meeting |
| Events.SectionEventsAt | events.py:63-106 | the i-th payload is exactly `MeetingEvent` of the i-th remaining meeting |
| Events.SectionEventsFail | events.py:64-98 | a section without meetings yields nothing; otherwise it fails exactly when its colour lookup fails |
| Events.MakeSectionEvents | events.py:63-106 | the generator's payloads are exactly `SectionEvents` from the first meeting |
| Events.MakeMeetingEvent | events.py:64-106 | one meeting's collected dates and payload are exactly `MeetingEvent` |
| Events.AllSectionEventsCount | events.py:136-137 | a course yields one payload per meeting of its sections |
| Events.SectionEventsRecurring | events.py:89-98 | every meeting payload is recurring, with the 10-minute reminder and the colour of the section's first letter |
| Events.CourseEventsOrder | events.py:109-143 | the section payloads come first; then the mid-semester event (colour 4) when there is one, then the exam event (colour 7) when there is one |
| Events.AllSectionEventsSucceed | events.py:136-137 | the sections' payloads are built exactly when every section that has meetings has a colour |
| Events.MakeCourseEventsOutcome | events.py:134-143 | `MakeCourseEvents` fails exactly when a section with meetings has no colour, and then with the section payloads' error; the mid-semester and exam events never fail |
| Gcal.WeekNumber | gcal.py:134 | `WEEK.index(day) + 1` for the six tokens; any other token is a `ValueError` |
| Gcal.WeekNumbers | gcal.py:134 | one weekday per token, in order; fails exactly when a token is unknown |
| Gcal.CalcStartDate | gcal.py:88-96 | today when it is a meeting day; `ZeroDivisionError` exactly for no weekdays |
| Gcal.CalcStartDateNearest | gcal.py:88-96 | for sorted weekdays the start is the first meeting day from today on, at most six days ahead |
| Gcal.StartHour | gcal.py:105-106 | hours 07..17 by index, with negative indices counting from the end; `IndexError` outside -11..10 |
| Gcal.TimesOf | gcal.py:103-107 | starts on the hour the first code picks; ends at :50 of the hour `len(codes) - 1` later; fails exactly when that hour passes 23; no codes is an `IndexError` |
| Gcal.ParseTimes | gcal.py:103-107 | blank hours are an `IndexError` |
| Gcal.TimesIgnoreLaterCodes | gcal.py:106-107 | only the first code and the number of codes matter |
| Gcal.ParseCompre | gcal.py:114-130 | an empty date gives none; a date that does not resolve fails first; then 09:00-12:00 for `FN`, 14:00-17:00 for `AN`, and `KeyError` for any other session |
| Gcal.CompreSlot | gcal.py:117-130 | an exam lasts three hours on one day that is not before today |
| Gcal.ParseSection | gcal.py:133-144 | missing days raise `AttributeError`; a parsed section had both days and hours |
| Gcal.ParseSectionDays | gcal.py:134-135 | a parsed section has one weekday per day token, naming that token, and at least one |
| Gcal.ParseSectionMeeting | gcal.py:135-144 | a parsed section starts on `calc_start_date` of its weekdays and ends that day; its times are `parse_times` of the hours; its number and room are kept and its instructors joined with ", " |
| Gcal.ParseSectionUnknownDay | gcal.py:134 | any unknown day token fails the section with `ValueError` |
| Utils.GetWeekday | utils.py:32-33 | the result's weekday is `(1 - k) mod 7`; for `k >= 1` it is not after today; `k = 1` is this week's Monday |
| Utils.GetWeekdaySameWeek | utils.py:32-33 | two days of the same week give the same date |
| Overrides.Swap | main.py:21-26 | with the original present, it is replaced by the new code and nothing else changes; with it absent, the set is unchanged; the set never grows |
| Overrides.OverriddenShape | main.py:15-26 | overriding keeps every course and never enlarges a course's set |
| Overrides.SwapAllSize | main.py:20-26 | a course's swaps never enlarge its set |
| Overrides.OverriddenUntouched | main.py:15-19 | a course that no override names keeps its sections |
| Overrides.OverrideSections | main.py:11-27 | the nested loops compute exactly `Overridden` |
| Erp.Skip | erp.py:56 | a greedy run of one character class: it covers only class members and stops at a non-member or the end |
| Erp.SkipExact | erp.py:56 | a run that ends where the class ends is the one `Skip` finds |
| Erp.MatchCellSound | erp.py:56-63 | `MatchCell` matches only a cell that begins with the pattern (`Layout`: a word, whitespace, a word, ` - `, capitals, digits, each run maximal), and the key is the two words joined by one space and the code is the capitals and digits; so the key is two non-space words and the code is capitals followed by digits |
| Erp.MatchCellLayout | erp.py:56-62 | the greedy runs `MatchCell` takes are the layout of the matched cell, and the key and code are read off them |
| Erp.LayoutParts | erp.py:56 | a layout's words contain no whitespace, and its code is capitals followed by digits |
| Erp.MatchCellComplete | erp.py:56-63 | a cell laid out as the pattern describes matches, with exactly its words and code |
| Erp.LayoutSkips | erp.py:56 | the runs of a layout are the ones the greedy scan finds |
| Erp.MatchCellIff | erp.py:56-62 | `MatchCell` (the `pattern.match(cell)` test) succeeds exactly when the cell begins with the pattern |
| Erp.AddCellsKeys | erp.py:57-65 | a key is present exactly when some cell matches with it |
| Erp.AddCellsCodes | erp.py:63-65 | a code is under a key exactly when some cell matches with that key and code, so repeats collapse |
| Erp.AddCellsNonEmpty | erp.py:64-65 | every key maps to a non-empty set |
| Erp.OrderIndependent | erp.py:58-65 | the result depends only on which cells occur |
| Erp.SameCellsSameResult | erp.py:58-66 | two schedules with the same cells, in any rows and any order, give the same map |
| Erp.AddCellTo | erp.py:60-65 | one cell: skipped when it does not match, else `setdefault` then `add` |
| Erp.ParseTT | erp.py:55-66 | the loops compute exactly the fold over all cells; an empty week gives an empty map |
| App.Pick | app.py:22-23 | keeps exactly the listed types with the course's codes; `KeyError` when a listed type is missing |
| App.BuildSound | app.py:13-26 | every result course is known, whitelisted by a valid entry, and keeps the input's codes |
| App.BuildEntry | app.py:14-25 | with distinct codes: an unknown course or an invalid entry is left out, `all` copies the course, and a list keeps exactly those types |
| App.BuildFails | app.py:14-23 | the whitelist fails, with `KeyError`, exactly when some entry lists a type that its known course lacks |
| App.WhitelistSections | app.py:9-26 | no whitelist returns the input; otherwise the loop computes exactly `Build` |
| App.PrefixFails | app.py:14-23 | a failing entry ends the whole whitelist with its error |
| App.ReplaceAllShape | app.py:38-42 | replacing keeps a course's section types; each ends with its own code or one given for it |
| App.OverriddenShape | app.py:33-42 | the courses and each course's types are kept; a course no override names is untouched |
| App.OverrideSections | app.py:29-43 | the nested loops compute exactly `OverriddenCourses` |
| App.SectionKey | app.py:63-66 | the exact code when present; otherwise an empty code anywhere among the codes raises `IndexError`; with no empty code, the same key as `Timetable.SectionKey` |
| App.GetSection | app.py:62-71 | an `IndexError` from the key lookup is passed on; none when the code does not resolve; otherwise the found section gets the requested `num` and is parsed by `gcal.parse_section`; other sections are unchanged |
| App.SectionEvents | app.py:92-126 | a successful run yields one payload per section |
| App.SectionEventsSucceed | app.py:92-125 | succeeds exactly when every section was found and every section number's colour lookup succeeds |
| App.SectionEventsAt | app.py:93-125 | the i-th payload belongs to the i-th section: titled by course and section number, at its room and times, with the weekly rule over its weekdays until the configured last date, a 10-minute reminder and the section's colour |
| App.MakeCompreEvent | app.py:129-143 | none exactly without an exam; otherwise a single event in colour 11 |
| App.CompreEventsAgree | app.py:129-143 | the exam event is the newer one in a different colour |
| ParseExcel.TitledWords | parse_excel.py:8-10 | the first word is capitalised, later exceptions are kept, and every other word is capitalised, one for one |
| ParseExcel.TitleExceptWords | parse_excel.py:6-11 | the title splits on spaces into as many words as the input, each titled as above |
| ParseExcel.TitleExceptLoop | parse_excel.py:6-11 | the loop computes exactly `TitleExcept` |
| ParseExcel.CompreOf | parse_excel.py:26-29 | an empty cell gives no date and no session; text gives its first two tokens, or `IndexError` when it has fewer; a number is an `AttributeError` |
| ParseExcel.Fill | parse_excel.py:46-48 | sets room, days and hours that are still absent, and never overwrites one |
| ParseExcel.StepSkipsRow | parse_excel.py:20-21 | a row without an instructor changes nothing |
| ParseExcel.StepCourseRow | parse_excel.py:22-32 | a course row opens a fresh course under its number, with the titled name and the exam tokens; the section type becomes `L`; the course holds only the section this row opens |
| ParseExcel.StepTypeRow | parse_excel.py:34-35 | a title row without a course number takes the section type from the title's first character |
| ParseExcel.StepOpensSection | parse_excel.py:37-42 | a row with a room or title opens a fresh section with just its instructor, filed under type plus `col2 or 1`, replacing any section under that key |
| ParseExcel.StepAppendsInstructor | parse_excel.py:44-48 | any other row appends its instructor to the current section (duplicates kept) and only fills absent fields |
| ParseExcel.StepFailure | parse_excel.py:19-48 | a row fails only by an unbound name, a non-text title or a malformed exam cell |
| ParseExcel.Prepare | parse_excel.py:22-42 | the course, type and section phases of a row keep every existing section and its fields; sections are only appended |
| ParseExcel.FieldsKeptRecord | parse_excel.py:44-48 | recording a row's instructor and fields keeps every field already set |
| ParseExcel.StepKeepsFields | parse_excel.py:19-48 | after any processed row every earlier section is still at its position with every field it had, unchanged |
| ParseExcel.StepCodes | parse_excel.py:22-31 | only a processed course row adds a key to the database |
| ParseExcel.RunCodes | parse_excel.py:19-31 | the database holds exactly the course numbers of processed course rows |
| ParseExcel.ProcessRow | parse_excel.py:20-48 | the in-place updates of one row give exactly `Step` |
| ParseExcel.OpenCourseRow | parse_excel.py:22-32 | opening a course in place gives exactly `OpenCourse` |
| ParseExcel.OpenSectionRow | parse_excel.py:37-42 | opening a section in place gives exactly `OpenSection` |
| ParseExcel.RecordRow | parse_excel.py:44-48 | recording the instructor and fields in place gives exactly `Record` |
| ParseExcel.BuildCourseDb | parse_excel.py:18-48 | the row loop computes exactly `CourseDb` |
| ParseExcel.PrefixFails | parse_excel.py:19-48 | a failing row ends the pass with its error |

## Left out

- Screen-scraping of ERP and CMS, the Google Calendar client, OAuth, configuration and file
  loading, JSON caching and the command-line entry points. They are I/O around the core.
  `cms.py`, the calendar-service functions of `gcal.py` (credentials, event create, patch, delete and list) and `app.get_sections`/`enrol_all` are not part of this model.
- `app.get_course` (app.py:74-84): it is the older twin of `Timetable.GetCourse`. Its parts are modelled as `App.GetSection` and `Gcal.ParseCompre`, but the assembly itself is not.
- Wall clock: `date.today()`, `dt.now()` and `dt.today()` become the parameters `today` and
  `now`. `lru_cache` is not modelled; each call recomputes.
- `parse_day_changes` (dates.py:147-162) and `calc_sem_start_date` (dates.py:175-184): the
  first depends on `difflib`'s matching blocks and `get_close_matches`. `Dates.GetDayChanges`
  and `Dates.GetFirstWorkday` take their results as parameters.
- `difflib.SequenceMatcher.ratio` is an uninterpreted `Similarity`. Both strings are
  lowercased with `Text.LowerAll` before they are scored, as dates.py:167 and dates.py:170 do.
- The date regular expression and `strptime("%B %d")` are replaced by already-tokenised
  `DateToken`s, with month numbers and with a day checked against 1900, the year `strptime`
  uses.
- Dates.MatchWday: years are unbounded, so `date.replace` fails only for days that do not
  exist, never for `MINYEAR`/`MAXYEAR` overflow.
- Unicode: whitespace, digits and case mapping are ASCII. `str.split()`, `\s`, `\d` and
  `capitalize` in Python also act on other Unicode characters. `Text.ParseInt` accepts an
  optional `+` or `-` followed by ASCII digits; `int()` also accepts surrounding whitespace
  and underscores between digits, which is not modelled.
- Time zones: `IST` offsets and `isoformat`/`strftime` renderings of date-times are not
  modelled. Payload times are (date, minute) values. `Events.Compact` renders only
  four-digit years exactly.
- Events.RecurrenceShape: RDATE/EXDATE lines carry their dates as a set. The order in which
  Python iterates a set when joining them is not modelled.
- Events.MakeSectionEvents, Events.MakeCourseEvents, App.SectionEvents: a generator that
  raises part-way has already yielded earlier payloads. The model returns all payloads or the
  error.
- Events.MakeCourseEvents: `get_course` never sets a `midsem` key, so the mid-semester slot
  is a parameter.
- Events.GetExdates: `midsem_date <= end` is compared by ordinals, which agree with date
  order for valid dates.
- Timetable.GetSection: it requires every section code to be non-empty. Its `all(...)` reads
  a generator in dict order and raises `IndexError` on an empty code only if every earlier
  code starts with `L`; that order is not part of a `map`. `parse_excel.py` never produces an
  empty code: parse_excel.py:38-42 stores a section under `sec_type + str(sec_num)`, and
  `str(sec_num)` is never empty.
- App.WhitelistSections, App.OverrideSections: the source's result shares dictionaries with
  its input (the `all` entry, and in-place edits). The model returns new values, so that
  aliasing is not captured. Whitelist and override entries are sequences in configuration
  order; a list entry stands for a JSON object's items.
- Timetable.ParseSched, Timetable.SkipTodayExactly: `now` is a whole number of seconds.
  `dt.now().time()` also has microseconds, so at 50 minutes and half a second past a
  meeting's last hour Python already skips today, while the model does not.
- Events.GetLastDate: events.py:6 imports `cur_sem` from `utils`, which is not part of this
  model (the utils.py modelled here defines no `cur_sem`). It is taken to be the rule of
  dates.py:239, semester 2 exactly for months 1 to 5, through `Dates.SemLastDate`.
- Dates.ParseFile: each row arrives already split into its cells. The `row.split("\t")`
  of dates.py:127 is not modelled.
- ParseExcel.BuildCourseDb: cells are empty, text or whole numbers. Floats, dates and
  booleans that `openpyxl` can return are not modelled, and neither is reading the sheet
  range `A2:H1055`.
- Erp.MatchCellComplete: it is stated for a cell given as positions of the pattern's
  groups, not as a concatenation of the groups.
