/** The events-table date resolver: `Month day (Wd)` tokens resolved against the stated
    weekday, the events table read into an insertion-ordered map from date tuples to event
    names, holidays, milestone lookup with an abstract similarity score, and the semester
    boundaries with their sanity checks. The current date is a parameter. */
module Dates {
  import opened Results
  import opened Civil
  import opened Text

  /** One match of the date grammar as the tokeniser delivers it: the month number when a
      month name was written (a name that is no month arrives as a number outside 1..12), the
      day digits, and the weekday abbreviation in parentheses. The year group is unused. */
  datatype DateToken = DateToken(month: Option<int>, day: int, wday: string)

  /** Weekday abbreviations of the events table, Monday first (`WEEKDAYS`). */
  const WEEKDAY_CODES: seq<string> := ["M", "T", "W", "Th", "F", "S", "Su"]

  /** Canonical two-letter day codes, Monday first (values of `RFC_WEEKDAYS`). */
  const RFC_WEEKDAY_CODES: seq<string> := ["MO", "TU", "WE", "TH", "FR", "SA", "SU"]

  const NO_MATCH := "Unable to match with weekday"

  /** Largest accepted distance, in days, between consecutive dates of one cell (12 weeks). */
  const MAX_DELTA := 84

  const WORK_START_STR := "Class work begins"
  const WORK_LAST_STR := "Last day for class work"
  const MIDSEM_STR := "Mid\U{2010}semester Test (Classwork Suspended)"
  const HOLIDAY_SUFFIX := "(H)"

  /** Python's `difflib` ratio, left abstract: any score of a candidate against a target. */
  type Similarity = (string, string) -> real

  /** `WEEKDAYS[code]`: the weekday number of an abbreviation, `KeyError` for any other. */
  function WeekdayIndex(code: string): (r: Result<int>)
    ensures r.Success? <==> code in WEEKDAY_CODES
    ensures r.Success? ==> 0 <= r.value < 7 && WEEKDAY_CODES[r.value] == code
    ensures r.Failure? ==> r.error == KeyError
  {
    if code == "M" then Success(0) else if code == "T" then Success(1)
    else if code == "W" then Success(2) else if code == "Th" then Success(3)
    else if code == "F" then Success(4) else if code == "S" then Success(5)
    else if code == "Su" then Success(6) else Failure(KeyError)
  }

  /** The dates `_match_wday` tries, in order: `dd`; `dd` in the year before today's; `dd` in
      the year after; then, keeping the year the previous `replace` left, the month before
      today's (December of the year before in January); then the month after today's (January
      of the year after in December). Each keeps `dd`'s day. */
  function MatchCandidates(today: Date, dd: Date): (cs: seq<Date>)
    ensures |cs| == 5 && cs[0] == dd
    ensures forall i :: 0 <= i < |cs| ==> cs[i].day == dd.day
  {
    var y3 := if today.month != 1 then today.year + 1 else today.year - 1;
    [ dd,
      Date(today.year - 1, dd.month, dd.day),
      Date(today.year + 1, dd.month, dd.day),
      Date(y3, if today.month != 1 then today.month - 1 else 12, dd.day),
      if today.month != 12 then Date(y3, today.month + 1, dd.day) else Date(today.year + 1, 1, dd.day) ]
  }

  /** The first candidate on weekday `wday`; a candidate that is no date stops the search with
      `ValueError`, and running out of candidates raises `InvalidDateError`. */
  function FirstOnWeekday(cs: seq<Date>, wday: int): Result<Date> {
    if cs == [] then Failure(InvalidDate(NO_MATCH))
    else if !Valid(cs[0]) then Failure(ValueError)
    else if Weekday(cs[0]) == wday then Success(cs[0])
    else FirstOnWeekday(cs[1..], wday)
  }

  /** Every candidate is a date that is not on weekday `wday`. */
  ghost predicate AllMiss(cs: seq<Date>, wday: int) {
    forall j :: 0 <= j < |cs| ==> Valid(cs[j]) && Weekday(cs[j]) != wday
  }

  /** The search returns a candidate on the weekday when all candidates before it miss. */
  lemma {:induction false} FirstOnWeekdayFound(cs: seq<Date>, wday: int, i: nat)
    requires i < |cs| && AllMiss(cs[..i], wday) && Valid(cs[i]) && Weekday(cs[i]) == wday
    ensures FirstOnWeekday(cs, wday) == Success(cs[i])
  {
    if i > 0 {
      assert cs[..i][0] == cs[0];
      assert cs[1..][..i - 1] == cs[..i][1..];
      FirstOnWeekdayFound(cs[1..], wday, i - 1);
    }
  }

  /** The search fails with `ValueError` at a non-date when all candidates before it miss. */
  lemma {:induction false} FirstOnWeekdayInvalid(cs: seq<Date>, wday: int, i: nat)
    requires i < |cs| && AllMiss(cs[..i], wday) && !Valid(cs[i])
    ensures FirstOnWeekday(cs, wday) == Failure(ValueError)
  {
    if i > 0 {
      assert cs[..i][0] == cs[0];
      assert cs[1..][..i - 1] == cs[..i][1..];
      FirstOnWeekdayInvalid(cs[1..], wday, i - 1);
    }
  }

  /** The search finds nothing exactly when every candidate is a date off the weekday; a
      success is one of the candidates. */
  lemma {:induction false} FirstOnWeekdayNone(cs: seq<Date>, wday: int)
    ensures FirstOnWeekday(cs, wday) == Failure(InvalidDate(NO_MATCH)) <==> AllMiss(cs, wday)
    ensures FirstOnWeekday(cs, wday).Success? ==> FirstOnWeekday(cs, wday).value in cs
  {
    if cs != [] {
      FirstOnWeekdayNone(cs[1..], wday);
      if AllMiss(cs, wday) {
        assert AllMiss(cs[1..], wday) by {
          forall j | 0 <= j < |cs[1..]| ensures Valid(cs[1..][j]) && Weekday(cs[1..][j]) != wday {
            assert cs[1..][j] == cs[j + 1];
          }
        }
      }
      if Valid(cs[0]) && Weekday(cs[0]) != wday && AllMiss(cs[1..], wday) {
        forall j | 0 <= j < |cs| ensures Valid(cs[j]) && Weekday(cs[j]) != wday {
          if j > 0 {
            assert cs[j] == cs[1..][j - 1];
          }
        }
      }
    }
  }

  /** `_match_wday`: keep `dd` when its weekday is right, else try, in order, the year before
      today's, the year after, month `today.month - 1` (December of last year in January) and
      month `today.month + 1` (January of next year in December), each `replace` applied to
      the previous candidate; a `replace` to a day that does not exist raises `ValueError`. */
  function MatchWday(today: Date, dd: Date, wday: int): (r: Result<Date>)
    requires Valid(dd)
    ensures r.Success? ==> Valid(r.value) && Weekday(r.value) == wday && r.value.day == dd.day
    ensures Weekday(dd) == wday ==> r == Success(dd)
    ensures r.Failure? ==> r.error == ValueError || r.error == InvalidDate(NO_MATCH)
  {
    if Weekday(dd) == wday then Success(dd)
    else
      var d1 :- Replace(today.year - 1, dd.month, dd.day);
      if Weekday(d1) == wday then Success(d1)
      else
        var d2 :- Replace(today.year + 1, d1.month, d1.day);
        if Weekday(d2) == wday then Success(d2)
        else
          var d3 :- if today.month != 1 then Replace(d2.year, today.month - 1, d2.day)
                    else Replace(today.year - 1, 12, d2.day);
          if Weekday(d3) == wday then Success(d3)
          else
            var d4 :- if today.month != 12 then Replace(d3.year, today.month + 1, d3.day)
                      else Replace(today.year + 1, 1, d3.day);
            if Weekday(d4) == wday then Success(d4) else Failure(InvalidDate(NO_MATCH))
  }

  /** `_match_wday` is the search for the first candidate on the weekday: the candidates are
      tried in their fixed order, a success is the first one on `wday` after candidates that
      all miss, and `InvalidDateError` comes exactly when all five are dates off `wday`. */
  lemma MatchWdayCascade(today: Date, dd: Date, wday: int)
    requires Valid(dd)
    ensures MatchWday(today, dd, wday) == FirstOnWeekday(MatchCandidates(today, dd), wday)
  {
    var cs := MatchCandidates(today, dd);
    if Weekday(dd) == wday {
      FirstOnWeekdayFound(cs, wday, 0);
    } else {
      assert AllMiss(cs[..1], wday);
      if !Valid(cs[1]) {
        FirstOnWeekdayInvalid(cs, wday, 1);
      } else if Weekday(cs[1]) == wday {
        FirstOnWeekdayFound(cs, wday, 1);
      } else {
        assert AllMiss(cs[..2], wday);
        if !Valid(cs[2]) {
          FirstOnWeekdayInvalid(cs, wday, 2);
        } else if Weekday(cs[2]) == wday {
          FirstOnWeekdayFound(cs, wday, 2);
        } else {
          assert AllMiss(cs[..3], wday);
          if !Valid(cs[3]) {
            FirstOnWeekdayInvalid(cs, wday, 3);
          } else if Weekday(cs[3]) == wday {
            FirstOnWeekdayFound(cs, wday, 3);
          } else {
            assert AllMiss(cs[..4], wday);
            if !Valid(cs[4]) {
              FirstOnWeekdayInvalid(cs, wday, 4);
            } else if Weekday(cs[4]) == wday {
              FirstOnWeekdayFound(cs, wday, 4);
            } else {
              FirstOnWeekdayNone(cs, wday);
            }
          }
        }
      }
    }
  }

  /** Every date `_match_wday` returns is one of its candidates: the input, the input's
      month and day in the year before or after today's, or the month before or after
      today's in the year the cascade fixes. */
  lemma MatchWdayCandidates(today: Date, dd: Date, wday: int)
    requires Valid(dd)
    requires MatchWday(today, dd, wday).Success?
    ensures MatchWday(today, dd, wday).value in MatchCandidates(today, dd)
  {
    MatchWdayCascade(today, dd, wday);
    FirstOnWeekdayNone(MatchCandidates(today, dd), wday);
  }

  /** The weekday `d` has agrees with the abbreviation: `S` stands for Saturday or Sunday. */
  predicate WeekdayAgrees(code: string, w: int) {
    (0 <= w < 7 && WEEKDAY_CODES[w] == code) || (code == "S" && w == 6)
  }

  function LastOf(dates: seq<Date>): Option<Date> {
    if dates == [] then None else Some(dates[|dates| - 1])
  }

  /** The weekday search for one token: a failed search for `S` (Saturday) is retried for
      Sunday; a search that finds nothing reports the whole cell text. */
  function SearchWeekday(today: Date, text: string, code: string, wday: int, dd: Date): (r: Result<Date>)
    requires Valid(dd) && WeekdayIndex(code) == Success(wday)
    ensures r.Success? ==> Valid(r.value) && r.value.day == dd.day && WeekdayAgrees(code, Weekday(r.value))
    ensures r.Failure? ==> r.error == ValueError || r.error == InvalidDate(text)
    ensures Weekday(dd) == wday ==> r == Success(dd)
  {
    var first := MatchWday(today, dd, wday);
    if first.Success? || first.error == ValueError then first
    else if code == "S" then
      var sunday := MatchWday(today, dd, wday + 1);
      if sunday.Failure? && sunday.error != ValueError then Failure(InvalidDate(text)) else sunday
    else Failure(InvalidDate(text))
  }

  /** One iteration of `_parse_date_str`'s loop: resolve `tok` given the previously resolved
      date `prev` (whose month a month-less token inherits). */
  function ResolveToken(today: Date, text: string, tok: DateToken, prev: Option<Date>): (r: Result<Date>)
    ensures r.Success? ==> Valid(r.value) && r.value.day == tok.day
    ensures r.Success? ==> WeekdayAgrees(tok.wday, Weekday(r.value))
    ensures r.Success? && prev.Some? ==> -MAX_DELTA < Ordinal(prev.value) - Ordinal(r.value) < MAX_DELTA
    ensures tok.wday in WEEKDAY_CODES && tok.month.None? && prev.None? ==> r == Failure(InvalidDate(text))
    ensures r.Failure? && r.error.InvalidDate? ==> r.error.text == text
  {
    var wday :- WeekdayIndex(tok.wday);
    var month :- if tok.month.Some? then Success(tok.month.value)
                 else if prev.Some? then Success(prev.value.month)
                 else Failure(InvalidDate(text));
    // strptime("%B %d") builds a date in 1900, which is not a leap year
    var _ :- Replace(1900, month, tok.day);
    var dd :- Replace(today.year, month, tok.day);
    var d :- SearchWeekday(today, text, tok.wday, wday, dd);
    if prev.Some? && !(-MAX_DELTA < Ordinal(prev.value) - Ordinal(d) < MAX_DELTA)
    then Failure(InvalidDate(text))
    else Success(d)
  }

  /** The month a token is read in: its own, else the previous date's. */
  function TokenMonth(tok: DateToken, prev: Option<Date>): Option<int> {
    if tok.month.Some? then tok.month else if prev.Some? then Some(prev.value.month) else None
  }

  /** A resolved token is one of the candidates of the token's day in its month (its own or
      the one inherited from the previous date) in today's year. */
  lemma ResolveTokenMonth(today: Date, text: string, tok: DateToken, prev: Option<Date>)
    requires ResolveToken(today, text, tok, prev).Success?
    ensures TokenMonth(tok, prev).Some?
    ensures ResolveToken(today, text, tok, prev).value
            in MatchCandidates(today, Date(today.year, TokenMonth(tok, prev).value, tok.day))
  {
    var dd := Date(today.year, TokenMonth(tok, prev).value, tok.day);
    var wday := WeekdayIndex(tok.wday).value;
    if MatchWday(today, dd, wday).Success? {
      MatchWdayCandidates(today, dd, wday);
    } else {
      MatchWdayCandidates(today, dd, wday + 1);
    }
  }

  /** A token without a month is resolved exactly as if it named the previous date's month. */
  lemma MonthInherited(today: Date, text: string, tok: DateToken, p: Date)
    requires tok.month.None?
    ensures ResolveToken(today, text, tok, Some(p)) == ResolveToken(today, text, tok.(month := Some(p.month)), Some(p))
  {
  }

  /** When the token's day in its month and today's year is a date on the stated weekday
      (and within 12 weeks of the previous date), that date is the result. */
  lemma ResolveTokenOnWeekday(today: Date, text: string, tok: DateToken, prev: Option<Date>)
    requires TokenMonth(tok, prev).Some? && tok.wday in WEEKDAY_CODES
    requires var dd := Date(today.year, TokenMonth(tok, prev).value, tok.day);
      && Valid(dd) && Valid(Date(1900, dd.month, dd.day))
      && Weekday(dd) == WeekdayIndex(tok.wday).value
      && (prev.Some? ==> -MAX_DELTA < Ordinal(prev.value) - Ordinal(dd) < MAX_DELTA)
    ensures ResolveToken(today, text, tok, prev) == Success(Date(today.year, TokenMonth(tok, prev).value, tok.day))
  {
  }

  /** An `S` token whose Saturday search finds nothing is resolved as a Sunday, when the
      Sunday search succeeds and the distance check passes. */
  lemma SaturdayRetriedAsSunday(today: Date, text: string, tok: DateToken, prev: Option<Date>, month: int)
    requires tok.wday == "S"
    requires tok.month == Some(month) && Valid(Date(1900, month, tok.day))
    requires MatchWday(today, Date(today.year, month, tok.day), 5) == Failure(InvalidDate(NO_MATCH))
    requires MatchWday(today, Date(today.year, month, tok.day), 6).Success?
    requires ResolveToken(today, text, tok, prev).Success?
    ensures ResolveToken(today, text, tok, prev) == MatchWday(today, Date(today.year, month, tok.day), 6)
    ensures Weekday(ResolveToken(today, text, tok, prev).value) == 6
  {
  }

  /** The remaining tokens resolved left to right, each after the one before it. */
  function ResolveAll(today: Date, text: string, tokens: seq<DateToken>, prev: Option<Date>): Result<seq<Date>>
    decreases |tokens|
  {
    if tokens == [] then Success([])
    else
      var d :- ResolveToken(today, text, tokens[0], prev);
      var rest :- ResolveAll(today, text, tokens[1..], Some(d));
      Success([d] + rest)
  }

  /** `_parse_date_str` as a function of the cell text and its tokens. */
  function ParseDates(today: Date, text: string, tokens: seq<DateToken>): Result<seq<Date>> {
    if tokens == [] then Failure(InvalidDate(text)) else ResolveAll(today, text, tokens, None)
  }

  /** What a resolved cell promises: one date per token, in token order, each with the
      token's day and a weekday agreeing with its abbreviation, each within 12 weeks of the
      one before. */
  ghost predicate ResolvedInOrder(tokens: seq<DateToken>, ds: seq<Date>, prev: Option<Date>) {
    && |ds| == |tokens|
    && (forall i :: 0 <= i < |ds| ==> Valid(ds[i]) && ds[i].day == tokens[i].day)
    && (forall i :: 0 <= i < |ds| ==> WeekdayAgrees(tokens[i].wday, Weekday(ds[i])))
    && (forall i :: 0 < i < |ds| ==> -MAX_DELTA < Ordinal(ds[i - 1]) - Ordinal(ds[i]) < MAX_DELTA)
    && (prev.Some? && ds != [] ==> -MAX_DELTA < Ordinal(prev.value) - Ordinal(ds[0]) < MAX_DELTA)
  }

  lemma {:induction false} ResolveAllResolves(today: Date, text: string, tokens: seq<DateToken>, prev: Option<Date>)
    requires ResolveAll(today, text, tokens, prev).Success?
    ensures ResolvedInOrder(tokens, ResolveAll(today, text, tokens, prev).value, prev)
    decreases |tokens|
  {
    if tokens != [] {
      var d := ResolveToken(today, text, tokens[0], prev).value;
      var rest := ResolveAll(today, text, tokens[1..], Some(d));
      assert ResolveAll(today, text, tokens, prev).value == [d] + rest.value;
      ResolveAllResolves(today, text, tokens[1..], Some(d));
      ResolvedCons(tokens, d, rest.value, prev);
    }
  }

  /** A date resolved from the first token, before the dates resolved from the rest. */
  lemma ResolvedCons(tokens: seq<DateToken>, d: Date, rest: seq<Date>, prev: Option<Date>)
    requires tokens != [] && ResolvedInOrder(tokens[1..], rest, Some(d))
    requires Valid(d) && d.day == tokens[0].day && WeekdayAgrees(tokens[0].wday, Weekday(d))
    requires prev.Some? ==> -MAX_DELTA < Ordinal(prev.value) - Ordinal(d) < MAX_DELTA
    ensures ResolvedInOrder(tokens, [d] + rest, prev)
  {
    var ds := [d] + rest;
    forall i | 0 < i < |ds| ensures ds[i] == rest[i - 1] && tokens[i] == tokens[1..][i - 1] {
    }
  }

  /** A resolved cell is non-empty and keeps token order; its first token names a month;
      every `InvalidDateError` carries the whole cell text. */
  lemma ParseDatesSpec(today: Date, text: string, tokens: seq<DateToken>)
    ensures var r := ParseDates(today, text, tokens);
      && (r.Success? ==> r.value != [] && ResolvedInOrder(tokens, r.value, None))
      && (r.Success? ==> tokens[0].month.Some?)
      && (tokens == [] ==> r == Failure(InvalidDate(text)))
      && (r.Failure? && r.error.InvalidDate? ==> r.error.text == text)
  {
    if tokens != [] {
      var r := ParseDates(today, text, tokens);
      if r.Success? {
        ResolveAllResolves(today, text, tokens, None);
      }
      ResolveAllErrors(today, text, tokens, None);
    }
  }

  lemma {:induction false} ResolveAllErrors(today: Date, text: string, tokens: seq<DateToken>, prev: Option<Date>)
    ensures var r := ResolveAll(today, text, tokens, prev);
      r.Failure? && r.error.InvalidDate? ==> r.error.text == text
    decreases |tokens|
  {
    if tokens != [] {
      var d := ResolveToken(today, text, tokens[0], prev);
      if d.Success? {
        ResolveAllErrors(today, text, tokens[1..], Some(d.value));
      }
    }
  }

  function Prefixed(ds: seq<Date>, r: Result<seq<Date>>): Result<seq<Date>> {
    if r.Success? then Success(ds + r.value) else r
  }

  lemma PrefixedEmpty(r: Result<seq<Date>>)
    ensures Prefixed([], r) == r
  {
    if r.Success? {
      assert [] + r.value == r.value;
    }
  }

  lemma PrefixedStep(ds: seq<Date>, d: Date, r: Result<seq<Date>>)
    ensures Prefixed(ds, if r.Success? then Success([d] + r.value) else r) == Prefixed(ds + [d], r)
  {
    if r.Success? {
      assert ds + ([d] + r.value) == (ds + [d]) + r.value;
    }
  }

  /** `_parse_date_str`: the loop over the cell's tokens, appending each resolved date. */
  method ParseDateStr(today: Date, text: string, tokens: seq<DateToken>) returns (r: Result<seq<Date>>)
    ensures r == ParseDates(today, text, tokens)
  {
    var dates: seq<Date> := [];
    var i := 0;
    assert tokens[i..] == tokens;
    PrefixedEmpty(ResolveAll(today, text, tokens, None));
    while i < |tokens|
      invariant 0 <= i <= |tokens| && |dates| == i
      invariant ResolveAll(today, text, tokens, None)
                == Prefixed(dates, ResolveAll(today, text, tokens[i..], LastOf(dates)))
    {
      var d := ResolveToken(today, text, tokens[i], LastOf(dates));
      assert tokens[i..][0] == tokens[i] && tokens[i..][1..] == tokens[i + 1..];
      if d.Failure? {
        return Failure(d.error);
      }
      PrefixedStep(dates, d.value, ResolveAll(today, text, tokens[i + 1..], Some(d.value)));
      dates := dates + [d.value];
      i := i + 1;
    }
    if dates == [] {
      return Failure(InvalidDate(text));
    }
    assert tokens[i..] == [] && dates + [] == dates;
    return Success(dates);
  }

  // ---------------------------------------------------------------------------------------
  // The events table: an insertion-ordered dictionary from date tuples to event names.

  datatype Entry = Entry(dates: seq<Date>, names: seq<string>)

  type EventTable = seq<Entry>

  ghost predicate DistinctKeys(t: EventTable) {
    forall i, j :: 0 <= i < j < |t| ==> t[i].dates != t[j].dates
  }

  function KeyIndex(t: EventTable, key: seq<Date>): (n: nat)
    ensures n <= |t| && (n < |t| ==> t[n].dates == key)
    ensures forall i :: 0 <= i < n ==> t[i].dates != key
  {
    if t == [] then 0 else if t[0].dates == key then 0 else 1 + KeyIndex(t[1..], key)
  }

  /** `events[key]` of a `defaultdict(list)`: the names under `key`, or none. */
  function Names(t: EventTable, key: seq<Date>): seq<string> {
    var n := KeyIndex(t, key);
    if n < |t| then t[n].names else []
  }

  /** `events[key].append(name)`: a new key goes to the end of the table. */
  function Insert(t: EventTable, key: seq<Date>, name: string): (u: EventTable)
    ensures DistinctKeys(t) ==> DistinctKeys(u)
    ensures forall k :: Names(u, k) == Names(t, k) + (if k == key then [name] else [])
  {
    var n := KeyIndex(t, key);
    if n < |t| then
      var u := t[n := Entry(key, t[n].names + [name])];
      assert forall k :: KeyIndex(u, k) == KeyIndex(t, k) by {
        forall k ensures KeyIndex(u, k) == KeyIndex(t, k) {
          KeyIndexUpdate(t, n, t[n].names + [name], k);
        }
      }
      u
    else
      var u := t + [Entry(key, [name])];
      assert forall k :: Names(u, k) == Names(t, k) + (if k == key then [name] else []) by {
        forall k ensures Names(u, k) == Names(t, k) + (if k == key then [name] else []) {
          KeyIndexAppend(t, Entry(key, [name]), k);
        }
      }
      u
  }

  lemma {:induction false} KeyIndexUpdate(t: EventTable, n: nat, names: seq<string>, k: seq<Date>)
    requires n < |t|
    ensures KeyIndex(t[n := Entry(t[n].dates, names)], k) == KeyIndex(t, k)
  {
    if n > 0 {
      assert t[n := Entry(t[n].dates, names)][1..] == t[1..][n - 1 := Entry(t[n].dates, names)];
      KeyIndexUpdate(t[1..], n - 1, names, k);
    }
  }

  lemma {:induction false} KeyIndexAppend(t: EventTable, e: Entry, k: seq<Date>)
    ensures KeyIndex(t + [e], k) == if KeyIndex(t, k) < |t| || e.dates == k then KeyIndex(t, k) else |t| + 1
  {
    if t != [] {
      assert (t + [e])[1..] == t[1..] + [e];
      KeyIndexAppend(t[1..], e, k);
    }
  }

  /** The (date, name) pairs `parse_file` reads from one row, stripped: consecutive pairs of
      cells, stopping at a dangling single cell, skipping pairs whose date is empty. */
  function Pairs(row: seq<string>): seq<(string, string)>
    decreases |row|
  {
    if |row| < 2 then []
    else (if Strip(row[0]) == [] then [] else [(Strip(row[0]), Strip(row[1]))]) + Pairs(row[2..])
  }

  function AllPairs(rows: seq<seq<string>>): seq<(string, string)> {
    if rows == [] then [] else Pairs(rows[0]) + AllPairs(rows[1..])
  }

  /** The date tuple a date cell denotes: `_parse_date_str` on the cell's tokens. */
  function CellDates(today: Date, tokenize: string -> seq<DateToken>): string -> Result<seq<Date>> {
    s => ParseDates(today, s, tokenize(s))
  }

  /** Filing the pairs, in order, under their parsed date tuples; the first unparseable date
      aborts with its error. */
  function Collect(parse: string -> Result<seq<Date>>, pairs: seq<(string, string)>,
                   t: EventTable): Result<EventTable>
    decreases |pairs|
  {
    if pairs == [] then Success(t)
    else
      var key :- parse(pairs[0].0);
      Collect(parse, pairs[1..], Insert(t, key, pairs[0].1))
  }

  /** The names of the pairs whose date cell parses to `key`, in order. */
  function NamesFor(parse: string -> Result<seq<Date>>, pairs: seq<(string, string)>,
                    key: seq<Date>): seq<string>
  {
    if pairs == [] then []
    else (if parse(pairs[0].0) == Success(key) then [pairs[0].1] else [])
         + NamesFor(parse, pairs[1..], key)
  }

  /** Filing appends, under each date tuple `k`, exactly the names of the pairs that parse to
      it, in their order. */
  lemma {:induction false} CollectFiles(parse: string -> Result<seq<Date>>,
                                        pairs: seq<(string, string)>, t: EventTable, k: seq<Date>)
    requires Collect(parse, pairs, t).Success?
    ensures Names(Collect(parse, pairs, t).value, k) == Names(t, k) + NamesFor(parse, pairs, k)
    decreases |pairs|
  {
    if pairs == [] {
      assert Names(t, k) + [] == Names(t, k);
    } else {
      var key := parse(pairs[0].0).value;
      var u := Insert(t, key, pairs[0].1);
      assert Collect(parse, pairs, t) == Collect(parse, pairs[1..], u);
      CollectFiles(parse, pairs[1..], u, k);
      NamesForStep(parse, pairs, key, k);
      var head := if k == key then [pairs[0].1] else [];
      var later := NamesFor(parse, pairs[1..], k);
      var v := Collect(parse, pairs[1..], u).value;
      assert Names(v, k) == Names(u, k) + later;
      assert Names(u, k) == Names(t, k) + head;
      assert NamesFor(parse, pairs, k) == head + later;
      SeqAssoc(Names(t, k), head, later);
    }
  }

  lemma SeqAssoc<T>(a: seq<T>, b: seq<T>, c: seq<T>)
    ensures (a + b) + c == a + (b + c)
  {
  }

  /** Filing keeps the keys of the table distinct. */
  lemma {:induction false} CollectDistinct(parse: string -> Result<seq<Date>>,
                                           pairs: seq<(string, string)>, t: EventTable)
    requires DistinctKeys(t) && Collect(parse, pairs, t).Success?
    ensures DistinctKeys(Collect(parse, pairs, t).value)
    decreases |pairs|
  {
    if pairs != [] {
      var u := Insert(t, parse(pairs[0].0).value, pairs[0].1);
      CollectDistinct(parse, pairs[1..], u);
    }
  }

  lemma NamesForStep(parse: string -> Result<seq<Date>>, pairs: seq<(string, string)>,
                     key: seq<Date>, k: seq<Date>)
    requires pairs != [] && parse(pairs[0].0) == Success(key)
    ensures NamesFor(parse, pairs, k)
            == (if k == key then [pairs[0].1] else []) + NamesFor(parse, pairs[1..], k)
  {
  }

  /** Filing fails exactly when some date cell does not parse. */
  lemma {:induction false} CollectFails(parse: string -> Result<seq<Date>>,
                                        pairs: seq<(string, string)>, t: EventTable)
    ensures Collect(parse, pairs, t).Failure?
            <==> exists i :: 0 <= i < |pairs| && parse(pairs[i].0).Failure?
    decreases |pairs|
  {
    if pairs != [] {
      var key := parse(pairs[0].0);
      if key.Success? {
        CollectFails(parse, pairs[1..], Insert(t, key.value, pairs[0].1));
        if exists i :: 0 <= i < |pairs| && parse(pairs[i].0).Failure? {
          var i :| 0 <= i < |pairs| && parse(pairs[i].0).Failure?;
          assert pairs[1..][i - 1] == pairs[i];
        }
      }
    }
  }

  lemma PairsAt(row: seq<string>, j: nat)
    requires j + 2 <= |row|
    ensures Pairs(row[j..]) == (if Strip(row[j]) == [] then [] else [(Strip(row[j]), Strip(row[j + 1]))])
                               + Pairs(row[j + 2..])
  {
    assert row[j..][2..] == row[j + 2..];
  }

  lemma CollectStep(parse: string -> Result<seq<Date>>, p: (string, string), rest: seq<(string, string)>,
                    t: EventTable)
    ensures Collect(parse, [p] + rest, t)
            == if parse(p.0).Failure? then Failure(parse(p.0).error)
               else Collect(parse, rest, Insert(t, parse(p.0).value, p.1))
  {
    assert ([p] + rest)[1..] == rest;
  }

  /** `parse_file`: reads every row's (date, name) pairs into the events table. */
  method ParseFile(today: Date, rows: seq<seq<string>>, tokenize: string -> seq<DateToken>)
    returns (r: Result<EventTable>)
    ensures r == Collect(CellDates(today, tokenize), AllPairs(rows), [])
  {
    ghost var parse := CellDates(today, tokenize);
    var events: EventTable := [];
    var i := 0;
    assert rows[i..] == rows;
    while i < |rows|
      invariant 0 <= i <= |rows|
      invariant Collect(parse, AllPairs(rows), []) == Collect(parse, AllPairs(rows[i..]), events)
    {
      var row := rows[i];
      assert rows[i..][1..] == rows[i + 1..];
      ghost var later := AllPairs(rows[i + 1..]);
      assert row[0..] == row && rows[i..][0] == row;
      var j := 0;
      while j < |row|
        invariant 0 <= j <= |row|
        invariant Collect(parse, AllPairs(rows), []) == Collect(parse, Pairs(row[j..]) + later, events)
      {
        if j + 1 == |row| {
          break;  // a dangling cell ends the row
        }
        PairsAt(row, j);
        var dateStr, name := Strip(row[j]), Strip(row[j + 1]);
        j := j + 2;
        if dateStr == [] {
          assert [] + Pairs(row[j..]) == Pairs(row[j..]);
          continue;
        }
        SeqAssoc([(dateStr, name)], Pairs(row[j..]), later);
        CollectStep(parse, (dateStr, name), Pairs(row[j..]) + later, events);
        var dates := ParseDateStr(today, dateStr, tokenize(dateStr));
        assert parse(dateStr) == dates;
        if dates.Failure? {
          return Failure(dates.error);
        }
        events := Insert(events, dates.value, name);
      }
      assert Pairs(row[j..]) == [];
      assert Pairs(row[j..]) + later == later;
      i := i + 1;
    }
    return Success(events);
  }

  // ---------------------------------------------------------------------------------------
  // Holidays, milestones and semester boundaries

  predicate IsHolidayEntry(e: Entry) {
    exists n :: n in e.names && EndsWith(n, HOLIDAY_SUFFIX)
  }

  /** `parse_holidays`: the dates of every entry with a name ending in `(H)`, in table order. */
  function Holidays(t: EventTable): (hs: seq<Date>)
    ensures forall d :: d in hs <==> exists i :: 0 <= i < |t| && IsHolidayEntry(t[i]) && d in t[i].dates
  {
    if t == [] then []
    else
      var rest := Holidays(t[1..]);
      assert forall i :: 0 < i < |t| ==> t[i] == t[1..][i - 1];
      (if IsHolidayEntry(t[0]) then t[0].dates else []) + rest
  }

  /** The module-level holiday set: configured holidays when there are any, else the table's. */
  function HolidaySet(configured: seq<Date>, t: EventTable): (hs: set<Date>)
    ensures configured != [] ==> hs == set d | d in configured
    ensures configured == [] ==> forall d :: d in hs <==> exists i :: 0 <= i < |t| && IsHolidayEntry(t[i]) && d in t[i].dates
  {
    if configured != [] then set d | d in configured else set d | d in Holidays(t)
  }

  predicate EntryMatches(e: Entry, target: string, thresh: real, score: Similarity) {
    exists n :: n in e.names && score(LowerAll(n), LowerAll(target)) > thresh
  }

  /** Index of the first entry, in table order, with a name scoring above `thresh` against
      `target`; `|t|` when there is none. */
  function FirstMatchIndex(t: EventTable, target: string, thresh: real, score: Similarity): (n: nat)
    ensures n <= |t| && (n < |t| ==> EntryMatches(t[n], target, thresh, score))
    ensures forall j :: 0 <= j < n ==> !EntryMatches(t[j], target, thresh, score)
  {
    if t == [] then 0
    else if EntryMatches(t[0], target, thresh, score) then 0
    else 1 + FirstMatchIndex(t[1..], target, thresh, score)
  }

  /** The dates of the first matching entry. */
  function FirstMatch(t: EventTable, target: string, thresh: real, score: Similarity): (r: Option<seq<Date>>)
    ensures r.None? <==> forall i :: 0 <= i < |t| ==> !EntryMatches(t[i], target, thresh, score)
    ensures r.Some? ==> r.value == t[FirstMatchIndex(t, target, thresh, score)].dates
  {
    var n := FirstMatchIndex(t, target, thresh, score);
    if n < |t| then Some(t[n].dates) else None
  }

  /** `find_event_date`: scans entries and names in order and returns at the first name
      scoring above the threshold. */
  method FindEventDate(t: EventTable, target: string, thresh: real, score: Similarity)
    returns (r: Option<seq<Date>>)
    ensures r == FirstMatch(t, target, thresh, score)
  {
    var i := 0;
    while i < |t|
      invariant 0 <= i <= |t|
      invariant forall k :: 0 <= k < i ==> !EntryMatches(t[k], target, thresh, score)
    {
      var names := t[i].names;
      var j := 0;
      while j < |names|
        invariant 0 <= j <= |names|
        invariant forall k :: 0 <= k < j ==> score(LowerAll(names[k]), LowerAll(target)) <= thresh
      {
        if score(LowerAll(names[j]), LowerAll(target)) > thresh {
          assert EntryMatches(t[i], target, thresh, score);
          return Some(t[i].dates);
        }
        j := j + 1;
      }
      i := i + 1;
    }
    return None;
  }

  /** `cur_sem`: 2 from January to May, else 1. */
  function CurSem(today: Date): (s: int)
    ensures s == 2 <==> 1 <= today.month <= 5
    ensures s == 1 || s == 2
  {
    1 + (if 1 <= today.month <= 5 then 1 else 0)
  }

  /** `calc_sem_last_date`: November 29 in the first semester, April 29 in the second. */
  function SemLastDate(today: Date): (d: Date)
    ensures Valid(d) && d.year == today.year && d.day == 29
    ensures d.month == if CurSem(today) == 1 then 11 else 4
  {
    Date(today.year, if CurSem(today) == 1 then 11 else 4, 29)
  }

  /** The precedence the semester-boundary lookups share: the configured date, else the first
      date of the matching table entry, else the fallback. */
  function Preferred(configured: Option<Date>, found: Option<seq<Date>>, fallback: Date): Date {
    if configured.Some? then configured.value
    else if found.Some? && found.value != [] then found.value[0]
    else fallback
  }

  /** `get_first_workday`: the preferred start (fallback `semStart`), accepted exactly when it
      is at most 180 days after today. */
  function GetFirstWorkday(today: Date, configured: Option<Date>, t: EventTable, semStart: Date,
                           score: Similarity): (r: Result<Date>)
    ensures var start := Preferred(configured, FirstMatch(t, WORK_START_STR, 0.8, score), semStart);
      && (r.Success? <==> Ordinal(start) - Ordinal(today) <= 180)
      && (r.Success? ==> r.value == start)
      && (r.Failure? ==> r.error == AssertionError("Classwork start date is too old"))
  {
    var start := Preferred(configured, FirstMatch(t, WORK_START_STR, 0.8, score), semStart);
    if Ordinal(start) - Ordinal(today) <= 180 then Success(start)
    else Failure(AssertionError("Classwork start date is too old"))
  }

  /** With nothing configured and no matching entry, the fallback start is used; a configured
      start overrides the table. */
  lemma FirstWorkdayPrecedence(today: Date, configured: Option<Date>, t: EventTable, semStart: Date,
                               score: Similarity)
    ensures configured.None? && FirstMatch(t, WORK_START_STR, 0.8, score).None?
            && Ordinal(semStart) - Ordinal(today) <= 180
            ==> GetFirstWorkday(today, configured, t, semStart, score) == Success(semStart)
    ensures configured.Some? && GetFirstWorkday(today, configured, t, semStart, score).Success?
            ==> GetFirstWorkday(today, configured, t, semStart, score).value == configured.value
  {
  }

  /** `get_last_workday`: the preferred end (fallback `calc_sem_last_date`), accepted exactly
      when it is not before today. */
  function GetLastWorkday(today: Date, configured: Option<Date>, t: EventTable, score: Similarity)
    : (r: Result<Date>)
    ensures var end := Preferred(configured, FirstMatch(t, WORK_LAST_STR, 0.8, score), SemLastDate(today));
      && (r.Success? <==> Ordinal(end) >= Ordinal(today))
      && (r.Success? ==> r.value == end)
      && (r.Failure? ==> r.error == AssertionError("Classwork end date is in the past"))
  {
    var end := Preferred(configured, FirstMatch(t, WORK_LAST_STR, 0.8, score), SemLastDate(today));
    if Ordinal(end) >= Ordinal(today) then Success(end)
    else Failure(AssertionError("Classwork end date is in the past"))
  }

  /** With nothing configured and no matching entry, the last working day is the 29th of the
      semester's last month, accepted unless today is after it. */
  lemma LastWorkdayDefault(today: Date, t: EventTable, score: Similarity)
    requires Valid(today)
    requires FirstMatch(t, WORK_LAST_STR, 0.8, score).None?
    ensures var r := GetLastWorkday(today, None, t, score);
      (r.Success? <==> today.month < SemLastDate(today).month
                       || (today.month == SemLastDate(today).month && today.day <= 29))
      && (r.Success? ==> r.value == SemLastDate(today))
  {
    OrdinalOrder(SemLastDate(today), today);
  }

  /** `get_midsem_dates`: the configured range, else the first two dates of the entry matching
      the mid-semester test when the table is non-empty (a missing entry or a single date
      raises), else none; a range starting before today is refused. */
  function GetMidsemDates(today: Date, configured: Option<(Date, Date)>, t: EventTable,
                          score: Similarity): (r: Result<Option<(Date, Date)>>)
    ensures configured.None? && t == [] ==> r == Success(None)
    ensures configured.Some? && r.Success? ==> r.value == configured
    ensures r.Success? && r.value.Some? ==> Ordinal(r.value.value.0) >= Ordinal(today)
    ensures configured.None? && t != [] && FirstMatch(t, MIDSEM_STR, 0.8, score).None? ==> r == Failure(TypeError)
    ensures configured.Some? ==> (r.Success? <==> Ordinal(configured.value.0) >= Ordinal(today))
    ensures configured.None? && t != [] ==>
      var m := MidsemFromTable(t, score);
      && (m.Failure? ==> r == m)
      && (m.Success? ==> (r.Success? <==> Ordinal(m.value.value.0) >= Ordinal(today)))
      && (m.Success? && r.Success? ==> r == m)
    ensures r.Failure? && (configured.Some? || MidsemFromTable(t, score).Success?)
            ==> r.error == AssertionError("Midsem start date is in the past")
  {
    var midsem :-
      if configured.Some? then Success(configured)
      else if t != [] then MidsemFromTable(t, score)
      else Success(None);
    if midsem.Some? && Ordinal(midsem.value.0) < Ordinal(today)
    then Failure(AssertionError("Midsem start date is in the past"))
    else Success(midsem)
  }

  /** The first two dates of the entry matching the mid-semester test; a missing entry or
      one with a single date raises. */
  function MidsemFromTable(t: EventTable, score: Similarity): (r: Result<Option<(Date, Date)>>)
    ensures FirstMatch(t, MIDSEM_STR, 0.8, score).None? ==> r == Failure(TypeError)
    ensures var f := FirstMatch(t, MIDSEM_STR, 0.8, score);
      f.Some? ==> (r.Success? <==> |f.value| >= 2) && (r.Failure? ==> r.error == IndexError)
    ensures var f := FirstMatch(t, MIDSEM_STR, 0.8, score);
      r.Success? ==> f.Some? && r.value == Some((f.value[0], f.value[1]))
  {
    var found := FirstMatch(t, MIDSEM_STR, 0.8, score);
    if found.None? then Failure(TypeError)
    else if |found.value| < 2 then Failure(IndexError)
    else Success(Some((found.value[0], found.value[1])))
  }

  ghost predicate DistinctDates(entries: seq<(Date, string)>) {
    forall i, j :: 0 <= i < j < |entries| ==> entries[i].0 != entries[j].0
  }

  /** `get_day_changes`: the configured day changes when there are any, else the parsed ones,
      each checked to name one of the seven day codes. */
  method GetDayChanges(configured: seq<(Date, string)>, parsed: seq<(Date, string)>)
    returns (r: Result<map<Date, string>>)
    requires DistinctDates(configured) && DistinctDates(parsed)
    ensures var src := if configured != [] then configured else parsed;
      && (r.Success? <==> forall i :: 0 <= i < |src| ==> src[i].1 in RFC_WEEKDAY_CODES)
      && (r.Success? ==> r.value.Keys == set i | 0 <= i < |src| :: src[i].0)
      && (r.Success? ==> forall i :: 0 <= i < |src| ==> r.value[src[i].0] == src[i].1)
      && (r.Failure? ==> r.error.AssertionError?)
  {
    if configured != [] {
      r := CheckDayChanges(configured);
    } else {
      r := CheckDayChanges(parsed);
    }
  }

  /** The loop of `get_day_changes`: every entry's code is checked, in order, and the entry
      is stored under its date. */
  method CheckDayChanges(src: seq<(Date, string)>) returns (r: Result<map<Date, string>>)
    requires DistinctDates(src)
    ensures r.Success? <==> forall i :: 0 <= i < |src| ==> src[i].1 in RFC_WEEKDAY_CODES
    ensures r.Success? ==> r.value.Keys == set i | 0 <= i < |src| :: src[i].0
    ensures r.Success? ==> forall i :: 0 <= i < |src| ==> r.value[src[i].0] == src[i].1
    ensures r.Failure? ==> r.error.AssertionError?
  {
    var changes: map<Date, string> := map[];
    var i := 0;
    while i < |src|
      invariant 0 <= i <= |src|
      invariant forall k :: 0 <= k < i ==> src[k].1 in RFC_WEEKDAY_CODES
      invariant changes.Keys == DayChangeKeys(src[..i])
      invariant forall k :: 0 <= k < i ==> src[k].0 in changes && changes[src[k].0] == src[k].1
    {
      var (d, code) := src[i];
      if code !in RFC_WEEKDAY_CODES {
        return Failure(AssertionError("Invalid day=" + code + " in 'day_change' config"));
      }
      assert forall k :: 0 <= k < i ==> src[k].0 != d;
      assert src[..i + 1][..i] == src[..i];
      changes := changes[d := code];
      i := i + 1;
    }
    assert src[..i] == src;
    DayChangeKeysAll(src);
    return Success(changes);
  }

  /** The dates the day changes are keyed by, collected from the front. */
  ghost function DayChangeKeys(entries: seq<(Date, string)>): set<Date> {
    if entries == [] then {} else DayChangeKeys(entries[..|entries| - 1]) + {entries[|entries| - 1].0}
  }

  lemma {:induction false} DayChangeKeysAll(entries: seq<(Date, string)>)
    ensures DayChangeKeys(entries) == set i | 0 <= i < |entries| :: entries[i].0
  {
    if entries != [] {
      var init := entries[..|entries| - 1];
      DayChangeKeysAll(init);
      forall x | x in set i | 0 <= i < |entries| :: entries[i].0
        ensures x in DayChangeKeys(entries)
      {
        var i :| 0 <= i < |entries| && entries[i].0 == x;
        if i < |init| {
          assert init[i] == entries[i];
        }
      }
      forall x | x in DayChangeKeys(entries)
        ensures x in set i | 0 <= i < |entries| :: entries[i].0
      {
        if x != entries[|entries| - 1].0 {
          var i :| 0 <= i < |init| && init[i].0 == x;
          assert entries[i] == init[i];
        }
      }
    }
  }
}
