/** `parse_tt`: registered sections read off the cells of a weekly schedule. A cell names a
    section when it begins with `<subject> <number> - <code>`, the code being capital
    letters followed by digits (the pattern `(\S+)\s+(\S+) - ([A-Z]+\d+)` matched at the
    start of the cell). */
module Erp {
  import opened Results
  import opened Text

  /** Course key (`"<subject> <number>"`) to the set of its section codes. */
  type Registered = map<string, set<string>>

  /** The character classes of the pattern: `\S`, `\s`, `[A-Z]` and `\d`. */
  datatype CharClass = Word | Space | Upper | Digit

  predicate InClass(c: char, k: CharClass) {
    match k
    case Word => !IsSpace(c)
    case Space => IsSpace(c)
    case Upper => IsUpper(c)
    case Digit => IsDigit(c)
  }

  predicate AllIn(s: string, k: CharClass) {
    forall i :: 0 <= i < |s| ==> InClass(s[i], k)
  }

  /** The end of the longest run of class `k` starting at `i` (a greedy `+` or `*`). */
  function Skip(s: string, i: nat, k: CharClass): (j: nat)
    requires i <= |s|
    ensures i <= j <= |s|
    ensures forall p :: i <= p < j ==> InClass(s[p], k)
    ensures j == |s| || !InClass(s[j], k)
    decreases |s| - i
  {
    if i == |s| || !InClass(s[i], k) then i else Skip(s, i + 1, k)
  }

  /** A run that ends where the class ends is the one `Skip` finds. */
  lemma {:induction false} SkipExact(s: string, i: nat, j: nat, k: CharClass)
    requires i <= j <= |s|
    requires forall p :: i <= p < j ==> InClass(s[p], k)
    requires j == |s| || !InClass(s[j], k)
    ensures Skip(s, i, k) == j
    decreases |s| - i
  {
    if i < j {
      SkipExact(s, i + 1, j, k);
    }
  }

  /** Capital letters followed by digits, at least one of each. */
  predicate IsSectionCode(c: string) {
    exists u :: 0 < u < |c| && AllIn(c[..u], Upper) && AllIn(c[u..], Digit)
  }

  /** The match of the pattern at the start of `cell`: the course key (the two words joined
      by one space) and the section code; none when the cell does not begin that way. Each
      part of the pattern can only take its longest run here, so the match is unique. */
  function MatchCell(cell: string): Option<(string, string)> {
    var p1 := Skip(cell, 0, Word);
    var p2 := Skip(cell, p1, Space);
    var p3 := Skip(cell, p2, Word);
    if p1 == 0 || p2 == p1 || p3 == p2 || p3 + 3 > |cell| || cell[p3..p3 + 3] != " - " then None
    else
      var p5 := Skip(cell, p3 + 3, Upper);
      var p6 := Skip(cell, p5, Digit);
      if p5 == p3 + 3 || p6 == p5 then None
      else Some((cell[..p1] + " " + cell[p2..p3], cell[p3 + 3..p6]))
  }

  /** The cell begins with the pattern, its parts ending at these positions: the first word
      ends at `p1`, whitespace runs to `p2`, the second word to `p3`, then ` - `, capital
      letters to `p5` and digits to `p6`, each run ending where its character class ends.
      What follows the digits does not matter. */
  ghost predicate Layout(cell: string, p1: nat, p2: nat, p3: nat, p5: nat, p6: nat) {
    && 0 < p1 < p2 < p3 && p3 + 3 < p5 < p6 <= |cell|
    && RunEnds(cell, 0, p1, Word) && RunEnds(cell, p1, p2, Space) && RunEnds(cell, p2, p3, Word)
    && cell[p3..p3 + 3] == " - "
    && RunEnds(cell, p3 + 3, p5, Upper) && RunEnds(cell, p5, p6, Digit)
  }

  /** `s[i..j]` is a run of class `k` that cannot be extended. */
  ghost predicate RunEnds(s: string, i: nat, j: nat, k: CharClass) {
    i <= j <= |s| && (forall p :: i <= p < j ==> InClass(s[p], k)) && (j == |s| || !InClass(s[j], k))
  }

  /** A match is read off the cell: the cell begins with the pattern, and the key and code are
      its two words and its code. The key is two words joined by one space, and the code is
      capital letters followed by digits. */
  lemma MatchCellSound(cell: string)
    requires MatchCell(cell).Some?
    ensures exists p1: nat, p2: nat, p3: nat, p5: nat, p6: nat :: Layout(cell, p1, p2, p3, p5, p6)
              && MatchCell(cell).value == (cell[..p1] + " " + cell[p2..p3], cell[p3 + 3..p6])
    ensures exists a, b :: a != [] && b != [] && AllIn(a, Word) && AllIn(b, Word) && MatchCell(cell).value.0 == a + " " + b
    ensures IsSectionCode(MatchCell(cell).value.1)
  {
    var p1 := Skip(cell, 0, Word);
    var p2 := Skip(cell, p1, Space);
    var p3 := Skip(cell, p2, Word);
    assert p3 + 3 <= |cell|;
    var p5 := Skip(cell, p3 + 3, Upper);
    var p6 := Skip(cell, p5, Digit);
    MatchCellLayout(cell, p1, p2, p3, p5, p6);
    LayoutParts(cell, p1, p2, p3, p5, p6);
    var a, b := cell[..p1], cell[p2..p3];
    assert |a| == p1 && |b| == p3 - p2;
    assert MatchCell(cell).value.0 == a + " " + b;
  }

  /** The greedy runs `MatchCell` takes are the layout of the cell. */
  lemma MatchCellLayout(cell: string, p1: nat, p2: nat, p3: nat, p5: nat, p6: nat)
    requires MatchCell(cell).Some?
    requires p1 == Skip(cell, 0, Word) && p2 == Skip(cell, p1, Space) && p3 == Skip(cell, p2, Word)
    requires p3 + 3 <= |cell| && p5 == Skip(cell, p3 + 3, Upper) && p6 == Skip(cell, p5, Digit)
    ensures Layout(cell, p1, p2, p3, p5, p6)
    ensures MatchCell(cell).value == (cell[..p1] + " " + cell[p2..p3], cell[p3 + 3..p6])
  {
    assert 0 < p1 < p2 < p3 && p3 + 3 < p5 < p6;
    assert cell[p3..p3 + 3] == " - ";
  }

  /** The parts of a layout: two non-empty words, and a code of capitals then digits. */
  lemma LayoutParts(cell: string, p1: nat, p2: nat, p3: nat, p5: nat, p6: nat)
    requires Layout(cell, p1, p2, p3, p5, p6)
    ensures AllIn(cell[..p1], Word) && AllIn(cell[p2..p3], Word)
    ensures IsSectionCode(cell[p3 + 3..p6])
  {
    var a, b, code := cell[..p1], cell[p2..p3], cell[p3 + 3..p6];
    assert AllIn(a, Word) by {
      forall i | 0 <= i < |a| ensures InClass(a[i], Word) {
        assert a[i] == cell[i];
      }
    }
    assert AllIn(b, Word) by {
      forall i | 0 <= i < |b| ensures InClass(b[i], Word) {
        assert b[i] == cell[p2 + i];
      }
    }
    var u := p5 - (p3 + 3);
    assert AllIn(code[..u], Upper) by {
      forall i | 0 <= i < u ensures InClass(code[..u][i], Upper) {
        assert code[..u][i] == cell[p3 + 3 + i];
      }
    }
    assert AllIn(code[u..], Digit) by {
      forall i | 0 <= i < |code| - u ensures InClass(code[u..][i], Digit) {
        assert code[u..][i] == cell[p5 + i];
      }
    }
  }

  /** A cell that begins with the pattern is matched, with exactly its two words and its
      code. */
  lemma MatchCellComplete(cell: string, p1: nat, p2: nat, p3: nat, p5: nat, p6: nat)
    requires Layout(cell, p1, p2, p3, p5, p6)
    ensures MatchCell(cell) == Some((cell[..p1] + " " + cell[p2..p3], cell[p3 + 3..p6]))
  {
    LayoutSkips(cell, p1, p2, p3, p5, p6);
  }

  /** The runs of a layout are the greedy ones. */
  lemma LayoutSkips(cell: string, p1: nat, p2: nat, p3: nat, p5: nat, p6: nat)
    requires Layout(cell, p1, p2, p3, p5, p6)
    ensures Skip(cell, 0, Word) == p1 && Skip(cell, p1, Space) == p2 && Skip(cell, p2, Word) == p3
    ensures Skip(cell, p3 + 3, Upper) == p5 && Skip(cell, p5, Digit) == p6
  {
    SkipExact(cell, 0, p1, Word);
    SkipExact(cell, p1, p2, Space);
    SkipExact(cell, p2, p3, Word);
    SkipExact(cell, p3 + 3, p5, Upper);
    SkipExact(cell, p5, p6, Digit);
  }

  /** `pattern.match(cell)` succeeds exactly when the cell begins with the pattern. */
  lemma MatchCellIff(cell: string)
    ensures MatchCell(cell).Some? <==> exists p1: nat, p2: nat, p3: nat, p5: nat, p6: nat :: Layout(cell, p1, p2, p3, p5, p6)
  {
    if MatchCell(cell).Some? {
      MatchCellSound(cell);
    }
    if exists p1: nat, p2: nat, p3: nat, p5: nat, p6: nat :: Layout(cell, p1, p2, p3, p5, p6) {
      var p1: nat, p2: nat, p3: nat, p5: nat, p6: nat :| Layout(cell, p1, p2, p3, p5, p6);
      MatchCellComplete(cell, p1, p2, p3, p5, p6);
    }
  }

  /** How a cell is read: `MatchCell` in `parse_tt`. The lemmas below hold for any reader. */
  type Matcher = string -> Option<(string, string)>

  /** `courses.setdefault(key, set()).add(code)` for a matching cell; other cells are skipped. */
  function AddCell(matcher: Matcher, m: Registered, cell: string): Registered {
    match matcher(cell)
    case None => m
    case Some((key, code)) => m[key := (if key in m then m[key] else {}) + {code}]
  }

  /** The cells processed in order. */
  function AddCells(matcher: Matcher, cells: seq<string>): Registered {
    if cells == [] then map[] else AddCell(matcher, AddCells(matcher, cells[..|cells| - 1]), cells[|cells| - 1])
  }

  /** The schedule's cells, row after row. */
  function Flatten(week: seq<seq<string>>): seq<string> {
    if week == [] then [] else Flatten(week[..|week| - 1]) + week[|week| - 1]
  }

  predicate KeyMatched(matcher: Matcher, cells: seq<string>, key: string) {
    exists j :: 0 <= j < |cells| && matcher(cells[j]).Some? && matcher(cells[j]).value.0 == key
  }

  predicate PairMatched(matcher: Matcher, cells: seq<string>, key: string, code: string) {
    exists j :: 0 <= j < |cells| && matcher(cells[j]) == Some((key, code))
  }

  /** A key is present exactly when some cell matches with it. */
  lemma {:induction false} AddCellsKeys(matcher: Matcher, cells: seq<string>, key: string)
    ensures key in AddCells(matcher, cells) <==> KeyMatched(matcher, cells, key)
  {
    if cells != [] {
      var init := cells[..|cells| - 1];
      var last := cells[|cells| - 1];
      AddCellsKeys(matcher, init, key);
      if KeyMatched(matcher, init, key) {
        var j :| 0 <= j < |init| && matcher(init[j]).Some? && matcher(init[j]).value.0 == key;
        assert cells[j] == init[j];
      }
      if KeyMatched(matcher, cells, key) && !(matcher(last).Some? && matcher(last).value.0 == key) {
        var j :| 0 <= j < |cells| && matcher(cells[j]).Some? && matcher(cells[j]).value.0 == key;
        assert j < |init| && init[j] == cells[j];
      }
    }
  }

  /** A code is in a key's set exactly when some cell matches with that key and code. */
  lemma {:induction false} AddCellsCodes(matcher: Matcher, cells: seq<string>, key: string, code: string)
    requires key in AddCells(matcher, cells)
    ensures code in AddCells(matcher, cells)[key] <==> PairMatched(matcher, cells, key, code)
  {
    var init := cells[..|cells| - 1];
    var last := cells[|cells| - 1];
    if key in AddCells(matcher, init) {
      AddCellsCodes(matcher, init, key, code);
    }
    if PairMatched(matcher, init, key, code) {
      var j :| 0 <= j < |init| && matcher(init[j]) == Some((key, code));
      assert cells[j] == init[j];
    }
    if PairMatched(matcher, cells, key, code) && matcher(last) != Some((key, code)) {
      var j :| 0 <= j < |cells| && matcher(cells[j]) == Some((key, code));
      assert j < |init| && init[j] == cells[j];
      assert key in AddCells(matcher, init) by {
        AddCellsKeys(matcher, init, key);
      }
    }
  }

  /** Every key has a non-empty set of codes. */
  lemma AddCellsNonEmpty(matcher: Matcher, cells: seq<string>, key: string)
    requires key in AddCells(matcher, cells)
    ensures AddCells(matcher, cells)[key] != {}
  {
    AddCellsKeys(matcher, cells, key);
    var j :| 0 <= j < |cells| && matcher(cells[j]).Some? && matcher(cells[j]).value.0 == key;
    AddCellsCodes(matcher, cells, key, matcher(cells[j]).value.1);
  }

  /** The result depends only on which cells occur: not on their order or repetition. */
  lemma OrderIndependent(matcher: Matcher, c1: seq<string>, c2: seq<string>)
    requires forall x :: x in c1 <==> x in c2
    ensures AddCells(matcher, c1) == AddCells(matcher, c2)
  {
    forall key
      ensures key in AddCells(matcher, c1) <==> key in AddCells(matcher, c2)
    {
      AddCellsKeys(matcher, c1, key);
      AddCellsKeys(matcher, c2, key);
      if KeyMatched(matcher, c1, key) {
        var j :| 0 <= j < |c1| && matcher(c1[j]).Some? && matcher(c1[j]).value.0 == key;
        assert c1[j] in c2;
      }
      if KeyMatched(matcher, c2, key) {
        var j :| 0 <= j < |c2| && matcher(c2[j]).Some? && matcher(c2[j]).value.0 == key;
        assert c2[j] in c1;
      }
    }
    forall key | key in AddCells(matcher, c1)
      ensures AddCells(matcher, c1)[key] == AddCells(matcher, c2)[key]
    {
      forall code
        ensures code in AddCells(matcher, c1)[key] <==> code in AddCells(matcher, c2)[key]
      {
        AddCellsCodes(matcher, c1, key, code);
        AddCellsCodes(matcher, c2, key, code);
        if PairMatched(matcher, c1, key, code) {
          var j :| 0 <= j < |c1| && matcher(c1[j]) == Some((key, code));
          assert c1[j] in c2;
        }
        if PairMatched(matcher, c2, key, code) {
          var j :| 0 <= j < |c2| && matcher(c2[j]) == Some((key, code));
          assert c2[j] in c1;
        }
      }
    }
  }

  lemma {:induction false} FlattenMembers(week: seq<seq<string>>, x: string)
    ensures x in Flatten(week) <==> InWeek(week, x)
  {
    if week != [] {
      var init := week[..|week| - 1];
      FlattenMembers(init, x);
      assert forall i :: 0 <= i < |init| ==> init[i] == week[i];
    }
  }

  predicate InWeek(week: seq<seq<string>>, x: string) {
    exists i :: 0 <= i < |week| && x in week[i]
  }

  /** Two schedules holding the same cells, in any rows and order, give the same result. */
  lemma SameCellsSameResult(w1: seq<seq<string>>, w2: seq<seq<string>>)
    requires forall x :: InWeek(w1, x) <==> InWeek(w2, x)
    ensures AddCells(MatchCell, Flatten(w1)) == AddCells(MatchCell, Flatten(w2))
  {
    forall x
      ensures x in Flatten(w1) <==> x in Flatten(w2)
    {
      FlattenMembers(w1, x);
      FlattenMembers(w2, x);
    }
    OrderIndependent(MatchCell, Flatten(w1), Flatten(w2));
  }

  lemma AddCellsSnoc(done: seq<string>, slot: seq<string>, j: nat)
    requires j < |slot|
    ensures AddCells(MatchCell, done + slot[..j + 1]) == AddCell(MatchCell, AddCells(MatchCell, done + slot[..j]), slot[j])
  {
    var cs := done + slot[..j + 1];
    assert cs[..|cs| - 1] == done + slot[..j] && cs[|cs| - 1] == slot[j];
  }

  /** One cell of `parse_tt`: on a match, `setdefault` the key's set and add the code. */
  method AddCellTo(courses: Registered, cell: string) returns (r: Registered)
    ensures r == AddCell(MatchCell, courses, cell)
  {
    r := courses;
    match MatchCell(cell) {
      case None =>
      case Some((key, code)) =>
        if key !in r {
          r := r[key := {}];
        }
        r := r[key := r[key] + {code}];
    }
  }

  /** `parse_tt`: every cell of every time slot, in order. */
  method ParseTT(week: seq<seq<string>>) returns (courses: Registered)
    ensures courses == AddCells(MatchCell, Flatten(week))
    ensures week == [] ==> courses == map[]
  {
    courses := map[];
    var i := 0;
    while i < |week|
      invariant 0 <= i <= |week|
      invariant courses == AddCells(MatchCell, Flatten(week[..i]))
    {
      var slot := week[i];
      ghost var done := Flatten(week[..i]);
      var j := 0;
      assert done + slot[..0] == done;
      while j < |slot|
        invariant 0 <= j <= |slot|
        invariant courses == AddCells(MatchCell, done + slot[..j])
      {
        AddCellsSnoc(done, slot, j);
        courses := AddCellTo(courses, slot[j]);
        j := j + 1;
      }
      assert week[..i + 1][..i] == week[..i];
      assert slot[..j] == slot;
      i := i + 1;
    }
    assert week[..i] == week;
  }
}
