/** The few Python string operations the scheduler relies on, over `seq<char>`:
    `strip`, `split()`, `split(sep)`, `join`, `capitalize`, `endswith`, `str(int)` and a
    plain decimal `int(...)`. Character classes are ASCII. */
module Text {
  import opened Results

  /** `str.isspace` on the ASCII range. */
  predicate IsSpace(c: char) {
    c == ' ' || 9 <= c as int <= 13 || 28 <= c as int <= 31
  }

  predicate IsDigit(c: char) { '0' <= c <= '9' }

  predicate IsUpper(c: char) { 'A' <= c <= 'Z' }

  predicate IsLower(c: char) { 'a' <= c <= 'z' }

  predicate NoSpace(s: string) {
    forall i :: 0 <= i < |s| ==> !IsSpace(s[i])
  }

  function Upper(c: char): char {
    if IsLower(c) then (c as int - 32) as char else c
  }

  function Lower(c: char): char {
    if IsUpper(c) then (c as int + 32) as char else c
  }

  function LowerAll(s: string): (r: string)
    ensures |r| == |s| && forall i :: 0 <= i < |s| ==> r[i] == Lower(s[i])
  {
    seq(|s|, i requires 0 <= i < |s| => Lower(s[i]))
  }

  /** `str.capitalize`: first character upper-cased, the rest lower-cased. */
  function Capitalize(w: string): (r: string)
    ensures |r| == |w|
    ensures w != [] ==> r[0] == Upper(w[0])
    ensures forall i :: 1 <= i < |w| ==> r[i] == Lower(w[i])
  {
    if w == [] then [] else [Upper(w[0])] + LowerAll(w[1..])
  }

  lemma CaseMappingKeepsSpaces(c: char)
    ensures c == ' ' <==> Upper(c) == ' '
    ensures c == ' ' <==> Lower(c) == ' '
  {
  }

  predicate StartsWith(s: string, prefix: string) {
    |prefix| <= |s| && s[..|prefix|] == prefix
  }

  predicate EndsWith(s: string, suffix: string) {
    |suffix| <= |s| && s[|s| - |suffix|..] == suffix
  }

  function StripLeft(s: string): (r: string)
    ensures |r| <= |s| && r == s[|s| - |r|..]
    ensures r == [] || !IsSpace(r[0])
    ensures forall i :: 0 <= i < |s| - |r| ==> IsSpace(s[i])
  {
    if s != [] && IsSpace(s[0]) then StripLeft(s[1..]) else s
  }

  function StripRight(s: string): (r: string)
    ensures |r| <= |s| && r == s[..|r|]
    ensures r == [] || !IsSpace(r[|r| - 1])
    ensures forall i :: |r| <= i < |s| ==> IsSpace(s[i])
  {
    if s != [] && IsSpace(s[|s| - 1]) then StripRight(s[..|s| - 1]) else s
  }

  /** `str.strip()`: neither end of the result is whitespace, the result is empty exactly
      when `s` is all whitespace, and a string with no whitespace at its ends is kept. */
  function Strip(s: string): (r: string)
    ensures |r| <= |s|
    ensures r == [] || (!IsSpace(r[0]) && !IsSpace(r[|r| - 1]))
    ensures r == [] <==> forall i :: 0 <= i < |s| ==> IsSpace(s[i])
    ensures s != [] && !IsSpace(s[0]) && !IsSpace(s[|s| - 1]) ==> r == s
  {
    var l := StripLeft(s);
    var r := StripRight(l);
    StripEmpty(s);
    r
  }

  lemma StripEmpty(s: string)
    ensures StripRight(StripLeft(s)) == [] <==> forall i :: 0 <= i < |s| ==> IsSpace(s[i])
  {
    var l := StripLeft(s);
    if StripRight(l) == [] {
      assert l == [];
    }
  }

  /** Length of the longest prefix of `s` without whitespace. */
  function WordLength(s: string): (n: nat)
    ensures n <= |s| && NoSpace(s[..n]) && (n == |s| || IsSpace(s[n]))
  {
    if s == [] || IsSpace(s[0]) then 0 else 1 + WordLength(s[1..])
  }

  /** `str.split()` with no separator: the maximal runs of non-whitespace characters. */
  function SplitWhitespace(s: string): (ws: seq<string>)
    ensures forall i :: 0 <= i < |ws| ==> ws[i] != [] && NoSpace(ws[i])
    decreases |s|
  {
    var t := StripLeft(s);
    if t == [] then []
    else
      var n := WordLength(t);
      [t[..n]] + SplitWhitespace(t[n..])
  }

  /** Index of the first `sep` in `s`, or `|s|` when there is none. */
  function IndexOf(s: string, sep: char): (n: nat)
    ensures n <= |s| && (n < |s| ==> s[n] == sep)
    ensures forall i :: 0 <= i < n ==> s[i] != sep
  {
    if s == [] || s[0] == sep then 0 else 1 + IndexOf(s[1..], sep)
  }

  /** `s.split(sep)` for a one-character separator: never empty, no piece holds `sep`. */
  function Split(s: string, sep: char): (ps: seq<string>)
    ensures |ps| >= 1
    ensures forall i :: 0 <= i < |ps| ==> sep !in ps[i]
    decreases |s|
  {
    var n := IndexOf(s, sep);
    if n == |s| then [s] else [s[..n]] + Split(s[n + 1..], sep)
  }

  /** `sep.join(ws)`. */
  function Join(sep: string, ws: seq<string>): string {
    if ws == [] then []
    else if |ws| == 1 then ws[0]
    else ws[0] + sep + Join(sep, ws[1..])
  }

  /** Joining pieces that hold no separator and splitting again gives the pieces back. */
  lemma {:induction false} SplitJoin(ws: seq<string>, sep: char)
    requires ws != []
    requires forall i :: 0 <= i < |ws| ==> sep !in ws[i]
    ensures Split(Join([sep], ws), sep) == ws
  {
    if |ws| == 1 {
      assert IndexOf(ws[0], sep) == |ws[0]|;
    } else {
      var rest := Join([sep], ws[1..]);
      var s := ws[0] + [sep] + rest;
      assert s == ws[0] + ([sep] + rest);
      assert IndexOf(s, sep) == |ws[0]| by {
        IndexOfPrefix(ws[0], [sep] + rest, sep);
      }
      assert s[..|ws[0]|] == ws[0];
      assert s[|ws[0]| + 1..] == rest;
      SplitJoin(ws[1..], sep);
    }
  }

  lemma {:induction false} IndexOfPrefix(a: string, b: string, sep: char)
    requires sep !in a && b != [] && b[0] == sep
    ensures IndexOf(a + b, sep) == |a|
    decreases |a|
  {
    if a != [] {
      assert (a + b)[1..] == a[1..] + b;
      IndexOfPrefix(a[1..], b, sep);
    }
  }

  function DigitChar(d: int): char
    requires 0 <= d <= 9
  {
    ('0' as int + d) as char
  }

  function NatToString(n: nat): (s: string)
    ensures s != [] && forall i :: 0 <= i < |s| ==> IsDigit(s[i])
  {
    if n < 10 then [DigitChar(n)] else NatToString(n / 10) + [DigitChar(n % 10)]
  }

  /** `str(n)` for an integer. */
  function IntToString(n: int): string {
    if n < 0 then "-" + NatToString(-n) else NatToString(n)
  }

  /** `"%0*d" % (width, n)` for a natural number. */
  function PadNat(n: nat, width: nat): (s: string)
    ensures |s| >= width
  {
    var digits := NatToString(n);
    if |digits| >= width then digits else seq(width - |digits|, _ => '0') + digits
  }

  function DigitsValue(s: string): nat
    requires forall i :: 0 <= i < |s| ==> IsDigit(s[i])
  {
    if s == [] then 0
    else
      assert IsDigit(s[|s| - 1]);
      10 * DigitsValue(s[..|s| - 1]) + (s[|s| - 1] as int - '0' as int)
  }

  /** `int(s)` for an optionally signed run of ASCII digits; anything else raises. */
  function ParseInt(s: string): (r: Result<int>)
    ensures r.Failure? ==> r.error == ValueError
    ensures (s != [] && forall i :: 0 <= i < |s| ==> IsDigit(s[i])) ==> r == Success(DigitsValue(s))
  {
    var body := if s != [] && (s[0] == '-' || s[0] == '+') then s[1..] else s;
    if body == [] || exists i :: 0 <= i < |body| && !IsDigit(body[i]) then Failure(ValueError)
    else
      var v: int := DigitsValue(body);
      if s[0] == '-' then Success(-v) else Success(v)
  }
}
