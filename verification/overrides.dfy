/** `override_sections` of the command-line entry point: per course, a section code in the
    registered set is swapped for a replacement code. */
module Overrides {
  /** Registered sections: course code to the set of its section codes. */
  type Registered = map<string, set<string>>

  /** One course's overrides, in configuration order: (original code, new code). */
  type Swaps = seq<(string, string)>

  /** `course.remove(orig)` then `course.add(new)`; a missing original changes nothing. */
  function Swap(course: set<string>, orig: string, repl: string): (r: set<string>)
    ensures orig in course ==> repl in r && (orig != repl ==> orig !in r)
    ensures orig in course ==> forall c :: c != orig && c != repl ==> (c in r <==> c in course)
    ensures orig !in course ==> r == course
    ensures |r| <= |course|
  {
    if orig in course then
      SwapSize(course, orig, repl);
      course - {orig} + {repl}
    else course
  }

  lemma SwapSize(course: set<string>, orig: string, repl: string)
    requires orig in course
    ensures |course - {orig} + {repl}| <= |course|
  {
    var rest := course - {orig};
    assert |rest| == |course| - 1;
    if repl in rest {
      assert rest + {repl} == rest;
    } else {
      assert |rest + {repl}| == |rest| + 1;
    }
  }

  /** One course's swaps applied in order. */
  function SwapAll(course: set<string>, swaps: Swaps): set<string> {
    if swaps == [] then course
    else
      var last := swaps[|swaps| - 1];
      Swap(SwapAll(course, swaps[..|swaps| - 1]), last.0, last.1)
  }

  /** The overrides applied in order; a course that is missing or has no sections is skipped. */
  function Overridden(sections: Registered, overrides: seq<(string, Swaps)>): Registered {
    if overrides == [] then sections
    else
      var before := Overridden(sections, overrides[..|overrides| - 1]);
      var (code, swaps) := overrides[|overrides| - 1];
      if code in before && before[code] != {} then before[code := SwapAll(before[code], swaps)] else before
  }

  /** Overriding never adds or drops a course and never enlarges a course's set of sections. */
  lemma {:induction false} OverriddenShape(sections: Registered, overrides: seq<(string, Swaps)>)
    ensures Overridden(sections, overrides).Keys == sections.Keys
    ensures forall code :: code in sections ==> |Overridden(sections, overrides)[code]| <= |sections[code]|
  {
    if overrides != [] {
      OverriddenShape(sections, overrides[..|overrides| - 1]);
      var before := Overridden(sections, overrides[..|overrides| - 1]);
      var (code, swaps) := overrides[|overrides| - 1];
      if code in before && before[code] != {} {
        SwapAllSize(before[code], swaps);
      }
    }
  }

  lemma {:induction false} SwapAllSize(course: set<string>, swaps: Swaps)
    ensures |SwapAll(course, swaps)| <= |course|
  {
    if swaps != [] {
      SwapAllSize(course, swaps[..|swaps| - 1]);
    }
  }

  /** A course that no override names keeps its sections. */
  lemma {:induction false} OverriddenUntouched(sections: Registered, overrides: seq<(string, Swaps)>, code: string)
    requires code in sections
    requires forall i :: 0 <= i < |overrides| ==> overrides[i].0 != code
    ensures code in Overridden(sections, overrides) && Overridden(sections, overrides)[code] == sections[code]
  {
    if overrides != [] {
      OverriddenUntouched(sections, overrides[..|overrides| - 1], code);
    }
  }

  /** `override_sections`: each swap edits the course's set in place. */
  method OverrideSections(sections: Registered, overrides: seq<(string, Swaps)>) returns (r: Registered)
    ensures r == Overridden(sections, overrides)
  {
    r := sections;
    var i := 0;
    while i < |overrides|
      invariant 0 <= i <= |overrides|
      invariant r == Overridden(sections, overrides[..i])
    {
      var (code, swaps) := overrides[i];
      assert overrides[..i + 1][..i] == overrides[..i];
      if code in r && r[code] != {} {
        var course := r[code];
        var j := 0;
        while j < |swaps|
          invariant 0 <= j <= |swaps|
          invariant course == SwapAll(r[code], swaps[..j])
        {
          var (orig, repl) := swaps[j];
          assert swaps[..j + 1][..j] == swaps[..j];
          if orig in course {
            course := course - {orig};
            course := course + {repl};
          }
          j := j + 1;
        }
        assert swaps[..j] == swaps;
        r := r[code := course];
      }
      i := i + 1;
    }
    assert overrides[..i] == overrides;
  }
}
