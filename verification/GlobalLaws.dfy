/** What `G` amounts to: deletion filters the range, and substitution maps over it. */
module GlobalLaws {
  import opened Outcomes
  import opened Addresses
  import opened Patterns
  import opened PatternMatcher
  import opened Substitution
  import opened Executor
  import opened LineCommands

  /** The lines that `G` (or `G~`) leaves alone, in order. */
  ghost function Remaining(p: Pattern, inverted: bool, lines: seq<string>): seq<string> {
    if lines == [] then []
    else
      Remaining(p, inverted, lines[..|lines| - 1])
      + if Selected(p, inverted, lines[|lines| - 1]) then [] else [lines[|lines| - 1]]
  }

  /** `G` with `D` never fails and keeps just the unselected lines, in order. */
  lemma {:induction false} DeleteFilters(p: Pattern, inverted: bool, lines: seq<string>)
    ensures Processed(p, inverted, Delete(None), lines) == Ok(Remaining(p, inverted, lines))
    ensures ProcessedOutput(p, inverted, Delete(None), lines) == ""
  {
    hide Selected;
    if lines != [] {
      DeleteFilters(p, inverted, lines[..|lines| - 1]);
    }
  }

  /** `G` and `G~` select each line exactly once between them. */
  lemma {:induction false} InvertedIsComplement(p: Pattern, lines: seq<string>)
    ensures SelectedCount(p, false, lines) + SelectedCount(p, true, lines) == |lines|
    ensures |Remaining(p, false, lines)| == SelectedCount(p, true, lines)
    ensures |Remaining(p, true, lines)| == SelectedCount(p, false, lines)
  {
    if lines != [] {
      var before, line := lines[..|lines| - 1], lines[|lines| - 1];
      InvertedIsComplement(p, before);
      assert Selected(p, false, line) != Selected(p, true, line);
      hide Selected, HasMatch;
    }
  }

  /** What `G` deletes is what `G~` keeps, and the other way round. */
  lemma {:induction false} NothingLost(p: Pattern, lines: seq<string>)
    ensures multiset(Remaining(p, false, lines)) + multiset(Remaining(p, true, lines)) == multiset(lines)
  {
    if lines != [] {
      var before, line := lines[..|lines| - 1], lines[|lines| - 1];
      NothingLost(p, before);
      assert Selected(p, false, line) != Selected(p, true, line);
      hide Selected, HasMatch;
      assert lines == before + [line];
      var kept, dropped := Remaining(p, false, before), Remaining(p, true, before);
      if Selected(p, false, line) {
        assert Remaining(p, false, lines) == kept && Remaining(p, true, lines) == dropped + [line];
      } else {
        assert Remaining(p, false, lines) == kept + [line] && Remaining(p, true, lines) == dropped;
      }
    }
  }

  /** After `G` with `D`, no line of the range is selected any more: running it again changes nothing. */
  lemma {:induction false} DeleteIsIdempotent(p: Pattern, inverted: bool, lines: seq<string>)
    ensures SelectedCount(p, inverted, Remaining(p, inverted, lines)) == 0
    ensures Remaining(p, inverted, Remaining(p, inverted, lines)) == Remaining(p, inverted, lines)
  {
    hide Selected;
    if lines != [] {
      var before, line := lines[..|lines| - 1], lines[|lines| - 1];
      var kept := Remaining(p, inverted, before);
      DeleteIsIdempotent(p, inverted, before);
      if !Selected(p, inverted, line) {
        assert (kept + [line])[..|kept|] == kept;
      } else {
        assert kept + [] == kept;
      }
    }
  }

  /** `S` finds something to replace on every line that `G` selects. */
  ghost predicate Replaceable(p: Pattern, inverted: bool, pattern: Pattern, lines: seq<string>) {
    forall i :: 0 <= i < |lines| && Selected(p, inverted, lines[i]) ==> HasMatch(pattern, lines[i])
  }

  /** `G` with `S` succeeds exactly if every selected line has something to replace, and then it
    substitutes in the selected lines and leaves the others. */
  lemma {:induction false} SubstituteMaps(p: Pattern, inverted: bool, pattern: Pattern, replacement: string,
                                          printAfter: bool, lines: seq<string>)
    ensures var processed := Processed(p, inverted, Command.Substitute(None, pattern, replacement, printAfter), lines);
      && processed.Ok? == Replaceable(p, inverted, pattern, lines)
      && (processed.Ok? ==>
            && |processed.value| == |lines|
            && forall i :: 0 <= i < |lines| ==>
                 processed.value[i] ==
                 if Selected(p, inverted, lines[i]) then SubstitutedLine(pattern, replacement, lines[i]) else lines[i])
  {
    hide Processed, Selected, SubstitutedLine, Replaceable;
    SubstituteSucceeds(p, inverted, pattern, replacement, printAfter, lines);
    if Replaceable(p, inverted, pattern, lines) {
      forall i | 0 <= i < |lines|
        ensures Processed(p, inverted, Command.Substitute(None, pattern, replacement, printAfter), lines).value[i] ==
                if Selected(p, inverted, lines[i]) then SubstitutedLine(pattern, replacement, lines[i]) else lines[i]
      {
        SubstitutedAt(p, inverted, pattern, replacement, printAfter, lines, i);
      }
    }
  }

  lemma {:induction false} SubstituteSucceeds(p: Pattern, inverted: bool, pattern: Pattern, replacement: string,
                                              printAfter: bool, lines: seq<string>)
    ensures var processed := Processed(p, inverted, Command.Substitute(None, pattern, replacement, printAfter), lines);
      && processed.Ok? == Replaceable(p, inverted, pattern, lines)
      && (processed.Ok? ==> |processed.value| == |lines|)
  {
    if lines != [] {
      var before, line := lines[..|lines| - 1], lines[|lines| - 1];
      SubstituteSucceeds(p, inverted, pattern, replacement, printAfter, before);
      LineSubstituted(p, inverted, pattern, replacement, printAfter, line);
      ReplaceableStep(p, inverted, pattern, lines);
      hide Selected, HasMatch, LineResult, Replaceable;
    }
  }

  lemma {:induction false} ReplaceableStep(p: Pattern, inverted: bool, pattern: Pattern, lines: seq<string>)
    requires lines != []
    ensures var line := lines[|lines| - 1];
      Replaceable(p, inverted, pattern, lines) <==>
      Replaceable(p, inverted, pattern,
                  lines[..|lines| - 1]) && (Selected(p, inverted, line) ==> HasMatch(pattern, line))
  {
    hide Selected, HasMatch;
    var last := |lines| - 1;
    var before, line := lines[..last], lines[last];
    if Replaceable(p, inverted, pattern, before) && (Selected(p, inverted, line) ==> HasMatch(pattern, line)) {
      forall i | 0 <= i < |lines| && Selected(p, inverted, lines[i]) ensures HasMatch(pattern, lines[i]) {
        assert i < last ==> before[i] == lines[i];
      }
    }
    if Replaceable(p, inverted, pattern, lines) {
      forall i | 0 <= i < |before| && Selected(p, inverted, before[i]) ensures HasMatch(pattern, before[i]) {
        assert before[i] == lines[i];
      }
    }
  }

  lemma {:induction false} SubstitutedAt(p: Pattern, inverted: bool, pattern: Pattern, replacement: string,
                                         printAfter: bool, lines: seq<string>, i: nat)
    requires i < |lines|
    ensures var processed := Processed(p, inverted, Command.Substitute(None, pattern, replacement, printAfter), lines);
      processed.Ok? ==>
      && |processed.value| == |lines|
      && processed.value[i] ==
         if Selected(p, inverted, lines[i]) then SubstitutedLine(pattern, replacement, lines[i]) else lines[i]
  {
    var before, line := lines[..|lines| - 1], lines[|lines| - 1];
    SubstituteSucceeds(p, inverted, pattern, replacement, printAfter, before);
    LineSubstituted(p, inverted, pattern, replacement, printAfter, line);
    hide Selected, HasMatch, LineResult, SubstitutedLine, Replaceable;
    if i < |before| {
      SubstitutedAt(p, inverted, pattern, replacement, printAfter, before, i);
    }
  }

  lemma {:induction false} LineSubstituted(p: Pattern, inverted: bool, pattern: Pattern, replacement: string,
                                           printAfter: bool, line: string)
    ensures var nested := Command.Substitute(None, pattern, replacement, printAfter);
      LineResult(p, inverted, nested, line) ==
      if !Selected(p, inverted, line) then Ok([line])
      else if HasMatch(pattern, line) then Ok([SubstitutedLine(pattern, replacement, line)])
      else Fail
  {
    SubstitutedNone(pattern, replacement, line);
  }

  /** `G/p/S/p/r/` over a range never fails and makes the lines that `S/p/r/` would make there. */
  lemma {:induction false} SamePatternIsSubstitute(p: Pattern, replacement: string, printAfter: bool,
                                                   lines: seq<string>)
    ensures Processed(p, false, Command.Substitute(None, p, replacement, printAfter), lines) ==
            Ok(SubstitutedLines(p, replacement, lines, 1, |lines| + 1))
  {
    SubstituteMaps(p, false, p, replacement, printAfter, lines);
    var processed := Processed(p, false, Command.Substitute(None, p, replacement, printAfter), lines);
    assert Replaceable(p, false, p, lines);
    var substituted := SubstitutedLines(p, replacement, lines, 1, |lines| + 1);
    forall i | 0 <= i < |lines| ensures processed.value[i] == substituted[i] {
      SubstitutedLinesAt(p, replacement, lines, 1, |lines| + 1, i);
      SubstitutedNone(p, replacement, lines[i]);
    }
    assert processed.value == substituted;
  }
}
