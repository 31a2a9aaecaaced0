/** All that `G` changes: where it ends, what it shows, and what it leaves behind if its command fails on a line. */
module SearchLaws {
  import opened Outcomes
  import opened Addresses
  import opened AddressLaws
  import opened Buffers
  import opened Patterns
  import Substitution
  import opened LineCommands
  import opened GlobalLaws
  import opened Semantics
  import opened CommandLaws

  // ---------------------------------------------------------------- what is shown

  /** The lines that `G` (or `G~`) visits, in order. */
  ghost function FoundLines(p: Pattern, inverted: bool, lines: seq<string>): seq<string> {
    if lines == [] then []
    else
      FoundLines(p, inverted, lines[..|lines| - 1])
      + if Selected(p, inverted, lines[|lines| - 1]) then [lines[|lines| - 1]] else []
  }

  /** `G` with `P` shows just the lines it finds, in order, and they stay. */
  lemma {:induction false} PrintShowsFound(p: Pattern, inverted: bool, lines: seq<string>)
    ensures Processed(p, inverted, Print(None), lines) == Ok(lines)
    ensures ProcessedOutput(p, inverted, Print(None), lines) == PrintedLines(FoundLines(p, inverted, lines))
  {
    hide Selected, PrintedLines;
    if lines == [] {
      ShownLines([], [], "");
    } else {
      var before, line := lines[..|lines| - 1], lines[|lines| - 1];
      PrintShowsFound(p, inverted, before);
      OneShown(FoundLines(p, inverted, before), line);
      assert before + [line] == lines;
    }
  }

  /** With `Z` they stay too, and nothing is shown. */
  lemma {:induction false} ZapShowsNothing(p: Pattern, inverted: bool, lines: seq<string>)
    ensures Processed(p, inverted, Zap(None), lines) == Ok(lines) &&
            ProcessedOutput(p, inverted, Zap(None), lines) == ""
  {
    hide Selected;
    if lines != [] {
      var before, line := lines[..|lines| - 1], lines[|lines| - 1];
      ZapShowsNothing(p, inverted, before);
      assert before + [line] == lines;
    }
  }

  /** The lines found are counted. */
  lemma {:induction false} FoundAreCounted(p: Pattern, inverted: bool, lines: seq<string>)
    ensures SelectedCount(p, inverted, lines) == |FoundLines(p, inverted, lines)|
  {
    hide Selected;
    if lines != [] {
      FoundAreCounted(p, inverted, lines[..|lines| - 1]);
    }
  }

  lemma {:induction false} OneShown(found: seq<string>, line: string)
    ensures PrintedLines(found + [line]) == PrintedLines(found) + (line + "\n") &&
            PrintedLines(found + []) == PrintedLines(found) + ""
  {
    ShownLines(found, [line], line);
    assert found + [] == found && PrintedLines(found) + "" == PrintedLines(found);
  }

  // ---------------------------------------------------------------- where it ends

  /** The last of some lines, from `done` on, that `G` visits. */
  ghost predicate IsLastFound(p: Pattern, inverted: bool, lines: seq<string>, done: nat, index: Option<nat>) {
    match index
    case Some(j) => done <= j < |lines| && Selected(p, inverted, lines[j]) && IsRestPassed(p, inverted, lines, j + 1)
    case None => IsRestPassed(p, inverted, lines, done)
  }

  ghost predicate IsRestPassed(p: Pattern, inverted: bool, lines: seq<string>, from: nat) {
    forall k :: from <= k < |lines| ==> !Selected(p, inverted, lines[k])
  }

  /** The nested command changes this line. */
  ghost predicate Alters(p: Pattern, inverted: bool, nested: Command, line: string) {
    Selected(p, inverted, line) && NestedResult(nested, line) != Ok([line])
  }

  ghost predicate AltersAny(p: Pattern, inverted: bool, nested: Command, lines: seq<string>, from: nat) {
    exists k :: from <= k < |lines| && Alters(p, inverted, nested, lines[k])
  }

  /** Where the cursor is behind a visited line: on it, or if it is gone on the one that came up, or else on the last
    one. */
  function CursorBehind(nested: Command, line: nat, count: nat): nat {
    if nested.Delete? && line > count then count else line
  }

  /** What a nested command does to the cursor and the flags. */
  lemma {:induction false} VisitFlags(desk: Desk, nested: Command)
    requires IsNestable(nested) && 1 <= desk.currentLine <= |desk.lines|
    ensures var work := Worked(desk, nested); var text := desk.lines[desk.currentLine - 1];
      work.succeeded ==>
        && work.after.currentLine == CursorBehind(nested, desk.currentLine, |work.after.lines|)
        && work.after.modified == (desk.modified || NestedResult(nested, text) != Ok([text]))
        && work.after.condition == (nested.Substitute? || desk.condition)
        && work.after.counter == desk.counter
  {
    hide Worked, Substitution.Substituted, SubstitutedLines, LastMatch;
    var line := desk.currentLine;
    WorkedHere(desk, nested);
    if nested.Substitute? {
      SubstituteHere(nested.pattern, nested.replacement, desk.lines, line);
      assert desk.lines == desk.lines[..line - 1] + [desk.lines[line - 1]] + desk.lines[line..];
      SpliceSame(desk.lines, line, Substitution.Substituted(nested.pattern, nested.replacement, desk.lines[line - 1]));
    }
  }

  lemma {:induction false} SpliceSame(lines: seq<string>, line: nat, text: Option<string>)
    requires 1 <= line <= |lines|
    ensures text.Some? ==> (lines[..line - 1] + [text.value] + lines[line..] == lines <==>
                            text.value == lines[line - 1])
  {
    if text.Some? {
      assert (lines[..line - 1] + [text.value] + lines[line..])[line - 1] == text.value;
    }
  }

  /** The cursor is on the last line found, wherever that is by then, and the flags say what was done. */
  ghost predicate EndsRight(desk: Desk, after: Desk, p: Pattern, inverted: bool, nested: Command, prefix: seq<string>,
                            lines: seq<string>, done: nat, index: Option<nat>)
    requires index.Some? ==> index.value <= |lines|
  {
    && (index.None? ==> after.currentLine == desk.currentLine && after.condition == desk.condition)
    && (index.Some? ==>
          var before := Processed(p, inverted, nested, lines[..index.value]);
          && before.Ok? && after.currentLine == CursorBehind(nested, |prefix| + |before.value| + 1, |after.lines|)
          && after.condition == (nested.Substitute? || desk.condition))
    && after.modified == (desk.modified || AltersAny(p, inverted, nested, lines, done))
  }

  /** Where the visits end. */
  lemma {:induction false} VisitedEnds(desk: Desk, p: Pattern, inverted: bool, nested: Command, prefix: seq<string>,
                                       lines: seq<string>, suffix: seq<string>, done: nat, line: nat, last: nat,
                                       selected: nat, index: Option<nat>)
    requires IsNestable(nested) && done <= |lines| && 1 <= line && last <= |desk.lines|
    requires GlobalProgress(p, inverted, nested, prefix, lines, suffix, done, desk.lines, line, last)
    requires IsLastFound(p, inverted, lines, done, index)
    ensures index.Some? ==> index.value < |lines|
    ensures var all := Visited(desk, p, inverted, nested, line, last, selected);
      all.succeeded ==> EndsRight(desk, all.after, p, inverted, nested, prefix, lines, done, index)
    decreases |lines| - done
  {
    hide Visited, Processed, GlobalProgress, IsNestable, Worked, Selected, NestedResult, IsLastFound, CursorBehind,
         AltersAny, EndsRight;
    GlobalVisit(p, inverted, nested, prefix, lines, suffix, done, desk.lines, line, last);
    LastIsIn(p, inverted, lines, done, index);
    if done == |lines| {
      VisitedAll(desk, p, inverted, nested, line, last, selected);
      NothingLeft(desk, selected, p, inverted, nested, prefix, lines, index);
      return;
    }
    VisitedUnfolds(desk, p, inverted, nested, line, last, selected);
    if !Selected(p, inverted, lines[done]) {
      PassedStep(desk, Visited(desk, p, inverted, nested, line, last, selected).after, p, inverted, nested, prefix,
                 lines, done, index);
      Unselected(p, inverted, nested, prefix, lines, suffix, done, desk.lines, line, last);
      VisitedEnds(desk, p, inverted, nested, prefix, lines, suffix, done + 1, line + 1, last, selected, index);
    } else {
      VisitEnds(desk, p, inverted, nested, prefix, lines, suffix, done, line, last, selected, index);
    }
  }

  lemma {:induction false} VisitEnds(desk: Desk, p: Pattern, inverted: bool, nested: Command, prefix: seq<string>,
                                     lines: seq<string>, suffix: seq<string>, done: nat, line: nat, last: nat,
                                     selected: nat, index: Option<nat>)
    requires IsNestable(nested) && done < |lines| && 1 <= line <= last <= |desk.lines| &&
             desk.lines[line - 1] == lines[done]
    requires GlobalProgress(p, inverted, nested, prefix, lines, suffix, done, desk.lines, line, last)
    requires IsLastFound(p, inverted, lines, done, index) && Selected(p, inverted, lines[done])
    requires index.Some? ==> index.value < |lines|
    ensures var all := Visited(desk, p, inverted, nested, line, last, selected);
      all.succeeded ==> EndsRight(desk, all.after, p, inverted, nested, prefix, lines, done, index)
    decreases |lines| - done, 0
  {
    hide Visited, Processed, GlobalProgress, IsNestable, Worked, Selected, NestedResult, IsLastFound, CursorBehind,
         AltersAny, EndsRight, NestedOutput, IsRestPassed;
    VisitedUnfolds(desk, p, inverted, nested, line, last, selected);
    var here := desk.(currentLine := line);
    WorkedIsResult(here, nested);
    SelectedAdvance(p, inverted, nested, prefix, lines, suffix, done, desk.lines, line, last);
    var work := Worked(here, nested);
    if work.succeeded {
      VisitFlags(here, nested);
      FoundStep(p, inverted, lines, done, index);
      var next, end := if nested.Delete? then line else line + 1, if nested.Delete? then last - 1 else last;
      var later := if index == Some(done) then None else index;
      GlobalVisit(p, inverted, nested, prefix, lines, suffix, done + 1, work.after.lines, next, end);
      ProgressPlace(p, inverted, nested, prefix, lines, suffix, done, desk.lines, line, last);
      VisitedEnds(work.after, p, inverted, nested, prefix, lines, suffix, done + 1, next, end, selected + 1, later);
      if index == Some(done) {
        NoMoreChanges(work.after, p, inverted, nested, prefix, lines, suffix, done + 1, next, end, selected + 1);
      }
      var all := Visited(work.after, p, inverted, nested, next, end, selected + 1);
      if all.succeeded {
        VisitStep(desk, work.after, all.after, p, inverted, nested, prefix, lines, done, index);
      }
    }
  }

  lemma {:induction false} LastIsIn(p: Pattern, inverted: bool, lines: seq<string>, done: nat, index: Option<nat>)
    requires IsLastFound(p, inverted, lines, done, index)
    ensures index.Some? ==> index.value < |lines|
  {
  }

  lemma {:induction false} NothingLeft(desk: Desk, selected: nat, p: Pattern, inverted: bool, nested: Command,
                                       prefix: seq<string>, lines: seq<string>, index: Option<nat>)
    requires IsLastFound(p, inverted, lines, |lines|, index)
    ensures index.None?
    ensures EndsRight(desk, desk.(counter := selected), p, inverted, nested, prefix, lines, |lines|, index)
  {
  }

  lemma {:induction false} PassedStep(desk: Desk, after: Desk, p: Pattern, inverted: bool, nested: Command,
                                      prefix: seq<string>,
                                      lines: seq<string>, done: nat, index: Option<nat>)
    requires done < |lines| && !Selected(p, inverted, lines[done]) && IsLastFound(p, inverted, lines, done, index)
    ensures IsLastFound(p, inverted, lines, done + 1, index) && (index.Some? ==> index.value < |lines|)
    ensures EndsRight(desk, after, p, inverted, nested, prefix, lines, done + 1, index) ==>
            EndsRight(desk, after, p, inverted, nested, prefix, lines, done, index)
  {
    hide Selected, CursorBehind, Processed, NestedResult, AltersAny, Alters, IsLastFound;
    PassedIsNotLast(p, inverted, lines, done, index);
    AlterStep(p, inverted, nested, lines, done);
  }

  lemma {:induction false} PassedIsNotLast(p: Pattern, inverted: bool, lines: seq<string>, done: nat,
                                           index: Option<nat>)
    requires done < |lines| && !Selected(p, inverted, lines[done]) && IsLastFound(p, inverted, lines, done, index)
    ensures IsLastFound(p, inverted, lines, done + 1, index) && (index.Some? ==> index.value < |lines|)
  {
    hide Selected;
  }

  lemma {:induction false} FoundStep(p: Pattern, inverted: bool, lines: seq<string>, done: nat, index: Option<nat>)
    requires done < |lines| && IsLastFound(p, inverted, lines, done, index) && Selected(p, inverted, lines[done])
    ensures index.Some? && index.value < |lines|
    ensures IsLastFound(p, inverted, lines, done + 1, if index == Some(done) then None else index)
    ensures index == Some(done) ==> IsRestPassed(p, inverted, lines, done + 1)
  {
    hide Selected;
  }

  /** The last line found ends it, and an earlier one leaves that to the others. */
  lemma {:induction false} VisitStep(desk: Desk, worked: Desk, after: Desk, p: Pattern, inverted: bool, nested: Command,
                                     prefix: seq<string>, lines: seq<string>, done: nat, index: Option<nat>)
    requires done < |lines| && Selected(p, inverted, lines[done]) && index.Some? && index.value < |lines|
    requires worked.modified == (desk.modified || NestedResult(nested, lines[done]) != Ok([lines[done]]))
    requires worked.condition == (nested.Substitute? || desk.condition)
    requires index == Some(done) ==>
      && Processed(p, inverted, nested, lines[..done]).Ok? && after.lines == worked.lines
      && worked.currentLine ==
         CursorBehind(nested, |prefix| + |Processed(p, inverted, nested, lines[..done]).value| + 1, |worked.lines|)
    requires EndsRight(worked, after, p, inverted, nested, prefix, lines, done + 1, if index == Some(done) then None
                       else index)
    ensures EndsRight(desk, after, p, inverted, nested, prefix, lines, done, index)
  {
    hide Selected, CursorBehind, Processed, NestedResult;
    AlterStep(p, inverted, nested, lines, done);
    hide AltersAny, Alters;
  }

  lemma {:induction false} AlterStep(p: Pattern, inverted: bool, nested: Command, lines: seq<string>, done: nat)
    requires done < |lines|
    ensures AltersAny(p, inverted, nested, lines, done) <==>
            Alters(p, inverted, nested, lines[done]) || AltersAny(p, inverted, nested, lines, done + 1)
    ensures Alters(p, inverted, nested, lines[done]) <==>
            Selected(p, inverted, lines[done]) && NestedResult(nested, lines[done]) != Ok([lines[done]])
  {
    hide Selected, NestedResult;
  }

  lemma {:induction false} ProgressPlace(p: Pattern, inverted: bool, nested: Command, prefix: seq<string>,
                                         lines: seq<string>,
                                         suffix: seq<string>, done: nat, now: seq<string>, line: nat, last: nat)
    requires done <= |lines| && GlobalProgress(p, inverted, nested, prefix, lines, suffix, done, now, line, last)
    ensures Processed(p, inverted, nested, lines[..done]).Ok?
    ensures line == |prefix| + |Processed(p, inverted, nested, lines[..done]).value| + 1
  {
  }

  /** Where nothing is found any more, no line changes any more. */
  lemma {:induction false} NoMoreChanges(desk: Desk, p: Pattern, inverted: bool, nested: Command, prefix: seq<string>,
                                         lines: seq<string>, suffix: seq<string>, done: nat, line: nat, last: nat,
                                             selected: nat)
    requires IsNestable(nested) && done <= |lines| && 1 <= line && last <= |desk.lines|
    requires GlobalProgress(p, inverted, nested, prefix, lines, suffix, done, desk.lines, line, last)
    requires IsRestPassed(p, inverted, lines, done)
    ensures Visited(desk, p, inverted, nested, line, last, selected).after.lines == desk.lines
    decreases |lines| - done
  {
    hide Visited, Processed, GlobalProgress, IsNestable, Selected;
    GlobalVisit(p, inverted, nested, prefix, lines, suffix, done, desk.lines, line, last);
    if done == |lines| {
      VisitedAll(desk, p, inverted, nested, line, last, selected);
    } else {
      VisitedUnfolds(desk, p, inverted, nested, line, last, selected);
      Unselected(p, inverted, nested, prefix, lines, suffix, done, desk.lines, line, last);
      NoMoreChanges(desk, p, inverted, nested, prefix, lines, suffix, done + 1, line + 1, last, selected);
    }
  }

  // ---------------------------------------------------------------- a command that fails

  /** The nested command fails on line `j` of some lines, and on none before. */
  ghost predicate FailsAt(p: Pattern, inverted: bool, nested: Command, lines: seq<string>, j: nat) {
    && j < |lines| && Processed(p, inverted, nested, lines[..j]).Ok?
    && Selected(p, inverted, lines[j]) && NestedResult(nested, lines[j]).Fail?
  }

  /** Where a command fails, `G` stops: what was done up to there stays, the cursor is on that line, the condition is
    out,
    and the counter is as before. */
  lemma {:induction false} VisitedStops(desk: Desk, p: Pattern, inverted: bool, nested: Command, prefix: seq<string>,
                                        lines: seq<string>, suffix: seq<string>, done: nat, line: nat, last: nat,
                                        selected: nat, j: nat, output: string)
    requires IsNestable(nested) && done <= j < |lines| && 1 <= line && last <= |desk.lines|
    requires GlobalProgress(p, inverted, nested, prefix, lines, suffix, done, desk.lines, line, last)
    requires desk.output == output + ProcessedOutput(p, inverted, nested, lines[..done])
    requires FailsAt(p, inverted, nested, lines, j)
    ensures Processed(p, inverted, nested, lines[..j]).Ok?
    ensures var all := Visited(desk, p, inverted, nested, line, last, selected);
      var before := Processed(p, inverted, nested, lines[..j]).value;
      && !all.succeeded && all.after.lines == prefix + before + lines[j..] + suffix
      && all.after.output == output + ProcessedOutput(p, inverted, nested, lines[..j])
      && all.after.currentLine == |prefix| + |before| + 1 && !all.after.condition && all.after.counter == desk.counter
    decreases j - done
  {
    hide Visited, Processed, ProcessedOutput, SelectedCount, GlobalProgress, IsNestable, Worked, Selected, NestedOutput,
         NestedResult, FailsAt;
    GlobalVisit(p, inverted, nested, prefix, lines, suffix, done, desk.lines, line, last);
    VisitedUnfolds(desk, p, inverted, nested, line, last, selected);
    var here := desk.(currentLine := line);
    WorkedIsResult(here, nested);
    FailsThere(p, inverted, nested, lines, j);
    if done == j {
      WorkFails(here, nested);
      ProgressPlace(p, inverted, nested, prefix, lines, suffix, done, desk.lines, line, last);
      ProgressLines(p, inverted, nested, prefix, lines, suffix, done, desk.lines, line, last);
      return;
    }
    VisitedStep(p, inverted, nested, lines, done, output);
    if !Selected(p, inverted, lines[done]) {
      Unselected(p, inverted, nested, prefix, lines, suffix, done, desk.lines, line, last);
      VisitedStops(desk, p, inverted, nested, prefix, lines, suffix, done + 1, line + 1, last, selected, j, output);
      return;
    }
    SelectedAdvance(p, inverted, nested, prefix, lines, suffix, done, desk.lines, line, last);
    EarlierSucceed(p, inverted, nested, lines, done, j);
    var work := Worked(here, nested);
    VisitFlags(here, nested);
    var next, end := if nested.Delete? then line else line + 1, if nested.Delete? then last - 1 else last;
    GlobalVisit(p, inverted, nested, prefix, lines, suffix, done + 1, work.after.lines, next, end);
    VisitedStops(work.after, p, inverted, nested, prefix, lines, suffix, done + 1, next, end, selected + 1, j, output);
  }

  lemma {:induction false} FailsThere(p: Pattern, inverted: bool, nested: Command, lines: seq<string>, j: nat)
    requires FailsAt(p, inverted, nested, lines, j)
    ensures Processed(p, inverted, nested, lines[..j]).Ok? && Selected(p, inverted, lines[j])
    ensures NestedResult(nested, lines[j]).Fail?
  {
  }

  lemma {:induction false} ProgressLines(p: Pattern, inverted: bool, nested: Command, prefix: seq<string>,
                                         lines: seq<string>,
                                         suffix: seq<string>, done: nat, now: seq<string>, line: nat, last: nat)
    requires done <= |lines| && GlobalProgress(p, inverted, nested, prefix, lines, suffix, done, now, line, last)
    ensures Processed(p, inverted, nested, lines[..done]).Ok?
    ensures now == prefix + Processed(p, inverted, nested, lines[..done]).value + lines[done..] + suffix
  {
  }

  /** Only `S` can fail, and it leaves just the condition. */
  lemma {:induction false} WorkFails(desk: Desk, nested: Command)
    requires IsNestable(nested) && 1 <= desk.currentLine <= |desk.lines|
    requires NestedResult(nested, desk.lines[desk.currentLine - 1]).Fail?
    ensures Worked(desk, nested) == Effect(desk.(condition := false), false)
  {
    hide Worked, Substitution.Substituted, SubstitutedLines, LastMatch;
    var line := desk.currentLine;
    WorkedHere(desk, nested);
    SubstituteHere(nested.pattern, nested.replacement, desk.lines, line);
  }

  lemma {:induction false} EarlierSucceed(p: Pattern, inverted: bool, nested: Command, lines: seq<string>, done: nat,
                                          j: nat)
    requires done < j <= |lines| && Processed(p, inverted, nested, lines[..j]).Ok? && Selected(p, inverted, lines[done])
    ensures NestedResult(nested, lines[done]).Ok?
  {
    var short := lines[..j];
    assert short[..done] == lines[..done] && short[..done + 1] == lines[..done + 1];
    ProcessedStep(p, inverted, nested, short, done);
    hide Processed, NestedResult, Selected;
    if Processed(p, inverted, nested, short[..done + 1]).Fail? {
      ProcessedFails(p, inverted, nested, short, done + 1);
    }
  }

  // ---------------------------------------------------------------- the command

  /** The lines that `G` goes through: all of them without an address. */
  predicate Searches(state: State, address: Option<Address>, range: LineRange)
    requires IsConsistent(state)
  {
    && 1 <= range.first <= range.last <= |Here(state).lines|
    && if address.None? then range == LineRange(1, |Here(state).lines|) else Chooses(state, address, range)
  }

  lemma {:induction false} SearchRange(state: State, address: Option<Address>, range: LineRange)
    requires IsConsistent(state) && Searches(state, address, range)
    ensures state.current in state.texts && 1 <= range.first <= range.last <= |Here(state).lines|
    ensures GlobalRange(address, Here(state).currentLine, |Here(state).lines|) == Ok(range)
  {
    hide Evaluate, Selects;
    if address.Some? {
      ChoiceIs(state, address, range);
    }
  }

  /** `G` with a command that succeeds everywhere: the lines around the range stay, each line found gives way to the
    result of
    the command, what the command shows is shown, the counter is the number of lines found,
        and the cursor is on the last
    one. */
  lemma {:induction false} SearchRuns(state: State, address: Option<Address>, range: LineRange, p: Pattern,
                                      inverted: bool,
                                      nested: Command, index: Option<nat>)
    requires IsConsistent(state) && Searches(state, address, range) && IsNestable(nested)
    requires Processed(p, inverted, nested, Chosen(state, range)).Ok?
    requires IsLastFound(p, inverted, Chosen(state, range), 0, index)
    ensures index.Some? ==>
      && index.value < |Chosen(state, range)|
      && Processed(p, inverted, nested, Chosen(state, range)[..index.value]).Ok?
    ensures var lines := Chosen(state, range);
      var left := Above(state, range.first - 1) + Processed(p, inverted, nested, lines).value +
          Below(state, range.last);
      Executed(state, Input(Global(address, p, inverted, nested), [])) ==
      Effect(Altered(state, left,
                 if index.None? then Here(state).currentLine
                 else CursorBehind(nested, range.first + |Processed(p, inverted, nested, lines[..index.value]).value|,
                                   |left|),
                 Here(state).modified || AltersAny(p, inverted, nested, lines, 0))
               .(output := state.output + ProcessedOutput(p, inverted, nested, lines),
                 counter := SelectedCount(p, inverted, lines),
                 condition := (nested.Substitute? && index.Some?) || state.condition), true)
  {
    hide IsConsistent, Executed, Processed, ProcessedOutput, SelectedCount, IsNestable, Visited, Selected, NestedResult,
         IsLastFound, AltersAny, Searches, CursorBehind, GlobalRange, GlobalProgress;
    LinesRun(state, Global(address, p, inverted, nested), []);
    SearchRange(state, address, range);
    var desk, lines := DeskOf(state), Chosen(state, range);
    VisitedIsProcessed(desk, p, inverted, nested, range);
    GlobalLinesStart(desk, p, inverted, nested, range);
    LastIsIn(p, inverted, lines, 0, index);
    VisitedEnds(desk, p, inverted, nested, desk.lines[..range.first - 1], lines, desk.lines[range.last..], 0,
                range.first, range.last,
                0, index);
  }

  lemma {:induction false} GlobalLinesStart(desk: Desk, p: Pattern, inverted: bool, nested: Command, range: LineRange)
    requires 1 <= range.first <= range.last <= |desk.lines|
    ensures var lines := desk.lines[range.first - 1..range.last];
      && lines[..0] == [] && ProcessedOutput(p, inverted, nested, lines[..0]) == ""
      && GlobalProgress(p, inverted, nested, desk.lines[..range.first - 1], lines, desk.lines[range.last..], 0,
                        desk.lines,
                        range.first, range.last)
  {
    GlobalStart(p, inverted, nested, desk.lines, range, desk.output);
  }

  /** `G` with a command that fails on a line found. */
  lemma {:induction false} SearchStops(state: State, address: Option<Address>, range: LineRange, p: Pattern,
                                       inverted: bool,
                                       nested: Command, j: nat)
    requires IsConsistent(state) && Searches(state, address, range) && IsNestable(nested)
    requires FailsAt(p, inverted, nested, Chosen(state, range), j)
    ensures var lines := Chosen(state, range); var done := Processed(p, inverted, nested, lines[..j]);
      && done.Ok?
      && var run := Executed(state, Input(Global(address, p, inverted, nested), []));
        && !run.succeeded && !run.after.condition && run.after.counter == state.counter
        && Here(run.after).lines == Above(state, range.first - 1) + done.value + lines[j..] + Below(state, range.last)
        && Here(run.after).currentLine == range.first + |done.value|
        && run.after.output == state.output + ProcessedOutput(p, inverted, nested, lines[..j])
  {
    hide IsConsistent, Executed, Processed, ProcessedOutput, SelectedCount, IsNestable, Visited, Selected, NestedResult,
         Searches, GlobalRange, GlobalProgress, FailsAt;
    LinesRun(state, Global(address, p, inverted, nested), []);
    SearchRange(state, address, range);
    var desk, lines := DeskOf(state), Chosen(state, range);
    GlobalLinesStart(desk, p, inverted, nested, range);
    FailsIn(p, inverted, nested, lines, j);
    assert desk.output == desk.output + "";
    VisitedStops(desk, p, inverted, nested, desk.lines[..range.first - 1], lines, desk.lines[range.last..], 0,
                 range.first, range.last,
                 0, j, desk.output);
  }

  lemma {:induction false} FailsIn(p: Pattern, inverted: bool, nested: Command, lines: seq<string>, j: nat)
    requires FailsAt(p, inverted, nested, lines, j)
    ensures j < |lines|
  {
  }

  /** `G` can run `P`, `D`, `Z` and `S`, without addresses. */
  lemma {:induction false} NestablesAre(nested: Command)
    ensures IsNestable(nested) <==>
            || nested == Print(None) || nested == Delete(None) || nested == Zap(None)
            || (nested.Substitute? && nested.address.None?)
  {
  }

  /** Without lines to go through, or with a command that `G` cannot run, nothing happens. */
  lemma {:induction false} SearchFails(state: State, address: Option<Address>, p: Pattern, inverted: bool,
                                       nested: Command)
    requires IsConsistent(state)
    ensures (forall r :: !Searches(state, address, r)) || !IsNestable(nested) ==>
      Executed(state, Input(Global(address, p, inverted, nested), [])) == Effect(state, false)
  {
    hide IsConsistent, Executed, IsNestable, Visited, Searches, Selects, Evaluate;
    LinesRun(state, Global(address, p, inverted, nested), []);
    NothingHappens(state);
    var range := GlobalRange(address, Here(state).currentLine, |Here(state).lines|);
    if range.Ok? {
      RangeIsSearched(state, address, range.value);
    }
  }

  lemma {:induction false} RangeIsSearched(state: State, address: Option<Address>, range: LineRange)
    requires IsConsistent(state) && GlobalRange(address, Here(state).currentLine, |Here(state).lines|) == Ok(range)
    ensures Searches(state, address, range)
  {
    hide Evaluate, Selects;
    if address.Some? {
      SelectsOne(address, Here(state).currentLine, |Here(state).lines|, range);
    }
  }

  // ---------------------------------------------------------------- deleting and showing what is found

  /** Nothing happened to the other buffers and to the files. */
  predicate OnlyHere(before: State, after: State)
    requires before.current in before.texts
  {
    && after.current == before.current && after.current in after.texts
    && after.texts == before.texts[before.current := Here(after)] && after.files == before.files
  }

  lemma {:induction false} SearchBounds(state: State, address: Option<Address>, range: LineRange)
    requires IsConsistent(state) && Searches(state, address, range)
    ensures state.current in state.texts && 1 <= range.first <= range.last <= |Here(state).lines|
  {
  }

  lemma {:induction false} CountIs(p: Pattern, inverted: bool, lines: seq<string>)
    ensures SelectedCount(p, inverted, lines) == |lines| - |Remaining(p, inverted, lines)|
  {
    InvertedIsComplement(p, lines);
  }

  lemma {:induction false} LastFound(p: Pattern, inverted: bool, lines: seq<string>) returns (index: Option<nat>)
    ensures IsLastFound(p, inverted, lines, 0, index)
    decreases |lines|
  {
    hide Selected;
    if lines == [] {
      return None;
    }
    var last := |lines| - 1;
    if Selected(p, inverted, lines[last]) {
      return Some(last);
    }
    index := LastFound(p, inverted, lines[..last]);
    assert forall k :: 0 <= k < last ==> lines[..last][k] == lines[k];
  }

  /** All that happened is that lines of the current buffer were shown, and counted. */
  predicate JustShows(before: State, run: Effect<State>, shown: seq<string>)
    requires before.current in before.texts
  {
    && run.succeeded && OnlyHere(before, run.after) && Here(run.after).lines == Here(before).lines
    && run.after.output == before.output + PrintedLines(shown) && run.after.counter == |shown|
  }

  /** All that happened is that some lines are left of the current buffer, and that so many others were counted. */
  predicate JustLeaves(before: State, run: Effect<State>, left: seq<string>, gone: int)
    requires before.current in before.texts
  {
    && run.succeeded && OnlyHere(before, run.after) && Here(run.after).lines == left
    && run.after.output == before.output && run.after.counter == gone
  }

  /** `G` with `D` leaves the lines that it does not find. */
  lemma {:induction false} SearchDeletes(state: State, address: Option<Address>, range: LineRange, p: Pattern,
                                         inverted: bool)
    requires IsConsistent(state) && Searches(state, address, range)
    ensures state.current in state.texts && 1 <= range.first <= range.last <= |Here(state).lines|
    ensures var lines := Chosen(state, range); var left := Remaining(p, inverted, lines);
      JustLeaves(state, Executed(state, Input(Global(address, p, inverted, Delete(None)), [])),
                 Above(state, range.first - 1) + left + Below(state, range.last), |lines| - |left|)
  {
    hide Executed, IsConsistent, Searches, Processed, ProcessedOutput, SelectedCount, Remaining, IsLastFound, AltersAny,
         CursorBehind, Selected;
    SearchBounds(state, address, range);
    var lines := Chosen(state, range);
    DeleteFilters(p, inverted, lines);
    CountIs(p, inverted, lines);
    var index := LastFound(p, inverted, lines);
    SearchRuns(state, address, range, p, inverted, Delete(None), index);
    assert state.output + "" == state.output;
  }

  /** `G` with `P` shows the lines that it finds. */
  lemma {:induction false} SearchPrints(state: State, address: Option<Address>, range: LineRange, p: Pattern,
                                        inverted: bool)
    requires IsConsistent(state) && Searches(state, address, range)
    ensures state.current in state.texts && 1 <= range.first <= range.last <= |Here(state).lines|
    ensures var found := FoundLines(p, inverted, Chosen(state, range));
      JustShows(state, Executed(state, Input(Global(address, p, inverted, Print(None)), [])), found)
  {
    hide Executed, IsConsistent, Searches, Processed, ProcessedOutput, SelectedCount, FoundLines, IsLastFound,
         AltersAny, CursorBehind, Selected, PrintedLines;
    SearchBounds(state, address, range);
    var lines := Chosen(state, range);
    PrintShowsFound(p, inverted, lines);
    FoundAreCounted(p, inverted, lines);
    var index := LastFound(p, inverted, lines);
    SearchRuns(state, address, range, p, inverted, Print(None), index);
    ChosenSplits(Here(state).lines, range);
  }

  lemma {:induction false} ChosenSplits(lines: seq<string>, range: LineRange)
    requires 1 <= range.first <= range.last <= |lines|
    ensures lines[..range.first - 1] + lines[range.first - 1..range.last] + lines[range.last..] == lines
  {
  }
}
