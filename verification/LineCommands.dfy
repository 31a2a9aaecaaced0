/** What commands on lines do, as functions of the current buffer's text: the meaning that the
  executor's methods are proved to have. */
module LineCommands {
  import opened Outcomes
  import opened Addresses
  import opened Patterns
  import opened PatternMatcher
  import opened Substitution
  import opened Buffers

  datatype WriteMode = Preserve | AsAscii | AsUtf8 | AsBcd

  datatype Command =
    | Print(address: Option<Address>)
    | Delete(address: Option<Address>)
    | Append(address: Option<Address>)
    | Insert(address: Option<Address>)
    | Change(address: Option<Address>)
    | Move(address: Option<Address>, bufferName: string)
    | Transfer(address: Option<Address>, destination: Option<Address>)
    | SelectBuffer(name: string, shortForm: bool)
    | Global(address: Option<Address>, pattern: Pattern, inverted: bool, nested: Command)
    | Zap(address: Option<Address>)
    | ZapGather(bufferName: string, nested: Command)
    | Substitute(address: Option<Address>, pattern: Pattern, replacement: string, printAfter: bool)
    | Comment(remark: string)
    | List(listedFile: Option<string>)
    | Facts(ofBuffers: bool)
    | System(line: string)
    | Message(text: string, newline: bool)
    | InputParenthesis(enabled: bool)
    | Monitor(enabled: bool)
    | Quit(immediate: bool)
    | Read(readAddress: Option<Address>, filename: Option<string>)
    | Write(writeAddress: Option<Address>, filename: Option<string>, mode: WriteMode)
  {
    predicate HasAddress() {
      match this
      case Print(address) => address.Some?
      case Delete(address) => address.Some?
      case Append(address) => address.Some?
      case Insert(address) => address.Some?
      case Change(address) => address.Some?
      case Move(address, _) => address.Some?
      case Transfer(address, _) => address.Some?
      case Global(address, _, _, _) => address.Some?
      case Zap(address) => address.Some?
      case Substitute(address, _, _, _) => address.Some?
      case Read(address, _) => address.Some?
      case Write(address, _, _) => address.Some?
      case _ => false
    }
  }

  function Slice(lines: seq<string>, range: LineRange): seq<string>
    requires 1 <= range.first <= range.last <= |lines|
  {
    lines[range.first - 1..range.last]
  }

  /** What the buffers hold after a range of the current one, `source`, was moved to another one, or to itself. */
  function MovedTexts(texts: map<string, Text>, source: string, range: LineRange, name: string): map<string, Text>
    requires source in texts && 1 <= range.first <= range.last <= |texts[source].lines|
  {
    var text := texts[source];
    var filled := texts[name := Refilled(texts, name, Slice(text.lines, range))];
    if name == source then filled
    else
      var rest := Without(text.lines, range.first, range.last);
      filled[source := text.(lines := rest, currentLine := CursorAfterErase(range.first, |rest|), modified := true)]
  }

  /** The text printed for some lines. */
  function PrintedLines(lines: seq<string>): string {
    if lines == [] then "" else PrintedLines(lines[..|lines| - 1]) + lines[|lines| - 1] + "\n"
  }

  lemma {:induction false} NothingPrinted(before: string)
    ensures before + PrintedLines([]) == before
  {
  }

  lemma {:induction false} PrintedStep(lines: seq<string>, k: nat, before: string)
    requires k < |lines|
    ensures before + PrintedLines(lines[..k + 1]) == before + PrintedLines(lines[..k]) + lines[k] + "\n"
    ensures PrintedLines(lines[..0]) == ""
  {
    assert lines[..k + 1][..k] == lines[..k];
  }

  // ---------------------------------------------------------------- substitution over a range

  /** A line with all its matches replaced, or as it was if there are none. */
  ghost function SubstitutedLine(p: Pattern, replacement: string, line: string): string {
    match Substituted(p, replacement, line)
    case Some(changed) => changed
    case None => line
  }

  /** The lines with those from `first` to before `next` substituted, counted from 1. */
  ghost function SubstitutedLines(p: Pattern, replacement: string, lines: seq<string>, first: nat, next: nat):
    (changed: seq<string>)
    requires 1 <= first && next <= |lines| + 1
    ensures |changed| == |lines|
    decreases next
  {
    if next <= first then lines
    else SubstitutedLines(p, replacement, lines, first,
                          next - 1)[next - 2 := SubstitutedLine(p, replacement, lines[next - 2])]
  }

  /** Line by line: the addressed ones are substituted, the others stay. */
  lemma {:induction false} SubstitutedLinesAt(p: Pattern, replacement: string, lines: seq<string>, first: nat,
                                              next: nat, i: nat)
    requires 1 <= first && next <= |lines| + 1 && i < |lines|
    ensures SubstitutedLines(p, replacement, lines, first, next)[i] ==
            if first <= i + 1 < next then SubstitutedLine(p, replacement, lines[i]) else lines[i]
    decreases next
  {
    hide SubstitutedLine;
    if first < next {
      SubstitutedLinesAt(p, replacement, lines, first, next - 1, i);
    }
  }

  ghost predicate HasMatch(p: Pattern, line: string) {
    !NoMatchFrom(p, line, 0)
  }

  /** The last line from `first` to before `next` in which the pattern matches, counted from 1. */
  ghost function LastMatch(p: Pattern, lines: seq<string>, first: nat, next: nat): (last: Option<nat>)
    requires 1 <= first && next <= |lines| + 1
    ensures last.Some? ==> first <= last.value < next
    decreases next
  {
    if next <= first then None
    else if HasMatch(p, lines[next - 2]) then Some(next - 1)
    else LastMatch(p, lines, first, next - 1)
  }

  /** There is a last match exactly when some line matches, and no line after it does. */
  lemma {:induction false} LastMatchIsLast(p: Pattern, lines: seq<string>, first: nat, next: nat, line: nat)
    requires 1 <= first <= line < next <= |lines| + 1 && HasMatch(p, lines[line - 1])
    ensures var last := LastMatch(p, lines, first, next);
      last.Some? && line <= last.value && HasMatch(p, lines[last.value - 1])
    decreases next
  {
    if !HasMatch(p, lines[next - 2]) {
      LastMatchIsLast(p, lines, first, next - 1, line);
    }
  }

  // ---------------------------------------------------------------- what `G` does

  /** Whether `G` (or `G~`) runs its nested command on a line. */
  ghost predicate Selected(p: Pattern, inverted: bool, line: string) {
    inverted != HasMatch(p, line)
  }

  /** What a nested command leaves in place of a selected line; `S` fails on a line without a match. */
  ghost function NestedResult(nested: Command, line: string): Result<seq<string>> {
    match nested
    case Delete(_) => Ok([])
    case Substitute(_, pattern, replacement, _) =>
      (match Substituted(pattern, replacement, line)
       case Some(changed) => Ok([changed])
       case None => Fail)
    case _ => Ok([line])
  }

  /** What a nested command prints for a selected line. */
  ghost function NestedOutput(nested: Command, line: string): string {
    match nested
    case Print(_) => line + "\n"
    case Substitute(_, pattern, replacement, true) => SubstitutedLine(pattern, replacement, line) + "\n"
    case _ => ""
  }

  /** What `G` leaves in place of one line. */
  ghost function LineResult(p: Pattern, inverted: bool, nested: Command, line: string): Result<seq<string>> {
    if Selected(p, inverted, line) then NestedResult(nested, line) else Ok([line])
  }

  /** The lines that `G` leaves in place of `lines`; fails if some selected line fails. */
  ghost function Processed(p: Pattern, inverted: bool, nested: Command, lines: seq<string>): Result<seq<string>> {
    if lines == [] then Ok([])
    else
      var before :- Processed(p, inverted, nested, lines[..|lines| - 1]);
      var piece :- LineResult(p, inverted, nested, lines[|lines| - 1]);
      Ok(before + piece)
  }

  ghost function ProcessedOutput(p: Pattern, inverted: bool, nested: Command, lines: seq<string>): string {
    if lines == [] then ""
    else
      ProcessedOutput(p, inverted, nested, lines[..|lines| - 1])
      + if Selected(p, inverted, lines[|lines| - 1]) then NestedOutput(nested, lines[|lines| - 1]) else ""
  }

  ghost function SelectedCount(p: Pattern, inverted: bool, lines: seq<string>): nat {
    if lines == [] then 0
    else SelectedCount(p, inverted, lines[..|lines| - 1]) + if Selected(p, inverted, lines[|lines| - 1]) then 1 else 0
  }

  /** The commands that `G` can run. */
  predicate IsNestable(nested: Command) {
    !nested.HasAddress() && (nested.Print? || nested.Delete? || nested.Zap? || nested.Substitute?)
  }

  /** Where a run of `G` stands: `done` lines of the range `lines` have been visited, and stand
    processed between `prefix` and the rest. */
  ghost predicate GlobalProgress(p: Pattern, inverted: bool, nested: Command, prefix: seq<string>, lines: seq<string>,
                                 suffix: seq<string>, done: nat, now: seq<string>, line: nat, last: nat)
    requires done <= |lines|
  {
    var processed := Processed(p, inverted, nested, lines[..done]);
    && processed.Ok?
    && now == prefix + processed.value + lines[done..] + suffix
    && line == |prefix| + |processed.value| + 1
    && last == |prefix| + |processed.value| + |lines| - done
  }

  lemma {:induction false} ProcessedStep(p: Pattern, inverted: bool, nested: Command, lines: seq<string>, done: nat)
    requires done < |lines|
    ensures var before := Processed(p, inverted, nested, lines[..done]);
      var piece := LineResult(p, inverted, nested, lines[done]);
      Processed(p, inverted, nested, lines[..done + 1]) ==
      if before.Fail? || piece.Fail? then Fail else Ok(before.value + piece.value)
  {
    assert lines[..done + 1][..done] == lines[..done];
  }

  /** A line that fails makes the whole range fail. */
  lemma {:induction false} ProcessedFails(p: Pattern, inverted: bool, nested: Command, lines: seq<string>, done: nat)
    requires done <= |lines| && Processed(p, inverted, nested, lines[..done]).Fail?
    ensures Processed(p, inverted, nested, lines).Fail?
    decreases |lines| - done
  {
    if done == |lines| {
      assert lines[..done] == lines;
    } else {
      ProcessedStep(p, inverted, nested, lines, done);
      ProcessedFails(p, inverted, nested, lines, done + 1);
    }
  }

  /** The line to visit is where the progress says. */
  lemma {:induction false} GlobalVisit(p: Pattern, inverted: bool, nested: Command, prefix: seq<string>,
                                       lines: seq<string>, suffix: seq<string>, done: nat, now: seq<string>,
                                       line: nat, last: nat)
    requires done <= |lines| && GlobalProgress(p, inverted, nested, prefix, lines, suffix, done, now, line, last)
    ensures line <= last <==> done < |lines|
    ensures 1 <= line <= last + 1 && last <= |now|
    ensures done < |lines| ==> now[line - 1] == lines[done]
    ensures done == |lines| ==> lines[..done] == lines && Processed(p, inverted, nested, lines).Ok?
    ensures done == |lines| ==> now == prefix + Processed(p, inverted, nested, lines).value + suffix
  {
    var processed := Processed(p, inverted, nested, lines[..done]).value;
    if done == |lines| {
      assert lines[..done] == lines && lines[done..] == [];
      assert prefix + processed + [] + suffix == prefix + processed + suffix;
    }
  }

  /** Putting the result of the visited line in its place is progress. */
  lemma {:induction false} GlobalAdvance(p: Pattern, inverted: bool, nested: Command, prefix: seq<string>,
                                         lines: seq<string>, suffix: seq<string>, done: nat, now: seq<string>,
                                         line: nat, last: nat, piece: seq<string>)
    requires done < |lines| && GlobalProgress(p, inverted, nested, prefix, lines, suffix, done, now, line, last)
    requires LineResult(p, inverted, nested, lines[done]) == Ok(piece)
    ensures 1 <= line <= last <= |now|
    ensures GlobalProgress(p, inverted, nested, prefix, lines, suffix, done + 1,
                           now[..line - 1] + piece + now[line..], line + |piece|, last + |piece| - 1)
  {
    ProcessedStep(p, inverted, nested, lines, done);
    hide Processed, LineResult;
    Splice(prefix, Processed(p, inverted, nested, lines[..done]).value, lines, done, suffix, now, piece);
  }

  /** Replacing the first unvisited line, between what is processed and what is not. */
  lemma {:induction false} Splice(prefix: seq<string>, processed: seq<string>, lines: seq<string>, done: nat,
                                  suffix: seq<string>, now: seq<string>, piece: seq<string>)
    requires done < |lines| && now == prefix + processed + lines[done..] + suffix
    ensures var k := |prefix| + |processed|;
      && k < |now|
      && now[..k] + piece + now[k + 1..] == prefix + (processed + piece) + lines[done + 1..] + suffix
  {
    var before, after := prefix + processed, lines[done + 1..] + suffix;
    assert lines[done..] == [lines[done]] + lines[done + 1..];
    assert now == before + [lines[done]] + after;
    assert now[..|before|] == before && now[|before| + 1..] == after;
  }

  // ---------------------------------------------------------------- what commands on lines do

  /** What the commands on lines work with: the current buffer's lines and cursor, the output and the registers. */
  datatype Desk = Desk(lines: seq<string>, currentLine: nat, modified: bool, output: string, condition: bool,
                       counter: int)

  /** What `S` does. */
  ghost function SubstituteWork(desk: Desk, range: LineRange, p: Pattern, replacement: string, printAfter: bool):
    (r: Effect<Desk>)
    requires 1 <= range.first <= range.last <= |desk.lines|
    ensures |r.after.lines| == |desk.lines| && r.succeeded == r.after.condition
  {
    var last := LastMatch(p, desk.lines, range.first, range.last + 1);
    if last.None? then Effect(desk.(condition := false), false)
    else
      var lines := SubstitutedLines(p, replacement, desk.lines, range.first, range.last + 1);
      Effect(desk.(lines := lines, currentLine := last.value, modified := desk.modified ||
                   lines != desk.lines, condition := true,
                   output := desk.output + if printAfter then lines[last.value - 1] + "\n" else ""), true)
  }

  /** What a command on lines does, except for `G`. */
  ghost function Worked(desk: Desk, command: Command): (r: Effect<Desk>)
    ensures r.succeeded && IsNestable(command) ==> |r.after.lines| == |desk.lines| - if command.Delete? then 1 else 0
  {
    match command
    case Print(address) =>
      (match Evaluate(address, desk.currentLine, |desk.lines|)
       case Fail => Effect(desk, false)
       case Ok(range) =>
         Effect(desk.(currentLine := range.last, output := desk.output + PrintedLines(Slice(desk.lines, range))), true))
    case Delete(address) =>
      (match Evaluate(address, desk.currentLine, |desk.lines|)
       case Fail => Effect(desk, false)
       case Ok(range) =>
         var lines := Without(desk.lines, range.first, range.last);
         Effect(desk.(lines := lines, currentLine := CursorAfterErase(range.first, |lines|), modified := true), true))
    case Transfer(address, destination) =>
      var range := Evaluate(address, desk.currentLine, |desk.lines|);
      var after := TransferDestination(destination, desk.currentLine, |desk.lines|);
      if range.Fail? || after.Fail? then Effect(desk, false)
      else
        var copied := Slice(desk.lines, range.value);
        Effect(desk.(lines := With(desk.lines, after.value, copied), currentLine := after.value + |copied|,
                     modified := true), true)
    case Zap(address) =>
      (match Evaluate(address, desk.currentLine, |desk.lines|)
       case Fail => Effect(desk, false)
       case Ok(range) => if range.first == range.last then Effect(desk.(currentLine := range.first), true)
                         else Effect(desk, false))
    case Substitute(address, p, replacement, printAfter) =>
      (match Evaluate(address, desk.currentLine, |desk.lines|)
       case Fail => Effect(desk, false)
       case Ok(range) => SubstituteWork(desk, range, p, replacement, printAfter))
    case _ => Effect(desk, false)
  }

  /** What `G` does from a line on: it goes to each selected line and runs its command there, up to the first
    one that fails. Deleting a line makes the next one come up in its place. */
  ghost function Visited(desk: Desk, p: Pattern, inverted: bool, nested: Command, line: nat, last: nat, selected: nat):
    Effect<Desk>
    requires 1 <= line && last <= |desk.lines| && IsNestable(nested)
    decreases last + 1 - line
  {
    if line > last then Effect(desk.(counter := selected), true)
    else if !Selected(p, inverted, desk.lines[line - 1]) then
        Visited(desk, p, inverted, nested, line + 1, last, selected)
    else
      var work := Worked(desk.(currentLine := line), nested);
      if !work.succeeded then work
      else if nested.Delete? then Visited(work.after, p, inverted, nested, line, last - 1, selected + 1)
      else Visited(work.after, p, inverted, nested, line + 1, last, selected + 1)
  }

  /** A command that `G` can run, on an existing current line. */
  lemma {:induction false} WorkedHere(desk: Desk, nested: Command)
    requires IsNestable(nested) && 1 <= desk.currentLine <= |desk.lines|
    ensures var line := desk.currentLine;
      Worked(desk, nested) ==
      match nested
      case Print(_) => Effect(desk.(output := desk.output + desk.lines[line - 1] + "\n"), true)
      case Delete(_) =>
        var lines := Without(desk.lines, line, line);
        Effect(desk.(lines := lines, currentLine := CursorAfterErase(line, |lines|), modified := true), true)
      case Substitute(_, p, replacement, printAfter) => SubstituteWork(desk, LineRange(line, line), p, replacement,
              printAfter)
      case _ => Effect(desk, true)
  {
    hide SubstituteWork;
    var line := desk.currentLine;
    if nested.Print? {
      PrintedStep(desk.lines, line - 1, desk.output);
      assert Slice(desk.lines, LineRange(line, line)) == [desk.lines[line - 1]];
      var text := desk.lines[line - 1];
      assert PrintedLines([text]) == "" + text + "\n" == text + "\n";
      assert desk.output + (text + "\n") == desk.output + text + "\n";
    }
  }

  /** One step of `G`. */
  lemma {:induction false} VisitedUnfolds(desk: Desk, p: Pattern, inverted: bool, nested: Command, line: nat,
                                          last: nat, selected: nat)
    requires 1 <= line <= last <= |desk.lines| && IsNestable(nested)
    ensures Visited(desk, p, inverted, nested, line, last, selected) ==
            if !Selected(p, inverted, desk.lines[line - 1]) then
                Visited(desk, p, inverted, nested, line + 1, last, selected)
            else
              var work := Worked(desk.(currentLine := line), nested);
              if !work.succeeded then work
              else if nested.Delete? then Visited(work.after, p, inverted, nested, line, last - 1, selected + 1)
              else Visited(work.after, p, inverted, nested, line + 1, last, selected + 1)
  {
    hide Selected, Worked;
  }

  /** The lines that `G` visits: all of them by default. */
  function GlobalRange(address: Option<Address>, current: nat, count: nat): (range: Result<LineRange>)
    ensures range.Ok? ==> 1 <= range.value.first <= range.value.last <= count
  {
    if count == 0 then Fail else if address.None? then Ok(LineRange(1, count)) else Evaluate(address, current, count)
  }

  ghost function GlobalWork(desk: Desk, address: Option<Address>, p: Pattern, inverted: bool, nested: Command):
    Effect<Desk> {
    var range := GlobalRange(address, desk.currentLine, |desk.lines|);
    if range.Fail? || !IsNestable(nested) then Effect(desk, false)
    else Visited(desk, p, inverted, nested, range.value.first, range.value.last, 0)
  }

  lemma {:induction false} VisitedAll(desk: Desk, p: Pattern, inverted: bool, nested: Command, line: nat, last: nat,
                                      selected: nat)
    requires 1 <= line && last <= |desk.lines| && IsNestable(nested) && line > last
    ensures Visited(desk, p, inverted, nested, line, last, selected) == Effect(desk.(counter := selected), true)
  {
  }

  lemma {:induction false} GlobalStart(p: Pattern, inverted: bool, nested: Command, lines: seq<string>,
                                       range: LineRange, output: string)
    requires 1 <= range.first <= range.last <= |lines|
    ensures GlobalProgress(p, inverted, nested, lines[..range.first - 1], Slice(lines, range), lines[range.last..], 0,
                           lines, range.first, range.last)
    ensures output == output + ProcessedOutput(p, inverted, nested, Slice(lines, range)[..0])
    ensures SelectedCount(p, inverted, Slice(lines, range)[..0]) == 0
  {
    var prefix, suffix := lines[..range.first - 1], lines[range.last..];
    assert Slice(lines, range)[..0] == [] && Slice(lines, range)[0..] == Slice(lines, range);
    assert lines == prefix + [] + Slice(lines, range) + suffix;
  }

  /** The result of a nested command on a selected line is progress, or makes the whole range fail. */
  lemma {:induction false} SelectedAdvance(p: Pattern, inverted: bool, nested: Command, prefix: seq<string>,
                                           lines: seq<string>, suffix: seq<string>, done: nat, now: seq<string>,
                                           line: nat, last: nat)
    requires done < |lines| && GlobalProgress(p, inverted, nested, prefix, lines, suffix, done, now, line, last)
    requires 1 <= line <= |now| && Selected(p, inverted, lines[done])
    ensures var result := NestedResult(nested, lines[done]);
      if result.Fail? then Processed(p, inverted, nested, lines).Fail?
      else GlobalProgress(p, inverted, nested, prefix, lines, suffix, done + 1,
                          now[..line - 1] + result.value + now[line..], line + |result.value|,
                              last + |result.value| - 1)
  {
    var result := NestedResult(nested, lines[done]);
    assert LineResult(p, inverted, nested, lines[done]) == result;
    hide NestedResult, LineResult, Processed, GlobalProgress;
    if result.Ok? {
      GlobalAdvance(p, inverted, nested, prefix, lines, suffix, done, now, line, last, result.value);
    } else {
      ProcessedStep(p, inverted, nested, lines, done);
      ProcessedFails(p, inverted, nested, lines, done + 1);
    }
  }

  lemma {:induction false} Unselected(p: Pattern, inverted: bool, nested: Command, prefix: seq<string>,
                                      lines: seq<string>, suffix: seq<string>, done: nat, now: seq<string>, line: nat,
                                      last: nat)
    requires done < |lines| && GlobalProgress(p, inverted, nested, prefix, lines, suffix, done, now, line, last)
    requires 1 <= line <= |now| && now[line - 1] == lines[done] && !Selected(p, inverted, lines[done])
    ensures GlobalProgress(p, inverted, nested, prefix, lines, suffix, done + 1, now, line + 1, last)
  {
    hide Processed, GlobalProgress;
    GlobalAdvance(p, inverted, nested, prefix, lines, suffix, done, now, line, last, [lines[done]]);
    assert now[..line - 1] + [lines[done]] + now[line..] == now;
  }

  lemma {:induction false} VisitedStep(p: Pattern, inverted: bool, nested: Command, lines: seq<string>, done: nat,
                                       output: string)
    requires done < |lines|
    ensures SelectedCount(p, inverted, lines[..done + 1]) ==
            SelectedCount(p, inverted, lines[..done]) + if Selected(p, inverted, lines[done]) then 1 else 0
    ensures output + ProcessedOutput(p, inverted, nested, lines[..done + 1]) ==
            output + ProcessedOutput(p, inverted, nested, lines[..done])
            + if Selected(p, inverted, lines[done]) then NestedOutput(nested, lines[done]) else ""
  {
    assert lines[..done + 1][..done] == lines[..done];
  }

  /** A nested `S` sees just the current line. */
  lemma {:induction false} SubstituteHere(p: Pattern, replacement: string, lines: seq<string>, line: nat)
    requires 1 <= line <= |lines|
    ensures var substituted := Substituted(p, replacement, lines[line - 1]);
      && LastMatch(p, lines, line, line + 1) == (if substituted.Some? then Some(line) else None)
      && (substituted.Some? ==>
            SubstitutedLines(p, replacement, lines, line, line + 1) ==
            lines[..line - 1] + [substituted.value] + lines[line..])
  {
    SubstitutedNone(p, replacement, lines[line - 1]);
    NothingSubstituted(p, replacement, lines, line);
    SubstitutedLinesStep(p, replacement, lines, line, line);
    hide Substituted, SubstitutedLines;
    assert LastMatch(p, lines, line, line) == None;
  }

  lemma {:induction false} NothingSubstituted(p: Pattern, replacement: string, lines: seq<string>, first: nat)
    requires 1 <= first <= |lines| + 1
    ensures SubstitutedLines(p, replacement, lines, first, first) == lines
  {
  }

  lemma {:induction false} SubstitutedLinesStep(p: Pattern, replacement: string, lines: seq<string>, first: nat,
                                                line: nat)
    requires 1 <= first <= line <= |lines|
    ensures var now := SubstitutedLines(p, replacement, lines, first, line);
      var substituted := Substituted(p, replacement, lines[line - 1]);
      && now[line - 1] == lines[line - 1]
      && substituted.Some? == HasMatch(p, lines[line - 1])
      && SubstitutedLines(p, replacement, lines, first, line + 1) ==
         (if substituted.Some? then now[line - 1 := substituted.value] else now)
  {
    hide Substituted, NoMatchFrom;
    SubstitutedNone(p, replacement, lines[line - 1]);
    SubstitutedLinesAt(p, replacement, lines, first, line, line - 1);
  }

  /** A line changed so far stays changed. */
  lemma {:induction false} StillChanged(before: seq<string>, now: seq<string>, k: nat, text: string)
    requires k < |before| == |now| && now[k] == before[k]
    ensures now[k := text] != before <==> now != before || text != before[k]
  {
    if now != before {
      var i :| 0 <= i < |before| && now[i] != before[i];
      assert now[k := text][i] == now[i];
    } else if text != before[k] {
      assert now[k := text][k] != before[k];
    }
  }

  /** What a nested command does to the line it runs on. */
  lemma {:induction false} WorkedIsResult(desk: Desk, nested: Command)
    requires IsNestable(nested) && 1 <= desk.currentLine <= |desk.lines|
    ensures var line := desk.currentLine; var text := desk.lines[line - 1];
      var work := Worked(desk, nested); var result := NestedResult(nested, text);
      && work.succeeded == result.Ok?
      && (result.Ok? ==>
            && work.after.lines == desk.lines[..line - 1] + result.value + desk.lines[line..]
            && work.after.output == desk.output + NestedOutput(nested, text)
            && |result.value| == if nested.Delete? then 0 else 1)
  {
    hide Worked, Substituted, SubstitutedLines, LastMatch;
    var line := desk.currentLine;
    WorkedHere(desk, nested);
    assert desk.lines == desk.lines[..line - 1] + [desk.lines[line - 1]] + desk.lines[line..];
    assert desk.lines[..line - 1] + [] == desk.lines[..line - 1];
    if nested.Substitute? {
      SubstituteHere(nested.pattern, nested.replacement, desk.lines, line);
    }
  }

  /** `G` leaves the lines around its range, and makes of each line in it what its result says. */
  lemma {:induction false} VisitedIsProcessed(desk: Desk, p: Pattern, inverted: bool, nested: Command, range: LineRange)
    requires IsNestable(nested) && 1 <= range.first <= range.last <= |desk.lines|
    ensures var lines := Slice(desk.lines, range);
      var processed := Processed(p, inverted, nested, lines);
      var all := Visited(desk, p, inverted, nested, range.first, range.last, 0);
      && all.succeeded == processed.Ok?
      && (all.succeeded ==>
            && all.after.lines == desk.lines[..range.first - 1] + processed.value + desk.lines[range.last..]
            && all.after.output == desk.output + ProcessedOutput(p, inverted, nested, lines)
            && all.after.counter == SelectedCount(p, inverted, lines))
  {
    hide Visited, Processed, ProcessedOutput, SelectedCount, GlobalProgress, IsNestable;
    GlobalStart(p, inverted, nested, desk.lines, range, desk.output);
    VisitedFromHere(desk, p, inverted, nested, desk.lines[..range.first - 1], Slice(desk.lines, range),
                    desk.lines[range.last..], 0, range.first, range.last, 0, desk.output);
  }

  /** The same with part of the range already visited. */
  lemma {:induction false} VisitedFromHere(desk: Desk, p: Pattern, inverted: bool, nested: Command,
                                           prefix: seq<string>, lines: seq<string>, suffix: seq<string>, done: nat,
                                           line: nat, last: nat, selected: nat, output: string)
    requires IsNestable(nested) && done <= |lines| && 1 <= line && last <= |desk.lines|
    requires GlobalProgress(p, inverted, nested, prefix, lines, suffix, done, desk.lines, line, last)
    requires desk.output == output + ProcessedOutput(p, inverted, nested, lines[..done])
    requires selected == SelectedCount(p, inverted, lines[..done])
    ensures var processed := Processed(p, inverted, nested, lines);
      var all := Visited(desk, p, inverted, nested, line, last, selected);
      && all.succeeded == processed.Ok?
      && (all.succeeded ==>
            && all.after.lines == prefix + processed.value + suffix
            && all.after.output == output + ProcessedOutput(p, inverted, nested, lines)
            && all.after.counter == SelectedCount(p, inverted, lines))
    decreases |lines| - done
  {
    hide Visited, Processed, ProcessedOutput, SelectedCount, GlobalProgress, IsNestable, Worked, Selected, NestedOutput,
         NestedResult;
    GlobalVisit(p, inverted, nested, prefix, lines, suffix, done, desk.lines, line, last);
    if done == |lines| {
      VisitedAll(desk, p, inverted, nested, line, last, selected);
      return;
    }
    VisitedStep(p, inverted, nested, lines, done, output);
    VisitedUnfolds(desk, p, inverted, nested, line, last, selected);
    if !Selected(p, inverted, lines[done]) {
      Unselected(p, inverted, nested, prefix, lines, suffix, done, desk.lines, line, last);
      VisitedFromHere(desk, p, inverted, nested, prefix, lines, suffix, done + 1, line + 1, last, selected, output);
      return;
    }
    var here := desk.(currentLine := line);
    WorkedIsResult(here, nested);
    SelectedAdvance(p, inverted, nested, prefix, lines, suffix, done, desk.lines, line, last);
    var work := Worked(here, nested);
    if work.succeeded {
      GlobalVisit(p, inverted, nested, prefix, lines, suffix, done + 1, work.after.lines,
                  if nested.Delete? then line else line + 1, if nested.Delete? then last - 1 else last);
      VisitedFromHere(work.after, p, inverted, nested, prefix, lines, suffix, done + 1,
                      if nested.Delete? then line else line + 1, if nested.Delete? then last - 1 else last,
                      selected + 1, output);
    }
  }

  predicate IsTextCommand(command: Command) {
    command.Append? || command.Insert? || command.Change?
  }

  /** What `A`, `I` and `C` do with the lines typed for them. */
  function TypedWork(desk: Desk, command: Command, text: seq<string>): Effect<Desk>
    requires IsTextCommand(command) && desk.currentLine <= |desk.lines|
  {
    if command.Change? then
      match Evaluate(command.address, desk.currentLine, |desk.lines|)
      case Fail => Effect(desk, false)
      case Ok(range) =>
        var lines := desk.lines[..range.first - 1] + text + desk.lines[range.last..];
        Effect(desk.(lines := lines, modified := true,
                     currentLine := if text == [] then CursorAfterErase(range.first, |lines|)
                                    else range.first - 1 + |text|), true)
    else
      var after := if command.Append? then AppendPosition(command.address, desk.currentLine, |desk.lines|)
                   else InsertPosition(command.address, desk.currentLine, |desk.lines|);
      if after.Fail? then Effect(desk, false)
      else Effect(desk.(lines := With(desk.lines, after.value, text), currentLine := after.value + |text|,
                        modified := desk.modified || text != []), true)
  }

  // ---------------------------------------------------------------- the lines that are left

  predicate IsLineCommand(command: Command) {
    command.Print? || command.Delete? || command.Transfer? || command.Global? || command.Zap? || command.Substitute?
  }

  /** The lines that a command on the current buffer makes of its lines. */
  ghost function Edited(command: Command, lines: seq<string>, current: nat): Result<seq<string>>
    requires IsLineCommand(command)
  {
    match command
    case Print(address) =>
      var range :- Evaluate(address, current, |lines|);
      Ok(lines)
    case Delete(address) =>
      var range :- Evaluate(address, current, |lines|);
      Ok(Without(lines, range.first, range.last))
    case Transfer(address, destination) =>
      var range :- Evaluate(address, current, |lines|);
      var after :- TransferDestination(destination, current, |lines|);
      Ok(With(lines, after, Slice(lines, range)))
    case Zap(address) =>
      var range :- Evaluate(address, current, |lines|);
      if range.first == range.last then Ok(lines) else Fail
    case Substitute(address, p, replacement, _) =>
      var range :- Evaluate(address, current, |lines|);
      if LastMatch(p, lines, range.first, range.last + 1).None? then Fail
      else Ok(SubstitutedLines(p, replacement, lines, range.first, range.last + 1))
    case Global(address, p, inverted, nested) =>
      var range :- if lines == [] then Fail else if address.None? then Ok(LineRange(1, |lines|))
                   else Evaluate(address, current, |lines|);
      if !IsNestable(nested) then Fail
      else
        var processed :- Processed(p, inverted, nested, Slice(lines, range));
        Ok(lines[..range.first - 1] + processed + lines[range.last..])
  }

  /** What a command on lines does, `G` included. */
  ghost function LineWork(desk: Desk, command: Command): Effect<Desk>
    requires IsLineCommand(command)
  {
    if command.Global? then GlobalWork(desk, command.address, command.pattern, command.inverted, command.nested)
    else Worked(desk, command)
  }

  /** The lines that a command leaves. */
  lemma {:induction false} WorkIsEdited(desk: Desk, command: Command)
    requires IsLineCommand(command)
    ensures var work := LineWork(desk, command); var edited := Edited(command, desk.lines, desk.currentLine);
      && work.succeeded == edited.Ok?
      && (if work.succeeded then work.after.lines == edited.value
          else command.Global? || work.after.lines == desk.lines)
  {
    hide Worked, Edited, GlobalWork;
    if command.Global? {
      GlobalIsEdited(desk, command.address, command.pattern, command.inverted, command.nested);
    } else {
      WorkedIsEdited(desk, command);
    }
  }

  lemma {:induction false} GlobalIsEdited(desk: Desk, address: Option<Address>, p: Pattern, inverted: bool,
                                          nested: Command)
    ensures var work := GlobalWork(desk, address, p, inverted, nested);
      var edited := Edited(Global(address, p, inverted, nested), desk.lines, desk.currentLine);
      work.succeeded == edited.Ok? && (work.succeeded ==> work.after.lines == edited.value)
  {
    hide Evaluate, Visited, Processed, IsNestable, ProcessedOutput, SelectedCount;
    var range := GlobalRange(address, desk.currentLine, |desk.lines|);
    if range.Ok? && IsNestable(nested) {
      VisitedIsProcessed(desk, p, inverted, nested, range.value);
    }
  }

  lemma {:induction false} WorkedIsEdited(desk: Desk, command: Command)
    requires IsLineCommand(command) && !command.Global?
    ensures var work := Worked(desk, command); var edited := Edited(command, desk.lines, desk.currentLine);
      work.succeeded == edited.Ok? && work.after.lines == if work.succeeded then edited.value else desk.lines
  {
    hide Evaluate, Without, With, TransferDestination, PrintedLines, Slice, CursorAfterErase, SubstitutedLines,
         LastMatch;
  }

  // ---------------------------------------------------------------- consistency

  /** The cursor is on a line or before the first one, and unmodified text is saved text. */
  predicate IsSound(desk: Desk, saved: seq<string>) {
    desk.currentLine <= |desk.lines| && (!desk.modified ==> desk.lines == saved)
  }

  /** Commands on lines keep this. */
  lemma {:induction false} WorkedIsSound(desk: Desk, command: Command, saved: seq<string>)
    requires IsSound(desk, saved)
    ensures IsSound(Worked(desk, command).after, saved)
  {
    hide Evaluate, TransferDestination, PrintedLines, SubstitutedLines, LastMatch;
  }

  lemma {:induction false} TypedIsSound(desk: Desk, command: Command, text: seq<string>, saved: seq<string>)
    requires IsTextCommand(command) && IsSound(desk, saved)
    ensures IsSound(TypedWork(desk, command, text).after, saved)
  {
    hide Evaluate, AppendPosition, InsertPosition;
    if !command.Change? {
      var after := if command.Append? then AppendPosition(command.address, desk.currentLine, |desk.lines|)
                   else InsertPosition(command.address, desk.currentLine, |desk.lines|);
      if after.Ok? {
        assert With(desk.lines, after.value, []) == desk.lines;
      }
    }
  }

  lemma {:induction false} VisitedIsSound(desk: Desk, p: Pattern, inverted: bool, nested: Command, line: nat,
                                          last: nat, selected: nat, saved: seq<string>)
    requires 1 <= line && last <= |desk.lines| && IsNestable(nested) && IsSound(desk, saved)
    ensures IsSound(Visited(desk, p, inverted, nested, line, last, selected).after, saved)
    decreases last + 1 - line
  {
    hide Visited, Selected, Worked;
    if line > last {
      VisitedAll(desk, p, inverted, nested, line, last, selected);
      return;
    }
    VisitedUnfolds(desk, p, inverted, nested, line, last, selected);
    if !Selected(p, inverted, desk.lines[line - 1]) {
      VisitedIsSound(desk, p, inverted, nested, line + 1, last, selected, saved);
      return;
    }
    var work := Worked(desk.(currentLine := line), nested);
    WorkedIsSound(desk.(currentLine := line), nested, saved);
    if work.succeeded && nested.Delete? {
      VisitedIsSound(work.after, p, inverted, nested, line, last - 1, selected + 1, saved);
    } else if work.succeeded {
      VisitedIsSound(work.after, p, inverted, nested, line + 1, last, selected + 1, saved);
    }
  }

  lemma {:induction false} LineWorkIsSound(desk: Desk, command: Command, saved: seq<string>)
    requires IsLineCommand(command) && IsSound(desk, saved)
    ensures IsSound(LineWork(desk, command).after, saved)
  {
    hide Visited, Worked, IsNestable;
    if command.Global? {
      var range := GlobalRange(command.address, desk.currentLine, |desk.lines|);
      if range.Ok? && IsNestable(command.nested) {
        VisitedIsSound(desk, command.pattern, command.inverted, command.nested, range.value.first, range.value.last,
                       0, saved);
      }
    } else {
      WorkedIsSound(desk, command, saved);
    }
  }
}
