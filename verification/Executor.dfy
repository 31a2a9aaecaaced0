/** Execution of parsed commands on the editor state.

  The state is a `BufferManager`, the output written so far, a few registers, and the files,
  modelled as a map from names to bytes. A command that fails in the program throws; here it
  returns `Fail`, and the contracts say what it left unchanged. */
module Executor {
  import opened Outcomes
  import opened Limits
  import opened Addresses
  import opened LineCommands
  import opened Patterns
  import opened PatternMatcher
  import opened Substitution
  import opened TextFiles
  import opened Utf8
  import opened Buffers
  import opened Sequences

  // ---------------------------------------------------------------- the commands

  class ExecutionContext {
    const manager: BufferManager

    /** The host's shell: what a command line writes, and whether it succeeds. */
    const shell: string -> (string, bool)

    var output: string
    var counter: int
    var condition: bool
    var numericRegisters: map<string, int>
    var inputParenthesesRequired: bool
    var monitorCommands: bool
    var exitRequested: bool
    var immediateExit: bool
    var files: map<string, string>

    ghost predicate Valid()
      reads manager, manager.buffers.Values
    {
      manager.Valid() && manager.HeadIsCurrent()
    }

    lemma {:induction false} Standing()
      requires Valid()
      ensures manager.Valid() && manager.current.Valid() && manager.current in manager.buffers.Values
      ensures manager.current.currentLine <= |manager.current.lines|
    {
    }

    /** Only the current buffer changed. */
    twostate lemma StillValid()
      requires old(Valid()) && unchanged(manager) && manager.current.Valid()
      requires forall b :: b in manager.buffers.Values && b != manager.current ==> b.AsText() == old(b.AsText())
      ensures Valid()
    {
      manager.Changed(manager.current);
    }

    constructor (manager: BufferManager, files: map<string, string>, shell: string -> (string, bool))
      requires manager.Valid() && manager.HeadIsCurrent()
      ensures Valid() && this.manager == manager && this.files == files && this.shell == shell && output == ""
      ensures counter == 0 && numericRegisters == map[] && !condition && inputParenthesesRequired && !monitorCommands
      ensures !exitRequested && !immediateExit
    {
      this.manager := manager;
      this.files := files;
      this.shell := shell;
      output := "";
      counter, condition, inputParenthesesRequired, monitorCommands := 0, false, true, false;
      numericRegisters := map[];
      exitRequested, immediateExit := false, false;
    }

    /** What the commands on lines work with. */
    function OnDesk(): Desk
      reads this, manager, manager.current
    {
      Desk(manager.current.lines, manager.current.currentLine, manager.current.modified, output, condition, counter)
    }

    /** The lines that an address selects in the current buffer. */
    function Target(address: Option<Address>): (range: Result<LineRange>)
      reads manager, manager.current
      ensures range.Ok? ==> 1 <= range.value.first <= range.value.last <= |manager.current.lines|
    {
      Evaluate(address, manager.current.currentLine, |manager.current.lines|)
    }

    method WriteLine(text: string)
      modifies this`output
      ensures output == old(output) + text + "\n"
    {
      output := output + text + "\n";
    }

    method ExecutePrint(address: Option<Address>) returns (result: Result<()>)
      requires Valid()
      modifies this`output, manager.current`currentLine
      ensures Valid() && result.Ok? == old(Target(address)).Ok?
      ensures result.Fail? ==> output == old(output) && manager.current.currentLine == old(manager.current.currentLine)
      ensures result.Ok? ==>
        && output == old(output) + PrintedLines(Slice(manager.current.lines, old(Target(address)).value))
        && manager.current.currentLine == old(Target(address)).value.last
    {
      var range :- Target(address);
      PrintRange(manager.current, range);
      manager.current.SetCurrentLine(range.last);
      return Ok(());
    }

    method PrintRange(buffer: Buffer, range: LineRange)
      requires 1 <= range.first <= range.last <= |buffer.lines|
      modifies this`output
      ensures output == old(output) + PrintedLines(Slice(buffer.lines, range))
    {
      hide PrintedLines;
      ghost var printed := Slice(buffer.lines, range);
      NothingPrinted(output);
      var line := range.first;
      while line <= range.last
        invariant range.first <= line <= range.last + 1
        invariant output == old(output) + PrintedLines(printed[..line - range.first])
      {
        PrintedStep(printed, line - range.first, old(output));
        WriteLine(buffer.lines[line - 1]);
        line := line + 1;
      }
      assert printed[..|printed|] == printed;
    }

    method ExecuteDelete(address: Option<Address>) returns (result: Result<()>)
      requires Valid()
      modifies manager.current`lines, manager.current`currentLine, manager.current`modified
      ensures Valid() && result.Ok? == old(Target(address)).Ok?
      ensures result.Fail? ==> unchanged(manager.current)
      ensures result.Ok? ==> var range := old(Target(address)).value;
        && manager.current.lines == Without(old(manager.current.lines), range.first, range.last)
        && manager.current.currentLine == CursorAfterErase(range.first, |manager.current.lines|)
        && manager.current.modified
    {
      var range :- Target(address);
      manager.current.Erase(range.first, range.last);
      return Ok(());
    }

    method ExecuteAppend(address: Option<Address>, lines: seq<string>) returns (result: Result<()>)
      requires Valid()
      modifies manager.current`lines, manager.current`currentLine, manager.current`modified
      ensures Valid()
      ensures var after := AppendPosition(address, old(manager.current.currentLine), |old(manager.current.lines)|);
        if after.Fail? then result.Fail? && unchanged(manager.current)
        else
          && result.Ok? && manager.current.lines == With(old(manager.current.lines), after.value, lines)
          && manager.current.currentLine == after.value + |lines|
          && manager.current.modified == (old(manager.current.modified) || lines != [])
    {
      var after :- AppendPosition(address, manager.current.currentLine, |manager.current.lines|);
      result := manager.current.InsertAfter(after, lines);
    }

    method ExecuteInsert(address: Option<Address>, lines: seq<string>) returns (result: Result<()>)
      requires Valid()
      modifies manager.current`lines, manager.current`currentLine, manager.current`modified
      ensures Valid()
      ensures var after := InsertPosition(address, old(manager.current.currentLine), |old(manager.current.lines)|);
        if after.Fail? then result.Fail? && unchanged(manager.current)
        else
          && result.Ok? && manager.current.lines == With(old(manager.current.lines), after.value, lines)
          && manager.current.currentLine == after.value + |lines|
          && manager.current.modified == (old(manager.current.modified) || lines != [])
    {
      var after :- InsertPosition(address, manager.current.currentLine, |manager.current.lines|);
      result := manager.current.InsertAfter(after, lines);
    }

    method ExecuteChange(address: Option<Address>, lines: seq<string>) returns (result: Result<()>)
      requires Valid()
      modifies manager.current`lines, manager.current`currentLine, manager.current`modified
      ensures Valid() && result.Ok? == old(Target(address)).Ok?
      ensures result.Fail? ==> unchanged(manager.current)
      ensures result.Ok? ==> var range := old(Target(address)).value; var before := old(manager.current.lines);
        && manager.current.lines == before[..range.first - 1] + lines + before[range.last..]
        && manager.current.currentLine == (if lines == [] then CursorAfterErase(range.first, |manager.current.lines|)
                                           else range.first - 1 + |lines|)
        && manager.current.modified
    {
      var buffer := manager.current;
      var range :- Target(address);
      var insertionAfter := range.first - 1;
      buffer.Erase(range.first, range.last);
      if lines != [] {
        var inserted := buffer.InsertAfter(insertionAfter, lines);
        assert inserted.Ok?;
      }
      return Ok(());
    }

    method ExecuteTransfer(address: Option<Address>, destination: Option<Address>) returns (result: Result<()>)
      requires Valid()
      modifies manager.current`lines, manager.current`currentLine, manager.current`modified
      ensures Valid()
      ensures var range := old(Target(address));
        var after := TransferDestination(destination, old(manager.current.currentLine), |old(manager.current.lines)|);
        if range.Fail? || after.Fail? then result.Fail? && unchanged(manager.current)
        else
          && result.Ok?
          && manager.current.lines ==
              With(old(manager.current.lines), after.value, Slice(old(manager.current.lines), range.value))
          && manager.current.currentLine == after.value + range.value.last - range.value.first + 1
          && manager.current.modified
    {
      var buffer := manager.current;
      var range :- Target(address);
      var after :- TransferDestination(destination, buffer.currentLine, |buffer.lines|);
      var copied := CopyLines(buffer, range);
      result := buffer.InsertAfter(after, copied);
    }

    method CopyLines(buffer: Buffer, range: LineRange) returns (copied: seq<string>)
      requires 1 <= range.first <= range.last <= |buffer.lines|
      ensures copied == Slice(buffer.lines, range)
    {
      copied := [];
      var line := range.first;
      while line <= range.last
        invariant range.first <= line <= range.last + 1
        invariant copied == buffer.lines[range.first - 1..line - 1]
      {
        copied := copied + [buffer.lines[line - 1]];
        line := line + 1;
      }
    }

    /** `M`: the destination's content is replaced by the range, which the source loses. */
    method ExecuteMove(address: Option<Address>, bufferName: string) returns (result: Result<()>)
      requires Valid()
      modifies manager, manager.buffers.Values`lines, manager.buffers.Values`currentLine,
               manager.buffers.Values`modified
      ensures Valid()
      ensures result.Ok? == (old(Target(address)).Ok? && 0 < |bufferName| <= MAX_BUFFER_NAME_LENGTH)
      ensures result.Fail? ==> unchanged(manager) && unchanged(set n | n in manager.buffers :: manager.buffers[n])
      ensures result.Ok? ==> var range := old(Target(address)).value; var source := old(manager.current);
        && manager.current == source
        && bufferName in manager.buffers
        && manager.buffers == old(manager.buffers)[bufferName := manager.buffers[bufferName]]
        && (if bufferName in old(manager.buffers) then manager.buffers[bufferName] == old(manager.buffers)[bufferName]
            else fresh(manager.buffers[bufferName]))
        && manager.Texts() == MovedTexts(old(manager.Texts()), source.name, range, bufferName)
        && manager.usageOrder == (if bufferName == source.name then old(manager.usageOrder)
                                  else VisitedAndLeft(old(manager.usageOrder), bufferName, source.name))
    {
      hide Dropped, Distinct, VisitedAndLeft, BufferManager.Texts, BufferManager.Valid, Evaluate;
      manager.Standing();
      var source := manager.current;
      var range :- Target(address);
      var moved := CopyLines(source, range);
      if bufferName == source.name {
        RefillBuffer(source, moved);
        manager.Changed(source);
        return Ok(());
      }
      result := MoveAcross(range, moved, bufferName);
    }

    /** Moves lines out of the current buffer into another one, and returns to the source. */
    method MoveAcross(range: LineRange, moved: seq<string>, bufferName: string) returns (result: Result<()>)
      requires Valid() && bufferName != manager.current.name
      requires 1 <= range.first <= range.last <= |manager.current.lines| && moved == Slice(manager.current.lines, range)
      modifies manager, manager.buffers.Values`lines, manager.buffers.Values`currentLine,
               manager.buffers.Values`modified
      ensures Valid() && result.Ok? == (0 < |bufferName| <= MAX_BUFFER_NAME_LENGTH)
      ensures result.Fail? ==> unchanged(manager) && unchanged(set n | n in manager.buffers :: manager.buffers[n])
      ensures result.Ok? ==> var source := old(manager.current);
        && manager.current == source
        && bufferName in manager.buffers
        && manager.buffers == old(manager.buffers)[bufferName := manager.buffers[bufferName]]
        && (if bufferName in old(manager.buffers) then manager.buffers[bufferName] == old(manager.buffers)[bufferName]
            else fresh(manager.buffers[bufferName]))
        && manager.Texts() == MovedTexts(old(manager.Texts()), source.name, range, bufferName)
        && manager.usageOrder == VisitedAndLeft(old(manager.usageOrder), bufferName, source.name)
    {
      hide Dropped, Distinct, Refilled, VisitedAndLeft, BufferManager.Texts, BufferManager.Valid;
      manager.Standing();
      var _ :- FillOther(moved, bufferName);
      manager.Standing();
      label filled:
      manager.current.Erase(range.first, range.last);
      manager.Changed@filled(manager.current);
      return Ok(());
    }

    /** Makes `lines` the content of another buffer and returns to the current one. */
    method FillOther(lines: seq<string>, bufferName: string) returns (result: Result<()>)
      requires Valid() && bufferName != manager.current.name && manager.current.lines != [] && lines != []
      modifies manager, (manager.buffers.Values - {manager.current})`lines,
               (manager.buffers.Values - {manager.current})`currentLine,
                   (manager.buffers.Values - {manager.current})`modified
      ensures Valid() && result.Ok? == (0 < |bufferName| <= MAX_BUFFER_NAME_LENGTH)
      ensures result.Fail? ==> unchanged(manager) && unchanged(set n | n in manager.buffers :: manager.buffers[n])
      ensures manager.current == old(manager.current)
      ensures result.Ok? ==>
        && bufferName in manager.buffers
        && manager.buffers == old(manager.buffers)[bufferName := manager.buffers[bufferName]]
        && (if bufferName in old(manager.buffers) then manager.buffers[bufferName] == old(manager.buffers)[bufferName]
            else fresh(manager.buffers[bufferName]))
        && manager.Texts() == old(manager.Texts())[bufferName := Refilled(old(manager.Texts()), bufferName, lines)]
        && manager.usageOrder == VisitedAndLeft(old(manager.usageOrder), bufferName, manager.current.name)
    {
      hide Dropped, Distinct;
      var source := manager.current;
      var destination :- EnterOther(bufferName);
      FillAndLeave(destination, source, lines);
      manager.Filed(bufferName, destination);
      return Ok(());
    }

    /** Makes another buffer current; the one that is left holds text and stays. */
    method EnterOther(bufferName: string) returns (result: Result<Buffer>)
      requires Valid() && bufferName != manager.current.name && manager.current.lines != []
      modifies manager
      ensures Valid() && result.Ok? == (0 < |bufferName| <= MAX_BUFFER_NAME_LENGTH)
      ensures result.Fail? ==> unchanged(manager)
      ensures result.Ok? ==>
        && manager.current == result.value && result.value.name == bufferName
        && manager.buffers == old(manager.buffers)[bufferName := result.value]
        && (if bufferName in old(manager.buffers) then result.value == old(manager.buffers)[bufferName]
            else fresh(result.value) && result.value.AsText() == NewText())
        && manager.usageOrder == [bufferName] + Dropped(old(manager.usageOrder), bufferName)
        && result.value !in set n | n in old(manager.buffers) && n != bufferName :: old(manager.buffers)[n]
    {
      assert !manager.IsTransient(manager.current);
      hide Dropped, Distinct, BufferManager.IsTransient;
      result := manager.CreateOrSelect(bufferName);
    }

    method FillAndLeave(destination: Buffer, source: Buffer, lines: seq<string>)
      requires Valid() && destination == manager.current && lines != []
      requires source.name in manager.buffers && manager.buffers[source.name] == source && source != destination
      modifies manager`current, manager`usageOrder, destination`lines, destination`currentLine, destination`modified
      ensures Valid() && manager.current == source
      ensures destination.AsText() ==
              old(destination.AsText()).(lines := lines, currentLine := |lines|, modified := true)
      ensures manager.usageOrder == [source.name] + Dropped(old(manager.usageOrder), source.name)
    {
      hide Dropped, Distinct;
      RefillBuffer(destination, lines);
      var back := manager.Select(source.name);
      assert back.Ok?;
    }

    /** Replaces the whole content of a buffer, line by line. */
    method RefillBuffer(buffer: Buffer, lines: seq<string>)
      requires buffer.Valid() && lines != []
      modifies buffer`lines, buffer`currentLine, buffer`modified
      ensures buffer.Valid() && buffer.lines == lines && buffer.currentLine == |lines| && buffer.modified
    {
      if buffer.lines != [] {
        buffer.Erase(1, |buffer.lines|);
      }
      for k := 0 to |lines|
        invariant buffer.Valid() && buffer.lines == lines[..k]
        invariant k > 0 ==> buffer.currentLine == |buffer.lines| && buffer.modified
      {
        buffer.Append(lines[k]);
      }
    }

    /** `S`: every addressed line with a match is changed; without any, the command fails and changes nothing. */
    method ExecuteSubstitute(address: Option<Address>, p: Pattern, replacement: string, printAfter: bool)
      returns (result: Result<()>)
      requires Valid()
      modifies this`output, this`condition, manager.current`lines, manager.current`currentLine, manager.current`modified
      ensures Valid()
      ensures old(Target(address)).Fail? ==> result.Fail? && condition == old(condition)
      ensures result.Fail? ==> unchanged(manager.current) && output == old(output)
      ensures old(Target(address)).Ok? ==>
        var range := old(Target(address)).value; var before := old(manager.current.lines);
        var last := LastMatch(p, before, range.first, range.last + 1);
        && condition == result.Ok? == last.Some?
        && (result.Ok? ==>
              && manager.current.lines == SubstitutedLines(p, replacement, before, range.first, range.last + 1)
              && manager.current.modified == (old(manager.current.modified) || manager.current.lines != before)
              && manager.current.currentLine == last.value
              && output == old(output) + if printAfter then manager.current.lines[last.value - 1] + "\n" else "")
      ensures old(Target(address)).Ok? ==>
        Effect(OnDesk(), result.Ok?) == SubstituteWork(old(OnDesk()), old(Target(address)).value, p, replacement,
                                                       printAfter)
    {
      hide SubstitutedLines, LastMatch, Evaluate, HasMatch, ExecutionContext.Valid;
      var range :- Target(address);
      result := SubstituteAt(range, p, replacement, printAfter);
    }

    /** `S` on a range of lines. */
    method SubstituteAt(range: LineRange, p: Pattern, replacement: string, printAfter: bool)
      returns (result: Result<()>)
      requires Valid() && 1 <= range.first <= range.last <= |manager.current.lines|
      modifies this`output, this`condition, manager.current`lines, manager.current`currentLine, manager.current`modified
      ensures Valid() && (result.Fail? ==> unchanged(manager.current))
      ensures Effect(OnDesk(), result.Ok?) == SubstituteWork(old(OnDesk()), range, p, replacement, printAfter)
    {
      hide ExecutionContext.Valid, SubstitutedLines, LastMatch;
      var lastChanged := SubstituteAndGo(range, p, replacement);
      condition := lastChanged.Some?;
      if lastChanged.None? {
        return Fail;
      }
      if printAfter {
        WriteLine(manager.current.lines[lastChanged.value - 1]);
      }
      assert output == old(output) + if printAfter then manager.current.lines[lastChanged.value - 1] + "\n" else "";
      return Ok(());
    }

    /** Substitutes in a range of the current buffer, and goes to the last line that was changed. */
    method SubstituteAndGo(range: LineRange, p: Pattern, replacement: string) returns (lastChanged: Option<nat>)
      requires Valid() && 1 <= range.first <= range.last <= |manager.current.lines|
      modifies manager.current`lines, manager.current`currentLine, manager.current`modified
      ensures Valid()
      ensures var before := old(manager.current.lines);
        && lastChanged == LastMatch(p, before, range.first, range.last + 1)
        && (lastChanged.None? ==> unchanged(manager.current))
        && (lastChanged.Some? ==>
              && manager.current.lines == SubstitutedLines(p, replacement, before, range.first, range.last + 1)
              && manager.current.currentLine == lastChanged.value
              && manager.current.modified == (old(manager.current.modified) || manager.current.lines != before))
    {
      hide SubstitutedLines, LastMatch;
      lastChanged := SubstituteRange(manager.current, range, p, replacement);
      if lastChanged.Some? {
        manager.current.SetCurrentLine(lastChanged.value);
      }
    }

    /** Substitutes in each line of a range; the result is the last line that was changed. */
    method SubstituteRange(buffer: Buffer, range: LineRange, p: Pattern, replacement: string)
      returns (lastChanged: Option<nat>)
      requires buffer.Valid() && 1 <= range.first <= range.last <= |buffer.lines|
      modifies buffer`lines, buffer`currentLine, buffer`modified
      ensures buffer.Valid()
      ensures lastChanged == LastMatch(p, old(buffer.lines), range.first, range.last + 1)
      ensures lastChanged == None ==> unchanged(buffer)
      ensures buffer.lines == SubstitutedLines(p, replacement, old(buffer.lines), range.first, range.last + 1)
      ensures buffer.modified == (old(buffer.modified) || buffer.lines != old(buffer.lines))
    {
      hide SubstitutedLines, Substituted, HasMatch;
      lastChanged := None;
      ghost var before := buffer.lines;
      var line := range.first;
      NothingSubstituted(p, replacement, before, range.first);
      while line <= range.last
        invariant range.first <= line <= range.last + 1
        invariant buffer.Valid()
        invariant buffer.lines == SubstitutedLines(p, replacement, before, range.first, line)
        invariant buffer.modified == (old(buffer.modified) || buffer.lines != before)
        invariant lastChanged == LastMatch(p, before, range.first, line)
        invariant lastChanged == None ==> unchanged(buffer)
      {
        SubstitutedLinesStep(p, replacement, before, range.first, line);
        var replaced := SubstituteAll(p, replacement, buffer.lines[line - 1]);
        if replaced.Some? {
          StillChanged(before, buffer.lines, line - 1, replaced.value);
          buffer.Replace(line, replaced.value);
          lastChanged := Some(line);
        }
        line := line + 1;
      }
    }

    method ExecuteZap(address: Option<Address>) returns (result: Result<()>)
      requires Valid()
      modifies manager.current`currentLine
      ensures Valid()
      ensures var range := old(Target(address));
        if range.Ok? && range.value.first == range.value.last
        then result.Ok? && manager.current.currentLine == range.value.first
        else result.Fail? && manager.current.currentLine == old(manager.current.currentLine)
    {
      var range :- Target(address);
      if range.first != range.last {
        return Fail;
      }
      manager.current.SetCurrentLine(range.first);
      return Ok(());
    }

    /** The lines that `G` visits: all of them by default. */
    function GlobalTarget(address: Option<Address>): (range: Result<LineRange>)
      reads manager, manager.current
      ensures range.Ok? ==> 1 <= range.value.first <= range.value.last <= |manager.current.lines|
    {
      GlobalRange(address, manager.current.currentLine, |manager.current.lines|)
    }

    /** `G`: runs a nested command on each selected line while the buffer changes under the loop. */
    method ExecuteGlobal(address: Option<Address>, p: Pattern, inverted: bool, nested: Command)
      returns (result: Result<()>)
      requires Valid()
      modifies this`output, this`condition, this`counter,
               manager.current`lines, manager.current`currentLine, manager.current`modified
      ensures Valid()
      ensures Effect(OnDesk(), result.Ok?) == GlobalWork(old(OnDesk()), address, p, inverted, nested)
      ensures var target := old(GlobalTarget(address));
        if target.Fail? || !IsNestable(nested) then
          result.Fail? && unchanged(manager.current) && output == old(output) && counter == old(counter)
        else
          var before := old(manager.current.lines);
          var range := Slice(before, target.value);
          var processed := Processed(p, inverted, nested, range);
          && result.Ok? == processed.Ok?
          && (result.Ok? ==>
                && manager.current.lines ==
                    before[..target.value.first - 1] + processed.value + before[target.value.last..]
                && output == old(output) + ProcessedOutput(p, inverted, nested, range)
                && counter == SelectedCount(p, inverted, range))
    {
      hide Processed, ProcessedOutput, SelectedCount, Evaluate, IsNestable, Visited, GlobalRange, Slice;
      var range :- GlobalTarget(address);
      if !IsNestable(nested) {
        return Fail;
      }
      VisitedIsProcessed(OnDesk(), p, inverted, nested, range);
      var selectedCount :- VisitRange(range, p, inverted, nested);
      counter := selectedCount;
      return Ok(());
    }

    /** The loop of `G`; the result is how many lines were selected. */
    method VisitRange(range: LineRange, p: Pattern, inverted: bool, nested: Command) returns (selected: Result<nat>)
      requires Valid() && IsNestable(nested) && 1 <= range.first <= range.last <= |manager.current.lines|
      modifies this`output, this`condition,
               manager.current`lines, manager.current`currentLine, manager.current`modified
      ensures Valid()
      ensures Visited(old(OnDesk()), p, inverted, nested, range.first, range.last, 0) ==
              if selected.Ok? then Effect(OnDesk().(counter := selected.value), true) else Effect(OnDesk(), false)
    {
      hide IsNestable, Visited;
      var selectedCount := 0;
      var line: nat := range.first;
      var last: nat := range.last;
      while line <= last && manager.current.lines != []
        invariant Valid() && 1 <= line && last <= |manager.current.lines|
        invariant Visited(OnDesk(), p, inverted, nested, line, last, selectedCount) ==
                  Visited(old(OnDesk()), p, inverted, nested, range.first, range.last, 0)
        decreases last + 1 - line
      {
        var visited :- VisitLine(nested, line, last, p, inverted, selectedCount);
        selectedCount := selectedCount + if visited.0 then 1 else 0;
        line, last := visited.1, visited.2;
      }
      VisitedAll(OnDesk(), p, inverted, nested, line, last, selectedCount);
      return Ok(selectedCount);
    }

    /** Tests one line and runs the nested command if it is selected; returns whether it was, the
      next line to visit and the last one. */
    method VisitLine(nested: Command, line: nat, last: nat, p: Pattern, inverted: bool, ghost count: nat)
      returns (visited: Result<(bool, nat, nat)>)
      requires Valid() && IsNestable(nested) && 1 <= line <= last <= |manager.current.lines|
      modifies this`output, this`condition, manager.current`lines, manager.current`currentLine, manager.current`modified
      ensures Valid()
      ensures visited.Ok? ==>
        && visited.value.1 >= 1 && visited.value.2 <= |manager.current.lines|
        && visited.value.2 - visited.value.1 == last - line - 1
      ensures Visited(old(OnDesk()), p, inverted, nested, line, last, count) ==
              if visited.Fail? then Effect(OnDesk(), false)
              else Visited(OnDesk(), p, inverted, nested, visited.value.1, visited.value.2,
                           if visited.value.0 then count + 1 else count)
    {
      hide ExecutionContext.Valid, Worked, Visited, Selected;
      VisitedUnfolds(OnDesk(), p, inverted, nested, line, last, count);
      var selected := IsSelected(p, inverted, manager.current.lines[line - 1]);
      if !selected {
        return Ok((false, line + 1, last));
      }
      var worked := RunSelected(nested, line);
      if worked.Fail? {
        return Fail;
      }
      if nested.Delete? {
        return Ok((true, line, last - 1));
      }
      return Ok((true, line + 1, last));
    }

    method IsSelected(p: Pattern, inverted: bool, text: string) returns (selected: bool)
      ensures selected == Selected(p, inverted, text)
    {
      var patternFound := Search(p, text);
      return if inverted then !patternFound else patternFound;
    }

    /** Goes to a selected line and runs the nested command there. */
    method RunSelected(nested: Command, line: nat) returns (worked: Result<()>)
      requires Valid() && IsNestable(nested) && 1 <= line <= |manager.current.lines|
      modifies this`output, this`condition, manager.current`lines, manager.current`currentLine, manager.current`modified
      ensures Valid()
      ensures Effect(OnDesk(), worked.Ok?) == Worked(old(OnDesk()).(currentLine := line), nested)
    {
      hide Worked, SubstituteWork;
      var buffer := manager.current;
      buffer.SetCurrentLine(line);
      WorkedHere(OnDesk(), nested);
      match nested
      case Print(_) =>
        WriteLine(buffer.lines[line - 1]);
        return Ok(());
      case Zap(_) =>
        return Ok(());
      case Substitute(_, pattern, replacement, printAfter) =>
        assert Target(None) == Ok(LineRange(line, line));
        worked := ExecuteSubstitute(None, pattern, replacement, printAfter);
      case Delete(_) =>
        buffer.Erase(line, line);
        return Ok(());
    }
  }
}
