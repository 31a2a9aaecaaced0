/** The whole editor: every command refines its meaning on states, and what every run of commands keeps. */
module Editor {
  import opened Outcomes
  import opened Limits
  import opened Addresses
  import opened TextFiles
  import opened Buffers
  import opened Executor
  import opened LineCommands
  import opened FileCommands
  import opened Captures
  import opened Semantics
  import opened Sessions
  import opened Numbers
  import opened Sequences

  // ---------------------------------------------------------------- what changed

  lemma {:induction false} InEditor(context: ExecutionContext)
    requires context.Valid()
    ensures context.manager.Valid() && context.manager.current.Valid()
    ensures context.manager.current in context.manager.buffers.Values
    ensures context.manager.current.currentLine <= |context.manager.current.lines|
    ensures DeskOf(Now(context)) == context.OnDesk()
  {
  }

  /** Only the current buffer changed. */
  twostate lemma OnlyCurrentChanged(context: ExecutionContext)
    requires old(context.Valid()) && unchanged(context.manager) && context.manager.current.Valid()
    requires forall b :: b in context.manager.buffers.Values && b != context.manager.current ==>
             b.AsText() == old(b.AsText())
    ensures context.Valid()
    ensures Now(context).texts ==
            old(Now(context)).texts[context.manager.current.name := context.manager.current.AsText()]
    ensures context.manager.current.AsText() == old(context.manager.current.AsText()) ==>
            Now(context).texts == old(Now(context)).texts
  {
    context.manager.Changed(context.manager.current);
  }

  /** Only the current buffer's lines changed, and what else commands on lines work with. */
  twostate lemma OnlyLinesChanged(context: ExecutionContext)
    requires old(context.Valid()) && unchanged(context.manager) && context.manager.current.Valid()
    requires forall b :: b in context.manager.buffers.Values && b != context.manager.current ==>
             b.AsText() == old(b.AsText())
    requires SavedAlike(old(context.manager.current.AsText()), context.manager.current.AsText())
    requires unchanged(context`numericRegisters, context`inputParenthesesRequired, context`monitorCommands,
                       context`exitRequested, context`immediateExit, context`files)
    ensures context.Valid() && old(context.OnDesk()) == DeskOf(old(Now(context)))
    ensures IsSound(context.OnDesk(), Here(old(Now(context))).saved)
    ensures Now(context) == Placed(old(Now(context)), context.OnDesk())
  {
    OnlyCurrentChanged(context);
  }

  /** Only what buffers hold changed. */
  twostate lemma OnlyBuffersChanged(context: ExecutionContext)
    requires old(context.Valid()) && context.Valid() && unchanged(context)
    requires unchanged(context.manager`current, context.manager`usageOrder)
    ensures old(Now(context)).texts == old(context.manager.Texts())
    ensures Now(context) == old(Now(context)).(texts := context.manager.Texts())
  {
  }

  // ---------------------------------------------------------------- commands on the whole editor

  /** `Q` refuses to leave while some buffer has unsaved text; `QQ` does not look. */
  method ExecuteQuit(context: ExecutionContext, immediate: bool) returns (result: Result<()>)
    requires context.Valid()
    modifies context`exitRequested, context`immediateExit
    ensures context.Valid() && Effect(Now(context), result.Ok?) == Quitting(old(Now(context)), immediate)
    ensures result.Ok? == (immediate || forall n :: n in context.manager.buffers ==>
                           !context.manager.buffers[n].modified)
    ensures result.Fail? ==> unchanged(context)
    ensures result.Ok? ==> context.exitRequested && context.immediateExit == immediate
    ensures result.Ok? && !immediate ==> AllSaved(Now(context))
  {
    hide ExecutionContext.Valid, AreConsistent, AnyModified, BufferManager.Texts, BufferManager.Valid;
    Modified(context);
    if !immediate {
      var clean := context.manager.NothingModified();
      if !clean {
        return Fail;
      }
    }
    context.exitRequested, context.immediateExit := true, immediate;
    return Ok(());
  }

  /** Whether any buffer is modified, and what it means if none is. */
  lemma {:induction false} Modified(context: ExecutionContext)
    requires context.Valid()
    ensures AnyModified(Now(context).texts) ==
            exists n :: n in context.manager.buffers && context.manager.buffers[n].modified
    ensures !AnyModified(Now(context).texts) ==> AllSaved(Now(context))
    ensures context.manager.Valid()
  {
    var texts := Now(context).texts;
    forall n | n in context.manager.buffers ensures texts[n] == context.manager.buffers[n].AsText() {
    }
  }

  /** `B`: the short form is refused while parentheses are required. */
  method ExecuteBuffer(context: ExecutionContext, name: string, shortForm: bool) returns (result: Result<()>)
    requires context.Valid()
    modifies context.manager
    ensures context.Valid()
    ensures Effect(Now(context), result.Ok?) == Selecting(old(Now(context)), name, shortForm)
    ensures result.Ok? == (!(shortForm && context.inputParenthesesRequired) && 0 < |name| <= MAX_BUFFER_NAME_LENGTH)
    ensures result.Fail? ==> unchanged(context.manager)
    ensures result.Ok? ==> context.manager.current.name == name
    ensures fresh(context.manager.buffers.Values - old(context.manager.buffers.Values))
  {
    hide ExecutionContext.Valid, SelectedState;
    if shortForm && context.inputParenthesesRequired {
      return Fail;
    }
    result := Select(context, name);
  }

  /** Selects a buffer, creating it if needed. */
  method Select(context: ExecutionContext, name: string) returns (result: Result<()>)
    requires context.Valid()
    modifies context.manager
    ensures context.Valid() && Effect(Now(context), result.Ok?) == SelectedState(old(Now(context)), name)
    ensures result.Ok? == (0 < |name| <= MAX_BUFFER_NAME_LENGTH)
    ensures result.Fail? ==> unchanged(context.manager)
    ensures result.Ok? ==> context.manager.current.name == name
    ensures fresh(context.manager.buffers.Values - old(context.manager.buffers.Values))
  {
    hide Dropped, Distinct, BufferManager.Valid, BufferManager.Texts, BufferManager.IsTransient, AreConsistent;
    InEditor(context);
    var manager := context.manager;
    ghost var left := manager.current;
    TransientText(manager, left);
    manager.TextOfEach();
    ghost var dropped := if left.name != name && manager.IsTransient(left) then {left.name} else {};
    var selected :- manager.CreateOrSelect(name);
    Reselected(manager, name, dropped, old(manager.buffers), old(manager.Texts()));
    return Ok(());
  }

  lemma {:induction false} TransientText(manager: BufferManager, buffer: Buffer)
    ensures manager.IsTransient(buffer) == IsTransientText(buffer.name, buffer.AsText())
  {
  }

  /** One buffer was selected, and some were dropped; the others hold what they held. */
  lemma {:induction false} Reselected(manager: BufferManager, name: string, dropped: set<string>,
                                      before: map<string, Buffer>, texts: map<string, Text>)
    requires manager.buffers == before[name := manager.current] - dropped && before.Keys == texts.Keys
    requires if name in before then manager.current == before[name] else manager.current.AsText() == NewText()
    requires forall n :: n in before ==> before[n].AsText() == texts[n]
    ensures manager.Texts() == texts[name := if name in texts then texts[name] else NewText()] - dropped
    ensures dropped == {} ==> manager.Texts() == texts[name := if name in texts then texts[name] else NewText()]
  {
  }

  method ExecuteMessage(context: ExecutionContext, text: string, newline: bool) returns (result: Result<()>)
    modifies context`output
    ensures result.Ok? == (|text| <= MAX_MESSAGE_LENGTH)
    ensures context.output == old(context.output) + if result.Fail? then "" else if newline then text + "\n" else text
  {
    if |text| > MAX_MESSAGE_LENGTH {
      return Fail;
    }
    if newline {
      context.WriteLine(text);
    } else {
      context.output := context.output + text;
    }
    return Ok(());
  }

  // ---------------------------------------------------------------- ZG

  /** Puts captured lines into a buffer: as its content if it is empty, else after its current line. */
  method Gather(context: ExecutionContext, bufferName: string, lines: seq<string>) returns (result: Result<()>)
    requires context.Valid() && lines != []
    modifies context.manager`buffers, context.manager.buffers.Values`lines, context.manager.buffers.Values`currentLine,
             context.manager.buffers.Values`modified
    ensures context.Valid() && Effect(Now(context), result.Ok?) == GatheredState(old(Now(context)), bufferName, lines)
    ensures fresh(context.manager.buffers.Values - old(context.manager.buffers.Values))
    ensures result.Ok? == (0 < |bufferName| <= MAX_BUFFER_NAME_LENGTH)
    ensures result.Fail? ==> unchanged(context.manager) && unchanged(context.manager.buffers.Values)
  {
    hide ExecutionContext.Valid, BufferManager.Valid, BufferManager.Texts, Now, With, IsConsistent, SavesNothing;
    IntoNothing(lines);
    context.manager.TextOfEach();
    OnlyBuffersChanged(context);
    var destination :- FindDestination(context, bufferName);
    ghost var before := destination.AsText();
    Deliver(context, destination, lines);
    Overwritten(old(context.manager.Texts()), bufferName, before, destination.AsText());
    OnlyBuffersChanged(context);
    return Ok(());
  }

  lemma {:induction false} Overwritten(texts: map<string, Text>, name: string, before: Text, after: Text)
    ensures texts[name := before][name := after] == texts[name := after]
  {
  }

  lemma {:induction false} IntoNothing(lines: seq<string>)
    ensures With([], 0, lines) == lines
  {
  }

  /** Finds or creates a buffer without selecting it. */
  method FindDestination(context: ExecutionContext, name: string) returns (result: Result<Buffer>)
    requires context.Valid()
    modifies context.manager`buffers
    ensures context.Valid() && result.Ok? == (0 < |name| <= MAX_BUFFER_NAME_LENGTH)
    ensures result.Fail? ==> unchanged(context.manager)
    ensures fresh(context.manager.buffers.Values - old(context.manager.buffers.Values))
    ensures result.Ok? ==>
      && result.value.name == name && result.value in context.manager.buffers.Values
      && context.manager.buffers == old(context.manager.buffers)[name := result.value]
      && (name in old(context.manager.buffers) ==> result.value == old(context.manager.buffers)[name])
      && (name !in old(context.manager.buffers) ==> fresh(result.value))
      && result.value.AsText() ==
          (if name in old(context.manager.buffers) then old(context.manager.Texts())[name] else NewText())
      && context.manager.Texts() == old(context.manager.Texts())[name := result.value.AsText()]
  {
    result := context.manager.GetOrCreate(name);
    if result.Ok? {
      context.manager.Filed(name, result.value);
    }
  }

  /** Lines become the content of an empty buffer, or go after the current line of another one. */
  method Deliver(context: ExecutionContext, destination: Buffer, lines: seq<string>)
    requires context.Valid() && destination in context.manager.buffers.Values && lines != []
    modifies destination`lines, destination`currentLine, destination`modified
    ensures context.Valid() && destination.modified
    ensures destination.lines ==
            old(With(destination.lines, if destination.lines == [] then 0 else destination.currentLine, lines))
    ensures destination.currentLine == |lines| + if old(destination.lines) == [] then 0
                                                 else old(destination.currentLine)
    ensures context.manager.Texts() == old(context.manager.Texts())[destination.name := destination.AsText()]
  {
    hide BufferManager.Texts;
    assert destination.Valid();
    if destination.lines == [] {
      IntoNothing(lines);
      context.RefillBuffer(destination, lines);
    } else {
      var inserted := destination.InsertAfter(destination.currentLine, lines);
      assert inserted.Ok?;
    }
    hide BufferManager.Valid;
    context.manager.Changed(destination);
  }

  // ---------------------------------------------------------------- listings and the shell

  /** `L`: lists a file's lines; only the form with a file name works. */
  method ExecuteList(context: ExecutionContext, filename: Option<string>) returns (result: Result<()>)
    modifies context`output
    ensures result.Ok? == (filename.Some? && filename.value in context.files)
    ensures context.output ==
            old(context.output) + if result.Ok? then PrintedLines(CapturedLines(context.files[filename.value])) else ""
  {
    if filename.None? || filename.value !in context.files {
      return Fail;
    }
    PrintAll(context, CapturedLines(context.files[filename.value]));
    return Ok(());
  }

  method PrintAll(context: ExecutionContext, lines: seq<string>)
    modifies context`output
    ensures context.output == old(context.output) + PrintedLines(lines)
  {
    hide PrintedLines;
    NothingPrinted(context.output);
    for k := 0 to |lines|
      invariant context.output == old(context.output) + PrintedLines(lines[..k])
    {
      PrintedStep(lines, k, old(context.output));
      context.WriteLine(lines[k]);
    }
    assert lines[..|lines|] == lines;
  }

  /** One line about a buffer. */
  function Description(buffer: Buffer): (description: string)
    reads buffer
    ensures description == DescriptionOf(buffer.name, buffer.AsText())
  {
    "b(" + buffer.name + ") " + Decimal(buffer.currentLine) + "," + Decimal(|buffer.lines|)
    + (if buffer.associatedFile.Some? then " " + buffer.associatedFile.value else "")
    + (if buffer.modified then " ?" else "")
  }

  /** The lines of a listing of the named buffers. */
  function Descriptions(manager: BufferManager, names: seq<string>): (descriptions: seq<string>)
    requires forall n :: n in names ==> n in manager.buffers && manager.buffers[n].name == n
    reads manager, manager.buffers.Values
    ensures descriptions == Described(manager.Texts(), names)
  {
    if names == [] then [] else [Description(manager.buffers[names[0]])] + Descriptions(manager, names[1..])
  }

  /** What `FO` and `FB` show: the options, or the recently used buffers. */
  function FactsShown(context: ExecutionContext, ofBuffers: bool): seq<string>
    requires context.Valid()
    reads context`inputParenthesesRequired, context`monitorCommands, context.manager, context.manager.buffers.Values
  {
    if ofBuffers then Descriptions(context.manager, context.manager.usageOrder)
    else [if context.inputParenthesesRequired then "o+i(" else "o-i(", if context.monitorCommands then "o+m" else "o-m"]
  }

  /** `FO` shows the options, `FB` the recently used buffers. */
  method ExecuteFacts(context: ExecutionContext, ofBuffers: bool)
    requires context.Valid()
    modifies context`output
    ensures context.output == old(context.output) + PrintedLines(FactsShown(context, ofBuffers))
  {
    hide ExecutionContext.Valid, PrintedLines, Descriptions;
    if ofBuffers {
      PrintAll(context, FactsShown(context, true));
    } else {
      PrintAll(context, FactsShown(context, false));
    }
  }

  /** `!`: the shell's output goes to the output, and its success to the condition. */
  method ExecuteSystem(context: ExecutionContext, line: string)
    modifies context`output, context`condition
    ensures context.output == old(context.output) + context.shell(line).0 && context.condition == context.shell(line).1
  {
    context.output := context.output + context.shell(line).0;
    context.condition := context.shell(line).1;
  }

  // ---------------------------------------------------------------- dispatch

  /** Runs one parsed command: the editor ends in the state that the command's meaning gives. */
  method Execute(context: ExecutionContext, command: Command) returns (result: Result<()>)
    requires context.Valid()
    modifies context, context.manager, context.manager.buffers.Values
    ensures context.Valid() && Effect(Now(context), result.Ok?) == Performed(old(Now(context)), command)
    ensures fresh(context.manager.buffers.Values - old(context.manager.buffers.Values))
    decreases command, 0
  {
    hide ExecutionContext.Valid, OnLines, Plain, Selecting, Quitting, ReadIn, WrittenOut, MovedState, Gathering,
         IsConsistent, Now, Performed, Silenced;
    PerformedIs(Now(context), command);
    InEditor(context);
    if IsPlainCommand(command) {
      result := ExecutePlain(context, command);
    } else if IsLineCommand(command) {
      result := ExecuteLineCommand(context, command);
    } else if command.ZapGather? {
      result := ExecuteZapGather(context, command.bufferName, command.nested);
    } else if command.Quit? {
      result := ExecuteQuit(context, command.immediate);
    } else if command.SelectBuffer? {
      result := ExecuteBuffer(context, command.name, command.shortForm);
    } else if command.Read? {
      result := ReadFileIn(context, command.readAddress, command.filename);
    } else if command.Write? {
      result := WriteFileOut(context, command.writeAddress, command.filename, command.mode);
    } else if command.Move? {
      result := MoveLines(context, command.address, command.bufferName);
    } else {
      result := Fail;
    }
  }

  method ExecutePlain(context: ExecutionContext, command: Command) returns (result: Result<()>)
    requires context.Valid() && IsPlainCommand(command)
    modifies context`output, context`condition, context`inputParenthesesRequired, context`monitorCommands
    ensures context.Valid() && Effect(Now(context), result.Ok?) == Plain(old(Now(context)), command)
  {
    hide ExecutionContext.Valid, Now, Told, PrintedLines, CapturedLines, FactLines, FactsShown, IsConsistent,
         SavesNothing;
    Registers(context);
    match command {
      case Comment(_) =>
        OnlyTold(context, "");
        return Ok(());
      case InputParenthesis(enabled) =>
        context.inputParenthesesRequired := enabled;
        OnlyTold(context, "");
        return Ok(());
      case Monitor(enabled) =>
        context.monitorCommands := enabled;
        OnlyTold(context, "");
        return Ok(());
      case System(line) =>
        ExecuteSystem(context, line);
        OnlyTold(context, context.shell(line).0);
        return Ok(());
      case _ => result := ExecuteShow(context, command);
    }
  }

  /** The commands that only write. */
  method ExecuteShow(context: ExecutionContext, command: Command) returns (result: Result<()>)
    requires context.Valid() && (command.Message? || command.List? || command.Facts?)
    modifies context`output
    ensures context.Valid() && Effect(Now(context), result.Ok?) == Plain(old(Now(context)), command)
  {
    hide ExecutionContext.Valid, Now, Told, PrintedLines, CapturedLines, FactLines, FactsShown, IsConsistent,
         SavesNothing;
    Registers(context);
    match command
    case Message(text, newline) =>
      result := ExecuteMessage(context, text, newline);
      OnlyTold(context, if result.Fail? then "" else if newline then text + "\n" else text);
    case List(filename) =>
      result := ExecuteList(context, filename);
      OnlyTold(context, if result.Ok? then PrintedLines(CapturedLines(context.files[filename.value])) else "");
    case Facts(ofBuffers) =>
      FactsAreShown(context, ofBuffers);
      ExecuteFacts(context, ofBuffers);
      OnlyTold(context, PrintedLines(FactsShown(context, ofBuffers)));
      return Ok(());
  }

  lemma {:induction false} Registers(context: ExecutionContext)
    requires context.Valid()
    ensures var state := Now(context);
      && state.condition == context.condition && state.files == context.files && state.shell == context.shell
      && state.parentheses == context.inputParenthesesRequired && state.monitored == context.monitorCommands
  {
  }

  /** All that happened is more output, and registers and options that no text depends on. */
  twostate lemma OnlyTold(context: ExecutionContext, new text: string)
    requires old(context.Valid()) && unchanged(context.manager)
    requires forall b :: b in context.manager.buffers.Values ==> unchanged(b)
    requires unchanged(context`numericRegisters, context`counter, context`exitRequested, context`immediateExit,
                       context`files)
    requires context.output == old(context.output) || text != ""
    requires text != "" ==> context.output == old(context.output) + text
    ensures context.Valid()
    ensures Now(context) ==
            Told(old(Now(context)), text, context.condition, context.inputParenthesesRequired, context.monitorCommands)
  {
    context.manager.Same();
    assert old(context.output) + "" == old(context.output);
  }

  lemma {:induction false} FactsAreShown(context: ExecutionContext, ofBuffers: bool)
    requires context.Valid()
    ensures FactsShown(context, ofBuffers) == FactLines(Now(context), ofBuffers)
  {
    hide Descriptions, Described;
  }

  method MoveLines(context: ExecutionContext, address: Option<Address>, bufferName: string) returns (result: Result<()>)
    requires context.Valid()
    modifies context.manager, context.manager.buffers.Values`lines, context.manager.buffers.Values`currentLine,
             context.manager.buffers.Values`modified
    ensures context.Valid() && Effect(Now(context), result.Ok?) == MovedState(old(Now(context)), address, bufferName)
    ensures fresh(context.manager.buffers.Values - old(context.manager.buffers.Values))
  {
    hide ExecutionContext.Valid, Evaluate, VisitedAndLeft, BufferManager.Texts, MovedTexts, AreConsistent, SavesNothing;
    InEditor(context);
    result := context.ExecuteMove(address, bufferName);
    if result.Ok? {
      NothingElse(old(context.manager.buffers), bufferName, context.manager.buffers[bufferName],
                  context.manager.buffers);
    } else {
      context.manager.Same();
    }
  }

  lemma {:induction false} NothingElse(before: map<string, Buffer>, name: string, buffer: Buffer,
                                       after: map<string, Buffer>)
    requires after == before[name := buffer]
    ensures after.Values <= before.Values + {buffer}
  {
  }

  method ReadFileIn(context: ExecutionContext, address: Option<Address>, filename: Option<string>)
    returns (result: Result<()>)
    requires context.Valid()
    modifies context`counter, context`condition, context.manager.current
    ensures context.Valid() && Effect(Now(context), result.Ok?) == ReadIn(old(Now(context)), address, filename)
  {
    hide ExecutionContext.Valid, BufferManager.Valid, BufferManager.Texts, ReadText, AreConsistent, SavesNothing;
    InEditor(context);
    result := ExecuteRead(context, address, filename);
    InEditor(context);
    OnlyCurrentChanged(context);
  }

  method WriteFileOut(context: ExecutionContext, address: Option<Address>, filename: Option<string>, mode: WriteMode)
    returns (result: Result<()>)
    requires context.Valid()
    modifies context`files, context`counter, context`condition, context.manager.current
    ensures context.Valid() &&
            Effect(Now(context), result.Ok?) == WrittenOut(old(Now(context)), address, filename, mode)
  {
    hide Written, WriteTarget, Representable, WriteEncoding, ChosenFile;
    result := ExecuteWrite(context, address, filename, mode);
    OnlyCurrentChanged(context);
  }

  /** The commands that change no more than the current buffer's lines. */
  method ExecuteLineCommand(context: ExecutionContext, command: Command) returns (result: Result<()>)
    requires context.Valid() && IsLineCommand(command)
    modifies context`output, context`condition, context`counter, context.manager.current`lines,
             context.manager.current`currentLine, context.manager.current`modified
    ensures context.Valid() && Effect(Now(context), result.Ok?) == OnLines(old(Now(context)), command)
    ensures
      var buffer := old(context.manager.current);
      var edited := Edited(command, old(buffer.lines), old(buffer.currentLine));
      && context.manager.current == buffer && result.Ok? == edited.Ok?
      && (if result.Ok? then buffer.lines == edited.value else command.Global? || buffer.lines == old(buffer.lines))
  {
    hide ExecutionContext.Valid, BufferManager.Valid, Now, DeskOf, LineWork, Edited, IsLineCommand, Placed,
         IsConsistent, SavesNothing;
    InEditor(context);
    WorkIsEdited(context.OnDesk(), command);
    result := ExecuteOnLines(context, command);
    InEditor(context);
    OnlyLinesChanged(context);
  }

  method ExecuteOnLines(context: ExecutionContext, command: Command) returns (result: Result<()>)
    requires context.Valid() && IsLineCommand(command)
    modifies context`output, context`condition, context`counter, context.manager.current`lines,
             context.manager.current`currentLine, context.manager.current`modified
    ensures context.Valid() && Effect(context.OnDesk(), result.Ok?) == LineWork(old(context.OnDesk()), command)
  {
    hide ExecutionContext.Valid, GlobalWork, Processed, ProcessedOutput, SelectedCount, Evaluate, Without, With,
         TransferDestination, PrintedLines, SubstituteWork;
    match command
    case Print(address) => result := context.ExecutePrint(address);
    case Delete(address) => result := context.ExecuteDelete(address);
    case Transfer(address, destination) => result := context.ExecuteTransfer(address, destination);
    case Zap(address) => result := context.ExecuteZap(address);
    case Substitute(address, pattern, replacement, printAfter) =>
      result := context.ExecuteSubstitute(address, pattern, replacement, printAfter);
    case Global(address, pattern, inverted, nested) => result := context.ExecuteGlobal(address, pattern, inverted,
            nested);
  }

  /** `ZG`: runs a command with its output captured, and gathers what it wrote. */
  method ExecuteZapGather(context: ExecutionContext, bufferName: string, nested: Command) returns (result: Result<()>)
    requires context.Valid()
    modifies context, context.manager, context.manager.buffers.Values
    ensures context.Valid()
    ensures Effect(Now(context), result.Ok?) ==
            Gathering(old(Now(context)), bufferName, Performed(Silenced(old(Now(context))), nested))
    ensures fresh(context.manager.buffers.Values - old(context.manager.buffers.Values))
    ensures context.output == old(context.output)
    decreases nested, 1
  {
    hide ExecutionContext.Valid, CapturedLines, Performed, BufferManager.Texts, AreConsistent, GatheredState;
    var previous := context.output;
    context.output := "";
    assert Now(context) == Silenced(old(Now(context)));
    var executed := Execute(context, nested);
    var captured := context.output;
    context.output := previous;
    if executed.Fail? {
      return Fail;
    }
    var lines := CapturedLines(captured);
    if lines == [] {
      return Ok(());
    }
    result := Gather(context, bufferName, lines);
  }

  // ---------------------------------------------------------------- runs

  /** Runs one input; the text commands take its lines. */
  method ExecuteInput(context: ExecutionContext, input: Input) returns (result: Result<()>)
    requires context.Valid()
    modifies context, context.manager, context.manager.buffers.Values
    ensures context.Valid() && Effect(Now(context), result.Ok?) == Executed(old(Now(context)), input)
    ensures KeepsText(old(Now(context)), Now(context)) && LeavesSafely(old(Now(context)), Now(context))
    ensures fresh(context.manager.buffers.Values - old(context.manager.buffers.Values))
  {
    hide ExecutionContext.Valid, Now, KeepsText, LeavesSafely, IsConsistent, Typed, Performed;
    ExecutedKeepsText(Now(context), input);
    ExecutedLeavesSafely(Now(context), input);
    InEditor(context);
    if IsTextCommand(input.command) {
      result := ExecuteText(context, input);
    } else {
      result := Execute(context, input.command);
    }
  }

  /** `A`, `I` and `C` with the lines typed for them. */
  method ExecuteText(context: ExecutionContext, input: Input) returns (result: Result<()>)
    requires context.Valid() && IsTextCommand(input.command)
    modifies context.manager.current`lines, context.manager.current`currentLine, context.manager.current`modified
    ensures context.Valid() && Effect(Now(context), result.Ok?) == Typed(old(Now(context)), input.command, input.lines)
  {
    hide ExecutionContext.Valid, BufferManager.Valid, Now, DeskOf, TypedWork, Placed, IsConsistent, SavesNothing;
    InEditor(context);
    result := ExecuteTyped(context, input.command, input.lines);
    InEditor(context);
    OnlyLinesChanged(context);
  }

  method ExecuteTyped(context: ExecutionContext, command: Command, lines: seq<string>) returns (result: Result<()>)
    requires context.Valid() && IsTextCommand(command) &&
             context.manager.current.currentLine <= |context.manager.current.lines|
    modifies context.manager.current`lines, context.manager.current`currentLine, context.manager.current`modified
    ensures context.Valid() && Effect(context.OnDesk(), result.Ok?) == TypedWork(old(context.OnDesk()), command, lines)
  {
    hide ExecutionContext.Valid, Evaluate, AppendPosition, InsertPosition, With;
    match command
    case Append(address) => result := context.ExecuteAppend(address, lines);
    case Insert(address) => result := context.ExecuteInsert(address, lines);
    case Change(address) => result := context.ExecuteChange(address, lines);
  }

  /** A session: inputs are run in turn, whether or not they fail, until one of them is a successful `Q` or `QQ`. The
    states it goes through are those that the inputs' meanings give. So what a buffer has saved is unchanged since the
    beginning, since the buffer was created with nothing saved, or since its file held it; only empty buffers disappear;
    and after a `Q`, every buffer holds just its saved text. */
  method Run(context: ExecutionContext, inputs: seq<Input>) returns (executed: nat, ghost log: seq<State>)
    requires context.Valid() && !context.exitRequested
    modifies context, context.manager, context.manager.buffers.Values
    ensures context.Valid()
    ensures IsSession(log, inputs) && |log| == executed + 1 && log[0] == old(Now(context)) &&
            log[executed] == Now(context)
    ensures Remembers(log)
    ensures context.exitRequested && !context.immediateExit ==> AllSaved(Now(context))
  {
    hide ExecutionContext.Valid, BufferManager.Texts, KeepsText, Remembers, Executed, AllSaved, IsConsistent,
         LeavesSafely;
    executed := 0;
    log := [Now(context)];
    ghost var started := context.manager.buffers.Values;
    while executed < |inputs| && !context.exitRequested
      invariant context.Valid() && executed <= |inputs|
      invariant |log| == executed + 1 && log[0] == old(Now(context)) && log[executed] == Now(context)
      invariant IsSession(log, inputs[..executed])
      invariant fresh(context.manager.buffers.Values - started)
    {
      var _ := ExecuteInput(context, inputs[executed]);
      SessionGoesOn(log, inputs, executed, Now(context));
      log := log + [Now(context)];
      executed := executed + 1;
    }
    SessionEnds(log, inputs, executed);
    SessionsAreSafe(log, inputs);
  }
}
