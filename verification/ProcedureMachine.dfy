/** What running procedures does, step by step: a machine with a stack of procedures, of which each is a
  snapshot of a buffer's lines. The runner's methods are proved to take the steps of this machine. */
module ProcedureMachine {
  import opened Outcomes
  import opened Characters
  import opened Tokens
  import opened Lexing
  import opened CommandGrammar
  import FlowSemantics
  import opened CommandExpansion
  import opened Buffers
  import opened LineCommands
  import opened Semantics
  import opened Procedures

  /** A snapshot of a buffer's lines, and the line to run next. */
  datatype Procedure = Procedure(lines: seq<string>, line: nat)

  /** The commands of the line being run that are still to come. */
  datatype Chain = Chain(tokens: seq<Token>, position: nat)

  /** The procedures, outermost first, and the state of the editor. While the commands of a line are run, its
    procedure already stands behind that line. */
  datatype Configuration = Configuration(stack: seq<Procedure>, chain: Option<Chain>, editor: State)

  /** What happens next: the machine goes on, looks for a label, or stops with an error. An error is shown with
    the line where it happened, unless it is left to the procedure that called this one. */
  datatype Move =
    | Go(next: Configuration)
    | Seek(name: string, told: State)
    | Halt(left: State, line: nat, silent: bool)

  // ---------------------------------------------------------------- lines

  /** The line that ends a text block. */
  function BlockEnd(lines: seq<string>, from: nat): (end: Option<nat>)
    requires from <= |lines|
    ensures end.Some? ==> from <= end.value < |lines| && IsTextTerminator(lines[end.value])
    ensures forall k :: from <= k < (if end.Some? then end.value else |lines|) ==> !IsTextTerminator(lines[k])
    decreases |lines| - from
  {
    if from == |lines| then None
    else if IsTextTerminator(lines[from]) then Some(from)
    else BlockEnd(lines, from + 1)
  }

  /** The lines shown when a procedure stops: the current one and those behind it, three at most. */
  function ErrorContext(lines: seq<string>, index: nat): seq<string> {
    var first := if index < |lines| then index else |lines|;
    var last := if index + 3 < |lines| then index + 3 else |lines|;
    ["procedure stopped; remaining input:"] + lines[first..last] + if last < |lines| then ["..."] else []
  }

  // ---------------------------------------------------------------- configurations

  /** There is a procedure to run, and it stands on a line of its own or behind one. */
  ghost predicate IsRunning(config: Configuration) {
    && IsConsistent(config.editor) && config.stack != []
    && Top(config).line <= |Top(config).lines|
    && (config.chain.Some? ==>
          && Top(config).line > 0
          && AreTokens(config.chain.value.tokens) && config.chain.value.position < |config.chain.value.tokens|)
  }

  function Top(config: Configuration): Procedure
    requires config.stack != []
  {
    config.stack[|config.stack| - 1]
  }

  /** The stack with its topmost procedure standing elsewhere. */
  function At(stack: seq<Procedure>, line: nat): seq<Procedure>
    requires stack != []
  {
    stack[..|stack| - 1] + [stack[|stack| - 1].(line := line)]
  }

  /** A line of the topmost procedure was run, and control goes on at another one. */
  function GoOn(config: Configuration, line: nat, editor: State): Move
    requires config.stack != []
  {
    Go(Configuration(At(config.stack, line), None, editor))
  }

  // ---------------------------------------------------------------- the next step

  /** The texts that lines can include. */
  function LineTexts(state: State): FlowSemantics.Buffers {
    map n | n in state.texts :: state.texts[n].lines
  }

  /** Control lines are shown if commands are monitored. */
  function Echoed(state: State, value: string): State {
    if state.monitored then state.(output := state.output + (value + "\n")) else state
  }

  /** What happens next. */
  ghost function Next(config: Configuration, maximumDepth: nat): Move
    requires IsRunning(config)
  {
    if config.chain.Some? then NextCommand(config)
    else if Top(config).line == |Top(config).lines| then
      Go(Configuration(config.stack[..|config.stack| - 1], None, config.editor))
    else NextLine(config, maximumDepth)
  }

  /** Runs the next command of a line. */
  ghost function NextCommand(config: Configuration): Move
    requires IsRunning(config) && config.chain.Some?
  {
    var chain := config.chain.value;
    var line := Top(config).line;
    if chain.position == |chain.tokens| - 1 then Go(config.(chain := None))
    else
      match ParseCommand(chain.tokens, chain.position, true)
      case Fail => Halt(config.editor, line - 1, false)
      case Ok(parsed) => NextParsed(config, parsed.0, parsed.1)
  }

  /** Runs a command; text commands take the lines behind it. */
  ghost function NextParsed(config: Configuration, command: Command, position: nat): Move
    requires IsRunning(config) && config.chain.Some?
  {
    var line := Top(config).line;
    if !IsTextCommand(command) then NextInput(config, Input(command, []), position, line)
    else
      var end := BlockEnd(Top(config).lines, line);
      if end.None? then Halt(config.editor, line - 1, false)
      else NextInput(config, Input(command, Top(config).lines[line..end.value]), position, end.value + 1)
  }

  /** Runs a command with its lines. */
  ghost function NextInput(config: Configuration, input: Input, position: nat, line: nat): Move
    requires IsRunning(config) && config.chain.Some? && line > 0
  {
    var run := Executed(config.editor, input);
    if run.succeeded then Go(Configuration(At(config.stack, line), Some(config.chain.value.(position := position)),
                                           run.after))
    else Halt(run.after, line - 1, false)
  }

  /** The characters that a line stands for: comments are taken as they are, other lines are expanded. */
  function LineInput(source: string, editor: State, maximumDepth: nat): Result<seq<InputCharacter>> {
    if IsComment(source) then Ok(Marked(source, 0, Normal)) else CommandInput(source, LineTexts(editor), maximumDepth)
  }

  /** Starts on a new line. */
  function NextLine(config: Configuration, maximumDepth: nat): Move
    requires config.stack != [] && Top(config).line < |Top(config).lines| && IsConsistent(config.editor)
  {
    var line := Top(config).line;
    var source := Trim(Top(config).lines[line]);
    if source == "" then GoOn(config, line + 1, config.editor)
    else
      match LineInput(source, config.editor, maximumDepth)
      case Fail => Halt(config.editor, line, true)
      case Ok(input) => NextExpanded(config, input, maximumDepth)
  }

  /** A line once it is expanded: a procedure to run, a label, or something else. */
  function NextExpanded(config: Configuration, input: seq<InputCharacter>, maximumDepth: nat): Move
    requires config.stack != [] && Top(config).line < |Top(config).lines| && IsConsistent(config.editor)
  {
    var line := Top(config).line;
    var value := Trim(Values(input));
    match BufferDirective(value)
    case Fail => Halt(config.editor, line, false)
    case Ok(Some(name)) => NextCall(config, name, Echoed(config.editor, value), maximumDepth)
    case Ok(None) =>
      match LabelDefinition(value)
      case Fail => Halt(config.editor, line, false)
      case Ok(Some(_)) => GoOn(config, line + 1, Echoed(config.editor, value))
      case Ok(None) => NextControl(config, value, input)
  }

  /** Runs another procedure, unless it does not exist or there are too many; control will go on behind the line. */
  function NextCall(config: Configuration, name: string, told: State, maximumDepth: nat): Move
    requires config.stack != []
  {
    if |config.stack| >= maximumDepth || name !in told.texts then Halt(told, Top(config).line, false)
    else Go(Configuration(At(config.stack, Top(config).line + 1) + [Procedure(told.texts[name].lines, 0)], None, told))
  }

  /** Numeric operations with an optional jump behind them, a jump alone, or commands. */
  function NextControl(config: Configuration, value: string, input: seq<InputCharacter>): Move
    requires config.stack != [] && IsConsistent(config.editor)
  {
    var line := Top(config).line;
    if IsNumericLine(value) then
      var numeric := NumericLine(value, |Here(config.editor).lines|, Here(config.editor).currentLine,
                                 NumericOf(config.editor));
      var after := Calculated(config.editor, numeric.0);
      if numeric.1.Fail? then Halt(after, line, false)
      else if numeric.1.value == "" then GoOn(config, line + 1, Echoed(after, value))
      else
        match JumpDirective(numeric.1.value)
        case Ok(Some(jump)) => NextJump(config, jump, Echoed(after, value))
        case _ => Halt(Echoed(after, value), line, false)
    else
      match JumpDirective(value)
      case Fail => Halt(config.editor, line, false)
      case Ok(Some(jump)) => NextJump(config, jump, Echoed(config.editor, value))
      case Ok(None) =>
        if value == "" then GoOn(config, line + 1, config.editor)
        else
          Go(Configuration(At(config.stack, line + 1), Some(Chain(AllTokens(Located(input), EndLocation(input), 0), 0)),
                           if IsComment(value) then config.editor else Echoed(config.editor, value)))
  }

  function NumericOf(state: State): Numeric {
    Numeric(state.registers, state.condition, state.counter)
  }

  function Calculated(state: State, numeric: Numeric): State {
    state.(registers := numeric.registers, condition := numeric.condition, counter := numeric.counter)
  }

  /** A jump whose condition does not hold is not taken. */
  function NextJump(config: Configuration, jump: Jump, told: State): Move
    requires config.stack != []
  {
    if jump.required.Some? && told.condition != jump.required.value then GoOn(config, Top(config).line + 1, told)
    else Seek(jump.name, told)
  }

  // ---------------------------------------------------------------- steps and traces

  /** One step of the machine. A jump goes on behind its target. Nothing happens after something asked to leave. */
  ghost predicate Steps(before: Configuration, after: Configuration, maximumDepth: nat) {
    && IsRunning(before) && !before.editor.exit
    && match Next(before, maximumDepth)
       case Go(next) => after == next
       case Seek(name, told) => exists target: nat :: JumpsTo(before, name, told, target, after)
       case Halt(_, _, _) => false
  }

  ghost predicate JumpsTo(before: Configuration, name: string, told: State, target: nat, after: Configuration) {
    && before.stack != [] && Top(before).line < |Top(before).lines|
    && IsJumpTarget(Top(before).lines, Top(before).line, name, Some(target))
    && after == Configuration(At(before.stack, target + 1), None, told)
  }

  /** A step that is a jump to a label further up. */
  ghost predicate JumpsBack(before: Configuration, after: Configuration, maximumDepth: nat) {
    && Steps(before, after, maximumDepth) && Next(before, maximumDepth).Seek?
    && after.stack != [] && Top(after).line <= Top(before).line
  }

  /** Each configuration follows from the one before it. */
  ghost predicate IsTrace(trace: seq<Configuration>, maximumDepth: nat) {
    trace != [] && forall k :: 0 < k < |trace| ==> Steps(trace[k - 1], trace[k], maximumDepth)
  }

  /** How many steps of a trace are backward jumps. */
  ghost function BackJumps(trace: seq<Configuration>, maximumDepth: nat): nat {
    if |trace| < 2 then 0
    else
      BackJumps(trace[..|trace| - 1], maximumDepth)
      + if JumpsBack(trace[|trace| - 2], trace[|trace| - 1], maximumDepth) then 1 else 0
  }

  // ---------------------------------------------------------------- errors

  /** What an error leaves behind, the line where it happened, and whether it is left to the caller. */
  datatype Stop = Stop(editor: State, line: nat, silent: bool)

  /** The error with which the machine stops, if it does. */
  ghost function Stopped(config: Configuration, maximumDepth: nat): Option<Stop>
    requires IsRunning(config)
  {
    match Next(config, maximumDepth)
    case Go(_) => None
    case Seek(name, told) =>
      var top := Top(config);
      if top.line < |top.lines| && IsJumpTarget(top.lines, top.line, name, None) then Some(Stop(told, top.line, false))
      else None
    case Halt(left, line, silent) => Some(Stop(left, line, silent))
  }

  /** How many procedures can show an error: a silent one is not shown by the procedure in which it happened. */
  function Reporters(stack: seq<Procedure>, stop: Stop): nat {
    if stop.silent && stack != [] then |stack| - 1 else |stack|
  }

  /** The innermost procedure that can shows the error, with its line: if another one was called, the calling line. */
  function Reported(stack: seq<Procedure>, stop: Stop): State
    requires Reporters(stack, stop) > 0
  {
    var procedure := stack[Reporters(stack, stop) - 1];
    var line := if !stop.silent then stop.line else if procedure.line > 0 then procedure.line - 1 else 0;
    stop.editor.(output := stop.editor.output + PrintedLines(ErrorContext(procedure.lines, line)))
  }
}
