/** The procedure runner: runs buffers as procedures while they may be rewritten under it.

  A procedure is a snapshot of a buffer's lines; jumps move within it and `\B(name)` lines run
  other buffers, up to a maximum nesting. Only backward jumps can make a run go on for ever:
  each run here gets a number of backward jumps that it may take, and ends, whatever its
  procedures do, either by itself or with that number used up. What it does on the way is
  what the machine of procedures does, step by step. */
module ProcedureRunning {
  import opened Outcomes
  import opened Characters
  import opened Tokens
  import opened Lexing
  import opened TokenStreams
  import opened AddressParsing
  import opened CommandParsing
  import opened CommandGrammar
  import FlowSemantics
  import opened CommandExpansion
  import opened Buffers
  import opened Executor
  import opened LineCommands
  import opened Semantics
  import opened Sessions
  import opened Editor
  import opened Procedures
  import opened ProcedureMachine
  import opened ProcedureRuns
  import opened Scripts
  import opened FileCommands
  import opened Limits
  import opened TextFiles

  /** The texts of all live buffers. */
  function Texts(manager: BufferManager): FlowSemantics.Buffers
    reads manager, manager.buffers.Values
  {
    map n | n in manager.buffers :: manager.buffers[n].lines
  }

  // ---------------------------------------------------------------- states

  lemma {:induction false} InState(context: ExecutionContext)
    requires context.Valid()
    ensures var state := Now(context);
      && IsConsistent(state) && state.exit == context.exitRequested && state.immediate == context.immediateExit
      && state.condition == context.condition && state.monitored == context.monitorCommands
      && state.output == context.output && state.files == context.files && state.current == context.manager.current.name
      && LineTexts(state) == Texts(context.manager) && state.texts.Keys == context.manager.buffers.Keys
      && NumericOf(state) == Numeric(context.numericRegisters, context.condition, context.counter)
      && Here(state).lines == context.manager.current.lines &&
          Here(state).currentLine == context.manager.current.currentLine
      && forall n :: n in context.manager.buffers ==> state.texts[n] == context.manager.buffers[n].AsText()
  {
  }

  /** Buffers, files and options are as they were. */
  twostate lemma OnlyControl(context: ExecutionContext)
    requires old(context.Valid()) && unchanged(context.manager)
    requires forall b :: b in context.manager.buffers.Values ==> unchanged(b)
    requires unchanged(context`inputParenthesesRequired, context`monitorCommands, context`exitRequested,
                       context`immediateExit,
                       context`files)
    ensures context.Valid()
    ensures Now(context) ==
            old(Now(context)).(registers := context.numericRegisters, condition := context.condition,
                               counter := context.counter, output := context.output)
  {
    context.manager.Same();
  }

  /** A procedure on a line of its own can run. */
  lemma {:induction false} CanRun(below: seq<Procedure>, lines: seq<string>, line: nat, chain: Option<Chain>,
                                  state: State)
    requires IsConsistent(state) && line <= |lines|
    requires chain.Some? ==> line > 0 && AreTokens(chain.value.tokens) && chain.value.position < |chain.value.tokens|
    ensures IsRunning(Place(below, lines, line, chain, state))
  {
    hide AreTokens, AreConsistent;
    PlacedOnTop(below, lines, line, chain, state);
  }

  class ProcedureRunner {
    const context: ExecutionContext
    const maximumDepth: nat

    constructor (context: ExecutionContext, maximumDepth: nat)
      ensures this.context == context && this.maximumDepth == maximumDepth
    {
      this.context := context;
      this.maximumDepth := maximumDepth;
    }

    /** The text lines behind a text command, up to the terminator line. */
    method CollectBlock(lines: seq<string>, index: nat) returns (block: Option<(seq<string>, nat)>)
      requires index < |lines|
      ensures var end := BlockEnd(lines, index + 1);
        block == if end.Some? then Some((lines[index + 1..end.value], end.value)) else None
    {
      hide IsTextTerminator;
      var textLines := [];
      var cursor := index + 1;
      while cursor < |lines|
        invariant index < cursor <= |lines|
        invariant BlockEnd(lines, cursor) == BlockEnd(lines, index + 1)
        invariant textLines == lines[index + 1..cursor]
      {
        if IsTextTerminator(lines[cursor]) {
          return Some((textLines, cursor));
        }
        textLines := textLines + [lines[cursor]];
        cursor := cursor + 1;
      }
      return None;
    }

    // -------------------------------------------------------------- commands

    /** A parser for the commands of a line. */
    method ParserFor(input: seq<InputCharacter>) returns (parser: CommandParser)
      requires context.Valid()
      ensures fresh(parser) && fresh(parser.stream) && fresh(parser.stream.lexer) && fresh(parser.stream.lexer.stream)
      ensures parser.stream.Valid() && parser.stream.position == 0
      ensures parser.stream.tokens == AllTokens(Located(input), EndLocation(input), 0)
      ensures context.Valid() && Now(context) == old(Now(context))
    {
      hide ExecutionContext.Valid, Now, TokenStream.Valid, FlowCharacterStream.Valid, AllTokens;
      var characters := new FlowCharacterStream(input);
      var lexer := new Lexer(characters);
      var tokens := new TokenStream(lexer);
      parser := new CommandParser(tokens);
    }

    /** Whether all commands of a line were taken. */
    method AtEnd(parser: CommandParser) returns (end: bool)
      requires context.Valid() && parser.stream.Valid()
      modifies parser.stream`cache, parser.stream`endCached, parser.stream.lexer.stream`position
      ensures parser.stream.Valid() && parser.stream.position < |parser.stream.tokens|
      ensures end == (parser.stream.position == |parser.stream.tokens| - 1)
      ensures context.Valid() && Now(context) == old(Now(context))
    {
      hide ExecutionContext.Valid, Now, TokenStream.Valid, AreTokens;
      end := parser.stream.AtEnd();
      parser.stream.Standing();
    }

    /** Parses the next command of a line. */
    method ParseNext(parser: CommandParser) returns (command: Result<Command>)
      requires context.Valid() && parser.stream.Valid()
      modifies parser, parser.stream`cache, parser.stream`endCached, parser.stream`position,
               parser.stream.lexer.stream`position
      ensures parser.stream.Valid() && parser.stream.position < |parser.stream.tokens| &&
              AreTokens(parser.stream.tokens)
      ensures old(parser.stream.position) < |parser.stream.tokens|
      ensures Parsed(ParseCommand(parser.stream.tokens, old(parser.stream.position), true), command,
                     old(parser.stream.position),
                     parser.stream.position)
      ensures context.Valid() && Now(context) == old(Now(context))
    {
      hide ExecutionContext.Valid, Now, TokenStream.Valid, AreTokens, ParseCommand;
      parser.stream.Standing();
      command := parser.ParseOne();
      parser.stream.Standing();
    }

    /** Runs a command; the parser does not notice. */
    method RunInput(input: Input, ghost parser: CommandParser) returns (succeeded: bool)
      requires context.Valid() && parser.stream.Valid()
      modifies context, context.manager, context.manager.buffers.Values
      ensures context.Valid() && Effect(Now(context), succeeded) == Executed(old(Now(context)), input)
      ensures fresh(context.manager.buffers.Values - old(context.manager.buffers.Values))
      ensures parser.stream.Valid() && parser.stream.position == old(parser.stream.position)
    {
      hide ExecutionContext.Valid, Now, TokenStream.Valid, Executed, IsConsistent, KeepsText, LeavesSafely;
      var executed := ExecuteInput(context, input);
      succeeded := executed.Ok?;
    }

    /** Runs a parsed command; a text command takes the lines behind it. */
    method RunParsed(command: Command, lines: seq<string>, index: nat, ghost config: Configuration, ghost position: nat,
                     ghost parser: CommandParser)
      returns (succeeded: bool, reached: nat)
      requires context.Valid() && index < |lines| && parser.stream.Valid()
      requires IsRunning(config) && Top(config) == Procedure(lines, index + 1) && config.editor == Now(context)
      requires config.chain.Some?
      modifies context, context.manager, context.manager.buffers.Values
      ensures context.Valid() && index <= reached < |lines|
      ensures fresh(context.manager.buffers.Values - old(context.manager.buffers.Values))
      ensures parser.stream.Valid() && parser.stream.position == old(parser.stream.position)
      ensures NextParsed(config, command, position) ==
              if succeeded then Go(Configuration(At(config.stack, reached + 1),
                                                 Some(config.chain.value.(position := position)), Now(context)))
              else Halt(Now(context), reached, false)
    {
      hide ExecutionContext.Valid, Now, TokenStream.Valid, NextParsed, BlockEnd, Executed, IsRunning, IsConsistent, Top,
           At;
      ParsedIs(config, command, position, lines, index);
      if !IsTextCommand(command) {
        succeeded := RunInput(Input(command, []), parser);
        return succeeded, index;
      }
      var block := CollectBlock(lines, index);
      if block.None? {
        return false, index;
      }
      reached := block.value.1;
      succeeded := RunInput(Input(command, block.value.0), parser);
    }

    /** Parses and runs the next command of a line; it is the machine's next step. */
    method ExecuteNext(parser: CommandParser, lines: seq<string>, index: nat, ghost config: Configuration)
      returns (succeeded: bool, reached: nat)
      requires context.Valid() && index < |lines| && parser.stream.Valid()
      requires IsRunning(config) && Top(config) == Procedure(lines, index + 1) && config.editor == Now(context)
      requires config.chain == Some(Chain(parser.stream.tokens, parser.stream.position))
      requires parser.stream.position < |parser.stream.tokens| - 1
      modifies context, context.manager, context.manager.buffers.Values
      modifies parser, parser.stream`cache, parser.stream`endCached, parser.stream`position,
               parser.stream.lexer.stream`position
      ensures context.Valid() && parser.stream.Valid() && index <= reached < |lines|
      ensures fresh(context.manager.buffers.Values - old(context.manager.buffers.Values))
      ensures old(parser.stream.position) <= parser.stream.position < |parser.stream.tokens|
      ensures succeeded ==> old(parser.stream.position) < parser.stream.position
      ensures NextCommand(config) ==
              if succeeded then Go(Configuration(At(config.stack, reached + 1),
                                                 Some(Chain(parser.stream.tokens, parser.stream.position)),
                                                     Now(context)))
              else Halt(Now(context), reached, false)
    {
      hide ExecutionContext.Valid, Now, TokenStream.Valid, AreTokens, ParseCommand, NextParsed, IsConsistent, At;
      var command := ParseNext(parser);
      if command.Fail? {
        return false, index;
      }
      succeeded, reached := RunParsed(command.value, lines, index, config, parser.stream.position, parser);
    }

    /** Runs one more command of a line, and records what it did. */
    method ExecuteOne(parser: CommandParser, lines: seq<string>, ghost index: nat, line: nat,
                      ghost below: seq<Procedure>,
                      ghost input: seq<InputCharacter>, ghost before: State, ghost trace: seq<Configuration>)
      returns (succeeded: bool, reached: nat, ghost longer: seq<Configuration>)
      requires context.Valid() && !context.exitRequested && !Now(context).exit && index <= line < |lines| &&
               parser.stream.Valid()
      requires parser.stream.tokens == AllTokens(Located(input), EndLocation(input), 0)
      requires parser.stream.position < |parser.stream.tokens| - 1
      requires CommandsRunning(below, lines, index, input, before, trace, parser.stream.position, Now(context), line,
                               maximumDepth)
      modifies context, context.manager, context.manager.buffers.Values
      modifies parser, parser.stream`cache, parser.stream`endCached, parser.stream`position,
               parser.stream.lexer.stream`position
      ensures context.Valid() && parser.stream.Valid() && line <= reached < |lines| &&
              Now(context).exit == context.exitRequested
      ensures fresh(context.manager.buffers.Values - old(context.manager.buffers.Values))
      ensures old(parser.stream.position) <= parser.stream.position < |parser.stream.tokens|
      ensures succeeded ==> old(parser.stream.position) < parser.stream.position
      ensures if succeeded then CommandsRunning(below, lines, index, input, before, longer, parser.stream.position,
                                                Now(context), reached, maximumDepth)
              else CommandsRan(below, lines, index, input, before, longer, false, Now(context), reached, maximumDepth)
    {
      hide ExecutionContext.Valid, TokenStream.Valid, AllTokens, Now, CommandsRan, CommandsRunning, IsRunning,
           NextCommand, IsConsistent, Place, At;
      ghost var state, position := Now(context), parser.stream.position;
      ghost var config := CommandsStand(below, lines, index, input, before, trace, position, state, line, maximumDepth);
      succeeded, reached := ExecuteNext(parser, lines, line, config);
      InState(context);
      if succeeded {
        longer := CommandsGoOn(below, lines, index, input, before, trace, position, state, line, reached,
                               parser.stream.position,
                               Now(context), maximumDepth);
      } else {
        CommandsFail(below, lines, index, input, before, trace, position, state, line, reached, Now(context),
                     maximumDepth);
        longer := trace;
      }
    }

    /** Runs the commands of one line; text commands take the lines behind it. The result is the line reached. */
    method ExecuteCommands(input: seq<InputCharacter>, lines: seq<string>, index: nat, ghost below: seq<Procedure>)
      returns (succeeded: bool, reached: nat, ghost trace: seq<Configuration>)
      requires context.Valid() && !context.exitRequested && index < |lines|
      modifies context, context.manager, context.manager.buffers.Values
      ensures context.Valid() && index <= reached < |lines|
      ensures fresh(context.manager.buffers.Values - old(context.manager.buffers.Values))
      ensures CommandsRan(below, lines, index, input, old(Now(context)), trace, succeeded, Now(context), reached,
                          maximumDepth)
    {
      hide *;
      ghost var before := Now(context);
      var parser := ParserFor(input);
      reached := index;
      trace := CommandsBegin(below, lines, index, input, before, maximumDepth);
      var end := AtEnd(parser);
      InState(context);
      while !end && !context.exitRequested
        invariant context.Valid() && parser.stream.Valid() && index <= reached < |lines|
        invariant end == (parser.stream.position == |parser.stream.tokens| - 1) &&
                  parser.stream.position < |parser.stream.tokens|
        invariant fresh(context.manager.buffers.Values - old(context.manager.buffers.Values))
        invariant Now(context).exit == context.exitRequested
        invariant CommandsRunning(below, lines, index, input, before, trace, parser.stream.position, Now(context),
                                  reached, maximumDepth)
        decreases |parser.stream.tokens| - parser.stream.position
      {
        succeeded, reached, trace := ExecuteOne(parser, lines, index, reached, below, input, before, trace);
        if !succeeded {
          return;
        }
        end := AtEnd(parser);
      }
      succeeded := true;
      trace := CommandsEnd(below, lines, index, input, before, trace, parser.stream.position, Now(context), reached,
                           maximumDepth);
    }

    /** Shows where a procedure stopped. */
    method ReportContext(lines: seq<string>, index: nat)
      requires context.Valid() && index <= |lines|
      modifies context`output
      ensures context.Valid() && context.output == old(context.output) + PrintedLines(ErrorContext(lines, index))
      ensures Now(context) == old(Now(context)).(output := context.output)
    {
      hide ErrorContext, PrintedLines, ExecutionContext.Valid, BufferManager.Texts, AreConsistent;
      PrintAll(context, ErrorContext(lines, index));
    }

    // -------------------------------------------------------------- control lines

    /** Applies a jump. A backward jump costs one of the backward jumps left; the result is the line to go on from. */
    method ApplyJump(jump: Jump, lines: seq<string>, index: nat, budget: nat)
      returns (outcome: Outcome, target: nat, left: nat)
      requires index < |lines|
      ensures target < |lines| && left <= budget && (left == budget ==> index <= target)
      ensures Jumped(jump, context.condition, lines, index, budget, outcome, target, left)
    {
      hide Defines;
      var take := jump.required.None? || context.condition == jump.required.value;
      if !take {
        return Done, index, budget;
      }
      var found := FindJumpTarget(lines, index, jump.name);
      if found.None? {
        return Failed(false), index, budget;
      }
      if found.value > index {
        return Done, found.value, budget;
      }
      if budget == 0 {
        return OutOfJumps, index, 0;
      }
      return Done, found.value, budget - 1;
    }

    /** Shows a control line if commands are monitored. */
    method Echo(value: string)
      modifies context`output
      ensures context.output == old(context.output) + if context.monitorCommands then value + "\n" else ""
    {
      if context.monitorCommands {
        context.WriteLine(value);
      }
    }

    /** The state that numeric operations change. */
    function Registers(): Numeric
      reads context`numericRegisters, context`condition, context`counter
    {
      Numeric(context.numericRegisters, context.condition, context.counter)
    }

    /** `N(register)` and its operations: none if the line is something else, otherwise what follows them. */
    method ExecuteNumericSequence(source: string) returns (result: Result<Option<string>>)
      modifies context`numericRegisters, context`condition, context`counter
      ensures !IsNumericLine(source) ==> result == Ok(None) && unchanged(context)
      ensures IsNumericLine(source) ==>
        var line := NumericLine(source, |context.manager.current.lines|, context.manager.current.currentLine,
                                old(Registers()));
        && Registers() == line.0
        && result == if line.1.Fail? then Fail else Ok(Some(line.1.value))
    {
      hide Trim, OperandAt, Operate, IndexOf, IsRegisterName;
      var value := Trim(source);
      if |value| < 2 || value[0] !in {'N', 'n'} || value[1] != '(' {
        return Ok(None);
      }
      var closing := IndexOf(value[2..], ')') + 2;
      if closing == |value| || !IsRegisterName(value[2..closing]) {
        return Fail;
      }
      hide Operations;
      var executed := ExecuteOperations(value, closing + 1, value[2..closing]);
      if executed.Fail? || executed.value == None {
        return Fail;
      }
      return Ok(Some(Trim(value[executed.value.value..])));
    }

    /** Runs numeric operations up to their end, which is the result; none if there are no operations. */
    method ExecuteOperations(value: string, start: nat, name: string) returns (result: Result<Option<nat>>)
      requires start <= |value|
      modifies context`numericRegisters, context`condition, context`counter
      ensures var all := Operations(value, start, name, |context.manager.current.lines|,
                                    context.manager.current.currentLine, old(Registers()));
        && Registers() == all.0
        && result == if all.1.None? then Fail
                     else if all.1.value == SkipSpaces(value, start) then Ok(None) else Ok(Some(all.1.value))
      ensures result.Ok? && result.value.Some? ==> result.value.value <= |value|
    {
      hide OperandAt, Operate;
      var position := start;
      var executed := false;
      ghost var before := Registers();
      var lineCount, currentLine := |context.manager.current.lines|, context.manager.current.currentLine;
      while true
        invariant start <= position <= |value|
        invariant Operations(value, start, name, lineCount, currentLine, before) ==
                  Operations(value, position, name, lineCount, currentLine, Registers())
        invariant executed <==> position > start
        invariant executed ==> SkipSpaces(value, start) < position
        decreases |value| - position
      {
        position := SkipSpaces(value, position);
        if position == |value| || value[position] !in {':', '=', '<', '>'} {
          break;
        }
        var operand := OperandAt(value, position + 1, lineCount, currentLine, context.counter);
        if operand.Fail? {
          return Fail;
        }
        var state := Operate(value[position], name, operand.value.0, Registers());
        context.numericRegisters, context.condition, context.counter := state.registers, state.condition, state.counter;
        position := operand.value.1;
        executed := true;
      }
      return Ok(if executed then Some(position) else None);
    }

    /** Numeric operations with an optional jump behind them, or a jump alone. */
    method ExecuteControl(value: string, lines: seq<string>, index: nat, budget: nat, ghost below: seq<Procedure>,
                          ghost input: seq<InputCharacter>)
      returns (handled: bool, outcome: Outcome, reached: nat, left: nat, ghost trace: seq<Configuration>)
      requires context.Valid() && !context.exitRequested && index < |lines|
      requires var first := Place(below, lines, index, None, Now(context));
        IsRunning(first) && Next(first, maximumDepth) == NextControl(first, value, input)
      modifies context`output, context`numericRegisters, context`condition, context`counter
      ensures context.Valid() && reached < |lines| && left <= budget && (left == budget ==> index <= reached)
      ensures handled == (IsNumericLine(value) || JumpDirective(value) != Ok(None))
      ensures !handled ==> Now(context) == old(Now(context))
      ensures handled ==> LineRan(below, lines, index, old(Now(context)), trace, outcome, budget, left, Now(context),
                                  reached, maximumDepth)
    {
      hide ExecutionContext.Valid, Now, Trim, JumpDirective, NumericLine, IsNumericLine, Next, NextJump, LineRan,
           IsRunning, IsConsistent, NextControl, Echoed, Place;
      InState(context);
      NextIsControl(below, lines, index, Now(context), value, input);
      ghost var before := Now(context);
      var tail := ExecuteNumericSequence(value);
      OnlyControl(context);
      if tail.Fail? {
        trace := LineStops(below, lines, index, before, Now(context), budget, maximumDepth);
        return true, Failed(false), index, budget, trace;
      }
      if tail.value.Some? {
        EchoLine(value);
        outcome, reached, left, trace := ExecuteTail(tail.value.value, lines, index, budget, below, before);
        return true, outcome, reached, left, trace;
      }
      var jump := JumpDirective(value);
      if jump.Fail? {
        trace := LineStops(below, lines, index, before, Now(context), budget, maximumDepth);
        return true, Failed(false), index, budget, trace;
      }
      if jump.value.None? {
        return false, Done, index, budget, [];
      }
      EchoLine(value);
      outcome, reached, left, trace := ExecuteJump(jump.value.value, lines, index, budget, below, before);
      handled := true;
    }

    /** What stands behind numeric operations: nothing, or a jump. */
    method ExecuteTail(tail: string, lines: seq<string>, index: nat, budget: nat, ghost below: seq<Procedure>,
                       ghost before: State)
      returns (outcome: Outcome, reached: nat, left: nat, ghost trace: seq<Configuration>)
      requires context.Valid() && !before.exit && IsConsistent(before) && index < |lines|
      requires var first := Place(below, lines, index, None, before); var jump := JumpDirective(tail);
        IsRunning(first) && Next(first, maximumDepth) ==
          if tail == "" then Go(Place(below, lines, index + 1, None, Now(context)))
          else if jump.Ok? && jump.value.Some? then NextJump(first, jump.value.value, Now(context))
          else Halt(Now(context), index, false)
      ensures reached < |lines| && left <= budget && (left == budget ==> index <= reached)
      ensures LineRan(below, lines, index, before, trace, outcome, budget, left, Now(context), reached, maximumDepth)
    {
      hide ExecutionContext.Valid, Now, JumpDirective, Next, NextJump, LineRan, IsRunning, IsConsistent, Place;
      if tail == "" {
        trace := StepLine(below, lines, index, before, index, Now(context), budget, maximumDepth);
        return Done, index, budget, trace;
      }
      var jump := JumpDirective(tail);
      if jump.Fail? || jump.value.None? {
        trace := LineStops(below, lines, index, before, Now(context), budget, maximumDepth);
        return Failed(false), index, budget, trace;
      }
      outcome, reached, left, trace := ExecuteJump(jump.value.value, lines, index, budget, below, before);
    }

    method ExecuteJump(jump: Jump, lines: seq<string>, index: nat, budget: nat, ghost below: seq<Procedure>,
                       ghost before: State)
      returns (outcome: Outcome, reached: nat, left: nat, ghost trace: seq<Configuration>)
      requires context.Valid() && !before.exit && IsConsistent(before) && index < |lines|
      requires var first := Place(below, lines, index, None, before);
        IsRunning(first) && Next(first, maximumDepth) == NextJump(first, jump, Now(context))
      ensures reached < |lines| && left <= budget && (left == budget ==> index <= reached)
      ensures LineRan(below, lines, index, before, trace, outcome, budget, left, Now(context), reached, maximumDepth)
    {
      hide ExecutionContext.Valid, Now, Next, NextJump, Jumped, LineRan, IsRunning, IsConsistent, Place;
      InState(context);
      outcome, reached, left := ApplyJump(jump, lines, index, budget);
      trace := JumpRan(below, lines, index, before, jump, Now(context), budget, outcome, reached, left, maximumDepth);
    }

    // -------------------------------------------------------------- lines and procedures

    /** Runs one expanded line: a nested procedure, a label, numeric operations, a jump, or commands. */
    method ExecuteExpanded(input: seq<InputCharacter>, lines: seq<string>, index: nat, depth: nat, budget: nat,
                           ghost below: seq<Procedure>)
      returns (outcome: Outcome, reached: nat, left: nat, ghost trace: seq<Configuration>)
      requires context.Valid() && !context.exitRequested && index < |lines| && |below| == depth < maximumDepth
      requires var first := Place(below, lines, index, None, Now(context));
        IsRunning(first) && Top(first) == Procedure(lines, index)
        && Next(first, maximumDepth) == NextExpanded(first, input, maximumDepth)
      modifies context, context.manager, context.manager.buffers.Values
      ensures context.Valid() && reached < |lines| && left <= budget && (left == budget ==> index <= reached)
      ensures fresh(context.manager.buffers.Values - old(context.manager.buffers.Values))
      ensures LineRan(below, lines, index, old(Now(context)), trace, outcome, budget, left, Now(context), reached,
                      maximumDepth)
      decreases budget, maximumDepth - depth, 1
    {
      hide ExecutionContext.Valid, Now, Trim, BufferDirective, LabelDefinition, JumpDirective, IsNumericLine,
           NumericLine, Next, NextExpanded, NextControl, LineRan, IsRunning, IsConsistent, BufferRan, CommandsRan;
      InState(context);
      NextIsExpanded(below, lines, index, Now(context), input, maximumDepth);
      ghost var before := Now(context);
      var value := Trim(Values(input));
      var directive := BufferDirective(value);
      if directive.Fail? {
        trace := LineStops(below, lines, index, before, Now(context), budget, maximumDepth);
        return Failed(false), index, budget, trace;
      }
      if directive.value.Some? {
        outcome, left, trace := ExecuteCall(directive.value.value, value, lines, index, depth, budget, below);
        return outcome, index, left, trace;
      }
      var definition := LabelDefinition(value);
      if definition.Fail? {
        trace := LineStops(below, lines, index, before, Now(context), budget, maximumDepth);
        return Failed(false), index, budget, trace;
      }
      if definition.value.Some? {
        EchoLine(value);
        trace := StepLine(below, lines, index, before, index, Now(context), budget, maximumDepth);
        return Done, index, budget, trace;
      }
      outcome, reached, left, trace := ExecuteRest(input, value, lines, index, budget, below);
    }

    /** Runs the procedure that a line names. */
    method ExecuteCall(name: string, value: string, lines: seq<string>, index: nat, depth: nat, budget: nat,
                       ghost below: seq<Procedure>)
      returns (outcome: Outcome, left: nat, ghost trace: seq<Configuration>)
      requires context.Valid() && !context.exitRequested && index < |lines| && |below| == depth < maximumDepth
      requires var first := Place(below, lines, index, None, Now(context)); var told := Echoed(Now(context), value);
        IsRunning(first) && Next(first, maximumDepth) ==
          if depth + 1 >= maximumDepth || name !in Now(context).texts then Halt(told, index, false)
          else Go(Place(below + [Procedure(lines, index + 1)], Now(context).texts[name].lines, 0, None, told))
      modifies context, context.manager, context.manager.buffers.Values
      ensures context.Valid() && left <= budget
      ensures fresh(context.manager.buffers.Values - old(context.manager.buffers.Values))
      ensures LineRan(below, lines, index, old(Now(context)), trace, outcome, budget, left, Now(context), index,
                      maximumDepth)
      decreases budget, maximumDepth - depth, 0
    {
      hide ExecutionContext.Valid, Now, Next, LineRan, IsRunning, IsConsistent, BufferRan;
      InState(context);
      ghost var before, under := Now(context), below + [Procedure(lines, index + 1)];
      EchoLine(value);
      InState(context);
      ghost var told := Now(context);
      ghost var nested: seq<Configuration>;
      outcome, left, nested := RunBuffer(name, depth + 1, budget, under);
      if depth + 1 >= maximumDepth || name !in old(context.manager.buffers) {
        trace := LineStops(below, lines, index, before, Now(context), budget, maximumDepth);
      } else {
        trace := CallLine(below, lines, index, before, told, told.texts[name].lines, nested, outcome, budget, left,
                          Now(context), maximumDepth);
      }
    }

    /** Numeric operations, a jump, or commands. */
    method ExecuteRest(input: seq<InputCharacter>, value: string, lines: seq<string>, index: nat, budget: nat,
                       ghost below: seq<Procedure>)
      returns (outcome: Outcome, reached: nat, left: nat, ghost trace: seq<Configuration>)
      requires context.Valid() && !context.exitRequested && index < |lines|
      requires var first := Place(below, lines, index, None, Now(context));
        IsRunning(first) && Next(first, maximumDepth) == NextControl(first, value, input)
      modifies context, context.manager, context.manager.buffers.Values
      ensures context.Valid() && reached < |lines| && left <= budget && (left == budget ==> index <= reached)
      ensures fresh(context.manager.buffers.Values - old(context.manager.buffers.Values))
      ensures LineRan(below, lines, index, old(Now(context)), trace, outcome, budget, left, Now(context), reached,
                      maximumDepth)
    {
      hide ExecutionContext.Valid, Now, Trim, JumpDirective, IsNumericLine, NumericLine, IsComment, Next, NextJump,
           LineRan, IsRunning, IsConsistent, CommandsRan, AmongCommands;
      InState(context);
      NextIsControl(below, lines, index, Now(context), value, input);
      ghost var before := Now(context);
      var handled: bool;
      handled, outcome, reached, left, trace := ExecuteControl(value, lines, index, budget, below, input);
      if handled {
        return;
      }
      left := budget;
      if value == "" {
        trace := StepLine(below, lines, index, before, index, before, budget, maximumDepth);
        return Done, index, budget, trace;
      }
      if !IsComment(value) {
        EchoLine(value);
      }
      InState(context);
      ghost var told := Now(context);
      ghost var commands: seq<Configuration>;
      var succeeded: bool;
      succeeded, reached, commands := ExecuteCommands(input, lines, index, below);
      outcome := if succeeded then Done else Failed(false);
      trace := CommandLine(below, lines, index, before, told, input, commands, succeeded, Now(context), reached,
                           budget, maximumDepth);
    }

    /** Shows a line if commands are monitored. */
    method EchoLine(value: string)
      requires context.Valid()
      modifies context`output
      ensures context.Valid() && Now(context) == Echoed(old(Now(context)), value)
    {
      hide ExecutionContext.Valid, Now;
      InState(context);
      Echo(value);
      OnlyControl(context);
    }

    /** Runs one line of a procedure: expands it, and tells the user where the procedure stopped if it fails. */
    method ExecuteLine(lines: seq<string>, index: nat, depth: nat, budget: nat, ghost below: seq<Procedure>)
      returns (outcome: Outcome, reached: nat, left: nat, ghost trace: seq<Configuration>)
      requires context.Valid() && !context.exitRequested && index < |lines| && |below| == depth < maximumDepth
      modifies context, context.manager, context.manager.buffers.Values
      ensures context.Valid() && reached < |lines| && left <= budget && (left == budget ==> index <= reached)
      ensures fresh(context.manager.buffers.Values - old(context.manager.buffers.Values))
      ensures LineEnded(below, lines, index, old(Now(context)), trace, outcome, budget, left, Now(context), reached,
                        maximumDepth)
      decreases budget, maximumDepth - depth, 2
    {
      hide ExecutionContext.Valid, Now, Trim, LineInput, Next, NextExpanded, LineRan, LineEnded, IsRunning,
           IsConsistent, ErrorContext;
      InState(context);
      ghost var before := Now(context);
      NextIsLine(below, lines, index, before, maximumDepth);
      var source := Trim(lines[index]);
      if source == "" {
        trace := StepLine(below, lines, index, before, index, before, budget, maximumDepth);
        NothingToShow(below, lines, index, before, trace, Done, budget, budget, before, index, maximumDepth);
        return Done, index, budget, trace;
      }
      var input := Expand(source);
      if input.Fail? {
        trace := ErrorLeft(below, lines, index, before, budget, maximumDepth);
        return Failed(false), index, budget, trace;
      }
      outcome, reached, left, trace := ExecuteExpanded(input.value, lines, index, depth, budget, below);
      if outcome == Failed(false) {
        ErrorShown(below, lines, index, before, trace, budget, left, Now(context), reached, maximumDepth);
        InState(context);
        ReportContext(lines, reached);
        outcome := Failed(true);
      } else {
        NothingToShow(below, lines, index, before, trace, outcome, budget, left, Now(context), reached, maximumDepth);
      }
    }

    /** The characters that a line stands for. */
    method Expand(source: string) returns (input: Result<seq<InputCharacter>>)
      requires context.Valid()
      ensures input == LineInput(source, Now(context), maximumDepth)
    {
      hide ExecutionContext.Valid, Now, CommandInput, IsComment, Texts, LineTexts;
      InState(context);
      if IsComment(source) {
        return Ok(Marked(source, 0, Normal));
      }
      input := ExpandCommandInputCharacters(source, Texts(context.manager), maximumDepth);
    }

    /** Runs a buffer as a procedure: its lines as they are now, one after the other, until the end or `Q`. The run
      takes at most `budget` backward jumps, and stops before the next one. */
    method RunBuffer(name: string, depth: nat, budget: nat, ghost below: seq<Procedure>)
      returns (outcome: Outcome, left: nat, ghost trace: seq<Configuration>)
      requires context.Valid() && !context.exitRequested && |below| == depth
      modifies context, context.manager, context.manager.buffers.Values
      ensures context.Valid() && left <= budget
      ensures fresh(context.manager.buffers.Values - old(context.manager.buffers.Values))
      ensures if depth >= maximumDepth || name !in old(context.manager.buffers) then
                outcome == Failed(false) && left == budget && Now(context) == old(Now(context))
              else
                BufferRan(below, old(context.manager.buffers[name].lines), old(Now(context)), trace, outcome, budget,
                          left,
                          Now(context), maximumDepth)
      decreases budget, maximumDepth - depth, 3
    {
      hide ExecutionContext.Valid, Now, LineEnded, BufferRunning, BufferRan, IsConsistent;
      if depth >= maximumDepth || name !in context.manager.buffers {
        return Failed(false), budget, [];
      }
      var lines := context.manager.buffers[name].lines;
      ghost var before := Now(context);
      left := budget;
      var index: nat := 0;
      trace := BufferBegins(below, lines, before, budget, maximumDepth);
      while index < |lines| && !context.exitRequested
        invariant context.Valid() && index <= |lines| && left <= budget
        invariant fresh(context.manager.buffers.Values - old(context.manager.buffers.Values))
        invariant BufferRunning(below, lines, before, trace, budget, left, Now(context), index, maximumDepth)
        decreases left, |lines| - index
      {
        InState(context);
        ghost var state, between := Now(context), left;
        var reached: nat;
        ghost var line: seq<Configuration>;
        outcome, reached, left, line := ExecuteLine(lines, index, depth, left, below);
        trace := BufferGoesOn(below, lines, before, trace, budget, between, state, index, line, outcome, left,
                              Now(context), reached, maximumDepth);
        if outcome != Done {
          return;
        }
        index := reached + 1;
      }
      InState(context);
      trace := BufferEnds(below, lines, before, trace, budget, left, Now(context), index, maximumDepth);
      outcome := Done;
    }

    // -------------------------------------------------------------- entry points

    /** Runs a buffer as a procedure, with as many backward jumps as given. Whatever its lines do, it ends; the trace
      says how. No text is lost on the way. */
    method ExecuteBuffer(name: string, budget: nat)
      returns (outcome: Outcome, left: nat, ghost trace: seq<Configuration>)
      requires context.Valid() && !context.exitRequested
      modifies context, context.manager, context.manager.buffers.Values
      ensures context.Valid()
      ensures if maximumDepth == 0 || name !in old(context.manager.buffers) then
                outcome == Failed(false) && left == budget && Now(context) == old(Now(context))
              else
                && BufferRan([], old(context.manager.buffers[name].lines), old(Now(context)), trace, outcome, budget,
                             left,
                             Now(context), maximumDepth)
                && Remembers([old(Now(context))] + Editors(trace) + [Now(context)])
      ensures context.exitRequested && !context.immediateExit ==> AllSaved(Now(context))
    {
      hide ExecutionContext.Valid, Now, Remembers, AllSaved, Ran, Editors, KeepsText;
      InState(context);
      SameTexts(Now(context), Now(context));
      outcome, left, trace := RunBuffer(name, 0, budget, []);
      InState(context);
      if maximumDepth > 0 && name in old(context.manager.buffers) {
        RunsAreSafe(old(Now(context)), trace, outcome, budget, left, Now(context), [], 0, maximumDepth);
      }
    }

    /** Runs a `\B(name)` line typed by the user; the result says whether it was one. */
    method ExecuteDirective(source: string, budget: nat)
      returns (handled: bool, outcome: Outcome, left: nat, ghost trace: seq<Configuration>)
      requires context.Valid() && !context.exitRequested
      modifies context, context.manager, context.manager.buffers.Values
      ensures context.Valid() && handled == (BufferDirective(source) != Ok(None))
      ensures BufferDirective(source) == Ok(None) || BufferDirective(source).Fail? ==>
        Now(context) == old(Now(context)) && (handled ==> outcome == Failed(false) && left == budget)
      ensures handled && BufferDirective(source).Ok? ==>
        var name := BufferDirective(source).value.value; var told := Echoed(old(Now(context)), Trim(source));
        if maximumDepth == 0 || name !in told.texts then outcome == Failed(false) && left == budget &&
            Now(context) == told
        else
          && BufferRan([], told.texts[name].lines, told, trace, outcome, budget, left, Now(context), maximumDepth)
          && Remembers([told] + Editors(trace) + [Now(context)])
      ensures context.exitRequested && !context.immediateExit ==> AllSaved(Now(context))
    {
      hide ExecutionContext.Valid, Now, BufferDirective, Trim, BufferRan, Remembers, AllSaved, Editors;
      InState(context);
      var directive := BufferDirective(source);
      if directive.Fail? {
        return true, Failed(false), budget, [];
      }
      if directive.value.None? {
        return false, Done, budget, [];
      }
      EchoLine(Trim(source));
      InState(context);
      outcome, left, trace := ExecuteBuffer(directive.value.value, budget);
      handled := true;
    }

    /** Reads a script into a buffer of its own and returns to the current buffer. The buffer that was current must not
      be one that is dropped when it is left: then there is nothing to return to, and the script is not run. */
    method LoadScript(filename: string, bufferName: string) returns (result: Result<()>)
      requires context.Valid() && !context.exitRequested
      modifies context`counter, context`condition, context.manager, context.manager.buffers.Values
      ensures context.Valid() && Effect(Now(context), result.Ok?) == Loading(old(Now(context)), filename, bufferName)
      ensures fresh(context.manager.buffers.Values - old(context.manager.buffers.Values))
      ensures var state := old(Now(context)); var file := ReadFile(state.files, filename);
        && result.Ok? == (
             && 0 < |bufferName| <= MAX_BUFFER_NAME_LENGTH && file.Ok?
             && (bufferName in state.texts ==> IsUnusedText(state.texts[bufferName]))
             && (bufferName == state.current || !IsTransientText(state.current, Here(state))))
        && (result.Ok? ==>
              && Now(context).current == state.current && bufferName in Now(context).texts
              && Now(context).texts[bufferName].lines == file.value.lines)
    {
      hide ExecutionContext.Valid, Now, ReadFile, SelectedState, ReadIn, Returned, IsTransientText, IsConsistent;
      InState(context);
      LoadsExactlyIf(Now(context), filename, bufferName);
      var previous := context.manager.current.name;
      var selected := Select(context, bufferName);
      if selected.Fail? {
        return Fail;
      }
      InState(context);
      if !IsUnused(context.manager.current) {
        var _ := ReturnTo(previous);
        return Fail;
      }
      InEditor(context);
      var read := ReadFileIn(context, None, Some(filename));
      var back := ReturnTo(previous);
      return if read.Ok? && back then Ok(()) else Fail;
    }

    /** A buffer without text, changes or file. */
    predicate IsUnused(buffer: Buffer)
      reads buffer
      ensures IsUnused(buffer) == IsUnusedText(buffer.AsText())
    {
      buffer.lines == [] && !buffer.modified && buffer.associatedFile == None
    }

    /** Selects a buffer again, if it is still there. */
    method ReturnTo(name: string) returns (found: bool)
      requires context.Valid()
      modifies context.manager`current, context.manager`usageOrder
      ensures context.Valid() && Effect(Now(context), found) == Returned(old(Now(context)), name)
    {
      hide Dropped, BufferManager.Texts, AreConsistent;
      context.manager.TextOfEach();
      var back := context.manager.Select(name);
      found := back.Ok?;
      context.manager.Same();
    }

    /** Loads a script and runs it. */
    method LoadAndExecute(filename: string, bufferName: string, budget: nat)
      returns (outcome: Outcome, left: nat, ghost trace: seq<Configuration>)
      requires context.Valid() && !context.exitRequested
      modifies context, context.manager, context.manager.buffers.Values
      ensures context.Valid()
      ensures var loaded := Loading(old(Now(context)), filename, bufferName); var file := ReadFile(old(context.files),
              filename);
        if !loaded.succeeded || file.Fail? || maximumDepth == 0 then
          outcome == Failed(false) && left == budget && Now(context) == loaded.after
        else
          && BufferRan([], file.value.lines, loaded.after, trace, outcome, budget, left,
                       Now(context), maximumDepth)
          && Remembers([old(Now(context))] + Editors(trace) + [Now(context)])
      ensures context.exitRequested && !context.immediateExit ==> AllSaved(Now(context))
    {
      hide ExecutionContext.Valid, Now, ReadFile, Loading, Remembers, AllSaved, Ran, Editors, KeepsText;
      ghost var before := Now(context);
      InState(context);
      LoadingKeepsText(before, filename, bufferName);
      LoadsExactlyIf(before, filename, bufferName);
      var loaded := LoadScript(filename, bufferName);
      InState(context);
      if loaded.Fail? {
        return Failed(false), budget, [];
      }
      outcome, left, trace := RunBuffer(bufferName, 0, budget, []);
      InState(context);
      if maximumDepth > 0 {
        RunsAreSafe(before, trace, outcome, budget, left, Now(context), [], 0, maximumDepth);
      }
    }
  }
}
