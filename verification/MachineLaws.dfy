/** What the machine does on each kind of line, told from its text. */
module MachineLaws {
  import opened Outcomes
  import opened Characters
  import opened Tokens
  import opened Lexing
  import opened AddressText
  import opened CommandExpansion
  import opened ExpansionLaws
  import opened CommandGrammar
  import opened CommandTyping
  import opened LineCommands
  import opened Semantics
  import opened Procedures
  import opened ProcedureLaws
  import opened ProcedureMachine
  import TypedCommands

  /** The machine is about to run a line, which is this one but for space around it. */
  ghost predicate StandsOn(config: Configuration, source: string) {
    && IsRunning(config) && config.chain.None? && Top(config).line < |Top(config).lines|
    && Trim(Top(config).lines[Top(config).line]) == source
  }

  /** Control goes on at the next line, with this editor. */
  function NextLineWith(config: Configuration, editor: State): Move
    requires config.stack != []
  {
    var top := config.stack[|config.stack| - 1];
    Go(Configuration(config.stack[..|config.stack| - 1] + [top.(line := top.line + 1)], None, editor))
  }

  /** The editor once a control line was shown, if commands are monitored. */
  function Shown(editor: State, line: string): State {
    if editor.monitored then editor.(output := editor.output + (line + "\n")) else editor
  }

  /** Lines without directives are read as they are, and comments as they are in any case. */
  lemma {:induction false} LineIsRead(config: Configuration, source: string, maxDepth: nat)
    requires StandsOn(config, source) && source != "" && IsTight(source) && (IsUndirected(source) || source[0] == '"')
    ensures Next(config, maxDepth) == NextExpanded(config, Marked(source, 0, Normal), maxDepth)
    ensures Trim(Values(Marked(source, 0, Normal))) == source
  {
    hide IsUndirected, NextExpanded, CommandInput, Trim, IsConsistent, Marked;
    MarkedValues(source, 0, Normal);
    TightIsTrimmed(source);
    if source[0] != '"' {
      UndirectedInput(source, LineTexts(config.editor), maxDepth);
    }
  }

  /** Nothing happens on an empty line. */
  lemma {:induction false} BlankLine(config: Configuration, maxDepth: nat)
    requires StandsOn(config, "")
    ensures Next(config, maxDepth) == NextLineWith(config, config.editor)
  {
  }

  /** Behind the last line of a procedure, control goes back to where it was called. */
  lemma {:induction false} ProcedureEnds(config: Configuration, maxDepth: nat)
    requires IsRunning(config) && config.chain.None? && Top(config).line == |Top(config).lines|
    ensures Next(config, maxDepth) == Go(config.(stack := config.stack[..|config.stack| - 1]))
  {
  }

  /** Lines of other kinds than directives and labels. */
  lemma {:induction false} ControlIsNext(config: Configuration, source: string, maxDepth: nat)
    requires StandsOn(config, source) && source != "" && IsTight(source) && (IsUndirected(source) || source[0] == '"')
    requires source[0] !in {'\\', '@'}
    ensures Next(config, maxDepth) == NextControl(config, source, Marked(source, 0, Normal))
  {
    hide IsUndirected, NextControl, Trim, IsConsistent, Marked, BufferDirective, LabelDefinition, IsTight, Next;
    LineIsRead(config, source, maxDepth);
    BufferDirectives('x', "", "", source);
    LabelsAreTold("", "", "", source);
  }

  // ---------------------------------------------------------------- labels and jumps

  /** A label is passed, and shown if commands are monitored; a malformed one stops the procedure. */
  lemma {:induction false} LabelRuns(config: Configuration, name: string, maxDepth: nat)
    requires StandsOn(config, "@(" + (name + ")")) && '\\' !in name
    ensures Next(config, maxDepth) ==
            if CanLabel(name) then NextLineWith(config, Shown(config.editor, "@(" + (name + ")")))
            else Halt(config.editor, Top(config).line, false)
  {
    hide IsUndirected, Trim, IsConsistent, Marked, BufferDirective, LabelDefinition, Next, CanLabel;
    var source := "@(" + (name + ")");
    PlainInFront(source, "");
    NothingUndirected();
    assert source + "" == source && "" + source + "" == source;
    LineIsRead(config, source, maxDepth);
    BufferDirectives('x', "", "", source);
    LabelsAreTold("", name, "", "");
  }

  lemma {:induction false} NothingUndirected()
    ensures IsUndirected("")
  {
  }

  function JumpText(letter: char, name: string, suffix: string): string {
    [letter] + ("(" + (name + (")" + suffix)))
  }

  /** A jump looks for its label if the condition is as it asks, and is passed otherwise. */
  function Jumped(config: Configuration, name: string, required: Option<bool>, told: State): Move
    requires config.stack != []
  {
    if required == Some(true) && !told.condition then NextLineWith(config, told)
    else if required == Some(false) && told.condition then NextLineWith(config, told)
    else Seek(name, told)
  }

  lemma {:induction false} JumpRuns(config: Configuration, letter: char, name: string, suffix: string,
                                    required: Option<bool>,
                                    maxDepth: nat)
    requires letter in {'J', 'j'} && CanLabel(name) && '\\' !in name && IsSuffix(suffix, required)
    requires StandsOn(config, JumpText(letter, name, suffix))
    ensures Next(config, maxDepth) ==
            Jumped(config, name, required, Shown(config.editor, JumpText(letter, name, suffix)))
  {
    hide IsUndirected, Trim, IsConsistent, Marked, Next, CanLabel, JumpDirective;
    var source := JumpText(letter, name, suffix);
    JumpIsPlain(letter, name, suffix, required);
    ControlIsNext(config, source, maxDepth);
    JumpsAreTold(letter, name, "", suffix, required);
    assert "" + suffix == suffix;
    NotNumeric(source);
  }

  lemma {:induction false} JumpIsPlain(letter: char, name: string, suffix: string, required: Option<bool>)
    requires letter in {'J', 'j'} && '\\' !in name && IsSuffix(suffix, required)
    ensures var source := JumpText(letter, name, suffix);
      IsTight(source) && IsUndirected(source) && source != "" && source[0] == letter && IsTight(suffix) &&
          '\\' !in suffix
  {
    var source := JumpText(letter, name, suffix);
    PlainInFront(source, "");
    NothingUndirected();
    assert source + "" == source;
  }

  lemma {:induction false} NotNumeric(source: string)
    requires IsTight(source) && source != "" && (source[0] !in {'N', 'n'} || |source| < 2 || source[1] != '(')
    ensures !IsNumericLine(source)
  {
    TightIsTrimmed(source);
  }

  // ---------------------------------------------------------------- numeric operations

  /** The editor after some operations on a register. */
  function Computed(editor: State, name: string, operations: seq<Operation>): State
    requires IsConsistent(editor)
  {
    var after := AllOperated(operations, name, |Here(editor).lines|, Here(editor).currentLine,
                             Numeric(editor.registers, editor.condition, editor.counter));
    editor.(registers := after.registers, condition := after.condition, counter := after.counter)
  }

  /** Numeric operations, alone or with a jump behind them: the jump goes by the condition that they leave. Something
    else
    behind them stops the procedure, and so does an operation that fails. */
  lemma {:induction false} NumericRuns(config: Configuration, letter: char, name: string, operations: seq<Operation>,
                                       rest: string, maxDepth: nat)
    requires letter in {'N', 'n'} && ')' !in name && IsTight(rest) && EndsOperations(rest)
    requires var source := NumericText(letter, name, operations, rest); StandsOn(config, source) && IsUndirected(source)
    ensures IsConsistent(config.editor)
    ensures var source := NumericText(letter, name, operations, rest);
      var told := Shown(Computed(config.editor, name, operations), source);
      var jump := JumpDirective(rest);
      Next(config, maxDepth) ==
      if !CanRegister(name) then Halt(config.editor, Top(config).line, false)
      else if operations == [] || !HaveAmounts(operations) then
        Halt(Computed(config.editor, name, operations), Top(config).line, false)
      else if rest == "" then NextLineWith(config, told)
      else if jump.Ok? && jump.value.Some? then Jumped(config, jump.value.value.name, jump.value.value.required, told)
      else Halt(told, Top(config).line, false)
  {
    hide IsUndirected, Trim, IsConsistent, Marked, Next, CanRegister, HaveAmounts, NumericLine, IsNumericLine,
         JumpDirective, AllOperated, IsTight, EndsOperations;
    var source, editor := NumericText(letter, name, operations, rest), config.editor;
    NumericBegins(letter, name, operations, rest);
    StandsConsistent(config, source);
    NumericMeans(letter, name, operations, rest, |Here(editor).lines|, Here(editor).currentLine, NumericOf(editor));
    ControlIsNext(config, source, maxDepth);
    SameState(editor);
  }

  lemma {:induction false} SameState(editor: State)
    ensures Calculated(editor, NumericOf(editor)) == editor
  {
  }

  lemma {:induction false} StandsConsistent(config: Configuration, source: string)
    requires StandsOn(config, source)
    ensures IsConsistent(config.editor) && config.editor.current in config.editor.texts
  {
  }

  lemma {:induction false} NumericBegins(letter: char, name: string, operations: seq<Operation>, rest: string)
    requires letter in {'N', 'n'}
    ensures var source := NumericText(letter, name, operations, rest); source != "" && source[0] == letter
  {
  }

  /** For all 64-bit integers, `N(register):a`, a comparison with `b`, and a jump: the register and the counter are
    `a`, and
    the jump is taken exactly if the comparison holds, for `T`, or fails, for `F`. */
  lemma {:induction false} ComparisonJumps(config: Configuration, name: string, a: int, sign: char, b: int,
                                           target: string,
                                           suffix: string, wanted: bool, maxDepth: nat)
    requires CanRegister(name) && '\\' !in name && CanLabel(target) && '\\' !in target && sign in {'=', '<', '>'}
    requires -9223372036854775808 <= a <= 9223372036854775807 && -9223372036854775808 <= b <= 9223372036854775807
    requires IsSuffix(suffix, Some(wanted))
    requires StandsOn(config, ComparisonText(name, a, sign, b, JumpText('J', target, suffix)))
    ensures var source := ComparisonText(name, a, sign, b, JumpText('J', target, suffix));
      var holds := match sign case '=' => a == b case '<' => a < b case _ => a > b;
      var told := Shown(config.editor.(registers := config.editor.registers[name := a], condition := holds,
                                       counter := a), source);
      Next(config, maxDepth) == if holds == wanted then Seek(target, told) else NextLineWith(config, told)
  {
    hide IsUndirected, Trim, IsConsistent, Next, CanRegister, CanLabel, HaveAmounts, JumpDirective, AllOperated,
         PrintedInteger, HasAmount;
    var rest := JumpText('J', target, suffix);
    var one, two := Assign(Number(a)), Compared(sign, b);
    JumpIsPlain('J', target, suffix, Some(wanted));
    ComparisonIs(name, a, sign, b, rest);
    ComparisonIsPlain(name, a, sign, b, rest);
    RegisterHasNoParenthesis(name);
    JumpEndsOperations(target, suffix);
    NumericRuns(config, 'N', name, [one, two], rest, maxDepth);
    JumpsAreTold('J', target, "", suffix, Some(wanted));
    assert "" + suffix == suffix;
    var editor := config.editor;
    StandsConsistent(config, ComparisonText(name, a, sign, b, rest));
    AreAmounts(a, sign, b);
    TwoOperated(one, two, name, |Here(editor).lines|, Here(editor).currentLine, NumericOf(editor));
  }

  function ComparisonText(name: string, a: int, sign: char, b: int, rest: string): string {
    "N(" + (name + (")" + ((":" + PrintedInteger(a)) + ([sign] + PrintedInteger(b)) + rest)))
  }

  function Compared(sign: char, b: int): Operation {
    match sign
    case '=' => Equal(Number(b))
    case '<' => Less(Number(b))
    case _ => Greater(Number(b))
  }

  lemma {:induction false} AreAmounts(a: int, sign: char, b: int)
    requires -9223372036854775808 <= a <= 9223372036854775807 && -9223372036854775808 <= b <= 9223372036854775807
    ensures HasAmount(Assign(Number(a)).operand) && HasAmount(Compared(sign, b).operand)
  {
  }

  lemma {:induction false} RegisterHasNoParenthesis(name: string)
    requires CanRegister(name)
    ensures ')' !in name
  {
  }

  lemma {:induction false} JumpEndsOperations(target: string, suffix: string)
    ensures EndsOperations(JumpText('J', target, suffix))
  {
  }

  lemma {:induction false} ComparisonIs(name: string, a: int, sign: char, b: int, rest: string)
    requires sign in {'=', '<', '>'}
    ensures NumericText('N', name, [Assign(Number(a)), Compared(sign, b)], rest) ==
            ComparisonText(name, a, sign, b, rest)
  {
    hide PrintedInteger, OperationsText, NumericText;
    NumericTextIs(name, [Assign(Number(a)), Compared(sign, b)], rest);
    TwoTexts(Assign(Number(a)), Compared(sign, b));
  }

  lemma {:induction false} ComparisonIsPlain(name: string, a: int, sign: char, b: int, rest: string)
    requires sign in {'=', '<', '>'} && '\\' !in name && '\\' !in rest
    ensures IsUndirected(ComparisonText(name, a, sign, b, rest))
  {
    hide PrintedInteger;
    var text := ComparisonText(name, a, sign, b, rest);
    PrintedIsPlain(a);
    PrintedIsPlain(b);
    PlainInFront(text, "");
    NothingUndirected();
    assert text + "" == text;
  }

  lemma {:induction false} PrintedIsPlain(value: int)
    ensures '\\' !in PrintedInteger(value)
  {
  }

  // ---------------------------------------------------------------- procedures

  /** `\B(name)` alone on a line runs another procedure, if there is a buffer of that name and room on the stack; this
    one will
    go on at the next line. */
  lemma {:induction false} CallRuns(config: Configuration, letter: char, name: string, maxDepth: nat)
    requires letter in {'B', 'b'} && name != "" && ')' !in name && '\\' !in name
    requires StandsOn(config, CallText(letter, name))
    ensures var told := Shown(config.editor, CallText(letter, name)); var top := Top(config);
      Next(config, maxDepth) ==
      if |config.stack| < maxDepth && name in told.texts then
        Go(Configuration(config.stack[..|config.stack| - 1] + [top.(line := top.line + 1)] +
                         [Procedure(told.texts[name].lines, 0)],
                         None, told))
      else Halt(told, top.line, false)
  {
    hide IsUndirected, Trim, IsConsistent, Marked, Next, BufferDirective;
    CallIsPlain(letter, name);
    LineIsRead(config, CallText(letter, name), maxDepth);
    BufferDirectives(letter, name, "", "");
  }

  function CallText(letter: char, name: string): string {
    ['\\', letter] + ("(" + (name + ")"))
  }

  lemma {:induction false} CallIsPlain(letter: char, name: string)
    requires letter in {'B', 'b'} && '\\' !in name
    ensures var source := CallText(letter, name); source != "" && IsTight(source) && IsUndirected(source)
  {
    var source := CallText(letter, name);
    assert source[1..] == [letter] + ("(" + (name + ")"));
    PlainInFront(source[1..], "");
    NothingUndirected();
    assert source[1..] + "" == source[1..];
  }

  // ---------------------------------------------------------------- commands

  /** The machine is in the middle of a line, whose remaining commands are these. */
  function InLine(config: Configuration, tokens: seq<Token>, position: nat, editor: State): Configuration
    requires config.stack != []
  {
    var top := config.stack[|config.stack| - 1];
    Configuration(config.stack[..|config.stack| - 1] + [top.(line := top.line + 1)], Some(Chain(tokens, position)),
                  editor)
  }

  /** A command line is shown if commands are monitored, unless it is a comment, and its commands are run next. */
  lemma {:induction false} CommandsBegin(config: Configuration, source: string, maxDepth: nat)
    requires StandsOn(config, source) && source != "" && IsTight(source) && (IsUndirected(source) || source[0] == '"')
    requires source[0] !in {'\\', '@'} && !(|source| >= 2 && source[0] in {'N', 'n', 'J', 'j'} && source[1] == '(')
    ensures Next(config, maxDepth) ==
            Go(InLine(config, TokensOf(source), 0, if source[0] == '"' then config.editor
                      else Shown(config.editor, source)))
  {
    hide IsUndirected, Trim, IsConsistent, Marked, Next, JumpDirective, IsTight, AllTokens;
    ControlIsNext(config, source, maxDepth);
    OtherJumps("", source);
    NotNumeric(source);
    TypedCommands.MarkedIsTyped(source);
    TightIsTrimmed(source);
  }

  /** No typed command looks like a control line. */
  lemma {:induction false} CommandIsNoControl(place: Place, t: Typing)
    requires IsPlace(place) && IsTypable(t)
    ensures var source := PlaceText(place) + TextOf(t);
      && source != "" && source[0] !in {'\\', '@'}
      && !(|source| >= 2 && source[0] in {'N', 'n', 'J', 'j'} && source[1] == '(')
  {
    hide AddressText.Print;
    if place.At? {
      AddressStart(place.address);
      var text := PlaceText(place);
      assert (text + TextOf(t))[0] == text[0];
      DigitIsNoLetter(text[0]);
    } else if place.Everywhere? {
      assert (PlaceText(place) + TextOf(t))[0] == '*';
    } else {
      assert PlaceText(place) + TextOf(t) == TextOf(t);
      TextIsNoControl(t);
    }
  }

  lemma {:induction false} DigitIsNoLetter(c: char)
    ensures IsDigit(c) || c in {'.', '$', '+', '-'} ==> c !in {'\\', '@', 'N', 'n', 'J', 'j'}
  {
  }

  lemma {:induction false} TextIsNoControl(t: Typing)
    requires IsTypable(t)
    ensures var source := TextOf(t);
      && source != "" && source[0] !in {'\\', '@'}
      && !(|source| >= 2 && source[0] in {'N', 'n', 'J', 'j'} && source[1] == '(')
  {
    hide TrailingBackslashes, AddressText.Print, IsOperandText;
    match t
    case Word(letters) =>
    case Search(inverted, _, _, _) => assert TextOf(t)[0] == 'G';
    case Collect(_, _) => assert TextOf(t)[0] == 'Z';
    case _ =>
  }

  /** Once the commands of a line are done, control goes on behind it. */
  lemma {:induction false} LineIsDone(config: Configuration, tokens: seq<Token>, maxDepth: nat)
    requires IsRunning(config) && tokens != [] && config.chain == Some(Chain(tokens, |tokens| - 1))
    ensures Next(config, maxDepth) == Go(config.(chain := None))
  {
  }

  /** Where the text of a text command ends: at the first line that says so. */
  ghost predicate IsBlockEnd(lines: seq<string>, from: nat, end: Option<nat>) {
    match end
    case Some(e) => from <= e < |lines| && IsTextTerminator(lines[e]) && forall k :: from <= k < e ==>
        !IsTextTerminator(lines[k])
    case None => forall k :: from <= k < |lines| ==> !IsTextTerminator(lines[k])
  }

  lemma {:induction false} BlockEndIs(lines: seq<string>, from: nat, end: Option<nat>)
    requires from <= |lines| && IsBlockEnd(lines, from, end)
    ensures BlockEnd(lines, from) == end
    decreases |lines| - from
  {
    hide IsTextTerminator;
    if from < |lines| && !IsTextTerminator(lines[from]) {
      BlockEndIs(lines, from + 1, end);
    }
  }

  /** A command in a line is run, as it would be if it was typed, and a text command with the lines behind it, up to
    the one that
    ends its text; control goes on behind that. A command that fails stops the procedure,
        at its line or at the one that ends its
    text, and so does text without an end. */
  lemma {:induction false} CommandRuns(config: Configuration, place: Place, t: Typing, end: Option<nat>, maxDepth: nat)
    requires IsPlace(place) && IsTypable(t) && LineMeaning(place, t).Ok?
    requires IsRunning(config) && config.chain == Some(Chain(TokensOf(PlaceText(place) + TextOf(t)), 0))
    requires IsBlockEnd(Top(config).lines, Top(config).line, end)
    ensures var command := LineMeaning(place, t).value; var tokens := config.chain.value.tokens; var top := Top(config);
      tokens != [] && top.line > 0 &&
      if IsTextCommand(command) && end.None? then Next(config, maxDepth) == Halt(config.editor, top.line - 1, false)
      else
        var text := if IsTextCommand(command) then top.lines[top.line..end.value] else [];
        var run := Executed(config.editor, Input(command, text));
        Next(config, maxDepth) ==
        if run.succeeded then
          Go(Configuration(if IsTextCommand(command) then Reset(config.stack, end.value + 1) else config.stack,
                           Some(Chain(tokens, |tokens| - 1)), run.after))
        else Halt(run.after, if IsTextCommand(command) then end.value else top.line - 1, false)
  {
    hide IsConsistent, TokensOf, TextOf, PlaceText, LineMeaning, ParseCommand, Executed, BlockEnd, IsBlockEnd,
         IsTypable, IsPlace, IsTextCommand;
    TypedLineParses(place, t, false);
    var text := PlaceText(place) + TextOf(t);
    assert text + "" == text;
    var tokens := TokensOf(text);
    NotAtEnd(tokens);
    WholeIs(tokens, LineMeaning(place, t));
    LastInChain(tokens, 0);
    BlockEndIs(Top(config).lines, Top(config).line, end);
    ParsedRuns(config, LineMeaning(place, t).value, tokens, end, maxDepth);
  }

  lemma {:induction false} ParsedRuns(config: Configuration, command: Command, tokens: seq<Token>, end: Option<nat>,
                                      maxDepth: nat)
    requires IsRunning(config) && config.chain == Some(Chain(tokens, 0)) && |tokens| > 1
    requires ParseCommand(tokens, 0, true) == Ok((command, |tokens| - 1))
    requires BlockEnd(Top(config).lines, Top(config).line) == end
    ensures var top := Top(config);
      top.line > 0 &&
      if IsTextCommand(command) && end.None? then Next(config, maxDepth) == Halt(config.editor, top.line - 1, false)
      else
        var text := if IsTextCommand(command) then top.lines[top.line..end.value] else [];
        var run := Executed(config.editor, Input(command, text));
        Next(config, maxDepth) ==
        if run.succeeded then
          Go(Configuration(if IsTextCommand(command) then Reset(config.stack, end.value + 1) else config.stack,
                           Some(Chain(tokens, |tokens| - 1)), run.after))
        else Halt(run.after, if IsTextCommand(command) then end.value else top.line - 1, false)
  {
    hide IsConsistent, Executed, BlockEnd, IsTextCommand, ParseCommand, AreTokens;
    StackStays(config.stack);
    assert Next(config, maxDepth) == NextParsed(config, command, |tokens| - 1);
    if !IsTextCommand(command) {
      assert Next(config, maxDepth) == NextInput(config, Input(command, []), |tokens| - 1, Top(config).line);
    } else if end.Some? {
      var text := Top(config).lines[Top(config).line..end.value];
      assert Next(config, maxDepth) == NextInput(config, Input(command, text), |tokens| - 1, end.value + 1);
      assert ProcedureMachine.At(config.stack, end.value + 1) == Reset(config.stack, end.value + 1);
    }
  }

  lemma {:induction false} StackStays(stack: seq<Procedure>)
    requires stack != []
    ensures ProcedureMachine.At(stack, stack[|stack| - 1].line) == stack
    ensures forall line :: ProcedureMachine.At(stack, line) == Reset(stack, line)
  {
    var last := |stack| - 1;
    assert stack[last].(line := stack[last].line) == stack[last];
  }

  lemma {:induction false} WholeIs(tokens: seq<Token>, meaning: Result<Command>)
    requires |tokens| > 0 && meaning.Ok?
    ensures Whole(tokens, meaning) == Ok((meaning.value, |tokens| - 1))
  {
  }

  lemma {:induction false} NotAtEnd(tokens: seq<Token>)
    requires AreTokens(tokens) && |tokens| > 0
    ensures |tokens| == 1 ==> ParseCommand(tokens, 0, false).Fail?
  {
  }

  /** The topmost procedure goes on at another line. */
  function Reset(stack: seq<Procedure>, line: nat): seq<Procedure>
    requires stack != []
  {
    stack[..|stack| - 1] + [stack[|stack| - 1].(line := line)]
  }

  // ---------------------------------------------------------------- errors

  /** An error is shown with the line where it happened and up to two more, and dots if there are others. */
  lemma {:induction false} ContextShows(before: seq<string>, shown: seq<string>, rest: seq<string>)
    requires |shown| <= 3 && (rest != [] ==> |shown| == 3)
    ensures ErrorContext(before + shown + rest, |before|) ==
            ["procedure stopped; remaining input:"] + shown + (if rest == [] then [] else ["..."])
  {
    var lines, last := before + shown + rest, |before| + |shown|;
    assert lines[|before|..last] == shown;
  }

  /** The innermost procedure shows the error; but if that happened while a line was expanded, the one that called it
    shows the
    line with the call instead, if there is one. */
  lemma {:induction false} ErrorIsShown(stack: seq<Procedure>, outer: Procedure, inner: Procedure, editor: State,
                                        line: nat)
    requires outer.line > 0
    ensures Reporters([inner], Stop(editor, line, true)) == 0
    ensures Reported(stack + [inner], Stop(editor, line, false)) ==
            editor.(output := editor.output + PrintedLines(ErrorContext(inner.lines, line)))
    ensures Reported(stack + [outer, inner], Stop(editor, line, true)) ==
            editor.(output := editor.output + PrintedLines(ErrorContext(outer.lines, outer.line - 1)))
  {
    hide ErrorContext, PrintedLines;
    assert (stack + [outer, inner])[|stack|] == outer && (stack + [inner])[|stack|] == inner;
  }

  // ---------------------------------------------------------------- jumps

  /** Labels are compared without regard to case. */
  lemma {:induction false} CaseCountsNot(one: string, two: string, k: nat)
    ensures EqualsIgnoringCase(one, two) ==>
      |one| == |two| && (k < |one| ==> one[k] == two[k] || (IsLetter(one[k]) && IsLetter(two[k])))
    ensures one == two ==> EqualsIgnoringCase(one, two)
    ensures EqualsIgnoringCase("loop", "LOOP") && EqualsIgnoringCase("Exit", "eXIT") &&
            !EqualsIgnoringCase("loop", "lop")
  {
  }

  /** A line that defines a label is one with it in parentheses, behind the sign for labels. */
  lemma {:induction false} DefinesLabel(before: string, name: string, behind: string, sought: string)
    requires IsBlank(before) && IsBlank(behind)
    ensures Defines(before + ("@(" + (name + ")")) + behind, sought) <==>
            CanLabel(name) && EqualsIgnoringCase(name, sought)
  {
    hide EqualsIgnoringCase, LabelOn;
    LabelsAreTold(before, name, behind, "");
  }

  /** A jump goes behind the next line that defines its label, or else behind the first one of the procedure that does,
    other
    than the line of the jump itself. */
  lemma {:induction false} JumpLands(before: Configuration, after: Configuration, name: string, told: State,
                                     maxDepth: nat)
    requires Steps(before, after, maxDepth) && Next(before, maxDepth) == Seek(name, told)
    requires Top(before).line < |Top(before).lines|
    ensures var lines, here := Top(before).lines, Top(before).line;
      && after.stack != [] && after.stack[..|after.stack| - 1] == before.stack[..|before.stack| - 1]
      && after.chain.None? && after.editor == told && Top(after).lines == lines && 0 < Top(after).line <= |lines|
      && var target := Top(after).line - 1;
        && target != here && Defines(lines[target], name)
        && (target > here ==> forall k :: here < k < target ==> !Defines(lines[k], name))
        && (target < here ==>
              && (forall k :: here < k < |lines| ==> !Defines(lines[k], name))
              && forall k :: 0 <= k < target ==> !Defines(lines[k], name))
  {
    hide Next, IsRunning, Defines;
    var target: nat :| JumpsTo(before, name, told, target, after);
    TargetIsFirst(Top(before).lines, Top(before).line, name, target);
  }

  lemma {:induction false} TargetIsFirst(lines: seq<string>, here: nat, name: string, target: nat)
    requires here < |lines| && IsJumpTarget(lines, here, name, Some(target))
    ensures target < |lines| && target != here && Defines(lines[target], name)
    ensures target > here ==> forall k :: here < k < target ==> !Defines(lines[k], name)
    ensures target < here ==> forall k :: here < k < |lines| ==> !Defines(lines[k], name)
    ensures target < here ==> forall k :: 0 <= k < target ==> !Defines(lines[k], name)
  {
    hide Defines;
  }

  /** Without such a line, the procedure stops where the jump is; and once something asked to leave, nothing happens
    any more. */
  lemma {:induction false} NowhereToJump(config: Configuration, after: Configuration, name: string, told: State,
                                         maxDepth: nat)
    requires IsRunning(config) && Next(config, maxDepth) == Seek(name, told) && Top(config).line < |Top(config).lines|
    requires forall k :: 0 <= k < |Top(config).lines| && k != Top(config).line ==> !Defines(Top(config).lines[k], name)
    ensures !Steps(config, after, maxDepth) && Stopped(config, maxDepth) == Some(Stop(told, Top(config).line, false))
    ensures !Steps(config.(editor := config.editor.(exit := true)), after, maxDepth)
  {
    hide Next, Defines;
  }

  /** Lines can include the text of any buffer. */
  lemma {:induction false} AllTextsAreIncluded(state: State, name: string)
    ensures LineTexts(state).Keys == state.texts.Keys
    ensures name in state.texts ==> LineTexts(state)[name] == state.texts[name].lines
  {
  }
}
