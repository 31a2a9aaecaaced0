/** What the lines of a procedure mean, told from their text. */
module ProcedureLaws {
  import opened Outcomes
  import opened Characters
  import opened Numbers
  import opened TextFiles
  import opened Procedures

  // ---------------------------------------------------------------- space around a line

  const SPACES: set<char> := {' ', '\t', '\n', '\r', 11 as char, 12 as char}

  predicate IsBlank(text: string) {
    forall k :: 0 <= k < |text| ==> text[k] in SPACES
  }

  /** No space around it. */
  predicate IsTight(text: string) {
    text == "" || (text[0] !in SPACES && text[|text| - 1] !in SPACES)
  }

  /** Space around a line counts for nothing. */
  lemma {:induction false} SpaceIsTrimmed(before: string, text: string, behind: string)
    requires IsBlank(before) && IsTight(text) && IsBlank(behind)
    ensures Trim(before + text + behind) == text
  {
    TrimmedLeft(before, text + behind);
    assert before + text + behind == before + (text + behind);
    if text == "" {
      assert text + behind == behind;
      assert behind + "" == behind;
      TrimmedLeft(behind, "");
      TrimmedRight("", "");
      assert before + behind + "" == before + behind;
      TrimmedLeft(before + behind, "");
    } else {
      TrimmedRight(text, behind);
    }
  }

  lemma {:induction false} TrimmedLeft(before: string, text: string)
    requires IsBlank(before)
    ensures text == "" || text[0] !in SPACES ==> TrimLeft(before + text) == text
    ensures TrimLeft(before + text) == TrimLeft(text)
  {
    if before == "" {
      assert before + text == text;
    } else {
      assert (before + text)[1..] == before[1..] + text;
      TrimmedLeft(before[1..], text);
    }
  }

  lemma {:induction false} TrimmedRight(text: string, behind: string)
    requires IsBlank(behind) && (text == "" || text[|text| - 1] !in SPACES)
    ensures TrimRight(text + behind) == text
  {
    if behind == "" {
      assert text + behind == text;
    } else {
      var shorter := behind[..|behind| - 1];
      assert (text + behind)[..|text + behind| - 1] == text + shorter;
      TrimmedRight(text, shorter);
    }
  }

  lemma {:induction false} TightIsTrimmed(text: string)
    requires IsTight(text)
    ensures Trim(text) == text
  {
    SpaceIsTrimmed("", text, "");
    assert "" + text + "" == text;
  }

  // ---------------------------------------------------------------- directives

  /** A line is a comment if a quote begins it, and `\F` in either case ends text. */
  lemma {:induction false} MarksAreTold(before: string, text: string, behind: string)
    requires IsBlank(before) && IsTight(text) && IsBlank(behind)
    ensures IsComment(before + text + behind) <==> text != "" && text[0] == '"'
    ensures IsTextTerminator(before + text + behind) <==> text == "\\F" || text == "\\f"
  {
    SpaceIsTrimmed(before, text, behind);
  }

  /** `\B(name)` alone on a line names a procedure to run; with something else between or behind the parentheses it is
    malformed, and a line that begins otherwise is none. */
  lemma {:induction false} BufferDirectives(letter: char, name: string, rest: string, other: string)
    ensures letter in {'B', 'b'} && ')' !in name ==>
      BufferDirective(['\\', letter] + ("(" + (name + ")"))) == (if name == "" then Fail else Ok(Some(name)))
    ensures letter in {'B', 'b'} && rest != "" && IsTight(['\\', letter] + rest) && rest[0] != '(' ==>
      BufferDirective(['\\', letter] + rest).Fail?
    ensures letter in {'B', 'b'} && ')' in name ==> BufferDirective(['\\', letter] + ("(" + (name + ")"))).Fail?
    ensures letter in {'B', 'b'} && IsTight("\\" + ([letter] + ("(" + rest))) &&
            (rest == "" || rest[|rest| - 1] != ')') ==>
      BufferDirective("\\" + ([letter] + ("(" + rest))).Fail?
    ensures IsTight(other) && (|other| < 3 || other[0] != '\\' || other[1] !in {'B', 'b'}) ==>
            BufferDirective(other) == Ok(None)
  {
    var line := ['\\', letter] + ("(" + (name + ")"));
    if letter in {'B', 'b'} {
      TightIsTrimmed(line);
      assert line[3..|line| - 1] == name;
      if rest != "" && IsTight(['\\', letter] + rest) {
        TightIsTrimmed(['\\', letter] + rest);
      }
      if IsTight("\\" + ([letter] + ("(" + rest))) {
        TightIsTrimmed("\\" + ([letter] + ("(" + rest)));
      }
    }
    if IsTight(other) {
      TightIsTrimmed(other);
    }
  }

  // ---------------------------------------------------------------- labels and jumps

  /** A label has 1 to 15 bytes, none of them a parenthesis. */
  predicate CanLabel(name: string) {
    1 <= |name| <= 15 && '(' !in name && ')' !in name
  }

  /** `@(name)` defines a label, for jumps and when it is run; any other line that begins with `@` is malformed, and
    defines
    none; lines that do not are not about labels. */
  lemma {:induction false} LabelsAreTold(before: string, name: string, behind: string, other: string)
    requires IsBlank(before) && IsBlank(behind)
    ensures var line := before + ("@(" + (name + ")")) + behind;
      if CanLabel(name) then LabelOn(line) == Some(name) && LabelDefinition(line) == Ok(Some(name))
      else LabelOn(line) == None && LabelDefinition(line).Fail?
    ensures IsTight(other) && other != "" && other[0] == '@' &&
            (|other| < 2 || other[1] != '(' || other[|other| - 1] != ')') ==>
      LabelOn(other) == None && LabelDefinition(other).Fail?
    ensures IsTight(other) && (other == "" || other[0] != '@') ==>
            LabelOn(other) == None && LabelDefinition(other) == Ok(None)
  {
    var text := "@(" + (name + ")");
    SpaceIsTrimmed(before, text, behind);
    assert text[2..|text| - 1] == name;
    if IsTight(other) {
      TightIsTrimmed(other);
    }
  }

  /** What stands behind the label of a jump: the condition that it depends on. */
  predicate IsSuffix(suffix: string, required: Option<bool>) {
    match required
    case None => suffix == ""
    case Some(wanted) => suffix in (if wanted then {"T", "t"} else {"F", "f"})
  }

  /** `J(label)`, with `T` or `F` behind it, perhaps behind space. */
  lemma {:induction false} JumpsAreTold(letter: char, name: string, blank: string, suffix: string,
                                        required: Option<bool>)
    requires letter in {'J', 'j'} && IsBlank(blank) && (suffix == "" ==> blank == "") && IsTight(suffix)
    ensures var jump := JumpDirective([letter] + ("(" + (name + (")" + (blank + suffix)))));
      && (CanLabel(name) && IsSuffix(suffix, required) ==> jump == Ok(Some(Jump(name, required))))
      && (CanLabel(name) && (forall r :: !IsSuffix(suffix, r)) ==> jump.Fail?)
      && (')' !in name && !CanLabel(name) ==> jump.Fail?)
  {
    hide JumpDirective, IsTight, IsBlank, Trim, CanLabel, IsSuffix;
    var line := [letter] + ("(" + (name + (")" + (blank + suffix))));
    JumpIsTight(letter, name, blank, suffix);
    TightIsTrimmed(line);
    SpaceIsTrimmed(blank, suffix, "");
    assert blank + suffix + "" == blank + suffix;
    LabelHasNoParenthesis(name);
    if ')' !in name {
      JumpParts(letter, name, blank + suffix, suffix);
      SuffixIsOne(suffix, required);
    }
  }

  lemma {:induction false} LabelHasNoParenthesis(name: string)
    ensures CanLabel(name) ==> ')' !in name
  {
  }

  /** A jump, by what stands behind its label. */
  function JumpMeant(name: string, suffix: string): Result<Option<Jump>> {
    if suffix == "" then Ok(Some(Jump(name, None)))
    else if suffix in {"T", "t"} then Ok(Some(Jump(name, Some(true))))
    else if suffix in {"F", "f"} then Ok(Some(Jump(name, Some(false))))
    else Fail
  }

  lemma {:induction false} JumpParts(letter: char, name: string, tail: string, suffix: string)
    requires letter in {'J', 'j'} && ')' !in name && Trim(tail) == suffix
    requires var line := [letter] + ("(" + (name + (")" + tail))); Trim(line) == line
    ensures JumpDirective([letter] + ("(" + (name + (")" + tail)))) == if CanLabel(name) then JumpMeant(name, suffix)
            else Fail
  {
    hide Trim, IndexOf;
    var line := [letter] + ("(" + (name + (")" + tail)));
    assert line[2..] == name + (")" + tail);
    IndexBehind(name, tail);
    assert line[2..|name| + 2] == name && line[|name| + 3..] == tail;
  }

  lemma {:induction false} SuffixIsOne(suffix: string, required: Option<bool>)
    ensures IsSuffix(suffix, required) ==> forall name :: JumpMeant(name, suffix) == Ok(Some(Jump(name, required)))
    ensures (forall r :: !IsSuffix(suffix, r)) ==> forall name :: JumpMeant(name, suffix).Fail?
  {
    if forall r :: !IsSuffix(suffix, r) {
      assert !IsSuffix(suffix, None) && !IsSuffix(suffix, Some(true)) && !IsSuffix(suffix, Some(false));
    }
  }

  lemma {:induction false} JumpIsTight(letter: char, name: string, blank: string, suffix: string)
    requires letter in {'J', 'j'} && (suffix == "" ==> blank == "") && IsTight(suffix)
    ensures IsTight([letter] + ("(" + (name + (")" + (blank + suffix)))))
  {
  }

  lemma {:induction false} IndexBehind(name: string, rest: string)
    requires ')' !in name
    ensures IndexOf(name + (")" + rest), ')') == |name|
  {
    var text := name + (")" + rest);
    assert text[|name|] == ')';
    assert forall k :: 0 <= k < |name| ==> text[k] == name[k];
  }

  /** A jump without a closing parenthesis is malformed; a line that does not begin like one is none. */
  lemma {:induction false} OtherJumps(rest: string, other: string)
    ensures ')' !in rest && IsTight("J(" + rest) ==> JumpDirective("J(" + rest).Fail?
    ensures IsTight(other) && (|other| < 2 || other[0] !in {'J', 'j'} || other[1] != '(') ==>
            JumpDirective(other) == Ok(None)
  {
    if ')' !in rest && IsTight("J(" + rest) {
      TightIsTrimmed("J(" + rest);
      assert ("J(" + rest)[2..] == rest;
    }
    if IsTight(other) {
      TightIsTrimmed(other);
    }
  }

  // ---------------------------------------------------------------- numeric operations

  datatype Operand = LineCount | CurrentLine | Counter | Number(value: int)

  datatype Operation = Assign(operand: Operand) | Equal(operand: Operand) | Less(operand: Operand) | Greater(operand: Operand)

  function OperandText(operand: Operand): string {
    match operand
    case LineCount => "$"
    case CurrentLine => "."
    case Counter => "#"
    case Number(value) => PrintedInteger(value)
  }

  function OperationText(operation: Operation): string {
    match operation
    case Assign(operand) => ":" + OperandText(operand)
    case Equal(operand) => "=" + OperandText(operand)
    case Less(operand) => "<" + OperandText(operand)
    case Greater(operand) => ">" + OperandText(operand)
  }

  function OperationsText(operations: seq<Operation>): string {
    if operations == [] then "" else OperationText(operations[0]) + OperationsText(operations[1..])
  }

  /** Numbers have 64 bits. */
  predicate HasAmount(operand: Operand) {
    operand.Number? ==> -9223372036854775808 <= operand.value <= 9223372036854775807
  }

  function Amount(operand: Operand, lineCount: nat, currentLine: nat, counter: int): int {
    match operand
    case LineCount => lineCount
    case CurrentLine => currentLine
    case Counter => counter
    case Number(value) => value
  }

  /** What an operation does to a register, which is 0 if nothing was assigned to it: assigning sets it, and comparing
    puts the
    outcome into the condition; either way the counter is the register's value then. */
  function Operated(operation: Operation, name: string, lineCount: nat, currentLine: nat, state: Numeric): Numeric {
    var amount := Amount(operation.operand, lineCount, currentLine, state.counter);
    var value := if name in state.registers then state.registers[name] else 0;
    match operation
    case Assign(_) => Numeric(state.registers[name := amount], state.condition, amount)
    case Equal(_) => Numeric(state.registers, value == amount, value)
    case Less(_) => Numeric(state.registers, value < amount, value)
    case Greater(_) => Numeric(state.registers, amount < value, value)
  }

  /** One after the other, up to one whose number is too large. */
  function AllOperated(operations: seq<Operation>, name: string, lineCount: nat, currentLine: nat, state: Numeric):
    Numeric {
    if operations == [] || !HasAmount(operations[0].operand) then state
    else AllOperated(operations[1..], name, lineCount, currentLine,
                     Operated(operations[0], name, lineCount, currentLine, state))
  }

  predicate HaveAmounts(operations: seq<Operation>) {
    forall k :: 0 <= k < |operations| ==> HasAmount(operations[k].operand)
  }

  /** Nothing that continues an operation. */
  predicate EndsOperations(rest: string) {
    rest == "" || (rest[0] !in SPACES && !IsDigit(rest[0]) && rest[0] !in {':', '=', '<', '>'})
  }

  function SignOf(operation: Operation): char {
    match operation
    case Assign(_) => ':'
    case Equal(_) => '='
    case Less(_) => '<'
    case Greater(_) => '>'
  }

  lemma {:induction false} OneOperation(before: string, operation: Operation, rest: string, name: string,
                                        lineCount: nat,
                                        currentLine: nat, state: Numeric)
    requires rest != "" ==> !IsDigit(rest[0])
    ensures var text := before + OperationText(operation) + rest; var next := |before| + |OperationText(operation)|;
      && |before| < |text| && text[|before|] == SignOf(operation) && SkipSpaces(text, |before|) == |before|
      && OperandAt(text, |before| + 1, lineCount, currentLine, state.counter) ==
         (if HasAmount(operation.operand) then
          Ok((Amount(operation.operand, lineCount, currentLine, state.counter), next)) else Fail)
      && Operate(SignOf(operation), name, Amount(operation.operand, lineCount, currentLine, state.counter), state) ==
         Operated(operation, name, lineCount, currentLine, state)
  {
    hide OperandText, OperandAt, Amount, HasAmount;
    var sign := [SignOf(operation)];
    var text := before + OperationText(operation) + rest;
    assert OperationText(operation) == sign + OperandText(operation.operand);
    assert text == (before + sign) + OperandText(operation.operand) + rest;
    OneOperand(before + sign, operation.operand, rest, lineCount, currentLine, state.counter);
    assert text[|before|] == SignOf(operation);
  }

  lemma {:induction false} OneOperand(before: string, operand: Operand, rest: string, lineCount: nat, currentLine: nat,
                                      counter: int)
    requires rest != "" ==> !IsDigit(rest[0])
    ensures OperandAt(before + OperandText(operand) + rest, |before|, lineCount, currentLine, counter) ==
            if HasAmount(operand) then
                Ok((Amount(operand, lineCount, currentLine, counter), |before| + |OperandText(operand)|)) else Fail
  {
    hide PrintedInteger, DecimalAt;
    var text := before + OperandText(operand) + rest;
    if operand.Number? {
      IntegerRoundTrip(before, operand.value, rest);
      PrintedStart(operand.value);
      assert text[|before|] == PrintedInteger(operand.value)[0];
    } else {
      assert text[|before|] == OperandText(operand)[0];
    }
  }

  /** A printed integer begins with a digit or a minus. */
  lemma {:induction false} PrintedStart(value: int)
    ensures var text := PrintedInteger(value); text != "" && (IsDigit(text[0]) || text[0] == '-')
  {
    DecimalValue(if value < 0 then -value else value);
  }

  /** The first of some operations, and what is left of them. */
  lemma {:induction false} FirstRuns(before: string, operation: Operation, rest: string, name: string, lineCount: nat,
                                     currentLine: nat, state: Numeric)
    requires rest != "" ==> !IsDigit(rest[0])
    ensures var text := before + OperationText(operation) + rest;
      Operations(text, |before|, name, lineCount, currentLine, state) ==
      if HasAmount(operation.operand) then
        Operations(text, |before| + |OperationText(operation)|, name, lineCount, currentLine,
                   Operated(operation, name, lineCount, currentLine, state))
      else (state, None)
  {
    hide OperationText, OperandAt, Operate, Operated, Amount, Operations, SkipSpaces, HasAmount, SignOf;
    OneOperation(before, operation, rest, name, lineCount, currentLine, state);
    SignsAre(operation);
    OperationsStep(before + OperationText(operation) + rest, |before|, name, lineCount, currentLine, state);
  }

  /** Operations that are written one behind the other are run one after the other. */
  lemma {:induction false} OperationsRun(before: string, operations: seq<Operation>, rest: string, name: string,
                                         lineCount: nat,
                                         currentLine: nat, state: Numeric)
    requires EndsOperations(rest)
    ensures Operations(before + OperationsText(operations) + rest, |before|, name, lineCount, currentLine, state) ==
            (AllOperated(operations, name, lineCount, currentLine, state),
             if HaveAmounts(operations) then Some(|before| + |OperationsText(operations)|) else None)
    decreases |operations|
  {
    hide OperationText, Operated, Operations, SkipSpaces, HasAmount, EndsOperations, HaveAmounts;
    if operations == [] {
      assert before + OperationsText(operations) + rest == before + rest;
      NothingBehind(before, rest);
      NoneIsAll(operations);
      NothingRuns(before, rest, name, lineCount, currentLine, state);
    } else {
      var first, more := OperationText(operations[0]), OperationsText(operations[1..]);
      Rejoined(before, first, more, rest);
      MoreStarts(operations[1..], rest);
      FirstRuns(before, operations[0], more + rest, name, lineCount, currentLine, state);
      FirstAmount(operations);
      if HasAmount(operations[0].operand) {
        OperationsRun(before + first, operations[1..], rest, name, lineCount, currentLine,
                      Operated(operations[0], name, lineCount, currentLine, state));
      }
    }
  }

  lemma {:induction false} NothingRuns(before: string, rest: string, name: string, lineCount: nat, currentLine: nat,
                                       state: Numeric)
    requires EndsOperations(rest)
    ensures Operations(before + rest, |before|, name, lineCount, currentLine, state) == (state, Some(|before|))
  {
    NothingBehind(before, rest);
    hide SkipSpaces;
  }

  lemma {:induction false} Rejoined(before: string, first: string, more: string, rest: string)
    ensures before + (first + more) + rest == before + first + (more + rest) == (before + first) + more + rest
    ensures |before| + |first| == |before + first|
  {
  }

  lemma {:induction false} FirstAmount(operations: seq<Operation>)
    requires operations != []
    ensures HaveAmounts(operations) <==> HasAmount(operations[0].operand) && HaveAmounts(operations[1..])
  {
    hide HasAmount;
    assert forall k :: 0 < k < |operations| ==> operations[k] == operations[1..][k - 1];
  }

  lemma {:induction false} OperationsStep(text: string, position: nat, name: string, lineCount: nat, currentLine: nat,
                                          state: Numeric)
    requires position <= |text|
    ensures Operations(text, position, name, lineCount, currentLine, state) ==
            var at := SkipSpaces(text, position);
            if at == |text| || text[at] !in {':', '=', '<', '>'} then (state, Some(at))
            else
              match OperandAt(text, at + 1, lineCount, currentLine, state.counter)
              case Fail => (state, None)
              case Ok((operand, next)) =>
                Operations(text, next, name, lineCount, currentLine, Operate(text[at], name, operand, state))
  {
    hide SkipSpaces, OperandAt, Operate;
  }

  lemma {:induction false} SignsAre(operation: Operation)
    ensures SignOf(operation) in {':', '=', '<', '>'}
  {
  }

  lemma {:induction false} NothingBehind(before: string, rest: string)
    requires EndsOperations(rest)
    ensures var text := before + rest;
      SkipSpaces(text, |before|) == |before| && (rest != "" ==> text[|before|] == rest[0])
  {
    SpacesAre();
  }

  lemma {:induction false} SpacesAre()
    ensures forall c :: IsSpace(c) <==> c in SPACES
  {
  }

  lemma {:induction false} MoreStarts(operations: seq<Operation>, rest: string)
    requires EndsOperations(rest)
    ensures var text := OperationsText(operations) + rest; text != "" ==> !IsDigit(text[0])
  {
    if operations != [] {
      assert OperationsText(operations)[0] == SignOf(operations[0]);
    }
  }

  /** A register is named by 1 to 14 bytes, none of them a parenthesis. */
  predicate CanRegister(name: string) {
    1 <= |name| <= 14 && '(' !in name && ')' !in name
  }

  function NumericText(letter: char, name: string, operations: seq<Operation>, rest: string): string {
    [letter] + ("(" + (name + (")" + (OperationsText(operations) + rest))))
  }

  /** `N(register)` with some operations does what they do, and leaves what stands behind them to be a jump. Without
    any it
    fails, and so it does with a name that no register can have, and from the first number on that is too large. */
  lemma {:induction false} NumericMeans(letter: char, name: string, operations: seq<Operation>, rest: string,
                                        lineCount: nat,
                                        currentLine: nat, state: Numeric)
    requires letter in {'N', 'n'} && EndsOperations(rest) && IsTight(rest) && ')' !in name
    ensures var line := NumericText(letter, name, operations, rest);
      && IsTight(line) && IsNumericLine(line)
      && NumericLine(line, lineCount, currentLine, state) ==
         if !CanRegister(name) then (state, Fail)
         else (AllOperated(operations, name, lineCount, currentLine, state),
               if operations != [] && HaveAmounts(operations) then Ok(rest) else Fail)
  {
    hide *;
    var line, tail := NumericText(letter, name, operations, rest), OperationsText(operations) + rest;
    NumericUnfolds(letter, name, operations, rest);
    OperationsAreTight(operations, rest);
    NumericIsTight(letter, name, tail);
    TightIsTrimmed(line);
    NumericParts(letter, name, tail, lineCount, currentLine, state);
    var before := [letter] + ("(" + (name + ")"));
    NumericJoined(letter, name, OperationsText(operations), rest);
    OperationsRun(before, operations, rest, name, lineCount, currentLine, state);
    OperationsBegin(before, operations, rest);
    TightIsTrimmed(rest);
    NoneIsAll(operations);
  }

  lemma {:induction false} NumericUnfolds(letter: char, name: string, operations: seq<Operation>, rest: string)
    ensures NumericText(letter, name, operations, rest) ==
            [letter] + ("(" + (name + (")" + (OperationsText(operations) + rest))))
  {
  }

  lemma {:induction false} NumericJoined(letter: char, name: string, text: string, rest: string)
    ensures var line := [letter] + ("(" + (name + (")" + (text + rest)))); var before := [letter] +
            ("(" + (name + ")"));
      line == before + text + rest && |before| == |name| + 3 && line[|before| + |text|..] == rest
  {
    var line, before := [letter] + ("(" + (name + (")" + (text + rest)))), [letter] + ("(" + (name + ")"));
    assert line == before + text + rest;
  }

  lemma {:induction false} NumericParts(letter: char, name: string, tail: string, lineCount: nat, currentLine: nat,
                                        state: Numeric)
    requires letter in {'N', 'n'} && ')' !in name
    requires var line := [letter] + ("(" + (name + (")" + tail))); Trim(line) == line
    ensures var line := [letter] + ("(" + (name + (")" + tail)));
      && IsNumericLine(line)
      && NumericLine(line, lineCount, currentLine, state) ==
         if !CanRegister(name) then (state, Fail)
         else
           var (after, end) := Operations(line, |name| + 3, name, lineCount, currentLine, state);
           if end.None? || end == Some(SkipSpaces(line, |name| + 3)) then (after, Fail)
           else (after, Ok(Trim(line[end.value..])))
  {
    hide Trim, IndexOf, Operations, SkipSpaces;
    var line := [letter] + ("(" + (name + (")" + tail)));
    assert line[2..] == name + (")" + tail);
    IndexBehind(name, tail);
    assert line[2..|name| + 2] == name;
  }

  lemma {:induction false} NoneIsAll(operations: seq<Operation>)
    ensures operations == [] ==> HaveAmounts(operations)
  {
  }

  lemma {:induction false} NumericIsTight(letter: char, name: string, tail: string)
    requires letter in {'N', 'n'} && (tail == "" || tail[|tail| - 1] !in SPACES)
    ensures IsTight([letter] + ("(" + (name + (")" + tail))))
  {
  }

  lemma {:induction false} OperationsBegin(before: string, operations: seq<Operation>, rest: string)
    requires EndsOperations(rest)
    ensures SkipSpaces(before + OperationsText(operations) + rest, |before|) == |before|
    ensures OperationsText(operations) == "" <==> operations == []
  {
    if operations == [] {
      assert before + OperationsText(operations) + rest == before + rest;
      NothingBehind(before, rest);
    } else {
      assert OperationsText(operations)[0] == SignOf(operations[0]);
    }
  }

  lemma {:induction false} OperationsAreTight(operations: seq<Operation>, rest: string)
    requires IsTight(rest)
    ensures var tail := OperationsText(operations) + rest; tail == "" || tail[|tail| - 1] !in SPACES
  {
    hide OperationsText;
    var text := OperationsText(operations);
    if rest != "" {
      assert (text + rest)[|text + rest| - 1] == rest[|rest| - 1];
    } else {
      assert text + rest == text;
      OperationsAlone(operations);
    }
  }

  lemma {:induction false} OperationsAlone(operations: seq<Operation>)
    ensures var text := OperationsText(operations); text == "" || text[|text| - 1] !in SPACES
  {
    if operations != [] {
      OperationsEnd(operations);
      hide OperationsText;
    }
  }

  lemma {:induction false} OperationsEnd(operations: seq<Operation>)
    requires operations != []
    ensures var text := OperationsText(operations); text != "" && text[|text| - 1] !in SPACES
  {
    hide PrintedInteger;
    var first, more := OperationText(operations[0]), OperationsText(operations[1..]);
    if operations[1..] != [] {
      OperationsEnd(operations[1..]);
    } else {
      assert first + more == first;
      if operations[0].operand.Number? {
        PrintedEnd(operations[0].operand.value);
      }
    }
  }

  lemma {:induction false} PrintedEnd(value: int)
    ensures var text := PrintedInteger(value); text != "" && IsDigit(text[|text| - 1])
  {
    var digits := Decimal(if value < 0 then -value else value);
    assert PrintedInteger(value)[|PrintedInteger(value)| - 1] == digits[|digits| - 1];
  }

  /** `N(register):a` and a comparison with `b` leave `a` in the register and in the counter, and in the condition how
    `a`
    compares with `b`. */
  lemma {:induction false} ComparisonMeans(name: string, a: int, sign: char, b: int, rest: string, lineCount: nat,
                                           currentLine: nat, state: Numeric)
    requires CanRegister(name) && sign in {'=', '<', '>'} && EndsOperations(rest) && IsTight(rest)
    requires -9223372036854775808 <= a <= 9223372036854775807 && -9223372036854775808 <= b <= 9223372036854775807
    ensures var line := "N(" + (name + (")" + ((":" + PrintedInteger(a)) + ([sign] + PrintedInteger(b)) + rest)));
      && IsNumericLine(line)
      && NumericLine(line, lineCount, currentLine, state) ==
         (Numeric(state.registers[name := a], match sign case '=' => a == b case '<' => a < b case _ => a > b, a),
          Ok(rest))
  {
    hide PrintedInteger, NumericLine;
    var one, two := Assign(Number(a)),
                    match sign case '=' => Equal(Number(b)) case '<' => Less(Number(b)) case _ => Greater(Number(b));
    NumericMeans('N', name, [one, two], rest, lineCount, currentLine, state);
    TwoTexts(one, two);
    TwoOperated(one, two, name, lineCount, currentLine, state);
    hide NumericText, OperationsText;
    assert OperationText(one) == ":" + PrintedInteger(a) && OperationText(two) == [sign] + PrintedInteger(b);
    NumericTextIs(name, [one, two], rest);
  }

  lemma {:induction false} NumericTextIs(name: string, operations: seq<Operation>, rest: string)
    ensures NumericText('N', name, operations, rest) == "N(" + (name + (")" + (OperationsText(operations) + rest)))
  {
    assert ['N'] + ("(" + (name + (")" + (OperationsText(operations) + rest)))) ==
           "N(" + (name + (")" + (OperationsText(operations) + rest)));
  }

  lemma {:induction false} TwoTexts(one: Operation, two: Operation)
    ensures OperationsText([one, two]) == OperationText(one) + OperationText(two)
  {
    hide OperationText;
    assert [one, two][1..] == [two] && [two][1..] == [];
    assert OperationsText([two]) == OperationText(two) + OperationsText([]);
    assert OperationText(two) + "" == OperationText(two);
  }

  lemma {:induction false} TwoOperated(one: Operation, two: Operation, name: string, lineCount: nat, currentLine: nat,
                                       state: Numeric)
    requires HasAmount(one.operand) && HasAmount(two.operand)
    ensures HaveAmounts([one, two])
    ensures AllOperated([one, two], name, lineCount, currentLine, state) ==
            Operated(two, name, lineCount, currentLine, Operated(one, name, lineCount, currentLine, state))
  {
    hide Operated, HasAmount;
    assert [one, two][1..] == [two] && [two][1..] == [];
    var middle := Operated(one, name, lineCount, currentLine, state);
    assert AllOperated([two], name, lineCount, currentLine, middle) ==
           AllOperated([two][1..], name, lineCount, currentLine, Operated(two, name, lineCount, currentLine, middle));
  }
}
