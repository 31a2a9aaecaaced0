/** The control syntax of procedures: directives, labels, jumps and numeric operations. */
module Procedures {
  import opened Outcomes
  import opened Characters
  import opened Numbers
  import opened TextFiles

  const MAX_LABEL_LENGTH := 15
  const MAX_REGISTER_LENGTH := 14
  const MAX_INTEGER: int := 0x7FFF_FFFF_FFFF_FFFF

  function TrimLeft(text: string): (trimmed: string)
    ensures trimmed != "" ==> !IsSpace(trimmed[0])
    ensures |trimmed| <= |text|
  {
    if text != "" && IsSpace(text[0]) then TrimLeft(text[1..]) else text
  }

  function TrimRight(text: string): (trimmed: string)
    ensures |trimmed| <= |text| && trimmed == text[..|trimmed|]
    ensures trimmed != "" ==> !IsSpace(trimmed[|trimmed| - 1])
  {
    if text != "" && IsSpace(text[|text| - 1]) then TrimRight(text[..|text| - 1]) else text
  }

  function Trim(text: string): string {
    TrimRight(TrimLeft(text))
  }

  predicate IsComment(source: string) {
    var value := Trim(source);
    value != "" && value[0] == '"'
  }

  predicate IsTextTerminator(source: string) {
    Trim(source) in {"\\F", "\\f"}
  }

  /** `\B(name)` on a line of its own: none if the line is something else. */
  function BufferDirective(source: string): Result<Option<string>> {
    var value := Trim(source);
    if |value| < 3 || value[0] != '\\' || value[1] !in {'B', 'b'} then Ok(None)
    else if |value| < 5 || value[2] != '(' || value[|value| - 1] != ')' then Fail
    else
      var name := value[3..|value| - 1];
      if ')' in name then Fail else Ok(Some(name))
  }

  // ---------------------------------------------------------------- labels and jumps

  predicate IsLabelName(name: string) {
    name != "" && |name| <= MAX_LABEL_LENGTH && '(' !in name && ')' !in name
  }

  /** The label that a line defines, for the search of a jump: a malformed one is no label. */
  function LabelOn(source: string): Option<string> {
    var value := Trim(source);
    if |value| < 4 || value[0] != '@' || value[1] != '(' || value[|value| - 1] != ')' then None
    else
      var name := value[2..|value| - 1];
      if IsLabelName(name) then Some(name) else None
  }

  /** The label that a line defines when it is executed: a malformed one is an error. */
  function LabelDefinition(source: string): Result<Option<string>> {
    var value := Trim(source);
    if value == "" || value[0] != '@' then Ok(None)
    else if LabelOn(source).Some? then Ok(LabelOn(source))
    else Fail
  }

  /** The target of a jump, and the condition it depends on. */
  datatype Jump = Jump(name: string, required: Option<bool>)

  /** `J(label)`, `J(label)T` or `J(label)F`. */
  function JumpDirective(source: string): Result<Option<Jump>> {
    var value := Trim(source);
    if |value| < 2 || value[0] !in {'J', 'j'} || value[1] != '(' then Ok(None)
    else
      var closing := IndexOf(value[2..], ')');
      if closing == |value| - 2 || !IsLabelName(value[2..closing + 2]) then Fail
      else
        var suffix := Trim(value[closing + 3..]);
        var name := value[2..closing + 2];
        if suffix == "" then Ok(Some(Jump(name, None)))
        else if suffix in {"T", "t"} then Ok(Some(Jump(name, Some(true))))
        else if suffix in {"F", "f"} then Ok(Some(Jump(name, Some(false))))
        else Fail
  }

  /** Equal up to the case of letters. */
  predicate EqualsIgnoringCase(left: string, right: string) {
    |left| == |right| && forall k :: 0 <= k < |left| ==> Upper(left[k]) == Upper(right[k])
  }

  /** The line defines the label. */
  predicate Defines(line: string, name: string) {
    LabelOn(line).Some? && EqualsIgnoringCase(LabelOn(line).value, name)
  }

  /** How many lines on, wrapping at the end, line `k` is from line `current`. */
  function LinesAhead(current: nat, k: nat, count: nat): nat
    requires current < count && k < count
  {
    if k > current then k - current else k + count - current
  }

  /** The first line after the current one, wrapping at the end, that defines the label; the current line itself
    does not count. */
  ghost predicate IsJumpTarget(lines: seq<string>, current: nat, name: string, target: Option<nat>)
    requires current < |lines|
  {
    match target
    case Some(t) =>
      && t < |lines| && t != current && Defines(lines[t], name)
      && forall k :: 0 <= k < |lines| && k != current && Defines(lines[k], name) ==>
           LinesAhead(current, t, |lines|) <= LinesAhead(current, k, |lines|)
    case None => forall k :: 0 <= k < |lines| && k != current ==> !Defines(lines[k], name)
  }

  /** There is at most one jump target. */
  lemma {:induction false} JumpTargetIsUnique(lines: seq<string>, current: nat, name: string, one: Option<nat>,
                                              two: Option<nat>)
    requires current < |lines|
    requires IsJumpTarget(lines, current, name, one) && IsJumpTarget(lines, current, name, two)
    ensures one == two
  {
    if one.Some? && two.Some? {
      assert LinesAhead(current, one.value, |lines|) == LinesAhead(current, two.value, |lines|);
    }
  }

  /** Looks forward first, and then from the beginning. */
  method FindJumpTarget(lines: seq<string>, current: nat, name: string) returns (target: Option<nat>)
    requires current < |lines|
    ensures IsJumpTarget(lines, current, name, target)
  {
    hide Defines;
    var cursor := current + 1;
    while cursor < |lines|
      invariant current < cursor <= |lines|
      invariant forall k :: current < k < cursor ==> !Defines(lines[k], name)
    {
      if Defines(lines[cursor], name) {
        return Some(cursor);
      }
      cursor := cursor + 1;
    }
    cursor := 0;
    while cursor < current
      invariant 0 <= cursor <= current
      invariant forall k :: 0 <= k < cursor ==> !Defines(lines[k], name)
    {
      if Defines(lines[cursor], name) {
        return Some(cursor);
      }
      cursor := cursor + 1;
    }
    return None;
  }

  // ---------------------------------------------------------------- numeric operations

  /** The state that numeric operations change. */
  datatype Numeric = Numeric(registers: map<string, int>, condition: bool, counter: int)

  predicate IsRegisterName(name: string) {
    name != "" && |name| <= MAX_REGISTER_LENGTH && '(' !in name && ')' !in name
  }

  function RegisterValue(registers: map<string, int>, name: string): int {
    if name in registers then registers[name] else 0
  }

  function SkipSpaces(text: string, position: nat): (next: nat)
    requires position <= |text|
    ensures position <= next <= |text|
    ensures next < |text| ==> !IsSpace(text[next])
    decreases |text| - position
  {
    if position < |text| && IsSpace(text[position]) then SkipSpaces(text, position + 1) else position
  }

  function DigitsEnd(text: string, position: nat): (next: nat)
    requires position <= |text|
    ensures position <= next <= |text| && IsNumber(text[position..next])
    ensures next < |text| ==> !IsDigit(text[next])
    decreases |text| - position
  {
    if position < |text| && IsDigit(text[position]) then
      var next := DigitsEnd(text, position + 1);
      assert text[position..next] == [text[position]] + text[position + 1..next];
      next
    else position
  }

  /** A decimal integer with an optional sign, and the position behind it; it must fit 64 bits. */
  function DecimalAt(text: string, position: nat): (r: Result<(int, nat)>)
    requires position <= |text|
    ensures r.Ok? ==> position < r.value.1 <= |text| && -MAX_INTEGER - 1 <= r.value.0 <= MAX_INTEGER
  {
    var negative := position < |text| && text[position] == '-';
    var start := if position < |text| && text[position] in {'+', '-'} then position + 1 else position;
    var end := DigitsEnd(text, start);
    var magnitude: int := NumberValue(text[start..end]);
    var value: int := if negative then -magnitude else magnitude;
    if start == end || value < -MAX_INTEGER - 1 || value > MAX_INTEGER then Fail else Ok((value, end))
  }

  function Sign(number: int): string {
    if number < 0 then "-" else ""
  }

  function PrintedInteger(number: int): string {
    Sign(number) + Decimal(if number < 0 then -number else number)
  }

  /** A printed integer reads back as itself, up to a byte that is no digit, if it fits 64 bits, and not at all
    otherwise. */
  lemma {:induction false} IntegerRoundTrip(before: string, number: int, rest: string)
    requires rest != "" ==> !IsDigit(rest[0])
    ensures DecimalAt(before + PrintedInteger(number) + rest, |before|) ==
            if -MAX_INTEGER - 1 <= number <= MAX_INTEGER then Ok((number, |before| + |PrintedInteger(number)|))
            else Fail
  {
    hide *;
    var magnitude := if number < 0 then -number else number;
    DecimalValue(magnitude);
    SignStands(before, number, rest);
    DigitsStand(before + Sign(number), Decimal(magnitude), rest);
    DecimalAtDigits(before + PrintedInteger(number) + rest, |before|, number, |before| + |PrintedInteger(number)|);
  }

  lemma {:induction false} SignStands(before: string, number: int, rest: string)
    ensures var digits := Decimal(if number < 0 then -number else number);
      var text := before + PrintedInteger(number) + rest;
      && text == (before + Sign(number)) + digits + rest
      && |PrintedInteger(number)| == |Sign(number)| + |digits| && |Sign(number)| == (if number < 0 then 1 else 0)
      && (if number < 0 then text[|before|] == '-' else IsDigit(text[|before|]))
  {
    hide Decimal;
    var digits := Decimal(if number < 0 then -number else number);
    assert before + (Sign(number) + digits) == before + Sign(number) + digits;
  }

  /** Digits stand where they are written, up to their end. */
  lemma {:induction false} DigitsStand(before: string, digits: string, rest: string)
    requires IsNumber(digits) && (rest != "" ==> !IsDigit(rest[0]))
    ensures var text := before + digits + rest; var end := |before| + |digits|;
      text[|before|..end] == digits && DigitsEnd(text, |before|) == end
  {
    var text := before + digits + rest;
    assert forall k :: |before| <= k < |before| + |digits| ==> text[k] == digits[k - |before|];
    DigitsEndAt(text, |before|, |before| + |digits|);
  }

  lemma {:induction false} DecimalAtDigits(text: string, position: nat, number: int, end: nat)
    requires position < |text|
    requires if number < 0 then text[position] == '-' else IsDigit(text[position])
    requires var start := if number < 0 then position + 1 else position;
      start < end && DigitsEnd(text, start) == end
      && NumberValue(text[start..end]) == if number < 0 then -number else number
    ensures DecimalAt(text, position) == if -MAX_INTEGER - 1 <= number <= MAX_INTEGER then Ok((number, end)) else Fail
  {
    hide DigitsEnd, NumberValue;
  }

  lemma {:induction false} DigitsEndAt(text: string, position: nat, end: nat)
    requires position <= end <= |text| && forall k :: position <= k < end ==> IsDigit(text[k])
    requires end < |text| ==> !IsDigit(text[end])
    ensures DigitsEnd(text, position) == end
    decreases end - position
  {
    if position < end {
      DigitsEndAt(text, position + 1, end);
    }
  }

  /** An operand: `$`, `.`, `#` or an integer, and the position behind it. */
  function OperandAt(text: string, position: nat, lineCount: nat, currentLine: nat, counter: int):
    (r: Result<(int, nat)>)
    requires position <= |text|
    ensures r.Ok? ==> position < r.value.1 <= |text|
  {
    var at := SkipSpaces(text, position);
    if at == |text| then Fail
    else match text[at]
      case '$' => Ok((lineCount, at + 1))
      case '.' => Ok((currentLine, at + 1))
      case '#' => Ok((counter, at + 1))
      case _ => DecimalAt(text, at)
  }

  /** One operation on a register; afterwards the counter holds the register's value. */
  function Operate(operation: char, name: string, operand: int, state: Numeric): Numeric {
    var current := RegisterValue(state.registers, name);
    match operation
    case ':' => Numeric(state.registers[name := operand], state.condition, operand)
    case '=' => Numeric(state.registers, current == operand, current)
    case '<' => Numeric(state.registers, current < operand, current)
    case _ => Numeric(state.registers, current > operand, current)
  }

  /** Runs operations one after the other; the result is the state reached, and where they end unless one fails. */
  function Operations(text: string, position: nat, name: string, lineCount: nat, currentLine: nat, state: Numeric):
    (r: (Numeric, Option<nat>))
    requires position <= |text|
    ensures r.1.Some? ==> position <= r.1.value <= |text|
    decreases |text| - position
  {
    var at := SkipSpaces(text, position);
    if at == |text| || text[at] !in {':', '=', '<', '>'} then (state, Some(at))
    else
      match OperandAt(text, at + 1, lineCount, currentLine, state.counter)
      case Fail => (state, None)
      case Ok((operand, next)) =>
        Operations(text, next, name, lineCount, currentLine, Operate(text[at], name, operand, state))
  }

  /** `N(register)` begins the line. */
  predicate IsNumericLine(source: string) {
    var value := Trim(source);
    |value| >= 2 && value[0] in {'N', 'n'} && value[1] == '('
  }

  /** What a numeric line does: the state reached, and the text behind its operations unless it fails. */
  function NumericLine(source: string, lineCount: nat, currentLine: nat, state: Numeric): (Numeric, Result<string>)
    requires IsNumericLine(source)
  {
    var value := Trim(source);
    var closing := IndexOf(value[2..], ')') + 2;
    if closing == |value| || !IsRegisterName(value[2..closing]) then (state, Fail)
    else
      var (after, end) := Operations(value, closing + 1, value[2..closing], lineCount, currentLine, state);
      if end.None? || end == Some(SkipSpaces(value, closing + 1)) then (after, Fail)
      else (after, Ok(Trim(value[end.value..])))
  }

  /** Comparing changes no register, and assigning changes only the one that is named. */
  lemma {:induction false} OperationsKeepOthers(text: string, position: nat, name: string, lineCount: nat,
                                                currentLine: nat, state: Numeric, other: string)
    requires position <= |text| && other != name
    ensures var after := Operations(text, position, name, lineCount, currentLine, state).0;
      RegisterValue(after.registers, other) == RegisterValue(state.registers, other)
    decreases |text| - position
  {
    var at := SkipSpaces(text, position);
    if at < |text| && text[at] in {':', '=', '<', '>'} {
      var operand := OperandAt(text, at + 1, lineCount, currentLine, state.counter);
      if operand.Ok? {
        OperationsKeepOthers(text, operand.value.1, name, lineCount, currentLine,
                             Operate(text[at], name, operand.value.0, state), other);
      }
    }
  }
}
