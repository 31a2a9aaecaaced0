/** The grammar of commands over tokens: what every command line parses to.

  Operands are rebuilt from lexemes and column gaps as in `SourceText.dfy`. These functions
  are the specification of the parser class in `CommandParser.dfy`. */
module CommandGrammar {
  import opened Outcomes
  import opened Limits
  import opened Characters
  import opened Tokens
  import opened Lexing
  import opened SourceText
  import opened Addresses
  import opened AddressParsing
  import opened Patterns
  import opened PatternGrammar
  import opened Executor
  import opened LineCommands

  // ---------------------------------------------------------------- the beginning of a command

  /** What precedes the mnemonic: an optional address, and whether the command is a `*` alone. */
  datatype Head = Head(address: Option<Address>, implicitPrint: bool)

  function ParseHead(tokens: seq<Token>, i: nat): (r: Result<(Head, nat)>)
    requires AreTokens(tokens) && i < |tokens|
    ensures r.Ok? ==> i <= r.value.1 < |tokens| && (r.value.0.implicitPrint ==> i < r.value.1)
  {
    if IsSymbol(tokens[i], '*') then
      Ok((Head(Some(Range(Absolute(1), Last)), EndsOperand(tokens[i + 1])), i + 1))
    else if BeginsAddress(tokens[i]) then
      var (address, next) :- ParsePrefix(tokens, i);
      Ok((Head(Some(address), false), next))
    else Ok((Head(None, false), i))
  }

  /** How a mnemonic was spelled: the two-letter forms carry more than the letter. */
  datatype Spelling =
    | Plain
    | Doubled
    | WriteAs(mode: WriteMode)
    | FactsOf(buffers: bool)
    | MessageForm(newline: Option<bool>)
    | CompactName(name: string)
    | Gathering
    | Shell
    | Remark

  const MNEMONICS: set<char> :=
    {'P', 'L', 'D', 'A', 'I', 'B', 'C', 'M', 'T', 'G', 'Z', 'R', 'W', 'S', 'J', 'F', 'O', 'Q'}

  /** The mnemonic a token stands for. */
  function Mnemonic(token: Token): (r: Result<(char, Spelling)>)
    ensures r.Ok? ==> token.kind in {IdentifierToken, CommandToken, SymbolToken}
  {
    if token.kind == IdentifierToken && |token.lexeme| == 2 then
      TwoLetters(Upper(token.lexeme[0]), Upper(token.lexeme[1]), token.lexeme[1])
    else if IsSymbol(token, '!') then Ok(('!', Shell))
    else if IsSymbol(token, '"') then Ok(('"', Remark))
    else if token.kind == CommandToken && |token.lexeme| == 1 && Upper(token.lexeme[0]) in MNEMONICS then
      Ok((Upper(token.lexeme[0]), if Upper(token.lexeme[0]) == 'J' then MessageForm(None) else Plain))
    else Fail
  }

  function TwoLetters(first: char, second: char, spelled: char): Result<(char, Spelling)> {
    if first == 'Q' && second == 'Q' then Ok(('Q', Doubled))
    else if first == 'W' && second in {'A', 'U', 'B'} then
      Ok(('W', WriteAs(if second == 'A' then AsAscii else if second == 'U' then AsUtf8 else AsBcd)))
    else if first == 'F' && second in {'B', 'O'} then Ok(('F', FactsOf(second == 'B')))
    else if first == 'J' then
      Ok(('J', MessageForm(if second == 'M' then Some(true) else if second == 'P' then Some(false) else None)))
    else if first == 'B' then Ok(('B', CompactName([spelled])))
    else if first == 'Z' && second == 'G' then Ok(('Z', Gathering))
    else Fail
  }

  // ---------------------------------------------------------------- operands

  /** A command ends at the end of input; in a chain, anywhere. A newline in front of the end is taken along. */
  function CommandEnd(tokens: seq<Token>, i: nat, chained: bool): (r: Result<nat>)
    requires AreTokens(tokens) && i < |tokens|
    ensures r.Ok? ==> i <= r.value < |tokens|
  {
    var end := if tokens[i].kind == NewLineToken then i + 1 else i;
    if chained || tokens[end].kind == EndToken then Ok(end) else Fail
  }

  /** A name in parentheses, whatever its characters; it may not be empty. */
  function ParseName(tokens: seq<Token>, i: nat): (r: Result<(string, nat)>)
    requires AreTokens(tokens) && i < |tokens|
    ensures r.Ok? ==> i < r.value.1 < |tokens|
  {
    if tokens[i].kind != LeftParenthesisToken then Fail
    else
      var close :- NameEnd(tokens, i + 1);
      if close == i + 1 then Fail else Ok((RebuiltText(tokens, i + 1, close, tokens[i + 1].location.column), close + 1))
  }

  /** The closing parenthesis of a name. */
  function NameEnd(tokens: seq<Token>, i: nat): (r: Result<nat>)
    requires AreTokens(tokens) && i < |tokens|
    ensures r.Ok? ==> i <= r.value < |tokens| - 1 && tokens[r.value].kind == RightParenthesisToken
    ensures r.Ok? ==> forall k :: i <= k < r.value ==>
            tokens[k].kind != RightParenthesisToken && !EndsOperand(tokens[k])
    decreases |tokens| - i
  {
    if tokens[i].kind == RightParenthesisToken then Ok(i)
    else if EndsOperand(tokens[i]) then Fail
    else NameEnd(tokens, i + 1)
  }

  /** A file name up to the end of the line, or in double quotes. */
  function ParseFilename(tokens: seq<Token>, i: nat): (r: Result<(Option<string>, nat)>)
    requires AreTokens(tokens) && i < |tokens|
    ensures r.Ok? ==> i <= r.value.1 < |tokens|
  {
    if EndsOperand(tokens[i]) then Ok((None, i))
    else if IsSymbol(tokens[i], '"') then
      var close :- QuoteEnd(tokens, i + 1);
      if close == i + 1 || !EndsOperand(tokens[close + 1]) then Fail
      else Ok((Some(RebuiltText(tokens, i + 1, close, tokens[i + 1].location.column)), close + 1))
    else Ok((Some(PlainText(tokens, i)), OperandEnd(tokens, i)))
  }

  function QuoteEnd(tokens: seq<Token>, i: nat): (r: Result<nat>)
    requires AreTokens(tokens) && i < |tokens|
    ensures r.Ok? ==> i <= r.value < |tokens| - 1
    decreases |tokens| - i
  {
    if EndsOperand(tokens[i]) then Fail
    else if IsSymbol(tokens[i], '"') then Ok(i)
    else QuoteEnd(tokens, i + 1)
  }

  /** Whether a token right behind `JM` or `JP` delimits a message. */
  predicate IsMessageDelimiter(command: Token, token: Token) {
    && !EndsOperand(token) && |token.lexeme| == 1
    && token.location.offset == command.location.offset + 2
    && !IsLetter(token.lexeme[0]) && !IsDigit(token.lexeme[0]) && !IsSpace(token.lexeme[0])
  }

  /** The next token with the given lexeme, before the line ends. */
  function DelimiterEnd(tokens: seq<Token>, i: nat, delimiter: string): (r: Result<nat>)
    requires AreTokens(tokens) && i < |tokens|
    ensures r.Ok? ==> i <= r.value < |tokens| - 1
    decreases |tokens| - i
  {
    if EndsOperand(tokens[i]) then Fail
    else if tokens[i].lexeme == delimiter then Ok(i)
    else DelimiterEnd(tokens, i + 1, delimiter)
  }

  /** A message in delimiters, with the space in front of the closing one, or the rest of the line. */
  function ParseMessage(tokens: seq<Token>, i: nat, command: Token): (r: Result<(string, nat)>)
    requires AreTokens(tokens) && i < |tokens|
    ensures r.Ok? ==> i <= r.value.1 < |tokens|
  {
    if IsMessageDelimiter(command, tokens[i]) then
      var column := EndColumn(tokens[i]);
      var close :- DelimiterEnd(tokens, i + 1, tokens[i].lexeme);
      Ok((RebuiltText(tokens, i + 1, close, column)
          + Spaces(Gap(tokens[close], ColumnBefore(tokens, i + 1, close, column))), close + 1))
    else Ok((PlainText(tokens, i), OperandEnd(tokens, i)))
  }

  // ---------------------------------------------------------------- patterns and replacements

  /** How many backslashes a text ends in. */
  function TrailingBackslashes(text: string): nat {
    if text != "" && text[|text| - 1] == '\\' then 1 + TrailingBackslashes(text[..|text| - 1]) else 0
  }

  /** A token closes a delimited operand if it is the unprotected delimiter behind an even number of backslashes. */
  predicate Closes(token: Token, delimiter: char, before: string) {
    token.lexeme == [delimiter] && token.interpretation != Interpretation.Literal &&
        TrailingBackslashes(before) % 2 == 0
  }

  /** A text grown by copies of one interpretation. */
  function Grown(source: Source, text: string, interpretation: Interpretation): (grown: Source)
    requires |source.interpretations| == |source.text|
    ensures |grown.interpretations| == |grown.text|
  {
    Source(source.text + text, source.interpretations + seq(|text|, _ => interpretation))
  }

  /** The source with a gap and a token put behind it; the whole token counts as its first character does. */
  function WithToken(source: Source, token: Token, column: nat): (grown: Source)
    requires |source.interpretations| == |source.text|
    ensures |grown.interpretations| == |grown.text|
  {
    Grown(Grown(source, Spaces(Gap(token, column)), Normal), token.lexeme, token.interpretation)
  }

  /** Collects pattern source up to and with the closing delimiter; also returns the column behind it. */
  function CollectPattern(tokens: seq<Token>, i: nat, source: Source, column: nat, delimiter: char):
    (r: Result<(Source, nat)>)
    requires AreTokens(tokens) && i < |tokens| && |source.interpretations| == |source.text|
    ensures r.Ok? ==> i < r.value.1 < |tokens| && |r.value.0.interpretations| == |r.value.0.text|
    ensures r.Ok? && source.text != "" ==> r.value.0.interpretations != []
    decreases |tokens| - i
  {
    if EndsOperand(tokens[i]) then Fail
    else
      var grown := WithToken(source, tokens[i], column);
      if Closes(tokens[i], delimiter, source.text + Spaces(Gap(tokens[i], column))) then Ok((grown, i + 1))
      else CollectPattern(tokens, i + 1, grown, EndColumn(tokens[i]), delimiter)
  }

  /** The source of a pattern, from its opening delimiter on. */
  function CollectOperand(tokens: seq<Token>, i: nat): (r: Result<(Source, nat)>)
    requires AreTokens(tokens) && i < |tokens|
    ensures r.Ok? ==> i < r.value.1 < |tokens| && |tokens[i].lexeme| == 1 && r.value.0.Valid()
  {
    if tokens[i].kind != SymbolToken || |tokens[i].lexeme| != 1 then Fail
    else
      CollectPattern(tokens, i + 1, Grown(Source("", []), tokens[i].lexeme, tokens[i].interpretation),
                     EndColumn(tokens[i]),
                     tokens[i].lexeme[0])
  }

  /** A delimited pattern whose opening token is at `i`. */
  function ParseDelimited(tokens: seq<Token>, i: nat): (r: Result<(Pattern, nat)>)
    requires AreTokens(tokens) && i < |tokens|
    ensures r.Ok? ==> i < r.value.1 < |tokens| && |tokens[i].lexeme| == 1
  {
    var (source, next) :- CollectOperand(tokens, i);
    var pattern :- ParsePattern(source);
    Ok((pattern, next))
  }

  /** Collects replacement text up to the closing delimiter, which it leaves out. */
  function CollectReplacement(tokens: seq<Token>, i: nat, text: string, column: nat, delimiter: char):
    (r: Result<(string, nat)>)
    requires AreTokens(tokens) && i < |tokens|
    ensures r.Ok? ==> i < r.value.1 < |tokens|
    decreases |tokens| - i
  {
    if EndsOperand(tokens[i]) then Fail
    else
      var padded := text + Spaces(Gap(tokens[i], column));
      if Closes(tokens[i], delimiter, padded) then Ok((padded, i + 1))
      else CollectReplacement(tokens, i + 1, padded + tokens[i].lexeme, EndColumn(tokens[i]), delimiter)
  }

  // ---------------------------------------------------------------- commands

  /** The operands and the end of a command, once its mnemonic is known. `i` is behind the mnemonic. */
  function ParseBody(tokens: seq<Token>, i: nat, address: Option<Address>, mnemonic: char, spelling: Spelling,
                     command: Token, chained: bool): (r: Result<(Command, nat)>)
    requires AreTokens(tokens) && i < |tokens|
    ensures r.Ok? ==> i <= r.value.1 < |tokens|
    decreases |tokens| - i, 1
  {
    match mnemonic
    case 'R' =>
      if IsRange(address) then Fail
      else
        var (filename, next) :- ParseFilename(tokens, i);
        Ended(tokens, next, chained, Read(address, filename))
    case 'W' =>
      var (filename, next) :- ParseFilename(tokens, i);
      Ended(tokens, next, chained, Write(address, filename, if spelling.WriteAs? then spelling.mode else Preserve))
    case 'S' => ParseSubstitute(tokens, i, address, chained)
    case 'Q' =>
      if address.Some? || (spelling != Doubled && IsSymbol(tokens[i], '!')) then Fail
      else Ended(tokens, i, chained, Quit(spelling == Doubled))
    case 'J' =>
      if address.Some? || !spelling.MessageForm? || spelling.newline.None? then Fail
      else
        var (text, next) :- ParseMessage(tokens, i, command);
        if |text| > MAX_MESSAGE_LENGTH then Fail
        else Ended(tokens, next, chained, Message(text, spelling.newline.value))
    case 'F' =>
      if address.Some? || !spelling.FactsOf? then Fail else Ended(tokens, i, chained, Facts(spelling.buffers))
    case 'O' => if address.Some? then Fail else ParseOption(tokens, i, chained)
    case 'G' => ParseGlobal(tokens, i, address)
    case 'Z' =>
      if spelling == Gathering then if address.Some? then Fail else ParseGather(tokens, i)
      else if IsRange(address) then Fail
      else Ended(tokens, i, chained, Zap(address))
    case 'B' => if address.Some? then Fail else ParseSelect(tokens, i, spelling, command, chained)
    case 'M' =>
      var (name, next) :- ParseName(tokens, i);
      Ended(tokens, next, chained, Move(address, name))
    case 'T' =>
      if !BeginsAddress(tokens[i]) then Fail
      else
        var (destination, next) :- ParsePrefix(tokens, i);
        if destination.Range? then Fail else Ended(tokens, next, chained, Transfer(address, Some(destination)))
    case 'L' =>
      if address.Some? then Fail
      else
        var (filename, next) :- ParseFilename(tokens, i);
        Ended(tokens, next, chained, List(filename))
    case '!' =>
      if address.Some? || PlainText(tokens, i) == "" then Fail
      else Ended(tokens, OperandEnd(tokens, i), chained, System(PlainText(tokens, i)))
    case '"' =>
      if address.Some? then Fail
      else Ended(tokens, OperandEnd(tokens, i), chained, Comment(PlainText(tokens, i)))
    case _ =>
      var next :- CommandEnd(tokens, i, chained);
      var simple :- SimpleCommand(mnemonic, address);
      Ok((simple, next))
  }

  /** `G` or `G~`, its pattern, and a command without address that takes up the rest of the input. */
  function ParseGlobal(tokens: seq<Token>, i: nat, address: Option<Address>): (r: Result<(Command, nat)>)
    requires AreTokens(tokens) && i < |tokens|
    ensures r.Ok? ==> i < r.value.1 < |tokens|
    decreases |tokens| - i, 0
  {
    var inverted := IsSymbol(tokens[i], '~');
    var at := if inverted then i + 1 else i;
    if !(IsSymbol(tokens[at], '/') || IsSymbol(tokens[at], '?')) then Fail
    else
      var (pattern, next) :- ParseDelimited(tokens, at);
      var (nested, end) :- ParseNested(tokens, next);
      Ok((Global(address, pattern, inverted, nested), end))
  }

  /** `ZG`, its destination, and a command without address that takes up the rest of the input. */
  function ParseGather(tokens: seq<Token>, i: nat): (r: Result<(Command, nat)>)
    requires AreTokens(tokens) && i < |tokens|
    ensures r.Ok? ==> i < r.value.1 < |tokens|
    decreases |tokens| - i, 0
  {
    var (name, next) :- ParseName(tokens, i);
    var (nested, end) :- ParseNested(tokens, next);
    Ok((ZapGather(name, nested), end))
  }

  function ParseNested(tokens: seq<Token>, i: nat): (r: Result<(Command, nat)>)
    requires AreTokens(tokens) && i < |tokens|
    ensures r.Ok? ==> i < r.value.1 < |tokens| && !r.value.0.HasAddress()
    decreases |tokens| - i, 3
  {
    if EndsOperand(tokens[i]) then Fail
    else
      var (nested, end) :- ParseCommand(tokens, i, false);
      if nested.HasAddress() then Fail else Ok((nested, end))
  }

  predicate IsRange(address: Option<Address>) {
    address.Some? && address.value.Range?
  }

  /** A command without operands. */
  function SimpleCommand(mnemonic: char, address: Option<Address>): Result<Command> {
    match mnemonic
    case 'P' => Ok(Print(address))
    case 'D' => Ok(Delete(address))
    case 'A' => if IsRange(address) then Fail else Ok(Append(address))
    case 'I' => if IsRange(address) then Fail else Ok(Insert(address))
    case 'C' => Ok(Change(address))
    case _ => Fail
  }

  function Ended(tokens: seq<Token>, i: nat, chained: bool, command: Command): (r: Result<(Command, nat)>)
    requires AreTokens(tokens) && i < |tokens|
    ensures r.Ok? ==> i <= r.value.1 < |tokens|
  {
    var next :- CommandEnd(tokens, i, chained);
    Ok((command, next))
  }

  function ParseSubstitute(tokens: seq<Token>, i: nat, address: Option<Address>, chained: bool):
    (r: Result<(Command, nat)>)
    requires AreTokens(tokens) && i < |tokens|
    ensures r.Ok? ==> i <= r.value.1 < |tokens|
  {
    var (pattern, middle) :- ParseDelimited(tokens, i);
    var (replacement, next) :- CollectReplacement(tokens, middle, "", EndColumn(tokens[middle - 1]),
                                                  tokens[i].lexeme[0]);
    var printAfter := tokens[next].kind == CommandToken && |tokens[next].lexeme| == 1 &&
        Upper(tokens[next].lexeme[0]) == 'P';
    Ended(tokens, if printAfter then next + 1 else next, chained,
          Command.Substitute(address, pattern, replacement, printAfter))
  }

  function ParseOption(tokens: seq<Token>, i: nat, chained: bool): (r: Result<(Command, nat)>)
    requires AreTokens(tokens) && i < |tokens|
    ensures r.Ok? ==> i <= r.value.1 < |tokens|
  {
    if !(IsSymbol(tokens[i], '+') || IsSymbol(tokens[i], '-')) then Fail
    else
      var enabled := IsSymbol(tokens[i], '+');
      var option := tokens[i + 1];
      if |option.lexeme| != 1 || option.kind !in {CommandToken, IdentifierToken} then Fail
      else if Upper(option.lexeme[0]) == 'M' then Ended(tokens, i + 2, chained, Monitor(enabled))
      else if Upper(option.lexeme[0]) == 'I' && tokens[i + 2].kind == LeftParenthesisToken then
        Ended(tokens, i + 3, chained, InputParenthesis(enabled))
      else Fail
  }

  function ParseSelect(tokens: seq<Token>, i: nat, spelling: Spelling, command: Token, chained: bool):
    (r: Result<(Command, nat)>)
    requires AreTokens(tokens) && i < |tokens|
    ensures r.Ok? ==> i <= r.value.1 < |tokens|
  {
    if spelling.CompactName? then Ended(tokens, i, chained, SelectBuffer(spelling.name, true))
    else if tokens[i].kind == LeftParenthesisToken then
      var (name, next) :- ParseName(tokens, i);
      Ended(tokens, next, chained, SelectBuffer(name, false))
    else if IsShortName(command, tokens[i]) then
      Ended(tokens, i + 1, chained, SelectBuffer(tokens[i].lexeme, true))
    else Fail
  }

  /** A one-character buffer name right behind `B`. */
  predicate IsShortName(command: Token, token: Token) {
    && token.location.offset == command.location.offset + 1 && |token.lexeme| == 1
    && !EndsOperand(token) && token.kind != LeftParenthesisToken && token.kind != RightParenthesisToken
  }

  /** One command from token `i` on, and the position behind it. */
  function ParseCommand(tokens: seq<Token>, i: nat, chained: bool): (r: Result<(Command, nat)>)
    requires AreTokens(tokens) && i < |tokens|
    ensures r.Ok? ==> i < r.value.1 < |tokens|
    decreases |tokens| - i, 2
  {
    var (head, at) :- ParseHead(tokens, i);
    if head.implicitPrint then ParseBody(tokens, at, head.address, 'P', Plain, tokens[i], chained)
    else
      var (mnemonic, spelling) :- Mnemonic(tokens[at]);
      ParseBody(tokens, at + 1, head.address, mnemonic, spelling, tokens[at], chained)
  }
}
