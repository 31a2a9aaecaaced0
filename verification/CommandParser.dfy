/** The command parser: consumes a token stream, and goes back to where it started when it fails.

  Every method is proved to return what the grammar in `CommandGrammar.dfy` says and to stop
  where it says. Whatever fails, nested or not, leaves the stream where it was. */
module CommandParsing {
  import opened Outcomes
  import opened Limits
  import opened Characters
  import opened Tokens
  import opened Lexing
  import opened TokenStreams
  import opened SourceText
  import opened Addresses
  import opened AddressParsing
  import opened Patterns
  import opened PatternGrammar
  import PatternParser
  import opened Executor
  import opened LineCommands
  import opened CommandGrammar

  class CommandParser {
    const stream: TokenStream
    var allowTrailingCommands: bool

    constructor (stream: TokenStream)
      ensures this.stream == stream && !allowTrailingCommands
    {
      this.stream := stream;
      allowTrailingCommands := false;
    }

    // -------------------------------------------------------------- operands

    /** Rebuilds the rest of the line. */
    method ConsumePlainText() returns (text: string)
      requires stream.Valid()
      modifies stream`cache, stream`endCached, stream`position, stream.lexer.stream`position
      ensures stream.Valid() && stream.position == OperandEnd(stream.tokens, old(stream.position))
      ensures text == PlainText(stream.tokens, old(stream.position))
    {
      hide AreTokens, TokenStream.Valid, Spaces, RebuiltText, Gap;
      text := "";
      var first := true;
      var previousEndColumn := 0;
      ghost var tokens, start := stream.tokens, stream.position;
      var next := stream.Peek(0);
      RebuiltStep(tokens, start, start);
      while !EndsOperand(next)
        invariant stream.Valid() && AreTokens(tokens) && start <= stream.position < |tokens| &&
                  next == tokens[stream.position]
        invariant OperandEnd(tokens, stream.position) == OperandEnd(tokens, start)
        invariant first == (stream.position == start)
        invariant !first ==> previousEndColumn == EndColumn(tokens[stream.position - 1])
        invariant text == RebuiltText(tokens, start, stream.position, tokens[start].location.column)
        decreases |tokens| - stream.position
      {
        RebuiltStep(tokens, start, stream.position);
        var token := stream.Consume();
        if !first {
          text := text + Spaces(Gap(token, previousEndColumn));
        }
        text := text + token.lexeme;
        previousEndColumn := EndColumn(token);
        first := false;
        next := stream.Peek(0);
      }
    }

    /** A name in parentheses. */
    method ParseParenthesizedName() returns (result: Result<string>)
      requires stream.Valid()
      modifies stream`cache, stream`endCached, stream`position, stream.lexer.stream`position
      ensures stream.Valid() && old(stream.position) <= stream.position
      ensures Agrees(ParseName(stream.tokens, old(stream.position)), result, stream.position)
    {
      hide AreTokens, TokenStream.Valid, RebuiltText, Spaces;
      var opening := stream.Consume();
      if opening.kind != LeftParenthesisToken {
        return Fail;
      }
      var name := "";
      var previousEndColumn := EndColumn(opening);
      ghost var tokens, start := stream.tokens, stream.position;
      var next := stream.Peek(0);
      RebuiltStep(tokens, start, start);
      while next.kind != RightParenthesisToken
        invariant stream.Valid() && AreTokens(tokens) && start <= stream.position < |tokens| &&
                  next == tokens[stream.position]
        invariant NameEnd(tokens, stream.position) == NameEnd(tokens, start)
        invariant (name == "") == (stream.position == start)
        invariant name != "" ==> previousEndColumn == EndColumn(tokens[stream.position - 1])
        invariant name == RebuiltText(tokens, start, stream.position, tokens[start].location.column)
        decreases |tokens| - stream.position
      {
        if EndsOperand(next) {
          return Fail;
        }
        RebuiltStep(tokens, start, stream.position);
        var token := stream.Consume();
        if name != "" {
          name := name + Spaces(Gap(token, previousEndColumn));
        }
        name := name + token.lexeme;
        previousEndColumn := EndColumn(token);
        next := stream.Peek(0);
      }
      var _ := stream.Consume();
      return if name == "" then Fail else Ok(name);
    }

    /** A file name, quoted or not, or none. */
    method ParseOptionalFilename() returns (result: Result<Option<string>>)
      requires stream.Valid()
      modifies stream`cache, stream`endCached, stream`position, stream.lexer.stream`position
      ensures stream.Valid() && old(stream.position) <= stream.position
      ensures Agrees(ParseFilename(stream.tokens, old(stream.position)), result, stream.position)
    {
      hide TokenStream.Valid;
      var next := stream.Peek(0);
      if EndsOperand(next) {
        return Ok(None);
      }
      if IsSymbol(next, '"') {
        var _ := stream.Consume();
        result := ParseQuoted();
      } else {
        var text := ConsumePlainText();
        result := Ok(Some(text));
      }
    }

    /** The rest of a file name behind the opening quote. */
    method ParseQuoted() returns (result: Result<Option<string>>)
      requires stream.Valid() && stream.position > 0 && IsSymbol(stream.tokens[stream.position - 1], '"')
      modifies stream`cache, stream`endCached, stream`position, stream.lexer.stream`position
      ensures stream.Valid() && old(stream.position) <= stream.position
      ensures Agrees(ParseFilename(stream.tokens, old(stream.position) - 1), result, stream.position)
    {
      hide AreTokens, TokenStream.Valid;
      stream.Standing();
      ghost var tokens, start := stream.tokens, stream.position;
      var filename := "";
      var closedQuote := false;
      var previousEndColumn := 0;
      var next := stream.Peek(0);
      while !EndsOperand(next) && !closedQuote
        invariant stream.Valid() && AreTokens(tokens) && start <= stream.position < |tokens| &&
                  next == tokens[stream.position]
        invariant !closedQuote ==>
          && QuoteEnd(tokens, stream.position) == QuoteEnd(tokens, start)
          && (filename == "") == (stream.position == start)
          && (filename != "" ==> previousEndColumn == EndColumn(tokens[stream.position - 1]))
          && filename == RebuiltText(tokens, start, stream.position, tokens[start].location.column)
        invariant closedQuote ==>
          && QuoteEnd(tokens, start) == Ok(stream.position - 1) && start < stream.position
          && (filename == "") == (stream.position - 1 == start)
          && filename == RebuiltText(tokens, start, stream.position - 1, tokens[start].location.column)
        decreases |tokens| - stream.position
      {
        var token := stream.Consume();
        if IsSymbol(token, '"') {
          closedQuote := true;
        } else {
          if filename != "" {
            filename := filename + Spaces(Gap(token, previousEndColumn));
          }
          filename := filename + token.lexeme;
          previousEndColumn := EndColumn(token);
        }
        next := stream.Peek(0);
      }
      return if !closedQuote || !EndsOperand(next) || filename == "" then Fail else Ok(Some(filename));
    }

    /** A message in delimiters or up to the end of the line. */
    method ParseMessageText(command: Token) returns (result: Result<string>)
      requires stream.Valid()
      modifies stream`cache, stream`endCached, stream`position, stream.lexer.stream`position
      ensures stream.Valid() && old(stream.position) <= stream.position
      ensures Agrees(ParseMessage(stream.tokens, old(stream.position), command), result, stream.position)
    {
      hide AreTokens, TokenStream.Valid, DelimiterEnd, RebuiltText;
      var opening := stream.Peek(0);
      if !IsMessageDelimiter(command, opening) {
        var text := ConsumePlainText();
        return Ok(text);
      }
      var _ := stream.Consume();
      result := ConsumeDelimited(opening);
    }

    method ConsumeDelimited(opening: Token) returns (result: Result<string>)
      requires stream.Valid()
      modifies stream`cache, stream`endCached, stream`position, stream.lexer.stream`position
      ensures stream.Valid() && old(stream.position) <= stream.position
      ensures var tokens, start := stream.tokens, old(stream.position);
        var close := DelimiterEnd(tokens, start, opening.lexeme);
        if close.Fail? then result.Fail?
        else
          && stream.position == close.value + 1
          && result == Ok(RebuiltText(tokens, start, close.value, EndColumn(opening))
                          + Spaces(Gap(tokens[close.value],
                                       ColumnBefore(tokens, start, close.value, EndColumn(opening)))))
    {
      hide TokenStream.Valid;
      stream.Standing();
      ghost var tokens, start := stream.tokens, stream.position;
      var text := "";
      var previousEndColumn := EndColumn(opening);
      while true
        invariant stream.Valid() && AreTokens(tokens) && start <= stream.position < |tokens|
        invariant DelimiterEnd(tokens, stream.position, opening.lexeme) == DelimiterEnd(tokens, start, opening.lexeme)
        invariant previousEndColumn == ColumnBefore(tokens, start, stream.position, EndColumn(opening))
        invariant text == RebuiltText(tokens, start, stream.position, EndColumn(opening))
        decreases |tokens| - stream.position
      {
        var next := stream.Peek(0);
        if EndsOperand(next) {
          return Fail;
        }
        var token := stream.Consume();
        if token.lexeme == opening.lexeme {
          return Ok(text + Spaces(Gap(token, previousEndColumn)));
        }
        text := text + Spaces(Gap(token, previousEndColumn)) + token.lexeme;
        previousEndColumn := EndColumn(token);
      }
    }

    // -------------------------------------------------------------- patterns and replacements

    /** Whether the text ends in an even number of backslashes. */
    method CountsEven(text: string) returns (even: bool)
      ensures even == (TrailingBackslashes(text) % 2 == 0)
    {
      var count := 0;
      var index := |text|;
      assert text[..|text|] == text;
      while index > 0 && text[index - 1] == '\\'
        invariant 0 <= index <= |text|
        invariant TrailingBackslashes(text) == count + TrailingBackslashes(text[..index])
        decreases index
      {
        assert text[..index][..index - 1] == text[..index - 1];
        count := count + 1;
        index := index - 1;
      }
      return count % 2 == 0;
    }

    /** A delimited pattern: its source is collected with metadata and given to the pattern parser. */
    method ParseDelimitedPattern() returns (result: Result<Pattern>, previousEndColumn: nat)
      requires stream.Valid()
      modifies stream`cache, stream`endCached, stream`position, stream.lexer.stream`position
      ensures stream.Valid() && old(stream.position) <= stream.position
      ensures Agrees(ParseDelimited(stream.tokens, old(stream.position)), result, stream.position)
      ensures result.Ok? ==> stream.position > 0 && previousEndColumn == EndColumn(stream.tokens[stream.position - 1])
    {
      hide AreTokens, TokenStream.Valid, ParsePattern, CollectOperand;
      stream.Standing();
      var source: Source;
      source, previousEndColumn :- CollectSource();
      result := ParseSource(source);
    }

    /** The source of a pattern, from its opening delimiter on. */
    method CollectSource() returns (result: Result<Source>, previousEndColumn: nat)
      requires stream.Valid()
      modifies stream`cache, stream`endCached, stream`position, stream.lexer.stream`position
      ensures stream.Valid() && old(stream.position) <= stream.position
      ensures Agrees(CollectOperand(stream.tokens, old(stream.position)), result, stream.position)
      ensures result.Ok? ==> stream.position > 0 && previousEndColumn == EndColumn(stream.tokens[stream.position - 1])
    {
      hide AreTokens, TokenStream.Valid, CollectPattern;
      var opening := stream.Consume();
      if opening.kind != SymbolToken || |opening.lexeme| != 1 {
        return Fail, 0;
      }
      result, previousEndColumn := Collect(opening);
    }

    method ParseSource(source: Source) returns (result: Result<Pattern>)
      requires source.Valid()
      ensures result == ParsePattern(source)
    {
      hide ParsePattern;
      var parser := new PatternParser.PatternParser(source);
      result := parser.Parse();
    }

    method Collect(opening: Token) returns (result: Result<Source>, previousEndColumn: nat)
      requires stream.Valid() && |opening.lexeme| == 1
      modifies stream`cache, stream`endCached, stream`position, stream.lexer.stream`position
      ensures stream.Valid() && old(stream.position) <= stream.position
      ensures Agrees(CollectPattern(stream.tokens, old(stream.position),
                                    Grown(Source("", []), opening.lexeme, opening.interpretation),
                                    EndColumn(opening), opening.lexeme[0]), result, stream.position)
      ensures result.Ok? ==> stream.position > 0 && previousEndColumn == EndColumn(stream.tokens[stream.position - 1])
    {
      hide AreTokens, TokenStream.Valid, TrailingBackslashes;
      stream.Standing();
      ghost var tokens, start := stream.tokens, stream.position;
      var delimiter := opening.lexeme[0];
      var source := Grown(Source("", []), opening.lexeme, opening.interpretation);
      ghost var first := source;
      previousEndColumn := EndColumn(opening);
      while true
        invariant stream.Valid() && AreTokens(tokens) && start <= stream.position < |tokens|
        invariant |source.interpretations| == |source.text|
        invariant CollectPattern(tokens, stream.position, source, previousEndColumn, delimiter) ==
                  CollectPattern(tokens, start, first, EndColumn(opening), delimiter)
        decreases |tokens| - stream.position
      {
        var next := stream.Peek(0);
        if EndsOperand(next) {
          return Fail, 0;
        }
        var token := stream.Consume();
        var padded := Grown(source, Spaces(Gap(token, previousEndColumn)), Normal);
        var even := CountsEven(padded.text);
        source := Grown(padded, token.lexeme, token.interpretation);
        previousEndColumn := EndColumn(token);
        if token.lexeme == [delimiter] && token.interpretation != Interpretation.Literal && even {
          return Ok(source), previousEndColumn;
        }
      }
    }

    /** Replacement text up to the closing delimiter; the pattern ended in front of the given column. */
    method ParseReplacement(column: nat, delimiter: char) returns (result: Result<string>)
      requires stream.Valid()
      modifies stream`cache, stream`endCached, stream`position, stream.lexer.stream`position
      ensures stream.Valid() && old(stream.position) <= stream.position
      ensures Agrees(CollectReplacement(stream.tokens, old(stream.position), "", column, delimiter),
                     result, stream.position)
    {
      hide AreTokens, TokenStream.Valid, TrailingBackslashes;
      stream.Standing();
      ghost var tokens, start := stream.tokens, stream.position;
      var replacement := "";
      var previousEndColumn := column;
      while true
        invariant stream.Valid() && AreTokens(tokens) && start <= stream.position < |tokens|
        invariant CollectReplacement(tokens, stream.position, replacement, previousEndColumn, delimiter) ==
                  CollectReplacement(tokens, start, "", column, delimiter)
        decreases |tokens| - stream.position
      {
        var next := stream.Peek(0);
        if EndsOperand(next) {
          return Fail;
        }
        var token := stream.Consume();
        replacement := replacement + Spaces(Gap(token, previousEndColumn));
        var even := CountsEven(replacement);
        previousEndColumn := EndColumn(token);
        if token.lexeme == [delimiter] && token.interpretation != Interpretation.Literal && even {
          return Ok(replacement);
        }
        replacement := replacement + token.lexeme;
      }
    }

    // -------------------------------------------------------------- commands

    /** Takes the newline in front of the end along, and requires the end unless commands may follow. */
    method RequireCommandEnd() returns (result: Result<()>)
      requires stream.Valid()
      modifies stream`cache, stream`endCached, stream`position, stream.lexer.stream`position
      ensures stream.Valid() && old(stream.position) <= stream.position
      ensures var end := CommandEnd(stream.tokens, old(stream.position), allowTrailingCommands);
        result.Ok? == end.Ok? && (result.Ok? ==> stream.position == end.value)
    {
      hide AreTokens, TokenStream.Valid;
      var next := stream.Peek(0);
      if next.kind == NewLineToken {
        var _ := stream.Consume();
      }
      if allowTrailingCommands {
        return Ok(());
      }
      var last := stream.Peek(0);
      return if last.kind == EndToken then Ok(()) else Fail;
    }

    /** Ends a command. */
    method Finish(command: Command) returns (result: Result<Command>)
      requires stream.Valid()
      modifies stream`cache, stream`endCached, stream`position, stream.lexer.stream`position
      ensures stream.Valid() && old(stream.position) <= stream.position
      ensures Agrees(Ended(stream.tokens, old(stream.position), allowTrailingCommands, command), result,
                     stream.position)
    {
      hide AreTokens, TokenStream.Valid, CommandEnd;
      var _ :- RequireCommandEnd();
      return Ok(command);
    }

    /** One command of a chain on a line: others may follow it. */
    method ParseOne() returns (result: Result<Command>)
      requires stream.Valid()
      modifies this, stream`cache, stream`endCached, stream`position, stream.lexer.stream`position
      ensures stream.Valid() && allowTrailingCommands == old(allowTrailingCommands)
      ensures Parsed(ParseCommand(stream.tokens, old(stream.position), true), result, old(stream.position),
                     stream.position)
    {
      var previousMode := allowTrailingCommands;
      allowTrailingCommands := true;
      hide AreTokens, TokenStream.Valid;
      result := Parse();
      allowTrailingCommands := previousMode;
    }

    /** One command; on failure the stream is where it was. */
    method Parse() returns (result: Result<Command>)
      requires stream.Valid()
      modifies stream`cache, stream`endCached, stream`position, stream.lexer.stream`position
      ensures stream.Valid()
      ensures Parsed(ParseCommand(stream.tokens, old(stream.position), allowTrailingCommands), result,
                     old(stream.position), stream.position)
      decreases |stream.tokens| - stream.position, 3
    {
      hide AreTokens, TokenStream.Valid, ParseCommand;
      var mark := stream.position;
      result := ParseForward();
      if result.Fail? {
        var back := stream.Rewind(mark);
        assert back.Ok?;
      }
    }

    /** One command; on failure the stream may be anywhere further on. */
    method ParseForward() returns (result: Result<Command>)
      requires stream.Valid()
      modifies stream`cache, stream`endCached, stream`position, stream.lexer.stream`position
      ensures stream.Valid() && old(stream.position) <= stream.position
      ensures Agrees(ParseCommand(stream.tokens, old(stream.position), allowTrailingCommands), result, stream.position)
      decreases |stream.tokens| - stream.position, 2
    {
      hide AreTokens, TokenStream.Valid, ParseBody, ParseHead, Mnemonic;
      stream.Standing();
      var first := stream.Peek(0);
      var head :- ParseAddressPart();
      if head.implicitPrint {
        result := ParseOperands(head.address, 'P', Plain, first);
        return;
      }
      var command := stream.Consume();
      var recognized :- Mnemonic(command);
      result := ParseOperands(head.address, recognized.0, recognized.1, command);
    }

    /** The optional address in front of a mnemonic. */
    method ParseAddressPart() returns (result: Result<Head>)
      requires stream.Valid()
      modifies stream`cache, stream`endCached, stream`position, stream.lexer.stream`position
      ensures stream.Valid() && old(stream.position) <= stream.position
      ensures Agrees(ParseHead(stream.tokens, old(stream.position)), result, stream.position)
    {
      hide AreTokens, TokenStream.Valid, ParsePrefix;
      stream.Standing();
      var first := stream.Peek(0);
      if IsSymbol(first, '*') {
        var _ := stream.Consume();
        var next := stream.Peek(0);
        return Ok(Head(Some(Range(Absolute(1), Last)), EndsOperand(next)));
      }
      if BeginsAddress(first) {
        var parser := new AddressParser(stream);
        var address :- parser.ParsePrefixAddress();
        return Ok(Head(Some(address), false));
      }
      return Ok(Head(None, false));
    }

    /** The operands and the end of a command whose mnemonic is known. */
    method ParseOperands(address: Option<Address>, mnemonic: char, spelling: Spelling, command: Token)
      returns (result: Result<Command>)
      requires stream.Valid()
      modifies stream`cache, stream`endCached, stream`position, stream.lexer.stream`position
      ensures stream.Valid() && old(stream.position) <= stream.position
      ensures Agrees(ParseBody(stream.tokens, old(stream.position), address, mnemonic, spelling, command,
                               allowTrailingCommands), result, stream.position)
      decreases |stream.tokens| - stream.position, 1
    {
      hide AreTokens, TokenStream.Valid, Ended, ParseFilename, ParseMessage, ParseName, ParsePrefix, ParseGlobal,
           ParseGather, ParseSubstitute, ParseOption, ParseSelect, PlainText, OperandEnd;
      stream.Standing();
      match mnemonic
      case 'R' => result := ParseFileCommand(address, mnemonic, spelling, command);
      case 'W' => result := ParseFileCommand(address, mnemonic, spelling, command);
      case 'L' => result := ParseFileCommand(address, mnemonic, spelling, command);
      case 'J' => result := ParseTextCommand(address, mnemonic, spelling, command);
      case '!' => result := ParseTextCommand(address, mnemonic, spelling, command);
      case '"' => result := ParseTextCommand(address, mnemonic, spelling, command);
      case 'S' => result := ParseSubstitution(address);
      case 'Q' => result := ParseSettingCommand(address, mnemonic, spelling, command);
      case 'F' => result := ParseSettingCommand(address, mnemonic, spelling, command);
      case 'O' => result := ParseSettingCommand(address, mnemonic, spelling, command);
      case 'G' => result := ParseGlobalCommand(address);
      case 'Z' =>
        if spelling == Gathering {
          if address.Some? {
            return Fail;
          }
          result := ParseZapGather();
        } else {
          if IsRange(address) {
            return Fail;
          }
          result := Finish(Zap(address));
        }
      case 'B' =>
        if address.Some? {
          return Fail;
        }
        result := ParseBufferName(spelling, command);
      case 'M' => result := ParseDestinationCommand(address, mnemonic, spelling, command);
      case 'T' => result := ParseDestinationCommand(address, mnemonic, spelling, command);
      case _ =>
        var _ :- RequireCommandEnd();
        return SimpleCommand(mnemonic, address);
    }

    /** The commands about the editor itself. */
    method ParseSettingCommand(address: Option<Address>, mnemonic: char, spelling: Spelling, command: Token)
      returns (result: Result<Command>)
      requires stream.Valid() && mnemonic in {'Q', 'F', 'O'}
      modifies stream`cache, stream`endCached, stream`position, stream.lexer.stream`position
      ensures stream.Valid() && old(stream.position) <= stream.position
      ensures Agrees(ParseBody(stream.tokens, old(stream.position), address, mnemonic, spelling, command,
                               allowTrailingCommands), result, stream.position)
    {
      hide AreTokens, TokenStream.Valid, Ended, ParseOption;
      stream.Standing();
      match mnemonic
      case 'Q' =>
        if address.Some? {
          return Fail;
        }
        var next := stream.Peek(0);
        if spelling != Doubled && IsSymbol(next, '!') {
          return Fail;
        }
        result := Finish(Quit(spelling == Doubled));
      case 'F' =>
        if address.Some? || !spelling.FactsOf? {
          return Fail;
        }
        result := Finish(Facts(spelling.buffers));
      case 'O' =>
        if address.Some? {
          return Fail;
        }
        result := ParseOptionSetting();
    }

    /** The commands with a destination: a buffer or a line. */
    method ParseDestinationCommand(address: Option<Address>, mnemonic: char, spelling: Spelling, command: Token)
      returns (result: Result<Command>)
      requires stream.Valid() && mnemonic in {'M', 'T'}
      modifies stream`cache, stream`endCached, stream`position, stream.lexer.stream`position
      ensures stream.Valid() && old(stream.position) <= stream.position
      ensures Agrees(ParseBody(stream.tokens, old(stream.position), address, mnemonic, spelling, command,
                               allowTrailingCommands), result, stream.position)
    {
      hide AreTokens, TokenStream.Valid, Ended, ParseName, ParsePrefix;
      stream.Standing();
      match mnemonic
      case 'M' =>
        var name :- ParseParenthesizedName();
        result := Finish(Move(address, name));
      case 'T' =>
        var next := stream.Peek(0);
        if !BeginsAddress(next) {
          return Fail;
        }
        var parser := new AddressParser(stream);
        var destination :- parser.ParsePrefixAddress();
        if destination.Range? {
          return Fail;
        }
        result := Finish(Transfer(address, Some(destination)));
    }

    /** The commands with a file name. */
    method ParseFileCommand(address: Option<Address>, mnemonic: char, spelling: Spelling, command: Token)
      returns (result: Result<Command>)
      requires stream.Valid() && mnemonic in {'R', 'W', 'L'}
      modifies stream`cache, stream`endCached, stream`position, stream.lexer.stream`position
      ensures stream.Valid() && old(stream.position) <= stream.position
      ensures Agrees(ParseBody(stream.tokens, old(stream.position), address, mnemonic, spelling, command,
                               allowTrailingCommands), result, stream.position)
    {
      hide AreTokens, TokenStream.Valid, Ended, ParseFilename, ParseMessage, PlainText, OperandEnd;
      stream.Standing();
      match mnemonic
      case 'R' =>
        if IsRange(address) {
          return Fail;
        }
        var filename :- ParseOptionalFilename();
        result := Finish(Read(address, filename));
      case 'W' =>
        var filename :- ParseOptionalFilename();
        result := Finish(Write(address, filename, if spelling.WriteAs? then spelling.mode else Preserve));
      case 'L' =>
        if address.Some? {
          return Fail;
        }
        var filename :- ParseOptionalFilename();
        result := Finish(List(filename));
    }

    /** The commands with text up to the end of the line. */
    method ParseTextCommand(address: Option<Address>, mnemonic: char, spelling: Spelling, command: Token)
      returns (result: Result<Command>)
      requires stream.Valid() && mnemonic in {'J', '!', '"'}
      modifies stream`cache, stream`endCached, stream`position, stream.lexer.stream`position
      ensures stream.Valid() && old(stream.position) <= stream.position
      ensures Agrees(ParseBody(stream.tokens, old(stream.position), address, mnemonic, spelling, command,
                               allowTrailingCommands), result, stream.position)
    {
      hide AreTokens, TokenStream.Valid, Ended, ParseFilename, ParseMessage, PlainText, OperandEnd;
      stream.Standing();
      match mnemonic
      case 'J' =>
        if address.Some? || !spelling.MessageForm? || spelling.newline.None? {
          return Fail;
        }
        var text :- ParseMessageText(command);
        if |text| > MAX_MESSAGE_LENGTH {
          return Fail;
        }
        result := Finish(Message(text, spelling.newline.value));
      case '!' =>
        if address.Some? {
          return Fail;
        }
        var text := ConsumePlainText();
        if text == "" {
          return Fail;
        }
        result := Finish(System(text));
      case '"' =>
        if address.Some? {
          return Fail;
        }
        var text := ConsumePlainText();
        result := Finish(Comment(text));
    }

    method ParseSubstitution(address: Option<Address>) returns (result: Result<Command>)
      requires stream.Valid()
      modifies stream`cache, stream`endCached, stream`position, stream.lexer.stream`position
      ensures stream.Valid() && old(stream.position) <= stream.position
      ensures Agrees(ParseSubstitute(stream.tokens, old(stream.position), address, allowTrailingCommands), result,
                     stream.position)
    {
      hide AreTokens, TokenStream.Valid, Ended, ParseDelimited, CollectReplacement;
      stream.Standing();
      var opening := stream.Peek(0);
      var pattern, previousEndColumn :- ParseDelimitedPattern();
      var replacement :- ParseReplacement(previousEndColumn, opening.lexeme[0]);
      var next := stream.Peek(0);
      var printAfter := next.kind == CommandToken && |next.lexeme| == 1 && Upper(next.lexeme[0]) == 'P';
      if printAfter {
        var _ := stream.Consume();
      }
      result := Finish(Command.Substitute(address, pattern, replacement, printAfter));
    }

    method ParseGlobalCommand(address: Option<Address>) returns (result: Result<Command>)
      requires stream.Valid()
      modifies stream`cache, stream`endCached, stream`position, stream.lexer.stream`position
      ensures stream.Valid() && old(stream.position) <= stream.position
      ensures Agrees(ParseGlobal(stream.tokens, old(stream.position), address), result, stream.position)
      decreases |stream.tokens| - stream.position, 0
    {
      hide AreTokens, TokenStream.Valid, ParseDelimited, ParseNested;
      stream.Standing();
      var inverted := false;
      var next := stream.Peek(0);
      if IsSymbol(next, '~') {
        var _ := stream.Consume();
        inverted := true;
      }
      var opening := stream.Peek(0);
      if !(IsSymbol(opening, '/') || IsSymbol(opening, '?')) {
        return Fail;
      }
      var pattern, _ :- ParseDelimitedPattern();
      var nested :- ParseNestedCommand();
      return Ok(Global(address, pattern, inverted, nested));
    }

    method ParseZapGather() returns (result: Result<Command>)
      requires stream.Valid()
      modifies stream`cache, stream`endCached, stream`position, stream.lexer.stream`position
      ensures stream.Valid() && old(stream.position) <= stream.position
      ensures Agrees(ParseGather(stream.tokens, old(stream.position)), result, stream.position)
      decreases |stream.tokens| - stream.position, 0
    {
      hide AreTokens, TokenStream.Valid, ParseName, ParseNested;
      stream.Standing();
      var name :- ParseParenthesizedName();
      var nested :- ParseNestedCommand();
      return Ok(ZapGather(name, nested));
    }

    /** A nested command, parsed by a parser of its own that requires the end of the input behind it. */
    method ParseNestedCommand() returns (result: Result<Command>)
      requires stream.Valid()
      modifies stream`cache, stream`endCached, stream`position, stream.lexer.stream`position
      ensures stream.Valid() && old(stream.position) <= stream.position
      ensures Agrees(ParseNested(stream.tokens, old(stream.position)), result, stream.position)
      decreases |stream.tokens| - stream.position, 4
    {
      hide AreTokens, TokenStream.Valid, ParseCommand;
      stream.Standing();
      var next := stream.Peek(0);
      if EndsOperand(next) {
        return Fail;
      }
      var parser := new CommandParser(stream);
      var nested :- parser.Parse();
      return if nested.HasAddress() then Fail else Ok(nested);
    }

    method ParseOptionSetting() returns (result: Result<Command>)
      requires stream.Valid()
      modifies stream`cache, stream`endCached, stream`position, stream.lexer.stream`position
      ensures stream.Valid() && old(stream.position) <= stream.position
      ensures Agrees(ParseOption(stream.tokens, old(stream.position), allowTrailingCommands), result, stream.position)
    {
      hide AreTokens, TokenStream.Valid, Ended;
      stream.Standing();
      var sign := stream.Consume();
      if !(IsSymbol(sign, '+') || IsSymbol(sign, '-')) {
        return Fail;
      }
      var option := stream.Consume();
      if |option.lexeme| != 1 || option.kind !in {CommandToken, IdentifierToken} {
        return Fail;
      }
      var name := Upper(option.lexeme[0]);
      if name == 'M' {
        result := Finish(Monitor(IsSymbol(sign, '+')));
        return;
      }
      if name != 'I' {
        return Fail;
      }
      var opening := stream.Consume();
      if opening.kind != LeftParenthesisToken {
        return Fail;
      }
      result := Finish(InputParenthesis(IsSymbol(sign, '+')));
    }

    method ParseBufferName(spelling: Spelling, command: Token) returns (result: Result<Command>)
      requires stream.Valid()
      modifies stream`cache, stream`endCached, stream`position, stream.lexer.stream`position
      ensures stream.Valid() && old(stream.position) <= stream.position
      ensures Agrees(ParseSelect(stream.tokens, old(stream.position), spelling, command, allowTrailingCommands), result,
                     stream.position)
    {
      hide AreTokens, TokenStream.Valid, Ended, ParseName;
      stream.Standing();
      if spelling.CompactName? {
        result := Finish(SelectBuffer(spelling.name, true));
        return;
      }
      var next := stream.Peek(0);
      if next.kind == LeftParenthesisToken {
        var name :- ParseParenthesizedName();
        result := Finish(SelectBuffer(name, false));
        return;
      }
      var shortName := stream.Consume();
      if !IsShortName(command, shortName) {
        return Fail;
      }
      result := Finish(SelectBuffer(shortName.lexeme, true));
    }
  }
}
