/** The lexer: from located characters to tokens.

  `Tokens` below says what the tokens of some characters are; the class produces them one
  at a time. What is lost between tokens is ordinary horizontal whitespace and nothing else. */
module Lexing {
  import opened Outcomes
  import opened Characters
  import opened Tokens
  import opened Numbers

  predicate IsSkippable(character: Character) {
    character.interpretation == Normal && character.value in {' ', '\t', '\r'}
  }

  predicate IsIdentifierPart(c: char) {
    IsLetter(c) || IsDigit(c) || c == '_'
  }

  /** A protected character that could be structural; it becomes a symbol. */
  predicate IsProtectedSyntax(character: Character) {
    character.interpretation == Interpretation.Literal && !IsIdentifierPart(character.value)
  }

  predicate IsPrintable(c: char) {
    32 <= c as int <= 126
  }

  function Text(characters: seq<Character>, from: nat, to: nat): (text: string)
    requires from <= to <= |characters|
    ensures |text| == to - from
    ensures forall k :: 0 <= k < |text| ==> text[k] == characters[from + k].value
  {
    seq(to - from, k requires 0 <= k < to - from => characters[from + k].value)
  }

  // ---------------------------------------------------------------- where tokens are

  /** The first position from `position` on that is not skipped. */
  function Skipped(characters: seq<Character>, position: nat): (next: nat)
    requires position <= |characters|
    ensures position <= next <= |characters|
    ensures forall k :: position <= k < next ==> IsSkippable(characters[k])
    ensures next < |characters| ==> !IsSkippable(characters[next])
    decreases |characters| - position
  {
    if position < |characters| && IsSkippable(characters[position]) then Skipped(characters, position + 1) else position
  }

  /** The end of a run of digits, or of identifier characters. */
  function RunEnd(characters: seq<Character>, position: nat, digits: bool): (end: nat)
    requires position <= |characters|
    ensures position <= end <= |characters|
    ensures forall k :: position <= k < end ==>
      if digits then IsDigit(characters[k].value) else IsIdentifierPart(characters[k].value)
    decreases |characters| - position
  {
    if position == |characters| then position
    else if (if digits then IsDigit(characters[position].value) else IsIdentifierPart(characters[position].value)) then
      RunEnd(characters, position + 1, digits)
    else position
  }

  /** A letter with a digit right behind it is a command of its own. */
  predicate IsCompactCommand(characters: seq<Character>, position: nat)
    requires position < |characters|
  {
    IsLetter(characters[position].value) && position + 1 < |characters| && IsDigit(characters[position + 1].value)
  }

  /** The end of the token that starts at a position. */
  function TokenEnd(characters: seq<Character>, position: nat): (end: nat)
    requires position < |characters|
    ensures position < end <= |characters|
    ensures end > position + 1 ==> forall k :: position <= k < end ==> IsIdentifierPart(characters[k].value)
  {
    var c := characters[position].value;
    if IsProtectedSyntax(characters[position]) then position + 1
    else if IsDigit(c) then RunEnd(characters, position + 1, true)
    else if IsCompactCommand(characters, position) then position + 1
    else if IsLetter(c) || c == '_' then RunEnd(characters, position + 1, false)
    else position + 1
  }

  function KindOf(characters: seq<Character>, position: nat): (kind: TokenType)
    requires position < |characters|
    ensures kind != EndToken
  {
    var c := characters[position].value;
    if IsProtectedSyntax(characters[position]) then SymbolToken
    else if IsDigit(c) then NumberToken
    else if IsLetter(c) then if TokenEnd(characters, position) == position + 1 then CommandToken else IdentifierToken
    else if c == '_' then IdentifierToken
    else if c == ',' then CommaToken
    else if c == '(' then LeftParenthesisToken
    else if c == ')' then RightParenthesisToken
    else if c == '\\' then BackslashToken
    else if c == '\n' then NewLineToken
    else if IsPrintable(c) then SymbolToken
    else UnknownToken
  }

  function TokenAt(characters: seq<Character>, position: nat): (token: Token)
    requires position < |characters|
    ensures token.lexeme != "" && token.kind != EndToken
    ensures token.kind == NumberToken ==> IsNumber(token.lexeme)
  {
    Token(KindOf(characters, position), Text(characters, position, TokenEnd(characters, position)),
          characters[position].location, characters[position].interpretation)
  }

  function TheEnd(location: SourceLocation): Token {
    Token(EndToken, "", location, Normal)
  }

  /** The last token, and only it, marks the end; the others are not empty, and numbers are digits. */
  predicate AreTokens(tokens: seq<Token>) {
    && tokens != [] && tokens[|tokens| - 1].kind == EndToken
    && forall k :: 0 <= k < |tokens| - 1 ==> IsContent(tokens[k])
  }

  predicate IsContent(token: Token) {
    token.kind != EndToken && token.lexeme != "" && (token.kind == NumberToken ==> IsNumber(token.lexeme))
  }

  /** All tokens from a position on. */
  function AllTokens(characters: seq<Character>, end: SourceLocation, position: nat): (tokens: seq<Token>)
    requires position <= |characters|
    ensures AreTokens(tokens) && tokens[|tokens| - 1] == TheEnd(end)
    decreases |characters| - position
  {
    var start := Skipped(characters, position);
    if start == |characters| then [TheEnd(end)]
    else [TokenAt(characters, start)] + AllTokens(characters, end, TokenEnd(characters, start))
  }

  // ---------------------------------------------------------------- the lexer

  class Lexer {
    const stream: FlowCharacterStream

    constructor (stream: FlowCharacterStream)
      ensures this.stream == stream
    {
      this.stream := stream;
    }

    method SkipHorizontalWhitespace()
      requires stream.Valid()
      modifies stream`position
      ensures stream.Valid() && stream.position == Skipped(stream.characters, old(stream.position))
    {
      while !stream.AtEnd()
        invariant stream.Valid()
        invariant Skipped(stream.characters, stream.position) == Skipped(stream.characters, old(stream.position))
        decreases |stream.characters| - stream.position
      {
        var character := stream.characters[stream.position];
        if character.interpretation != Normal {
          break;
        }
        if character.value in {' ', '\t', '\r'} {
          var _ := stream.Consume();
        } else {
          break;
        }
      }
    }

    /** Takes a run of digits, or of identifier characters. */
    method TakeRun(digits: bool) returns (lexeme: string)
      requires stream.Valid()
      modifies stream`position
      ensures stream.Valid() && stream.position == RunEnd(stream.characters, old(stream.position), digits)
      ensures lexeme == Text(stream.characters, old(stream.position), stream.position)
    {
      lexeme := "";
      while if digits then IsDigit(stream.Value(0)) else IsIdentifierPart(stream.Value(0))
        invariant stream.Valid() && old(stream.position) <= stream.position
        invariant RunEnd(stream.characters, stream.position, digits) ==
                  RunEnd(stream.characters, old(stream.position), digits)
        invariant lexeme == Text(stream.characters, old(stream.position), stream.position)
        decreases |stream.characters| - stream.position
      {
        var character := stream.Consume();
        lexeme := lexeme + [character.value.value];
      }
    }

    /** Takes one character as a token. */
    method TakeOne(kind: TokenType) returns (token: Token)
      requires stream.Valid() && !stream.AtEnd()
      modifies stream`position
      ensures stream.Valid() && stream.position == old(stream.position) + 1
      ensures var start := old(stream.position);
        token == Token(kind, Text(stream.characters, start, start + 1), stream.characters[start].location,
                       stream.characters[start].interpretation)
    {
      var character := stream.Consume();
      assert Text(stream.characters, stream.position - 1, stream.position) == [character.value.value];
      token := Token(kind, [character.value.value], character.value.location, character.value.interpretation);
    }

    /** The next token; at the end of input, the end token. */
    method Next() returns (token: Token)
      requires stream.Valid()
      modifies stream`position
      ensures stream.Valid()
      ensures var start := Skipped(stream.characters, old(stream.position));
        if start == |stream.characters| then token == TheEnd(stream.endLocation) && stream.position == start
        else token == TokenAt(stream.characters, start) && stream.position == TokenEnd(stream.characters, start)
    {
      hide RunEnd;
      SkipHorizontalWhitespace();
      if stream.AtEnd() {
        return TheEnd(stream.Location());
      }
      var first := stream.characters[stream.position];
      var current := first.value;
      if IsProtectedSyntax(first) {
        token := TakeOne(SymbolToken);
      } else if IsDigit(current) {
        token := TakeNumber();
      } else if IsLetter(current) && IsDigit(stream.Value(1)) {
        token := TakeOne(CommandToken);
      } else if IsLetter(current) || current == '_' {
        token := TakeIdentifierOrCommand();
      } else {
        token := TakeOne(
          match current
          case ',' => CommaToken
          case '(' => LeftParenthesisToken
          case ')' => RightParenthesisToken
          case '\\' => BackslashToken
          case '\n' => NewLineToken
          case _ => if IsPrintable(current) then SymbolToken else UnknownToken);
      }
    }

    method TakeNumber() returns (token: Token)
      requires stream.Valid() && !stream.AtEnd() && IsDigit(stream.Value(0))
      modifies stream`position
      ensures stream.Valid() && stream.position == RunEnd(stream.characters, old(stream.position) + 1, true)
      ensures var start := old(stream.position);
        token == Token(NumberToken, Text(stream.characters, start, stream.position), stream.characters[start].location,
                       stream.characters[start].interpretation)
    {
      var first := stream.characters[stream.position];
      var lexeme := TakeRun(true);
      token := Token(NumberToken, lexeme, first.location, first.interpretation);
    }

    method TakeIdentifierOrCommand() returns (token: Token)
      requires stream.Valid() && !stream.AtEnd() && (IsLetter(stream.Value(0)) || stream.Value(0) == '_')
      modifies stream`position
      ensures stream.Valid() && stream.position == RunEnd(stream.characters, old(stream.position) + 1, false)
      ensures var start := old(stream.position);
        var command := stream.position == start + 1 && IsLetter(stream.characters[start].value);
        token == Token(if command then CommandToken
                       else IdentifierToken, Text(stream.characters, start, stream.position),
                       stream.characters[start].location, stream.characters[start].interpretation)
    {
      var first := stream.characters[stream.position];
      var lexeme := TakeRun(false);
      var command := |lexeme| == 1 && IsLetter(lexeme[0]);
      token := Token(if command then CommandToken else IdentifierToken, lexeme, first.location, first.interpretation);
    }

    method Tokenize() returns (tokens: seq<Token>)
      requires stream.Valid()
      modifies stream`position
      ensures stream.Valid()
      ensures tokens == AllTokens(stream.characters, stream.endLocation, old(stream.position))
    {
      hide TokenAt, TokenEnd, Skipped;
      tokens := [];
      ghost var all := AllTokens(stream.characters, stream.endLocation, stream.position);
      while true
        invariant stream.Valid()
        invariant all == tokens + AllTokens(stream.characters, stream.endLocation, stream.position)
        decreases |stream.characters| - stream.position, 1
      {
        ghost var before := stream.position;
        var token := Next();
        NextIsFirst(stream.characters, stream.endLocation, before, tokens);
        tokens := tokens + [token];
        if token.kind == EndToken {
          return;
        }
      }
    }
  }

  lemma {:induction false} NextIsFirst(characters: seq<Character>, end: SourceLocation, position: nat,
                                       before: seq<Token>)
    requires position <= |characters|
    ensures var start := Skipped(characters, position);
      before + AllTokens(characters, end, position) ==
      if start == |characters| then before + [TheEnd(end)]
      else before + [TokenAt(characters, start)] + AllTokens(characters, end, TokenEnd(characters, start))
  {
    var start := Skipped(characters, position);
    if start < |characters| {
      var first, rest := [TokenAt(characters, start)], AllTokens(characters, end, TokenEnd(characters, start));
      assert AllTokens(characters, end, position) == first + rest;
      hide *;
      assert before + (first + rest) == before + first + rest;
    }
  }
}
