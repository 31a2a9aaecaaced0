/** Every way to type a command, and what it means.

  `Typing` is the syntax of command lines as a user knows it, `TextOf` is the text of each, and `Meaning` the command it
  stands for, if any. The grammar of commands, behind the lexer, gives exactly this meaning (`LineParses`). */
module CommandTyping {
  import opened Outcomes
  import opened Characters
  import opened Tokens
  import opened Numbers
  import opened Lexing
  import opened SourceText
  import opened Addresses
  import opened AddressParsing
  import opened AddressText
  import opened Patterns
  import opened PatternGrammar
  import opened LineCommands
  import opened CommandGrammar
  import opened LiteralOperands
  import opened Spans
  import opened PlainOperands

  /** A command without its address. */
  datatype Typing =
    | Word(letters: string)
    | Clause(head: string, text: string)
    | Quoted(head: string, name: string)
    | Bracketed(head: string, delimiter: char, text: string)
    | Parenthesised(letter: char, name: string)
    | Short(letter: char)
    | Copy(destination: Address)
    | Search(inverted: bool, delimiter: char, body: string, nested: Typing)
    | Collect(name: string, nested: Typing)
    | Exchange(delimiter: char, body: string, replacement: string, shown: bool)
    | Switch(on: bool, letter: char)

  function TextOf(t: Typing): string
    requires IsTypable(t)
  {
    match t
    case Word(letters) => letters
    case Clause(head, text) => head + (" " + text)
    case Quoted(head, name) => head + (" \"" + (name + "\""))
    case Bracketed(head, delimiter, text) => head + ([delimiter] + (text + [delimiter]))
    case Parenthesised(letter, name) => [letter] + ("(" + (name + ")"))
    case Short(c) => ['B', c]
    case Copy(destination) => "T" + AddressText.Print(destination)
    case Search(inverted, delimiter, body, nested) =>
      (if inverted then "G~" else "G") + ([delimiter] + (body + ([delimiter] + TextOf(nested))))
    case Collect(name, nested) => "ZG(" + (name + (")" + TextOf(nested)))
    case Exchange(delimiter, body, replacement, shown) =>
      "S" + ([delimiter] + (body + ([delimiter] + (replacement + ([delimiter] + if shown then "P" else "")))))
    case Switch(on, letter) => "O" + ((if on then "+" else "-") + (if letter == 'I' then "I(" else [letter]))
  }

  /** Text on one line, without tabs and carriage returns. */
  predicate IsOneLineText(text: string) {
    '\n' !in text && '\t' !in text && '\r' !in text
  }

  /** Such text without space around it. */
  predicate IsOperandText(text: string) {
    text != "" && text[0] != ' ' && text[|text| - 1] != ' ' && IsOneLineText(text)
  }

  /** The body of a pattern or a replacement. */
  predicate IsBody(delimiter: char, body: string) {
    IsOneLineText(body) && ClosesBehind(delimiter, body)
  }

  const FILE_HEADS: set<string> := {"R", "W", "WA", "WU", "WB", "L"}

  predicate IsTypable(t: Typing) {
    match t
    case Word(letters) => 1 <= |letters| <= 2 && forall k :: 0 <= k < |letters| ==> IsLetter(letters[k])
    case Clause(head, text) =>
      && head in FILE_HEADS + {"JM", "JP", "!", "\""} && IsOperandText(text) && (head in FILE_HEADS ==> text[0] != '"')
    case Quoted(head, name) => head in FILE_HEADS && IsOperandText(name) && '"' !in name
    case Bracketed(head, delimiter, text) =>
      && head in {"JM", "JP"} && IsPrintable(delimiter) && delimiter != ' ' && !IsIdentifierPart(delimiter)
      && IsOneLineText(text) && delimiter !in text
    case Parenthesised(letter, name) => letter in {'B', 'M'} && IsOperandText(name) && ')' !in name
    case Short(c) => IsPrintable(c) && c !in {' ', '(', ')'} && !IsLetter(c)
    case Copy(destination) => IsFlat(destination)
    case Search(_, delimiter, body, nested) => delimiter in {'/', '?'} && IsBody(delimiter, body) && IsTypable(nested)
    case Collect(name, nested) => IsOperandText(name) && ')' !in name && IsTypable(nested)
    case Exchange(delimiter, body, replacement, _) =>
      IsPlainSymbol(delimiter) && IsBody(delimiter, body) && IsBody(delimiter, replacement)
    case Switch(_, letter) => letter in {'M', 'I'}
  }

  // ---------------------------------------------------------------- meanings

  function Unless<T>(refused: bool, value: T): Result<T> {
    if refused then Fail else Ok(value)
  }

  /** One letter, upper case. */
  function LetterMeaning(letter: char, address: Option<Address>): Result<Command> {
    match letter
    case 'P' => Ok(Print(address))
    case 'D' => Ok(Delete(address))
    case 'C' => Ok(Change(address))
    case 'A' => Unless(IsPair(address), Append(address))
    case 'I' => Unless(IsPair(address), Insert(address))
    case 'Z' => Unless(IsPair(address), Zap(address))
    case 'R' => Unless(IsPair(address), Read(address, None))
    case 'W' => Ok(Write(address, None, Preserve))
    case 'L' => Unless(address.Some?, List(None))
    case 'Q' => Unless(address.Some?, Quit(false))
    case _ => Fail
  }

  predicate IsPair(address: Option<Address>) {
    address.Some? && address.value.Range?
  }

  /** Two letters, upper case, of which the second one was typed as `spelled`. */
  function PairMeaning(word: string, spelled: char, address: Option<Address>): Result<Command>
    requires |word| == 2
  {
    match word
    case "QQ" => Unless(address.Some?, Quit(true))
    case "FB" => Unless(address.Some?, Facts(true))
    case "FO" => Unless(address.Some?, Facts(false))
    case "WA" => Ok(Write(address, None, AsAscii))
    case "WU" => Ok(Write(address, None, AsUtf8))
    case "WB" => Ok(Write(address, None, AsBcd))
    case "JM" => Unless(address.Some?, Message("", true))
    case "JP" => Unless(address.Some?, Message("", false))
    case _ => if word[0] == 'B' then Unless(address.Some?, SelectBuffer([spelled], true)) else Fail
  }

  function FileMeaning(head: string, address: Option<Address>, name: string): Result<Command>
    requires head in FILE_HEADS
  {
    match head
    case "R" => Unless(IsPair(address), Read(address, Some(name)))
    case "W" => Ok(Write(address, Some(name), Preserve))
    case "WA" => Ok(Write(address, Some(name), AsAscii))
    case "WU" => Ok(Write(address, Some(name), AsUtf8))
    case "WB" => Ok(Write(address, Some(name), AsBcd))
    case _ => Unless(address.Some?, List(Some(name)))
  }

  /** The pattern that a body stands for. */
  function BodyPattern(delimiter: char, body: string): Result<Pattern> {
    ParsePattern(Source([delimiter] + body + [delimiter], []))
  }

  function SearchMeaning(address: Option<Address>, inverted: bool, pattern: Result<Pattern>, nested: Result<Command>):
    Result<Command>
  {
    if pattern.Fail? || nested.Fail? then Fail else Ok(Global(address, pattern.value, inverted, nested.value))
  }

  function ExchangeMeaning(address: Option<Address>, pattern: Result<Pattern>, replacement: string, shown: bool):
    Result<Command>
  {
    if pattern.Fail? then Fail else Ok(Command.Substitute(address, pattern.value, replacement, shown))
  }

  /** The command that a typing stands for behind an address. */
  function Meaning(address: Option<Address>, t: Typing): Result<Command>
    requires IsTypable(t)
    decreases t
  {
    match t
    case Word(letters) =>
      if |letters| == 1 then LetterMeaning(Upper(letters[0]), address)
      else PairMeaning([Upper(letters[0]), Upper(letters[1])], letters[1], address)
    case Clause(head, text) =>
      if head in FILE_HEADS then FileMeaning(head, address, text)
      else if head == "!" then Unless(address.Some?, System(text))
      else if head == "\"" then Unless(address.Some?, Comment(text))
      else Unless(address.Some? || |text| > 2000, Message(text, head == "JM"))
    case Quoted(head, name) => FileMeaning(head, address, name)
    case Bracketed(head, _, text) => Unless(address.Some? || |text| > 2000, Message(text, head == "JM"))
    case Parenthesised(letter, name) =>
      if letter == 'M' then Ok(Move(address, name)) else Unless(address.Some?, SelectBuffer(name, false))
    case Short(c) => Unless(address.Some?, SelectBuffer([c], true))
    case Copy(destination) => Unless(destination.Range? || !Fits(destination), Transfer(address, Some(destination)))
    case Search(inverted, delimiter, body, nested) =>
      SearchMeaning(address, inverted, BodyPattern(delimiter, body), Meaning(None, nested))
    case Collect(name, nested) =>
      var inner :- Meaning(None, nested);
      Unless(address.Some?, ZapGather(name, inner))
    case Exchange(delimiter, body, replacement, shown) =>
      ExchangeMeaning(address, BodyPattern(delimiter, body), replacement, shown)
    case Switch(on, letter) => Unless(address.Some?, if letter == 'M' then Monitor(on) else InputParenthesis(on))
  }

  lemma {:induction false} MeaningHasNoAddress(t: Typing)
    requires IsTypable(t) && Meaning(None, t).Ok?
    ensures !Meaning(None, t).value.HasAddress()
  {
    hide ParsePattern, Fits;
    if t.Word? {
      hide LetterMeaning, PairMeaning;
      WordHasNoAddress(t.letters);
    }
  }

  lemma {:induction false} WordHasNoAddress(letters: string)
    requires |letters| > 0
    ensures var meaning := LetterMeaning(Upper(letters[0]), None); meaning.Ok? ==> !meaning.value.HasAddress()
    ensures |letters| == 2 ==>
      var meaning := PairMeaning([Upper(letters[0]), Upper(letters[1])], letters[1], None);
      meaning.Ok? ==> !meaning.value.HasAddress()
  {
  }

  // ---------------------------------------------------------------- tokens of typed text

  /** A command line ends here, perhaps behind a line feed. */
  predicate EndsAt(tokens: seq<Token>, n: nat) {
    && AreTokens(tokens) && n < |tokens|
    && (n == |tokens| - 1 || (n == |tokens| - 2 && tokens[n].kind == NewLineToken))
  }

  /** The source ends at a position, perhaps behind a line feed. */
  predicate IsLineEnd(characters: seq<Character>, position: nat) {
    || position == |characters|
    || (position == |characters| - 1 && IsPlain(characters[position], '\n'))
  }

  lemma {:induction false} LineEndLexes(tokens: seq<Token>, n: nat, characters: seq<Character>, end: SourceLocation,
                                        b: nat)
    requires LexedFrom(tokens, n, characters, end, b) && IsLineEnd(characters, b)
    ensures EndsAt(tokens, n) && IsBreak(characters, b)
    ensures EndsOperand(tokens[n]) && tokens[n].lexeme in {"", "\n"}
    ensures CommandEnd(tokens, n, false) == Ok(|tokens| - 1)
  {
    if b == |characters| {
      LexedToEnd(tokens, n, characters, end);
      assert AllTokens(characters, end, b) == [TheEnd(end)];
      assert tokens[n..][0] == tokens[n];
    } else {
      LexedNext(tokens, n, characters, end, b);
      LexedToEnd(tokens, n + 1, characters, end);
      assert Text(characters, b, b + 1) == "\n";
    }
  }

  /** Letters that nothing continues are one token. */
  lemma {:induction false} WordLexes(tokens: seq<Token>, i: nat, characters: seq<Character>, end: SourceLocation,
                                     position: nat, word: string)
    requires IsLocated(characters) && LexedFrom(tokens, i, characters, end, position) &&
             StandsAt(characters, position, word)
    requires 1 <= |word| <= 2 && forall k :: 0 <= k < |word| ==> IsLetter(word[k])
    requires var next := position + |word|;
      next < |characters| ==>
        !IsIdentifierPart(characters[next].value) || (|word| == 1 && IsDigit(characters[next].value))
    ensures AreTokens(tokens) && i + 1 < |tokens| && tokens[i].lexeme == word
    ensures tokens[i].kind == if |word| == 1 then CommandToken else IdentifierToken
    ensures tokens[i].location.offset == position && tokens[i].location == characters[position].location
    ensures LexedFrom(tokens, i + 1, characters, end, position + |word|)
  {
    hide AllTokens, TokenAt, TokenEnd, LexedFrom, StandsAt, AreTokens, IsLocated;
    LexedFacts(tokens, i, characters, end, position);
    WordEnds(characters, position, word);
    LexedNext(tokens, i, characters, end, position);
    LexedFacts(tokens, i + 1, characters, end, position + |word|);
    OffsetsCount(characters, position);
  }

  lemma {:induction false} WordEnds(characters: seq<Character>, position: nat, word: string)
    requires StandsAt(characters, position, word) && 1 <= |word| <= 2
    requires forall k :: 0 <= k < |word| ==> IsLetter(word[k])
    requires var next := position + |word|;
      next < |characters| ==>
        !IsIdentifierPart(characters[next].value) || (|word| == 1 && IsDigit(characters[next].value))
    ensures position < |characters|
    ensures TokenEnd(characters, position) == position + |word| && !IsSkippable(characters[position])
    ensures TokenAt(characters, position).lexeme == word
    ensures TokenAt(characters, position).kind == if |word| == 1 then CommandToken else IdentifierToken
    ensures TokenAt(characters, position).location == characters[position].location
  {
    assert IsPlain(characters[position + 0], word[0]);
    if |word| == 2 {
      assert IsPlain(characters[position + 1], word[1]);
      assert RunEnd(characters, position + 1, false) == RunEnd(characters, position + 2, false) == position + 2;
    } else if position + 1 < |characters| && !IsDigit(characters[position + 1].value) {
      assert RunEnd(characters, position + 1, false) == position + 1;
    } else if position + 1 == |characters| {
      assert RunEnd(characters, position + 1, false) == position + 1;
    }
    assert Text(characters, position, position + |word|) == word;
  }

  /** A byte that is neither space nor part of a word is a token of its own. */
  lemma {:induction false} ByteLexes(tokens: seq<Token>, i: nat, characters: seq<Character>, end: SourceLocation,
                                     position: nat, c: char)
    requires IsLocated(characters) && LexedFrom(tokens, i, characters, end, position) &&
             StandsAt(characters, position, [c])
    requires IsPrintable(c) && c != ' ' && !IsIdentifierPart(c)
    ensures AreTokens(tokens) && i + 1 < |tokens| && tokens[i].lexeme == [c]
    ensures tokens[i].kind == ByteKind(c) && !EndsOperand(tokens[i])
    ensures tokens[i].location.offset == position && tokens[i].location == characters[position].location
    ensures tokens[i].interpretation == Normal
    ensures LexedFrom(tokens, i + 1, characters, end, position + 1)
  {
    hide AllTokens;
    assert IsPlain(characters[position + 0], [c][0]);
    assert Text(characters, position, position + 1) == [c];
    LexedNext(tokens, i, characters, end, position);
    LexedFacts(tokens, i + 1, characters, end, position + 1);
    OffsetsCount(characters, position);
  }

  function ByteKind(c: char): TokenType {
    match c
    case ',' => CommaToken
    case '(' => LeftParenthesisToken
    case ')' => RightParenthesisToken
    case '\\' => BackslashToken
    case _ => SymbolToken
  }

  /** Typed text on one line is a span. */
  lemma {:induction false} StandsIsSpan(characters: seq<Character>, position: nat, text: string)
    requires StandsAt(characters, position, text) && IsOneLineText(text)
    ensures IsSpan(characters, position, position + |text|, Normal)
    ensures Text(characters, position, position + |text|) == text
  {
    forall k | position <= k < position + |text|
      ensures characters[k].interpretation == Normal && characters[k].value == text[k - position]
    {
      assert IsPlain(characters[position + (k - position)], text[k - position]);
    }
  }

  /** Text without space around it, in front of a break, is rebuilt from its tokens; they are tokens of the text. */
  lemma {:induction false} OperandRebuilt(tokens: seq<Token>, i: nat, characters: seq<Character>, end: SourceLocation,
                                          a: nat, text: string)
    returns (n: nat)
    requires IsLocated(characters) && LexedFrom(tokens, i, characters, end, a) && StandsAt(characters, a, text)
    requires IsOperandText(text) && IsBreak(characters, a + |text|)
    ensures i < n < |tokens| && LexedFrom(tokens, n, characters, end, a + |text|)
    ensures forall k :: i <= k < n ==> IsTokenOf(tokens[k], characters, a, a + |text|, Normal)
    ensures tokens[i].location == characters[a].location
    ensures RebuiltText(tokens, i, n, tokens[i].location.column) == text
  {
    hide LexedFrom, AllTokens, TokenAt, TokenEnd, IsLocated, AreTokens, IsTokenOf, RebuiltText, Text, Skipped, IsSpan;
    StandsIsSpan(characters, a, text);
    FirstAndLast(characters, a, text);
    LexedNext(tokens, i, characters, end, a);
    TokenHasNoSpace(characters, a);
    LexedFacts(tokens, i, characters, end, a);
    var q: nat;
    n, q := SpanRebuilt(tokens, i, characters, end, a, a + |text|);
    LexedFacts(tokens, n, characters, end, a + |text|);
    NoSpacesLeft(characters, q, a + |text|);
    if n == i {
      NoTokens(tokens, i, characters[a].location.column);
      assert |Text(characters, a, q)| == q - a;
    }
  }

  lemma {:induction false} NoSpacesLeft(characters: seq<Character>, q: nat, b: nat)
    requires q <= b <= |characters| && 0 < b && characters[b - 1].value != ' '
    requires forall k :: q <= k < b ==> characters[k].value == ' '
    ensures q == b
  {
  }

  lemma {:induction false} NoTokens(tokens: seq<Token>, i: nat, column: nat)
    requires i <= |tokens|
    ensures RebuiltText(tokens, i, i, column) == ""
  {
  }

  lemma {:induction false} FirstAndLast(characters: seq<Character>, a: nat, text: string)
    requires StandsAt(characters, a, text) && IsOperandText(text)
    ensures a + |text| <= |characters| && !IsSkippable(characters[a])
    ensures characters[a + |text| - 1].value != ' '
  {
    assert IsPlain(characters[a + 0], text[0]) && IsPlain(characters[a + (|text| - 1)], text[|text| - 1]);
  }

  /** A token of text begins with a byte of it. */
  lemma {:induction false} TokenOfText(token: Token, characters: seq<Character>, a: nat, text: string)
    requires StandsAt(characters, a, text) && IsTokenOf(token, characters, a, a + |text|, Normal)
    ensures token.lexeme != "" && token.lexeme[0] in text && !EndsOperand(token)
    ensures token.kind == RightParenthesisToken ==> ')' in text
    ensures IsSymbol(token, '"') ==> '"' in text
  {
    var s := token.location.offset;
    assert IsPlain(characters[a + (s - a)], text[s - a]);
  }

  lemma {:induction false} OperandEndIs(tokens: seq<Token>, i: nat, n: nat)
    requires AreTokens(tokens) && i <= n < |tokens| && EndsOperand(tokens[n])
    requires forall k :: i <= k < n ==> !EndsOperand(tokens[k])
    ensures OperandEnd(tokens, i) == n
    decreases n - i
  {
    if i < n {
      OperandEndIs(tokens, i + 1, n);
    }
  }

  // ---------------------------------------------------------------- what each typing parses to

  /** The command that begins with the mnemonic at token `i`. */
  function FromMnemonic(tokens: seq<Token>, i: nat, address: Option<Address>): Result<(Command, nat)>
    requires AreTokens(tokens) && i < |tokens|
  {
    var (mnemonic, spelling) :- Mnemonic(tokens[i]);
    ParseBody(tokens, i + 1, address, mnemonic, spelling, tokens[i], false)
  }

  /** The meaning, at the end of the tokens. */
  function Whole(tokens: seq<Token>, meaning: Result<Command>): Result<(Command, nat)>
    requires tokens != []
  {
    if meaning.Fail? then Fail else Ok((meaning.value, |tokens| - 1))
  }

  /** What is known of the source when a typing is parsed from a token on. */
  predicate IsTypedAt(tokens: seq<Token>, i: nat, characters: seq<Character>, end: SourceLocation, position: nat,
                      t: Typing) {
    && IsLocated(characters) && LexedFrom(tokens, i, characters, end, position) && IsTypable(t)
    && StandsAt(characters, position, TextOf(t)) && IsLineEnd(characters, position + |TextOf(t)|)
  }

  /** No address begins here, nor a star. */
  predicate BeginsCommand(token: Token) {
    !EndsOperand(token) && !BeginsAddress(token) && !IsSymbol(token, '*') && token.kind != CommaToken
  }

  /** One letter or two. */
  lemma {:induction false} WordParses(tokens: seq<Token>, i: nat, characters: seq<Character>, end: SourceLocation,
                                      position: nat, t: Typing, address: Option<Address>)
    requires IsTypedAt(tokens, i, characters, end, position, t) && t.Word?
    ensures AreTokens(tokens) && i < |tokens| && BeginsCommand(tokens[i])
    ensures FromMnemonic(tokens, i, address) == Whole(tokens, Meaning(address, t))
  {
    hide AllTokens, TokenAt, TokenEnd, LexedFrom, StandsAt, AreTokens, IsLocated, LetterMeaning, PairMeaning,
         FromMnemonic, EndsAt, CommandEnd, IsIdentifierPart, IsLineEnd, IsBreak;
    var word := t.letters;
    LineEndIsBreak(characters, position + |word|);
    WordLexes(tokens, i, characters, end, position, word);
    LineEndLexes(tokens, i + 1, characters, end, position + |word|);
    LettersBegin(tokens[i]);
    if |word| == 1 {
      LetterParses(tokens, i, word[0], address);
    } else {
      PairParses(tokens, i, word, address);
    }
  }

  lemma {:induction false} LineEndIsBreak(characters: seq<Character>, b: nat)
    requires IsLineEnd(characters, b)
    ensures IsBreak(characters, b) && (b < |characters| ==> !IsIdentifierPart(characters[b].value))
  {
  }

  lemma {:induction false} LettersBegin(token: Token)
    requires token.kind in {CommandToken, IdentifierToken}
    ensures BeginsCommand(token)
  {
  }

  lemma {:induction false} LetterParses(tokens: seq<Token>, i: nat, letter: char, address: Option<Address>)
    requires AreTokens(tokens) && i + 1 < |tokens| && IsLetter(letter)
    requires tokens[i].kind == CommandToken && tokens[i].lexeme == [letter]
    requires EndsOperand(tokens[i + 1]) && CommandEnd(tokens, i + 1, false) == Ok(|tokens| - 1)
    ensures FromMnemonic(tokens, i, address) == Whole(tokens, LetterMeaning(Upper(letter), address))
  {
    hide CommandEnd, AreTokens, ParseBody;
    var upper := Upper(letter);
    if upper in {'P', 'D', 'C', 'A', 'I', 'Z', 'Q', 'R', 'W', 'L'} {
      LetterBodyIs(tokens, i + 1, upper, address, tokens[i]);
    } else if upper in MNEMONICS {
      LetterBodyFails(tokens, i + 1, upper, address, tokens[i]);
    }
  }

  lemma {:induction false} LetterBodyIs(tokens: seq<Token>, i: nat, upper: char, address: Option<Address>,
                                        command: Token)
    requires AreTokens(tokens) && i < |tokens| && upper in {'P', 'D', 'C', 'A', 'I', 'Z', 'Q', 'R', 'W', 'L'}
    requires EndsOperand(tokens[i]) && CommandEnd(tokens, i, false) == Ok(|tokens| - 1)
    ensures ParseBody(tokens, i, address, upper, Plain, command, false) == Whole(tokens, LetterMeaning(upper, address))
  {
    hide CommandEnd, AreTokens;
  }

  /** The letters that need an operand. */
  lemma {:induction false} LetterBodyFails(tokens: seq<Token>, i: nat, upper: char, address: Option<Address>,
                                           command: Token)
    requires AreTokens(tokens) && i < |tokens| && EndsOperand(tokens[i])
    requires upper in {'B', 'M', 'T', 'G', 'S', 'J', 'F', 'O'}
    ensures ParseBody(tokens, i, address, upper, if upper == 'J' then MessageForm(None)
                      else Plain, command, false).Fail?
  {
    hide AreTokens;
    assert ParseGlobal(tokens, i, address).Fail?;
  }

  lemma {:induction false} PairParses(tokens: seq<Token>, i: nat, word: string, address: Option<Address>)
    requires AreTokens(tokens) && i + 1 < |tokens| && |word| == 2 && IsLetter(word[0]) && IsLetter(word[1])
    requires tokens[i].kind == IdentifierToken && tokens[i].lexeme == word
    requires EndsOperand(tokens[i + 1]) && CommandEnd(tokens, i + 1, false) == Ok(|tokens| - 1)
    ensures FromMnemonic(tokens, i, address) ==
            Whole(tokens, PairMeaning([Upper(word[0]), Upper(word[1])], word[1], address))
  {
    hide CommandEnd, AreTokens;
    assert ParseGather(tokens, i + 1).Fail?;
  }

  // ---------------------------------------------------------------- text and file names

  predicate IsHead(head: string) {
    head in FILE_HEADS + {"JM", "JP", "!", "\""}
  }

  predicate IsHeadToken(token: Token, head: string, position: nat) {
    && token.lexeme == head && token.location.offset == position
    && token.kind == if head in {"!", "\""} then SymbolToken else if |head| == 1 then CommandToken else IdentifierToken
  }

  lemma {:induction false} HeadLexes(tokens: seq<Token>, i: nat, characters: seq<Character>, end: SourceLocation,
                                     position: nat, head: string, next: char, rest: string)
    requires IsLocated(characters) && LexedFrom(tokens, i, characters, end, position) && IsHead(head)
    requires StandsAt(characters, position, head + ([next] + rest)) && !IsIdentifierPart(next)
    ensures AreTokens(tokens) && i + 1 < |tokens| && IsHeadToken(tokens[i], head, position) && BeginsCommand(tokens[i])
    ensures tokens[i].location == characters[position].location
    ensures LexedFrom(tokens, i + 1, characters, end, position + |head|)
    ensures StandsAt(characters, position + |head|, [next] + rest)
  {
    hide AllTokens, TokenAt, TokenEnd, LexedFrom, AreTokens, IsLocated, IsIdentifierPart;
    StandsSplit(characters, position, head, [next] + rest);
    assert IsPlain(characters[position + |head| + 0], ([next] + rest)[0]);
    if head in {"!", "\""} {
      SignLexesAlone(tokens, i, characters, end, position, head);
    } else {
      HeadIsWord(head);
      WordLexes(tokens, i, characters, end, position, head);
    }
  }

  lemma {:induction false} SignLexesAlone(tokens: seq<Token>, i: nat, characters: seq<Character>, end: SourceLocation,
                                          position: nat, head: string)
    requires IsLocated(characters) && LexedFrom(tokens, i, characters, end, position) && head in {"!", "\""}
    requires StandsAt(characters, position, head)
    ensures AreTokens(tokens) && i + 1 < |tokens| && IsHeadToken(tokens[i], head, position)
    ensures tokens[i].location == characters[position].location
    ensures LexedFrom(tokens, i + 1, characters, end, position + 1)
  {
    hide AllTokens, TokenAt, TokenEnd, LexedFrom, AreTokens, IsLocated;
    ByteLexes(tokens, i, characters, end, position, head[0]);
  }

  lemma {:induction false} HeadIsWord(head: string)
    requires IsHead(head) && head !in {"!", "\""}
    ensures 1 <= |head| <= 2 && forall k :: 0 <= k < |head| ==> IsLetter(head[k])
  {
  }

  /** Spaces are skipped. */
  lemma {:induction false} SpaceSkipped(tokens: seq<Token>, i: nat, characters: seq<Character>, end: SourceLocation,
                                        position: nat, rest: string)
    requires LexedFrom(tokens, i, characters, end, position) && StandsAt(characters, position, " " + rest)
    requires rest != "" && rest[0] !in {' ', '\t', '\r'}
    ensures LexedFrom(tokens, i, characters, end, position + 1) && StandsAt(characters, position + 1, rest)
  {
    hide LexedFrom;
    StandsSplit(characters, position, " ", rest);
    assert IsPlain(characters[position + 0], " "[0]) && IsPlain(characters[position + 1 + 0], rest[0]);
    SkippedIs(characters, position, position + 1);
    LexedSkip(tokens, i, characters, end, position);
  }

  /** A head, a space and text. */
  lemma {:induction false} ClauseParses(tokens: seq<Token>, i: nat, characters: seq<Character>, end: SourceLocation,
                                        position: nat, t: Typing, address: Option<Address>)
    requires IsTypedAt(tokens, i, characters, end, position, t) && t.Clause?
    ensures AreTokens(tokens) && i < |tokens| && BeginsCommand(tokens[i])
    ensures FromMnemonic(tokens, i, address) == Whole(tokens, Meaning(address, t))
  {
    hide AllTokens, TokenAt, TokenEnd, LexedFrom, StandsAt, AreTokens, IsLocated, FromMnemonic, EndsAt, CommandEnd,
         IsLineEnd, IsBreak, IsTokenOf, PlainText, OperandEnd, IsIdentifierPart;
    var head, text := t.head, t.text;
    var a := position + |head| + 1;
    NotInWords();
    HeadLexes(tokens, i, characters, end, position, head, ' ', text);
    SpaceSkipped(tokens, i + 1, characters, end, position + |head|, text);
    LineEndIsBreak(characters, a + |text|);
    var n := OperandRebuilt(tokens, i + 1, characters, end, a, text);
    LineEndLexes(tokens, n, characters, end, a + |text|);
    TextEnds(tokens, i + 1, n, characters, a, text);
    FirstOfText(tokens[i + 1], characters, a, text);
    hide RebuiltText, IsOperandText, IsTokenOf;
    ClauseBody(tokens, i, head, text, n, position, address);
  }

  lemma {:induction false} NotInWords()
    ensures !IsIdentifierPart(' ') && !IsIdentifierPart('(') && !IsIdentifierPart('/') && !IsIdentifierPart('"')
  {
  }

  lemma {:induction false} TextEnds(tokens: seq<Token>, i: nat, n: nat, characters: seq<Character>, a: nat,
                                    text: string)
    requires AreTokens(tokens) && i <= n < |tokens| && EndsOperand(tokens[n])
    requires forall k :: i <= k < n ==> IsTokenOf(tokens[k], characters, a, a + |text|, Normal)
    ensures OperandEnd(tokens, i) == n
  {
    hide TokenAt, TokenEnd;
    OperandEndIs(tokens, i, n);
  }

  /** The first token of text begins where the text does. */
  lemma {:induction false} FirstOfText(token: Token, characters: seq<Character>, a: nat, text: string)
    requires IsLocated(characters) && StandsAt(characters, a, text) && text != ""
    requires IsTokenOf(token, characters, a, a + |text|, Normal) && token.location == characters[a].location
    ensures token.location.offset == a && token.lexeme != "" && token.lexeme[0] == text[0] && !EndsOperand(token)
  {
    OffsetsCount(characters, a);
    assert IsPlain(characters[a + 0], text[0]);
  }

  lemma {:induction false} ClauseBody(tokens: seq<Token>, i: nat, head: string, text: string, n: nat, position: nat,
                                      address: Option<Address>)
    requires AreTokens(tokens) && i + 1 < n < |tokens| && IsHead(head) && IsHeadToken(tokens[i], head, position)
    requires tokens[i + 1].location.offset == position + |head| + 1 && tokens[i + 1].lexeme != ""
    requires text != "" && tokens[i + 1].lexeme[0] == text[0] && (head in FILE_HEADS ==> text[0] != '"')
    requires !EndsOperand(tokens[i + 1]) && OperandEnd(tokens, i + 1) == n &&
             CommandEnd(tokens, n, false) == Ok(|tokens| - 1)
    requires RebuiltText(tokens, i + 1, n, tokens[i + 1].location.column) == text
    ensures FromMnemonic(tokens, i, address) ==
            Whole(tokens, if head in FILE_HEADS then FileMeaning(head, address, text)
                          else if head == "!" then Unless(address.Some?, System(text))
                          else if head == "\"" then Unless(address.Some?, Comment(text))
                          else Unless(address.Some? || |text| > 2000, Message(text, head == "JM")))
  {
    hide AreTokens, CommandEnd, OperandEnd, RebuiltText;
    assert PlainText(tokens, i + 1) == text;
    if head in FILE_HEADS {
      assert ParseFilename(tokens, i + 1) == Ok((Some(text), n));
      FileBody(tokens, i, head, text, n, position, address);
    } else if head in {"JM", "JP"} {
      MessageBody(tokens, i, head, text, n, position, address);
    }
  }

  lemma {:induction false} FileBody(tokens: seq<Token>, i: nat, head: string, name: string, n: nat, position: nat,
                                    address: Option<Address>)
    requires AreTokens(tokens) && i + 1 < |tokens| && n < |tokens| && head in FILE_HEADS &&
             IsHeadToken(tokens[i], head, position)
    requires ParseFilename(tokens, i + 1) == Ok((Some(name), n)) && CommandEnd(tokens, n, false) == Ok(|tokens| - 1)
    ensures FromMnemonic(tokens, i, address) == Whole(tokens, FileMeaning(head, address, name))
  {
    hide AreTokens, CommandEnd, ParseFilename;
  }

  lemma {:induction false} MessageBody(tokens: seq<Token>, i: nat, head: string, text: string, n: nat, position: nat,
                                       address: Option<Address>)
    requires AreTokens(tokens) && i + 1 < |tokens| && n < |tokens| && head in {"JM", "JP"} &&
             IsHeadToken(tokens[i], head, position)
    requires ParseMessage(tokens, i + 1, tokens[i]) == Ok((text, n)) && CommandEnd(tokens, n, false) == Ok(|tokens| - 1)
    ensures FromMnemonic(tokens, i, address) ==
            Whole(tokens, Unless(address.Some? || |text| > 2000, Message(text, head == "JM")))
  {
    hide AreTokens, CommandEnd, ParseMessage;
  }

  /** A file name in quotes. */
  lemma {:induction false} QuotedParses(tokens: seq<Token>, i: nat, characters: seq<Character>, end: SourceLocation,
                                        position: nat, t: Typing, address: Option<Address>)
    requires IsTypedAt(tokens, i, characters, end, position, t) && t.Quoted?
    ensures AreTokens(tokens) && i < |tokens| && BeginsCommand(tokens[i])
    ensures FromMnemonic(tokens, i, address) == Whole(tokens, Meaning(address, t))
  {
    hide AllTokens, TokenAt, TokenEnd, LexedFrom, StandsAt, AreTokens, IsLocated, FromMnemonic, EndsAt, CommandEnd,
         IsLineEnd, IsBreak, IsTokenOf, PlainText, OperandEnd, IsIdentifierPart, RebuiltText, IsOperandText;
    var head, name := t.head, t.name;
    NotInWords();
    assert head + (" \"" + (name + "\"")) == head + ([' '] + ("\"" + (name + "\"")));
    HeadLexes(tokens, i, characters, end, position, head, ' ', "\"" + (name + "\""));
    SpaceSkipped(tokens, i + 1, characters, end, position + |head|, "\"" + (name + "\""));
    var n := QuotesLex(tokens, i + 1, characters, end, position + |head| + 1, name);
    FileBody(tokens, i, head, name, n, position, address);
  }

  /** A name in quotes that ends the line. */
  lemma {:induction false} QuotesLex(tokens: seq<Token>, i: nat, characters: seq<Character>, end: SourceLocation,
                                     position: nat,
                                     name: string)
    returns (n: nat)
    requires IsLocated(characters) && LexedFrom(tokens, i, characters, end, position) && IsOperandText(name) &&
             '"' !in name
    requires StandsAt(characters, position, "\"" + (name + "\"")) && IsLineEnd(characters, position + |name| + 2)
    ensures AreTokens(tokens) && i < |tokens| && n < |tokens|
    ensures ParseFilename(tokens, i) == Ok((Some(name), n)) && CommandEnd(tokens, n, false) == Ok(|tokens| - 1)
  {
    hide AllTokens, TokenAt, TokenEnd, LexedFrom, StandsAt, AreTokens, IsLocated, EndsAt, CommandEnd, IsLineEnd,
         IsBreak, IsTokenOf, PlainText, OperandEnd, IsIdentifierPart, RebuiltText, IsOperandText;
    var a := position + 1;
    NotInWords();
    StandsSplit(characters, position, "\"", name + "\"");
    ByteLexes(tokens, i, characters, end, position, '"');
    StandsSplit(characters, a, name, "\"");
    ByteBreaks(characters, a + |name|, '"');
    var close := OperandRebuilt(tokens, i + 1, characters, end, a, name);
    ByteLexes(tokens, close, characters, end, a + |name|, '"');
    QuoteEndIs(tokens, i + 1, close, characters, a, name);
    LineEndLexes(tokens, close + 1, characters, end, a + |name| + 1);
    n := close + 1;
  }

  lemma {:induction false} ByteBreaks(characters: seq<Character>, b: nat, c: char)
    requires StandsAt(characters, b, [c]) && c !in {' ', '\t', '\r'} && !IsIdentifierPart(c)
    ensures IsBreak(characters, b)
  {
    assert IsPlain(characters[b + 0], [c][0]);
  }

  lemma {:induction false} QuoteEndIs(tokens: seq<Token>, i: nat, n: nat, characters: seq<Character>, a: nat,
                                      name: string)
    requires AreTokens(tokens) && i <= n < |tokens| && IsSymbol(tokens[n], '"')
    requires StandsAt(characters, a, name) && '"' !in name
    requires forall k :: i <= k < n ==> IsTokenOf(tokens[k], characters, a, a + |name|, Normal)
    ensures QuoteEnd(tokens, i) == Ok(n)
    decreases n - i
  {
    hide TokenAt, TokenEnd, StandsAt;
    if i < n {
      TokenOfText(tokens[i], characters, a, name);
      QuoteEndIs(tokens, i + 1, n, characters, a, name);
    }
  }

  /** A message between two delimiters: just the text, with its spaces. */
  lemma {:induction false} BracketedParses(tokens: seq<Token>, i: nat, characters: seq<Character>, end: SourceLocation,
                                           position: nat, t: Typing, address: Option<Address>)
    requires IsTypedAt(tokens, i, characters, end, position, t) && t.Bracketed?
    ensures AreTokens(tokens) && i < |tokens| && BeginsCommand(tokens[i])
    ensures FromMnemonic(tokens, i, address) == Whole(tokens, Meaning(address, t))
  {
    hide AllTokens, TokenAt, TokenEnd, LexedFrom, StandsAt, AreTokens, IsLocated, FromMnemonic, EndsAt, CommandEnd,
         IsLineEnd, IsBreak, IsTokenOf, IsIdentifierPart, RebuiltText, IsPrintable;
    var head, delimiter, text := t.head, t.delimiter, t.text;
    HeadLexes(tokens, i, characters, end, position, head, delimiter, text + [delimiter]);
    var n := BracketsLex(tokens, i + 1, characters, end, position + 2, delimiter, text);
    BracketedMessage(tokens, i, head, delimiter, text, n, position);
    MessageBody(tokens, i, head, text, n + 1, position, address);
  }

  /** Text between two delimiters that ends the line, and the column gap in front of the closing one. */
  lemma {:induction false} BracketsLex(tokens: seq<Token>, i: nat, characters: seq<Character>, end: SourceLocation,
                                       position: nat, delimiter: char, text: string)
    returns (n: nat)
    requires IsLocated(characters) && LexedFrom(tokens, i, characters, end, position)
    requires StandsAt(characters, position, [delimiter] + (text + [delimiter])) &&
             IsLineEnd(characters, position + |text| + 2)
    requires IsPrintable(delimiter) && delimiter != ' ' && !IsIdentifierPart(delimiter)
    requires IsOneLineText(text) && delimiter !in text
    ensures AreTokens(tokens) && i < n < |tokens| - 1 && tokens[i].lexeme == [delimiter]
    ensures tokens[i].location.offset == position && !EndsOperand(tokens[i])
    ensures DelimiterEnd(tokens, i + 1, [delimiter]) == Ok(n)
    ensures var column := EndColumn(tokens[i]);
      RebuiltText(tokens, i + 1, n, column) + Spaces(Gap(tokens[n], ColumnBefore(tokens, i + 1, n, column))) == text
    ensures CommandEnd(tokens, n + 1, false) == Ok(|tokens| - 1)
  {
    hide AllTokens, TokenAt, TokenEnd, LexedFrom, StandsAt, AreTokens, IsLocated, EndsAt, CommandEnd, IsLineEnd,
         IsBreak, IsTokenOf, IsIdentifierPart, RebuiltText, IsPrintable;
    var a, b := position + 1, position + 1 + |text|;
    StandsSplit(characters, position, [delimiter], text + [delimiter]);
    ByteLexes(tokens, i, characters, end, position, delimiter);
    StandsSplit(characters, a, text, [delimiter]);
    PrintableIsNoSpace(delimiter);
    ByteBreaks(characters, b, delimiter);
    StandsIsSpan(characters, a, text);
    DelimiterStands(characters, b, delimiter);
    DelimiterStands(characters, position, delimiter);
    var q: nat;
    n, q := SpanRebuilt(tokens, i + 1, characters, end, a, b);
    ByteLexes(tokens, n, characters, end, b, delimiter);
    DelimiterEndIs(tokens, i + 1, n, characters, a, text, delimiter);
    LineEndLexes(tokens, n + 1, characters, end, b + 1);
    BehindDelimiter(characters, position, tokens[i], delimiter);
    SpanColumns(characters, a, b, Normal);
    TextSplits(characters, a, q, b, b);
    TextEmpty(characters, b);
    assert Text(characters, a, q) + Spaces(b - q) + "" == Text(characters, a, q) + Spaces(b - q);
  }

  lemma {:induction false} PrintableIsNoSpace(c: char)
    requires IsPrintable(c) && c != ' '
    ensures c !in {' ', '\t', '\r', '\n'}
  {
  }

  lemma {:induction false} DelimiterStands(characters: seq<Character>, b: nat, c: char)
    requires StandsAt(characters, b, [c])
    ensures b < |characters| && characters[b].value == c
  {
    assert IsPlain(characters[b + 0], [c][0]);
  }

  lemma {:induction false} BracketedMessage(tokens: seq<Token>, i: nat, head: string, delimiter: char, text: string,
                                            n: nat, position: nat)
    requires AreTokens(tokens) && i + 1 < n < |tokens| - 1 && head in {"JM", "JP"} &&
             IsHeadToken(tokens[i], head, position)
    requires tokens[i + 1].lexeme == [delimiter] && tokens[i + 1].location.offset == position + 2
    requires !EndsOperand(tokens[i + 1])
    requires IsPrintable(delimiter) && delimiter != ' ' && !IsIdentifierPart(delimiter)
    requires DelimiterEnd(tokens, i + 2, [delimiter]) == Ok(n)
    requires var column := EndColumn(tokens[i + 1]);
      RebuiltText(tokens, i + 2, n, column) + Spaces(Gap(tokens[n], ColumnBefore(tokens, i + 2, n, column))) == text
    ensures ParseMessage(tokens, i + 1, tokens[i]) == Ok((text, n + 1))
  {
    hide AreTokens, RebuiltText, DelimiterEnd;
  }

  lemma {:induction false} DelimiterEndIs(tokens: seq<Token>, i: nat, n: nat, characters: seq<Character>, a: nat,
                                          text: string,
                                          delimiter: char)
    requires AreTokens(tokens) && i <= n < |tokens| && tokens[n].lexeme == [delimiter] && !EndsOperand(tokens[n])
    requires StandsAt(characters, a, text) && delimiter !in text
    requires forall k :: i <= k < n ==> IsTokenOf(tokens[k], characters, a, a + |text|, Normal)
    ensures DelimiterEnd(tokens, i, [delimiter]) == Ok(n)
    decreases n - i
  {
    hide TokenAt, TokenEnd, StandsAt;
    if i < n {
      TokenOfText(tokens[i], characters, a, text);
      DelimiterEndIs(tokens, i + 1, n, characters, a, text, delimiter);
    }
  }

  // ---------------------------------------------------------------- names

  /** A name in parentheses. */
  lemma {:induction false} NameParses(tokens: seq<Token>, i: nat, characters: seq<Character>, end: SourceLocation,
                                      position: nat, name: string)
    returns (next: nat)
    requires IsLocated(characters) && LexedFrom(tokens, i, characters, end, position) && IsOperandText(name) &&
             ')' !in name
    requires StandsAt(characters, position, "(" + (name + ")"))
    ensures AreTokens(tokens) && i < |tokens| && tokens[i].kind == LeftParenthesisToken
    ensures ParseName(tokens, i) == Ok((name, next)) && next < |tokens|
    ensures LexedFrom(tokens, next, characters, end, position + |name| + 2)
  {
    hide AllTokens, TokenAt, TokenEnd, LexedFrom, StandsAt, AreTokens, IsLocated, IsBreak, IsTokenOf, IsIdentifierPart,
         RebuiltText, IsOperandText, IsPrintable;
    Brackets();
    StandsSplit(characters, position, "(", name + ")");
    ByteLexes(tokens, i, characters, end, position, '(');
    StandsSplit(characters, position + 1, name, ")");
    ByteBreaks(characters, position + 1 + |name|, ')');
    var n := OperandRebuilt(tokens, i + 1, characters, end, position + 1, name);
    ByteLexes(tokens, n, characters, end, position + 1 + |name|, ')');
    NameEndIs(tokens, i + 1, n, characters, position + 1, name);
    next := n + 1;
  }

  lemma {:induction false} Brackets()
    ensures IsPrintable('(') && IsPrintable(')') && IsPrintable('~') && IsPrintable('+') && IsPrintable('-')
    ensures !IsIdentifierPart('(') && !IsIdentifierPart(')') && !IsIdentifierPart('~') && !IsIdentifierPart('+')
    ensures !IsIdentifierPart('-')
  {
  }

  lemma {:induction false} NameEndIs(tokens: seq<Token>, i: nat, n: nat, characters: seq<Character>, a: nat,
                                     name: string)
    requires AreTokens(tokens) && i <= n < |tokens| && tokens[n].kind == RightParenthesisToken
    requires StandsAt(characters, a, name) && ')' !in name
    requires forall k :: i <= k < n ==> IsTokenOf(tokens[k], characters, a, a + |name|, Normal)
    ensures NameEnd(tokens, i) == Ok(n)
    decreases n - i
  {
    hide TokenAt, TokenEnd, StandsAt;
    if i < n {
      TokenOfText(tokens[i], characters, a, name);
      NameEndIs(tokens, i + 1, n, characters, a, name);
    }
  }

  /** `M(name)` and `B(name)`. */
  lemma {:induction false} ParenthesisedParses(tokens: seq<Token>, i: nat, characters: seq<Character>,
                                               end: SourceLocation,
                                               position: nat, t: Typing, address: Option<Address>)
    requires IsTypedAt(tokens, i, characters, end, position, t) && t.Parenthesised?
    ensures AreTokens(tokens) && i < |tokens| && BeginsCommand(tokens[i])
    ensures FromMnemonic(tokens, i, address) == Whole(tokens, Meaning(address, t))
  {
    hide AllTokens, TokenAt, TokenEnd, LexedFrom, StandsAt, AreTokens, IsLocated, FromMnemonic, EndsAt, CommandEnd,
         IsLineEnd, IsBreak, IsTokenOf, IsIdentifierPart, IsOperandText;
    var letter, name := t.letter, t.name;
    Brackets();
    StandsSplit(characters, position, [letter], "(" + (name + ")"));
    FirstStands(characters, position + 1, "(" + (name + ")"));
    WordLexes(tokens, i, characters, end, position, [letter]);
    LettersBegin(tokens[i]);
    var next := NameParses(tokens, i + 1, characters, end, position + 1, name);
    LineEndLexes(tokens, next, characters, end, position + 3 + |name|);
    NamedBody(tokens, i, letter, name, next, address);
  }

  lemma {:induction false} FirstStands(characters: seq<Character>, position: nat, text: string)
    requires StandsAt(characters, position, text) && text != ""
    ensures position < |characters| && characters[position].value == text[0]
  {
    assert IsPlain(characters[position + 0], text[0]);
  }

  lemma {:induction false} NamedBody(tokens: seq<Token>, i: nat, letter: char, name: string, next: nat,
                                     address: Option<Address>)
    requires AreTokens(tokens) && i + 1 < |tokens| && next < |tokens| && letter in {'B', 'M'}
    requires tokens[i].kind == CommandToken && tokens[i].lexeme == [letter] &&
             tokens[i + 1].kind == LeftParenthesisToken
    requires ParseName(tokens, i + 1) == Ok((name, next)) && CommandEnd(tokens, next, false) == Ok(|tokens| - 1)
    ensures FromMnemonic(tokens, i, address) ==
            Whole(tokens, if letter == 'M' then Ok(Move(address, name))
                  else Unless(address.Some?, SelectBuffer(name, false)))
  {
    hide AreTokens, CommandEnd, ParseName;
  }

  /** `B` and one byte. */
  lemma {:induction false} ShortParses(tokens: seq<Token>, i: nat, characters: seq<Character>, end: SourceLocation,
                                       position: nat, t: Typing, address: Option<Address>)
    requires IsTypedAt(tokens, i, characters, end, position, t) && t.Short?
    ensures AreTokens(tokens) && i < |tokens| && BeginsCommand(tokens[i])
    ensures FromMnemonic(tokens, i, address) == Whole(tokens, Meaning(address, t))
  {
    hide AllTokens, TokenAt, LexedFrom, StandsAt, AreTokens, IsLocated, FromMnemonic, EndsAt, CommandEnd, IsLineEnd,
         IsBreak, TokenEnd;
    var c := t.letter;
    assert "B" + [c] == ['B', c];
    StandsSplit(characters, position, "B", [c]);
    DelimiterStands(characters, position + 1, c);
    LineEndIsBreak(characters, position + 2);
    if c == '_' {
      UnderscoreLexes(tokens, i, characters, end, position);
      LineEndLexes(tokens, i + 1, characters, end, position + 2);
      UnderscoreBody(tokens, i, address);
    } else {
      WordLexes(tokens, i, characters, end, position, "B");
      LettersBegin(tokens[i]);
      ShortLexes(tokens, i + 1, characters, end, position + 1, c);
      LineEndLexes(tokens, i + 2, characters, end, position + 2);
      ShortBody(tokens, i, c, position, address);
    }
  }

  lemma {:induction false} UnderscoreLexes(tokens: seq<Token>, i: nat, characters: seq<Character>, end: SourceLocation,
                                           position: nat)
    requires IsLocated(characters) && LexedFrom(tokens, i, characters, end, position) &&
             StandsAt(characters, position, ['B', '_'])
    requires position + 2 < |characters| ==> !IsIdentifierPart(characters[position + 2].value)
    ensures AreTokens(tokens) && i + 1 < |tokens| && tokens[i].kind == IdentifierToken && tokens[i].lexeme == ['B', '_']
    ensures LexedFrom(tokens, i + 1, characters, end, position + 2) && BeginsCommand(tokens[i])
  {
    hide AllTokens, AreTokens, IsLocated;
    assert IsPlain(characters[position + 0], ['B', '_'][0]) && IsPlain(characters[position + 1], ['B', '_'][1]);
    assert RunEnd(characters, position + 1, false) == RunEnd(characters, position + 2, false) == position + 2;
    assert Text(characters, position, position + 2) == ['B', '_'];
    LexedNext(tokens, i, characters, end, position);
    LexedFacts(tokens, i + 1, characters, end, position + 2);
  }

  lemma {:induction false} UnderscoreBody(tokens: seq<Token>, i: nat, address: Option<Address>)
    requires AreTokens(tokens) && i + 1 < |tokens| && tokens[i].kind == IdentifierToken &&
             tokens[i].lexeme == ['B', '_']
    requires CommandEnd(tokens, i + 1, false) == Ok(|tokens| - 1)
    ensures FromMnemonic(tokens, i, address) == Whole(tokens, Unless(address.Some?, SelectBuffer("_", true)))
  {
    hide AreTokens, CommandEnd;
  }

  /** A digit or a sign behind `B`. */
  lemma {:induction false} ShortLexes(tokens: seq<Token>, i: nat, characters: seq<Character>, end: SourceLocation,
                                      position: nat, c: char)
    requires IsLocated(characters) && LexedFrom(tokens, i, characters, end, position) &&
             StandsAt(characters, position, [c])
    requires IsPrintable(c) && c !in {' ', '(', ')', '_'} && !IsLetter(c)
    requires position + 1 < |characters| ==> !IsIdentifierPart(characters[position + 1].value)
    ensures AreTokens(tokens) && i + 1 < |tokens| && tokens[i].lexeme == [c] && tokens[i].location.offset == position
    ensures !EndsOperand(tokens[i]) && tokens[i].kind !in {LeftParenthesisToken, RightParenthesisToken}
    ensures LexedFrom(tokens, i + 1, characters, end, position + 1)
  {
    hide AllTokens, AreTokens, LexedFrom;
    if IsDigit(c) {
      assert IsNumber([c]);
      DigitsToken(characters, position, [c]);
      LexedNext(tokens, i, characters, end, position);
      LexedFacts(tokens, i + 1, characters, end, position + 1);
      OffsetsCount(characters, position);
    } else {
      ByteLexes(tokens, i, characters, end, position, c);
    }
  }

  lemma {:induction false} ShortBody(tokens: seq<Token>, i: nat, c: char, position: nat, address: Option<Address>)
    requires AreTokens(tokens) && i + 2 < |tokens| && tokens[i].kind == CommandToken && tokens[i].lexeme == "B"
    requires tokens[i].location.offset == position && tokens[i + 1].location.offset == position + 1 &&
             tokens[i + 1].lexeme == [c]
    requires !EndsOperand(tokens[i + 1]) && tokens[i + 1].kind !in {LeftParenthesisToken, RightParenthesisToken}
    requires CommandEnd(tokens, i + 2, false) == Ok(|tokens| - 1)
    ensures FromMnemonic(tokens, i, address) == Whole(tokens, Unless(address.Some?, SelectBuffer([c], true)))
  {
    hide AreTokens, CommandEnd;
  }

  // ---------------------------------------------------------------- addresses and options

  /** `T` and a destination. */
  lemma {:induction false} CopyParses(tokens: seq<Token>, i: nat, characters: seq<Character>, end: SourceLocation,
                                      position: nat, t: Typing, address: Option<Address>)
    requires IsTypedAt(tokens, i, characters, end, position, t) && t.Copy?
    ensures AreTokens(tokens) && i < |tokens| && BeginsCommand(tokens[i])
    ensures FromMnemonic(tokens, i, address) == Whole(tokens, Meaning(address, t))
  {
    hide AllTokens, TokenAt, TokenEnd, LexedFrom, StandsAt, AreTokens, IsLocated, FromMnemonic, EndsAt, CommandEnd,
         IsLineEnd, IsBreak, AddressText.Print, ParsePrefix, Fits, DigitAt, TokenCount;
    var destination := t.destination;
    var text := AddressText.Print(destination);
    StandsSplit(characters, position, "T", text);
    AddressStart(destination);
    FirstStands(characters, position + 1, text);
    WordLexes(tokens, i, characters, end, position, "T");
    LettersBegin(tokens[i]);
    LineEndIsNoDigit(characters, position + 1 + |text|);
    AddressLexes(tokens, i + 1, characters, end, position + 1, destination);
    LineEndLexes(tokens, i + 1 + TokenCount(destination), characters, end, position + 1 + |text|);
    PrefixParsesBack(tokens, i + 1, characters, end, position + 1, destination);
    CopyBody(tokens, i, destination, address);
  }

  lemma {:induction false} LineEndIsNoDigit(characters: seq<Character>, b: nat)
    requires IsLineEnd(characters, b)
    ensures !DigitAt(characters, b)
  {
  }

  /** A printed address begins with a digit or a sign. */
  lemma {:induction false} AddressStart(address: Address)
    requires IsFlat(address)
    ensures var text := AddressText.Print(address);
      text != "" && (IsDigit(text[0]) || (text[0] in {'.', '$', '+', '-'} && !IsIdentifierPart(text[0])))
  {
  }

  lemma {:induction false} CopyBody(tokens: seq<Token>, i: nat, destination: Address, address: Option<Address>)
    requires AreTokens(tokens) && i + 1 < |tokens| && tokens[i].kind == CommandToken && tokens[i].lexeme == "T"
    requires BeginsAddress(tokens[i + 1])
    requires var next := i + 1 + TokenCount(destination);
      && next < |tokens| && CommandEnd(tokens, next, false) == Ok(|tokens| - 1)
      && ParsePrefix(tokens, i + 1) == if Fits(destination) then Ok((destination, next)) else Fail
    ensures FromMnemonic(tokens, i, address) ==
            Whole(tokens, Unless(destination.Range? || !Fits(destination), Transfer(address, Some(destination))))
  {
    hide AreTokens, CommandEnd, ParsePrefix, TokenCount, Fits;
  }

  /** `O+M`, `O-M`, `O+I(` and `O-I(`. */
  lemma {:induction false} SwitchParses(tokens: seq<Token>, i: nat, characters: seq<Character>, end: SourceLocation,
                                        position: nat, t: Typing, address: Option<Address>)
    requires IsTypedAt(tokens, i, characters, end, position, t) && t.Switch?
    ensures AreTokens(tokens) && i < |tokens| && BeginsCommand(tokens[i])
    ensures FromMnemonic(tokens, i, address) == Whole(tokens, Meaning(address, t))
  {
    hide AllTokens, TokenAt, TokenEnd, LexedFrom, StandsAt, AreTokens, IsLocated, FromMnemonic, EndsAt, CommandEnd,
         IsLineEnd, IsBreak, IsIdentifierPart, IsPrintable;
    var sign, tail := if t.on then "+" else "-", if t.letter == 'I' then "I(" else [t.letter];
    Brackets();
    StandsSplit(characters, position, "O", sign + tail);
    FirstStands(characters, position + 1, sign + tail);
    WordLexes(tokens, i, characters, end, position, "O");
    LettersBegin(tokens[i]);
    StandsSplit(characters, position + 1, sign, tail);
    ByteLexes(tokens, i + 1, characters, end, position + 1, sign[0]);
    OptionLexes(tokens, i + 2, characters, end, position + 2, t.letter);
    SwitchBody(tokens, i, t.on, t.letter, address);
  }

  lemma {:induction false} OptionLexes(tokens: seq<Token>, i: nat, characters: seq<Character>, end: SourceLocation,
                                       position: nat, letter: char)
    requires IsLocated(characters) && LexedFrom(tokens, i, characters, end, position) && letter in {'M', 'I'}
    requires var tail := if letter == 'I' then "I(" else [letter];
      StandsAt(characters, position, tail) && IsLineEnd(characters, position + |tail|)
    ensures AreTokens(tokens) && i + 1 < |tokens| && tokens[i].kind == CommandToken && tokens[i].lexeme == [letter]
    ensures if letter == 'I' then
              tokens[i + 1].kind == LeftParenthesisToken && i + 2 < |tokens| &&
                  CommandEnd(tokens, i + 2, false) == Ok(|tokens| - 1)
            else CommandEnd(tokens, i + 1, false) == Ok(|tokens| - 1)
  {
    hide AllTokens, TokenAt, TokenEnd, LexedFrom, StandsAt, AreTokens, IsLocated, EndsAt, CommandEnd, IsLineEnd,
         IsBreak, IsIdentifierPart, IsPrintable;
    Brackets();
    if letter == 'I' {
      assert "I(" == "I" + "(";
      StandsSplit(characters, position, "I", "(");
      FirstStands(characters, position + 1, "(");
      WordLexes(tokens, i, characters, end, position, "I");
      ByteLexes(tokens, i + 1, characters, end, position + 1, '(');
      LineEndLexes(tokens, i + 2, characters, end, position + 2);
    } else {
      LineEndIsBreak(characters, position + 1);
      WordLexes(tokens, i, characters, end, position, "M");
      LineEndLexes(tokens, i + 1, characters, end, position + 1);
    }
  }

  lemma {:induction false} SwitchBody(tokens: seq<Token>, i: nat, on: bool, letter: char, address: Option<Address>)
    requires AreTokens(tokens) && i + 3 < |tokens| && tokens[i].kind == CommandToken && tokens[i].lexeme == "O"
    requires IsSymbol(tokens[i + 1], if on then '+' else '-') && letter in {'M', 'I'}
    requires tokens[i + 2].kind == CommandToken && tokens[i + 2].lexeme == [letter]
    requires if letter == 'I' then
               tokens[i + 3].kind == LeftParenthesisToken && i + 4 < |tokens| &&
                   CommandEnd(tokens, i + 4, false) == Ok(|tokens| - 1)
             else CommandEnd(tokens, i + 3, false) == Ok(|tokens| - 1)
    ensures FromMnemonic(tokens, i, address) ==
            Whole(tokens, Unless(address.Some?, if letter == 'M' then Monitor(on) else InputParenthesis(on)))
  {
    hide AreTokens, CommandEnd;
  }

  // ---------------------------------------------------------------- patterns and nested commands

  /** A command inside another one. */
  lemma {:induction false} NestedParses(tokens: seq<Token>, i: nat, t: Typing)
    requires AreTokens(tokens) && i < |tokens| && IsTypable(t) && BeginsCommand(tokens[i])
    requires FromMnemonic(tokens, i, None) == Whole(tokens, Meaning(None, t))
    ensures ParseNested(tokens, i) == Whole(tokens, Meaning(None, t))
  {
    hide AreTokens, ParseBody, Meaning;
    if Meaning(None, t).Ok? {
      MeaningHasNoAddress(t);
    }
  }

  /** A typed body stands between its delimiters. */
  lemma {:induction false} TypedBodyStands(characters: seq<Character>, position: nat, delimiter: char, body: string)
    requires StandsAt(characters, position, [delimiter] + (body + [delimiter]))
    requires IsPlainSymbol(delimiter) && IsBody(delimiter, body)
    ensures BodyStands(characters, position, delimiter, body, Normal)
  {
    hide TrailingBackslashes, IsPlainSymbol;
    StandsSplit(characters, position, [delimiter], body + [delimiter]);
    StandsSplit(characters, position + 1, body, [delimiter]);
    StandsIsSpan(characters, position + 1, body);
    OpenStands(characters, position, delimiter);
    OpenStands(characters, position + 1 + |body|, delimiter);
  }

  lemma {:induction false} OpenStands(characters: seq<Character>, position: nat, c: char)
    requires StandsAt(characters, position, [c])
    ensures position < |characters| && IsOpenDelimiter(characters[position], c)
  {
    assert IsPlain(characters[position + 0], [c][0]);
  }

  /** `S`, a pattern and a replacement. */
  lemma {:induction false} ExchangeParses(tokens: seq<Token>, i: nat, characters: seq<Character>, end: SourceLocation,
                                          position: nat, t: Typing, address: Option<Address>)
    requires IsTypedAt(tokens, i, characters, end, position, t) && t.Exchange?
    ensures AreTokens(tokens) && i < |tokens| && BeginsCommand(tokens[i])
    ensures FromMnemonic(tokens, i, address) == Whole(tokens, Meaning(address, t))
  {
    hide AllTokens, TokenAt, TokenEnd, LexedFrom, StandsAt, AreTokens, IsLocated, FromMnemonic, IsLineEnd,
         IsIdentifierPart, BodyStands, IsPlainSymbol, ParsePattern, IsBody;
    var d, body, replacement := [t.delimiter], t.body, t.replacement;
    var tail := if t.shown then "P" else "";
    ExchangeStands(characters, position, d, body, replacement, tail);
    TypedBodyStands(characters, position + 1, t.delimiter, body);
    TypedBodyStands(characters, position + 2 + |body|, t.delimiter, replacement);
    MarkedExchangeParses(tokens, i, characters, end, position, t.delimiter, body, Normal, replacement, Normal, t.shown,
                         address);
  }

  /** The same with operands of bytes that are ordinary, or all forced to be special. */
  lemma {:induction false} MarkedExchangeParses(tokens: seq<Token>, i: nat, characters: seq<Character>,
                                                end: SourceLocation, position: nat, delimiter: char, body: string,
                                                mark: Interpretation, replacement: string, second: Interpretation,
                                                shown: bool, address: Option<Address>)
    requires IsLocated(characters) && LexedFrom(tokens, i, characters, end, position) &&
             StandsAt(characters, position, "S")
    requires BodyStands(characters, position + 1, delimiter, body, mark)
    requires BodyStands(characters, position + 2 + |body|, delimiter, replacement, second)
    requires var e := position + |body| + |replacement| + 4;
      if shown then StandsAt(characters, e, "P") && IsLineEnd(characters, e + 1) else IsLineEnd(characters, e)
    ensures AreTokens(tokens) && i < |tokens| && BeginsCommand(tokens[i])
    ensures FromMnemonic(tokens, i, address) ==
            Whole(tokens, ExchangeMeaning(address, BodyPattern(delimiter, body), replacement, shown))
  {
    hide AllTokens, TokenAt, TokenEnd, LexedFrom, StandsAt, AreTokens, IsLocated, FromMnemonic, CommandEnd, IsLineEnd,
         IsBreak, IsIdentifierPart, BodyStands, IsPlainSymbol, ParseDelimited, CollectReplacement, ParsePattern, IsBody;
    var p, r := position + 1, position + 2 + |body|;
    BodyFacts(characters, p, delimiter, body, mark, p + 1);
    SymbolIsNoWord(delimiter);
    WordLexes(tokens, i, characters, end, position, "S");
    LettersBegin(tokens[i]);
    PlainOperandParses(tokens, i + 1, characters, end, p, delimiter, body, mark);
    DelimiterIsSymbol(tokens, i + 1, characters, end, p, delimiter);
    var operand := ParseDelimited(tokens, i + 1);
    if operand.Ok? {
      var middle := operand.value.1;
      ReplacementBegins(characters, r, delimiter, replacement, second, tokens[middle - 1]);
      var next := ReplacementIsCollected(tokens, middle, characters, end, r, delimiter, replacement, second, r + 1,
                                         EndColumn(tokens[middle - 1]));
      TailLexes(tokens, next, characters, end, r + |replacement| + 2, shown);
      ExchangeBody(tokens, i, delimiter, replacement, next, shown, address);
    } else {
      ExchangeFails(tokens, i, address);
    }
  }

  lemma {:induction false} ExchangeStands(characters: seq<Character>, position: nat, d: string, body: string,
                                          replacement: string, tail: string)
    requires StandsAt(characters, position, "S" + (d + (body + (d + (replacement + (d + tail)))))) && |d| == 1
    ensures StandsAt(characters, position, "S") && StandsAt(characters, position + 1, d + (body + d))
    ensures StandsAt(characters, position + 2 + |body|, d + (replacement + d))
    ensures StandsAt(characters, position + 2 + |body| + |replacement| + 2, tail)
  {
    hide StandsAt;
    var rest := d + (replacement + (d + tail));
    assert "S" + (d + (body + rest)) == ("S" + (d + body)) + rest;
    StandsSplit(characters, position, "S", d + (body + rest));
    StandsSplit(characters, position, "S" + (d + body), rest);
    assert d + (body + rest) == (d + (body + d)) + (replacement + (d + tail));
    StandsSplit(characters, position + 1, d + (body + d), replacement + (d + tail));
    assert rest == (d + (replacement + d)) + tail;
    StandsSplit(characters, position + 2 + |body|, d + (replacement + d), tail);
  }

  lemma {:induction false} SymbolIsNoWord(c: char)
    requires IsPlainSymbol(c)
    ensures !IsIdentifierPart(c) && c != '\n' && c != '\\'
  {
  }

  lemma {:induction false} DelimiterIsSymbol(tokens: seq<Token>, i: nat, characters: seq<Character>,
                                             end: SourceLocation,
                                             p: nat, delimiter: char)
    requires LexedFrom(tokens, i, characters, end, p) && IsPlainSymbol(delimiter)
    requires p < |characters| && IsOpenDelimiter(characters[p], delimiter)
    ensures AreTokens(tokens) && i < |tokens| && IsSymbol(tokens[i], delimiter)
  {
    hide AllTokens, TokenAt, TokenEnd, LexedFrom, AreTokens;
    LexedFacts(tokens, i, characters, end, p);
    OpenDelimiterToken(characters, p, delimiter);
    LexedNext(tokens, i, characters, end, p);
  }

  lemma {:induction false} ReplacementBegins(characters: seq<Character>, r: nat, delimiter: char, replacement: string,
                                             mark: Interpretation, token: Token)
    requires IsLocated(characters) && BodyStands(characters, r, delimiter, replacement, mark)
    requires token == TokenAt(characters, r)
    ensures r + 1 < |characters| && characters[r + 1].location.column == EndColumn(token)
    ensures Text(characters, r + 1, r + 1) == ""
  {
    hide TokenEnd, IsLocated;
    BodyFacts(characters, r, delimiter, replacement, mark, r + 1);
    OpenDelimiterToken(characters, r, delimiter);
    BehindDelimiter(characters, r, token, delimiter);
  }

  lemma {:induction false} TailLexes(tokens: seq<Token>, n: nat, characters: seq<Character>, end: SourceLocation,
                                     e: nat,
                                     shown: bool)
    requires IsLocated(characters) && LexedFrom(tokens, n, characters, end, e)
    requires if shown then StandsAt(characters, e, "P") && IsLineEnd(characters, e + 1) else IsLineEnd(characters, e)
    ensures AreTokens(tokens) && n < |tokens|
    ensures if shown then
              && n + 1 < |tokens| && tokens[n].kind == CommandToken && tokens[n].lexeme == "P"
              && CommandEnd(tokens, n + 1, false) == Ok(|tokens| - 1)
            else EndsOperand(tokens[n]) && CommandEnd(tokens, n, false) == Ok(|tokens| - 1)
  {
    hide AllTokens, TokenAt, TokenEnd, LexedFrom, AreTokens, IsLocated, CommandEnd, IsLineEnd, IsBreak;
    LexedFacts(tokens, n, characters, end, e);
    if shown {
      LineEndIsBreak(characters, e + 1);
      WordLexes(tokens, n, characters, end, e, "P");
      LineEndLexes(tokens, n + 1, characters, end, e + 1);
    } else {
      LineEndLexes(tokens, n, characters, end, e);
    }
  }

  lemma {:induction false} ExchangeBody(tokens: seq<Token>, i: nat, delimiter: char, replacement: string, next: nat,
                                        shown: bool,
                                        address: Option<Address>)
    requires AreTokens(tokens) && i + 1 < |tokens| && next < |tokens|
    requires tokens[i].kind == CommandToken && tokens[i].lexeme == "S" && IsSymbol(tokens[i + 1], delimiter)
    requires ParseDelimited(tokens, i + 1).Ok?
    requires var middle := ParseDelimited(tokens, i + 1).value.1;
      CollectReplacement(tokens, middle, "", EndColumn(tokens[middle - 1]), delimiter) == Ok((replacement, next))
    requires if shown then
              && next + 1 < |tokens| && tokens[next].kind == CommandToken && tokens[next].lexeme == "P"
              && CommandEnd(tokens, next + 1, false) == Ok(|tokens| - 1)
            else EndsOperand(tokens[next]) && CommandEnd(tokens, next, false) == Ok(|tokens| - 1)
    ensures FromMnemonic(tokens, i, address) ==
            Whole(tokens, Ok(Command.Substitute(address, ParseDelimited(tokens, i + 1).value.0, replacement, shown)))
  {
    hide AreTokens, CommandEnd, ParseDelimited, CollectReplacement;
    assert ParseBody(tokens, i + 1, address, 'S', Plain, tokens[i], false) ==
           ParseSubstitute(tokens, i + 1, address, false);
  }

  lemma {:induction false} ExchangeFails(tokens: seq<Token>, i: nat, address: Option<Address>)
    requires AreTokens(tokens) && i + 1 < |tokens| && tokens[i].kind == CommandToken && tokens[i].lexeme == "S"
    requires ParseDelimited(tokens, i + 1).Fail?
    ensures FromMnemonic(tokens, i, address).Fail?
  {
    hide AreTokens, ParseDelimited;
    assert ParseBody(tokens, i + 1, address, 'S', Plain, tokens[i], false) ==
           ParseSubstitute(tokens, i + 1, address, false);
  }

  /** `G` or `G~`, a pattern and a command. */
  lemma {:induction false} SearchParses(tokens: seq<Token>, i: nat, characters: seq<Character>, end: SourceLocation,
                                        position: nat, t: Typing, address: Option<Address>)
    requires IsTypedAt(tokens, i, characters, end, position, t) && t.Search?
    ensures AreTokens(tokens) && i < |tokens| && BeginsCommand(tokens[i])
    ensures FromMnemonic(tokens, i, address) == Whole(tokens, Meaning(address, t))
    decreases t, 1
  {
    hide AllTokens, TokenAt, TokenEnd, LexedFrom, StandsAt, AreTokens, IsLocated, FromMnemonic, IsLineEnd, BodyStands,
         IsPlainSymbol, ParsePattern, IsBody;
    var d, body, head := [t.delimiter], t.body, if t.inverted then "G~" else "G";
    var inner := TextOf(t.nested);
    SearchStands(characters, position, head, d, body, inner);
    SlashesArePlain();
    TypedBodyStands(characters, position + |head|, t.delimiter, body);
    MarkedSearchParses(tokens, i, characters, end, position, t.inverted, t.delimiter, body, Normal, t.nested, address);
  }

  /** The same with a pattern of bytes that are ordinary, or all forced to be special. */
  lemma {:induction false} MarkedSearchParses(tokens: seq<Token>, i: nat, characters: seq<Character>,
                                              end: SourceLocation,
                                              position: nat, inverted: bool, delimiter: char, body: string,
                                              mark: Interpretation, nested: Typing, address: Option<Address>)
    requires IsLocated(characters) && LexedFrom(tokens, i, characters, end, position) && delimiter in {'/', '?'}
    requires var head := if inverted then "G~" else "G";
      StandsAt(characters, position, head) && BodyStands(characters, position + |head|, delimiter, body, mark)
    requires var q := position + |body| + if inverted then 4 else 3;
      IsTypable(nested) && StandsAt(characters, q, TextOf(nested)) && IsLineEnd(characters, q + |TextOf(nested)|)
    ensures AreTokens(tokens) && i < |tokens| && BeginsCommand(tokens[i])
    ensures FromMnemonic(tokens, i, address) ==
            Whole(tokens, SearchMeaning(address, inverted, BodyPattern(delimiter, body), Meaning(None, nested)))
    decreases nested, 4
  {
    hide AllTokens, TokenAt, TokenEnd, LexedFrom, StandsAt, AreTokens, IsLocated, FromMnemonic, IsLineEnd, BodyStands,
         IsPlainSymbol, ParseDelimited, ParsePattern, IsBreak, SearchMeaning, Meaning, TextOf, IsTypable;
    var p := position + if inverted then 2 else 1;
    BodyFacts(characters, p, delimiter, body, mark, p + 1);
    SearchLexes(tokens, i, characters, end, position, inverted, delimiter);
    PlainOperandParses(tokens, if inverted then i + 2 else i + 1, characters, end, p, delimiter, body, mark);
    OperandSearchParses(tokens, i, characters, end, inverted, delimiter, p + |body| + 2, BodyPattern(delimiter, body),
                        nested,
                        address);
  }

  /** Once the operand is parsed, what follows it is the nested command. */
  lemma {:induction false} OperandSearchParses(tokens: seq<Token>, i: nat, characters: seq<Character>,
                                               end: SourceLocation,
                                               inverted: bool, delimiter: char, q: nat, pattern: Result<Pattern>,
                                               nested: Typing, address: Option<Address>)
    requires IsLocated(characters) && delimiter in {'/', '?'} && AreTokens(tokens) && i + 2 < |tokens|
    requires tokens[i].kind == CommandToken && tokens[i].lexeme == "G"
    requires var at := if inverted then i + 2 else i + 1;
      && IsSymbol(tokens[at], delimiter) && (inverted ==> IsSymbol(tokens[i + 1], '~'))
      && var operand := ParseDelimited(tokens, at);
        && operand.Ok? == pattern.Ok?
        && (operand.Ok? ==> operand.value.0 == pattern.value && LexedFrom(tokens, operand.value.1, characters, end, q))
    requires IsTypable(nested) && StandsAt(characters, q, TextOf(nested)) && IsLineEnd(characters, q + |TextOf(nested)|)
    ensures FromMnemonic(tokens, i, address) ==
            Whole(tokens, SearchMeaning(address, inverted, pattern, Meaning(None, nested)))
    decreases nested, 3
  {
    hide AllTokens, TokenAt, TokenEnd, LexedFrom, StandsAt, AreTokens, IsLocated, FromMnemonic, IsLineEnd,
         ParseDelimited, ParseNested, ParsePattern, Meaning, TextOf, IsTypable, BeginsCommand;
    var operand := ParseDelimited(tokens, if inverted then i + 2 else i + 1);
    if operand.Ok? {
      TypingParses(tokens, operand.value.1, characters, end, q, nested, None);
      NestedParses(tokens, operand.value.1, nested);
    }
    SearchBody(tokens, i, inverted, delimiter, address);
  }

  lemma {:induction false} SlashesArePlain()
    ensures IsPlainSymbol('/') && IsPlainSymbol('?')
  {
  }

  lemma {:induction false} SearchStands(characters: seq<Character>, position: nat, head: string, d: string,
                                        body: string,
                                        inner: string)
    requires StandsAt(characters, position, head + (d + (body + (d + inner)))) && |d| == 1
    ensures StandsAt(characters, position, head) && StandsAt(characters, position + |head|, d + (body + d))
    ensures StandsAt(characters, position + |head| + |body| + 2, inner)
  {
    hide StandsAt;
    StandsSplit(characters, position, head, d + (body + (d + inner)));
    assert d + (body + (d + inner)) == (d + (body + d)) + inner;
    StandsSplit(characters, position + |head|, d + (body + d), inner);
  }

  lemma {:induction false} SearchLexes(tokens: seq<Token>, i: nat, characters: seq<Character>, end: SourceLocation,
                                       position: nat, inverted: bool, delimiter: char)
    requires IsLocated(characters) && LexedFrom(tokens, i, characters, end, position) && IsPlainSymbol(delimiter)
    requires var head := if inverted then "G~" else "G";
      && StandsAt(characters, position, head) && position + |head| < |characters|
      && IsOpenDelimiter(characters[position + |head|], delimiter)
    ensures AreTokens(tokens) && i + 2 < |tokens| && tokens[i].kind == CommandToken && tokens[i].lexeme == "G"
    ensures BeginsCommand(tokens[i])
    ensures var at := if inverted then i + 2 else i + 1;
      && at < |tokens| && IsSymbol(tokens[at], delimiter) && (inverted ==> IsSymbol(tokens[i + 1], '~'))
      && LexedFrom(tokens, at, characters, end, position + at - i)
  {
    hide AllTokens, TokenAt, TokenEnd, LexedFrom, AreTokens, IsLocated, IsIdentifierPart, IsPlainSymbol, IsPrintable,
         StandsAt;
    SymbolIsNoWord(delimiter);
    Brackets();
    if inverted {
      assert "G~" == "G" + "~";
      StandsSplit(characters, position, "G", "~");
      FirstStands(characters, position + 1, "~");
      WordLexes(tokens, i, characters, end, position, "G");
      ByteLexes(tokens, i + 1, characters, end, position + 1, '~');
      DelimiterIsSymbol(tokens, i + 2, characters, end, position + 2, delimiter);
    } else {
      WordLexes(tokens, i, characters, end, position, "G");
      DelimiterIsSymbol(tokens, i + 1, characters, end, position + 1, delimiter);
      SymbolGoesOn(tokens, i + 1, delimiter);
    }
    LettersBegin(tokens[i]);
  }

  lemma {:induction false} SymbolGoesOn(tokens: seq<Token>, i: nat, c: char)
    requires AreTokens(tokens) && i < |tokens| && IsSymbol(tokens[i], c)
    ensures i + 1 < |tokens|
  {
  }

  lemma {:induction false} SearchBody(tokens: seq<Token>, i: nat, inverted: bool, delimiter: char,
                                      address: Option<Address>)
    requires AreTokens(tokens) && i + 2 < |tokens| && tokens[i].kind == CommandToken && tokens[i].lexeme == "G"
    requires delimiter in {'/', '?'}
    requires var at := if inverted then i + 2 else i + 1;
      IsSymbol(tokens[at], delimiter) && (inverted ==> IsSymbol(tokens[i + 1], '~'))
    ensures FromMnemonic(tokens, i, address) ==
            var operand := ParseDelimited(tokens, if inverted then i + 2 else i + 1);
            if operand.Fail? then Fail
            else
              var nested := ParseNested(tokens, operand.value.1);
              if nested.Fail? then Fail
              else Ok((Global(address, operand.value.0, inverted, nested.value.0), nested.value.1))
  {
    hide AreTokens, ParseDelimited, ParseNested;
    assert ParseBody(tokens, i + 1, address, 'G', Plain, tokens[i], false) == ParseGlobal(tokens, i + 1, address);
  }

  /** `ZG`, a name and a command. */
  lemma {:induction false} CollectParses(tokens: seq<Token>, i: nat, characters: seq<Character>, end: SourceLocation,
                                         position: nat, t: Typing, address: Option<Address>)
    requires IsTypedAt(tokens, i, characters, end, position, t) && t.Collect?
    ensures AreTokens(tokens) && i < |tokens| && BeginsCommand(tokens[i])
    ensures FromMnemonic(tokens, i, address) == Whole(tokens, Meaning(address, t))
    decreases t, 1
  {
    hide AllTokens, TokenAt, TokenEnd, LexedFrom, StandsAt, AreTokens, IsLocated, FromMnemonic, CommandEnd, IsLineEnd,
         IsBreak, IsIdentifierPart, ParseName, IsOperandText, ParseNested;
    var name, inner := t.name, TextOf(t.nested);
    Brackets();
    assert "ZG(" + (name + (")" + inner)) == "ZG" + (("(" + (name + ")")) + inner);
    StandsSplit(characters, position, "ZG", ("(" + (name + ")")) + inner);
    StandsSplit(characters, position + 2, "(" + (name + ")"), inner);
    FirstStands(characters, position + 2, "(" + (name + ")"));
    WordLexes(tokens, i, characters, end, position, "ZG");
    LettersBegin(tokens[i]);
    var next := NameParses(tokens, i + 1, characters, end, position + 2, name);
    TypingParses(tokens, next, characters, end, position + 4 + |name|, t.nested, None);
    NestedParses(tokens, next, t.nested);
    CollectBody(tokens, i, name, next, address);
  }

  lemma {:induction false} CollectBody(tokens: seq<Token>, i: nat, name: string, next: nat, address: Option<Address>)
    requires AreTokens(tokens) && i + 1 < |tokens| && next < |tokens|
    requires tokens[i].kind == IdentifierToken && tokens[i].lexeme == "ZG" &&
             ParseName(tokens, i + 1) == Ok((name, next))
    ensures FromMnemonic(tokens, i, address) ==
            var nested := ParseNested(tokens, next);
            if address.Some? || nested.Fail? then Fail else Ok((ZapGather(name, nested.value.0), nested.value.1))
  {
    hide AreTokens, ParseName, ParseNested;
    assert ParseGather(tokens, i + 1) ==
           var nested := ParseNested(tokens, next);
           if nested.Fail? then Fail else Ok((ZapGather(name, nested.value.0), nested.value.1));
  }

  /** Every typing parses to its meaning, or not at all if it has none. */
  lemma {:induction false} TypingParses(tokens: seq<Token>, i: nat, characters: seq<Character>, end: SourceLocation,
                                        position: nat, t: Typing, address: Option<Address>)
    requires IsTypedAt(tokens, i, characters, end, position, t)
    ensures AreTokens(tokens) && i < |tokens| && BeginsCommand(tokens[i])
    ensures FromMnemonic(tokens, i, address) == Whole(tokens, Meaning(address, t))
    decreases t, 2
  {
    hide *;
    match t
    case Word(_) => WordParses(tokens, i, characters, end, position, t, address);
    case Clause(_, _) => ClauseParses(tokens, i, characters, end, position, t, address);
    case Quoted(_, _) => QuotedParses(tokens, i, characters, end, position, t, address);
    case Bracketed(_, _, _) => BracketedParses(tokens, i, characters, end, position, t, address);
    case Parenthesised(_, _) => ParenthesisedParses(tokens, i, characters, end, position, t, address);
    case Short(_) => ShortParses(tokens, i, characters, end, position, t, address);
    case Copy(_) => CopyParses(tokens, i, characters, end, position, t, address);
    case Search(_, _, _, _) => SearchParses(tokens, i, characters, end, position, t, address);
    case Collect(_, _) => CollectParses(tokens, i, characters, end, position, t, address);
    case Exchange(_, _, _, _) => ExchangeParses(tokens, i, characters, end, position, t, address);
    case Switch(_, _) => SwitchParses(tokens, i, characters, end, position, t, address);
  }

  // ---------------------------------------------------------------- whole lines

  /** What may stand in front of a command. */
  datatype Place = Nowhere | At(address: Address) | Everywhere

  predicate IsPlace(place: Place) {
    place.At? ==> IsFlat(place.address)
  }

  function PlaceText(place: Place): string
    requires IsPlace(place)
  {
    match place
    case Nowhere => ""
    case At(address) => AddressText.Print(address)
    case Everywhere => "*"
  }

  /** The address that a command has then; the star is all lines. Numbers may be too large. */
  function PlaceMeaning(place: Place): Result<Option<Address>> {
    match place
    case Nowhere => Ok(None)
    case At(address) => if Fits(address) then Ok(Some(address)) else Fail
    case Everywhere => Ok(Some(Range(Absolute(1), Last)))
  }

  /** What a command line means. */
  function LineMeaning(place: Place, t: Typing): Result<Command>
    requires IsTypable(t)
  {
    var address :- PlaceMeaning(place);
    Meaning(address, t)
  }

  function PlaceTokens(place: Place): nat {
    match place
    case Nowhere => 0
    case At(address) => TokenCount(address)
    case Everywhere => 1
  }

  /** Every typed command line parses to its meaning, or not at all if it has none. */
  lemma {:induction false} LineParses(tokens: seq<Token>, i: nat, characters: seq<Character>, end: SourceLocation,
                                      p: nat,
                                      place: Place, t: Typing)
    requires IsLocated(characters) && LexedFrom(tokens, i, characters, end, p) && IsPlace(place) && IsTypable(t)
    requires var text := PlaceText(place) + TextOf(t);
      StandsAt(characters, p, text) && IsLineEnd(characters, p + |text|)
    ensures AreTokens(tokens) && i < |tokens|
    ensures ParseCommand(tokens, i, false) == Whole(tokens, LineMeaning(place, t))
  {
    hide AllTokens, TokenAt, TokenEnd, LexedFrom, StandsAt, AreTokens, IsLocated, IsLineEnd, IsTypable, TextOf,
         PlaceText, PlaceMeaning, PlaceTokens, Meaning, FromMnemonic, ParseCommand, ParseHead, BeginsCommand, IsPlace;
    var position, at := p + |PlaceText(place)|, i + PlaceTokens(place);
    StandsSplit(characters, p, PlaceText(place), TextOf(t));
    LexedFacts(tokens, i, characters, end, p);
    NoDigitStands(characters, position, t);
    PlaceLexes(tokens, i, characters, end, p, place);
    var address := PlaceMeaning(place);
    TypingParses(tokens, at, characters, end, position, t, if address.Ok? then address.value else None);
    HeadParses(tokens, i, characters, end, p, place);
    HeadGoesOn(tokens, i, at, address, false);
  }

  /** No typing begins with a digit. */
  lemma {:induction false} NoDigitStands(characters: seq<Character>, position: nat, t: Typing)
    requires IsTypable(t) && StandsAt(characters, position, TextOf(t))
    ensures !DigitAt(characters, position)
  {
    hide StandsAt;
    TextStart(t);
    FirstStands(characters, position, TextOf(t));
  }

  lemma {:induction false} TextStart(t: Typing)
    requires IsTypable(t)
    ensures TextOf(t) != "" && !IsDigit(TextOf(t)[0])
  {
    match t
    case Search(_, _, _, _) => assert TextOf(t)[0] == 'G';
    case _ =>
  }

  lemma {:induction false} PlaceLexes(tokens: seq<Token>, i: nat, characters: seq<Character>, end: SourceLocation,
                                      p: nat,
                                      place: Place)
    requires IsLocated(characters) && LexedFrom(tokens, i, characters, end, p) && IsPlace(place)
    requires StandsAt(characters, p, PlaceText(place)) && !DigitAt(characters, p + |PlaceText(place)|)
    ensures LexedFrom(tokens, i + PlaceTokens(place), characters, end, p + |PlaceText(place)|)
    ensures place.Everywhere? ==> i < |tokens| && IsSymbol(tokens[i], '*')
  {
    hide AllTokens, TokenAt, TokenEnd, LexedFrom, StandsAt, AreTokens, IsLocated, AddressText.Print, TokenCount,
         DigitAt;
    match place
    case Nowhere =>
    case At(address) => AddressLexes(tokens, i, characters, end, p, address);
    case Everywhere =>
      StarIsSymbol();
      ByteLexes(tokens, i, characters, end, p, '*');
  }

  lemma {:induction false} StarIsSymbol()
    ensures IsPrintable('*') && !IsIdentifierPart('*')
  {
  }

  /** Where a command begins, its place is parsed. */
  lemma {:induction false} HeadParses(tokens: seq<Token>, i: nat, characters: seq<Character>, end: SourceLocation,
                                      p: nat,
                                      place: Place)
    requires LexedFrom(tokens, i, characters, end, p) && IsPlace(place) && AreTokens(tokens)
    requires StandsAt(characters, p, PlaceText(place)) && !DigitAt(characters, p + |PlaceText(place)|)
    requires i + PlaceTokens(place) < |tokens| && BeginsCommand(tokens[i + PlaceTokens(place)])
    requires place.Everywhere? ==> IsSymbol(tokens[i], '*')
    ensures ParseHead(tokens, i) ==
            if PlaceMeaning(place).Fail? then Fail
            else Ok((Head(PlaceMeaning(place).value, false), i + PlaceTokens(place)))
  {
    hide AllTokens, LexedFrom, StandsAt, AreTokens, AddressText.Print, TokenCount, DigitAt, ParsePrefix, Fits;
    if place.At? {
      PrefixParsesBack(tokens, i, characters, end, p, place.address);
    }
  }

  /** The command behind a place. */
  function InChain(tokens: seq<Token>, i: nat, address: Option<Address>, chained: bool): Result<(Command, nat)>
    requires AreTokens(tokens) && i < |tokens|
  {
    var (mnemonic, spelling) :- Mnemonic(tokens[i]);
    ParseBody(tokens, i + 1, address, mnemonic, spelling, tokens[i], chained)
  }

  lemma {:induction false} HeadGoesOn(tokens: seq<Token>, i: nat, at: nat, address: Result<Option<Address>>,
                                      chained: bool)
    requires AreTokens(tokens) && i < |tokens| && at < |tokens|
    requires ParseHead(tokens, i) == if address.Fail? then Fail else Ok((Head(address.value, false), at))
    ensures ParseCommand(tokens, i, chained) == if address.Fail? then Fail
                                                else InChain(tokens, at, address.value, chained)
    ensures address.Ok? ==> InChain(tokens, at, address.value, false) == FromMnemonic(tokens, at, address.value)
  {
    hide AreTokens, ParseHead, ParseBody;
  }

  /** A typed line is the tokens of its text, with or without a line feed at the end. */
  lemma {:induction false} TypedLineParses(place: Place, t: Typing, fed: bool)
    requires IsPlace(place) && IsTypable(t)
    ensures var tokens := TokensOf(PlaceText(place) + TextOf(t) + if fed then "\n" else "");
      AreTokens(tokens) && |tokens| > 0 && ParseCommand(tokens, 0, false) == Whole(tokens, LineMeaning(place, t))
  {
    hide *;
    var line := PlaceText(place) + TextOf(t);
    var text := line + if fed then "\n" else "";
    TypedStands(text);
    TypedIsLocated(text);
    FedStands(Located(Typed(text)), line, fed);
    LineParses(TokensOf(text), 0, Located(Typed(text)), EndLocation(Typed(text)), 0, place, t);
  }

  lemma {:induction false} TypedIsLocated(text: string)
    ensures IsLocated(Located(Typed(text)))
  {
    LocatedIsLocated(Typed(text));
  }

  lemma {:induction false} FedStands(characters: seq<Character>, line: string, fed: bool)
    requires var text := line + if fed then "\n" else ""; StandsAt(characters, 0, text) && |characters| == |text|
    ensures StandsAt(characters, 0, line) && IsLineEnd(characters, |line|)
  {
    StandsSplit(characters, 0, line, if fed then "\n" else "");
    if fed {
      assert IsPlain(characters[|line| + 0], "\n"[0]);
    }
  }

  /** An address alone is no command, but a star alone prints all lines. */
  lemma {:induction false} PlaceAlone(place: Place)
    requires IsPlace(place)
    ensures var tokens := TokensOf(PlaceText(place));
      AreTokens(tokens) && |tokens| > 0 &&
      ParseCommand(tokens, 0, false) ==
      if place.Everywhere? then Ok((Print(Some(Range(Absolute(1), Last))), |tokens| - 1)) else Fail
  {
    hide AllTokens, TokensOf, LexedFrom, StandsAt, AreTokens, AddressText.Print, TokenCount, DigitAt, ParsePrefix,
         Located, Typed, EndLocation, Fits, ParseHead, IsLocated;
    var text := PlaceText(place);
    var tokens, characters, end := TokensOf(text), Located(Typed(text)), EndLocation(Typed(text));
    TypedStands(text);
    TypedIsLocated(text);
    NothingBehind(characters);
    PlaceLexes(tokens, 0, characters, end, 0, place);
    LexedToEnd(tokens, PlaceTokens(place), characters, end);
    NothingParses(tokens, characters, end, place);
  }

  lemma {:induction false} NothingParses(tokens: seq<Token>, characters: seq<Character>, end: SourceLocation,
                                         place: Place)
    requires LexedFrom(tokens, 0, characters, end, 0) && IsPlace(place) && AreTokens(tokens)
    requires StandsAt(characters, 0, PlaceText(place)) && !DigitAt(characters, |PlaceText(place)|)
    requires |tokens| == PlaceTokens(place) + 1 && tokens[PlaceTokens(place)].kind == EndToken
    requires place.Everywhere? ==> IsSymbol(tokens[0], '*')
    ensures ParseCommand(tokens, 0, false) ==
            if place.Everywhere? then Ok((Print(Some(Range(Absolute(1), Last))), |tokens| - 1)) else Fail
  {
    hide AllTokens, LexedFrom, StandsAt, AreTokens, AddressText.Print, TokenCount, DigitAt, ParsePrefix, Fits;
    if place.At? {
      PrefixParsesBack(tokens, 0, characters, end, 0, place.address);
    }
  }

  // ---------------------------------------------------------------- chains

  /** A command that ends the input is the same in a chain. */
  lemma {:induction false} LastInChain(tokens: seq<Token>, i: nat)
    requires AreTokens(tokens) && i < |tokens| && ParseCommand(tokens, i, false).Ok?
    ensures ParseCommand(tokens, i, true) == ParseCommand(tokens, i, false)
  {
    hide AreTokens, ParseHead, ParseBody, Mnemonic;
    var head := ParseHead(tokens, i);
    if head.value.0.implicitPrint {
      LastBody(tokens, head.value.1, head.value.0.address, 'P', Plain, tokens[i]);
    } else {
      var at := head.value.1;
      var mnemonic := Mnemonic(tokens[at]);
      LastBody(tokens, at + 1, head.value.0.address, mnemonic.value.0, mnemonic.value.1, tokens[at]);
    }
  }

  lemma {:induction false} LastBody(tokens: seq<Token>, i: nat, address: Option<Address>, mnemonic: char,
                                    spelling: Spelling,
                                    command: Token)
    requires AreTokens(tokens) && i < |tokens|
    requires ParseBody(tokens, i, address, mnemonic, spelling, command, false).Ok?
    ensures ParseBody(tokens, i, address, mnemonic, spelling, command, true) ==
            ParseBody(tokens, i, address, mnemonic, spelling, command, false)
  {
    hide AreTokens, ParseName, ParseFilename, ParseMessage, ParsePrefix, PlainText, OperandEnd, ParseGlobal,
         ParseGather, ParseSubstitute, ParseSelect, ParseOption, Ended, CommandEnd, SimpleCommand;
    match mnemonic
    case 'S' => LastExchange(tokens, i, address);
    case 'O' => LastOption(tokens, i);
    case 'B' => LastSelection(tokens, i, spelling, command);
    case 'G' => LastNested(tokens, i, address, mnemonic, spelling, command);
    case 'Z' =>
      LastNested(tokens, i, address, mnemonic, spelling, command);
      LastLetter(tokens, i, address, mnemonic, spelling, command);
    case _ =>
      if mnemonic in {'R', 'W', 'L', 'M', 'T'} {
        LastWithOperand(tokens, i, address, mnemonic, spelling, command);
      } else {
        LastLetter(tokens, i, address, mnemonic, spelling, command);
      }
  }

  lemma {:induction false} LastWithOperand(tokens: seq<Token>, i: nat, address: Option<Address>, mnemonic: char,
                                           spelling: Spelling,
                                           command: Token)
    requires AreTokens(tokens) && i < |tokens| && mnemonic in {'R', 'W', 'L', 'M', 'T'}
    requires ParseBody(tokens, i, address, mnemonic, spelling, command, false).Ok?
    ensures ParseBody(tokens, i, address, mnemonic, spelling, command, true) ==
            ParseBody(tokens, i, address, mnemonic, spelling, command, false)
  {
    hide AreTokens, ParseName, ParseFilename, ParsePrefix, Ended, CommandEnd;
    LastEnded(tokens);
  }

  lemma {:induction false} LastLetter(tokens: seq<Token>, i: nat, address: Option<Address>, mnemonic: char,
                                      spelling: Spelling,
                                      command: Token)
    requires AreTokens(tokens) && i < |tokens|
    requires mnemonic !in {'S', 'O', 'B', 'G', 'R', 'W', 'L', 'M', 'T'}
    requires ParseBody(tokens, i, address, mnemonic, spelling, command, false).Ok?
    ensures mnemonic != 'Z' || spelling != Gathering ==>
      ParseBody(tokens, i, address, mnemonic, spelling, command, true) ==
      ParseBody(tokens, i, address, mnemonic, spelling, command, false)
  {
    hide AreTokens, ParseMessage, PlainText, OperandEnd, ParseGather, Ended, CommandEnd, SimpleCommand;
    LastEnded(tokens);
  }

  lemma {:induction false} LastNested(tokens: seq<Token>, i: nat, address: Option<Address>, mnemonic: char,
                                      spelling: Spelling,
                                      command: Token)
    requires AreTokens(tokens) && i < |tokens| && mnemonic in {'G', 'Z'}
    ensures mnemonic == 'G' || spelling == Gathering ==>
      ParseBody(tokens, i, address, mnemonic, spelling, command, true) ==
      ParseBody(tokens, i, address, mnemonic, spelling, command, false)
  {
    hide AreTokens, ParseGlobal, ParseGather;
  }

  /** What ends the input ends a command of a chain. */
  lemma {:induction false} LastEnded(tokens: seq<Token>)
    requires AreTokens(tokens)
    ensures forall k: nat, command :: k < |tokens| && Ended(tokens, k, false, command).Ok? ==>
      Ended(tokens, k, true, command) == Ended(tokens, k, false, command)
    ensures forall k: nat :: k < |tokens| && CommandEnd(tokens, k, false).Ok? ==>
      CommandEnd(tokens, k, true) == CommandEnd(tokens, k, false)
  {
    hide AreTokens, CommandEnd;
    forall k: nat | k < |tokens|
      ensures CommandEnd(tokens, k, false).Ok? ==> CommandEnd(tokens, k, true) == CommandEnd(tokens, k, false)
    {
      LastEnd(tokens, k);
    }
  }

  lemma {:induction false} LastExchange(tokens: seq<Token>, i: nat, address: Option<Address>)
    requires AreTokens(tokens) && i < |tokens| && ParseSubstitute(tokens, i, address, false).Ok?
    ensures ParseSubstitute(tokens, i, address, true) == ParseSubstitute(tokens, i, address, false)
  {
    hide AreTokens, ParseDelimited, CollectReplacement, Ended, CommandEnd;
    LastEnded(tokens);
  }

  lemma {:induction false} LastOption(tokens: seq<Token>, i: nat)
    requires AreTokens(tokens) && i < |tokens| && ParseOption(tokens, i, false).Ok?
    ensures ParseOption(tokens, i, true) == ParseOption(tokens, i, false)
  {
    hide Ended, CommandEnd;
    LastEnded(tokens);
  }

  lemma {:induction false} LastSelection(tokens: seq<Token>, i: nat, spelling: Spelling, command: Token)
    requires AreTokens(tokens) && i < |tokens| && ParseSelect(tokens, i, spelling, command, false).Ok?
    ensures ParseSelect(tokens, i, spelling, command, true) == ParseSelect(tokens, i, spelling, command, false)
  {
    hide ParseName, Ended, CommandEnd;
    LastEnded(tokens);
  }

  lemma {:induction false} LastEnd(tokens: seq<Token>, k: nat)
    requires AreTokens(tokens) && k < |tokens|
    ensures CommandEnd(tokens, k, false).Ok? ==> CommandEnd(tokens, k, true) == CommandEnd(tokens, k, false)
  {
  }

  /** A letter that needs no operand, with any command behind it: in a chain, they are parsed one after the other. */
  lemma {:induction false} ChainParses(place: Place, letter: char, second: Place, t: Typing)
    requires IsPlace(place) && IsPlace(second) && IsTypable(t) && IsLetter(letter)
    requires Upper(letter) in {'P', 'D', 'C', 'A', 'I', 'Z'}
    ensures var tokens := TokensOf(PlaceText(place) + ([letter] + (" " + (PlaceText(second) + TextOf(t)))));
      var j := PlaceTokens(place) + 1; var one := LineMeaning(place, Word([letter]));
      && AreTokens(tokens) && j < |tokens|
      && ParseCommand(tokens, 0, true) == (if one.Fail? then Fail else Ok((one.value, j)))
      && var two := LineMeaning(second, t); two.Ok? ==> ParseCommand(tokens, j, true) == Ok((two.value, |tokens| - 1))
  {
    hide *;
    var rest := PlaceText(second) + TextOf(t);
    var text := PlaceText(place) + ([letter] + (" " + rest));
    var tokens, characters, end := TokensOf(text), Located(Typed(text)), EndLocation(Typed(text));
    var position, i := |PlaceText(place)|, PlaceTokens(place);
    TypedStands(text);
    TypedIsLocated(text);
    LexedFacts(tokens, 0, characters, end, 0);
    FirstOfChain(tokens, characters, end, place, letter, rest);
    RestStarts(second, t);
    SpaceSkipped(tokens, i + 1, characters, end, position + 1, rest);
    EndsThere(characters, position + 2, rest);
    LineParses(tokens, i + 1, characters, end, position + 2, second, t);
    NoLineFeed(tokens, i + 1, characters, end, position + 2, rest);
    LetterInChain(tokens, i, letter, place);
    SecondInChain(tokens, i + 1, second, t);
  }

  lemma {:induction false} FirstOfChain(tokens: seq<Token>, characters: seq<Character>, end: SourceLocation,
                                        place: Place,
                                        letter: char, rest: string)
    requires IsLocated(characters) && LexedFrom(tokens, 0, characters, end, 0) && IsPlace(place) && IsLetter(letter)
    requires StandsAt(characters, 0, PlaceText(place) + ([letter] + (" " + rest)))
    ensures var i := PlaceTokens(place); var position := |PlaceText(place)|;
      && AreTokens(tokens) && i + 1 < |tokens| && tokens[i].kind == CommandToken && tokens[i].lexeme == [letter]
      && LexedFrom(tokens, i + 1, characters, end, position + 1) && StandsAt(characters, position + 1, " " + rest)
      && ParseHead(tokens, 0) == if PlaceMeaning(place).Fail? then Fail
                                 else Ok((Head(PlaceMeaning(place).value, false), i))
  {
    hide AllTokens, TokenAt, TokenEnd, LexedFrom, StandsAt, AreTokens, IsLocated, PlaceText, PlaceMeaning, PlaceTokens,
         ParseHead, BeginsCommand, IsPlace, DigitAt, IsIdentifierPart;
    var position := |PlaceText(place)|;
    StandsSplit(characters, 0, PlaceText(place), [letter] + (" " + rest));
    StandsSplit(characters, position, [letter], " " + rest);
    FirstStands(characters, position + 1, " " + rest);
    NotDigit(characters, position, letter);
    NotInWords();
    PlaceLexes(tokens, 0, characters, end, 0, place);
    WordLexes(tokens, PlaceTokens(place), characters, end, position, [letter]);
    LettersBegin(tokens[PlaceTokens(place)]);
    HeadParses(tokens, 0, characters, end, 0, place);
  }

  lemma {:induction false} RestStarts(place: Place, t: Typing)
    requires IsPlace(place) && IsTypable(t)
    ensures var rest := PlaceText(place) + TextOf(t); rest != "" && rest[0] !in {' ', '\t', '\r', '\n'}
  {
    hide AddressText.Print, TextOf;
    if place.At? {
      AddressStart(place.address);
      assert PlaceText(place) != "";
    } else if place.Nowhere? {
      NoSpaceFirst(t);
    }
  }

  lemma {:induction false} NoSpaceFirst(t: Typing)
    requires IsTypable(t)
    ensures TextOf(t) != "" && TextOf(t)[0] !in {' ', '\t', '\r', '\n'}
  {
    match t
    case Search(_, _, _, _) => assert TextOf(t)[0] == 'G';
    case _ =>
  }

  lemma {:induction false} EndsThere(characters: seq<Character>, position: nat, text: string)
    requires |characters| == position + |text|
    ensures IsLineEnd(characters, position + |text|)
  {
  }

  lemma {:induction false} NoLineFeed(tokens: seq<Token>, i: nat, characters: seq<Character>, end: SourceLocation,
                                      position: nat,
                                      text: string)
    requires LexedFrom(tokens, i, characters, end, position) && StandsAt(characters, position, text)
    requires text != "" && text[0] !in {' ', '\t', '\r', '\n'}
    ensures AreTokens(tokens) && i < |tokens| && tokens[i].kind != NewLineToken
  {
    hide AllTokens;
    assert IsPlain(characters[position + 0], text[0]);
    LexedNext(tokens, i, characters, end, position);
  }

  lemma {:induction false} LetterInChain(tokens: seq<Token>, i: nat, letter: char, place: Place)
    requires AreTokens(tokens) && i + 1 < |tokens| && IsLetter(letter) &&
             Upper(letter) in {'P', 'D', 'C', 'A', 'I', 'Z'}
    requires tokens[i].kind == CommandToken && tokens[i].lexeme == [letter] && tokens[i + 1].kind != NewLineToken
    requires ParseHead(tokens, 0) ==
             if PlaceMeaning(place).Fail? then Fail else Ok((Head(PlaceMeaning(place).value, false), i))
    ensures var one := LineMeaning(place, Word([letter]));
      ParseCommand(tokens, 0, true) == if one.Fail? then Fail else Ok((one.value, i + 1))
  {
    hide AreTokens, ParseHead, PlaceMeaning;
    if PlaceMeaning(place).Ok? {
      assert CommandEnd(tokens, i + 1, true) == Ok(i + 1);
      hide CommandEnd;
      assert Mnemonic(tokens[i]) == Ok((Upper(letter), Plain));
    }
  }

  lemma {:induction false} SecondInChain(tokens: seq<Token>, j: nat, place: Place, t: Typing)
    requires AreTokens(tokens) && j < |tokens| && IsTypable(t)
    requires ParseCommand(tokens, j, false) == Whole(tokens, LineMeaning(place, t))
    ensures LineMeaning(place, t).Ok? ==>
            ParseCommand(tokens, j, true) == Ok((LineMeaning(place, t).value, |tokens| - 1))
  {
    hide AreTokens, ParseCommand, LineMeaning;
    if LineMeaning(place, t).Ok? {
      LastInChain(tokens, j);
    }
  }
}
