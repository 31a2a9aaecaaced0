/** The printed form of addresses, and its way back through lexer, tokens and parser. */
module AddressText {
  import opened Outcomes
  import opened Characters
  import opened Tokens
  import opened Lexing
  import opened Numbers
  import opened TokenStreams
  import opened Addresses
  import opened AddressParsing

  function PrintSingle(address: Address): string
    requires !address.Range?
  {
    match address
    case Absolute(line) => Decimal(line)
    case Current => "."
    case Last => "$"
    case Relative(forward, distance) => (if forward then "+" else "-") + Decimal(distance)
  }

  predicate IsFlat(address: Address) {
    address.Range? ==> !address.first.Range? && !address.last.Range?
  }

  function Print(address: Address): string
    requires IsFlat(address)
  {
    if address.Range? then PrintSingle(address.first) + "," + PrintSingle(address.last) else PrintSingle(address)
  }

  /** Every number in the address fits the machine's size type. */
  predicate Fits(address: Address) {
    match address
    case Absolute(line) => line <= MAX_SIZE
    case Relative(_, distance) => distance <= MAX_SIZE
    case Range(first, last) => Fits(first) && Fits(last)
    case _ => true
  }

  // ---------------------------------------------------------------- lexing printed text

  /** Ordinary text stands in the source at a position. */
  predicate StandsAt(characters: seq<Character>, position: nat, text: string) {
    && position + |text| <= |characters|
    && forall k :: 0 <= k < |text| ==> IsPlain(characters[position + k], text[k])
  }

  predicate IsPlain(character: Character, c: char) {
    character.value == c && character.interpretation == Normal
  }

  predicate DigitAt(characters: seq<Character>, position: nat) {
    position < |characters| && IsDigit(characters[position].value)
  }

  lemma {:induction false} StandsSplit(characters: seq<Character>, position: nat, first: string, second: string)
    requires StandsAt(characters, position, first + second)
    ensures StandsAt(characters, position, first) && StandsAt(characters, position + |first|, second)
  {
    var text := first + second;
    assert forall k :: 0 <= k < |first| ==> text[k] == first[k];
    forall k | 0 <= k < |second| ensures IsPlain(characters[position + |first| + k], second[k]) {
      assert text[|first| + k] == second[k];
      assert IsPlain(characters[position + (|first| + k)], text[|first| + k]);
    }
  }

  /** The tokens from `i` on are those of the source from `position` on. */
  predicate LexedFrom(tokens: seq<Token>, i: nat, characters: seq<Character>, end: SourceLocation, position: nat) {
    && AreTokens(tokens) && i < |tokens| && position <= |characters|
    && AllTokens(characters, end, position) == tokens[i..]
  }

  lemma {:induction false} LexedFacts(tokens: seq<Token>, i: nat, characters: seq<Character>, end: SourceLocation,
                                      position: nat)
    requires LexedFrom(tokens, i, characters, end, position)
    ensures AreTokens(tokens) && i < |tokens|
  {
  }

  lemma {:induction false} LexedNext(tokens: seq<Token>, i: nat, characters: seq<Character>, end: SourceLocation,
                                     position: nat)
    requires LexedFrom(tokens, i, characters, end, position)
    requires position < |characters| && !IsSkippable(characters[position])
    ensures tokens[i] == TokenAt(characters, position)
    ensures LexedFrom(tokens, i + 1, characters, end, TokenEnd(characters, position))
  {
    assert AllTokens(characters, end, position) ==
           [TokenAt(characters, position)] + AllTokens(characters, end, TokenEnd(characters, position));
    hide *;
    assert tokens[i..][0] == tokens[i] && tokens[i..][1..] == tokens[i + 1..];
  }

  lemma {:induction false} DigitsRun(characters: seq<Character>, position: nat, stop: nat)
    requires position <= stop <= |characters| && !DigitAt(characters, stop)
    requires forall k :: position <= k < stop ==> IsDigit(characters[k].value)
    ensures RunEnd(characters, position, true) == stop
    decreases stop - position
  {
    if position < stop {
      DigitsRun(characters, position + 1, stop);
    }
  }

  /** A run of digits is one number token. */
  lemma {:induction false} DigitsToken(characters: seq<Character>, position: nat, text: string)
    requires StandsAt(characters, position, text) && text != "" && IsNumber(text)
    requires !DigitAt(characters, position + |text|)
    ensures !IsSkippable(characters[position]) && TokenEnd(characters, position) == position + |text|
    ensures TokenAt(characters, position).kind == NumberToken && TokenAt(characters, position).lexeme == text
  {
    forall k | position <= k < position + |text| ensures IsDigit(characters[k].value) {
      assert IsPlain(characters[position + (k - position)], text[k - position]);
    }
    assert IsPlain(characters[position + 0], text[0]);
    DigitsRun(characters, position + 1, position + |text|);
    assert Text(characters, position, position + |text|) == text by {
      assert forall k :: 0 <= k < |text| ==> IsPlain(characters[position + k], text[k]);
    }
  }

  /** A printed number is one token. */
  lemma {:induction false} NumberLexes(tokens: seq<Token>, i: nat, characters: seq<Character>, end: SourceLocation,
                                       position: nat, number: nat)
    requires LexedFrom(tokens, i, characters, end, position) && StandsAt(characters, position, Decimal(number))
    requires !DigitAt(characters, position + |Decimal(number)|)
    ensures tokens[i].kind == NumberToken
    ensures ParseNumberAt(tokens, i) == if number <= MAX_SIZE then Ok(number) else Fail
    ensures LexedFrom(tokens, i + 1, characters, end, position + |Decimal(number)|)
  {
    hide Decimal, AllTokens, TokenAt, TokenEnd, NumberValue;
    DigitsToken(characters, position, Decimal(number));
    LexedNext(tokens, i, characters, end, position);
    DecimalValue(number);
  }

  /** A printed sign is one symbol token. */
  lemma {:induction false} SignLexes(tokens: seq<Token>, i: nat, characters: seq<Character>, end: SourceLocation,
                                     position: nat, c: char)
    requires c in {'.', '$', '+', '-', ','}
    requires LexedFrom(tokens, i, characters, end, position) && StandsAt(characters, position, [c])
    ensures if c == ',' then tokens[i].kind == CommaToken else IsSymbol(tokens[i], c)
    ensures LexedFrom(tokens, i + 1, characters, end, position + 1)
  {
    assert IsPlain(characters[position + 0], [c][0]);
    LexedNext(tokens, i, characters, end, position);
    assert Text(characters, position, position + 1) == [c];
  }

  // ---------------------------------------------------------------- printing, then parsing

  /** How far printed single addresses reach in tokens. */
  function TokenCount(address: Address): nat {
    if address.Relative? then 2 else if address.Range? then TokenCount(address.first) + 1 + TokenCount(address.last)
                                     else 1
  }

  lemma {:induction false} SingleParsesBack(tokens: seq<Token>, i: nat, characters: seq<Character>,
                                            end: SourceLocation, position: nat, address: Address)
    requires !address.Range?
    requires LexedFrom(tokens, i, characters, end, position) && StandsAt(characters, position, PrintSingle(address))
    requires !DigitAt(characters, position + |PrintSingle(address)|)
    ensures ParseSingle(tokens, i) == if Fits(address) then Ok((address, i + TokenCount(address))) else Fail
    ensures BeginsAddress(tokens[i])
    ensures LexedFrom(tokens, i + TokenCount(address), characters, end, position + |PrintSingle(address)|)
  {
    hide LexedFrom, AllTokens, Decimal, StandsAt, ParseNumberAt, DigitAt;
    match address
    case Absolute(line) => NumberLexes(tokens, i, characters, end, position, line);
    case Current => SignLexes(tokens, i, characters, end, position, '.');
    case Last => SignLexes(tokens, i, characters, end, position, '$');
    case Relative(forward, distance) => SignedParsesBack(tokens, i, characters, end, position, forward, distance);
  }

  lemma {:induction false} SignedParsesBack(tokens: seq<Token>, i: nat, characters: seq<Character>,
                                            end: SourceLocation, position: nat, forward: bool, distance: nat)
    requires var address := Relative(forward, distance);
      && LexedFrom(tokens, i, characters, end, position) && StandsAt(characters, position, PrintSingle(address))
      && !DigitAt(characters, position + |PrintSingle(address)|)
    ensures var address := Relative(forward, distance);
      && ParseSingle(tokens, i) == (if Fits(address) then Ok((address, i + 2)) else Fail)
      && BeginsAddress(tokens[i])
      && LexedFrom(tokens, i + 2, characters, end, position + |PrintSingle(address)|)
  {
    hide LexedFrom, AllTokens, Decimal, StandsAt, ParseNumberAt, DigitAt, AreTokens;
    var sign := if forward then "+" else "-";
    StandsSplit(characters, position, sign, Decimal(distance));
    SignLexes(tokens, i, characters, end, position, sign[0]);
    NumberLexes(tokens, i + 1, characters, end, position + 1, distance);
    LexedFacts(tokens, i, characters, end, position);
  }

  lemma {:induction false} NotDigit(characters: seq<Character>, position: nat, c: char)
    requires StandsAt(characters, position, [c]) && !IsDigit(c)
    ensures !DigitAt(characters, position)
  {
    assert IsPlain(characters[position + 0], [c][0]);
  }

  /** The tokens of a printed range: two addresses around a comma. */
  lemma {:induction false} RangeLexes(tokens: seq<Token>, i: nat, characters: seq<Character>, end: SourceLocation,
                                      position: nat, first: Address, last: Address)
    requires !first.Range? && !last.Range?
    requires var text := PrintSingle(first) + "," + PrintSingle(last);
      LexedFrom(tokens, i, characters, end, position) && StandsAt(characters, position, text)
      && !DigitAt(characters, position + |text|)
    ensures BeginsAddress(tokens[i])
    ensures var comma := i + TokenCount(first);
      && ParseSingle(tokens, i) == (if Fits(first) then Ok((first, comma)) else Fail)
      && comma + 1 < |tokens| && tokens[comma].kind == CommaToken
      && ParseSingle(tokens, comma + 1) == (if Fits(last) then Ok((last, comma + 1 + TokenCount(last))) else Fail)
      && LexedFrom(tokens, comma + 1 + TokenCount(last), characters, end,
                   position + |PrintSingle(first)| + 1 + |PrintSingle(last)|)
  {
    hide AllTokens, ParseSingle, StandsAt, PrintSingle, TokenCount, Fits, DigitAt, AreTokens, LexedFrom;
    LexedFacts(tokens, i, characters, end, position);
    var one, two := PrintSingle(first), PrintSingle(last);
    var next := position + |one|;
    StandsSplit(characters, position, one + ",", two);
    StandsSplit(characters, position, one, ",");
    NotDigit(characters, next, ',');
    SingleParsesBack(tokens, i, characters, end, position, first);
    LexedFacts(tokens, i + TokenCount(first), characters, end, next);
    SignLexes(tokens, i + TokenCount(first), characters, end, next, ',');
    LexedFacts(tokens, i + TokenCount(first) + 1, characters, end, next + 1);
    SingleParsesBack(tokens, i + TokenCount(first) + 1, characters, end, next + 1, last);
  }

  lemma {:induction false} PartsOf(address: Address)
    requires IsFlat(address)
    ensures if address.Range? then
              && Print(address) == PrintSingle(address.first) + "," + PrintSingle(address.last)
              && TokenCount(address) == TokenCount(address.first) + 1 + TokenCount(address.last)
              && Fits(address) == (Fits(address.first) && Fits(address.last))
            else Print(address) == PrintSingle(address)
  {
  }

  /** A printed address parses back to itself if its numbers fit the size type, and not at all otherwise; what
    follows it must not continue it. */
  lemma {:induction false} PrefixParsesBack(tokens: seq<Token>, i: nat, characters: seq<Character>,
                                            end: SourceLocation, position: nat, address: Address)
    requires IsFlat(address)
    requires LexedFrom(tokens, i, characters, end, position) && StandsAt(characters, position, Print(address))
    requires !DigitAt(characters, position + |Print(address)|)
    requires i + TokenCount(address) < |tokens| ==> address.Range? || tokens[i + TokenCount(address)].kind != CommaToken
    ensures ParsePrefix(tokens, i) == if Fits(address) then Ok((address, i + TokenCount(address))) else Fail
    ensures BeginsAddress(tokens[i])
    ensures LexedFrom(tokens, i + TokenCount(address), characters, end, position + |Print(address)|)
  {
    hide AllTokens, ParseSingle, StandsAt, PrintSingle, DigitAt, AreTokens, LexedFrom, TokenCount, Fits, Print;
    LexedFacts(tokens, i, characters, end, position);
    PartsOf(address);
    match address
    case Range(first, last) => RangeLexes(tokens, i, characters, end, position, first, last);
    case _ =>
      SingleParsesBack(tokens, i, characters, end, position, address);
      LexedFacts(tokens, i + TokenCount(address), characters, end, position + |Print(address)|);
  }

  /** Ordinary top-level input. */
  function Typed(text: string): (input: seq<InputCharacter>)
    ensures |input| == |text|
    ensures forall k :: 0 <= k < |text| ==> input[k] == InputCharacter(text[k], 0, Normal)
  {
    seq(|text|, k requires 0 <= k < |text| => InputCharacter(text[k], 0, Normal))
  }

  /** The tokens of typed text. */
  function TokensOf(text: string): seq<Token> {
    AllTokens(Located(Typed(text)), EndLocation(Typed(text)), 0)
  }

  /** Printing an address, typing it and parsing it gives it back exactly if its numbers fit the size type. */
  lemma {:induction false} AddressRoundTrip(address: Address)
    requires IsFlat(address)
    ensures ParseWhole(TokensOf(Print(address)), 0) ==
            if Fits(address) then Ok((address, TokenCount(address))) else Fail
  {
    hide *;
    var text := Print(address);
    TypedStands(text);
    WholeParsesBack(TokensOf(text), Located(Typed(text)), EndLocation(Typed(text)), address);
  }

  lemma {:induction false} WholeParsesBack(tokens: seq<Token>, characters: seq<Character>, end: SourceLocation,
                                           address: Address)
    requires IsFlat(address) && LexedFrom(tokens, 0, characters, end, 0)
    requires StandsAt(characters, 0, Print(address)) && |characters| == |Print(address)|
    ensures ParseWhole(tokens, 0) == if Fits(address) then Ok((address, TokenCount(address))) else Fail
  {
    hide AllTokens, ParsePrefix, ParseSingle, Print, StandsAt, TokenCount, AreTokens, LexedFrom, DigitAt, Fits;
    NothingBehind(characters);
    AddressLexes(tokens, 0, characters, end, 0, address);
    LexedToEnd(tokens, TokenCount(address), characters, end);
    PrefixParsesBack(tokens, 0, characters, end, 0, address);
  }

  lemma {:induction false} TypedStands(text: string)
    ensures AreTokens(TokensOf(text))
    ensures var characters, end := Located(Typed(text)), EndLocation(Typed(text));
      |characters| == |text| && StandsAt(characters, 0, text) && LexedFrom(TokensOf(text), 0, characters, end, 0)
  {
    hide AllTokens;
    assert TokensOf(text)[0..] == TokensOf(text);
  }

  /** The tokens of a printed address reach as far as its text. */
  lemma {:induction false} AddressLexes(tokens: seq<Token>, i: nat, characters: seq<Character>, end: SourceLocation,
                                        position: nat, address: Address)
    requires IsFlat(address) && LexedFrom(tokens, i, characters, end, position)
    requires StandsAt(characters, position, Print(address)) && !DigitAt(characters, position + |Print(address)|)
    ensures LexedFrom(tokens, i + TokenCount(address), characters, end, position + |Print(address)|)
    ensures BeginsAddress(tokens[i])
  {
    hide AllTokens, ParseSingle, StandsAt, PrintSingle, LexedFrom, DigitAt, TokenCount, Print, Fits;
    PartsOf(address);
    match address
    case Range(first, last) => RangeLexes(tokens, i, characters, end, position, first, last);
    case _ => SingleParsesBack(tokens, i, characters, end, position, address);
  }

  lemma {:induction false} NothingBehind(characters: seq<Character>)
    ensures !DigitAt(characters, |characters|)
  {
  }

  lemma {:induction false} LexedToEnd(tokens: seq<Token>, i: nat, characters: seq<Character>, end: SourceLocation)
    requires LexedFrom(tokens, i, characters, end, |characters|)
    ensures |tokens| == i + 1 && AreTokens(tokens) && tokens[i].kind == EndToken
  {
    assert AllTokens(characters, end, |characters|) == [TheEnd(end)];
  }
}
