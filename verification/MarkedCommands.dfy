/** `G` and `S` with marked operands: protected ones stand for just their bytes, whatever these are, and forced ones
  for the same as ordinary bytes. */
module MarkedCommands {
  import opened Outcomes
  import opened Characters
  import opened Tokens
  import opened Lexing
  import opened SourceText
  import opened Addresses
  import opened AddressParsing
  import opened AddressText
  import opened Patterns
  import opened PatternGrammar
  import opened LineCommands
  import opened CommandGrammar
  import opened LiteralPatterns
  import opened LiteralOperands
  import opened PlainOperands
  import opened CommandTyping

  // ---------------------------------------------------------------- `G`

  /** An operand between slashes stands in the source, with one mark on all of its body. */
  predicate OperandStands(characters: seq<Character>, p: nat, w: string, mark: Interpretation) {
    if mark == Interpretation.Literal then ProtectedAt(characters, p, '/', w)
    else BodyStands(characters, p, '/', w, mark)
  }

  /** The pattern of such an operand: a protected one is its own text, unless it ends in an odd number of backslashes,
    so
    that it does not close. */
  function MarkedPattern(w: string, mark: Interpretation): Result<Pattern> {
    if mark != Interpretation.Literal then BodyPattern('/', w)
    else if TrailingBackslashes(w) % 2 == 0 then Ok(LiteralPattern(w))
    else Fail
  }

  /** A place, `G` or `G~`, an operand and a typed command stand in the source. */
  predicate GlobalStands(characters: seq<Character>, place: Place, inverted: bool, w: string, mark: Interpretation,
                         nested: Typing)
    requires IsPlace(place) && IsTypable(nested)
  {
    var head := PlaceText(place) + if inverted then "G~" else "G";
    && StandsAt(characters, 0, head) && OperandStands(characters, |head|, w, mark)
    && StandsAt(characters, |head| + |w| + 2, TextOf(nested))
    && IsLineEnd(characters, |head| + |w| + 2 + |TextOf(nested)|)
  }

  function GlobalMeaning(place: Place, inverted: bool, w: string, mark: Interpretation, nested: Typing): Result<Command>
    requires IsTypable(nested)
  {
    var address :- PlaceMeaning(place);
    SearchMeaning(address, inverted, MarkedPattern(w, mark), Meaning(None, nested))
  }

  /** `G` and `G~` with such an operand and any command parse to the search for its pattern, and not at all if it has
    none. */
  lemma {:induction false} MarkedGlobalParses(tokens: seq<Token>, characters: seq<Character>, end: SourceLocation,
                                              place: Place,
                                              inverted: bool, w: string, mark: Interpretation, nested: Typing)
    requires IsLocated(characters) && LexedFrom(tokens, 0, characters, end, 0) && IsPlace(place) && IsTypable(nested)
    requires GlobalStands(characters, place, inverted, w, mark, nested)
    ensures AreTokens(tokens) && |tokens| > 0
    ensures ParseCommand(tokens, 0, false) == Whole(tokens, GlobalMeaning(place, inverted, w, mark, nested))
  {
    hide AllTokens, TokenAt, TokenEnd, LexedFrom, StandsAt, AreTokens, IsLocated, IsLineEnd, IsTypable, TextOf,
         PlaceText, PlaceMeaning, PlaceTokens, Meaning, FromMnemonic, ParseCommand, ParseHead, BeginsCommand, IsPlace,
         BodyStands, ProtectedAt, MarkedPattern, SearchMeaning, IsPlainSymbol, OperandStands, DigitAt;
    var head := if inverted then "G~" else "G";
    var position, i := |PlaceText(place)|, PlaceTokens(place);
    StandsSplit(characters, 0, PlaceText(place), head);
    LexedFacts(tokens, 0, characters, end, 0);
    NoDigitFirst(characters, position, head);
    PlaceLexes(tokens, 0, characters, end, 0, place);
    var address := PlaceMeaning(place);
    OperandGlobalParses(tokens, i, characters, end, position, inverted, w, mark, nested,
                        if address.Ok? then address.value else None);
    HeadParses(tokens, 0, characters, end, 0, place);
    HeadGoesOn(tokens, 0, i, address, false);
  }

  lemma {:induction false} NoDigitFirst(characters: seq<Character>, position: nat, text: string)
    requires StandsAt(characters, position, text) && text != "" && !IsDigit(text[0])
    ensures !DigitAt(characters, position)
  {
    assert IsPlain(characters[position + 0], text[0]);
  }

  lemma {:induction false} OperandGlobalParses(tokens: seq<Token>, i: nat, characters: seq<Character>,
                                               end: SourceLocation,
                                               position: nat, inverted: bool, w: string, mark: Interpretation,
                                                   nested: Typing,
                                               address: Option<Address>)
    requires IsLocated(characters) && LexedFrom(tokens, i, characters, end, position) && IsTypable(nested)
    requires var head := if inverted then "G~" else "G"; var q := position + |head| + |w| + 2;
      && StandsAt(characters, position, head) && OperandStands(characters, position + |head|, w, mark)
      && StandsAt(characters, q, TextOf(nested)) && IsLineEnd(characters, q + |TextOf(nested)|)
    ensures AreTokens(tokens) && i < |tokens| && BeginsCommand(tokens[i])
    ensures FromMnemonic(tokens, i, address) ==
            Whole(tokens, SearchMeaning(address, inverted, MarkedPattern(w, mark), Meaning(None, nested)))
  {
    hide AllTokens, TokenAt, TokenEnd, LexedFrom, StandsAt, AreTokens, IsLocated, IsLineEnd, IsTypable, TextOf, Meaning,
         FromMnemonic, BeginsCommand, BodyStands, ProtectedAt, SearchMeaning, IsPlainSymbol, ParseDelimited,
         LiteralPattern, BodyPattern, TrailingBackslashes;
    if mark == Interpretation.Literal {
      var p := position + if inverted then 2 else 1;
      SlashesArePlain();
      OpenAt(characters, p, w);
      SearchLexes(tokens, i, characters, end, position, inverted, '/');
      ProtectedOperandParses(tokens, if inverted then i + 2 else i + 1, characters, end, p, '/', w);
      OperandSearchParses(tokens, i, characters, end, inverted, '/', p + |w| + 2, MarkedPattern(w, mark), nested,
                          address);
    } else {
      MarkedSearchParses(tokens, i, characters, end, position, inverted, '/', w, mark, nested, address);
    }
  }

  lemma {:induction false} OpenAt(characters: seq<Character>, p: nat, w: string)
    requires ProtectedAt(characters, p, '/', w)
    ensures p < |characters| && IsOpenDelimiter(characters[p], '/')
  {
  }

  // ---------------------------------------------------------------- `S`

  /** A place, `S` and two protected texts stand in the source. */
  predicate SubstituteStands(characters: seq<Character>, place: Place, w: string, v: string)
    requires IsPlace(place)
  {
    var head := PlaceText(place) + "S";
    && |characters| == |head| + |w| + |v| + 3 && StandsAt(characters, 0, head)
    && ProtectedAt(characters, |head|, '/', w) && ProtectedAt(characters, |head| + |w| + 1, '/', v)
  }

  function ProtectedExchange(place: Place, w: string, v: string): Result<Command> {
    var address :- PlaceMeaning(place);
    if TrailingBackslashes(w) % 2 == 0 && TrailingBackslashes(v) % 2 == 0 then
      Ok(Command.Substitute(address, LiteralPattern(w), v, false))
    else Fail
  }

  /** `S` with a protected pattern and replacement parses to just these texts, exactly if both end in an even number of
    backslashes, and not at all otherwise. */
  lemma {:induction false} ProtectedSubstituteParses(tokens: seq<Token>, characters: seq<Character>,
                                                     end: SourceLocation,
                                                     place: Place, w: string, v: string)
    requires IsLocated(characters) && LexedFrom(tokens, 0, characters, end, 0) && IsPlace(place)
    requires SubstituteStands(characters, place, w, v)
    ensures AreTokens(tokens) && |tokens| > 0
    ensures ParseCommand(tokens, 0, false) == Whole(tokens, ProtectedExchange(place, w, v))
  {
    hide AllTokens, TokenAt, TokenEnd, LexedFrom, StandsAt, AreTokens, IsLocated, PlaceText, PlaceMeaning, PlaceTokens,
         FromMnemonic, ParseCommand, ParseHead, BeginsCommand, IsPlace, ProtectedAt, TrailingBackslashes,
         LiteralPattern, DigitAt;
    var position, i := |PlaceText(place)|, PlaceTokens(place);
    StandsSplit(characters, 0, PlaceText(place), "S");
    LexedFacts(tokens, 0, characters, end, 0);
    NoDigitFirst(characters, position, "S");
    PlaceLexes(tokens, 0, characters, end, 0, place);
    var address := PlaceMeaning(place);
    OperandsParse(tokens, i, characters, end, position, w, v, if address.Ok? then address.value else None);
    HeadParses(tokens, 0, characters, end, 0, place);
    HeadGoesOn(tokens, 0, i, address, false);
  }

  lemma {:induction false} OperandsParse(tokens: seq<Token>, i: nat, characters: seq<Character>, end: SourceLocation,
                                         position: nat, w: string, v: string, address: Option<Address>)
    requires IsLocated(characters) && LexedFrom(tokens, i, characters, end, position) &&
             StandsAt(characters, position, "S")
    requires |characters| == position + |w| + |v| + 4
    requires ProtectedAt(characters, position + 1, '/', w) && ProtectedAt(characters, position + |w| + 2, '/', v)
    ensures AreTokens(tokens) && i < |tokens| && BeginsCommand(tokens[i])
    ensures FromMnemonic(tokens, i, address) ==
            Whole(tokens, if TrailingBackslashes(w) % 2 == 0 && TrailingBackslashes(v) % 2 == 0 then
                            Ok(Command.Substitute(address, LiteralPattern(w), v, false))
                          else Fail)
  {
    hide AllTokens, TokenAt, TokenEnd, LexedFrom, StandsAt, AreTokens, IsLocated, FromMnemonic, BeginsCommand,
         ProtectedAt, IsPlainSymbol, ParseDelimited, CollectReplacement, TrailingBackslashes, LiteralPattern,
         IsIdentifierPart, CommandEnd;
    var p, r := position + 1, position + |w| + 2;
    SlashesArePlain();
    SymbolIsNoWord('/');
    OpenAt(characters, p, w);
    OpenAt(characters, r, v);
    WordLexes(tokens, i, characters, end, position, "S");
    LettersBegin(tokens[i]);
    DelimiterIsSymbol(tokens, i + 1, characters, end, p, '/');
    ProtectedOperandParses(tokens, i + 1, characters, end, p, '/', w);
    var operand := ParseDelimited(tokens, i + 1);
    if operand.Ok? {
      var next := operand.value.1;
      ClosingColumn(characters, r);
      ProtectedReplacementParses(tokens, next, characters, end, r, '/', v, EndColumn(tokens[next - 1]));
      if TrailingBackslashes(v) % 2 == 0 {
        EndIsEnd(tokens);
        ExchangeBody(tokens, i, '/', v, |tokens| - 1, false, address);
      } else {
        ReplacementFails(tokens, i, '/', address);
      }
    } else {
      ExchangeFails(tokens, i, address);
    }
  }

  lemma {:induction false} EndIsEnd(tokens: seq<Token>)
    requires AreTokens(tokens)
    ensures |tokens| > 0 && EndsOperand(tokens[|tokens| - 1]) &&
            CommandEnd(tokens, |tokens| - 1, false) == Ok(|tokens| - 1)
  {
  }

  lemma {:induction false} ReplacementFails(tokens: seq<Token>, i: nat, delimiter: char, address: Option<Address>)
    requires AreTokens(tokens) && i + 1 < |tokens| && tokens[i].kind == CommandToken && tokens[i].lexeme == "S"
    requires IsSymbol(tokens[i + 1], delimiter) && ParseDelimited(tokens, i + 1).Ok?
    requires var middle := ParseDelimited(tokens, i + 1).value.1;
      CollectReplacement(tokens, middle, "", EndColumn(tokens[middle - 1]), delimiter).Fail?
    ensures FromMnemonic(tokens, i, address).Fail?
  {
    hide AreTokens, CommandEnd, ParseDelimited, CollectReplacement;
    assert ParseBody(tokens, i + 1, address, 'S', Plain, tokens[i], false) ==
           ParseSubstitute(tokens, i + 1, address, false);
  }

  /** The column behind a closing slash. */
  lemma {:induction false} ClosingColumn(characters: seq<Character>, p: nat)
    requires IsLocated(characters) && p + 1 < |characters| && IsOpenDelimiter(characters[p], '/')
    ensures characters[p + 1].location.column <= EndColumn(TokenAt(characters, p))
  {
    OpenDelimiterToken(characters, p, '/');
    NextColumn(characters, p, p + 1);
  }
}
