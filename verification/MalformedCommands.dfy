/** Lines that are no commands. */
module MalformedCommands {
  import opened Outcomes
  import opened Characters
  import opened Tokens
  import opened Lexing
  import opened SourceText
  import opened Addresses
  import opened AddressParsing
  import opened CommandGrammar
  import opened CommandTyping

  // ---------------------------------------------------------------- addresses

  /** A sign needs a number behind it, and a comma an address. */
  lemma {:induction false} BrokenAddress(tokens: seq<Token>, i: nat, chained: bool)
    requires AreTokens(tokens) && i < |tokens|
    ensures (IsSymbol(tokens[i], '+') || IsSymbol(tokens[i], '-')) && tokens[i + 1].kind != NumberToken ==>
      ParseSingle(tokens, i).Fail? && ParseCommand(tokens, i, chained).Fail?
    ensures ParseSingle(tokens, i).Ok? ==>
      var next := ParseSingle(tokens, i).value.1;
      && (tokens[next].kind == CommaToken && !BeginsAddress(tokens[next + 1]) ==>
          ParseCommand(tokens, i, chained).Fail?)
      && (tokens[next].kind == CommaToken && tokens[next + 1].kind != NumberToken &&
          ParseSingle(tokens, next + 1).Fail? ==>
            ParseCommand(tokens, i, chained).Fail?)
  {
    hide ParseBody, Mnemonic;
  }

  /** An address alone is one up to the end of the line, and nothing may follow it. */
  lemma {:induction false} WholeAddress(tokens: seq<Token>, i: nat)
    requires AreTokens(tokens) && i < |tokens|
    ensures ParseWhole(tokens, i) ==
            var prefix := ParsePrefix(tokens, i);
            if prefix.Fail? || !IsLineEndToken(tokens, prefix.value.1) then Fail else Ok((prefix.value.0, |tokens| - 1))
  {
    hide ParsePrefix;
  }

  // ---------------------------------------------------------------- mnemonics

  /** A line has to begin with a letter that is a command, two letters, a shout or a quote; nothing else is a command,
    an empty
    line included. */
  lemma {:induction false} NoMnemonic(tokens: seq<Token>, i: nat, address: Option<Address>, chained: bool)
    requires AreTokens(tokens) && i < |tokens|
    requires !IsSymbol(tokens[i], '!') && !IsSymbol(tokens[i], '"')
    requires tokens[i].kind in {CommandToken, IdentifierToken} ==> |tokens[i].lexeme| > 2
    ensures InChain(tokens, i, address, chained).Fail?
  {
  }

  // ---------------------------------------------------------------- ends

  /** A line ends at the end token, or at a line feed in front of it. */
  predicate IsLineEndToken(tokens: seq<Token>, n: nat) {
    n == |tokens| - 1 || (n == |tokens| - 2 && tokens[n].kind == NewLineToken)
  }

  lemma {:induction false} CommandsEnd(tokens: seq<Token>, n: nat)
    requires AreTokens(tokens) && n < |tokens|
    ensures CommandEnd(tokens, n, false) == if IsLineEndToken(tokens, n) then Ok(|tokens| - 1) else Fail
    ensures CommandEnd(tokens, n, true) == Ok(if tokens[n].kind == NewLineToken then n + 1 else n)
  {
  }

  /** The commands that are letters take nothing behind them. */
  lemma {:induction false} TooMuch(tokens: seq<Token>, i: nat, address: Option<Address>, letters: string)
    requires AreTokens(tokens) && i < |tokens| - 1 && tokens[i].lexeme == letters && !IsLineEndToken(tokens, i + 1)
    requires tokens[i].kind == if |letters| == 1 then CommandToken else IdentifierToken
    requires letters in {"P", "D", "A", "I", "C", "Z", "Q", "p", "d", "a", "i", "c", "z", "q", "QQ", "qq", "FB", "FO",
                         "fb", "fo"}
    ensures FromMnemonic(tokens, i, address).Fail?
  {
    hide AreTokens, IsLineEndToken, CommandEnd;
    CommandsEnd(tokens, i + 1);
  }

  /** A command with operands takes nothing behind them. */
  lemma {:induction false} TooMuchBehind(tokens: seq<Token>, i: nat, n: nat, address: Option<Address>)
    requires AreTokens(tokens) && i < |tokens| - 1 && n < |tokens| && tokens[i].kind == CommandToken &&
             !IsLineEndToken(tokens, n)
    ensures ParseName(tokens, i + 1).Ok? && ParseName(tokens, i + 1).value.1 == n && tokens[i].lexeme in {"M", "B"} ==>
      FromMnemonic(tokens, i, address).Fail?
    ensures ParsePrefix(tokens, i + 1).Ok? && ParsePrefix(tokens, i + 1).value.1 == n && tokens[i].lexeme == "T" ==>
      FromMnemonic(tokens, i, address).Fail?
    ensures n == i + 3 && tokens[i].lexeme == "O" && tokens[i + 2].lexeme in {"M", "m"} ==>
      FromMnemonic(tokens, i, address).Fail?
  {
    hide AreTokens, IsLineEndToken, CommandEnd, ParseName, ParsePrefix;
    CommandsEnd(tokens, n);
    NameOpens(tokens, i + 1);
    if n == i + 3 && tokens[i].lexeme == "O" && tokens[i + 2].lexeme in {"M", "m"} {
      assert Mnemonic(tokens[i]) == Ok(('O', Plain));
      assert ParseBody(tokens, i + 1, address, 'O', Plain, tokens[i], false) ==
             if address.Some? then Fail else ParseOption(tokens, i + 1, false);
      assert Upper(tokens[i + 2].lexeme[0]) == 'M';
    }
  }

  lemma {:induction false} NameOpens(tokens: seq<Token>, i: nat)
    requires AreTokens(tokens) && i < |tokens|
    ensures ParseName(tokens, i).Ok? ==> tokens[i].kind == LeftParenthesisToken
  {
  }

  // ---------------------------------------------------------------- operands

  /** The operand of the line ends at `n`. */
  predicate EndsFirstAt(tokens: seq<Token>, i: nat, n: nat) {
    i <= n < |tokens| && EndsOperand(tokens[n]) && forall k :: i <= k < n ==> !EndsOperand(tokens[k])
  }

  /** A name needs both its parentheses, and something between them. */
  lemma {:induction false} BrokenName(tokens: seq<Token>, i: nat, n: nat, address: Option<Address>)
    requires AreTokens(tokens) && i < |tokens| - 1
    requires tokens[i].kind == CommandToken && tokens[i].lexeme == "M"
    requires || tokens[i + 1].kind != LeftParenthesisToken
             || tokens[i + 2].kind == RightParenthesisToken
             || (EndsFirstAt(tokens, i + 2, n) && forall k :: i + 2 <= k < n ==>
                 tokens[k].kind != RightParenthesisToken)
    ensures ParseName(tokens, i + 1).Fail? && FromMnemonic(tokens, i, address).Fail?
  {
    if tokens[i + 1].kind == LeftParenthesisToken && EndsFirstAt(tokens, i + 2, n)
       && forall k :: i + 2 <= k < n ==> tokens[k].kind != RightParenthesisToken {
      NeverCloses(tokens, i + 2, n);
    }
    hide AreTokens, EndsFirstAt, NameEnd;
  }

  lemma {:induction false} NeverCloses(tokens: seq<Token>, i: nat, n: nat)
    requires AreTokens(tokens) && EndsFirstAt(tokens, i, n)
    requires forall k :: i <= k < n ==> tokens[k].kind != RightParenthesisToken
    ensures NameEnd(tokens, i).Fail?
    decreases n - i
  {
    if i < n {
      NeverCloses(tokens, i + 1, n);
    }
  }

  /** `B` needs a name, or one byte right behind it. */
  lemma {:induction false} BrokenSelection(tokens: seq<Token>, i: nat, address: Option<Address>)
    requires AreTokens(tokens) && i < |tokens| - 1 && tokens[i].kind == CommandToken && tokens[i].lexeme == "B"
    requires tokens[i + 1].kind == LeftParenthesisToken ==> ParseName(tokens, i + 1).Fail?
    requires || EndsOperand(tokens[i + 1]) || tokens[i + 1].kind == RightParenthesisToken || |tokens[i + 1].lexeme| > 1
             || tokens[i + 1].location.offset > tokens[i].location.offset + 1 ||
                 tokens[i + 1].kind == LeftParenthesisToken
    ensures FromMnemonic(tokens, i, address).Fail?
  {
    hide ParseName;
  }

  /** A quoted file name needs both its quotes, something between them, and nothing behind. */
  lemma {:induction false} BrokenQuotes(tokens: seq<Token>, i: nat, n: nat, address: Option<Address>)
    requires AreTokens(tokens) && i < |tokens| - 1 && tokens[i].kind == CommandToken &&
             tokens[i].lexeme in {"R", "W", "L"}
    requires IsSymbol(tokens[i + 1], '"')
    requires || (EndsFirstAt(tokens, i + 2, n) && forall k :: i + 2 <= k < n ==> !IsSymbol(tokens[k], '"'))
             || IsSymbol(tokens[i + 2], '"')
             || (QuoteEnd(tokens, i + 2) == Ok(n) && n + 1 < |tokens| && !EndsOperand(tokens[n + 1]))
    ensures ParseFilename(tokens, i + 1).Fail? && FromMnemonic(tokens, i, address).Fail?
  {
    if EndsFirstAt(tokens, i + 2, n) && forall k :: i + 2 <= k < n ==> !IsSymbol(tokens[k], '"') {
      NeverQuoted(tokens, i + 2, n);
    }
    hide AreTokens, EndsFirstAt;
  }

  lemma {:induction false} NeverQuoted(tokens: seq<Token>, i: nat, n: nat)
    requires AreTokens(tokens) && EndsFirstAt(tokens, i, n) && forall k :: i <= k < n ==> !IsSymbol(tokens[k], '"')
    ensures QuoteEnd(tokens, i).Fail?
    decreases n - i
  {
    if i < n {
      NeverQuoted(tokens, i + 1, n);
    }
  }

  /** A delimited message needs its delimiter again. */
  lemma {:induction false} BrokenMessage(tokens: seq<Token>, i: nat, n: nat, address: Option<Address>)
    requires AreTokens(tokens) && i < |tokens| - 1 && tokens[i].kind == IdentifierToken &&
             tokens[i].lexeme in {"JM", "JP"}
    requires IsMessageDelimiter(tokens[i], tokens[i + 1])
    requires EndsFirstAt(tokens, i + 2, n) && forall k :: i + 2 <= k < n ==> tokens[k].lexeme != tokens[i + 1].lexeme
    ensures FromMnemonic(tokens, i, address).Fail?
  {
    NeverDelimited(tokens, i + 2, n, tokens[i + 1].lexeme);
    hide AreTokens, EndsFirstAt, DelimiterEnd;
  }

  lemma {:induction false} NeverDelimited(tokens: seq<Token>, i: nat, n: nat, delimiter: string)
    requires AreTokens(tokens) && EndsFirstAt(tokens, i, n) && forall k :: i <= k < n ==> tokens[k].lexeme != delimiter
    ensures DelimiterEnd(tokens, i, delimiter).Fail?
    decreases n - i
  {
    if i < n {
      NeverDelimited(tokens, i + 1, n, delimiter);
    }
  }

  /** Patterns and replacements need their delimiter again, unprotected. */
  lemma {:induction false} BrokenPattern(tokens: seq<Token>, i: nat, n: nat, address: Option<Address>)
    requires AreTokens(tokens) && i < |tokens| - 1 && tokens[i].kind == CommandToken && tokens[i].lexeme == "S"
    requires || tokens[i + 1].kind != SymbolToken
             || (EndsFirstAt(tokens, i + 2, n) && forall k :: i + 2 <= k < n ==>
                 !CanClose(tokens[k], tokens[i + 1].lexeme))
    ensures ParseDelimited(tokens, i + 1).Fail? && FromMnemonic(tokens, i, address).Fail?
  {
    hide CanClose, EndsFirstAt;
    if tokens[i + 1].kind == SymbolToken && |tokens[i + 1].lexeme| == 1 {
      assert [tokens[i + 1].lexeme[0]] == tokens[i + 1].lexeme;
      var opening := Grown(PatternGrammar.Source("", []), tokens[i + 1].lexeme, tokens[i + 1].interpretation);
      NeverCollected(tokens, i + 2, n, opening, EndColumn(tokens[i + 1]), tokens[i + 1].lexeme[0]);
    }
    hide AreTokens, CollectPattern, CollectReplacement;
    assert ParseBody(tokens, i + 1, address, 'S', Plain, tokens[i], false) ==
           ParseSubstitute(tokens, i + 1, address, false);
  }

  predicate CanClose(token: Token, delimiter: string) {
    token.lexeme == delimiter && token.interpretation != Interpretation.Literal
  }

  lemma {:induction false} NeverCollected(tokens: seq<Token>, i: nat, n: nat, source: PatternGrammar.Source,
                                          column: nat,
                                          delimiter: char)
    requires AreTokens(tokens) && EndsFirstAt(tokens, i, n) && |source.interpretations| == |source.text|
    requires forall k :: i <= k < n ==> !CanClose(tokens[k], [delimiter])
    ensures CollectPattern(tokens, i, source, column, delimiter).Fail?
    decreases n - i
  {
    hide AreTokens, WithToken, TrailingBackslashes, Spaces, Gap;
    if i < n {
      NeverCollected(tokens, i + 1, n, WithToken(source, tokens[i], column), EndColumn(tokens[i]), delimiter);
    }
  }

  lemma {:induction false} BrokenReplacement(tokens: seq<Token>, i: nat, n: nat, address: Option<Address>)
    requires AreTokens(tokens) && i < |tokens| - 1 && tokens[i].kind == CommandToken && tokens[i].lexeme == "S"
    requires ParseDelimited(tokens, i + 1).Ok?
    requires var middle := ParseDelimited(tokens, i + 1).value.1;
      EndsFirstAt(tokens, middle, n) && forall k :: middle <= k < n ==> !CanClose(tokens[k], tokens[i + 1].lexeme)
    ensures FromMnemonic(tokens, i, address).Fail?
  {
    hide CanClose, EndsFirstAt, ParseDelimited;
    var middle := ParseDelimited(tokens, i + 1).value.1;
    assert [tokens[i + 1].lexeme[0]] == tokens[i + 1].lexeme;
    NeverReplaced(tokens, middle, n, "", EndColumn(tokens[middle - 1]), tokens[i + 1].lexeme[0]);
    hide AreTokens, CollectReplacement;
    assert ParseBody(tokens, i + 1, address, 'S', Plain, tokens[i], false) ==
           ParseSubstitute(tokens, i + 1, address, false);
  }

  lemma {:induction false} NeverReplaced(tokens: seq<Token>, i: nat, n: nat, text: string, column: nat, delimiter: char)
    requires AreTokens(tokens) && EndsFirstAt(tokens, i, n) && forall k :: i <= k < n ==>
             !CanClose(tokens[k], [delimiter])
    ensures CollectReplacement(tokens, i, text, column, delimiter).Fail?
    decreases n - i
  {
    hide AreTokens, TrailingBackslashes, Spaces, Gap;
    if i < n {
      NeverReplaced(tokens, i + 1, n, text + Spaces(Gap(tokens[i], column)) + tokens[i].lexeme, EndColumn(tokens[i]),
                    delimiter);
    }
  }

  // ---------------------------------------------------------------- nested commands

  /** `G` needs a pattern between slashes or question marks, and a command; that one has no address. */
  lemma {:induction false} BrokenSearch(tokens: seq<Token>, i: nat, address: Option<Address>)
    requires AreTokens(tokens) && i < |tokens| - 1 && tokens[i].kind == CommandToken && tokens[i].lexeme == "G"
    ensures var at := if IsSymbol(tokens[i + 1], '~') then i + 2 else i + 1;
      && (!IsSymbol(tokens[at], '/') && !IsSymbol(tokens[at], '?') ==> FromMnemonic(tokens, i, address).Fail?)
      && (ParseDelimited(tokens, at).Ok? ==>
            var next := ParseDelimited(tokens, at).value.1;
            && (EndsOperand(tokens[next]) || BeginsAddress(tokens[next]) || IsSymbol(tokens[next], '*') ==>
                  FromMnemonic(tokens, i, address).Fail?))
  {
    hide ParseDelimited, AreTokens;
    assert ParseBody(tokens, i + 1, address, 'G', Plain, tokens[i], false) == ParseGlobal(tokens, i + 1, address);
    if IsSymbol(tokens[i + 1], '~') {
      SymbolGoesOn(tokens, i + 1, '~');
    }
    var at := if IsSymbol(tokens[i + 1], '~') then i + 2 else i + 1;
    var operand := ParseDelimited(tokens, at);
    if operand.Ok? && (EndsOperand(tokens[operand.value.1]) || BeginsAddress(tokens[operand.value.1]) ||
                       IsSymbol(tokens[operand.value.1], '*')) {
      NestedHasNoAddress(tokens, operand.value.1);
    }
    hide ParseNested;
  }

  lemma {:induction false} NestedHasNoAddress(tokens: seq<Token>, i: nat)
    requires AreTokens(tokens) && i < |tokens| &&
             (EndsOperand(tokens[i]) || BeginsAddress(tokens[i]) || IsSymbol(tokens[i], '*'))
    ensures ParseNested(tokens, i).Fail?
  {
    hide ParsePrefix, AreTokens;
    if !EndsOperand(tokens[i]) {
      AddressIsKept(tokens, i);
    }
    hide ParseCommand;
  }

  /** A command that is typed with an address has one. */
  lemma {:induction false} AddressIsKept(tokens: seq<Token>, i: nat)
    requires AreTokens(tokens) && i < |tokens| && (BeginsAddress(tokens[i]) || IsSymbol(tokens[i], '*'))
    ensures var r := ParseCommand(tokens, i, false); r.Ok? ==> r.value.0.HasAddress()
  {
    hide ParsePrefix, ParseBody, Mnemonic;
    var head := ParseHead(tokens, i);
    if head.Ok? {
      var (at, place) := (head.value.1, head.value.0.address);
      if head.value.0.implicitPrint {
        BodyKeepsAddress(tokens, at, place, 'P', Plain, tokens[i]);
      } else if Mnemonic(tokens[at]).Ok? {
        var mnemonic := Mnemonic(tokens[at]).value;
        BodyKeepsAddress(tokens, at + 1, place, mnemonic.0, mnemonic.1, tokens[at]);
      }
    }
  }

  lemma {:induction false} BodyKeepsAddress(tokens: seq<Token>, i: nat, address: Option<Address>, mnemonic: char,
                                            spelling: Spelling,
                                            command: Token)
    requires AreTokens(tokens) && i < |tokens| && address.Some?
    ensures var r := ParseBody(tokens, i, address, mnemonic, spelling, command, false); r.Ok? ==> r.value.0.HasAddress()
  {
    hide AreTokens, ParseName, ParseFilename, ParseMessage, ParsePrefix, PlainText, OperandEnd, ParseGather, CommandEnd,
         ParseOption, ParseSelect, ParseGlobal, ParseSubstitute;
    if mnemonic == 'G' {
      SearchKeepsAddress(tokens, i, address);
      assert ParseBody(tokens, i, address, 'G', spelling, command, false) == ParseGlobal(tokens, i, address);
    } else if mnemonic == 'S' {
      ExchangeKeepsAddress(tokens, i, address);
      assert ParseBody(tokens, i, address, 'S', spelling, command, false) == ParseSubstitute(tokens, i, address, false);
    }
  }

  lemma {:induction false} SearchKeepsAddress(tokens: seq<Token>, i: nat, address: Option<Address>)
    requires AreTokens(tokens) && i < |tokens| && address.Some?
    ensures var r := ParseGlobal(tokens, i, address); r.Ok? ==> r.value.0.HasAddress()
  {
    hide ParseDelimited, ParseNested;
  }

  lemma {:induction false} ExchangeKeepsAddress(tokens: seq<Token>, i: nat, address: Option<Address>)
    requires AreTokens(tokens) && i < |tokens| && address.Some?
    ensures var r := ParseSubstitute(tokens, i, address, false); r.Ok? ==> r.value.0.HasAddress()
  {
    hide AreTokens, ParseDelimited, CollectReplacement, CommandEnd;
  }

  /** The options are `M` and `I(`, behind a sign; `Q` takes no shout, and a shout needs a command line. */
  lemma {:induction false} BrokenOption(tokens: seq<Token>, i: nat, address: Option<Address>)
    requires AreTokens(tokens) && i < |tokens| - 1
    ensures tokens[i].kind == CommandToken && tokens[i].lexeme == "O"
            && (|| (!IsSymbol(tokens[i + 1], '+') && !IsSymbol(tokens[i + 1], '-'))
                || tokens[i + 2].lexeme !in {"M", "m", "I", "i"}
                || (tokens[i + 2].lexeme in {"I", "i"} &&
                    (i + 3 == |tokens| || tokens[i + 3].kind != LeftParenthesisToken))) ==>
      FromMnemonic(tokens, i, address).Fail?
    ensures tokens[i].kind == CommandToken && tokens[i].lexeme == "Q" && IsSymbol(tokens[i + 1], '!') ==>
      FromMnemonic(tokens, i, address).Fail?
    ensures IsSymbol(tokens[i], '!') && EndsOperand(tokens[i + 1]) ==> FromMnemonic(tokens, i, address).Fail?
  {
    hide CommandEnd;
    if tokens[i].kind == CommandToken && tokens[i].lexeme == "O" {
      if i + 2 < |tokens| {
        UpperOptions(tokens[i + 2].lexeme);
      }
      assert ParseBody(tokens, i + 1, address, 'O', Plain, tokens[i], false) ==
             if address.Some? then Fail else ParseOption(tokens, i + 1, false);
    }
  }

  lemma {:induction false} UpperOptions(lexeme: string)
    ensures |lexeme| == 1 && Upper(lexeme[0]) == 'M' ==> lexeme in {"M", "m"}
    ensures |lexeme| == 1 && Upper(lexeme[0]) == 'I' ==> lexeme in {"I", "i"}
  {
    if |lexeme| == 1 {
      assert lexeme == [lexeme[0]];
    }
  }
}
