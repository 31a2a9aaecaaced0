/** A protected pattern body survives the way through lexer, tokens and operand rebuilding.

  The body of a `G` or `S` pattern whose characters are all marked `Literal` reaches the
  matcher as its own text, exactly if it ends in an even number of backslashes. */
module LiteralOperands {
  import opened Outcomes
  import opened Characters
  import opened Tokens
  import opened Lexing
  import opened SourceText
  import opened AddressText
  import opened Patterns
  import opened PatternGrammar
  import opened LiteralPatterns
  import opened CommandGrammar
  import opened PatternMatcher
  import opened Substitution
  import opened Executor
  import opened LineCommands

  /** A delimited operand with a protected body stands in the source. */
  predicate ProtectedAt(characters: seq<Character>, p: nat, delimiter: char, w: string) {
    && p + |w| + 2 <= |characters|
    && IsOpenDelimiter(characters[p], delimiter) && IsOpenDelimiter(characters[p + |w| + 1], delimiter)
    && forall k :: 0 <= k < |w| ==> IsProtected(characters[p + 1 + k], w[k])
  }

  predicate IsProtected(character: Character, c: char) {
    character.value == c && character.interpretation == Interpretation.Literal
  }

  predicate IsOpenDelimiter(character: Character, delimiter: char) {
    character.value == delimiter && character.interpretation != Interpretation.Literal
  }

  /** A symbol that can delimit a pattern and means nothing inside one, such as `/` and `?`. */
  predicate IsPlainSymbol(c: char) {
    Lexing.IsPrintable(c) && IsDelimiter(c) && c !in {',', '(', ')', '|', '*', '+'}
  }

  /** Columns never grow faster than offsets. */
  lemma {:induction false} ColumnsGrow(characters: seq<Character>, low: nat, high: nat)
    requires IsLocated(characters) && low < high < |characters|
    ensures characters[high].location.column <= characters[low].location.column + high - low
    decreases high
  {
    assert ColumnFollows(characters, high);
    if low < high - 1 {
      ColumnsGrow(characters, low, high - 1);
    } else {
      assert characters[low].location.column >= 0;
    }
  }

  /** What has been collected when `n` bytes of the body are in. */
  predicate Collected(source: Source, delimiter: char, w: string, n: nat)
    requires n <= |w|
  {
    && source.text == [delimiter] + w[..n] && |source.interpretations| == n + 1
    && forall k :: 1 <= k <= n ==> source.interpretations[k] == Interpretation.Literal
  }

  /** A token that starts in the body is protected, ends in the body, and holds body text. */
  lemma {:induction false} BodyToken(characters: seq<Character>, p: nat, delimiter: char, w: string, q: nat)
    requires ProtectedAt(characters, p, delimiter, w) && !IsIdentifierPart(delimiter)
    requires p < q <= p + |w|
    ensures p + |w| + 1 < |characters| && !IsSkippable(characters[q]) && TokenEnd(characters, q) <= p + |w| + 1
    ensures var token := TokenAt(characters, q);
      && !EndsOperand(token) && token.interpretation == Interpretation.Literal &&
          token.location == characters[q].location
      && token.lexeme == w[q - p - 1..TokenEnd(characters, q) - p - 1]
  {
    forall k | q <= k <= p + |w| ensures characters[k].value == w[k - p - 1] {
      assert IsProtected(characters[p + 1 + (k - p - 1)], w[k - p - 1]);
    }
    assert IsProtected(characters[p + 1 + (q - p - 1)], w[q - p - 1]);
  }

  lemma {:induction false} OpenDelimiterToken(characters: seq<Character>, q: nat, delimiter: char)
    requires q < |characters| && IsOpenDelimiter(characters[q], delimiter) && IsPlainSymbol(delimiter)
    ensures !IsSkippable(characters[q]) && TokenEnd(characters, q) == q + 1
    ensures var token := TokenAt(characters, q);
      && token.kind == SymbolToken && token.lexeme == [delimiter] && token.interpretation != Interpretation.Literal
      && token.location == characters[q].location
  {
    assert Text(characters, q, q + 1) == [delimiter];
  }

  /** Without a gap, a token is just put behind the source. */
  lemma {:induction false} TokenCollected(source: Source, token: Token, column: nat, delimiter: char, w: string,
                                          n: nat, m: nat)
    requires n <= m <= |w| && Collected(source, delimiter, w, n)
    requires token.lexeme == w[n..m] && token.interpretation == Interpretation.Literal &&
             token.location.column <= column
    ensures Collected(WithToken(source, token, column), delimiter, w, m)
  {
    var grown := WithToken(source, token, column);
    assert Spaces(0) == "";
    assert grown.text == [delimiter] + w[..n] + w[n..m];
    assert w[..n] + w[n..m] == w[..m];
    assert grown.text == [delimiter] + w[..m];
  }

  /** Collecting goes through the whole body, to the token of the closing delimiter. */
  lemma {:induction false} BodyCollected(tokens: seq<Token>, i: nat, characters: seq<Character>, end: SourceLocation,
                                         p: nat, delimiter: char, w: string, q: nat, source: Source, column: nat)
    returns (last: nat, full: Source, lastColumn: nat)
    requires IsLocated(characters) && ProtectedAt(characters, p, delimiter, w) && !IsIdentifierPart(delimiter)
    requires LexedFrom(tokens, i, characters, end, q) && p < q <= p + |w| + 1
    requires Collected(source, delimiter, w, q - p - 1) && characters[q].location.column <= column
    ensures LexedFrom(tokens, last, characters, end, p + |w| + 1) && Collected(full, delimiter, w, |w|)
    ensures characters[p + |w| + 1].location.column <= lastColumn
    ensures AreTokens(tokens) && CollectPattern(tokens, i, source, column, delimiter) ==
                                 CollectPattern(tokens, last, full, lastColumn, delimiter)
    decreases p + |w| + 1 - q
  {
    hide AreTokens, LexedFrom, AllTokens, TokenEnd, TokenAt, IsLocated, Collected, ProtectedAt, WithToken;
    LexedFacts(tokens, i, characters, end, q);
    if q == p + |w| + 1 {
      return i, source, column;
    }
    BodyToken(characters, p, delimiter, w, q);
    LexedNext(tokens, i, characters, end, q);
    var next := TokenEnd(characters, q);
    var token := tokens[i];
    SourceIsConsistent(source, delimiter, w, q - p - 1);
    TokenCollected(source, token, column, delimiter, w, q - p - 1, next - p - 1);
    NextColumn(characters, q, next);
    OneCollected(tokens, i, source, column, delimiter);
    last, full, lastColumn :=
      BodyCollected(tokens, i + 1, characters, end, p, delimiter, w, next, WithToken(source, token, column),
                    EndColumn(token));
  }

  lemma {:induction false} SourceIsConsistent(source: Source, delimiter: char, w: string, n: nat)
    requires n <= |w| && Collected(source, delimiter, w, n)
    ensures |source.interpretations| == |source.text|
  {
  }

  lemma {:induction false} NextColumn(characters: seq<Character>, q: nat, next: nat)
    requires IsLocated(characters) && q < next < |characters| && TokenEnd(characters, q) == next
    ensures characters[next].location.column <= EndColumn(TokenAt(characters, q))
  {
    ColumnsGrow(characters, q, next);
  }

  /** A protected token never closes an operand. */
  lemma {:induction false} OneCollected(tokens: seq<Token>, i: nat, source: Source, column: nat, delimiter: char)
    requires AreTokens(tokens) && i < |tokens| - 1 && |source.interpretations| == |source.text|
    requires !EndsOperand(tokens[i]) && tokens[i].interpretation == Interpretation.Literal
    ensures CollectPattern(tokens, i, source, column, delimiter) ==
            CollectPattern(tokens, i + 1, WithToken(source, tokens[i], column), EndColumn(tokens[i]), delimiter)
  {
  }

  // ---------------------------------------------------------------- the whole operand

  /** Backslashes in front of a text count only if the text is all backslashes. */
  lemma {:induction false} TrailingBehind(before: string, text: string)
    ensures TrailingBackslashes(text) <= |text|
    ensures TrailingBackslashes(before + text) ==
            TrailingBackslashes(text) + if TrailingBackslashes(text) == |text| then TrailingBackslashes(before) else 0
    decreases |text|
  {
    if text == "" {
      assert before + text == before;
    } else {
      var shorter := text[..|text| - 1];
      assert (before + text)[..|before + text| - 1] == before + shorter;
      TrailingBehind(before, shorter);
    }
  }

  lemma {:induction false} SameTrailing(delimiter: char, w: string)
    requires delimiter != '\\'
    ensures TrailingBackslashes([delimiter] + w) == TrailingBackslashes(w)
  {
    TrailingBehind([delimiter], w);
  }

  /** What is collected later comes behind what was there. */
  lemma {:induction false} CollectingExtends(tokens: seq<Token>, i: nat, source: Source, column: nat, delimiter: char)
    requires AreTokens(tokens) && i < |tokens| && |source.interpretations| == |source.text|
    ensures var r := CollectPattern(tokens, i, source, column, delimiter);
      r.Ok? ==>
      && |source.text| < |r.value.0.text| && source.text <= r.value.0.text
      && source.interpretations <= r.value.0.interpretations
    decreases |tokens| - i
  {
    if !EndsOperand(tokens[i]) {
      var grown := WithToken(source, tokens[i], column);
      assert IsContent(tokens[i]);
      CollectingExtends(tokens, i + 1, grown, EndColumn(tokens[i]), delimiter);
    }
  }

  /** The closing delimiter ends the operand behind an even number of backslashes, and joins it otherwise. */
  lemma {:induction false} ClosingCollected(tokens: seq<Token>, i: nat, source: Source, column: nat, delimiter: char,
                                            w: string)
    requires AreTokens(tokens) && i < |tokens| && Collected(source, delimiter, w, |w|) && delimiter != '\\'
    requires tokens[i].kind == SymbolToken && tokens[i].lexeme == [delimiter]
    requires tokens[i].interpretation != Interpretation.Literal && tokens[i].location.column <= column
    ensures var r := CollectPattern(tokens, i, source, column, delimiter);
      if TrailingBackslashes(w) % 2 == 0 then r.Ok? && r.value.1 == i + 1 && IsProtectedBody(r.value.0, delimiter, w)
      else r.Ok? ==> BeginsProtected(r.value.0, delimiter, w) && |r.value.0.text| > |w| + 2
  {
    hide AreTokens, BeginsProtected, Collected, TrailingBackslashes, WithToken, CollectPattern;
    SourceIsConsistent(source, delimiter, w, |w|);
    var grown := WithToken(source, tokens[i], column);
    ClosingGrown(source, tokens[i], column, delimiter, w);
    ClosingStep(tokens, i, source, column, delimiter, w);
    if TrailingBackslashes(w) % 2 != 0 {
      CollectingExtends(tokens, i + 1, grown, EndColumn(tokens[i]), delimiter);
      var r := CollectPattern(tokens, i, source, column, delimiter);
      if r.Ok? {
        StillBegins(grown, r.value.0, delimiter, w);
      }
    }
  }

  /** The body with its closing delimiter. */
  lemma {:induction false} ClosingGrown(source: Source, token: Token, column: nat, delimiter: char, w: string)
    requires Collected(source, delimiter, w, |w|) && token.lexeme == [delimiter]
    requires token.interpretation != Interpretation.Literal && token.location.column <= column
    ensures |source.interpretations| == |source.text|
    ensures IsProtectedBody(WithToken(source, token, column), delimiter, w)
  {
    var grown := WithToken(source, token, column);
    assert Spaces(0) == "" && source.text + "" == source.text && w[..|w|] == w;
    assert grown.text == source.text + [delimiter];
    assert grown.text[1..|w| + 1] == w;
  }

  lemma {:induction false} ClosingStep(tokens: seq<Token>, i: nat, source: Source, column: nat, delimiter: char,
                                       w: string)
    requires AreTokens(tokens) && i < |tokens| && Collected(source, delimiter, w, |w|) && delimiter != '\\'
    requires tokens[i].kind == SymbolToken && tokens[i].lexeme == [delimiter]
    requires tokens[i].interpretation != Interpretation.Literal && tokens[i].location.column <= column
    ensures |source.interpretations| == |source.text| && i + 1 < |tokens|
    ensures CollectPattern(tokens, i, source, column, delimiter) ==
            var grown := WithToken(source, tokens[i], column);
            if TrailingBackslashes(w) % 2 == 0 then Ok((grown, i + 1))
            else CollectPattern(tokens, i + 1, grown, EndColumn(tokens[i]), delimiter)
  {
    SameTrailing(delimiter, w);
    assert source.text + Spaces(0) == [delimiter] + w by {
      assert Spaces(0) == "" && w[..|w|] == w;
    }
    hide TrailingBackslashes;
  }

  lemma {:induction false} StillBegins(source: Source, longer: Source, delimiter: char, w: string)
    requires IsProtectedBody(source, delimiter, w) && |longer.interpretations| == |longer.text|
    requires source.text <= longer.text && source.interpretations <= longer.interpretations
    ensures BeginsProtected(longer, delimiter, w)
  {
    assert longer.text[1..|w| + 1] == source.text[1..|w| + 1];
  }

  /** A delimited operand whose body is protected parses to the pattern of its own text exactly if the body ends in an
    even number of backslashes; otherwise it does not parse at all. */
  lemma {:induction false} ProtectedOperandParses(tokens: seq<Token>, i: nat, characters: seq<Character>,
                                                  end: SourceLocation, p: nat, delimiter: char, w: string)
    requires IsLocated(characters) && ProtectedAt(characters, p, delimiter, w) && IsPlainSymbol(delimiter)
    requires LexedFrom(tokens, i, characters, end, p)
    ensures AreTokens(tokens) && i < |tokens|
    ensures var r := ParseDelimited(tokens, i);
      && (r.Ok? <==> TrailingBackslashes(w) % 2 == 0)
      && (r.Ok? ==>
            && r.value.0 == LiteralPattern(w) && LexedFrom(tokens, r.value.1, characters, end, p + |w| + 2)
            && r.value.1 > 0 && tokens[r.value.1 - 1] == TokenAt(characters, p + |w| + 1))
  {
    hide AllTokens, LexedFrom, TokenEnd, TokenAt, IsLocated, AreTokens, CollectPattern, ParsePattern,
         TrailingBackslashes, LiteralPattern, BeginsProtected, IsProtectedBody, Collected;
    LexedFacts(tokens, i, characters, end, p);
    OpenDelimiterToken(characters, p, delimiter);
    LexedNext(tokens, i, characters, end, p);
    NextColumn(characters, p, p + 1);
    LexedFacts(tokens, i + 1, characters, end, p + 1);
    var opening := Grown(Source("", []), tokens[i].lexeme, tokens[i].interpretation);
    OpeningCollected(opening, tokens[i], delimiter, w);
    var last, full, column := BodyCollected(tokens, i + 1, characters, end, p, delimiter, w, p + 1, opening,
                                            EndColumn(tokens[i]));
    OpenDelimiterToken(characters, p + |w| + 1, delimiter);
    LexedFacts(tokens, last, characters, end, p + |w| + 1);
    LexedNext(tokens, last, characters, end, p + |w| + 1);
    ClosingCollected(tokens, last, full, column, delimiter, w);
    var r := CollectPattern(tokens, i + 1, opening, EndColumn(tokens[i]), delimiter);
    if TrailingBackslashes(w) % 2 == 0 {
      ProtectedParses(r.value.0, delimiter, w);
    } else if r.Ok? {
      LongerBodyFails(r.value.0, delimiter, w);
    }
  }

  lemma {:induction false} OpeningCollected(opening: Source, token: Token, delimiter: char, w: string)
    requires token.lexeme == [delimiter] && opening == Grown(Source("", []), token.lexeme, token.interpretation)
    ensures Collected(opening, delimiter, w, 0) && |opening.interpretations| == |opening.text|
  {
    assert opening.text == [delimiter] + w[..0];
  }

  lemma {:induction false} ProtectedParses(source: Source, delimiter: char, w: string)
    requires IsProtectedBody(source, delimiter, w) && IsPlainSymbol(delimiter)
    ensures source.Valid() && ParsePattern(source) == Ok(LiteralPattern(w))
  {
    ProtectedBodyParses(source, delimiter, w);
  }

  // ---------------------------------------------------------------- the replacement of `S`

  /** A protected token joins a replacement as it is. */
  lemma {:induction false} OneReplaced(tokens: seq<Token>, i: nat, text: string, column: nat, delimiter: char)
    requires AreTokens(tokens) && i < |tokens| - 1
    requires !EndsOperand(tokens[i]) && tokens[i].interpretation == Interpretation.Literal
    requires tokens[i].location.column <= column
    ensures CollectReplacement(tokens, i, text, column, delimiter) ==
            CollectReplacement(tokens, i + 1, text + tokens[i].lexeme, EndColumn(tokens[i]), delimiter)
  {
    assert Spaces(0) == "" && text + "" == text;
  }

  /** Collecting goes through the whole protected replacement, to the token of the closing delimiter. */
  lemma {:induction false} ReplacementCollected(tokens: seq<Token>, i: nat, characters: seq<Character>,
                                                end: SourceLocation, p: nat, delimiter: char, v: string, q: nat,
                                                column: nat)
    returns (last: nat, lastColumn: nat)
    requires IsLocated(characters) && ProtectedAt(characters, p, delimiter, v) && !IsIdentifierPart(delimiter)
    requires LexedFrom(tokens, i, characters, end, q) && p < q <= p + |v| + 1
    requires characters[q].location.column <= column
    ensures LexedFrom(tokens, last, characters, end, p + |v| + 1)
    ensures characters[p + |v| + 1].location.column <= lastColumn
    ensures AreTokens(tokens) && CollectReplacement(tokens, i, v[..q - p - 1], column, delimiter) ==
                                 CollectReplacement(tokens, last, v, lastColumn, delimiter)
    decreases p + |v| + 1 - q
  {
    hide AreTokens, LexedFrom, AllTokens, TokenEnd, TokenAt, IsLocated, ProtectedAt, CollectReplacement, EndsOperand;
    LexedFacts(tokens, i, characters, end, q);
    if q == p + |v| + 1 {
      assert v[..|v|] == v;
      return i, column;
    }
    BodyToken(characters, p, delimiter, v, q);
    LexedNext(tokens, i, characters, end, q);
    var next := TokenEnd(characters, q);
    LexedFacts(tokens, i + 1, characters, end, next);
    NextColumn(characters, q, next);
    OneReplaced(tokens, i, v[..q - p - 1], column, delimiter);
    assert v[..q - p - 1] + v[q - p - 1..next - p - 1] == v[..next - p - 1];
    last, lastColumn := ReplacementCollected(tokens, i + 1, characters, end, p, delimiter, v, next,
                                             EndColumn(tokens[i]));
  }

  /** A protected replacement in front of the end of the input is collected as its own text, exactly if it ends in an
    even number of backslashes; otherwise it never closes. */
  lemma {:induction false} ProtectedReplacementParses(tokens: seq<Token>, i: nat, characters: seq<Character>,
                                                      end: SourceLocation, p: nat, delimiter: char, v: string,
                                                      column: nat)
    requires IsLocated(characters) && ProtectedAt(characters, p, delimiter, v) && IsPlainSymbol(delimiter)
    requires p + |v| + 2 == |characters| && characters[p + 1].location.column <= column
    requires LexedFrom(tokens, i, characters, end, p + 1)
    ensures AreTokens(tokens) && i < |tokens| && tokens[|tokens| - 1].kind == EndToken
    ensures CollectReplacement(tokens, i, "", column, delimiter) ==
            if TrailingBackslashes(v) % 2 == 0 then Ok((v, |tokens| - 1)) else Fail
  {
    hide AllTokens, LexedFrom, TokenEnd, TokenAt, IsLocated, AreTokens, CollectReplacement, TrailingBackslashes;
    LexedFacts(tokens, i, characters, end, p + 1);
    assert v[..0] == "";
    var last, lastColumn := ReplacementCollected(tokens, i, characters, end, p, delimiter, v, p + 1, column);
    OpenDelimiterToken(characters, p + |v| + 1, delimiter);
    LexedNext(tokens, last, characters, end, p + |v| + 1);
    LexedToEnd(tokens, last + 1, characters, end);
    ReplacementCloses(tokens, last, v, lastColumn, delimiter);
  }

  lemma {:induction false} ReplacementCloses(tokens: seq<Token>, i: nat, v: string, column: nat, delimiter: char)
    requires AreTokens(tokens) && i == |tokens| - 2 && tokens[i + 1].kind == EndToken
    requires tokens[i].kind == SymbolToken && tokens[i].lexeme == [delimiter]
    requires tokens[i].interpretation != Interpretation.Literal && tokens[i].location.column <= column
    ensures CollectReplacement(tokens, i, v, column, delimiter) ==
            if TrailingBackslashes(v) % 2 == 0 then Ok((v, i + 1)) else Fail
  {
    assert Spaces(0) == "" && v + "" == v;
    hide TrailingBackslashes;
  }

  /** Escaped text ends in an even number of backslashes. */
  lemma {:induction false} EscapedIsEven(w: string)
    ensures TrailingBackslashes(Escaped(w)) % 2 == 0
  {
    if w != "" {
      var rest := Escaped(w[1..]);
      EscapedIsEven(w[1..]);
      TrailingBehind(['\\', w[0]], rest);
      assert ['\\', w[0]][..1] == "\\" && "\\"[..0] == "";
      assert TrailingBackslashes("\\") == 1;
    }
  }

  /** `G` with such a pattern selects exactly the lines in which the text occurs. */
  lemma {:induction false} ProtectedPatternSelects(w: string, inverted: bool, line: string)
    ensures Selected(LiteralPattern(w), inverted, line) <==> inverted != Occurs(line, w)
  {
    var p := LiteralPattern(w);
    if HasMatch(p, line) {
      var i: nat, j: nat :| i <= |line| && Matches(p, line, i, j);
      LiteralPatternMatches(w, line, i, j);
    } else {
      forall k: nat ensures !OccursAt(line, w, k) {
        if OccursAt(line, w, k) {
          LiteralPatternMatches(w, line, k, k + |w|);
        }
      }
    }
  }
}
