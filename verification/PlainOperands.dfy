/** Patterns and replacements as they are usually typed: ordinary bytes, or bytes forced to be special, between
  delimiters.

  The body of such an operand reaches the pattern parser as it stands in the source, and a replacement is its own text,
  if it closes with the delimiter behind it and not before: a delimiter inside stands behind a backslash. */
module PlainOperands {
  import opened Outcomes
  import opened Characters
  import opened Tokens
  import opened Lexing
  import opened SourceText
  import opened AddressText
  import opened Spans
  import opened Patterns
  import opened PatternGrammar
  import opened PatternMetadata
  import opened CommandGrammar
  import opened LiteralOperands

  /** Every delimiter in the text stands behind an odd number of backslashes, and an even number of them ends it: so it
    closes with the next delimiter, and not before. */
  predicate ClosesBehind(delimiter: char, w: string) {
    && TrailingBackslashes(w) % 2 == 0
    && forall k :: 0 <= k < |w| && w[k] == delimiter ==> TrailingBackslashes(w[..k]) % 2 == 1
  }

  /** The body of an operand stands between two delimiters. */
  predicate BodyStands(characters: seq<Character>, p: nat, delimiter: char, w: string, mark: Interpretation) {
    && IsPlainSymbol(delimiter) && p + |w| + 2 <= |characters|
    && IsOpenDelimiter(characters[p], delimiter) && IsOpenDelimiter(characters[p + |w| + 1], delimiter)
    && IsSpan(characters, p + 1, p + |w| + 1, mark) && Text(characters, p + 1, p + |w| + 1) == w
    && ClosesBehind(delimiter, w)
  }

  lemma {:induction false} BodyFacts(characters: seq<Character>, p: nat, delimiter: char, w: string,
                                     mark: Interpretation, q: nat)
    requires BodyStands(characters, p, delimiter, w, mark) && p < q <= p + |w| + 1
    ensures p + |w| + 1 < |characters| && IsPlainSymbol(delimiter)
    ensures IsBreak(characters, p + |w| + 1) && IsSpan(characters, q, p + |w| + 1, mark)
    ensures IsOpenDelimiter(characters[p], delimiter) && IsOpenDelimiter(characters[p + |w| + 1], delimiter)
    ensures Text(characters, p + 1, p + 1) == "" && TrailingBackslashes(w) % 2 == 0
    ensures Text(characters, p + 1, p + |w| + 1) == w
  {
  }

  /** A token of the body does not close it. */
  lemma {:induction false} BodyTokenStays(token: Token, characters: seq<Character>, p: nat, delimiter: char, w: string,
                                          mark: Interpretation, q: nat)
    requires BodyStands(characters, p, delimiter, w, mark) && p < q
    requires IsTokenOf(token, characters, q, p + |w| + 1, mark)
    ensures p + 1 <= token.location.offset <= |characters| && !EndsOperand(token)
    ensures token.lexeme == [delimiter] ==> TrailingBackslashes(Text(characters, p + 1, token.location.offset)) % 2 == 1
  {
    hide TrailingBackslashes;
    var s := token.location.offset;
    assert token.lexeme[0] == characters[s].value == Text(characters, p + 1, p + |w| + 1)[s - p - 1];
    assert Text(characters, p + 1, s) == w[..s - p - 1];
  }

  /** What has been collected of a pattern when the body is in up to position `q`. */
  predicate Collecting(source: Source, characters: seq<Character>, p: nat, delimiter: char, q: nat)
    requires p < q <= |characters|
  {
    && source.text == [delimiter] + Text(characters, p + 1, q) && |source.interpretations| == |source.text|
    && forall k :: 0 <= k < |source.text| ==> source.interpretations[k] != Interpretation.Literal
  }

  lemma {:induction false} CollectingGrows(source: Source, token: Token, column: nat, characters: seq<Character>,
                                           p: nat,
                                           delimiter: char, q: nat, s: nat, e: nat)
    requires p < q <= s <= e <= |characters| && Collecting(source, characters, p, delimiter, q)
    requires (forall k :: q <= k < s ==> characters[k].value == ' ') && Gap(token, column) == s - q
    requires token.lexeme == Text(characters, s, e) && token.interpretation != Interpretation.Literal
    ensures |source.interpretations| == |source.text|
    ensures Collecting(WithToken(source, token, column), characters, p, delimiter, e)
    ensures source.text + Spaces(Gap(token, column)) == [delimiter] + Text(characters, p + 1, s)
  {
    TextSplits(characters, p + 1, q, s, e);
    TextSplits(characters, p + 1, q, s, s);
    assert Text(characters, s, s) == "";
    hide Text, Spaces;
    assert WithToken(source, token, column).text ==
           [delimiter] + (Text(characters, p + 1, q) + Spaces(s - q) + Text(characters, s, e));
    assert source.text + Spaces(s - q) == [delimiter] + (Text(characters, p + 1, q) + Spaces(s - q) + "");
  }

  /** Collecting goes through the body, and the closing delimiter ends it. */
  lemma {:induction false} BodyIsCollected(tokens: seq<Token>, i: nat, characters: seq<Character>, end: SourceLocation,
                                           p: nat, delimiter: char, w: string, mark: Interpretation, q: nat,
                                           source: Source, column: nat)
    returns (full: Source, next: nat)
    requires IsLocated(characters) && BodyStands(characters, p, delimiter, w, mark) && p < q <= p + |w| + 1
    requires LexedFrom(tokens, i, characters, end, q) && Collecting(source, characters, p, delimiter, q)
    requires column == characters[q].location.column
    ensures AreTokens(tokens) && i < |tokens| && |source.interpretations| == |source.text|
    ensures CollectPattern(tokens, i, source, column, delimiter) == Ok((full, next))
    ensures |full.interpretations| == |full.text| && full.text == [delimiter] + w + [delimiter]
    ensures forall k :: 0 <= k < |full.text| ==> full.interpretations[k] != Interpretation.Literal
    ensures i < next < |tokens| && LexedFrom(tokens, next, characters, end, p + |w| + 2)
    ensures tokens[next - 1] == TokenAt(characters, p + |w| + 1)
    decreases p + |w| + 1 - q
  {
    hide LexedFrom, TokenAt, TokenEnd, AreTokens, IsLocated, AllTokens, Skipped, IsTokenOf, BodyStands, IsSpan,
         Collecting, WithToken, CollectPattern, TrailingBackslashes, Text;
    BodyFacts(characters, p, delimiter, w, mark, q);
    SpanNext(tokens, i, characters, end, q, p + |w| + 1, mark);
    var s := Skipped(characters, q);
    LineColumns(characters, p, delimiter, w, mark, q, s);
    if s == p + |w| + 1 {
      OpenDelimiterToken(characters, s, delimiter);
      LexedNext(tokens, i, characters, end, s);
      DelimiterText(characters, s, delimiter);
      CollectingGrows(source, tokens[i], column, characters, p, delimiter, q, s, s + 1);
      full, next := WithToken(source, tokens[i], column), i + 1;
      BodyCloses(tokens, i, source, column, delimiter, w);
      CollectedText(full, characters, p, delimiter, w);
      LexedFacts(tokens, next, characters, end, s + 1);
    } else {
      var e := TokenEnd(characters, s);
      MarkedOpen(tokens[i], characters, q, p + |w| + 1, mark);
      CollectingGrows(source, tokens[i], column, characters, p, delimiter, q, s, e);
      BodyTokenStays(tokens[i], characters, p, delimiter, w, mark, q);
      TokenStands(tokens[i], characters, s);
      NoBackslash(delimiter);
      SameTrailing(delimiter, Text(characters, p + 1, s));
      LexedFacts(tokens, i + 1, characters, end, e);
      BodyGoesOn(tokens, i, source, column, delimiter);
      EndOfToken(characters, p, delimiter, w, mark, s, tokens[i]);
      full, next := BodyIsCollected(tokens, i + 1, characters, end, p, delimiter, w, mark, e,
                                    WithToken(source, tokens[i], column), EndColumn(tokens[i]));
    }
  }

  lemma {:induction false} TokenStands(token: Token, characters: seq<Character>, s: nat)
    requires IsLocated(characters) && s < |characters| && token.location == characters[s].location
    ensures token.location.offset == s
  {
  }

  lemma {:induction false} NoBackslash(delimiter: char)
    requires IsPlainSymbol(delimiter)
    ensures delimiter != '\\'
  {
  }

  lemma {:induction false} MarkedOpen(token: Token, characters: seq<Character>, a: nat, b: nat, mark: Interpretation)
    requires IsTokenOf(token, characters, a, b, mark) && mark != Interpretation.Literal
    ensures token.interpretation != Interpretation.Literal
  {
  }

  /** Columns count the bytes of the body. */
  lemma {:induction false} LineColumns(characters: seq<Character>, p: nat, delimiter: char, w: string,
                                       mark: Interpretation,
                                       low: nat, high: nat)
    requires IsLocated(characters) && BodyStands(characters, p, delimiter, w, mark)
    requires p < low <= high <= p + |w| + 1
    ensures characters[high].location.column == characters[low].location.column + high - low
    ensures mark != Interpretation.Literal
  {
    SpanColumns(characters, low, high, mark);
  }

  lemma {:induction false} EndOfToken(characters: seq<Character>, p: nat, delimiter: char, w: string,
                                      mark: Interpretation,
                                      s: nat, token: Token)
    requires IsLocated(characters) && BodyStands(characters, p, delimiter, w, mark) && p < s < p + |w| + 1
    requires TokenEnd(characters, s) <= p + |w| + 1 && token.location == characters[s].location
    requires token.lexeme == Text(characters, s, TokenEnd(characters, s))
    ensures characters[TokenEnd(characters, s)].location.column == EndColumn(token)
  {
    hide BodyStands, TokenEnd, IsLocated;
    LineColumns(characters, p, delimiter, w, mark, s, TokenEnd(characters, s));
  }

  lemma {:induction false} DelimiterText(characters: seq<Character>, s: nat, delimiter: char)
    requires s < |characters| && characters[s].value == delimiter
    ensures Text(characters, s, s + 1) == [delimiter]
  {
  }

  lemma {:induction false} CollectedText(full: Source, characters: seq<Character>, p: nat, delimiter: char, w: string)
    requires p + |w| + 2 <= |characters| && Text(characters, p + 1, p + |w| + 1) == w
    requires characters[p + |w| + 1].value == delimiter && Collecting(full, characters, p, delimiter, p + |w| + 2)
    ensures full.text == [delimiter] + w + [delimiter] && |full.interpretations| == |full.text|
    ensures forall k :: 0 <= k < |full.text| ==> full.interpretations[k] != Interpretation.Literal
  {
    assert Text(characters, p + 1, p + |w| + 2) == w + [delimiter];
  }

  lemma {:induction false} BodyCloses(tokens: seq<Token>, i: nat, source: Source, column: nat, delimiter: char,
                                      w: string)
    requires AreTokens(tokens) && i < |tokens| && |source.interpretations| == |source.text| && delimiter != '\\'
    requires tokens[i].kind == SymbolToken && tokens[i].lexeme == [delimiter]
    requires tokens[i].interpretation != Interpretation.Literal
    requires source.text + Spaces(Gap(tokens[i], column)) == [delimiter] + w && TrailingBackslashes(w) % 2 == 0
    ensures CollectPattern(tokens, i, source, column, delimiter) == Ok((WithToken(source, tokens[i], column), i + 1))
  {
    SameTrailing(delimiter, w);
    hide TrailingBackslashes;
  }

  lemma {:induction false} BodyGoesOn(tokens: seq<Token>, i: nat, source: Source, column: nat, delimiter: char)
    requires AreTokens(tokens) && i + 1 < |tokens| && |source.interpretations| == |source.text|
    requires !EndsOperand(tokens[i])
    requires tokens[i].lexeme == [delimiter] ==>
      TrailingBackslashes(source.text + Spaces(Gap(tokens[i], column))) % 2 == 1
    ensures CollectPattern(tokens, i, source, column, delimiter) ==
            CollectPattern(tokens, i + 1, WithToken(source, tokens[i], column), EndColumn(tokens[i]), delimiter)
  {
  }

  /** A delimited operand is the pattern of its body's bytes without metadata. */
  lemma {:induction false} PlainOperandParses(tokens: seq<Token>, i: nat, characters: seq<Character>,
                                              end: SourceLocation,
                                              p: nat, delimiter: char, w: string, mark: Interpretation)
    requires IsLocated(characters) && BodyStands(characters, p, delimiter, w, mark)
    requires LexedFrom(tokens, i, characters, end, p)
    ensures AreTokens(tokens) && i < |tokens|
    ensures var r := ParseDelimited(tokens, i); var pattern := ParsePattern(Source([delimiter] + w + [delimiter], []));
      && r.Ok? == pattern.Ok?
      && (r.Ok? ==>
            && r.value.0 == pattern.value && LexedFrom(tokens, r.value.1, characters, end, p + |w| + 2)
            && r.value.1 > 0 && tokens[r.value.1 - 1] == TokenAt(characters, p + |w| + 1))
  {
    hide LexedFrom, TokenAt, TokenEnd, AreTokens, IsLocated, AllTokens, BodyStands, IsSpan, CollectPattern,
         ParsePattern, TrailingBackslashes, Text;
    LexedFacts(tokens, i, characters, end, p);
    BodyFacts(characters, p, delimiter, w, mark, p + 1);
    OpenDelimiterToken(characters, p, delimiter);
    LexedNext(tokens, i, characters, end, p);
    LexedFacts(tokens, i + 1, characters, end, p + 1);
    var opening := Grown(Source("", []), tokens[i].lexeme, tokens[i].interpretation);
    assert opening.text == [delimiter] + Text(characters, p + 1, p + 1);
    BehindDelimiter(characters, p, tokens[i], delimiter);
    var full, next := BodyIsCollected(tokens, i + 1, characters, end, p, delimiter, w, mark, p + 1, opening,
                                      EndColumn(tokens[i]));
    UnmarkedParses(full, Source([delimiter] + w + [delimiter], []));
  }

  lemma {:induction false} BehindDelimiter(characters: seq<Character>, p: nat, token: Token, delimiter: char)
    requires IsLocated(characters) && p + 1 < |characters| && characters[p].value == delimiter != '\n'
    requires token.location == characters[p].location && |token.lexeme| == 1
    ensures characters[p + 1].location.column == EndColumn(token)
  {
    assert ColumnFollows(characters, p + 1);
  }

  lemma {:induction false} UnmarkedParses(s: Source, t: Source)
    requires |s.interpretations| == |s.text| && t == Source(s.text, [])
    requires forall k :: 0 <= k < |s.text| ==> s.interpretations[k] != Interpretation.Literal
    ensures ParsePattern(s) == ParsePattern(t)
  {
    AlikeParse(s, t);
  }

  // ---------------------------------------------------------------- replacements

  /** Collecting a replacement goes through the body, and leaves the closing delimiter out. */
  lemma {:induction false} ReplacementIsCollected(tokens: seq<Token>, i: nat, characters: seq<Character>,
                                                  end: SourceLocation, p: nat, delimiter: char, w: string,
                                                  mark: Interpretation, q: nat, column: nat)
    returns (next: nat)
    requires IsLocated(characters) && BodyStands(characters, p, delimiter, w, mark) && p < q <= p + |w| + 1
    requires LexedFrom(tokens, i, characters, end, q) && column == characters[q].location.column
    ensures AreTokens(tokens) && i < |tokens|
    ensures CollectReplacement(tokens, i, Text(characters, p + 1, q), column, delimiter) == Ok((w, next))
    ensures i < next < |tokens| && LexedFrom(tokens, next, characters, end, p + |w| + 2)
    decreases p + |w| + 1 - q
  {
    hide LexedFrom, TokenAt, TokenEnd, AreTokens, IsLocated, AllTokens, Skipped, IsTokenOf, BodyStands, IsSpan,
         CollectReplacement, TrailingBackslashes, Text, Spaces;
    BodyFacts(characters, p, delimiter, w, mark, q);
    SpanNext(tokens, i, characters, end, q, p + |w| + 1, mark);
    var s := Skipped(characters, q);
    LineColumns(characters, p, delimiter, w, mark, q, s);
    TextEmpty(characters, s);
    TextSplits(characters, p + 1, q, s, s);
    if s == p + |w| + 1 {
      OpenDelimiterToken(characters, s, delimiter);
      LexedNext(tokens, i, characters, end, s);
      LexedFacts(tokens, i + 1, characters, end, s + 1);
      next := i + 1;
      ReplacementStops(tokens, i, Text(characters, p + 1, q), column, delimiter, w);
    } else {
      var e := TokenEnd(characters, s);
      TextSplits(characters, p + 1, q, s, e);
      BodyTokenStays(tokens[i], characters, p, delimiter, w, mark, q);
      TokenStands(tokens[i], characters, s);
      NothingAdded(Text(characters, p + 1, q) + Spaces(s - q));
      LexedFacts(tokens, i + 1, characters, end, e);
      ReplacementGoesOn(tokens, i, Text(characters, p + 1, q), column, delimiter);
      EndOfToken(characters, p, delimiter, w, mark, s, tokens[i]);
      next := ReplacementIsCollected(tokens, i + 1, characters, end, p, delimiter, w, mark, e, EndColumn(tokens[i]));
    }
  }

  lemma {:induction false} NothingAdded(text: string)
    ensures text + "" == text
  {
  }

  lemma {:induction false} TextEmpty(characters: seq<Character>, s: nat)
    requires s <= |characters|
    ensures Text(characters, s, s) == ""
  {
  }

  lemma {:induction false} ReplacementStops(tokens: seq<Token>, i: nat, text: string, column: nat, delimiter: char,
                                            w: string)
    requires AreTokens(tokens) && i + 1 < |tokens|
    requires tokens[i].kind == SymbolToken && tokens[i].lexeme == [delimiter]
    requires tokens[i].interpretation != Interpretation.Literal
    requires text + Spaces(Gap(tokens[i], column)) + "" == w && TrailingBackslashes(w) % 2 == 0
    ensures CollectReplacement(tokens, i, text, column, delimiter) == Ok((w, i + 1))
  {
    hide TrailingBackslashes;
    assert text + Spaces(Gap(tokens[i], column)) == w;
  }

  lemma {:induction false} ReplacementGoesOn(tokens: seq<Token>, i: nat, text: string, column: nat, delimiter: char)
    requires AreTokens(tokens) && i + 1 < |tokens| && !EndsOperand(tokens[i])
    requires tokens[i].lexeme == [delimiter] ==> TrailingBackslashes(text + Spaces(Gap(tokens[i], column))) % 2 == 1
    ensures CollectReplacement(tokens, i, text, column, delimiter) ==
            CollectReplacement(tokens, i + 1, text + Spaces(Gap(tokens[i], column)) + tokens[i].lexeme,
                               EndColumn(tokens[i]), delimiter)
  {
  }
}
