/** Pieces of one typed line: what their tokens are, and that their text can be rebuilt from the tokens. */
module Spans {
  import opened Outcomes
  import opened Characters
  import opened Tokens
  import opened Lexing
  import opened SourceText
  import opened AddressText

  /** A piece of one line without tabs and carriage returns, none of it protected and all of it read alike. */
  predicate IsSpan(characters: seq<Character>, a: nat, b: nat, mark: Interpretation) {
    && a <= b <= |characters| && mark != Interpretation.Literal
    && forall k :: a <= k < b ==> characters[k].interpretation == mark && characters[k].value !in {'\n', '\t', '\r'}
  }

  /** A place that no token runs across: the end of the source, or a byte that is neither space nor part of a word. */
  predicate IsBreak(characters: seq<Character>, b: nat) {
    b == |characters|
    || (b < |characters| && !IsIdentifierPart(characters[b].value) && characters[b].value !in {' ', '\t', '\r'})
  }

  /** A token of a span. */
  predicate IsTokenOf(token: Token, characters: seq<Character>, a: nat, b: nat, mark: Interpretation) {
    && a <= token.location.offset < b <= |characters| && token == TokenAt(characters, token.location.offset)
    && TokenEnd(characters, token.location.offset) <= b
    && !EndsOperand(token) && token.interpretation == mark
  }

  /** What comes next in a span: spaces, and a token unless that is all. */
  lemma {:induction false} SpanStep(characters: seq<Character>, q: nat, b: nat, mark: Interpretation)
    requires IsSpan(characters, q, b, mark) && IsBreak(characters, b)
    ensures var s := Skipped(characters, q);
      && s <= b && (forall k :: q <= k < s ==> characters[k].value == ' ')
      && (s < b ==> TokenEnd(characters, s) <= b && !IsSkippable(characters[s]))
  {
    assert forall k :: q <= k < Skipped(characters, q) ==> IsSkippable(characters[k]);
  }

  lemma {:induction false} SpanToken(characters: seq<Character>, s: nat, b: nat, mark: Interpretation)
    requires IsLocated(characters) && IsSpan(characters, s, b, mark) && IsBreak(characters, b)
    requires s < b && !IsSkippable(characters[s])
    ensures TokenEnd(characters, s) <= b && IsTokenOf(TokenAt(characters, s), characters, s, b, mark)
    ensures TokenAt(characters, s).lexeme == Text(characters, s, TokenEnd(characters, s))
    ensures TokenAt(characters, s).location == characters[s].location
    ensures mark == Normal ==> characters[TokenEnd(characters, s) - 1].value != ' '
  {
    SpanStep(characters, s, b, mark);
    TokenHasNoSpace(characters, s);
  }

  /** Skipping spaces loses no token. */
  lemma {:induction false} LexedSkip(tokens: seq<Token>, i: nat, characters: seq<Character>, end: SourceLocation,
                                     q: nat)
    requires LexedFrom(tokens, i, characters, end, q)
    ensures LexedFrom(tokens, i, characters, end, Skipped(characters, q))
  {
    var s := Skipped(characters, q);
    SkippedIs(characters, s, s);
    hide AreTokens;
  }

  /** The next token of a span, if there is one, and the source behind it. */
  lemma {:induction false} SpanNext(tokens: seq<Token>, i: nat, characters: seq<Character>, end: SourceLocation, q: nat,
                                    b: nat, mark: Interpretation)
    requires IsLocated(characters) && LexedFrom(tokens, i, characters, end, q)
    requires IsSpan(characters, q, b, mark) && IsBreak(characters, b)
    ensures AreTokens(tokens) && i < |tokens|
    ensures var s := Skipped(characters, q);
      && q <= s <= b && (forall k :: q <= k < s ==> characters[k].value == ' ')
      && (s == b ==> LexedFrom(tokens, i, characters, end, b))
      && (s < b ==>
            && s < TokenEnd(characters, s) <= b && IsTokenOf(tokens[i], characters, q, b, mark)
            && tokens[i].location == characters[s].location
            && tokens[i].lexeme == Text(characters, s, TokenEnd(characters, s))
            && (mark == Normal ==> characters[TokenEnd(characters, s) - 1].value != ' ')
            && LexedFrom(tokens, i + 1, characters, end, TokenEnd(characters, s)))
  {
    hide LexedFrom, TokenAt, TokenEnd, AreTokens, IsLocated, AllTokens, Skipped;
    LexedFacts(tokens, i, characters, end, q);
    SpanStep(characters, q, b, mark);
    var s := Skipped(characters, q);
    LexedSkip(tokens, i, characters, end, q);
    if s < b {
      SpanToken(characters, s, b, mark);
      LexedNext(tokens, i, characters, end, s);
      assert tokens[i].location.offset == s by {
        OffsetsCount(characters, s);
      }
    }
  }

  lemma {:induction false} OffsetsCount(characters: seq<Character>, k: nat)
    requires IsLocated(characters) && k < |characters|
    ensures characters[k].location.offset == k
  {
  }

  /** In a span, columns count bytes. */
  lemma {:induction false} SpanColumns(characters: seq<Character>, low: nat, high: nat, mark: Interpretation)
    requires IsLocated(characters) && IsSpan(characters, low, high, mark) && high < |characters|
    ensures characters[high].location.column == characters[low].location.column + high - low
  {
    ColumnsInLine(characters, low, high);
  }

  /** The text of a span: spaces, a token, and the rest. */
  lemma {:induction false} TextSplits(characters: seq<Character>, a: nat, q: nat, s: nat, e: nat)
    requires a <= q <= s <= e <= |characters| && forall k :: q <= k < s ==> characters[k].value == ' '
    ensures Text(characters, a, q) + Spaces(s - q) + Text(characters, s, e) == Text(characters, a, e)
  {
  }

  // ---------------------------------------------------------------- rebuilding

  /** The tokens of an ordinary span, and the text rebuilt from them: that of the span, without spaces at its end. */
  lemma {:induction false} SpanRebuilt(tokens: seq<Token>, i: nat, characters: seq<Character>, end: SourceLocation,
                                       a: nat, b: nat)
    returns (n: nat, q: nat)
    requires IsLocated(characters) && LexedFrom(tokens, i, characters, end, a) && a < |characters|
    requires IsSpan(characters, a, b, Normal) && IsBreak(characters, b)
    ensures i <= n < |tokens| && LexedFrom(tokens, n, characters, end, b)
    ensures forall k :: i <= k < n ==> IsTokenOf(tokens[k], characters, a, b, Normal)
    ensures a <= q <= b && (forall k :: q <= k < b ==> characters[k].value == ' ')
    ensures q > a ==> characters[q - 1].value != ' '
    ensures RebuiltText(tokens, i, n, characters[a].location.column) == Text(characters, a, q)
    ensures ColumnBefore(tokens, i, n, characters[a].location.column) == characters[a].location.column + q - a
  {
    n, q := SpanFromHere(tokens, i, characters, end, a, b, i, a);
  }

  lemma {:induction false} SpanFromHere(tokens: seq<Token>, i: nat, characters: seq<Character>, end: SourceLocation,
                                        a: nat, b: nat, k: nat, here: nat)
    returns (n: nat, q: nat)
    requires IsLocated(characters) && LexedFrom(tokens, k, characters, end, here) && a < |characters| && i <= k
    requires IsSpan(characters, a, b, Normal) && IsBreak(characters, b) && a <= here <= b
    requires forall j :: i <= j < k ==> j < |tokens| && IsTokenOf(tokens[j], characters, a, b, Normal)
    requires here > a ==> characters[here - 1].value != ' '
    requires RebuiltText(tokens, i, k, characters[a].location.column) == Text(characters, a, here)
    requires ColumnBefore(tokens, i, k, characters[a].location.column) == characters[a].location.column + here - a
    ensures i <= n < |tokens| && LexedFrom(tokens, n, characters, end, b)
    ensures forall j :: i <= j < n ==> IsTokenOf(tokens[j], characters, a, b, Normal)
    ensures a <= q <= b && (forall j :: q <= j < b ==> characters[j].value == ' ')
    ensures q > a ==> characters[q - 1].value != ' '
    ensures RebuiltText(tokens, i, n, characters[a].location.column) == Text(characters, a, q)
    ensures ColumnBefore(tokens, i, n, characters[a].location.column) == characters[a].location.column + q - a
    decreases b - here
  {
    hide LexedFrom, TokenAt, TokenEnd, AreTokens, IsLocated, AllTokens, Skipped, IsTokenOf, Spaces, RebuiltText, Text;
    SpanNext(tokens, k, characters, end, here, b, Normal);
    var s := Skipped(characters, here);
    if s == b {
      return k, here;
    }
    var column, e := characters[a].location.column, TokenEnd(characters, s);
    SpanColumns(characters, a, s, Normal);
    WidenToken(tokens[k], characters, a, here, b);
    OneRebuilt(tokens, i, k, column);
    TextSplits(characters, a, here, s, e);
    n, q := SpanFromHere(tokens, i, characters, end, a, b, k + 1, e);
  }

  lemma {:induction false} OneRebuilt(tokens: seq<Token>, i: nat, k: nat, column: nat)
    requires i <= k < |tokens|
    ensures RebuiltText(tokens, i, k + 1, column) ==
            RebuiltText(tokens, i, k, column) + Spaces(Gap(tokens[k], ColumnBefore(tokens, i, k, column))) +
                tokens[k].lexeme
  {
  }

  lemma {:induction false} WidenToken(token: Token, characters: seq<Character>, a: nat, here: nat, b: nat)
    requires a <= here && IsTokenOf(token, characters, here, b, Normal)
    ensures IsTokenOf(token, characters, a, b, Normal)
  {
  }
}
