/** What tokens keep of the source, and how operands are rebuilt from them.

  Tokens are disjoint slices of the source in order, and only ordinary horizontal whitespace
  lies between them. Operands (plain text, names, patterns) are rebuilt from lexemes and
  column gaps. */
module SourceText {
  import opened Outcomes
  import opened Characters
  import opened Tokens
  import opened Lexing
  import opened TokenStreams

  // ---------------------------------------------------------------- tokens are slices

  /** Where token `k` starts; the end token stands behind the last character. */
  function StartOf(tokens: seq<Token>, k: nat, size: nat): nat
    requires k < |tokens|
  {
    if tokens[k].kind == EndToken then size else tokens[k].location.offset
  }

  /** Where the token before token `k` ends; for the first one, where lexing started. */
  function EndBefore(tokens: seq<Token>, k: nat, from: nat): nat
    requires k <= |tokens|
  {
    if k == 0 then from else tokens[k - 1].location.offset + |tokens[k - 1].lexeme|
  }

  /** Token `k` is the slice of the source behind some skipped whitespace. */
  predicate IsSlice(characters: seq<Character>, tokens: seq<Token>, from: nat, k: nat)
    requires k < |tokens|
  {
    var token := tokens[k];
    var start := StartOf(tokens, k, |characters|);
    && from <= EndBefore(tokens, k, from) <= start <= |characters|
    && (forall j :: EndBefore(tokens, k, from) <= j < start ==> IsSkippable(characters[j]))
    && (token.kind != EndToken ==>
          && token.lexeme != "" && start + |token.lexeme| <= |characters|
          && token.lexeme == Text(characters, start, start + |token.lexeme|)
          && token.location == characters[start].location && token.interpretation == characters[start].interpretation
          && forall j :: start <= j < start + |token.lexeme| ==> !IsSkippable(characters[j]))
  }

  /** The first token, and the others. */
  lemma {:induction false} FirstToken(characters: seq<Character>, end: SourceLocation, from: nat)
    requires from <= |characters|
    ensures var start := Skipped(characters, from);
      if start == |characters| then AllTokens(characters, end, from) == [TheEnd(end)]
      else
        && AllTokens(characters, end, from) ==
            [TokenAt(characters, start)] + AllTokens(characters, end, TokenEnd(characters, start))
        && TokenAt(characters, start).lexeme != ""
  {
  }

  /** Lexing loses nothing but ordinary horizontal whitespace. */
  lemma {:induction false} TokensAreSlices(characters: seq<Character>, end: SourceLocation, from: nat, k: nat)
    requires IsLocated(characters) && from <= |characters| && k < |AllTokens(characters, end, from)|
    ensures IsSlice(characters, AllTokens(characters, end, from), from, k)
    decreases k
  {
    hide AllTokens, TokenEnd, TokenAt, Skipped, IsLocated, Text;
    FirstToken(characters, end, from);
    var tokens := AllTokens(characters, end, from);
    var start := Skipped(characters, from);
    if start < |characters| {
      var next := TokenEnd(characters, start);
      var rest := AllTokens(characters, end, next);
      TokenHasNoSpace(characters, start);
      if k > 0 {
        TokensAreSlices(characters, end, next, k - 1);
        assert tokens[k] == rest[k - 1];
        assert k > 1 ==> tokens[k - 1] == rest[k - 2];
      }
    }
  }

  lemma {:induction false} TokenHasNoSpace(characters: seq<Character>, start: nat)
    requires IsLocated(characters) && start < |characters| && !IsSkippable(characters[start])
    ensures TokenAt(characters, start).location == characters[start].location
    ensures TokenAt(characters, start).location.offset == start
    ensures TokenAt(characters, start).interpretation == characters[start].interpretation
    ensures TokenAt(characters, start).lexeme == Text(characters, start, TokenEnd(characters, start))
    ensures forall j :: start <= j < TokenEnd(characters, start) ==> !IsSkippable(characters[j])
  {
    if TokenEnd(characters, start) > start + 1 {
      forall j | start <= j < TokenEnd(characters, start) ensures !IsSkippable(characters[j]) {
        assert IsIdentifierPart(characters[j].value);
      }
    }
  }

  // ---------------------------------------------------------------- rebuilding text

  function Spaces(count: nat): string {
    seq(count, _ => ' ')
  }

  function EndColumn(token: Token): nat {
    token.location.column + |token.lexeme|
  }

  /** The columns left free in front of a token. */
  function Gap(token: Token, column: nat): nat {
    if token.location.column > column then token.location.column - column else 0
  }

  /** The column behind the token before token `k`; for token `i`, where rebuilding starts. */
  function ColumnBefore(tokens: seq<Token>, i: nat, k: nat, column: nat): nat
    requires i <= k <= |tokens|
  {
    if k == i then column else EndColumn(tokens[k - 1])
  }

  /** The lexemes of tokens `i` to before `n`, with the column gaps in between as spaces. */
  function RebuiltText(tokens: seq<Token>, i: nat, n: nat, column: nat): string
    requires i <= n <= |tokens|
    decreases n
  {
    if n == i then ""
    else
      RebuiltText(tokens, i, n - 1, column)
      + Spaces(Gap(tokens[n - 1], ColumnBefore(tokens, i, n - 1, column))) + tokens[n - 1].lexeme
  }

  /** One more token: the first one has no gap in front. */
  lemma {:induction false} RebuiltStep(tokens: seq<Token>, i: nat, k: nat)
    requires i <= k < |tokens|
    ensures var column := tokens[i].location.column;
      && RebuiltText(tokens, i, i, column) == ""
      && RebuiltText(tokens, i, k + 1, column) ==
         if k == i then tokens[k].lexeme
         else RebuiltText(tokens, i, k, column) + Spaces(Gap(tokens[k], EndColumn(tokens[k - 1]))) + tokens[k].lexeme
  {
    if k == i {
      assert "" + Spaces(0) + tokens[k].lexeme == tokens[k].lexeme;
    }
  }

  /** The source from `from` to `to` with its ordinary whitespace turned into spaces. */
  function Blanked(characters: seq<Character>, from: nat, to: nat): (text: string)
    requires from <= to <= |characters|
    ensures |text| == to - from
    ensures forall k :: 0 <= k < |text| ==>
      text[k] == if IsSkippable(characters[from + k]) then ' ' else characters[from + k].value
  {
    seq(to - from, k requires 0 <= k < to - from =>
      if IsSkippable(characters[from + k]) then ' ' else characters[from + k].value)
  }

  lemma {:induction false} BlankedSplits(characters: seq<Character>, from: nat, middle: nat, to: nat)
    requires from <= middle <= to <= |characters|
    ensures Blanked(characters, from, to) == Blanked(characters, from, middle) + Blanked(characters, middle, to)
    ensures (forall j :: middle <= j < to ==> IsSkippable(characters[j])) ==>
            Blanked(characters, middle, to) == Spaces(to - middle)
    ensures (forall j :: middle <= j < to ==> !IsSkippable(characters[j])) ==>
      Blanked(characters, middle, to) == Text(characters, middle, to)
  {
  }

  predicate IsOneLine(characters: seq<Character>, from: nat, to: nat)
    requires from <= to <= |characters|
  {
    forall k :: from <= k < to ==> characters[k].value != '\n'
  }

  /** Within a line, columns count characters. */
  lemma {:induction false} ColumnsInLine(characters: seq<Character>, low: nat, high: nat)
    requires IsLocated(characters) && low <= high < |characters| && IsOneLine(characters, low, high)
    ensures characters[high].location.column == characters[low].location.column + high - low
    decreases high
  {
    if low < high {
      ColumnsInLine(characters, low, high - 1);
      assert ColumnFollows(characters, high);
    }
  }

  /** Rebuilding the tokens of one line gives the source, whitespace turned into spaces. */
  lemma {:induction false} RebuiltIsBlanked(characters: seq<Character>, end: SourceLocation, from: nat, i: nat,
                                            n: nat, a: nat)
    requires IsLocated(characters) && from <= |characters|
    requires var tokens := AllTokens(characters, end, from);
      && i < n < |tokens|
      && EndBefore(tokens, i, from) <= a <= StartOf(tokens, i, |characters|)
      && a <= EndBefore(tokens, n, from) <= |characters|
      && IsOneLine(characters, a, EndBefore(tokens, n, from))
    requires a < |characters|
    ensures var tokens := AllTokens(characters, end, from);
      RebuiltText(tokens, i, n, characters[a].location.column) == Blanked(characters, a, EndBefore(tokens, n, from))
    decreases n
  {
    hide AllTokens, Skipped;
    var tokens := AllTokens(characters, end, from);
    var column := characters[a].location.column;
    TokensAreSlices(characters, end, from, n - 1);
    var b := if n - 1 == i then a else EndBefore(tokens, n - 1, from);
    var start, stop := tokens[n - 1].location.offset, EndBefore(tokens, n, from);
    if n - 1 > i {
      TokensInOrder(characters, end, from, i, n - 1);
      RebuiltIsBlanked(characters, end, from, i, n - 1, a);
    }
    GapIsDistance(characters, end, from, i, n - 1, a);
    var before := RebuiltText(tokens, i, n - 1, column);
    assert before == Blanked(characters, a, b);
    assert RebuiltText(tokens, i, n, column) == before + Spaces(start - b) + tokens[n - 1].lexeme;
    hide RebuiltText, Spaces, Blanked, Text, IsOneLine, ColumnBefore, Gap;
    OneMoreToken(characters, a, b, start, stop);
  }

  /** Skipped whitespace and a token extend the text. */
  lemma {:induction false} OneMoreToken(characters: seq<Character>, a: nat, b: nat, start: nat, stop: nat)
    requires a <= b <= start <= stop <= |characters|
    requires forall j :: b <= j < start ==> IsSkippable(characters[j])
    requires forall j :: start <= j < stop ==> !IsSkippable(characters[j])
    ensures Blanked(characters, a, b) + Spaces(start - b) + Text(characters, start, stop) ==
            Blanked(characters, a, stop)
  {
    BlankedSplits(characters, a, b, stop);
    BlankedSplits(characters, b, start, stop);
    hide *;
    var first, second, third := Blanked(characters, a, b), Spaces(start - b), Text(characters, start, stop);
    assert first + second + third == first + (second + third);
  }

  /** In one line, the column gap in front of a token is its distance from the token before. */
  lemma {:induction false} GapIsDistance(characters: seq<Character>, end: SourceLocation, from: nat, i: nat, k: nat,
                                         a: nat)
    requires IsLocated(characters) && from <= |characters|
    requires var tokens := AllTokens(characters, end, from);
      && i <= k < |tokens| - 1
      && EndBefore(tokens, i, from) <= a <= StartOf(tokens, i, |characters|)
      && a <= tokens[k].location.offset <= |characters|
      && IsOneLine(characters, a, tokens[k].location.offset)
    requires a < |characters|
    ensures var tokens := AllTokens(characters, end, from);
      var b := if k == i then a else EndBefore(tokens, k, from);
      Gap(tokens[k], ColumnBefore(tokens, i, k, characters[a].location.column)) == tokens[k].location.offset - b
  {
    hide AllTokens;
    var tokens := AllTokens(characters, end, from);
    TokensAreSlices(characters, end, from, k);
    var start := tokens[k].location.offset;
    hide Text, IsSkippable;
    if k == i {
      ColumnsInLine(characters, a, start);
    } else {
      TokensAreSlices(characters, end, from, k - 1);
      TokensInOrder(characters, end, from, i, k);
      var before := tokens[k - 1].location.offset;
      if i < k - 1 {
        TokensInOrder(characters, end, from, i, k - 1);
      }
      ColumnsInLine(characters, before, start);
    }
  }

  lemma {:induction false} TokensInOrder(characters: seq<Character>, end: SourceLocation, from: nat, i: nat, k: nat)
    requires IsLocated(characters) && from <= |characters|
    requires i < k < |AllTokens(characters, end, from)|
    ensures var tokens := AllTokens(characters, end, from);
      StartOf(tokens, i, |characters|) < EndBefore(tokens, k, from) <= |characters|
    decreases k
  {
    TokensAreSlices(characters, end, from, k - 1);
    TokensAreSlices(characters, end, from, k);
    hide AllTokens;
    if i < k - 1 {
      TokensInOrder(characters, end, from, i, k - 1);
    }
  }

  // ---------------------------------------------------------------- plain text

  predicate EndsOperand(token: Token) {
    token.kind == EndToken || token.kind == NewLineToken
  }

  /** The first token from `i` on that ends an operand. */
  function OperandEnd(tokens: seq<Token>, i: nat): (n: nat)
    requires i < |tokens| && AreTokens(tokens)
    ensures i <= n < |tokens| && EndsOperand(tokens[n])
    ensures forall k :: i <= k < n ==> !EndsOperand(tokens[k])
    decreases |tokens| - i
  {
    if EndsOperand(tokens[i]) then i else OperandEnd(tokens, i + 1)
  }

  /** The rest of the command line, rebuilt from its tokens. */
  function PlainText(tokens: seq<Token>, i: nat): string
    requires i < |tokens| && AreTokens(tokens)
  {
    RebuiltText(tokens, i, OperandEnd(tokens, i), tokens[i].location.column)
  }

  /** The end of the text from `low` to `high` without ordinary whitespace behind it. */
  function TrimmedEnd(characters: seq<Character>, low: nat, high: nat): (end: nat)
    requires low <= high <= |characters|
    ensures low <= end <= high
    decreases high
  {
    if low < high && IsSkippable(characters[high - 1]) then TrimmedEnd(characters, low, high - 1) else high
  }

  lemma {:induction false} TrimmedEndIs(characters: seq<Character>, low: nat, end: nat, high: nat)
    requires low <= end <= high <= |characters| && (end == low || !IsSkippable(characters[end - 1]))
    requires forall j :: end <= j < high ==> IsSkippable(characters[j])
    ensures TrimmedEnd(characters, low, high) == end
    decreases high
  {
    if end < high {
      TrimmedEndIs(characters, low, end, high - 1);
    }
  }

  /** Where a token starts is where skipping leads from the token before. */
  lemma {:induction false} SkippedIs(characters: seq<Character>, low: nat, start: nat)
    requires low <= start <= |characters| && (start < |characters| ==> !IsSkippable(characters[start]))
    requires forall j :: low <= j < start ==> IsSkippable(characters[j])
    ensures Skipped(characters, low) == start
    decreases start - low
  {
    if low < start {
      SkippedIs(characters, low + 1, start);
    }
  }

  /** On input without line feeds, the plain text behind any token is the rest of the source, trimmed of ordinary
    whitespace, with the whitespace inside turned into spaces. */
  lemma {:induction false} PlainTextIsTrimmed(characters: seq<Character>, end: SourceLocation, from: nat, i: nat)
    requires IsLocated(characters) && from <= |characters| && i < |AllTokens(characters, end, from)|
    requires IsOneLine(characters, from, |characters|)
    ensures var low := EndBefore(AllTokens(characters, end, from), i, from);
      && from <= low <= |characters|
      && var start := Skipped(characters, low);
         PlainText(AllTokens(characters, end, from), i) ==
         Blanked(characters, start, TrimmedEnd(characters, start, |characters|))
  {
    var tokens := AllTokens(characters, end, from);
    hide AllTokens, Skipped, Blanked, RebuiltText, TrimmedEnd, IsSkippable;
    var n := |tokens| - 1;
    var low := EndBefore(tokens, i, from);
    var start := StartOf(tokens, i, |characters|);
    TokensAreSlices(characters, end, from, i);
    TokensAreSlices(characters, end, from, n);
    SkippedIs(characters, low, start);
    OperandEndsInput(characters, end, from, i);
    if i < n {
      SomeTextIsTrimmed(characters, end, from, i);
    } else {
      TrimmedEndIs(characters, start, start, |characters|);
      NothingRebuilt(characters, tokens, i, start);
    }
  }

  /** The case in which there is some text. */
  lemma {:induction false} SomeTextIsTrimmed(characters: seq<Character>, end: SourceLocation, from: nat, i: nat)
    requires IsLocated(characters) && from <= |characters| && i < |AllTokens(characters, end, from)| - 1
    requires IsOneLine(characters, from, |characters|)
    ensures var tokens := AllTokens(characters, end, from); var start := tokens[i].location.offset;
      start < |characters| && RebuiltText(tokens, i, |tokens| - 1, tokens[i].location.column) ==
      Blanked(characters, start, TrimmedEnd(characters, start, |characters|))
  {
    hide AllTokens, Skipped, Blanked, RebuiltText, TrimmedEnd, IsSkippable;
    var tokens := AllTokens(characters, end, from);
    var n, start := |tokens| - 1, tokens[i].location.offset;
    TokensAreSlices(characters, end, from, i);
    TokensAreSlices(characters, end, from, n);
    TokensInOrder(characters, end, from, i, n);
    TokensAreSlices(characters, end, from, n - 1);
    TrimmedEndIs(characters, start, EndBefore(tokens, n, from), |characters|);
    RebuiltIsBlanked(characters, end, from, i, n, start);
  }

  lemma {:induction false} OperandEndsInput(characters: seq<Character>, end: SourceLocation, from: nat, i: nat)
    requires from <= |characters| && i < |AllTokens(characters, end, from)|
    requires IsOneLine(characters, from, |characters|)
    ensures var tokens := AllTokens(characters, end, from);
      OperandEnd(tokens, i) == |tokens| - 1
  {
    var tokens := AllTokens(characters, end, from);
    hide AllTokens;
    NoNewLineToken(characters, end, from, OperandEnd(tokens, i));
  }

  lemma {:induction false} NothingRebuilt(characters: seq<Character>, tokens: seq<Token>, i: nat, start: nat)
    requires i < |tokens| && start <= |characters|
    ensures RebuiltText(tokens, i, i, tokens[i].location.column) == Blanked(characters, start, start)
  {
  }

  /** Without line feeds in the input there is no newline token. */
  lemma {:induction false} NoNewLineToken(characters: seq<Character>, end: SourceLocation, from: nat, k: nat)
    requires from <= |characters| && IsOneLine(characters, from, |characters|)
    requires k < |AllTokens(characters, end, from)|
    ensures AllTokens(characters, end, from)[k].kind != NewLineToken
    decreases k
  {
    var start := Skipped(characters, from);
    if start < |characters| && k > 0 {
      NoNewLineToken(characters, end, TokenEnd(characters, start), k - 1);
    }
  }
}
