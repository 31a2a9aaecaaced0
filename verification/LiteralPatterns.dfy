/** Patterns whose whole body is protected match exactly the plain text of the body. */
module LiteralPatterns {
  import opened Outcomes
  import opened Patterns
  import opened Characters
  import opened PatternGrammar
  import opened PatternMatcher

  function Literals(w: string): seq<Pattern> {
    if w == "" then [] else [Pattern.Literal(w[0])] + Literals(w[1..])
  }

  /** The tree of a pattern that is just the text `w`. */
  function LiteralPattern(w: string): Pattern {
    Sequenced(Literals(w))
  }

  /** `w` stands in `text` at `i`. */
  predicate OccursAt(text: string, w: string, i: nat) {
    i + |w| <= |text| && text[i..i + |w|] == w
  }

  ghost predicate Occurs(text: string, w: string) {
    exists i: nat :: OccursAt(text, w, i)
  }

  /** A source that begins with a delimited body whose bytes are all marked `Literal`; the delimiter behind it is not.
    */
  predicate BeginsProtected(s: Source, delimiter: char, w: string) {
    && |s.interpretations| == |s.text| >= |w| + 2
    && s.text[0] == delimiter == s.text[|w| + 1] && s.text[1..|w| + 1] == w
    && (forall k :: 1 <= k <= |w| ==> s.interpretations[k] == Interpretation.Literal)
    && s.interpretations[|w| + 1] != Interpretation.Literal
  }

  /** A source that is just such a delimited body. */
  predicate IsProtectedBody(s: Source, delimiter: char, w: string) {
    BeginsProtected(s, delimiter, w) && |s.text| == |w| + 2
  }

  /** The delimiters that keep their role right after a protected byte or an empty body. */
  predicate ClosesBody(delimiter: char, w: string) {
    delimiter != '|' && (w == "" || delimiter !in {'*', '+'})
  }

  lemma {:induction false} ProtectedElements(s: Source, delimiter: char, w: string, k: nat)
    requires IsDelimiter(delimiter) && BeginsProtected(s, delimiter, w) && k <= |w|
    requires k < |w| ==> delimiter !in {'*', '+'}
    ensures ParseElements(s, delimiter, k + 1) == Ok((Literals(w[k..]), |w| + 1))
    decreases |w| - k
  {
    if k < |w| {
      ProtectedElements(s, delimiter, w, k + 1);
      assert w[k..][1..] == w[k + 1..];
      assert ParseRepetition(s, delimiter, k + 1) == Ok((Pattern.Literal(w[k]), k + 2));
    }
  }

  /** An operator byte used as delimiter is read as an operator on the last byte, so the pattern never closes. */
  lemma {:induction false} ProtectedElementsRunOver(s: Source, delimiter: char, w: string, k: nat)
    requires delimiter in {'*', '+'} && IsProtectedBody(s, delimiter, w) && k < |w|
    ensures var r := ParseElements(s, delimiter, k + 1); r.Ok? && r.value.1 == |s.text|
    decreases |w| - k
  {
    if k + 1 < |w| {
      ProtectedElementsRunOver(s, delimiter, w, k + 1);
      assert ParseRepetition(s, delimiter, k + 1) == Ok((Pattern.Literal(w[k]), k + 2));
    } else {
      assert ParseRepetition(s, delimiter, k + 1) ==
             Ok((Repetition(Pattern.Literal(w[k]), delimiter != '*'), |s.text|));
      assert ParseElements(s, delimiter, |s.text|) == Ok(([], |s.text|));
    }
  }

  /** A protected body parses to its own text exactly when the delimiter is not read as an operator after it. */
  lemma {:induction false} ProtectedBodyParses(s: Source, delimiter: char, w: string)
    requires IsDelimiter(delimiter) && IsProtectedBody(s, delimiter, w)
    ensures ParsePattern(s) == Ok(LiteralPattern(w)) <==> ClosesBody(delimiter, w)
  {
    if w == "" || delimiter !in {'*', '+'} {
      ProtectedElements(s, delimiter, w, 0);
      assert w[0..] == w;
      assert ParseSequence(s, delimiter, 1) == Ok((LiteralPattern(w), |w| + 1));
      if delimiter == '|' {
        assert ParseMoreAlternatives(s, delimiter, |w| + 1) == Result<(seq<Pattern>, nat)>.Fail;
      } else {
        assert ParseMoreAlternatives(s, delimiter, |w| + 1) == Ok(([], |w| + 1));
      }
    } else {
      ProtectedElementsRunOver(s, delimiter, w, 0);
    }
  }

  /** A bar as delimiter is read as the bar between alternatives, and so never closes a pattern. */
  lemma {:induction false} BarNeverCloses(s: Source, position: nat)
    requires s.Valid() && position <= |s.text|
    ensures var r := ParseMoreAlternatives(s, '|', position); r.Ok? ==> !s.SpecialAt(r.value.1, '|')
    decreases |s.text| - position
  {
    hide ParseSequence;
    if s.SpecialAt(position, '|') && position + 1 < |s.text| && !s.StopAt(position + 1, '|') {
      var next := ParseSequence(s, '|', position + 1);
      if next.Ok? {
        BarNeverCloses(s, next.value.1);
      }
    }
  }

  /** Between bars, no pattern at all is accepted. */
  lemma {:induction false} BarsAcceptNothing(s: Source)
    requires s.Valid() && s.text != "" && s.text[0] == '|'
    ensures ParsePattern(s).Fail?
  {
    hide ParseSequence, ParseMoreAlternatives;
    var first := ParseSequence(s, '|', 1);
    if first.Ok? {
      BarNeverCloses(s, first.value.1);
    }
  }

  /** A protected `a` between bars is a body that ends in no backslash, and is not accepted. */
  lemma {:induction false} BarsAroundLiteral(s: Source)
    requires s == Source("|a|", [Normal, Interpretation.Literal, Normal])
    ensures IsDelimiter('|') && IsProtectedBody(s, '|', "a") && ParsePattern(s).Fail?
  {
    assert s.text[1..2] == "a";
    BarsAcceptNothing(s);
  }

  /** An operator byte as delimiter is read as an operator behind every element, and so never closes after one. */
  lemma {:induction false} OperatorNeverCloses(s: Source, delimiter: char, position: nat)
    requires s.Valid() && position < |s.text| && delimiter in {'*', '+'} && !s.StopAt(position, delimiter)
    ensures var r := ParseElements(s, delimiter, position); r.Ok? ==> !s.SpecialAt(r.value.1, delimiter)
    decreases |s.text| - position
  {
    hide ParseAtom;
    var element := ParseRepetition(s, delimiter, position);
    if element.Ok? {
      var next := element.value.1;
      assert !s.OperatorAt(next);
      if next < |s.text| && !s.StopAt(next, delimiter) {
        OperatorNeverCloses(s, delimiter, next);
      }
    }
  }

  lemma {:induction false} OperatorNeverClosesLater(s: Source, delimiter: char, position: nat)
    requires s.Valid() && position <= |s.text| && delimiter in {'*', '+'} && !s.SpecialAt(position, delimiter)
    ensures var r := ParseMoreAlternatives(s, delimiter, position); r.Ok? ==> !s.SpecialAt(r.value.1, delimiter)
    decreases |s.text| - position
  {
    hide ParseElements;
    if s.SpecialAt(position, '|') && position + 1 < |s.text| && !s.StopAt(position + 1, delimiter) {
      OperatorNeverCloses(s, delimiter, position + 1);
      var next := ParseSequence(s, delimiter, position + 1);
      if next.Ok? {
        OperatorNeverClosesLater(s, delimiter, next.value.1);
      }
    }
  }

  /** Whatever follows the closing delimiter makes the pattern invalid. */
  lemma {:induction false} LongerBodyFails(s: Source, delimiter: char, w: string)
    requires IsDelimiter(delimiter) && BeginsProtected(s, delimiter, w) && |s.text| > |w| + 2
    ensures ParsePattern(s).Fail?
  {
    if delimiter == '|' {
      BarsAcceptNothing(s);
    } else if w != "" && delimiter in {'*', '+'} {
      hide ParseElements, ParseMoreAlternatives;
      OperatorNeverCloses(s, delimiter, 1);
      var first := ParseSequence(s, delimiter, 1);
      if first.Ok? {
        OperatorNeverClosesLater(s, delimiter, first.value.1);
      }
    } else {
      ProtectedElements(s, delimiter, w, 0);
      assert w[0..] == w;
      assert ParseSequence(s, delimiter, 1) == Ok((LiteralPattern(w), |w| + 1));
      assert ParseMoreAlternatives(s, delimiter, |w| + 1) == Ok(([], |w| + 1));
    }
  }

  lemma {:induction false} LiteralsMatch(w: string, text: string, i: nat, j: nat)
    requires i <= |text|
    ensures SequenceMatches(Literals(w), text, i, j) <==> j == i + |w| && OccursAt(text, w, i)
    decreases |w|
  {
    if w != "" {
      var elements := Literals(w);
      assert elements[0] == Pattern.Literal(w[0]) && elements[1..] == Literals(w[1..]);
      if i < |text| {
        LiteralsMatch(w[1..], text, i + 1, j);
        if OccursAt(text, w, i) {
          assert text[i] == text[i..i + |w|][0];
          assert text[i + 1..i + |w|] == w[1..];
          assert Matches(elements[0], text, i, i + 1);
        }
        if SequenceMatches(elements, text, i, j) {
          var m := FirstElement(elements, text, i, j);
          assert m == i + 1 && text[i] == w[0];
          assert text[i..i + |w|] == [text[i]] + text[i + 1..i + |w|];
        }
      } else if SequenceMatches(elements, text, i, j) {
        var m := FirstElement(elements, text, i, j);
        assert false;
      }
    }
  }

  /** A literal pattern matches where its text stands, and nothing else. */
  lemma {:induction false} LiteralPatternMatches(w: string, text: string, i: nat, j: nat)
    requires i <= |text|
    ensures Matches(LiteralPattern(w), text, i, j) <==> j == i + |w| && OccursAt(text, w, i)
  {
    LiteralsMatch(w, text, i, j);
    if |w| == 1 {
      assert Literals(w) == [Pattern.Literal(w[0])];
      if i < |text| {
        assert text[i..i + 1] == [text[i]];
      }
    } else if |w| > 1 {
      assert |Literals(w)| == 1 + |Literals(w[1..])| && |Literals(w[1..])| == 1 + |Literals(w[1..][1..])|;
    }
  }

  /** Searching for a literal pattern finds the leftmost occurrence of its text. */
  lemma {:induction false} LiteralPatternFound(w: string, text: string, from: nat, found: Option<Match>)
    requires IsFound(LiteralPattern(w), text, from, found)
    ensures match found
            case Some(m) =>
              && from <= m.start && m.end == m.start + |w| && OccursAt(text, w, m.start)
              && forall i :: from <= i < m.start ==> !OccursAt(text, w, i)
            case None => forall i :: from <= i ==> !OccursAt(text, w, i)
  {
    match found
    case Some(m) =>
      LiteralPatternMatches(w, text, m.start, m.end);
      forall i | from <= i < m.start ensures !OccursAt(text, w, i) {
        LiteralPatternMatches(w, text, i, i + |w|);
      }
    case None =>
      forall i | from <= i ensures !OccursAt(text, w, i) {
        if i <= |text| {
          LiteralPatternMatches(w, text, i, i + |w|);
        }
      }
  }
}
