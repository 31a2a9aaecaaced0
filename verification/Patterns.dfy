/** The pattern language: abstract syntax and what it means for a pattern to match.

  `Matches` is the reference meaning of a pattern. It says nothing about how matches
  are searched for; the matcher in `PatternMatcher.dfy` is proved against it. */
module Patterns {

  datatype ClassRange = ClassRange(first: char, last: char)

  datatype Pattern =
    | Literal(value: char)
    | AnyCharacter
    | StartOfLine
    | EndOfLine
    | Sequence(elements: seq<Pattern>)
    | Alternation(alternatives: seq<Pattern>)
    | Repetition(operand: Pattern, atLeastOne: bool)
    | CharacterClass(negated: bool, ranges: seq<ClassRange>)
    | Group(expression: Pattern)

  /** The value of a plain `char`, signed as on the x86-64 targets. */
  function SignedCode(c: char): int {
    if c as int < 128 then c as int else c as int - 256
  }

  predicate InRange(r: ClassRange, c: char) {
    SignedCode(r.first) <= SignedCode(c) <= SignedCode(r.last)
  }

  predicate InClass(negated: bool, ranges: seq<ClassRange>, c: char) {
    negated != exists k :: 0 <= k < |ranges| && InRange(ranges[k], c)
  }

  /** `p` matches exactly the bytes `text[i..j]`, seen in the context of the whole `text`. */
  ghost predicate Matches(p: Pattern, text: string, i: nat, j: nat)
    decreases p, 0
  {
    match p
    case Literal(value) => i < |text| && text[i] == value && j == i + 1
    case AnyCharacter => i < |text| && j == i + 1
    case StartOfLine => i == 0 && j == i
    case EndOfLine => i == |text| && j == i
    case Sequence(elements) => SequenceMatches(elements, text, i, j)
    case Alternation(alternatives) =>
      exists k :: 0 <= k < |alternatives| && Matches(alternatives[k], text, i, j)
    case Repetition(operand, atLeastOne) =>
      exists n: nat :: (atLeastOne ==> n >= 1) && Iterates(operand, text, i, j, n)
    case CharacterClass(negated, ranges) =>
      i < |text| && InClass(negated, ranges, text[i]) && j == i + 1
    case Group(expression) => Matches(expression, text, i, j)
  }

  /** The elements match consecutive pieces of `text[i..j]`. */
  ghost predicate SequenceMatches(elements: seq<Pattern>, text: string, i: nat, j: nat)
    decreases elements, 0
  {
    if elements == [] then i == j
    else exists m: nat :: Matches(elements[0], text, i, m) && SequenceMatches(elements[1..], text, m, j)
  }

  /** `text[i..j]` splits into `n` consecutive matches of `p`. */
  ghost predicate Iterates(p: Pattern, text: string, i: nat, j: nat, n: nat)
    decreases p, n + 1
  {
    if n == 0 then i == j
    else exists m: nat :: Matches(p, text, i, m) && Iterates(p, text, m, j, n - 1)
  }

  /** A match never ends before it starts nor after the text. */
  lemma {:induction false} MatchWithinText(p: Pattern, text: string, i: nat, j: nat)
    requires i <= |text| && Matches(p, text, i, j)
    ensures i <= j <= |text|
    decreases p, 0
  {
    match p
    case Sequence(elements) => SequenceWithinText(elements, text, i, j);
    case Alternation(alternatives) =>
      var k :| 0 <= k < |alternatives| && Matches(alternatives[k], text, i, j);
      MatchWithinText(alternatives[k], text, i, j);
    case Repetition(operand, atLeastOne) =>
      var n: nat :| Iterates(operand, text, i, j, n);
      IterationWithinText(operand, text, i, j, n);
    case Group(expression) => MatchWithinText(expression, text, i, j);
    case _ =>
  }

  lemma {:induction false} SequenceWithinText(elements: seq<Pattern>, text: string, i: nat, j: nat)
    requires i <= |text| && SequenceMatches(elements, text, i, j)
    ensures i <= j <= |text|
    decreases elements, 0
  {
    if elements != [] {
      var m: nat :| Matches(elements[0], text, i, m) && SequenceMatches(elements[1..], text, m, j);
      MatchWithinText(elements[0], text, i, m);
      SequenceWithinText(elements[1..], text, m, j);
    }
  }

  lemma {:induction false} IterationWithinText(p: Pattern, text: string, i: nat, j: nat, n: nat)
    requires i <= |text| && Iterates(p, text, i, j, n)
    ensures i <= j <= |text|
    decreases p, n + 1
  {
    if n != 0 {
      var m: nat :| Matches(p, text, i, m) && Iterates(p, text, m, j, n - 1);
      MatchWithinText(p, text, i, m);
      IterationWithinText(p, text, m, j, n - 1);
    }
  }

  lemma {:induction false} FirstIteration(p: Pattern, text: string, i: nat, j: nat, n: nat) returns (m: nat)
    requires n != 0 && Iterates(p, text, i, j, n)
    ensures Matches(p, text, i, m) && Iterates(p, text, m, j, n - 1)
  {
    m :| Matches(p, text, i, m) && Iterates(p, text, m, j, n - 1);
  }

  lemma {:induction false} FirstElement(elements: seq<Pattern>, text: string, i: nat, j: nat) returns (m: nat)
    requires elements != [] && SequenceMatches(elements, text, i, j)
    ensures Matches(elements[0], text, i, m) && SequenceMatches(elements[1..], text, m, j)
  {
    m :| Matches(elements[0], text, i, m) && SequenceMatches(elements[1..], text, m, j);
  }

  /** One more match of `p` extends an iteration at its end. */
  lemma {:induction false} IterationExtends(p: Pattern, text: string, i: nat, m: nat, j: nat, n: nat)
    requires Iterates(p, text, i, m, n) && Matches(p, text, m, j)
    ensures Iterates(p, text, i, j, n + 1)
    decreases n
  {
    if n == 0 {
      assert Iterates(p, text, j, j, 0);
    } else {
      var k: nat :| Matches(p, text, i, k) && Iterates(p, text, k, m, n - 1);
      IterationExtends(p, text, k, m, j, n - 1);
    }
  }
}
