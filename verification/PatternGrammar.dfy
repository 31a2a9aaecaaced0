/** The grammar of patterns as functions from a source position to a tree and the next position.

  A source byte is structural only if its metadata does not mark it `Literal`. These
  functions are the specification of the parser class in `PatternParser.dfy`. */
module PatternGrammar {
  import opened Outcomes
  import opened Patterns
  import opened Characters

  /** Pattern text with one interpretation per byte, or none at all for plain input. */
  datatype Source = Source(text: string, interpretations: seq<Interpretation>)
  {
    predicate Valid() {
      interpretations == [] || |interpretations| == |text|
    }

    predicate IsSpecial(position: nat)
      requires Valid()
    {
      position < |text| && (interpretations == [] || interpretations[position] != Interpretation.Literal)
    }

    predicate SpecialAt(position: nat, value: char)
      requires Valid()
    {
      position < |text| && text[position] == value && IsSpecial(position)
    }

    /** A byte that ends a sequence. */
    predicate StopAt(position: nat, delimiter: char)
      requires Valid()
    {
      SpecialAt(position, delimiter) || SpecialAt(position, ')') || SpecialAt(position, '|')
    }

    predicate OperatorAt(position: nat)
      requires Valid()
    {
      SpecialAt(position, '*') || SpecialAt(position, '+')
    }
  }

  /** Puts already parsed items in front of the items parsed from here on. */
  function Prepend<T>(items: seq<T>, tail: Result<(seq<T>, nat)>): Result<(seq<T>, nat)> {
    match tail
    case Ok((more, next)) => Ok((items + more, next))
    case Fail => Fail
  }

  lemma {:induction false} PrependNothing<T>(tail: Result<(seq<T>, nat)>)
    ensures Prepend([], tail) == tail
  {
    if tail.Ok? {
      assert [] + tail.value.0 == tail.value.0;
    }
  }

  lemma {:induction false} PrependOne<T>(items: seq<T>, item: T, tail: Result<(seq<T>, nat)>)
    ensures Prepend(items, Prepend([item], tail)) == Prepend(items + [item], tail)
  {
    if tail.Ok? {
      assert items + ([item] + tail.value.0) == items + [item] + tail.value.0;
    }
  }

  predicate IsDelimiter(c: char) {
    !IsDigit(c) && !IsLetter(c) && !IsSpace(c) && c != '_' && c != '\\'
  }

  /** A whole delimited pattern. */
  function ParsePattern(s: Source): Result<Pattern>
    requires s.Valid()
  {
    if |s.text| == 0 || !IsDelimiter(s.text[0]) then Fail
    else
      var (expression, next) :- ParseAlternation(s, s.text[0], 1);
      if s.SpecialAt(next, s.text[0]) && next + 1 == |s.text| then Ok(expression) else Fail
  }

  function Alternatives(first: Pattern, more: seq<Pattern>): Pattern {
    if more == [] then first else Alternation([first] + more)
  }

  function ParseAlternation(s: Source, delimiter: char, position: nat): (r: Result<(Pattern, nat)>)
    requires s.Valid() && position <= |s.text|
    ensures r.Ok? ==> position <= r.value.1 <= |s.text|
    decreases |s.text| - position, 6
  {
    var (first, next) :- ParseSequence(s, delimiter, position);
    var (more, end) :- ParseMoreAlternatives(s, delimiter, next);
    Ok((Alternatives(first, more), end))
  }

  function ParseMoreAlternatives(s: Source, delimiter: char, position: nat): (r: Result<(seq<Pattern>, nat)>)
    requires s.Valid() && position <= |s.text|
    ensures r.Ok? ==> position <= r.value.1 <= |s.text|
    decreases |s.text| - position, 5
  {
    if !s.SpecialAt(position, '|') then Ok(([], position))
    else if position + 1 == |s.text| || s.StopAt(position + 1, delimiter) then Fail
    else
      var (alternative, next) :- ParseSequence(s, delimiter, position + 1);
      Prepend([alternative], ParseMoreAlternatives(s, delimiter, next))
  }

  function Sequenced(elements: seq<Pattern>): Pattern {
    if |elements| == 1 then elements[0] else Sequence(elements)
  }

  function ParseSequence(s: Source, delimiter: char, position: nat): (r: Result<(Pattern, nat)>)
    requires s.Valid() && position <= |s.text|
    ensures r.Ok? ==> position <= r.value.1 <= |s.text|
    decreases |s.text| - position, 4
  {
    var (elements, next) :- ParseElements(s, delimiter, position);
    Ok((Sequenced(elements), next))
  }

  function ParseElements(s: Source, delimiter: char, position: nat): (r: Result<(seq<Pattern>, nat)>)
    requires s.Valid() && position <= |s.text|
    ensures r.Ok? ==> position <= r.value.1 <= |s.text|
    decreases |s.text| - position, 3
  {
    if position == |s.text| || s.StopAt(position, delimiter) then Ok(([], position))
    else
      var (element, next) :- ParseRepetition(s, delimiter, position);
      Prepend([element], ParseElements(s, delimiter, next))
  }

  function ParseRepetition(s: Source, delimiter: char, position: nat): (r: Result<(Pattern, nat)>)
    requires s.Valid() && position <= |s.text|
    ensures r.Ok? ==> position < r.value.1 <= |s.text|
    decreases |s.text| - position, 2
  {
    var (atom, next) :- ParseAtom(s, delimiter, position);
    if !s.OperatorAt(next) then Ok((atom, next))
    else if s.OperatorAt(next + 1) then Fail
    else Ok((Repetition(atom, s.text[next] != '*'), next + 1))
  }

  function ParseAtom(s: Source, delimiter: char, position: nat): (r: Result<(Pattern, nat)>)
    requires s.Valid() && position <= |s.text|
    ensures r.Ok? ==> position < r.value.1 <= |s.text|
    decreases |s.text| - position, 1
  {
    if position == |s.text| then Fail
    else if !s.IsSpecial(position) then Ok((Pattern.Literal(s.text[position]), position + 1))
    else match s.text[position]
      case '.' => Ok((AnyCharacter, position + 1))
      case '^' => Ok((StartOfLine, position + 1))
      case '$' => Ok((EndOfLine, position + 1))
      case '(' => ParseGroup(s, delimiter, position)
      case '[' => ParseClass(s, position)
      case '\\' =>
        if position + 1 == |s.text| then Fail else Ok((Pattern.Literal(s.text[position + 1]), position + 2))
      case '*' => Fail
      case '+' => Fail
      case value => Ok((Pattern.Literal(value), position + 1))
  }

  /** A group, from its opening parenthesis. */
  function ParseGroup(s: Source, delimiter: char, position: nat): (r: Result<(Pattern, nat)>)
    requires s.Valid() && position < |s.text|
    ensures r.Ok? ==> position < r.value.1 <= |s.text|
    decreases |s.text| - position, 0
  {
    if s.SpecialAt(position + 1, ')') then Fail
    else
      var (expression, next) :- ParseAlternation(s, delimiter, position + 1);
      if s.SpecialAt(next, ')') then Ok((Group(expression), next + 1)) else Fail
  }

  /** A character class, from its opening bracket. */
  function ParseClass(s: Source, position: nat): (r: Result<(Pattern, nat)>)
    requires s.Valid() && position < |s.text|
    ensures r.Ok? ==> position < r.value.1 <= |s.text|
  {
    var negated := s.SpecialAt(position + 1, '^');
    var (ranges, next) :- ParseRanges(s, if negated then position + 2 else position + 1);
    if s.SpecialAt(next, ']') && ranges != [] then Ok((CharacterClass(negated, ranges), next + 1)) else Fail
  }

  function ParseRanges(s: Source, position: nat): (r: Result<(seq<ClassRange>, nat)>)
    requires s.Valid() && position <= |s.text|
    ensures r.Ok? ==> position <= r.value.1 <= |s.text|
    decreases |s.text| - position
  {
    if position == |s.text| || s.SpecialAt(position, ']') then Ok(([], position))
    else
      var (range, next) :- ParseRange(s, position);
      Prepend([range], ParseRanges(s, next))
  }

  /** One class item: a byte, or two bytes around a `-` that does not end the class. */
  function ParseRange(s: Source, position: nat): (r: Result<(ClassRange, nat)>)
    requires s.Valid() && position <= |s.text|
    ensures r.Ok? ==> position < r.value.1 <= |s.text|
  {
    var (first, next) :- ParseClassCharacter(s, position);
    if s.SpecialAt(next, '-') && next + 1 < |s.text| && !s.SpecialAt(next + 1, ']') then
      var (last, end) :- ParseClassCharacter(s, next + 1);
      Ok((ClassRange(first, last), end))
    else
      Ok((ClassRange(first, first), next))
  }

  function ParseClassCharacter(s: Source, position: nat): (r: Result<(char, nat)>)
    requires s.Valid() && position <= |s.text|
    ensures r.Ok? ==> position < r.value.1 <= |s.text|
  {
    if position == |s.text| || s.SpecialAt(position, ']') then Fail
    else if !s.SpecialAt(position, '\\') then Ok((s.text[position], position + 1))
    else if position + 1 == |s.text| then Fail
    else Ok((s.text[position + 1], position + 2))
  }
}
