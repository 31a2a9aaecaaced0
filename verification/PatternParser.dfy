/** The recursive-descent pattern parser: a cursor over the source that every method advances.

  Each method is proved to return what the grammar function of the same name returns and to
  leave the cursor where that function says. */
module PatternParser {
  import opened Outcomes
  import opened Patterns
  import opened Characters
  import opened PatternGrammar

  class PatternParser {
    const source: Source
    var position: nat
    var delimiter: char

    ghost predicate Valid()
      reads this
    {
      source.Valid() && position <= |source.text|
    }

    constructor (source: Source)
      requires source.Valid()
      ensures Valid() && this.source == source && position == 0
    {
      this.source := source;
      position := 0;
      delimiter := '\0';
    }

    method Parse() returns (result: Result<Pattern>)
      requires Valid() && position == 0
      modifies this
      ensures Valid() && result == ParsePattern(source)
    {
      if |source.text| == 0 {
        return Fail;
      }
      delimiter := Consume();
      if !IsDelimiter(delimiter) {
        return Fail;
      }
      var expression :- ParseAlternation();
      if !source.SpecialAt(position, delimiter) {
        return Fail;
      }
      var _ := Consume();
      if position < |source.text| {
        return Fail;
      }
      return Ok(expression);
    }

    method Consume() returns (c: char)
      requires Valid() && position < |source.text|
      modifies this`position
      ensures Valid() && c == source.text[old(position)] && position == old(position) + 1
    {
      c := source.text[position];
      position := position + 1;
    }

    method ParseAlternation() returns (result: Result<Pattern>)
      requires Valid()
      modifies this`position
      ensures Valid()
      ensures Agrees(PatternGrammar.ParseAlternation(source, delimiter, old(position)), result, position)
      decreases |source.text| - position, 5
    {
      var first :- ParseSequence();
      var alternatives := [first];
      ghost var start := position;
      PrependNothing(ParseMoreAlternatives(source, delimiter, position));
      assert alternatives[1..] == [];
      while source.SpecialAt(position, '|')
        invariant Valid() && old(position) <= start <= position && alternatives != []
        invariant alternatives[0] == first
        invariant ParseMoreAlternatives(source, delimiter, start) ==
                  Prepend(alternatives[1..], ParseMoreAlternatives(source, delimiter, position))
        decreases |source.text| - position
      {
        var _ := Consume();
        if position == |source.text| || source.StopAt(position, delimiter) {
          return Fail;
        }
        var alternative :- ParseSequence();
        PrependOne(alternatives[1..], alternative, ParseMoreAlternatives(source, delimiter, position));
        assert (alternatives + [alternative])[1..] == alternatives[1..] + [alternative];
        alternatives := alternatives + [alternative];
      }
      assert alternatives[1..] + [] == alternatives[1..];
      if |alternatives| == 1 {
        return Ok(first);
      }
      assert alternatives == [first] + alternatives[1..];
      return Ok(Alternation(alternatives));
    }

    method ParseSequence() returns (result: Result<Pattern>)
      requires Valid()
      modifies this`position
      ensures Valid()
      ensures Agrees(PatternGrammar.ParseSequence(source, delimiter, old(position)), result, position)
      decreases |source.text| - position, 4
    {
      var elements: seq<Pattern> := [];
      PrependNothing(ParseElements(source, delimiter, position));
      while position < |source.text| && !source.StopAt(position, delimiter)
        invariant Valid() && old(position) <= position
        invariant ParseElements(source, delimiter, old(position)) ==
                  Prepend(elements, ParseElements(source, delimiter, position))
        decreases |source.text| - position
      {
        var element :- ParseRepetition();
        PrependOne(elements, element, ParseElements(source, delimiter, position));
        elements := elements + [element];
      }
      assert elements + [] == elements;
      return Ok(Sequenced(elements));
    }

    method ParseRepetition() returns (result: Result<Pattern>)
      requires Valid()
      modifies this`position
      ensures Valid()
      ensures Agrees(PatternGrammar.ParseRepetition(source, delimiter, old(position)), result, position)
      decreases |source.text| - position, 3
    {
      var atom :- ParseAtom();
      if source.OperatorAt(position) {
        var operator := Consume();
        atom := Repetition(atom, operator != '*');
        if source.OperatorAt(position) {
          return Fail;
        }
      }
      return Ok(atom);
    }

    method ParseAtom() returns (result: Result<Pattern>)
      requires Valid()
      modifies this`position
      ensures Valid()
      ensures Agrees(PatternGrammar.ParseAtom(source, delimiter, old(position)), result, position)
      decreases |source.text| - position, 2
    {
      if position == |source.text| {
        return Fail;
      }
      var special := source.IsSpecial(position);
      var value := Consume();
      if !special {
        return Ok(Pattern.Literal(value));
      }
      match value
      case '.' => return Ok(AnyCharacter);
      case '^' => return Ok(StartOfLine);
      case '$' => return Ok(EndOfLine);
      case '(' =>
        position := position - 1;
        result := ParseGroup();
      case '[' =>
        position := position - 1;
        result := ParseCharacterClass();
      case '\\' =>
        if position == |source.text| {
          return Fail;
        }
        value := Consume();
        return Ok(Pattern.Literal(value));
      case '*' => return Fail;
      case '+' => return Fail;
      case _ => return Ok(Pattern.Literal(value));
    }

    method ParseGroup() returns (result: Result<Pattern>)
      requires Valid() && position < |source.text|
      modifies this`position
      ensures Valid()
      ensures Agrees(PatternGrammar.ParseGroup(source, delimiter, old(position)), result, position)
      decreases |source.text| - position, 1
    {
      var _ := Consume();
      if source.SpecialAt(position, ')') {
        return Fail;
      }
      var expression :- ParseAlternation();
      if !source.SpecialAt(position, ')') {
        return Fail;
      }
      var _ := Consume();
      return Ok(Group(expression));
    }

    method ParseCharacterClass() returns (result: Result<Pattern>)
      requires Valid() && position < |source.text|
      modifies this`position
      ensures Valid()
      ensures Agrees(ParseClass(source, old(position)), result, position)
    {
      var _ := Consume();
      var negated := false;
      if source.SpecialAt(position, '^') {
        negated := true;
        var _ := Consume();
      }
      var ranges :- ReadRanges();
      if !source.SpecialAt(position, ']') {
        return Fail;
      }
      var _ := Consume();
      if ranges == [] {
        return Fail;
      }
      return Ok(CharacterClass(negated, ranges));
    }

    method ReadRanges() returns (result: Result<seq<ClassRange>>)
      requires Valid()
      modifies this`position
      ensures Valid()
      ensures Agrees(ParseRanges(source, old(position)), result, position)
    {
      var ranges: seq<ClassRange> := [];
      PrependNothing(ParseRanges(source, position));
      while position < |source.text| && !source.SpecialAt(position, ']')
        invariant Valid() && old(position) <= position
        invariant ParseRanges(source, old(position)) == Prepend(ranges, ParseRanges(source, position))
        decreases |source.text| - position
      {
        var range :- ReadRange();
        PrependOne(ranges, range, ParseRanges(source, position));
        ranges := ranges + [range];
      }
      assert ranges + [] == ranges;
      return Ok(ranges);
    }

    method ReadRange() returns (result: Result<ClassRange>)
      requires Valid()
      modifies this`position
      ensures Valid()
      ensures Agrees(ParseRange(source, old(position)), result, position)
    {
      var first :- ReadClassCharacter();
      if source.SpecialAt(position, '-') && position + 1 < |source.text| && !source.SpecialAt(position + 1, ']') {
        var _ := Consume();
        var last :- ReadClassCharacter();
        return Ok(ClassRange(first, last));
      }
      return Ok(ClassRange(first, first));
    }

    method ReadClassCharacter() returns (result: Result<char>)
      requires Valid()
      modifies this`position
      ensures Valid()
      ensures Agrees(ParseClassCharacter(source, old(position)), result, position)
    {
      if position == |source.text| || source.SpecialAt(position, ']') {
        return Fail;
      }
      var special := source.IsSpecial(position);
      var value := Consume();
      if special && value == '\\' {
        if position == |source.text| {
          return Fail;
        }
        value := Consume();
      }
      return Ok(value);
    }
  }
}
