/** Which sources spell which patterns: whatever the parser accepts is a spelling of what it returns, all of it. */
module PatternSpelling {
  import opened Outcomes
  import opened Patterns
  import opened Characters
  import opened PatternGrammar

  /** The bytes that do not stand for themselves. */
  const SPECIAL_BYTES: set<char> := {'\\', '.', '^', '$', '(', '[', '*', '+'}

  /** The bytes from `i` to before `j` spell the pattern: a byte marked `Literal` or behind a backslash stands for
    itself,
    and special bytes mean what they look like. */
  ghost predicate Spells(s: Source, i: nat, j: nat, p: Pattern)
    requires s.Valid()
    decreases p, 0
  {
    match p
    case Literal(value) =>
      || (j == i + 1 <= |s.text| && s.text[i] == value && (s.IsSpecial(i) ==> value !in SPECIAL_BYTES))
      || (j == i + 2 <= |s.text| && s.text[i + 1] == value && s.SpecialAt(i, '\\'))
    case AnyCharacter => j == i + 1 && s.SpecialAt(i, '.')
    case StartOfLine => j == i + 1 && s.SpecialAt(i, '^')
    case EndOfLine => j == i + 1 && s.SpecialAt(i, '$')
    case Sequence(elements) => SpellsAll(s, i, j, elements)
    case Alternation(alternatives) => alternatives != [] && SpellsOr(s, i, j, alternatives)
    case Repetition(operand, atLeastOne) =>
      0 < j && s.SpecialAt(j - 1, if atLeastOne then '+' else '*') && Spells(s, i, j - 1, operand)
    case CharacterClass(negated, ranges) =>
      && 0 < j && s.SpecialAt(i, '[') && s.SpecialAt(j - 1, ']') && ranges != []
      && (negated == s.SpecialAt(i + 1, '^')) && SpellsRanges(s, if negated then i + 2 else i + 1, j - 1, ranges)
    case Group(expression) =>
      0 < j && s.SpecialAt(i, '(') && s.SpecialAt(j - 1, ')') && i + 1 < j - 1 && Spells(s, i + 1, j - 1, expression)
  }

  /** One pattern behind the other. */
  ghost predicate SpellsAll(s: Source, i: nat, j: nat, elements: seq<Pattern>)
    requires s.Valid()
    decreases elements, 0
  {
    if elements == [] then i == j
    else exists m: nat :: Spells(s, i, m, elements[0]) && SpellsAll(s, m, j, elements[1..])
  }

  /** Patterns with bars between them. */
  ghost predicate SpellsOr(s: Source, i: nat, j: nat, alternatives: seq<Pattern>)
    requires s.Valid() && alternatives != []
    decreases alternatives, 0
  {
    if |alternatives| == 1 then Spells(s, i, j, alternatives[0])
    else
      exists m: nat ::
        Spells(s, i, m, alternatives[0]) && s.SpecialAt(m, '|') && SpellsOr(s, m + 1, j, alternatives[1..])
  }

  /** The items of a character class: bytes, or two bytes with a minus between them. */
  ghost predicate SpellsRanges(s: Source, i: nat, j: nat, ranges: seq<ClassRange>)
    requires s.Valid()
    decreases ranges
  {
    if ranges == [] then i == j
    else exists m: nat :: SpellsRange(s, i, m, ranges[0]) && SpellsRanges(s, m, j, ranges[1..])
  }

  ghost predicate SpellsRange(s: Source, i: nat, j: nat, range: ClassRange)
    requires s.Valid()
  {
    || (SpellsByte(s, i, j, range.first) && range.last == range.first)
    || exists m: nat :: SpellsByte(s, i, m, range.first) && s.SpecialAt(m, '-') && SpellsByte(s, m + 1, j, range.last)
  }

  /** A byte in a class, perhaps behind a backslash. */
  predicate SpellsByte(s: Source, i: nat, j: nat, value: char)
    requires s.Valid()
  {
    || (j == i + 1 <= |s.text| && s.text[i] == value && !s.SpecialAt(i, '\\') && !s.SpecialAt(i, ']'))
    || (j == i + 2 <= |s.text| && s.text[i + 1] == value && s.SpecialAt(i, '\\'))
  }

  // ---------------------------------------------------------------- what is parsed is spelled

  /** What is accepted is a spelling of the pattern between two delimiters, and nothing else. */
  lemma {:induction false} ParsedIsSpelled(s: Source)
    requires s.Valid() && ParsePattern(s).Ok?
    ensures var last := |s.text| - 1;
      && last >= 1 && IsDelimiter(s.text[0]) && s.SpecialAt(last, s.text[0])
      && Spells(s, 1, last, ParsePattern(s).value)
  {
    hide ParseAlternation, Spells;
    AlternationIsSpelled(s, s.text[0], 1);
  }

  lemma {:induction false} AlternationIsSpelled(s: Source, delimiter: char, position: nat)
    requires s.Valid() && position <= |s.text|
    ensures var r := ParseAlternation(s, delimiter, position); r.Ok? ==> Spells(s, position, r.value.1, r.value.0)
    decreases |s.text| - position, 6
  {
    hide ParseSequence, ParseMoreAlternatives, SpellsOr;
    var first := ParseSequence(s, delimiter, position);
    if first.Ok? {
      SequenceIsSpelled(s, delimiter, position);
      AlternativesAreSpelled(s, delimiter, position, first.value.1, first.value.0);
      var more := ParseMoreAlternatives(s, delimiter, first.value.1);
      if more.Ok? && more.value.0 == [] {
        assert [first.value.0] + more.value.0 == [first.value.0];
        OneAlternative(s, position, more.value.1, first.value.0);
      }
    }
  }

  lemma {:induction false} OneAlternative(s: Source, i: nat, j: nat, p: Pattern)
    requires s.Valid()
    ensures SpellsOr(s, i, j, [p]) <==> Spells(s, i, j, p)
  {
    hide Spells;
  }

  lemma {:induction false} AlternativesAreSpelled(s: Source, delimiter: char, i: nat, position: nat, first: Pattern)
    requires s.Valid() && i <= position <= |s.text| && Spells(s, i, position, first)
    ensures var more := ParseMoreAlternatives(s, delimiter, position);
      more.Ok? ==> SpellsOr(s, i, more.value.1, [first] + more.value.0)
    decreases |s.text| - position, 5
  {
    hide ParseSequence, Spells;
    assert [first] + [] == [first];
    if s.SpecialAt(position, '|') && position + 1 < |s.text| && !s.StopAt(position + 1, delimiter) {
      var next := ParseSequence(s, delimiter, position + 1);
      if next.Ok? {
        SequenceIsSpelled(s, delimiter, position + 1);
        AlternativesAreSpelled(s, delimiter, position + 1, next.value.1, next.value.0);
        var more := ParseMoreAlternatives(s, delimiter, next.value.1);
        if more.Ok? {
          AlternativeJoins(s, i, position, more.value.1, first, [next.value.0] + more.value.0);
        }
      }
    }
  }

  lemma {:induction false} AlternativeJoins(s: Source, i: nat, m: nat, j: nat, first: Pattern, more: seq<Pattern>)
    requires s.Valid() && more != [] && Spells(s, i, m, first) && s.SpecialAt(m, '|') && SpellsOr(s, m + 1, j, more)
    ensures SpellsOr(s, i, j, [first] + more)
  {
    assert ([first] + more)[1..] == more && ([first] + more)[0] == first;
    hide Spells;
  }

  lemma {:induction false} SequenceIsSpelled(s: Source, delimiter: char, position: nat)
    requires s.Valid() && position <= |s.text|
    ensures var r := ParseSequence(s, delimiter, position); r.Ok? ==> Spells(s, position, r.value.1, r.value.0)
    decreases |s.text| - position, 4
  {
    hide ParseElements, SpellsAll;
    ElementsAreSpelled(s, delimiter, position);
    var elements := ParseElements(s, delimiter, position);
    if elements.Ok? && |elements.value.0| == 1 {
      OneElement(s, position, elements.value.1, elements.value.0);
    }
  }

  lemma {:induction false} OneElement(s: Source, i: nat, j: nat, elements: seq<Pattern>)
    requires s.Valid() && |elements| == 1 && SpellsAll(s, i, j, elements)
    ensures Spells(s, i, j, elements[0])
  {
    hide Spells;
    var m: nat :| Spells(s, i, m, elements[0]) && SpellsAll(s, m, j, elements[1..]);
  }

  lemma {:induction false} ElementsAreSpelled(s: Source, delimiter: char, position: nat)
    requires s.Valid() && position <= |s.text|
    ensures var r := ParseElements(s, delimiter, position); r.Ok? ==> SpellsAll(s, position, r.value.1, r.value.0)
    decreases |s.text| - position, 3
  {
    hide Spells, ParseRepetition;
    if position < |s.text| && !s.StopAt(position, delimiter) {
      var element := ParseRepetition(s, delimiter, position);
      if element.Ok? {
        RepetitionIsSpelled(s, delimiter, position);
        ElementsAreSpelled(s, delimiter, element.value.1);
        var more := ParseElements(s, delimiter, element.value.1);
        if more.Ok? {
          assert ([element.value.0] + more.value.0)[1..] == more.value.0;
        }
      }
    }
  }

  lemma {:induction false} RepetitionIsSpelled(s: Source, delimiter: char, position: nat)
    requires s.Valid() && position <= |s.text|
    ensures var r := ParseRepetition(s, delimiter, position); r.Ok? ==> Spells(s, position, r.value.1, r.value.0)
    decreases |s.text| - position, 2
  {
    hide ParseAtom;
    AtomIsSpelled(s, delimiter, position);
  }

  lemma {:induction false} AtomIsSpelled(s: Source, delimiter: char, position: nat)
    requires s.Valid() && position <= |s.text|
    ensures var r := ParseAtom(s, delimiter, position); r.Ok? ==> Spells(s, position, r.value.1, r.value.0)
    decreases |s.text| - position, 1
  {
    hide ParseClass, ParseAlternation, SpellsAll, SpellsOr, SpellsRanges;
    if s.SpecialAt(position, '[') {
      ClassIsSpelled(s, position);
    } else if s.SpecialAt(position, '(') {
      GroupIsSpelled(s, delimiter, position);
    }
  }

  lemma {:induction false} GroupIsSpelled(s: Source, delimiter: char, position: nat)
    requires s.Valid() && position < |s.text| && s.SpecialAt(position, '(')
    ensures var r := ParseGroup(s, delimiter, position); r.Ok? ==> Spells(s, position, r.value.1, r.value.0)
    decreases |s.text| - position, 0
  {
    hide ParseAlternation;
    if !s.SpecialAt(position + 1, ')') && position + 1 <= |s.text| {
      AlternationIsSpelled(s, delimiter, position + 1);
      var expression := ParseAlternation(s, delimiter, position + 1);
      if expression.Ok? && s.SpecialAt(expression.value.1, ')') {
        GroupSpells(s, position, expression.value.1, expression.value.0);
      }
    }
  }

  lemma {:induction false} GroupSpells(s: Source, i: nat, m: nat, p: Pattern)
    requires s.Valid() && s.SpecialAt(i, '(') && !s.SpecialAt(i + 1, ')') && i + 1 <= m && s.SpecialAt(m, ')')
    requires Spells(s, i + 1, m, p)
    ensures Spells(s, i, m + 1, Group(p))
  {
  }

  lemma {:induction false} ClassIsSpelled(s: Source, position: nat)
    requires s.Valid() && position < |s.text| && s.SpecialAt(position, '[')
    ensures var r := ParseClass(s, position); r.Ok? ==> Spells(s, position, r.value.1, r.value.0)
  {
    hide ParseRanges, SpellsRanges;
    var start := if s.SpecialAt(position + 1, '^') then position + 2 else position + 1;
    RangesAreSpelled(s, start);
  }

  lemma {:induction false} RangesAreSpelled(s: Source, position: nat)
    requires s.Valid() && position <= |s.text|
    ensures var r := ParseRanges(s, position); r.Ok? ==> SpellsRanges(s, position, r.value.1, r.value.0)
    decreases |s.text| - position
  {
    hide ParseRange, SpellsRange;
    if position < |s.text| && !s.SpecialAt(position, ']') {
      var range := ParseRange(s, position);
      if range.Ok? {
        RangeIsSpelled(s, position);
        RangesAreSpelled(s, range.value.1);
        var more := ParseRanges(s, range.value.1);
        if more.Ok? {
          assert ([range.value.0] + more.value.0)[1..] == more.value.0;
        }
      }
    }
  }

  lemma {:induction false} RangeIsSpelled(s: Source, position: nat)
    requires s.Valid() && position <= |s.text|
    ensures var r := ParseRange(s, position); r.Ok? ==> SpellsRange(s, position, r.value.1, r.value.0)
  {
    hide ParseClassCharacter, SpellsByte;
    ByteIsSpelled(s, position);
    var first := ParseClassCharacter(s, position);
    if first.Ok? && s.SpecialAt(first.value.1, '-') && first.value.1 + 1 < |s.text| {
      ByteIsSpelled(s, first.value.1 + 1);
    }
  }

  lemma {:induction false} ByteIsSpelled(s: Source, position: nat)
    requires s.Valid() && position <= |s.text|
    ensures var r := ParseClassCharacter(s, position); r.Ok? ==> SpellsByte(s, position, r.value.1, r.value.0)
  {
  }
}
