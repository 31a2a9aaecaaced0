/** Which trees the pattern parser builds, and how to write any of them down.

  The parser returns exactly the canonical trees: every tree it returns is canonical
  (`ParsedIsCanonical`), and printing a canonical tree between delimiters parses back to the
  same tree (`PrintedParsesBack`). */
module PatternRoundTrip {
  import opened Outcomes
  import opened Patterns
  import opened Characters
  import opened PatternGrammar
  import opened LiteralPatterns

  /** Trees written without a repetition operator, `|` or juxtaposition at the top. */
  ghost predicate IsAtom(p: Pattern)
    decreases p, 0
  {
    match p
    case Literal(_) => true
    case AnyCharacter => true
    case StartOfLine => true
    case EndOfLine => true
    case CharacterClass(_, ranges) => ranges != []
    case Group(expression) => expression != Sequence([]) && IsCanonical(expression)
    case _ => false
  }

  /** At most one repetition operator over an atom. */
  ghost predicate IsRepeated(p: Pattern)
    decreases p, 1
  {
    match p
    case Repetition(operand, _) => IsAtom(operand)
    case _ => IsAtom(p)
  }

  /** No element, one element on its own, or at least two elements in a `Sequence`. */
  ghost predicate IsSequenced(p: Pattern)
    decreases p, 2
  {
    match p
    case Sequence(elements) => |elements| != 1 && forall k :: 0 <= k < |elements| ==> IsRepeated(elements[k])
    case _ => IsRepeated(p)
  }

  /** A sequence, or at least two alternatives of which only the first may be empty. */
  ghost predicate IsCanonical(p: Pattern)
    decreases p, 3
  {
    match p
    case Alternation(alternatives) =>
      && |alternatives| >= 2
      && (forall k :: 0 <= k < |alternatives| ==> IsSequenced(alternatives[k]))
      && (forall k :: 1 <= k < |alternatives| ==> alternatives[k] != Sequence([]))
    case _ => IsSequenced(p)
  }

  lemma {:induction false} RepeatedIsSequenced(p: Pattern)
    requires IsRepeated(p)
    ensures !p.Sequence? && !p.Alternation? && IsSequenced(p)
  {
  }

  lemma {:induction false} SequencedIsCanonical(p: Pattern)
    requires IsSequenced(p)
    ensures !p.Alternation? && IsCanonical(p)
  {
    if !p.Sequence? {
      RepeatedIsSequenced(p);
    }
  }

  // ---------------------------------------------------------------- parsed trees are canonical

  lemma {:induction false} ParsedAlternationIsCanonical(s: Source, delimiter: char, position: nat)
    requires s.Valid() && position <= |s.text|
    ensures var r := ParseAlternation(s, delimiter, position);
      r.Ok? ==>
        && IsCanonical(r.value.0)
        && (r.value.0 == Sequence([]) ==>
            r.value.1 == position && (position == |s.text| || s.StopAt(position, delimiter)))
    decreases |s.text| - position, 6
  {
    hide ParseSequence, ParseMoreAlternatives, IsSequenced, IsCanonical;
    var first := ParseSequence(s, delimiter, position);
    if first.Ok? {
      ParsedSequenceIsCanonical(s, delimiter, position);
      SequencedIsCanonical(first.value.0);
      ParsedAlternativesAreCanonical(s, delimiter, first.value.1);
      var more := ParseMoreAlternatives(s, delimiter, first.value.1);
      if more.Ok? && more.value.0 != [] {
        AlternationIsCanonical(first.value.0, more.value.0);
      } else if more.Ok? {
        NoMoreAlternatives(s, delimiter, first.value.1);
      }
    }
  }

  lemma {:induction false} NoMoreAlternatives(s: Source, delimiter: char, position: nat)
    requires s.Valid() && position <= |s.text|
    requires ParseMoreAlternatives(s, delimiter, position).Ok? &&
             ParseMoreAlternatives(s, delimiter, position).value.0 == []
    ensures ParseMoreAlternatives(s, delimiter, position).value.1 == position
  {
    hide ParseSequence;
  }

  lemma {:induction false} AlternationIsCanonical(first: Pattern, more: seq<Pattern>)
    requires IsSequenced(first) && more != []
    requires forall k :: 0 <= k < |more| ==> IsSequenced(more[k]) && more[k] != Sequence([])
    ensures IsCanonical(Alternation([first] + more))
  {
    var alternatives := [first] + more;
    forall k | 0 <= k < |alternatives| ensures IsSequenced(alternatives[k]) &&
        (k >= 1 ==> alternatives[k] != Sequence([])) {
      assert k >= 1 ==> alternatives[k] == more[k - 1];
    }
    assert IsCanonical(Alternation(alternatives));
  }

  lemma {:induction false} ParsedAlternativesAreCanonical(s: Source, delimiter: char, position: nat)
    requires s.Valid() && position <= |s.text|
    ensures var r := ParseMoreAlternatives(s, delimiter, position);
      r.Ok? ==> forall k :: 0 <= k < |r.value.0| ==> IsSequenced(r.value.0[k]) && r.value.0[k] != Sequence([])
    decreases |s.text| - position, 5
  {
    if s.SpecialAt(position, '|') && position + 1 < |s.text| && !s.StopAt(position + 1, delimiter) {
      var alternative := ParseSequence(s, delimiter, position + 1);
      if alternative.Ok? {
        ParsedSequenceIsCanonical(s, delimiter, position + 1);
        ParsedAlternativesAreCanonical(s, delimiter, alternative.value.1);
        var more := ParseMoreAlternatives(s, delimiter, alternative.value.1);
        var r := ParseMoreAlternatives(s, delimiter, position);
        if r.Ok? {
          forall k | 0 <= k < |r.value.0| ensures IsSequenced(r.value.0[k]) && r.value.0[k] != Sequence([]) {
            assert r.value.0[k] == if k == 0 then alternative.value.0 else more.value.0[k - 1];
          }
        }
      }
    }
  }

  lemma {:induction false} ParsedSequenceIsCanonical(s: Source, delimiter: char, position: nat)
    requires s.Valid() && position <= |s.text|
    ensures var r := ParseSequence(s, delimiter, position);
      r.Ok? ==>
        && IsSequenced(r.value.0) && !r.value.0.Alternation?
        && (r.value.0 == Sequence([]) ==>
            r.value.1 == position && (position == |s.text| || s.StopAt(position, delimiter)))
    decreases |s.text| - position, 4
  {
    ParsedElementsAreCanonical(s, delimiter, position);
    var r := ParseElements(s, delimiter, position);
    if r.Ok? && |r.value.0| == 1 {
      RepeatedIsSequenced(r.value.0[0]);
    }
  }

  lemma {:induction false} ParsedElementsAreCanonical(s: Source, delimiter: char, position: nat)
    requires s.Valid() && position <= |s.text|
    ensures var r := ParseElements(s, delimiter, position);
      r.Ok? ==>
        && (forall k :: 0 <= k < |r.value.0| ==> IsRepeated(r.value.0[k]))
        && (r.value.0 == [] ==> r.value.1 == position && (position == |s.text| || s.StopAt(position, delimiter)))
    decreases |s.text| - position, 3
  {
    if position < |s.text| && !s.StopAt(position, delimiter) {
      var element := ParseRepetition(s, delimiter, position);
      if element.Ok? {
        ParsedRepetitionIsCanonical(s, delimiter, position);
        ParsedElementsAreCanonical(s, delimiter, element.value.1);
      }
    }
  }

  lemma {:induction false} ParsedRepetitionIsCanonical(s: Source, delimiter: char, position: nat)
    requires s.Valid() && position <= |s.text|
    ensures var r := ParseRepetition(s, delimiter, position); r.Ok? ==> IsRepeated(r.value.0)
    decreases |s.text| - position, 2
  {
    ParsedAtomIsCanonical(s, delimiter, position);
  }

  lemma {:induction false} ParsedAtomIsCanonical(s: Source, delimiter: char, position: nat)
    requires s.Valid() && position <= |s.text|
    ensures var r := ParseAtom(s, delimiter, position); r.Ok? ==> IsAtom(r.value.0)
    decreases |s.text| - position, 1
  {
    if s.SpecialAt(position, '(') && position + 1 <= |s.text| {
      ParsedAlternationIsCanonical(s, delimiter, position + 1);
    }
  }

  /** Every tree the parser returns is canonical, whatever the metadata. */
  lemma {:induction false} ParsedIsCanonical(s: Source)
    requires s.Valid() && ParsePattern(s).Ok?
    ensures IsCanonical(ParsePattern(s).value)
  {
    ParsedAlternationIsCanonical(s, s.text[0], 1);
  }

  // ---------------------------------------------------------------- printing

  /** The bytes that mean something in a pattern, outside a character class and inside one. */
  const STRUCTURAL: set<char> := {'\\', '.', '^', '$', '(', ')', '[', '*', '+', '|'}
  const CLASS_SYNTAX: set<char> := {'\\', ']', '-', '^'}

  /** A byte that stands for itself, behind a backslash if it is one of the given ones. */
  function PrintByte(value: char, escapes: set<char>): string {
    if value in escapes then ['\\', value] else [value]
  }

  /** The text of a tree; the bytes in `escapes`, at least, are written behind a backslash. */
  function Print(p: Pattern, escapes: set<char>): string
    decreases p, 0
  {
    match p
    case Literal(value) => PrintByte(value, escapes)
    case AnyCharacter => "."
    case StartOfLine => "^"
    case EndOfLine => "$"
    case Sequence(elements) => PrintElements(elements, escapes)
    case Alternation(alternatives) =>
      if alternatives == [] then "" else Print(alternatives[0], escapes) + PrintAlternatives(alternatives[1..], escapes)
    case Repetition(operand, atLeastOne) => Print(operand, escapes) + (if atLeastOne then "+" else "*")
    case CharacterClass(negated, ranges) => (if negated then "[^" else "[") + PrintRanges(ranges, escapes) + "]"
    case Group(expression) => "(" + Print(expression, escapes) + ")"
  }

  function PrintElements(elements: seq<Pattern>, escapes: set<char>): string
    decreases elements, 0
  {
    if elements == [] then "" else Print(elements[0], escapes) + PrintElements(elements[1..], escapes)
  }

  function PrintAlternatives(alternatives: seq<Pattern>, escapes: set<char>): string
    decreases alternatives, 0
  {
    if alternatives == [] then ""
    else "|" + Print(alternatives[0], escapes) + PrintAlternatives(alternatives[1..], escapes)
  }

  function PrintRanges(ranges: seq<ClassRange>, escapes: set<char>): string {
    if ranges == [] then "" else PrintRange(ranges[0], escapes) + PrintRanges(ranges[1..], escapes)
  }

  function PrintRange(range: ClassRange, escapes: set<char>): string {
    if range.first == range.last then PrintByte(range.first, escapes + CLASS_SYNTAX)
    else PrintByte(range.first, escapes + CLASS_SYNTAX) + "-" + PrintByte(range.last, escapes + CLASS_SYNTAX)
  }

  /** A pattern between two delimiters, as a user types it. */
  function Delimited(delimiter: char, p: Pattern, escapes: set<char>): string {
    [delimiter] + Print(p, escapes) + [delimiter]
  }

  /** Delimiters that are not themselves part of the printed syntax. */
  predicate IsPlainDelimiter(c: char) {
    IsDelimiter(c) && c !in STRUCTURAL
  }

  /** A way to write patterns between such delimiters: literal bytes that would mean something else are escaped. */
  predicate IsSpelling(delimiter: char, escapes: set<char>) {
    IsPlainDelimiter(delimiter) && STRUCTURAL + {delimiter} <= escapes
  }

  /** The text `w` stands at `position`, and none of its bytes is protected. */
  ghost predicate Shows(s: Source, position: nat, w: string)
    requires s.Valid()
    decreases |w|
  {
    if w == "" then position <= |s.text|
    else s.SpecialAt(position, w[0]) && Shows(s, position + 1, w[1..])
  }

  lemma {:induction false} ShowsParts(s: Source, position: nat, a: string, b: string)
    requires s.Valid() && Shows(s, position, a + b)
    ensures Shows(s, position, a) && Shows(s, position + |a|, b)
    decreases |a|
  {
    if a == "" {
      assert a + b == b;
      ShowsInText(s, position, b);
    } else {
      assert (a + b)[1..] == a[1..] + b;
      ShowsParts(s, position + 1, a[1..], b);
    }
  }

  lemma {:induction false} ShowsInText(s: Source, position: nat, w: string)
    requires s.Valid() && Shows(s, position, w)
    ensures position + |w| <= |s.text|
    decreases |w|
  {
    if w != "" {
      ShowsInText(s, position + 1, w[1..]);
    }
  }

  /** No byte is protected. */
  predicate IsUnprotected(s: Source)
    requires s.Valid()
  {
    forall k :: 0 <= k < |s.text| ==> s.IsSpecial(k)
  }

  /** In unprotected text, a text shows wherever its bytes stand. */
  lemma {:induction false} ShowsSlice(s: Source, position: nat, w: string)
    requires s.Valid() && IsUnprotected(s)
    requires position + |w| <= |s.text| && s.text[position..position + |w|] == w
    ensures Shows(s, position, w)
    decreases |w|
  {
    if w != "" {
      assert s.text[position..position + |w|][0] == s.text[position];
      assert s.text[position + 1..position + |w|] == w[1..];
      ShowsSlice(s, position + 1, w[1..]);
    }
  }

  // How each kind of tree prints, one step at a time.

  /** A printed atom, repetition or non-empty sequence starts with one of these bytes. */
  predicate StartsLikeAtom(w: string, escapes: set<char>) {
    w != "" && (w[0] in {'\\', '.', '^', '$', '(', '['} || w[0] !in escapes)
  }

  lemma {:induction false} PrintedStart(p: Pattern, escapes: set<char>)
    requires IsRepeated(p)
    ensures StartsLikeAtom(Print(p, escapes), escapes)
  {
    if p.Repetition? {
      PrintedStart(p.operand, escapes);
    }
  }

  lemma {:induction false} PrintedElementsSplit(elements: seq<Pattern>, escapes: set<char>)
    requires elements != []
    ensures PrintElements(elements, escapes) == Print(elements[0], escapes) + PrintElements(elements[1..], escapes)
  {
  }

  lemma {:induction false} PrintedAlternativesSplit(alternatives: seq<Pattern>, escapes: set<char>)
    requires alternatives != []
    ensures PrintAlternatives(alternatives, escapes) ==
            "|" + (Print(alternatives[0], escapes) + PrintAlternatives(alternatives[1..], escapes))
  {
  }

  lemma {:induction false} PrintedRangesSplit(ranges: seq<ClassRange>, escapes: set<char>)
    requires ranges != []
    ensures PrintRanges(ranges, escapes) == PrintRange(ranges[0], escapes) + PrintRanges(ranges[1..], escapes)
  {
  }

  lemma {:induction false} ElementsStart(elements: seq<Pattern>, escapes: set<char>)
    requires forall k :: 0 <= k < |elements| ==> IsRepeated(elements[k])
    ensures if elements == [] then PrintElements(elements, escapes) == ""
            else StartsLikeAtom(PrintElements(elements, escapes), escapes)
  {
    if elements != [] {
      PrintedStart(elements[0], escapes);
      PrintedElementsSplit(elements, escapes);
    }
  }

  lemma {:induction false} SequencedStart(p: Pattern, escapes: set<char>)
    requires IsSequenced(p) && p != Sequence([])
    ensures StartsLikeAtom(Print(p, escapes), escapes)
  {
    if p.Sequence? {
      ElementsStart(p.elements, escapes);
    } else {
      PrintedStart(p, escapes);
    }
  }

  /** A printed group body does not start with `)`. */
  lemma {:induction false} GroupBodyStart(p: Pattern, escapes: set<char>)
    requires IsCanonical(p) && p != Sequence([]) && ')' in escapes
    ensures Print(p, escapes) != "" && Print(p, escapes)[0] != ')'
  {
    if p.Alternation? {
      var first, more := p.alternatives[0], p.alternatives[1..];
      PrintedAlternativesSplit(more, escapes);
      if first != Sequence([]) {
        SequencedStart(first, escapes);
      }
    } else {
      SequencedStart(p, escapes);
    }
  }

  // How each grammar function proceeds, one step at a time.

  lemma {:induction false} ShownStart(s: Source, delimiter: char, position: nat, w: string, escapes: set<char>)
    requires s.Valid() && IsSpelling(delimiter, escapes) && Shows(s, position, w) && StartsLikeAtom(w, escapes)
    ensures position < |s.text| && !s.StopAt(position, delimiter) && !s.OperatorAt(position)
    ensures !s.SpecialAt(position, ')') && !s.SpecialAt(position, '|')
  {
  }

  lemma {:induction false} ShownByte(s: Source, position: nat, c: char)
    requires s.Valid() && Shows(s, position, [c])
    ensures s.SpecialAt(position, c) && position < |s.text|
  {
  }

  /** No operator stands where printed text starts like an atom or, if it is empty, a sequence stops. */
  lemma {:induction false} NoOperator(s: Source, delimiter: char, position: nat, rest: string, escapes: set<char>)
    requires s.Valid() && IsSpelling(delimiter, escapes) && Shows(s, position, rest)
    requires if rest == "" then s.StopAt(position, delimiter) else StartsLikeAtom(rest, escapes)
    ensures !s.OperatorAt(position)
  {
  }

  lemma {:induction false} RepetitionStep(s: Source, delimiter: char, position: nat, atom: Pattern, next: nat)
    requires s.Valid() && position <= |s.text| && ParseAtom(s, delimiter, position) == Ok((atom, next))
    ensures !s.OperatorAt(next) ==> ParseRepetition(s, delimiter, position) == Ok((atom, next))
    ensures s.SpecialAt(next, '*') && !s.OperatorAt(next + 1) ==>
              ParseRepetition(s, delimiter, position) == Ok((Repetition(atom, false), next + 1))
    ensures s.SpecialAt(next, '+') && !s.OperatorAt(next + 1) ==>
              ParseRepetition(s, delimiter, position) == Ok((Repetition(atom, true), next + 1))
  {
  }

  lemma {:induction false} ElementsStep(s: Source, delimiter: char, position: nat, element: Pattern, next: nat,
                                        more: seq<Pattern>, end: nat)
    requires s.Valid() && position < |s.text| && !s.StopAt(position, delimiter)
    requires ParseRepetition(s, delimiter, position) == Ok((element, next))
    requires next <= |s.text| && ParseElements(s, delimiter, next) == Ok((more, end))
    ensures ParseElements(s, delimiter, position) == Ok(([element] + more, end))
  {
  }

  lemma {:induction false} ElementsStop(s: Source, delimiter: char, position: nat)
    requires s.Valid() && s.StopAt(position, delimiter)
    ensures position < |s.text| && ParseElements(s, delimiter, position) == Ok(([], position))
  {
  }

  lemma {:induction false} SequenceStep(s: Source, delimiter: char, position: nat, elements: seq<Pattern>, next: nat)
    requires s.Valid() && position <= |s.text| && ParseElements(s, delimiter, position) == Ok((elements, next))
    ensures ParseSequence(s, delimiter, position) == Ok((Sequenced(elements), next))
  {
  }

  lemma {:induction false} AlternativesStep(s: Source, delimiter: char, position: nat, alternative: Pattern,
                                            next: nat, more: seq<Pattern>, end: nat)
    requires s.Valid() && s.SpecialAt(position, '|') && position + 1 < |s.text| && !s.StopAt(position + 1, delimiter)
    requires ParseSequence(s, delimiter, position + 1) == Ok((alternative, next))
    requires next <= |s.text| && ParseMoreAlternatives(s, delimiter, next) == Ok((more, end))
    ensures ParseMoreAlternatives(s, delimiter, position) == Ok(([alternative] + more, end))
  {
  }

  lemma {:induction false} AlternativesStop(s: Source, delimiter: char, position: nat)
    requires s.Valid() && position <= |s.text| && !s.SpecialAt(position, '|')
    ensures ParseMoreAlternatives(s, delimiter, position) == Ok(([], position))
  {
  }

  lemma {:induction false} AlternationStep(s: Source, delimiter: char, position: nat, first: Pattern, next: nat,
                                           more: seq<Pattern>, end: nat)
    requires s.Valid() && position <= |s.text|
    requires ParseSequence(s, delimiter, position) == Ok((first, next))
    requires next <= |s.text| && ParseMoreAlternatives(s, delimiter, next) == Ok((more, end))
    ensures ParseAlternation(s, delimiter, position) == Ok((Alternatives(first, more), end))
  {
  }

  lemma {:induction false} ClassStep(s: Source, delimiter: char, position: nat, negated: bool,
                                     ranges: seq<ClassRange>, next: nat)
    requires s.Valid() && s.SpecialAt(position, '[') && ranges != []
    requires negated == s.SpecialAt(position + 1, '^') && position + (if negated then 2 else 1) <= |s.text|
    requires ParseRanges(s, position + (if negated then 2 else 1)) == Ok((ranges, next)) && s.SpecialAt(next, ']')
    ensures ParseAtom(s, delimiter, position) == Ok((CharacterClass(negated, ranges), next + 1))
  {
  }

  lemma {:induction false} GroupStep(s: Source, delimiter: char, position: nat, expression: Pattern, next: nat)
    requires s.Valid() && s.SpecialAt(position, '(') && !s.SpecialAt(position + 1, ')')
    requires ParseAlternation(s, delimiter, position + 1) == Ok((expression, next)) && s.SpecialAt(next, ')')
    ensures ParseAtom(s, delimiter, position) == Ok((Group(expression), next + 1))
  {
  }

  lemma {:induction false} RangesStep(s: Source, position: nat, range: ClassRange, next: nat, more: seq<ClassRange>,
                                      end: nat)
    requires s.Valid() && position < |s.text| && !s.SpecialAt(position, ']')
    requires ParseRange(s, position) == Ok((range, next)) && ParseRanges(s, next) == Ok((more, end))
    ensures ParseRanges(s, position) == Ok(([range] + more, end))
  {
  }

  // Printed text parses back, construct by construct.

  lemma {:induction false} PrintedRangeParses(s: Source, range: ClassRange, position: nat, escapes: set<char>)
    requires s.Valid() && Shows(s, position, PrintRange(range, escapes))
    requires !s.SpecialAt(position + |PrintRange(range, escapes)|, '-')
    ensures ParseRange(s, position) == Ok((range, position + |PrintRange(range, escapes)|))
    ensures position < |s.text| && !s.SpecialAt(position, ']')
  {
    hide Shows, PrintByte, ParseClassCharacter;
    var first, last := PrintByte(range.first, escapes + CLASS_SYNTAX), PrintByte(range.last, escapes + CLASS_SYNTAX);
    if range.first == range.last {
      PrintedClassByteParses(s, range.first, escapes, position);
    } else {
      assert PrintRange(range, escapes) == first + ("-" + last);
      ShowsParts(s, position, first, "-" + last);
      ShowsParts(s, position + |first|, "-", last);
      ShownByte(s, position + |first|, '-');
      PrintedClassByteParses(s, range.first, escapes, position);
      PrintedClassByteParses(s, range.last, escapes, position + |first| + 1);
    }
  }

  lemma {:induction false} PrintedClassByteParses(s: Source, value: char, escapes: set<char>, position: nat)
    requires s.Valid() && Shows(s, position, PrintByte(value, escapes + CLASS_SYNTAX))
    ensures ParseClassCharacter(s, position) == Ok((value, position + |PrintByte(value, escapes + CLASS_SYNTAX)|))
    ensures position < |s.text| && !s.SpecialAt(position, ']')
  {
    if value in escapes + CLASS_SYNTAX {
      assert ['\\', value][1..] == [value];
      ShownByte(s, position + 1, value);
    }
  }

  lemma {:induction false} RangesStart(ranges: seq<ClassRange>, escapes: set<char>)
    ensures if ranges == [] then PrintRanges(ranges, escapes) == ""
            else PrintRanges(ranges, escapes) != "" && PrintRanges(ranges, escapes)[0] !in {']', '-', '^'}
  {
    if ranges != [] {
      PrintedRangesSplit(ranges, escapes);
    }
  }

  lemma {:induction false} ShownRanges(s: Source, position: nat, w: string)
    requires s.Valid() && Shows(s, position, w)
    requires if w == "" then s.SpecialAt(position, ']') else w[0] !in {']', '-', '^'}
    ensures !s.SpecialAt(position, '-') && !s.SpecialAt(position, '^')
  {
  }

  lemma {:induction false} PrintedRangesParse(s: Source, ranges: seq<ClassRange>, position: nat, escapes: set<char>)
    requires s.Valid() && Shows(s, position, PrintRanges(ranges, escapes))
    requires s.SpecialAt(position + |PrintRanges(ranges, escapes)|, ']')
    ensures ParseRanges(s, position) == Ok((ranges, position + |PrintRanges(ranges, escapes)|))
    decreases |ranges|, 1
  {
    if ranges == [] {
      assert ParseRanges(s, position) == Ok(([], position));
    } else {
      PrintedRangesStep(s, ranges, position, escapes);
    }
  }

  lemma {:induction false} PrintedRangesStep(s: Source, ranges: seq<ClassRange>, position: nat, escapes: set<char>)
    requires s.Valid() && ranges != [] && Shows(s, position, PrintRanges(ranges, escapes))
    requires s.SpecialAt(position + |PrintRanges(ranges, escapes)|, ']')
    ensures ParseRanges(s, position) == Ok((ranges, position + |PrintRanges(ranges, escapes)|))
    decreases |ranges|, 0
  {
    hide ParseRanges, ParseRange, PrintRanges, PrintRange, Shows;
    var r, rest := PrintRange(ranges[0], escapes), PrintRanges(ranges[1..], escapes);
    PrintedRangesSplit(ranges, escapes);
    ShowsParts(s, position, r, rest);
    RangesStart(ranges[1..], escapes);
    ShownRanges(s, position + |r|, rest);
    PrintedRangeParses(s, ranges[0], position, escapes);
    PrintedRangesParse(s, ranges[1..], position + |r|, escapes);
    RangesStep(s, position, ranges[0], position + |r|, ranges[1..], position + |r| + |rest|);
    assert [ranges[0]] + ranges[1..] == ranges;
  }

  lemma {:induction false} PrintedClassParses(s: Source, delimiter: char, negated: bool, ranges: seq<ClassRange>,
                                              position: nat, escapes: set<char>)
    requires s.Valid() && ranges != [] && Shows(s, position, Print(CharacterClass(negated, ranges), escapes))
    ensures ParseAtom(s, delimiter, position) ==
            Ok((CharacterClass(negated, ranges), position + |Print(CharacterClass(negated, ranges), escapes)|))
  {
    hide ParseAtom, Print, PrintRanges;
    var body := PrintRanges(ranges, escapes);
    if negated {
      PrintedClassSplit(negated, ranges, escapes);
      ShowsParts(s, position, "[^", body + "]");
      assert "[^"[1..] == "^" && Shows(s, position + 1, "^");
      PrintedClassBody(s, delimiter, negated, ranges, position, position + 2, escapes);
    } else {
      PrintedClassSplit(negated, ranges, escapes);
      ShowsParts(s, position, "[", body + "]");
      PrintedClassBody(s, delimiter, negated, ranges, position, position + 1, escapes);
    }
  }

  lemma {:induction false} PrintedClassSplit(negated: bool, ranges: seq<ClassRange>, escapes: set<char>)
    ensures Print(CharacterClass(negated, ranges), escapes) ==
            (if negated then "[^" else "[") + (PrintRanges(ranges, escapes) + "]")
  {
  }

  lemma {:induction false} PrintedClassBody(s: Source, delimiter: char, negated: bool, ranges: seq<ClassRange>,
                                            position: nat, start: nat, escapes: set<char>)
    requires s.Valid() && ranges != [] && s.SpecialAt(position, '[')
    requires start == position + if negated then 2 else 1
    requires negated ==> s.SpecialAt(position + 1, '^')
    requires Shows(s, start, PrintRanges(ranges, escapes) + "]")
    ensures ParseAtom(s, delimiter, position) ==
            Ok((CharacterClass(negated, ranges), start + |PrintRanges(ranges, escapes)| + 1))
  {
    hide ParseAtom, ParseRanges, PrintRanges, Shows;
    var body := PrintRanges(ranges, escapes);
    RangesStart(ranges, escapes);
    ShowsParts(s, start, body, "]");
    ShownByte(s, start + |body|, ']');
    ShownRanges(s, start, body);
    PrintedRangesParse(s, ranges, start, escapes);
    ClassStep(s, delimiter, position, negated, ranges, start + |body|);
  }

  lemma {:induction false} PrintedAtomParses(s: Source, delimiter: char, p: Pattern, position: nat, escapes: set<char>)
    requires s.Valid() && IsSpelling(delimiter, escapes) && IsAtom(p) && Shows(s, position, Print(p, escapes))
    ensures ParseAtom(s, delimiter, position) == Ok((p, position + |Print(p, escapes)|))
    decreases p, 0
  {
    match p
    case CharacterClass(negated, ranges) =>
      PrintedClassParses(s, delimiter, negated, ranges, position, escapes);
    case Group(expression) =>
      PrintedGroupParses(s, delimiter, expression, position, escapes);
    case _ =>
      PrintedByteParses(s, delimiter, p, position, escapes);
  }

  lemma {:induction false} PrintedByteParses(s: Source, delimiter: char, p: Pattern, position: nat, escapes: set<char>)
    requires s.Valid() && STRUCTURAL <= escapes && (p.Literal? || p.AnyCharacter? || p.StartOfLine? || p.EndOfLine?)
    requires Shows(s, position, Print(p, escapes))
    ensures ParseAtom(s, delimiter, position) == Ok((p, position + |Print(p, escapes)|))
  {
    if p.Literal? && p.value in escapes {
      assert Print(p, escapes)[1..] == [p.value];
      ShownByte(s, position + 1, p.value);
    }
  }

  lemma {:induction false} PrintedGroupParses(s: Source, delimiter: char, expression: Pattern, position: nat,
                                              escapes: set<char>)
    requires s.Valid() && IsSpelling(delimiter, escapes)
    requires expression != Sequence([]) && IsCanonical(expression) &&
             Shows(s, position, Print(Group(expression), escapes))
    ensures ParseAtom(s, delimiter, position) == Ok((Group(expression), position + |Print(Group(expression), escapes)|))
    decreases expression, 5
  {
    var body := Print(expression, escapes);
    PrintedGroupSplit(expression, escapes);
    hide *;
    ShowsParts(s, position, "(", body + ")");
    ShowsParts(s, position + 1, body, ")");
    ShownByte(s, position, '(');
    ShownByte(s, position + 1 + |body|, ')');
    BracketIsEscaped(delimiter, escapes);
    GroupBodyStart(expression, escapes);
    ShownNotClosing(s, position + 1, body);
    BracketStops(s, delimiter, position + 1 + |body|);
    PrintedAlternationParses(s, delimiter, expression, position + 1, escapes);
    GroupStep(s, delimiter, position, expression, position + 1 + |body|);
  }

  lemma {:induction false} BracketIsEscaped(delimiter: char, escapes: set<char>)
    requires IsSpelling(delimiter, escapes)
    ensures ')' in escapes
  {
  }

  lemma {:induction false} PrintedGroupSplit(expression: Pattern, escapes: set<char>)
    ensures Print(Group(expression), escapes) == "(" + (Print(expression, escapes) + ")")
  {
  }

  lemma {:induction false} ShownNotClosing(s: Source, position: nat, w: string)
    requires s.Valid() && Shows(s, position, w) && w != "" && w[0] != ')'
    ensures !s.SpecialAt(position, ')')
  {
  }

  lemma {:induction false} PrintedRepetitionSplits(p: Pattern, escapes: set<char>)
    requires p.Repetition? && IsRepeated(p)
    ensures IsAtom(p.operand) && Print(p, escapes) == Print(p.operand, escapes) + [if p.atLeastOne then '+' else '*']
  {
    hide IsAtom;
  }

  lemma {:induction false} RepeatedIsAtom(p: Pattern)
    requires !p.Repetition? && IsRepeated(p)
    ensures IsAtom(p)
  {
    hide IsAtom;
  }

  lemma {:induction false} PrintedRepetitionParses(s: Source, delimiter: char, p: Pattern, position: nat,
                                                   escapes: set<char>)
    requires s.Valid() && IsSpelling(delimiter, escapes) && IsRepeated(p) && Shows(s, position, Print(p, escapes))
    requires !s.OperatorAt(position + |Print(p, escapes)|)
    ensures ParseRepetition(s, delimiter, position) == Ok((p, position + |Print(p, escapes)|))
    decreases p, 1
  {
    hide Print, ParseRepetition, ParseAtom, IsAtom, IsRepeated, Shows;
    if p.Repetition? {
      var operand := p.operand;
      var operator := if p.atLeastOne then '+' else '*';
      PrintedRepetitionSplits(p, escapes);
      ShowsParts(s, position, Print(operand, escapes), [operator]);
      ShownByte(s, position + |Print(operand, escapes)|, operator);
      PrintedAtomParses(s, delimiter, operand, position, escapes);
      RepetitionStep(s, delimiter, position, operand, position + |Print(operand, escapes)|);
    } else {
      RepeatedIsAtom(p);
      PrintedAtomParses(s, delimiter, p, position, escapes);
      RepetitionStep(s, delimiter, position, p, position + |Print(p, escapes)|);
    }
  }

  lemma {:induction false} PrintedElementsParse(s: Source, delimiter: char, elements: seq<Pattern>, position: nat,
                                                escapes: set<char>)
    requires s.Valid() && IsSpelling(delimiter, escapes)
    requires forall k :: 0 <= k < |elements| ==> IsRepeated(elements[k])
    requires Shows(s, position, PrintElements(elements, escapes)) &&
             s.StopAt(position + |PrintElements(elements, escapes)|, delimiter)
    ensures ParseElements(s, delimiter, position) == Ok((elements, position + |PrintElements(elements, escapes)|))
    decreases elements, 1
  {
    hide *;
    if elements == [] {
      NoElements(escapes);
      ShowsInText(s, position, PrintElements(elements, escapes));
      ElementsStop(s, delimiter, position);
    } else {
      PrintedElementsSplit(elements, escapes);
      PrintedElementsStep(s, delimiter, elements, elements[1..], position, escapes);
    }
  }

  lemma {:induction false} PrintedElementsStep(s: Source, delimiter: char, elements: seq<Pattern>, tail: seq<Pattern>,
                                               position: nat, escapes: set<char>)
    requires s.Valid() && IsSpelling(delimiter, escapes) && elements != [] && tail == elements[1..]
    requires forall k :: 0 <= k < |elements| ==> IsRepeated(elements[k])
    requires Shows(s, position, Print(elements[0], escapes) + PrintElements(tail, escapes))
    requires s.StopAt(position + |Print(elements[0], escapes)| + |PrintElements(tail, escapes)|, delimiter)
    ensures ParseElements(s, delimiter, position) ==
            Ok((elements, position + |Print(elements[0], escapes)| + |PrintElements(tail, escapes)|))
    decreases elements, 0
  {
    hide *;
    var w, rest := Print(elements[0], escapes), PrintElements(tail, escapes);
    var next := position + |w|;
    ShowsParts(s, position, w, rest);
    ElementsStart(tail, escapes);
    NoOperator(s, delimiter, next, rest, escapes);
    PrintedStart(elements[0], escapes);
    ShownStart(s, delimiter, position, w, escapes);
    PrintedRepetitionParses(s, delimiter, elements[0], position, escapes);
    PrintedElementsParse(s, delimiter, tail, next, escapes);
    ElementsStep(s, delimiter, position, elements[0], next, tail, next + |rest|);
    assert [elements[0]] + tail == elements;
  }

  lemma {:induction false} PrintedSequenceParses(s: Source, delimiter: char, p: Pattern, position: nat,
                                                 escapes: set<char>)
    requires s.Valid() && IsSpelling(delimiter, escapes) && IsSequenced(p) && Shows(s, position, Print(p, escapes))
    requires s.StopAt(position + |Print(p, escapes)|, delimiter)
    ensures ParseSequence(s, delimiter, position) == Ok((p, position + |Print(p, escapes)|))
    decreases p, 2
  {
    hide *;
    SequencedParts(p, escapes);
    ShowsInText(s, position, Print(p, escapes));
    if p.Sequence? {
      PrintedElementsParse(s, delimiter, p.elements, position, escapes);
      SequenceStep(s, delimiter, position, p.elements, position + |Print(p, escapes)|);
    } else {
      var next := position + |Print(p, escapes)|;
      PrintedStart(p, escapes);
      ShownStart(s, delimiter, position, Print(p, escapes), escapes);
      ElementsStop(s, delimiter, next);
      StopIsNoOperator(s, delimiter, next, escapes);
      PrintedRepetitionParses(s, delimiter, p, position, escapes);
      ElementsStep(s, delimiter, position, p, next, [], next);
      assert [p] + [] == [p];
      SequenceStep(s, delimiter, position, [p], next);
    }
  }

  lemma {:induction false} SequencedParts(p: Pattern, escapes: set<char>)
    requires IsSequenced(p)
    ensures if p.Sequence? then
              && Print(p, escapes) == PrintElements(p.elements, escapes) && Sequenced(p.elements) == p
              && forall k :: 0 <= k < |p.elements| ==> IsRepeated(p.elements[k])
            else IsRepeated(p) && Sequenced([p]) == p
  {
    hide IsRepeated, PrintElements;
  }

  lemma {:induction false} StopIsNoOperator(s: Source, delimiter: char, position: nat, escapes: set<char>)
    requires s.Valid() && IsSpelling(delimiter, escapes) && s.StopAt(position, delimiter)
    ensures !s.OperatorAt(position)
  {
  }

  lemma {:induction false} BracketStops(s: Source, delimiter: char, position: nat)
    requires s.Valid() && s.SpecialAt(position, ')')
    ensures s.StopAt(position, delimiter) && !s.SpecialAt(position, '|')
  {
  }

  /** Printed further alternatives start with `|`, which ends the alternative before them. */
  lemma {:induction false} ShownAlternatives(s: Source, delimiter: char, position: nat, alternatives: seq<Pattern>,
                                             escapes: set<char>)
    requires s.Valid() && Shows(s, position, PrintAlternatives(alternatives, escapes))
    requires alternatives == [] ==> s.StopAt(position, delimiter)
    ensures s.StopAt(position, delimiter)
  {
    if alternatives != [] {
      PrintedAlternativesSplit(alternatives, escapes);
      ShowsParts(s, position, "|", Print(alternatives[0], escapes) + PrintAlternatives(alternatives[1..], escapes));
      ShownByte(s, position, '|');
    }
  }

  lemma {:induction false} PrintedAlternativesParse(s: Source, delimiter: char, alternatives: seq<Pattern>,
                                                    position: nat, escapes: set<char>)
    requires s.Valid() && IsSpelling(delimiter, escapes)
    requires forall k :: 0 <= k < |alternatives| ==> IsSequenced(alternatives[k]) && alternatives[k] != Sequence([])
    requires Shows(s, position, PrintAlternatives(alternatives, escapes))
    requires var end := position + |PrintAlternatives(alternatives, escapes)|;
      s.StopAt(end, delimiter) && !s.SpecialAt(end, '|')
    ensures ParseMoreAlternatives(s, delimiter, position) ==
            Ok((alternatives, position + |PrintAlternatives(alternatives, escapes)|))
    decreases alternatives, 0
  {
    hide *;
    NoAlternatives(escapes);
    if alternatives == [] {
      ShowsInText(s, position, PrintAlternatives(alternatives, escapes));
      AlternativesStop(s, delimiter, position);
    } else {
      PrintedAlternativesSplit(alternatives, escapes);
      var first, tail := alternatives[0], alternatives[1..];
      var w, rest := Print(first, escapes), PrintAlternatives(tail, escapes);
      var next := position + 1 + |w|;
      ShowsParts(s, position, "|", w + rest);
      ShownByte(s, position, '|');
      ShowsParts(s, position + 1, w, rest);
      SequencedStart(first, escapes);
      ShownStart(s, delimiter, position + 1, w, escapes);
      ShownAlternatives(s, delimiter, next, tail, escapes);
      PrintedSequenceParses(s, delimiter, first, position + 1, escapes);
      PrintedAlternativesParse(s, delimiter, tail, next, escapes);
      AlternativesStep(s, delimiter, position, first, next, tail, next + |rest|);
      assert [first] + tail == alternatives;
    }
  }

  lemma {:induction false} PrintedAlternationParses(s: Source, delimiter: char, p: Pattern, position: nat,
                                                    escapes: set<char>)
    requires s.Valid() && IsSpelling(delimiter, escapes) && IsCanonical(p) && Shows(s, position, Print(p, escapes))
    requires var end := position + |Print(p, escapes)|; s.StopAt(end, delimiter) && !s.SpecialAt(end, '|')
    ensures ParseAlternation(s, delimiter, position) == Ok((p, position + |Print(p, escapes)|))
    decreases p, 4
  {
    if p.Alternation? {
      assert Print(p, escapes) == Print(p.alternatives[0], escapes) + PrintAlternatives(p.alternatives[1..], escapes);
      assert [p.alternatives[0]] + p.alternatives[1..] == p.alternatives;
      hide Print, PrintAlternatives, ParseAlternation, Shows, IsSpelling;
      PrintedBranchesParse(s, delimiter, p, p.alternatives[0], p.alternatives[1..], position, escapes);
    } else {
      assert IsSequenced(p);
      hide Print, PrintAlternatives, ParseAlternation, Shows, IsSpelling, IsSequenced, IsCanonical;
      assert PrintAlternatives([], escapes) == "" by {
        NoAlternatives(escapes);
      }
      assert Print(p, escapes) + "" == Print(p, escapes);
      PrintedBranchesParse(s, delimiter, p, p, [], position, escapes);
    }
  }

  lemma {:induction false} NoElements(escapes: set<char>)
    ensures PrintElements([], escapes) == ""
  {
  }

  lemma {:induction false} NoAlternatives(escapes: set<char>)
    ensures PrintAlternatives([], escapes) == ""
  {
  }

  lemma {:induction false} PrintedBranchesParse(s: Source, delimiter: char, p: Pattern, first: Pattern,
                                                more: seq<Pattern>, position: nat, escapes: set<char>)
    requires s.Valid() && IsSpelling(delimiter, escapes) && IsSequenced(first)
    requires forall k :: 0 <= k < |more| ==> IsSequenced(more[k]) && more[k] != Sequence([])
    requires Shows(s, position, Print(first, escapes) + PrintAlternatives(more, escapes))
    requires var end := position + |Print(first, escapes) + PrintAlternatives(more, escapes)|;
      s.StopAt(end, delimiter) && !s.SpecialAt(end, '|')
    ensures ParseAlternation(s, delimiter, position) ==
            Ok((Alternatives(first, more), position + |Print(first, escapes) + PrintAlternatives(more, escapes)|))
    requires more == [] ==> p == first
    requires more != [] ==>
             p.Alternation? && p.alternatives != [] && p.alternatives[0] == first && p.alternatives[1..] == more
    decreases p, 3
  {
    hide Print, PrintAlternatives, ParseAlternation, ParseMoreAlternatives, ParseSequence, IsSequenced, Shows,
         IsSpelling;
    var w, rest := Print(first, escapes), PrintAlternatives(more, escapes);
    ShowsParts(s, position, w, rest);
    ShowsInText(s, position, w);
    if more == [] {
      assert rest == "" by {
        NoAlternatives(escapes);
      }
    }
    ShownAlternatives(s, delimiter, position + |w|, more, escapes);
    PrintedSequenceParses(s, delimiter, first, position, escapes);
    if more == [] {
      AlternativesStop(s, delimiter, position + |w|);
    } else {
      PrintedAlternativesParse(s, delimiter, more, position + |w|, escapes);
    }
    AlternationStep(s, delimiter, position, first, position + |w|, more, position + |w| + |rest|);
  }

  /** Printing a canonical tree between plain delimiters and parsing the text gives the tree back, whichever further
    bytes are escaped, and whether the bytes are ordinary or forced to be special. */
  lemma {:induction false} PrintedParsesBack(s: Source, delimiter: char, p: Pattern, escapes: set<char>)
    requires IsSpelling(delimiter, escapes) && IsCanonical(p)
    requires s.Valid() && IsUnprotected(s) && s.text == Delimited(delimiter, p, escapes)
    ensures ParsePattern(s) == Ok(p)
  {
    hide ParseAlternation, Print, IsCanonical, Shows;
    ShowsSlice(s, 1, Print(p, escapes));
    PrintedAlternationParses(s, delimiter, p, 1, escapes);
  }

  /** The canonical trees are exactly the results of the parser. */
  lemma {:induction false} CanonicalIffParsed(p: Pattern)
    ensures IsCanonical(p) <==> exists s: Source :: s.Valid() && ParsePattern(s) == Ok(p)
  {
    if IsCanonical(p) {
      var escapes := STRUCTURAL + {'/'};
      var s := Source(Delimited('/', p, escapes), []);
      PrintedParsesBack(s, '/', p, escapes);
      assert s.Valid();
    }
    if s: Source :| s.Valid() && ParsePattern(s) == Ok(p) {
      ParsedIsCanonical(s);
    }
  }

  // ---------------------------------------------------------------- text that means itself

  /** Text without structural bytes between delimiters is the pattern of just that text. */
  lemma {:induction false} PlainTextParses(s: Source, delimiter: char, w: string)
    requires IsPlainDelimiter(delimiter) && delimiter !in w && forall c :: c in STRUCTURAL ==> c !in w
    requires s.Valid() && IsUnprotected(s) && s.text == [delimiter] + w + [delimiter]
    ensures ParsePattern(s) == Ok(LiteralPattern(w))
  {
    var escapes := STRUCTURAL + {delimiter};
    LiteralsPrint(w, escapes);
    LiteralIsCanonical(w);
    PrintedParsesBack(s, delimiter, LiteralPattern(w), escapes);
  }

  lemma {:induction false} LiteralsPrint(w: string, escapes: set<char>)
    requires forall k :: 0 <= k < |w| ==> w[k] !in escapes
    ensures PrintElements(Literals(w), escapes) == w && Print(LiteralPattern(w), escapes) == w
  {
    hide LiteralPattern;
    if w == "" {
      NoElements(escapes);
    } else {
      LiteralsPrint(w[1..], escapes);
      FirstLiteral(w);
      PrintedElementsSplit(Literals(w), escapes);
      assert [w[0]] + w[1..] == w;
    }
    LiteralPrints(w, escapes);
  }

  lemma {:induction false} FirstLiteral(w: string)
    requires w != ""
    ensures Literals(w) == [Pattern.Literal(w[0])] + Literals(w[1..])
  {
  }

  lemma {:induction false} LiteralPrints(w: string, escapes: set<char>)
    requires PrintElements(Literals(w), escapes) == w && forall k :: 0 <= k < |w| ==> w[k] !in escapes
    ensures Print(LiteralPattern(w), escapes) == w
  {
    LiteralsAreLiteral(w);
    if |w| == 1 {
      FirstLiteral(w);
    }
    hide Literals, PrintElements;
  }

  lemma {:induction false} LiteralIsCanonical(w: string)
    ensures IsCanonical(LiteralPattern(w))
  {
    var elements := Literals(w);
    LiteralsAreLiteral(w);
    forall k | 0 <= k < |elements| ensures IsRepeated(elements[k]) {
      assert IsAtom(elements[k]);
    }
    hide Literals;
    if |w| == 1 {
      RepeatedIsSequenced(elements[0]);
    }
    SequencedIsCanonical(LiteralPattern(w));
  }

  lemma {:induction false} LiteralsAreLiteral(w: string)
    ensures |Literals(w)| == |w| && forall k :: 0 <= k < |w| ==> Literals(w)[k].Literal?
  {
    if w != "" {
      LiteralsAreLiteral(w[1..]);
    }
  }
}
