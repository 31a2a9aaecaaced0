/** All that the pattern parser looks at in the metadata of a byte is whether it is marked `Literal`. */
module PatternMetadata {
  import opened Outcomes
  import opened Patterns
  import opened Characters
  import opened PatternGrammar

  /** The same bytes, and the same ones of them protected. */
  ghost predicate AreAlike(s: Source, t: Source) {
    && s.Valid() && t.Valid() && s.text == t.text
    && forall k: nat :: s.IsSpecial(k) == t.IsSpecial(k)
  }

  /** Such sources are the same pattern, or none. */
  lemma {:induction false} AlikeParse(s: Source, t: Source)
    requires AreAlike(s, t)
    ensures ParsePattern(s) == ParsePattern(t)
  {
    hide ParseAlternation;
    if s.text != "" && IsDelimiter(s.text[0]) {
      AlikeAlternations(s, t, s.text[0], 1);
    }
  }

  lemma {:induction false} AlikeAlternations(s: Source, t: Source, delimiter: char, position: nat)
    requires AreAlike(s, t) && position <= |s.text|
    ensures ParseAlternation(s, delimiter, position) == ParseAlternation(t, delimiter, position)
    decreases |s.text| - position, 6
  {
    hide ParseSequence, ParseMoreAlternatives;
    AlikeSequences(s, t, delimiter, position);
    var first := ParseSequence(s, delimiter, position);
    if first.Ok? {
      AlikeMore(s, t, delimiter, first.value.1);
    }
  }

  lemma {:induction false} AlikeMore(s: Source, t: Source, delimiter: char, position: nat)
    requires AreAlike(s, t) && position <= |s.text|
    ensures ParseMoreAlternatives(s, delimiter, position) == ParseMoreAlternatives(t, delimiter, position)
    decreases |s.text| - position, 5
  {
    hide ParseSequence;
    if s.SpecialAt(position, '|') && position + 1 < |s.text| && !s.StopAt(position + 1, delimiter) {
      AlikeSequences(s, t, delimiter, position + 1);
      var first := ParseSequence(s, delimiter, position + 1);
      if first.Ok? {
        AlikeMore(s, t, delimiter, first.value.1);
      }
    }
  }

  lemma {:induction false} AlikeSequences(s: Source, t: Source, delimiter: char, position: nat)
    requires AreAlike(s, t) && position <= |s.text|
    ensures ParseSequence(s, delimiter, position) == ParseSequence(t, delimiter, position)
    decreases |s.text| - position, 4
  {
    hide ParseElements;
    AlikeElements(s, t, delimiter, position);
  }

  lemma {:induction false} AlikeElements(s: Source, t: Source, delimiter: char, position: nat)
    requires AreAlike(s, t) && position <= |s.text|
    ensures ParseElements(s, delimiter, position) == ParseElements(t, delimiter, position)
    decreases |s.text| - position, 3
  {
    hide ParseRepetition;
    if position < |s.text| && !s.StopAt(position, delimiter) {
      AlikeRepetitions(s, t, delimiter, position);
      var first := ParseRepetition(s, delimiter, position);
      if first.Ok? {
        AlikeElements(s, t, delimiter, first.value.1);
      }
    }
  }

  lemma {:induction false} AlikeRepetitions(s: Source, t: Source, delimiter: char, position: nat)
    requires AreAlike(s, t) && position <= |s.text|
    ensures ParseRepetition(s, delimiter, position) == ParseRepetition(t, delimiter, position)
    decreases |s.text| - position, 2
  {
    hide ParseAtom;
    AlikeAtoms(s, t, delimiter, position);
  }

  lemma {:induction false} AlikeAtoms(s: Source, t: Source, delimiter: char, position: nat)
    requires AreAlike(s, t) && position <= |s.text|
    ensures ParseAtom(s, delimiter, position) == ParseAtom(t, delimiter, position)
    decreases |s.text| - position, 1
  {
    hide ParseGroup, ParseClass;
    if position < |s.text| {
      AlikeGroups(s, t, delimiter, position);
      AlikeClasses(s, t, position);
    }
  }

  lemma {:induction false} AlikeGroups(s: Source, t: Source, delimiter: char, position: nat)
    requires AreAlike(s, t) && position < |s.text|
    ensures ParseGroup(s, delimiter, position) == ParseGroup(t, delimiter, position)
    decreases |s.text| - position, 0
  {
    hide ParseAlternation;
    AlikeAlternations(s, t, delimiter, position + 1);
  }

  lemma {:induction false} AlikeClasses(s: Source, t: Source, position: nat)
    requires AreAlike(s, t) && position < |s.text|
    ensures ParseClass(s, position) == ParseClass(t, position)
  {
    hide ParseRanges;
    AlikeRanges(s, t, if s.SpecialAt(position + 1, '^') then position + 2 else position + 1);
  }

  lemma {:induction false} AlikeRanges(s: Source, t: Source, position: nat)
    requires AreAlike(s, t) && position <= |s.text|
    ensures ParseRanges(s, position) == ParseRanges(t, position)
    decreases |s.text| - position
  {
    if position < |s.text| && !s.SpecialAt(position, ']') {
      AlikeRange(s, t, position);
      hide ParseRange;
      var first := ParseRange(s, position);
      if first.Ok? {
        AlikeRanges(s, t, first.value.1);
      }
    }
  }

  lemma {:induction false} AlikeRange(s: Source, t: Source, position: nat)
    requires AreAlike(s, t) && position <= |s.text|
    ensures ParseRange(s, position) == ParseRange(t, position)
  {
  }
}
