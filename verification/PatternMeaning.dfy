/** What typed patterns match, told from their text: which bytes stand where in a line. */
module PatternMeaning {
  import opened Outcomes
  import opened Characters
  import opened Patterns
  import opened PatternGrammar
  import opened PatternRoundTrip
  import opened LiteralPatterns
  import LineCommands

  /** What one byte of a line can be. */
  datatype Unit = Byte(value: char) | Any | Among(negated: bool, first: char, last: char)

  /** A piece of a pattern. */
  datatype Item = Start | End | One(unit: Unit) | Star(unit: Unit) | Plus(unit: Unit) | Either(one: string, two: string)

  predicate IsPlainByte(c: char) {
    c !in {'\\', '.', '^', '$', '(', ')', '[', '*', '+', '|', '/'}
  }

  predicate IsUnit(unit: Unit) {
    match unit
    case Among(_, first, last) =>
      (IsLetter(first) || IsDigit(first)) && (IsLetter(last) || IsDigit(last)) && first < last
    case _ => true
  }

  predicate IsItem(item: Item) {
    match item
    case One(unit) => IsUnit(unit)
    case Star(unit) => IsUnit(unit)
    case Plus(unit) => IsUnit(unit)
    case Either(one, two) => two != "" && forall k :: 0 <= k < |one + two| ==> IsPlainByte((one + two)[k])
    case _ => true
  }

  /** Items one behind the other, and some of these with bars between them, of which only the first may be empty. */
  predicate AreItems(items: seq<Item>) {
    forall k :: 0 <= k < |items| ==> IsItem(items[k])
  }

  predicate AreChoices(choices: seq<seq<Item>>) {
    && choices != []
    && forall k :: 0 <= k < |choices| ==> AreItems(choices[k]) && (k > 0 ==> choices[k] != [])
  }

  // ---------------------------------------------------------------- how they are typed

  function UnitText(unit: Unit): string {
    match unit
    case Byte(value) => if IsPlainByte(value) then [value] else ['\\', value]
    case Any => "."
    case Among(negated, first, last) => (if negated then "[^" else "[") + ([first] + "-" + [last]) + "]"
  }

  function ItemText(item: Item): string {
    match item
    case Start => "^"
    case End => "$"
    case One(unit) => UnitText(unit)
    case Star(unit) => UnitText(unit) + "*"
    case Plus(unit) => UnitText(unit) + "+"
    case Either(one, two) => "(" + (one + ("|" + two)) + ")"
  }

  function ItemsText(items: seq<Item>): string {
    if items == [] then "" else ItemText(items[0]) + ItemsText(items[1..])
  }

  function ChoicesText(choices: seq<seq<Item>>): string
    requires choices != []
  {
    if |choices| == 1 then ItemsText(choices[0]) else ItemsText(choices[0]) + ("|" + ChoicesText(choices[1..]))
  }

  // ---------------------------------------------------------------- where they stand

  predicate IsByteOf(unit: Unit, c: char) {
    match unit
    case Byte(value) => c == value
    case Any => true
    case Among(negated, first, last) => (first <= c <= last) != negated
  }

  /** The bytes of a line from `i` to before `j` are what the item asks for. */
  predicate ItemStands(item: Item, line: string, i: nat, j: nat) {
    match item
    case Start => i == j == 0
    case End => i == j == |line|
    case One(unit) => j == i + 1 <= |line| && IsByteOf(unit, line[i])
    case Star(unit) => i <= j <= |line| && forall k :: i <= k < j ==> IsByteOf(unit, line[k])
    case Plus(unit) => i < j <= |line| && forall k :: i <= k < j ==> IsByteOf(unit, line[k])
    case Either(one, two) => (OccursAt(line, one, i) && j == i + |one|) || (OccursAt(line, two, i) && j == i + |two|)
  }

  ghost predicate ItemsStand(items: seq<Item>, line: string, i: nat, j: nat) {
    if items == [] then i == j
    else exists m: nat :: ItemStands(items[0], line, i, m) && ItemsStand(items[1..], line, m, j)
  }

  ghost predicate ChoiceStands(choices: seq<seq<Item>>, line: string, i: nat, j: nat) {
    exists k :: 0 <= k < |choices| && ItemsStand(choices[k], line, i, j)
  }

  // ---------------------------------------------------------------- their trees

  function UnitTree(unit: Unit): Pattern {
    match unit
    case Byte(value) => Pattern.Literal(value)
    case Any => AnyCharacter
    case Among(negated, first, last) => CharacterClass(negated, [ClassRange(first, last)])
  }

  function ItemTree(item: Item): Pattern {
    match item
    case Start => StartOfLine
    case End => EndOfLine
    case One(unit) => UnitTree(unit)
    case Star(unit) => Repetition(UnitTree(unit), false)
    case Plus(unit) => Repetition(UnitTree(unit), true)
    case Either(one, two) => Group(Alternation([LiteralPattern(one), LiteralPattern(two)]))
  }

  function ItemTrees(items: seq<Item>): seq<Pattern> {
    if items == [] then [] else [ItemTree(items[0])] + ItemTrees(items[1..])
  }

  function ChoiceTrees(choices: seq<seq<Item>>): seq<Pattern> {
    if choices == [] then [] else [Sequenced(ItemTrees(choices[0]))] + ChoiceTrees(choices[1..])
  }

  function Tree(choices: seq<seq<Item>>): Pattern
    requires choices != []
  {
    if |choices| == 1 then Sequenced(ItemTrees(choices[0])) else Alternation(ChoiceTrees(choices))
  }

  // ---------------------------------------------------------------- typed, they parse to their trees

  const ESCAPES: set<char> := STRUCTURAL + {'/'}

  lemma {:induction false} PlainBytes(c: char)
    ensures IsPlainByte(c) <==> c !in ESCAPES
  {
  }

  lemma {:induction false} UnitPrints(unit: Unit)
    requires IsUnit(unit)
    ensures Print(UnitTree(unit), ESCAPES) == UnitText(unit) && IsAtom(UnitTree(unit))
  {
    match unit
    case Byte(value) => PlainBytes(value);
    case Any =>
    case Among(negated, first, last) =>
      var ranges := [ClassRange(first, last)];
      assert first !in ESCAPES + CLASS_SYNTAX && last !in ESCAPES + CLASS_SYNTAX;
      assert ranges[1..] == [];
      assert PrintRanges(ranges, ESCAPES) == ([first] + "-" + [last]) + "";
  }

  lemma {:induction false} ItemPrints(item: Item)
    requires IsItem(item)
    ensures Print(ItemTree(item), ESCAPES) == ItemText(item) && IsRepeated(ItemTree(item))
  {
    hide UnitText, UnitTree, LiteralPattern;
    match item
    case One(unit) =>
      UnitPrints(unit);
      AtomIsRepeated(UnitTree(unit));
    case Star(unit) => UnitPrints(unit);
    case Plus(unit) => UnitPrints(unit);
    case Either(one, two) => EitherPrints(one, two);
    case _ =>
  }

  lemma {:induction false} AtomIsRepeated(p: Pattern)
    requires IsAtom(p)
    ensures IsRepeated(p)
  {
  }

  lemma {:induction false} EitherPrints(one: string, two: string)
    requires IsItem(Either(one, two))
    ensures var p := Alternation([LiteralPattern(one), LiteralPattern(two)]);
      Print(Group(p), ESCAPES) == "(" + (one + ("|" + two)) + ")" && IsRepeated(Group(p))
  {
    hide LiteralPattern;
    PlainPrints(one, one + two, 0);
    PlainPrints(two, one + two, |one|);
    var trees := [LiteralPattern(one), LiteralPattern(two)];
    TwoPrint(trees);
    TextIsSequenced(one);
    TextIsSequenced(two);
    NothingIsEmpty(two);
    EitherIsCanonical(trees);
  }

  lemma {:induction false} PlainPrints(w: string, all: string, at: nat)
    requires at + |w| <= |all| && all[at..at + |w|] == w && forall k :: 0 <= k < |all| ==> IsPlainByte(all[k])
    ensures Print(LiteralPattern(w), ESCAPES) == w
  {
    forall k | 0 <= k < |w| ensures w[k] !in ESCAPES {
      assert w[k] == all[at..at + |w|][k];
      PlainBytes(w[k]);
    }
    LiteralsPrint(w, ESCAPES);
  }

  lemma {:induction false} TwoPrint(trees: seq<Pattern>)
    requires |trees| == 2
    ensures Print(Alternation(trees), ESCAPES) == Print(trees[0], ESCAPES) + ("|" + Print(trees[1], ESCAPES))
  {
    assert trees[1..][0] == trees[1] && trees[1..][1..] == [];
    assert PrintAlternatives(trees[1..], ESCAPES) == "|" + Print(trees[1], ESCAPES) + "";
  }

  lemma {:induction false} TextIsSequenced(w: string)
    ensures IsSequenced(LiteralPattern(w))
  {
    LiteralIsCanonical(w);
    LiteralsAreLiteral(w);
  }

  lemma {:induction false} NothingIsEmpty(w: string)
    requires w != ""
    ensures LiteralPattern(w) != Sequence([])
  {
    LiteralsAreLiteral(w);
  }

  lemma {:induction false} EitherIsCanonical(trees: seq<Pattern>)
    requires |trees| == 2 && IsSequenced(trees[0]) && IsSequenced(trees[1]) && trees[1] != Sequence([])
    ensures IsRepeated(Group(Alternation(trees)))
  {
    assert IsCanonical(Alternation(trees));
    assert IsAtom(Group(Alternation(trees)));
  }

  lemma {:induction false} ItemsPrint(items: seq<Item>)
    requires AreItems(items)
    ensures |ItemTrees(items)| == |items| && PrintElements(ItemTrees(items), ESCAPES) == ItemsText(items)
    ensures forall k :: 0 <= k < |items| ==> IsRepeated(ItemTrees(items)[k])
  {
    hide ItemTree, ItemText, IsRepeated, IsItem;
    if items != [] {
      ItemPrints(items[0]);
      ItemsPrint(items[1..]);
      var trees := ItemTrees(items);
      assert trees[1..] == ItemTrees(items[1..]);
      forall k | 0 <= k < |items| ensures IsRepeated(trees[k]) {
        assert k > 0 ==> trees[k] == ItemTrees(items[1..])[k - 1];
      }
      PrintedElementsSplit(trees, ESCAPES);
    } else {
      NoElements(ESCAPES);
    }
  }

  lemma {:induction false} SequencePrints(items: seq<Item>)
    requires AreItems(items)
    ensures var p := Sequenced(ItemTrees(items));
      Print(p, ESCAPES) == ItemsText(items) && IsSequenced(p) && (items != [] ==> p != Sequence([]))
  {
    hide ItemTrees, ItemsText, IsItem;
    ItemsPrint(items);
    var trees := ItemTrees(items);
    if |trees| == 1 {
      RepeatedIsSequenced(trees[0]);
      PrintedElementsSplit(trees, ESCAPES);
      assert trees[1..] == [];
      NoElements(ESCAPES);
      assert Print(trees[0], ESCAPES) + "" == Print(trees[0], ESCAPES);
    }
  }

  lemma {:induction false} ChoicesPrint(choices: seq<seq<Item>>)
    requires AreChoices(choices)
    ensures |ChoiceTrees(choices)| == |choices|
    ensures forall k :: 0 <= k < |choices| ==>
      ChoiceTrees(choices)[k] == Sequenced(ItemTrees(choices[k])) && IsSequenced(ChoiceTrees(choices)[k])
      && (k > 0 ==> ChoiceTrees(choices)[k] != Sequence([]))
    ensures Print(ChoiceTrees(choices)[0], ESCAPES) + PrintAlternatives(ChoiceTrees(choices)[1..], ESCAPES) ==
            ChoicesText(choices)
    decreases |choices|
  {
    hide ItemTrees, ItemsText, IsItem, Print, IsSequenced, Sequenced;
    var trees := ChoiceTrees(choices);
    SequencePrints(choices[0]);
    if |choices| == 1 {
      assert choices[1..] == [] && ChoiceTrees(choices[1..]) == [];
      assert trees == [Sequenced(ItemTrees(choices[0]))] && trees[1..] == [];
      NoAlternatives(ESCAPES);
      assert ItemsText(choices[0]) + "" == ItemsText(choices[0]);
    } else {
      var rest := choices[1..];
      assert AreChoices(rest) by {
        forall k | 0 <= k < |rest| ensures AreItems(rest[k]) && (k > 0 ==> rest[k] != []) {
          assert rest[k] == choices[k + 1];
        }
      }
      ChoicesPrint(rest);
      assert trees[1..] == ChoiceTrees(rest);
      forall k | 0 <= k < |choices|
        ensures trees[k] == Sequenced(ItemTrees(choices[k])) && IsSequenced(trees[k]) &&
                (k > 0 ==> trees[k] != Sequence([]))
      {
        if k > 0 {
          assert trees[k] == ChoiceTrees(rest)[k - 1] && choices[k] == rest[k - 1];
          SequencePrints(choices[k]);
        }
      }
      PrintedAlternativesSplit(trees[1..], ESCAPES);
    }
  }

  lemma {:induction false} TreePrints(choices: seq<seq<Item>>)
    requires AreChoices(choices)
    ensures Print(Tree(choices), ESCAPES) == ChoicesText(choices) && IsCanonical(Tree(choices))
  {
    hide ChoiceTrees, ItemTrees, ItemsText, ChoicesText, IsSequenced, Sequenced, IsItem;
    ChoicesPrint(choices);
    var trees := ChoiceTrees(choices);
    if |choices| == 1 {
      assert trees[1..] == [];
      NoAlternatives(ESCAPES);
      SequencedIsCanonical(trees[0]);
      assert Print(trees[0], ESCAPES) + "" == Print(trees[0], ESCAPES);
    }
  }

  /** Between slashes, choices of items parse to their tree. */
  lemma {:induction false} ChoicesParse(choices: seq<seq<Item>>)
    requires AreChoices(choices)
    ensures ParsePattern(Source("/" + ChoicesText(choices) + "/", [])) == Ok(Tree(choices))
  {
    hide Print, ChoicesText, Tree, IsCanonical, ParsePattern;
    TreePrints(choices);
    PrintedParsesBack(Source("/" + ChoicesText(choices) + "/", []), '/', Tree(choices), ESCAPES);
  }

  // ---------------------------------------------------------------- typed, they match where they stand

  /** Lines are made of bytes. */
  predicate IsByteText(line: string) {
    forall k :: 0 <= k < |line| ==> line[k] as int < 256
  }

  /** Letters and digits are compared as they are in ASCII, and no byte above it is between two of them. */
  lemma {:induction false} UnitMatches(unit: Unit, line: string, i: nat, j: nat)
    requires IsUnit(unit) && IsByteText(line)
    ensures Matches(UnitTree(unit), line, i, j) <==> j == i + 1 <= |line| && IsByteOf(unit, line[i])
  {
    if unit.Among? && i < |line| {
      var ranges := [ClassRange(unit.first, unit.last)];
      assert InClass(unit.negated, ranges, line[i]) <==> unit.negated != InRange(ranges[0], line[i]);
    }
  }

  /** A repeated unit matches just the runs of its bytes. */
  lemma {:induction false} UnitIterates(unit: Unit, line: string, i: nat, j: nat, n: nat)
    requires IsUnit(unit) && IsByteText(line) && i <= |line|
    ensures Iterates(UnitTree(unit), line, i, j, n) <==>
            j == i + n <= |line| && forall k :: i <= k < j ==> IsByteOf(unit, line[k])
    decreases n
  {
    hide Matches, UnitTree, IsByteOf;
    if n > 0 {
      UnitMatches(unit, line, i, i + 1);
      if Iterates(UnitTree(unit), line, i, j, n) {
        var m := FirstIteration(UnitTree(unit), line, i, j, n);
        UnitMatches(unit, line, i, m);
        UnitIterates(unit, line, m, j, n - 1);
      }
      if j == i + n <= |line| && forall k :: i <= k < j ==> IsByteOf(unit, line[k]) {
        UnitIterates(unit, line, i + 1, j, n - 1);
        assert Matches(UnitTree(unit), line, i, i + 1);
      }
    }
  }

  lemma {:induction false} ItemMatches(item: Item, line: string, i: nat, j: nat)
    requires IsItem(item) && IsByteText(line) && i <= |line|
    ensures Matches(ItemTree(item), line, i, j) <==> ItemStands(item, line, i, j)
  {
    hide UnitTree, IsByteOf, LiteralPattern;
    match item
    case One(unit) => UnitMatches(unit, line, i, j);
    case Star(unit) => RunMatches(unit, false, line, i, j);
    case Plus(unit) => RunMatches(unit, true, line, i, j);
    case Either(one, two) =>
      LiteralPatternMatches(one, line, i, j);
      LiteralPatternMatches(two, line, i, j);
      EitherMatches(LiteralPattern(one), LiteralPattern(two), line, i, j);
    case _ =>
  }

  lemma {:induction false} RunMatches(unit: Unit, atLeastOne: bool, line: string, i: nat, j: nat)
    requires IsUnit(unit) && IsByteText(line) && i <= |line|
    ensures Matches(Repetition(UnitTree(unit), atLeastOne), line, i, j) <==>
            ItemStands(if atLeastOne then Plus(unit) else Star(unit), line, i, j)
  {
    hide UnitTree, IsByteOf, Iterates;
    var p := Repetition(UnitTree(unit), atLeastOne);
    if Matches(p, line, i, j) {
      var n := RunLength(UnitTree(unit), atLeastOne, line, i, j);
      UnitIterates(unit, line, i, j, n);
    }
    if ItemStands(if atLeastOne then Plus(unit) else Star(unit), line, i, j) {
      UnitIterates(unit, line, i, j, j - i);
    }
  }

  lemma {:induction false} RunLength(operand: Pattern, atLeastOne: bool, line: string, i: nat, j: nat) returns (n: nat)
    requires Matches(Repetition(operand, atLeastOne), line, i, j)
    ensures (atLeastOne ==> n >= 1) && Iterates(operand, line, i, j, n)
  {
    n :| (atLeastOne ==> n >= 1) && Iterates(operand, line, i, j, n);
  }

  lemma {:induction false} EitherMatches(one: Pattern, two: Pattern, line: string, i: nat, j: nat)
    ensures Matches(Group(Alternation([one, two])), line, i, j) <==>
            Matches(one, line, i, j) || Matches(two, line, i, j)
  {
    var p := Alternation([one, two]);
    assert p.alternatives[0] == one && p.alternatives[1] == two;
    assert Matches(Group(p), line, i, j) <==> Matches(p, line, i, j);
  }

  lemma {:induction false} ItemsMatch(items: seq<Item>, line: string, i: nat, j: nat)
    requires AreItems(items) && IsByteText(line) && i <= |line|
    ensures SequenceMatches(ItemTrees(items), line, i, j) <==> ItemsStand(items, line, i, j)
  {
    hide Matches, ItemTree, ItemStands, IsItem, IsByteText;
    if items != [] {
      var trees, rest := ItemTrees(items), items[1..];
      assert trees[0] == ItemTree(items[0]) && trees[1..] == ItemTrees(rest);
      if SequenceMatches(trees, line, i, j) {
        var m := FirstElement(trees, line, i, j);
        MatchWithinText(trees[0], line, i, m);
        ItemMatches(items[0], line, i, m);
        ItemsMatch(rest, line, m, j);
      }
      if ItemsStand(items, line, i, j) {
        var m: nat :| ItemStands(items[0], line, i, m) && ItemsStand(rest, line, m, j);
        ItemMatches(items[0], line, i, m);
        MatchWithinText(trees[0], line, i, m);
        ItemsMatch(rest, line, m, j);
        assert Matches(trees[0], line, i, m) && SequenceMatches(trees[1..], line, m, j);
      }
    }
  }

  lemma {:induction false} SequenceIsElements(elements: seq<Pattern>, line: string, i: nat, j: nat)
    ensures Matches(Sequenced(elements), line, i, j) <==> SequenceMatches(elements, line, i, j)
  {
    if |elements| == 1 {
      assert elements[1..] == [];
      assert SequenceMatches(elements[1..], line, j, j);
    }
  }

  /** A typed pattern matches exactly the pieces of a line in which one of its choices stands. */
  lemma {:induction false} ChoicesMatch(choices: seq<seq<Item>>, line: string, i: nat, j: nat)
    requires AreChoices(choices) && IsByteText(line) && i <= |line|
    ensures var pattern := ParsePattern(Source("/" + ChoicesText(choices) + "/", []));
      pattern.Ok? && (Matches(pattern.value, line, i, j) <==> ChoiceStands(choices, line, i, j))
  {
    hide ParsePattern, ChoicesText, ItemTrees, Sequenced, SequenceMatches, ItemsStand, IsItem, IsByteText;
    ChoicesParse(choices);
    ChoicesPrint(choices);
    forall k | 0 <= k < |choices|
      ensures Matches(Sequenced(ItemTrees(choices[k])), line, i, j) <==> ItemsStand(choices[k], line, i, j)
    {
      SequenceIsElements(ItemTrees(choices[k]), line, i, j);
      ItemsMatch(choices[k], line, i, j);
    }
    ChoiceIsAny(choices, line, i, j);
  }

  lemma {:induction false} ChoiceIsAny(choices: seq<seq<Item>>, line: string, i: nat, j: nat)
    requires choices != [] && |ChoiceTrees(choices)| == |choices|
    requires forall k :: 0 <= k < |choices| ==> ChoiceTrees(choices)[k] == Sequenced(ItemTrees(choices[k]))
    requires forall k :: 0 <= k < |choices| ==>
      (Matches(Sequenced(ItemTrees(choices[k])), line, i, j) <==> ItemsStand(choices[k], line, i, j))
    ensures Matches(Tree(choices), line, i, j) <==> ChoiceStands(choices, line, i, j)
  {
    hide ItemTrees, Sequenced, ItemsStand, ChoiceTrees;
    if |choices| > 1 {
      var trees := ChoiceTrees(choices);
      assert Matches(Tree(choices), line, i, j) <==> exists k :: 0 <= k < |trees| && Matches(trees[k], line, i, j);
    }
  }

  /** `G` selects a line with such a pattern exactly if one of its choices stands in it. */
  lemma {:induction false} ChoicesSelect(choices: seq<seq<Item>>, inverted: bool, line: string)
    requires AreChoices(choices) && IsByteText(line)
    ensures var pattern := ParsePattern(Source("/" + ChoicesText(choices) + "/", []));
      && pattern.Ok?
      && (LineCommands.Selected(pattern.value, inverted, line) <==>
          inverted != exists i: nat, j: nat :: i <= |line| && ChoiceStands(choices, line, i, j))
  {
    hide ParsePattern, ChoicesText, ChoiceStands, Matches, AreItems, IsByteText;
    ChoicesMatch(choices, line, 0, 0);
    var p := ParsePattern(Source("/" + ChoicesText(choices) + "/", [])).value;
    forall i: nat, j: nat | i <= |line| ensures Matches(p, line, i, j) <==> ChoiceStands(choices, line, i, j) {
      ChoicesMatch(choices, line, i, j);
    }
  }

  // ---------------------------------------------------------------- ranges

  /** Bytes are compared as signed: those above ASCII come before those of ASCII, so that no range goes from ASCII up
    to them. */
  lemma {:induction false} RangesAreSigned(first: char, last: char, c: char)
    requires first as int < 256 && last as int < 256 && c as int < 256
    ensures InRange(ClassRange(first, last), c) <==>
            if (first as int < 128) == (last as int < 128) then first <= c <= last
            else first as int >= 128 && (first <= c || c <= last)
  {
  }
}
