/** Typed command lines, all the way from their bytes to what they mean, and to what they do to the buffers. */
module TypedCommands {
  import opened Outcomes
  import opened Characters
  import opened Tokens
  import opened Lexing
  import opened SourceText
  import opened Addresses
  import opened AddressText
  import opened AddressLaws
  import opened FlowSemantics
  import opened CommandExpansion
  import opened ExpansionLaws
  import opened Patterns
  import opened PatternGrammar
  import PatternRoundTrip
  import opened LineCommands
  import opened CommandGrammar
  import opened CommandTyping
  import opened MarkedCommands
  import opened GlobalLaws
  import opened CommandLaws
  import opened SearchLaws
  import opened LiteralPatterns
  import opened LiteralOperands
  import opened PlainOperands
  import opened Spans
  import opened Substitution
  import opened Semantics
  import ProcedureMachine

  /** What the bytes of a command line parse to. */
  function TypedCommand(line: string, buffers: FlowSemantics.Buffers, maxDepth: nat): Result<Command> {
    var input :- CommandInput(line, buffers, maxDepth);
    var parsed :- ParseCommand(AllTokens(Located(input), EndLocation(input), 0), 0, false);
    Ok(parsed.0)
  }

  // ---------------------------------------------------------------- ordinary lines

  /** A line without directives means what it says. */
  lemma {:induction false} TypedLineMeans(place: Place, t: Typing, buffers: FlowSemantics.Buffers, maxDepth: nat)
    requires IsPlace(place) && IsTypable(t) && IsUndirected(TextOf(t))
    ensures TypedCommand(PlaceText(place) + TextOf(t), buffers, maxDepth) == LineMeaning(place, t)
  {
    hide *;
    var line := PlaceText(place) + TextOf(t);
    PlaceIsPlain(place);
    PlainInFront(PlaceText(place), TextOf(t));
    UndirectedInput(line, buffers, maxDepth);
    TypedLineParses(place, t, false);
    assert line + "" == line;
    TypedCommandIs(line, buffers, maxDepth);
    WholeMeans(TokensOf(line), LineMeaning(place, t));
  }

  lemma {:induction false} WholeMeans(tokens: seq<Token>, meaning: Result<Command>)
    requires |tokens| > 0
    ensures (match Whole(tokens, meaning) case Fail => Fail case Ok(parsed) => Ok(parsed.0)) == meaning
  {
  }

  lemma {:induction false} TypedCommandIs(line: string, buffers: FlowSemantics.Buffers, maxDepth: nat)
    requires CommandInput(line, buffers, maxDepth) == Ok(Marked(line, 0, Normal)) && AreTokens(TokensOf(line))
    requires |TokensOf(line)| > 0
    ensures TypedCommand(line, buffers, maxDepth) ==
            match ParseCommand(TokensOf(line), 0, false) case Fail => Fail case Ok(parsed) => Ok(parsed.0)
  {
    MarkedIsTyped(line);
    hide Marked, AllTokens, ParseCommand, CommandInput, AreTokens;
  }

  lemma {:induction false} MarkedIsTyped(line: string)
    ensures Marked(line, 0, Normal) == AddressText.Typed(line)
  {
    MarkedValues(line, 0, Normal);
    forall k | 0 <= k < |line| ensures Marked(line, 0, Normal)[k] == AddressText.Typed(line)[k] {
      MarkedAt(line, 0, Normal, k);
    }
  }

  lemma {:induction false} MarkedAt(text: string, level: nat, interpretation: Interpretation, k: nat)
    requires k < |text|
    ensures Marked(text, level, interpretation)[k] == InputCharacter(text[k], level, interpretation)
  {
    if k > 0 {
      MarkedAt(text[1..], level, interpretation, k - 1);
    }
  }

  lemma {:induction false} PlaceIsPlain(place: Place)
    requires IsPlace(place)
    ensures ExpansionLaws.IsPlain(PlaceText(place))
  {
  }

  /** A star alone prints all lines, and an address alone is no command. */
  lemma {:induction false} TypedPlaceAlone(place: Place, buffers: FlowSemantics.Buffers, maxDepth: nat)
    requires IsPlace(place)
    ensures TypedCommand(PlaceText(place), buffers, maxDepth) ==
            if place.Everywhere? then Ok(Print(Some(Range(Absolute(1), Last)))) else Fail
  {
    hide *;
    var line := PlaceText(place);
    PlaceIsPlain(place);
    PlainInFront(line, "");
    NothingUndirected();
    assert line + "" == line;
    UndirectedInput(line, buffers, maxDepth);
    PlaceAlone(place);
    TypedCommandIs(line, buffers, maxDepth);
  }

  lemma {:induction false} NothingUndirected()
    ensures IsUndirected("")
  {
  }

  // ---------------------------------------------------------------- `G` and `S` with marked operands

  /** How an operand is typed so that all of its bytes get a mark. */
  function OperandText(w: string, mark: Interpretation): string {
    match mark
    case Normal => w
    case ForcedSpecial => Behind('O', w)
    case Literal => Behind('C', w)
  }

  /** A place, `G` or `G~`, an operand between slashes, and a command. */
  function GlobalLine(place: Place, inverted: bool, w: string, mark: Interpretation, nested: Typing): string
    requires IsPlace(place) && IsTypable(nested)
  {
    GlobalStart(place, inverted) + (OperandText(w, mark) + ("/" + TextOf(nested)))
  }

  function GlobalStart(place: Place, inverted: bool): string
    requires IsPlace(place)
  {
    PlaceText(place) + (if inverted then "G~" else "G") + "/"
  }

  function GlobalInput(place: Place, inverted: bool, w: string, mark: Interpretation, nested: Typing):
    seq<InputCharacter>
    requires IsPlace(place) && IsTypable(nested)
  {
    Marked(GlobalStart(place, inverted), 0, Normal) + (Marked(w, 0, mark) + Marked("/" + TextOf(nested), 0, Normal))
  }

  lemma {:induction false} GlobalExpands(place: Place, inverted: bool, w: string, mark: Interpretation, nested: Typing,
                                         buffers: FlowSemantics.Buffers, maxDepth: nat)
    requires IsPlace(place) && IsTypable(nested) && IsUndirected(TextOf(nested))
    requires mark == Normal ==> ExpansionLaws.IsPlain(w)
    ensures CommandInput(GlobalLine(place, inverted, w, mark, nested), buffers, maxDepth) ==
            Ok(GlobalInput(place, inverted, w, mark, nested))
  {
    var start, tail := GlobalStart(place, inverted), "/" + TextOf(nested);
    PlaceIsPlain(place);
    assert ExpansionLaws.IsPlain(start);
    hide Marked, Segment, Behind, GlobalStart, TextOf, IsUndirected, IsPlace, IsTypable;
    PlainSegment(start, OperandText(w, mark) + tail, 0, buffers, maxDepth);
    if mark == Normal {
      PlainSegment(w, tail, 0, buffers, maxDepth);
    } else {
      MarkedSegment(if mark == ForcedSpecial then 'O' else 'C', w, tail, 0, false, buffers, maxDepth);
    }
    PlainInFront("/", TextOf(nested));
    UndirectedSegment(tail, 0, buffers, maxDepth);
  }

  lemma {:induction false} InputIsLocated(input: seq<InputCharacter>)
    ensures IsLocated(Located(input)) && |Located(input)| == |input|
  {
    LocatedIsLocated(input);
  }

  predicate IsMarkedAt(characters: seq<Character>, at: nat, text: string, mark: Interpretation) {
    && at + |text| <= |characters|
    && forall k :: 0 <= k < |text| ==> characters[at + k].value == text[k] && characters[at + k].interpretation == mark
  }

  /** A piece of the input, as it is located. */
  lemma {:induction false} PieceStands(input: seq<InputCharacter>, front: seq<InputCharacter>, text: string,
                                       mark: Interpretation,
                                       behind: seq<InputCharacter>, at: nat)
    requires input == front + (Marked(text, 0, mark) + behind) && |front| == at
    ensures var characters := Located(input);
      at + |text| <= |characters| == |input| && IsMarkedAt(characters, at, text, mark)
    ensures mark == Normal ==> StandsAt(Located(input), at, text)
  {
    hide Marked;
    MarkedValues(text, 0, mark);
    InputIsLocated(input);
    var characters := Located(input);
    forall k | 0 <= k < |text|
      ensures characters[at + k].value == text[k] && characters[at + k].interpretation == mark
    {
      MarkedAt(text, 0, mark, k);
      assert input[at + k] == Marked(text, 0, mark)[k];
    }
  }

  /** What an operand has to be, so that it is one: a protected one can be anything. */
  predicate IsOperand(w: string, mark: Interpretation) {
    mark != Interpretation.Literal ==> IsBody('/', w)
  }

  /** The body of an operand between its slashes. */
  lemma {:induction false} OperandIsThere(characters: seq<Character>, p: nat, w: string, mark: Interpretation)
    requires IsOperand(w, mark) && p + |w| + 2 <= |characters|
    requires StandsAt(characters, p, "/") && StandsAt(characters, p + |w| + 1, "/")
    requires IsMarkedAt(characters, p + 1, w, mark)
    ensures OperandStands(characters, p, w, mark)
  {
    hide TrailingBackslashes, IsPlainSymbol;
    SlashesArePlain();
    OpenStands(characters, p, '/');
    OpenStands(characters, p + |w| + 1, '/');
    if mark != Interpretation.Literal {
      forall k | p + 1 <= k < p + 1 + |w|
        ensures characters[k].value == w[k - p - 1] && characters[k].interpretation == mark
      {
        assert characters[p + 1 + (k - p - 1)] == characters[k];
      }
      assert Text(characters, p + 1, p + |w| + 1) == w;
    }
  }

  lemma {:induction false} PieceLengths(start: string, w: string, mark: Interpretation, tail: string)
    ensures |Marked(start, 0, Normal)| == |start| && |Marked(w, 0, mark)| == |w| && |Marked(tail, 0, Normal)| == |tail|
  {
    MarkedValues(start, 0, Normal);
    MarkedValues(w, 0, mark);
    MarkedValues(tail, 0, Normal);
    hide Marked;
  }

  lemma {:induction false} GlobalIsThere(place: Place, inverted: bool, w: string, mark: Interpretation, nested: Typing)
    requires IsPlace(place) && IsTypable(nested) && IsOperand(w, mark)
    ensures var characters := Located(GlobalInput(place, inverted, w, mark, nested));
      IsLocated(characters) && GlobalStands(characters, place, inverted, w, mark, nested)
  {
    hide Marked, Located, StandsAt, IsLocated, OperandStands, IsTypable, TextOf, PlaceText, IsPlace, IsOperand,
         IsMarkedAt;
    var start, tail := GlobalStart(place, inverted), "/" + TextOf(nested);
    var characters := Located(GlobalInput(place, inverted, w, mark, nested));
    var input := GlobalInput(place, inverted, w, mark, nested);
    InputIsLocated(input);
    PieceLengths(start, w, mark, tail);
    PieceStands(input, [], start, Normal, Marked(w, 0, mark) + Marked(tail, 0, Normal), 0);
    PieceStands(input, Marked(start, 0, Normal), w, mark, Marked(tail, 0, Normal), |start|);
    PieceStands(input, Marked(start, 0, Normal) + Marked(w, 0, mark), tail, Normal, [], |start| + |w|);
    var head := PlaceText(place) + if inverted then "G~" else "G";
    assert start == head + "/";
    StandsSplit(characters, 0, head, "/");
    StandsSplit(characters, |start| + |w|, "/", TextOf(nested));
    OperandIsThere(characters, |head|, w, mark);
  }

  /** `G` and `G~` with an operand of ordinary, forced or protected bytes, and any command behind it. */
  lemma {:induction false} TypedGlobalParses(place: Place, inverted: bool, w: string, mark: Interpretation,
                                             nested: Typing,
                                             buffers: FlowSemantics.Buffers, maxDepth: nat)
    requires IsPlace(place) && IsTypable(nested) && IsUndirected(TextOf(nested)) && IsOperand(w, mark)
    requires mark == Normal ==> ExpansionLaws.IsPlain(w)
    ensures TypedCommand(GlobalLine(place, inverted, w, mark, nested), buffers, maxDepth) ==
            GlobalMeaning(place, inverted, w, mark, nested)
  {
    hide *;
    GlobalExpands(place, inverted, w, mark, nested, buffers, maxDepth);
    GlobalIsThere(place, inverted, w, mark, nested);
    var input := GlobalInput(place, inverted, w, mark, nested);
    var tokens := AllTokens(Located(input), EndLocation(input), 0);
    WholeIsLexed(tokens, Located(input), EndLocation(input));
    MarkedGlobalParses(tokens, Located(input), EndLocation(input), place, inverted, w, mark, nested);
    InputMeans(GlobalLine(place, inverted, w, mark, nested), input, GlobalMeaning(place, inverted, w, mark, nested),
               buffers,
               maxDepth);
  }

  lemma {:induction false} WholeIsLexed(tokens: seq<Token>, characters: seq<Character>, end: SourceLocation)
    requires tokens == AllTokens(characters, end, 0)
    ensures LexedFrom(tokens, 0, characters, end, 0)
  {
    assert tokens[0..] == tokens;
  }

  lemma {:induction false} InputMeans(line: string, input: seq<InputCharacter>, meaning: Result<Command>,
                                      buffers: FlowSemantics.Buffers, maxDepth: nat)
    requires CommandInput(line, buffers, maxDepth) == Ok(input)
    requires var tokens := AllTokens(Located(input), EndLocation(input), 0);
      AreTokens(tokens) && |tokens| > 0 && ParseCommand(tokens, 0, false) == Whole(tokens, meaning)
    ensures TypedCommand(line, buffers, maxDepth) == meaning
  {
    hide CommandInput, AllTokens, Located, EndLocation, ParseCommand;
  }

  /** A protected backslash between slashes: the line is no command. */
  lemma {:induction false} ProtectedBackslashFails(buffers: FlowSemantics.Buffers, maxDepth: nat)
    ensures TypedCommand("G/\\C\\/P", buffers, maxDepth).Fail?
  {
    hide TypedCommand, IsUndirected;
    assert TextOf(Word("P")) == "P";
    PlainInFront("P", "");
    NothingUndirected();
    assert "P" + "" == "P";
    TypedGlobalParses(Nowhere, false, "\\", Interpretation.Literal, Word("P"), buffers, maxDepth);
    assert Behind('C', "\\") == "\\C\\" + Behind('C', "");
    assert GlobalLine(Nowhere, false, "\\", Interpretation.Literal, Word("P")) == "G/\\C\\/P";
    assert TrailingBackslashes("\\") == 1;
  }

  // ---------------------------------------------------------------- what typed lines do

  /** `$D` takes away the last line. */
  lemma {:induction false} TypedLastDelete(state: State, maxDepth: nat)
    requires IsConsistent(state) && Here(state).lines != []
    ensures var text := Here(state); var rest := text.lines[..|text.lines| - 1];
      var command := TypedCommand("$D", ProcedureMachine.LineTexts(state), maxDepth);
      && command.Ok?
      && Executed(state, Input(command.value, [])) ==
         Effect(state.(texts := state.texts[state.current :=
                  text.(lines := rest, currentLine := |rest|, modified := true)]), true)
  {
    hide Executed, TypedCommand, ProcedureMachine.LineTexts, IsConsistent, IsUndirected;
    InConsistent(state);
    var count := |Here(state).lines|;
    assert PlaceText(CommandTyping.At(Last)) + TextOf(Word("D")) == "$D";
    LetterIsUndirected('D');
    TypedLineMeans(CommandTyping.At(Last), Word("D"), ProcedureMachine.LineTexts(state), maxDepth);
    assert LineMeaning(CommandTyping.At(Last), Word("D")) == Ok(Delete(Some(Last)));
    DeleteTakes(state, Some(Last), LineRange(count, count));
    assert Here(state).lines[..count - 1] + Here(state).lines[count..] == Here(state).lines[..count - 1];
  }

  lemma {:induction false} LetterIsUndirected(c: char)
    requires c != '\\'
    ensures IsUndirected([c])
  {
    PlainInFront([c], "");
    NothingUndirected();
    assert [c] + "" == [c];
  }

  /** `*P`, `*` and `1,$P` show all lines, and move to the last one. */
  lemma {:induction false} TypedPrintAll(line: string, state: State, maxDepth: nat)
    requires IsConsistent(state) && Here(state).lines != [] && line in {"*P", "*", "1,$P"}
    ensures var text := Here(state);
      var command := TypedCommand(line, ProcedureMachine.LineTexts(state), maxDepth);
      && command.Ok?
      && Executed(state, Input(command.value, [])) ==
         Effect(state.(texts := state.texts[state.current := text.(currentLine := |text.lines|)],
                       output := state.output + PrintedLines(text.lines)), true)
  {
    hide Executed, TypedCommand, ProcedureMachine.LineTexts, IsConsistent, IsUndirected, PrintedLines;
    InConsistent(state);
    var count, all := |Here(state).lines|, Range(Absolute(1), Last);
    LetterIsUndirected('P');
    if line == "*" {
      TypedPlaceAlone(Everywhere, ProcedureMachine.LineTexts(state), maxDepth);
    } else {
      var place := if line == "*P" then Everywhere else CommandTyping.At(all);
      OneIsDecimal();
      assert PlaceText(place) + TextOf(Word("P")) == line;
      TypedLineMeans(place, Word("P"), ProcedureMachine.LineTexts(state), maxDepth);
      assert LineMeaning(place, Word("P")) == Ok(Print(Some(all)));
    }
    PrintShows(state, Some(all), LineRange(1, count));
    assert Here(state).lines[0..count] == Here(state).lines;
  }

  lemma {:induction false} OneIsDecimal()
    ensures AddressText.Print(Range(Absolute(1), Last)) == "1,$"
  {
  }

  /** The lines in which a text occurs, or those in which it does not, in order. */
  ghost function Containing(w: string, wanted: bool, lines: seq<string>): seq<string> {
    if lines == [] then []
    else
      Containing(w, wanted, lines[..|lines| - 1])
      + if Occurs(lines[|lines| - 1], w) == wanted then [lines[|lines| - 1]] else []
  }

  lemma {:induction false} ContainingIs(w: string, inverted: bool, lines: seq<string>)
    ensures GlobalLaws.Remaining(LiteralPattern(w), inverted, lines) == Containing(w, inverted, lines)
    ensures FoundLines(LiteralPattern(w), inverted, lines) == Containing(w, !inverted, lines)
  {
    hide Selected, Occurs;
    if lines != [] {
      ContainingIs(w, inverted, lines[..|lines| - 1]);
      ProtectedPatternSelects(w, inverted, lines[|lines| - 1]);
    }
  }

  /** An operand that searches for its own text: protected, or without any byte that means something in a pattern. */
  predicate IsSearchText(w: string, mark: Interpretation) {
    if mark == Interpretation.Literal then TrailingBackslashes(w) % 2 == 0
    else IsOneLineText(w) && '/' !in w && forall c :: c in PatternRoundTrip.STRUCTURAL ==> c !in w
  }

  lemma {:induction false} SearchTextIs(w: string, mark: Interpretation)
    requires IsSearchText(w, mark)
    ensures IsOperand(w, mark) && MarkedPattern(w, mark) == Ok(LiteralPattern(w))
    ensures mark == Normal ==> ExpansionLaws.IsPlain(w)
  {
    hide LiteralPattern, ParsePattern;
    if mark != Interpretation.Literal {
      PatternRoundTrip.PlainTextParses(Source("/" + w + "/", []), '/', w);
    }
  }

  /** A typed search for a text, with a place and a command. */
  lemma {:induction false} TypedSearchMeans(place: Place, inverted: bool, w: string, mark: Interpretation,
                                            nested: Typing,
                                            buffers: FlowSemantics.Buffers, maxDepth: nat)
    requires IsPlace(place) && PlaceMeaning(place).Ok? && IsSearchText(w, mark)
    requires IsTypable(nested) && IsUndirected(TextOf(nested)) && Meaning(None, nested).Ok?
    ensures TypedCommand(GlobalLine(place, inverted, w, mark, nested), buffers, maxDepth) ==
            Ok(Global(PlaceMeaning(place).value, LiteralPattern(w), inverted, Meaning(None, nested).value))
  {
    hide TypedCommand, GlobalLine, MarkedPattern, LiteralPattern, IsPlace, IsTypable, TextOf, IsUndirected, Meaning,
         PlaceMeaning, IsSearchText;
    SearchTextIs(w, mark);
    TypedGlobalParses(place, inverted, w, mark, nested, buffers, maxDepth);
  }

  lemma {:induction false} SearchLineIs(place: Place, inverted: bool, w: string, mark: Interpretation, letter: char)
    requires IsPlace(place) && letter in {'D', 'P'}
    ensures IsTypable(Word([letter])) && IsLetter(letter)
    ensures SearchLine(place, inverted, w, mark, letter) == GlobalLine(place, inverted, w, mark, Word([letter]))
  {
    hide GlobalLine;
  }

  lemma {:induction false} LettersMean()
    ensures TextOf(Word("D")) == "D" && Meaning(None, Word("D")) == Ok(Delete(None)) && IsUndirected("D") &&
            IsTypable(Word("D"))
    ensures TextOf(Word("P")) == "P" && Meaning(None, Word("P")) == Ok(Print(None)) && IsUndirected("P") &&
            IsTypable(Word("P"))
  {
    LetterIsUndirected('D');
    LetterIsUndirected('P');
  }

  /** A typed search for a text with a letter behind it. */
  function SearchLine(place: Place, inverted: bool, w: string, mark: Interpretation, letter: char): string
    requires IsPlace(place) && IsLetter(letter)
  {
    GlobalLine(place, inverted, w, mark, Word([letter]))
  }

  /** `G` or `G~` with a text and `D`, behind any place: typed, parsed and run, it deletes exactly the lines of the
    range in
    which the text occurs, or does not, and counts them. */
  lemma {:induction false} TypedDelete(place: Place, inverted: bool, w: string, mark: Interpretation, state: State,
                                       range: LineRange, maxDepth: nat)
    requires IsConsistent(state) && IsPlace(place) && PlaceMeaning(place).Ok? && IsSearchText(w, mark)
    requires Searches(state, PlaceMeaning(place).value, range)
    ensures 1 <= range.first <= range.last <= |Here(state).lines|
    ensures var lines := Chosen(state, range);
      var command := TypedCommand(SearchLine(place, inverted, w, mark, 'D'), ProcedureMachine.LineTexts(state),
                                  maxDepth);
      && command.Ok?
      && JustLeaves(state, Executed(state, Input(command.value, [])),
                    Above(state, range.first - 1) + Containing(w, inverted, lines) + Below(state, range.last),
                    |lines| - |Containing(w, inverted, lines)|)
  {
    hide *;
    SearchBounds(state, PlaceMeaning(place).value, range);
    LettersMean();
    SearchLineIs(place, inverted, w, mark, 'D');
    TypedSearchMeans(place, inverted, w, mark, Word("D"), ProcedureMachine.LineTexts(state), maxDepth);
    ContainingIs(w, inverted, Chosen(state, range));
    SearchDeletes(state, PlaceMeaning(place).value, range, LiteralPattern(w), inverted);
  }

  /** With `P`, it shows exactly these lines, and changes none. */
  lemma {:induction false} TypedPrint(place: Place, inverted: bool, w: string, mark: Interpretation, state: State,
                                      range: LineRange, maxDepth: nat)
    requires IsConsistent(state) && IsPlace(place) && PlaceMeaning(place).Ok? && IsSearchText(w, mark)
    requires Searches(state, PlaceMeaning(place).value, range)
    ensures 1 <= range.first <= range.last <= |Here(state).lines|
    ensures var found := Containing(w, !inverted, Chosen(state, range));
      var command := TypedCommand(SearchLine(place, inverted, w, mark, 'P'), ProcedureMachine.LineTexts(state),
                                  maxDepth);
      && command.Ok?
      && JustShows(state, Executed(state, Input(command.value, [])), found)
  {
    hide *;
    SearchBounds(state, PlaceMeaning(place).value, range);
    LettersMean();
    SearchLineIs(place, inverted, w, mark, 'P');
    TypedSearchMeans(place, inverted, w, mark, Word("P"), ProcedureMachine.LineTexts(state), maxDepth);
    ContainingIs(w, inverted, Chosen(state, range));
    SearchPrints(state, PlaceMeaning(place).value, range, LiteralPattern(w), inverted);
  }

  // ---------------------------------------------------------------- `S`

  /** A place, `S/`, a protected text, `/`, another one, and `/`. */
  function SubstituteLine(place: Place, w: string, v: string): string
    requires IsPlace(place)
  {
    PlaceText(place) + "S/" + (Behind('C', w) + ("/" + (Behind('C', v) + "/")))
  }

  function SubstituteInput(place: Place, w: string, v: string): seq<InputCharacter>
    requires IsPlace(place)
  {
    Marked(PlaceText(place) + "S/", 0, Normal)
    + (Marked(w, 0, Interpretation.Literal)
       + (Marked("/", 0, Normal) + (Marked(v, 0, Interpretation.Literal) + Marked("/", 0, Normal))))
  }

  lemma {:induction false} SubstituteExpands(place: Place, w: string, v: string, buffers: FlowSemantics.Buffers,
                                             maxDepth: nat)
    requires IsPlace(place)
    ensures CommandInput(SubstituteLine(place, w, v), buffers, maxDepth) == Ok(SubstituteInput(place, w, v))
  {
    var start, tail := PlaceText(place) + "S/", Behind('C', v) + "/";
    PlaceIsPlain(place);
    assert ExpansionLaws.IsPlain(start);
    hide Marked, Segment, Behind, IsPlace, PlaceText;
    PlainSegment(start, Behind('C', w) + ("/" + tail), 0, buffers, maxDepth);
    MarkedSegment('C', w, "/" + tail, 0, false, buffers, maxDepth);
    PlainSegment("/", tail, 0, buffers, maxDepth);
    MarkedSegment('C', v, "/", 0, false, buffers, maxDepth);
    PlainInFront("/", "");
    NothingUndirected();
    assert "/" + "" == "/";
    UndirectedSegment("/", 0, buffers, maxDepth);
  }

  lemma {:induction false} SubstituteIsThere(place: Place, w: string, v: string)
    requires IsPlace(place)
    ensures var characters := Located(SubstituteInput(place, w, v));
      IsLocated(characters) && SubstituteStands(characters, place, w, v)
  {
    hide Marked, IsPlace, PlaceText, Located, IsLocated, StandsAt, IsMarkedAt, OperandStands, ProtectedAt;
    var start, slash := PlaceText(place) + "S/", Marked("/", 0, Normal);
    var one, two := Marked(w, 0, Interpretation.Literal), Marked(v, 0, Interpretation.Literal);
    var head, at := PlaceText(place) + "S", |start| + |w|;
    var input := SubstituteInput(place, w, v);
    var characters := Located(input);
    MarkedLengths(start, w, v);
    InputIsLocated(input);
    PieceStands(input, [], start, Normal, one + (slash + (two + slash)), 0);
    PieceStands(input, Marked(start, 0, Normal), w, Interpretation.Literal, slash + (two + slash), |start|);
    PieceStands(input, Marked(start, 0, Normal) + one, "/", Normal, two + slash, at);
    PieceStands(input, Marked(start, 0, Normal) + one + slash, v, Interpretation.Literal, slash, at + 1);
    PieceStands(input, Marked(start, 0, Normal) + one + slash + two, "/", Normal, [], at + 1 + |v|);
    assert start == head + "/";
    StandsSplit(characters, 0, head, "/");
    OperandsAreThere(characters, |head|, w, v);
  }

  lemma {:induction false} OperandsAreThere(characters: seq<Character>, p: nat, w: string, v: string)
    requires p + |w| + |v| + 3 == |characters|
    requires StandsAt(characters, p, "/") && IsMarkedAt(characters, p + 1, w, Interpretation.Literal)
    requires StandsAt(characters, p + 1 + |w|, "/") && IsMarkedAt(characters, p + |w| + 2, v, Interpretation.Literal)
    requires StandsAt(characters, p + |w| + 2 + |v|, "/")
    ensures ProtectedAt(characters, p, '/', w) && ProtectedAt(characters, p + |w| + 1, '/', v)
  {
    hide StandsAt, IsMarkedAt, ProtectedAt;
    OperandIsThere(characters, p, w, Interpretation.Literal);
    OperandIsThere(characters, p + |w| + 1, v, Interpretation.Literal);
  }

  lemma {:induction false} MarkedLengths(start: string, w: string, v: string)
    ensures |Marked(start, 0, Normal)| == |start| && |Marked(w, 0, Interpretation.Literal)| == |w|
    ensures |Marked("/", 0, Normal)| == 1 && |Marked(v, 0, Interpretation.Literal)| == |v|
  {
    MarkedValues(start, 0, Normal);
    MarkedValues(w, 0, Interpretation.Literal);
    MarkedValues("/", 0, Normal);
    MarkedValues(v, 0, Interpretation.Literal);
    hide Marked;
  }

  /** A typed `S` with a protected text and a protected replacement has exactly these, if and only if both end in an
    even
    number of backslashes; otherwise the line is no command. */
  lemma {:induction false} TypedSubstituteParses(place: Place, w: string, v: string, buffers: FlowSemantics.Buffers,
                                                 maxDepth: nat)
    requires IsPlace(place)
    ensures TypedCommand(SubstituteLine(place, w, v), buffers, maxDepth) == ProtectedExchange(place, w, v)
  {
    hide *;
    SubstituteExpands(place, w, v, buffers, maxDepth);
    SubstituteIsThere(place, w, v);
    var input := SubstituteInput(place, w, v);
    var tokens := AllTokens(Located(input), EndLocation(input), 0);
    WholeIsLexed(tokens, Located(input), EndLocation(input));
    ProtectedSubstituteParses(tokens, Located(input), EndLocation(input), place, w, v);
    InputMeans(SubstituteLine(place, w, v), input, ProtectedExchange(place, w, v), buffers, maxDepth);
  }

  /** The lines with every occurrence of a text in a range of them replaced. */
  function ReplacedLines(lines: seq<string>, range: LineRange, w: string, inserted: string): seq<string>
    requires w != ""
  {
    seq(|lines|, k requires 0 <= k < |lines| =>
      if range.first <= k + 1 <= range.last then ReplaceAll(lines[k], w, inserted) else lines[k])
  }

  /** The last line of a range in which a text occurs. */
  ghost predicate OccursLast(lines: seq<string>, range: LineRange, w: string, line: nat)
    requires 1 <= range.first <= range.last <= |lines|
  {
    && range.first <= line <= range.last && Occurs(lines[line - 1], w)
    && forall k :: line <= k < range.last ==> !Occurs(lines[k], w)
  }

  lemma {:induction false} LiteralReplaced(w: string, replacement: string, inserted: string, lines: seq<string>,
                                           range: LineRange)
    requires w != "" && IsReplacementFor(replacement, inserted)
    ensures Replaced(LiteralPattern(w), replacement, lines, range) == ReplacedLines(lines, range, w, inserted)
  {
    hide LiteralPattern, ReplaceAll, SubstitutedLine, IsReplacementFor;
    forall k | 0 <= k < |lines|
      ensures SubstitutedLine(LiteralPattern(w), replacement, lines[k]) == ReplaceAll(lines[k], w, inserted)
    {
      LiteralLine(w, replacement, inserted, lines[k]);
    }
  }

  lemma {:induction false} LiteralLine(w: string, replacement: string, inserted: string, line: string)
    requires w != "" && IsReplacementFor(replacement, inserted)
    ensures SubstitutedLine(LiteralPattern(w), replacement, line) == ReplaceAll(line, w, inserted)
  {
    hide Substituted, LiteralPattern;
    SubstituteLiteral(w, line, replacement, inserted);
    if !Occurs(line, w) {
      NothingToReplace(line, w, inserted);
    }
  }

  lemma {:induction false} NothingToReplace(line: string, w: string, inserted: string)
    requires w != "" && !Occurs(line, w)
    ensures ReplaceAll(line, w, inserted) == line
  {
    if line != "" {
      assert w <= line <==> OccursAt(line, w, 0);
      forall i: nat ensures !OccursAt(line[1..], w, i) {
        OccursLater(line, w, i);
      }
      NothingToReplace(line[1..], w, inserted);
    }
  }

  lemma {:induction false} OccursLater(line: string, w: string, i: nat)
    requires line != ""
    ensures OccursAt(line[1..], w, i) == OccursAt(line, w, i + 1)
  {
    if i + 1 + |w| <= |line| {
      assert line[1..][i..i + |w|] == line[i + 1..i + 1 + |w|];
    }
  }

  lemma {:induction false} LiteralMatches(w: string, line: string)
    ensures HasMatch(LiteralPattern(w), line) <==> Occurs(line, w)
  {
    ProtectedPatternSelects(w, false, line);
  }

  /** `S` with a text and a replacement that stands for another text, on a range in which the first one occurs: every
    occurrence in the range is replaced, and the cursor moves to the last line with one. */
  lemma {:induction false} LiteralSubstitution(state: State, address: Option<Address>, range: LineRange, w: string,
                                               replacement: string, inserted: string, shown: bool, line: nat)
    requires IsConsistent(state) && Chooses(state, address, range) && w != "" && IsReplacementFor(replacement, inserted)
    requires 1 <= range.first <= range.last <= |Here(state).lines| && OccursLast(Here(state).lines, range, w, line)
    ensures var lines := ReplacedLines(Here(state).lines, range, w, inserted);
      && 1 <= line <= |lines|
      && Executed(state, Input(Command.Substitute(address, LiteralPattern(w), replacement, shown), [])) ==
         Effect(Altered(state, lines, line, Here(state).modified || lines != Here(state).lines)
                  .(condition := true, output := state.output + if shown then lines[line - 1] + "\n" else ""), true)
  {
    hide Executed, IsConsistent, Chooses, LiteralPattern, Occurs, HasMatch, Replaced, ReplacedLines, IsReplacementFor;
    InConsistent(state);
    LiteralReplaced(w, replacement, inserted, Here(state).lines, range);
    MatchesLast(Here(state).lines, range, w, line);
    SubstituteReplaces(state, address, range, LiteralPattern(w), replacement, shown, line);
  }

  lemma {:induction false} MatchesLast(lines: seq<string>, range: LineRange, w: string, line: nat)
    requires 1 <= range.first <= range.last <= |lines| && OccursLast(lines, range, w, line)
    ensures IsLastMatch(LiteralPattern(w), lines, range, line)
  {
    hide LiteralPattern, Occurs, HasMatch;
    LiteralMatches(w, lines[line - 1]);
    forall k | line <= k < range.last ensures !HasMatch(LiteralPattern(w), lines[k]) {
      LiteralMatches(w, lines[k]);
    }
  }

  /** How a replacement is typed: protected and escaped, or just as it is if none of its bytes means anything. */
  function ReplaceLine(place: Place, w: string, inserted: string, escaped: bool): string
    requires IsPlace(place)
  {
    if escaped then SubstituteLine(place, w, Escaped(inserted))
    else PlaceText(place) + ("S/" + (w + ("/" + (inserted + "/"))))
  }

  predicate IsReplaceText(w: string, inserted: string, escaped: bool) {
    && w != ""
    && if escaped then TrailingBackslashes(w) % 2 == 0
       else IsSearchText(w, Normal) && IsOneLineText(inserted) && forall k :: 0 <= k < |inserted| ==>
           inserted[k] !in {'/', '\\', '&'}
  }

  lemma {:induction false} TypedReplaceMeans(place: Place, w: string, inserted: string, escaped: bool,
                                             buffers: FlowSemantics.Buffers, maxDepth: nat)
    returns (replacement: string)
    requires IsPlace(place) && PlaceMeaning(place).Ok? && IsReplaceText(w, inserted, escaped)
    ensures IsReplacementFor(replacement, inserted) && w != ""
    ensures TypedCommand(ReplaceLine(place, w, inserted, escaped), buffers, maxDepth) ==
            Ok(Command.Substitute(PlaceMeaning(place).value, LiteralPattern(w), replacement, false))
  {
    hide TypedCommand, LiteralPattern, PlaceMeaning, IsPlace, PlaceText, Escaped, TrailingBackslashes, IsSearchText,
         IsUndirected, IsPlainSymbol, IsReplacementFor, SubstituteLine;
    if escaped {
      replacement := Escaped(inserted);
      EscapedStandsFor(inserted);
      EscapedIsEven(inserted);
      TypedSubstituteParses(place, w, replacement, buffers, maxDepth);
    } else {
      replacement := inserted;
      PlainStandsFor(inserted);
      PlainReplaceMeans(place, w, inserted, buffers, maxDepth);
    }
  }

  lemma {:induction false} PlainReplaceMeans(place: Place, w: string, inserted: string, buffers: FlowSemantics.Buffers,
                                             maxDepth: nat)
    requires IsPlace(place) && PlaceMeaning(place).Ok? && IsReplaceText(w, inserted, false)
    ensures TypedCommand(PlaceText(place) + ("S/" + (w + ("/" + (inserted + "/")))), buffers, maxDepth) ==
            Ok(Command.Substitute(PlaceMeaning(place).value, LiteralPattern(w), inserted, false))
  {
    hide TypedCommand, LiteralPattern, PlaceMeaning, IsPlace, PlaceText, TrailingBackslashes, IsSearchText,
         ParsePattern, IsUndirected, IsPlainSymbol, BodyPattern;
    PlainIsBody(inserted);
    SearchTextIs(w, Normal);
    SlashesArePlain();
    var t := Exchange('/', w, inserted, false);
    ExchangeTextIs(w, inserted);
    ExchangeIsPlain(w, inserted);
    TypedLineMeans(place, t, buffers, maxDepth);
  }

  lemma {:induction false} ExchangeTextIs(w: string, v: string)
    requires IsTypable(Exchange('/', w, v, false))
    ensures TextOf(Exchange('/', w, v, false)) == "S/" + (w + ("/" + (v + "/")))
  {
    assert "S" + ("/" + (w + ("/" + (v + ("/" + ""))))) == "S/" + (w + ("/" + (v + "/")));
  }

  lemma {:induction false} PlainIsBody(text: string)
    requires IsOneLineText(text) && forall k :: 0 <= k < |text| ==> text[k] !in {'/', '\\', '&'}
    ensures IsBody('/', text) && ExpansionLaws.IsPlain(text)
  {
  }

  lemma {:induction false} ExchangeIsPlain(w: string, v: string)
    requires ExpansionLaws.IsPlain(w) && ExpansionLaws.IsPlain(v)
    ensures IsUndirected("S/" + (w + ("/" + (v + "/"))))
  {
    var line := "S/" + (w + ("/" + (v + "/")));
    PlainInFront(line, "");
    assert line + "" == line;
  }

  /** `S` with two texts, behind any place: typed, parsed and run, it replaces every occurrence of the first text in the
    range by the second one; without an occurrence it fails, and only the condition is put out. */
  lemma {:induction false} TypedReplace(place: Place, w: string, inserted: string, escaped: bool, state: State,
                                        range: LineRange,
                                        line: nat, maxDepth: nat)
    requires IsConsistent(state) && IsPlace(place) && PlaceMeaning(place).Ok? && IsReplaceText(w, inserted, escaped)
    requires Chooses(state, PlaceMeaning(place).value, range) && 1 <= range.first <= range.last <= |Here(state).lines|
    ensures var text := Here(state);
      var command := TypedCommand(ReplaceLine(place, w, inserted, escaped), ProcedureMachine.LineTexts(state),
                                  maxDepth);
      && command.Ok?
      && var run := Executed(state, Input(command.value, []));
        && ((forall k :: range.first - 1 <= k < range.last ==> !Occurs(text.lines[k], w)) ==>
              run == Effect(state.(condition := false), false))
        && (OccursLast(text.lines, range, w, line) ==>
              var lines := ReplacedLines(text.lines, range, w, inserted);
              run == Effect(Altered(state, lines, line, text.modified || lines != text.lines).(condition := true),
                            true))
  {
    hide Executed, TypedCommand, ProcedureMachine.LineTexts, LiteralPattern, ReplaceLine, Occurs, IsConsistent, Chooses,
         IsReplaceText, PlaceMeaning, IsPlace, ReplacedLines, HasMatch, OccursLast;
    var replacement := TypedReplaceMeans(place, w, inserted, escaped, ProcedureMachine.LineTexts(state), maxDepth);
    InConsistent(state);
    var address, p := PlaceMeaning(place).value, LiteralPattern(w);
    if OccursLast(Here(state).lines, range, w, line) {
      LiteralSubstitution(state, address, range, w, replacement, inserted, false, line);
      assert state.output + "" == state.output;
    }
    if forall k :: range.first - 1 <= k < range.last ==> !Occurs(Here(state).lines[k], w) {
      forall k | range.first - 1 <= k < range.last ensures !HasMatch(p, Here(state).lines[k]) {
        LiteralMatches(w, Here(state).lines[k]);
      }
      SubstituteFails(state, address, range, p, replacement, false);
    }
  }
}
