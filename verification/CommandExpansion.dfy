/** The expander for command input, which keeps per-character metadata.

  It knows `\S(name)`, `\L(name)`, `\C` and `\O`, and leaves everything else alone. `Segment`
  describes its result on the remaining text; `ExpandSegment` is the position-driven loop. */
module CommandExpansion {
  import opened Outcomes
  import opened Characters
  import opened FlowSemantics
  import opened Limits

  /** The characters of `text`, all with the same metadata. */
  function Marked(text: string, level: nat, interpretation: Interpretation): (marked: seq<InputCharacter>)
    ensures |marked| == |text|
  {
    if text == "" then []
    else [InputCharacter(text[0], level, interpretation)] + Marked(text[1..], level, interpretation)
  }

  /** The characters expanded so far, followed by those of the rest. */
  function Before(first: seq<InputCharacter>, rest: Result<(seq<InputCharacter>, string)>):
    Result<(seq<InputCharacter>, string)> {
    match rest
    case Ok((characters, tail)) => Ok((first + characters, tail))
    case Fail => Fail
  }

  /** A `\S(` or `\L(` directive starts here. */
  predicate IsBufferDirective(text: string) {
    |text| > 2 && text[0] == '\\' && text[1] in {'S', 's', 'L', 'l'} && text[2] == '('
  }

  /** The expansion of `text` at nesting `depth`, and the text after it. A segment that is a buffer
    name ends at the first unprotected `)`; any other one ends with the text. */
  function Segment(text: string, depth: nat, inName: bool, buffers: Buffers, maxDepth: nat):
    (r: Result<(seq<InputCharacter>, string)>)
    ensures r.Ok? ==> |r.value.1| <= |text| && (inName ==> |r.value.1| < |text|)
    decreases |text|, 0
  {
    if text == "" then
      if inName then Fail else Ok(([], ""))
    else if inName && text[0] == ')' then Ok(([], text[1..]))
    else if text[0] == '\\' && |text| > 1 && text[1] in {'C', 'c'} then
      if |text| == 2 then Fail
      else Before(Marked([text[2]], depth, Interpretation.Literal),
                  Segment(text[3..], depth, inName, buffers, maxDepth))
    else if text[0] == '\\' && |text| > 1 && text[1] in {'O', 'o'} then
      if |text| == 2 then Fail
      else Before(Marked([text[2]], depth, ForcedSpecial), Segment(text[3..], depth, inName, buffers, maxDepth))
    else if text[0] == '\\' && |text| > 1 && text[1] == '\\' then
      Before(Marked("\\\\", depth, Normal), Segment(text[2..], depth, inName, buffers, maxDepth))
    else if IsBufferDirective(text) then
      var (lines, rest) :- NamedBuffer(text[3..], depth, buffers, maxDepth);
      Before(Marked(BufferText(lines, text[1] in {'L', 'l'}), depth + 1, Interpretation.Literal),
             Segment(rest, depth, inName, buffers, maxDepth))
    else
      Before(Marked([text[0]], depth, Normal), Segment(text[1..], depth, inName, buffers, maxDepth))
  }

  /** The buffer whose name starts at `text`, after the opening parenthesis. */
  function NamedBuffer(text: string, depth: nat, buffers: Buffers, maxDepth: nat): (r: Result<(seq<string>, string)>)
    ensures r.Ok? ==> |r.value.1| < |text|
    decreases |text|, 1
  {
    if depth >= maxDepth then Fail
    else
      var (characters, rest) :- Segment(text, depth + 1, true, buffers, maxDepth);
      var name := Values(characters);
      if name == "" || |name| > MAX_BUFFER_NAME_LENGTH || name !in buffers then Fail else Ok((buffers[name], rest))
  }

  /** The expansion of a whole command line. */
  function CommandInput(source: string, buffers: Buffers, maxDepth: nat): Result<seq<InputCharacter>> {
    var (characters, rest) :- Segment(source, 0, false, buffers, maxDepth);
    Ok(characters)
  }

  // ---------------------------------------------------------------- the loop over positions

  method AppendLiteralBufferText(output: seq<InputCharacter>, lines: seq<string>, level: nat, newlines: bool)
    returns (result: seq<InputCharacter>)
    ensures result == output + Marked(BufferText(lines, newlines), level, Interpretation.Literal)
  {
    hide Marked;
    result := output;
    var k := 0;
    assert lines[0..] == lines;
    while k < |lines|
      invariant 0 <= k <= |lines|
      invariant output + Marked(BufferText(lines, newlines), level, Interpretation.Literal) ==
                result + Marked(BufferText(lines[k..], newlines), level, Interpretation.Literal)
    {
      LineStep(lines, k, newlines, level, result);
      result := AppendLine(result, lines[k], level);
      if newlines {
        result := result + [InputCharacter('\n', level, Interpretation.Literal)];
      }
      k := k + 1;
    }
    MarkedNothing(level);
  }

  method AppendLine(output: seq<InputCharacter>, line: string, level: nat) returns (result: seq<InputCharacter>)
    ensures result == output + Marked(line, level, Interpretation.Literal)
  {
    result := output;
    var c := 0;
    assert line[0..] == line;
    while c < |line|
      invariant 0 <= c <= |line|
      invariant output + Marked(line, level, Interpretation.Literal) ==
                result + Marked(line[c..], level, Interpretation.Literal)
    {
      result := result + [InputCharacter(line[c], level, Interpretation.Literal)];
      assert line[c..][1..] == line[c + 1..];
      c := c + 1;
    }
  }

  lemma {:induction false} MarkedNothing(level: nat)
    ensures Marked(BufferText([], true), level, Interpretation.Literal) == []
    ensures Marked(BufferText([], false), level, Interpretation.Literal) == []
  {
  }

  lemma {:induction false} LineStep(lines: seq<string>, k: nat, newlines: bool, level: nat, result: seq<InputCharacter>)
    requires k < |lines|
    ensures result + Marked(BufferText(lines[k..], newlines), level, Interpretation.Literal) ==
            result + Marked(lines[k], level, Interpretation.Literal)
            + (if newlines then [InputCharacter('\n', level, Interpretation.Literal)] else [])
            + Marked(BufferText(lines[k + 1..], newlines), level, Interpretation.Literal)
  {
    var ending := if newlines then "\n" else "";
    assert lines[k..][1..] == lines[k + 1..];
    assert BufferText(lines[k..], newlines) == lines[k] + ending + BufferText(lines[k + 1..], newlines);
    MarkedJoin(lines[k] + ending, BufferText(lines[k + 1..], newlines), level, Interpretation.Literal);
    MarkedJoin(lines[k], ending, level, Interpretation.Literal);
    if newlines {
      MarkedByte('\n', level, Interpretation.Literal);
    }
  }

  lemma {:induction false} MarkedJoin(a: string, b: string, level: nat, interpretation: Interpretation)
    ensures Marked(a + b, level, interpretation) == Marked(a, level, interpretation) + Marked(b, level, interpretation)
    decreases |a|
  {
    if a == "" {
      assert a + b == b;
    } else {
      assert (a + b)[1..] == a[1..] + b;
      MarkedJoin(a[1..], b, level, interpretation);
    }
  }

  lemma {:induction false} MarkedValues(text: string, level: nat, interpretation: Interpretation)
    ensures Values(Marked(text, level, interpretation)) == text
  {
    if text != "" {
      MarkedValues(text[1..], level, interpretation);
      ValuesJoin([InputCharacter(text[0], level, interpretation)], Marked(text[1..], level, interpretation));
    }
  }

  lemma {:induction false} ValuesJoin(a: seq<InputCharacter>, b: seq<InputCharacter>)
    ensures Values(a + b) == Values(a) + Values(b)
  {
  }

  lemma {:induction false} BeforeJoin(a: seq<InputCharacter>, b: seq<InputCharacter>,
                                      rest: Result<(seq<InputCharacter>, string)>)
    ensures Before(a, Before(b, rest)) == Before(a + b, rest)
  {
    if rest.Ok? {
      assert a + (b + rest.value.0) == a + b + rest.value.0;
    }
  }

  /** The first piece of a segment and the text after it; none if the segment ends or fails here. */
  function FirstPiece(text: string, depth: nat, inName: bool, buffers: Buffers, maxDepth: nat):
    Option<(seq<InputCharacter>, string)> {
    if text == "" || (inName && text[0] == ')') then None
    else if text[0] == '\\' && |text| > 1 && text[1] in {'C', 'c', 'O', 'o'} then
      if |text| == 2 then None
      else Some((Marked([text[2]], depth, if text[1] in {'C', 'c'} then Interpretation.Literal else ForcedSpecial),
                 text[3..]))
    else if text[0] == '\\' && |text| > 1 && text[1] == '\\' then Some((Marked("\\\\", depth, Normal), text[2..]))
    else if IsBufferDirective(text) then
      match NamedBuffer(text[3..], depth, buffers, maxDepth)
      case Ok(named) => Some((Marked(BufferText(named.0, text[1] in {'L', 'l'}), depth + 1, Interpretation.Literal),
                              named.1))
      case Fail => None
    else Some((Marked([text[0]], depth, Normal), text[1..]))
  }

  lemma {:induction false} SegmentPiece(text: string, depth: nat, inName: bool, buffers: Buffers, maxDepth: nat)
    requires FirstPiece(text, depth, inName, buffers, maxDepth).Some?
    ensures var piece := FirstPiece(text, depth, inName, buffers, maxDepth).value;
      Segment(text, depth, inName, buffers, maxDepth) == Before(piece.0,
                                                                Segment(piece.1, depth, inName, buffers, maxDepth))
  {
  }

  lemma {:induction false} SegmentStep(text: string, depth: nat, inName: bool, buffers: Buffers, maxDepth: nat,
                                       expanded: seq<InputCharacter>)
    ensures var piece := FirstPiece(text, depth, inName, buffers, maxDepth);
      Before(expanded, Segment(text, depth, inName, buffers, maxDepth)) ==
      if piece.Some? then Before(expanded + piece.value.0, Segment(piece.value.1, depth, inName, buffers, maxDepth))
      else if text == "" then (if inName then Fail else Ok((expanded, "")))
      else if inName && text[0] == ')' then Ok((expanded, text[1..]))
      else Fail
  {
    var piece := FirstPiece(text, depth, inName, buffers, maxDepth);
    if piece.Some? {
      SegmentPiece(text, depth, inName, buffers, maxDepth);
      BeforeJoin(expanded, piece.value.0, Segment(piece.value.1, depth, inName, buffers, maxDepth));
    } else {
      assert expanded + [] == expanded;
    }
  }

  /** A suffix of the source, by the position where it starts. */
  predicate SuffixAt(source: string, position: nat, suffix: string) {
    position <= |source| && source[position..] == suffix
  }

  /** The loop over source positions; `result` holds the characters and the position after them. */
  method ExpandSegment(source: string, start: nat, buffers: Buffers, depth: nat, maxDepth: nat, inName: bool)
    returns (result: Result<(seq<InputCharacter>, nat)>)
    requires start <= |source|
    ensures var segment := Segment(source[start..], depth, inName, buffers, maxDepth);
      if segment.Fail? then result == Result.Fail
      else result.Ok? && result.value.0 == segment.value.0 && SuffixAt(source, result.value.1, segment.value.1)
    decreases |source| - start, 2
  {
    hide Segment, Marked, NamedBuffer;
    var expanded: seq<InputCharacter> := [];
    var position := start;
    BeforeNothing(Segment(source[start..], depth, inName, buffers, maxDepth));
    while position < |source|
      invariant start <= position <= |source|
      invariant Segment(source[start..], depth, inName, buffers, maxDepth) ==
                Before(expanded, Segment(source[position..], depth, inName, buffers, maxDepth))
    {
      SegmentStep(source[position..], depth, inName, buffers, maxDepth, expanded);
      if inName && source[position] == ')' {
        return Ok((expanded, position + 1));
      }
      var piece :- ReadPiece(source, position, buffers, depth, maxDepth, inName);
      expanded := expanded + piece.0;
      position := piece.1;
    }
    assert source[position..] == "";
    SegmentStep("", depth, inName, buffers, maxDepth, expanded);
    if inName {
      return Fail;
    }
    return Ok((expanded, position));
  }

  /** Handles the directive or byte at `position`. */
  method ReadPiece(source: string, position: nat, buffers: Buffers, depth: nat, maxDepth: nat, ghost inName: bool)
    returns (result: Result<(seq<InputCharacter>, nat)>)
    requires position < |source| && !(inName && source[position] == ')')
    ensures var piece := FirstPiece(source[position..], depth, inName, buffers, maxDepth);
      if piece.None? then result == Result.Fail
      else
        && result.Ok? && result.value.0 == piece.value.0
        && position < result.value.1 && SuffixAt(source, result.value.1, piece.value.1)
    decreases |source| - position, 1
  {
    hide Segment, Marked;
    ghost var text := source[position..];
    assert forall k :: 0 <= k < |text| ==> text[k] == source[position + k];
    assert forall k :: 0 <= k <= |text| ==> text[k..] == source[position + k..];
    var directive := if source[position] == '\\' && position + 1 < |source| then source[position + 1] else ' ';
    if directive in {'C', 'c', 'O', 'o'} {
      if position + 2 >= |source| {
        return Fail;
      }
      var interpretation := if directive in {'C', 'c'} then Interpretation.Literal else ForcedSpecial;
      MarkedByte(source[position + 2], depth, interpretation);
      return Ok(([InputCharacter(source[position + 2], depth, interpretation)], position + 3));
    }
    if directive == '\\' {
      MarkedPair(depth);
      var backslash := InputCharacter('\\', depth, Normal);
      return Ok(([backslash, backslash], position + 2));
    }
    if directive in {'S', 's', 'L', 'l'} && position + 2 < |source| && source[position + 2] == '(' {
      assert IsBufferDirective(text);
      if depth >= maxDepth {
        return Fail;
      }
      var inner :- ExpandSegment(source, position + 3, buffers, depth + 1, maxDepth, true);
      var name := Values(inner.0);
      if name == "" || |name| > MAX_BUFFER_NAME_LENGTH || name !in buffers {
        return Fail;
      }
      var inserted := AppendLiteralBufferText([], buffers[name], depth + 1, directive in {'L', 'l'});
      return Ok((inserted, inner.1));
    }
    MarkedByte(source[position], depth, Normal);
    return Ok(([InputCharacter(source[position], depth, Normal)], position + 1));
  }

  lemma {:induction false} MarkedByte(c: char, level: nat, interpretation: Interpretation)
    ensures Marked([c], level, interpretation) == [InputCharacter(c, level, interpretation)]
  {
    assert [c][1..] == "";
  }

  lemma {:induction false} MarkedPair(level: nat)
    ensures Marked("\\\\", level, Normal) == [InputCharacter('\\', level, Normal), InputCharacter('\\', level, Normal)]
  {
    assert "\\\\"[1..] == "\\";
    MarkedByte('\\', level, Normal);
  }

  method ExpandCommandInputCharacters(source: string, buffers: Buffers, maxDepth: nat)
    returns (result: Result<seq<InputCharacter>>)
    ensures result == CommandInput(source, buffers, maxDepth)
  {
    assert source[0..] == source;
    var segment :- ExpandSegment(source, 0, buffers, 0, maxDepth, false);
    return Ok(segment.0);
  }

  lemma {:induction false} BeforeNothing(rest: Result<(seq<InputCharacter>, string)>)
    ensures Before([], rest) == rest
  {
    if rest.Ok? {
      assert [] + rest.value.0 == rest.value.0;
    }
  }

  // ---------------------------------------------------------------- protection, and agreement with full flow

  /** Protected text expands to itself, every byte marked literal at level 0. */
  lemma {:induction false} ProtectedSegment(text: string, depth: nat, buffers: Buffers, maxDepth: nat)
    ensures Segment(Protected(text), depth, false, buffers, maxDepth) ==
            Ok((Marked(text, depth, Interpretation.Literal), ""))
    decreases |text|
  {
    if text != "" {
      ProtectedSegment(text[1..], depth, buffers, maxDepth);
      assert Protected(text)[3..] == Protected(text[1..]);
      MarkedByte(text[0], depth, Interpretation.Literal);
    }
  }

  /** The text after a buffer name written with plain bytes, `\C` and nested `\S(...)` only. */
  function SharedName(text: string): (rest: Option<string>)
    ensures rest.Some? ==> |rest.value| < |text|
    decreases |text|
  {
    if text == "" then None
    else if text[0] == ')' then Some(text[1..])
    else if text[0] != '\\' then SharedName(text[1..])
    else if |text| > 2 && text[1] in {'C', 'c'} then SharedName(text[3..])
    else if |text| > 2 && text[1] in {'S', 's'} && text[2] == '(' then
      match SharedName(text[3..])
      case Some(rest) => SharedName(rest)
      case None => None
    else None
  }

  /** Text on which the two expanders have the same rules: no escaped backslash, no active
    injection, and buffer names of the shared form. */
  predicate IsShared(text: string)
    decreases |text|
  {
    if text == "" || text == "\\" then true
    else if text[0] != '\\' then IsShared(text[1..])
    else if text[1] in {'\\', 'B', 'b'} then false
    else if text[1] in {'C', 'c', 'O', 'o'} then |text| == 2 || IsShared(text[3..])
    else if IsBufferDirective(text) then SharedName(text[3..]).Some? && IsShared(SharedName(text[3..]).value)
    else IsShared(text[2..])
  }

  /** On a shared name both expanders read the same name and stop at the same place. */
  lemma {:induction false} NamesAgree(text: string, name: string, depth: nat, nesting: nat, buffers: Buffers,
                                      maxDepth: nat)
    requires SharedName(text).Some?
    requires NameBody(text, name, buffers, maxDepth, nesting).Ok? && Segment(text, depth, true, buffers, maxDepth).Ok?
    ensures var flow := NameBody(text, name, buffers, maxDepth, nesting).value;
      var command := Segment(text, depth, true, buffers, maxDepth).value;
      && flow.1 == command.1 == SharedName(text).value
      && flow.0 == name + Values(command.0)
    decreases |text|, 1
  {
    if text == "" || text[0] == ')' {
      assert name + "" == name;
    } else {
      hide Segment, FirstPiece, SharedName, NameBody;
      var read := NamePiece(text, name, depth, nesting, buffers, maxDepth);
      var piece := FirstPiece(text, depth, true, buffers, maxDepth).value;
      var rest := Segment(piece.1, depth, true, buffers, maxDepth);
      SegmentPiece(text, depth, true, buffers, maxDepth);
      ValuesJoin(piece.0, rest.value.0);
      NamesAgree(piece.1, name + read, depth, nesting, buffers, maxDepth);
      assert name + read + Values(rest.value.0) == name + (read + Values(rest.value.0));
    }
  }

  /** What the first piece of a shared name adds to the name, in either expander. */
  lemma {:induction false} NamePiece(text: string, name: string, depth: nat, nesting: nat, buffers: Buffers,
                                     maxDepth: nat) returns (read: string)
    requires SharedName(text).Some? && text != "" && text[0] != ')'
    requires NameBody(text, name, buffers, maxDepth, nesting).Ok? && Segment(text, depth, true, buffers, maxDepth).Ok?
    ensures FirstPiece(text, depth, true, buffers, maxDepth).Some?
    ensures var piece := FirstPiece(text, depth, true, buffers, maxDepth).value;
      && |piece.1| < |text|
      && SharedName(piece.1) == SharedName(text)
      && NameBody(text, name, buffers, maxDepth, nesting) == NameBody(piece.1, name + read, buffers, maxDepth, nesting)
      && Values(piece.0) == read
    decreases |text|, 0
  {
    if text[0] != '\\' {
      read := [text[0]];
      MarkedValues(read, depth, Normal);
    } else if text[1] in {'C', 'c'} {
      read := [text[2]];
      MarkedValues(read, depth, Interpretation.Literal);
    } else {
      assert text[2..][1..] == text[3..];
      NamesAgree(text[3..], "", depth + 1, nesting + 1, buffers, maxDepth);
      var nested := ParseName(text[2..], buffers, maxDepth, nesting + 1).value;
      read := BufferText(buffers[nested.0], false);
      MarkedValues(read, depth + 1, Interpretation.Literal);
      var written := Values(Segment(text[3..], depth + 1, true, buffers, maxDepth).value.0);
      assert "" + written == written;
    }
  }

  /** On shared text the two expanders produce the same bytes whenever both succeed. */
  lemma {:induction false} ExpandersAgree(text: string, buffers: Buffers, maxDepth: nat)
    requires IsShared(text)
    requires Flow(text, 0, buffers, maxDepth).Ok? && Segment(text, 0, false, buffers, maxDepth).Ok?
    ensures Values(Segment(text, 0, false, buffers, maxDepth).value.0) == Flow(text, 0, buffers, maxDepth).value
    decreases |text|
  {
    if text != "" {
      var piece := FirstPiece(text, 0, false, buffers, maxDepth).value;
      var rest := Segment(piece.1, 0, false, buffers, maxDepth);
      assert Segment(text, 0, false, buffers, maxDepth) == Before(piece.0, rest);
      ValuesJoin(piece.0, rest.value.0);
      if text[0] != '\\' || |text| == 1 {
        MarkedValues([text[0]], 0, Normal);
        ExpandersAgree(text[1..], buffers, maxDepth);
      } else if text[1] in {'C', 'c', 'O', 'o'} {
        MarkedValues([text[2]], 0, if text[1] in {'C', 'c'} then Interpretation.Literal else ForcedSpecial);
        ExpandersAgree(text[3..], buffers, maxDepth);
      } else if IsBufferDirective(text) {
        InjectionsAgree(text, buffers, maxDepth);
        ExpandersAgree(piece.1, buffers, maxDepth);
      } else if text[1] in {'S', 's', 'L', 'l'} {
        // Full flow insists on a parenthesis here.
        assert false;
      } else {
        UnknownDirectiveAgrees(text, buffers, maxDepth);
        ExpandersAgree(text[2..], buffers, maxDepth);
      }
    }
  }

  lemma {:induction false} InjectionsAgree(text: string, buffers: Buffers, maxDepth: nat)
    requires IsShared(text) && IsBufferDirective(text)
    requires Flow(text, 0, buffers, maxDepth).Ok? && Segment(text, 0, false, buffers, maxDepth).Ok?
    ensures FirstPiece(text, 0, false, buffers, maxDepth).Some?
    ensures var piece := FirstPiece(text, 0, false, buffers, maxDepth).value;
      && IsShared(piece.1)
      && Flow(text, 0, buffers, maxDepth) == Join(Ok(Values(piece.0)), Flow(piece.1, 0, buffers, maxDepth))
  {
    FlowInjects(text, buffers, maxDepth);
    SegmentInjects(text, buffers, maxDepth);
    hide Flow, FirstPiece, IsShared, Marked;
    assert text[2..][1..] == text[3..];
    NamesAgree(text[3..], "", 1, 0, buffers, maxDepth);
    var name := ParseName(text[2..], buffers, maxDepth, 0).value.0;
    var written := Values(Segment(text[3..], 1, true, buffers, maxDepth).value.0);
    assert "" + written == written;
    MarkedValues(BufferText(buffers[name], text[1] in {'L', 'l'}), 1, Interpretation.Literal);
  }

  lemma {:induction false} FlowInjects(text: string, buffers: Buffers, maxDepth: nat)
    requires IsBufferDirective(text) && Flow(text, 0, buffers, maxDepth).Ok?
    ensures ParseName(text[2..], buffers, maxDepth, 0).Ok?
    ensures var parsed := ParseName(text[2..], buffers, maxDepth, 0).value;
      && parsed.0 in buffers
      && Flow(text, 0, buffers, maxDepth) ==
         Join(Ok(BufferText(buffers[parsed.0], text[1] in {'L', 'l'})), Flow(parsed.1, 0, buffers, maxDepth))
  {
  }

  lemma {:induction false} SegmentInjects(text: string, buffers: Buffers, maxDepth: nat)
    requires IsBufferDirective(text) && IsShared(text) && Segment(text, 0, false, buffers, maxDepth).Ok?
    ensures SharedName(text[3..]).Some? && IsShared(SharedName(text[3..]).value)
    ensures Segment(text[3..], 1, true, buffers, maxDepth).Ok?
    ensures var segment := Segment(text[3..], 1, true, buffers, maxDepth).value;
      && Values(segment.0) in buffers
      && FirstPiece(text, 0, false, buffers, maxDepth) ==
         Some((Marked(BufferText(buffers[Values(segment.0)], text[1] in {'L', 'l'}), 1, Interpretation.Literal),
               segment.1))
  {
  }

  /** An unknown directive is kept by both; the command expander reads its letter as a plain byte. */
  lemma {:induction false} UnknownDirectiveAgrees(text: string, buffers: Buffers, maxDepth: nat)
    requires IsShared(text) && |text| > 1 && text[0] == '\\'
    requires text[1] !in {'C', 'c', 'O', 'o', 'S', 's', 'L', 'l'}
    requires Flow(text, 0, buffers, maxDepth).Ok? && Segment(text, 0, false, buffers, maxDepth).Ok?
    ensures Segment(text[2..], 0, false, buffers, maxDepth).Ok? && Flow(text[2..], 0, buffers, maxDepth).Ok?
    ensures IsShared(text[2..])
    ensures Values(Segment(text, 0, false, buffers, maxDepth).value.0) ==
            text[..2] + Values(Segment(text[2..], 0, false, buffers, maxDepth).value.0)
    ensures Flow(text, 0, buffers, maxDepth) == Join(Ok(text[..2]), Flow(text[2..], 0, buffers, maxDepth))
  {
    var tail := text[1..];
    assert tail[1..] == text[2..];
    MarkedValues(['\\'], 0, Normal);
    MarkedValues([text[1]], 0, Normal);
    var rest := Segment(text[2..], 0, false, buffers, maxDepth);
    assert Segment(text, 0, false, buffers, maxDepth) ==
           Before(Marked([text[0]], 0, Normal), Segment(tail, 0, false, buffers, maxDepth));
    assert Segment(tail, 0, false, buffers, maxDepth) == Before(Marked([text[1]], 0, Normal), rest);
  }
}
