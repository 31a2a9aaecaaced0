/** The stack machine that performs full-flow expansion.

  Sources of characters are stacked; a directive pushes the named buffer, and reading
  continues in the source below once the top one is exhausted. The machine is proved to
  compute `FlowSemantics.Flow`, to leave the stack empty when it succeeds, and to stop for
  every set of buffers. */
module FlowEngine {
  import opened Outcomes
  import opened Characters
  import opened FlowSemantics
  import opened Limits

  /** What is left of a source, and how its characters are marked. */
  datatype Frame = Frame(text: string, level: nat, interpretation: Interpretation)

  /** A cursor over lines; the outer text is a source of one line without line ends. */
  class InputSource {
    const lines: seq<string>
    const level: nat
    const emitNewlines: bool
    const interpretation: Interpretation
    var lineIndex: nat
    var columnIndex: nat
    var newlineEmitted: bool

    ghost predicate Valid()
      reads this
    {
      && lineIndex <= |lines|
      && (lineIndex == |lines| ==> columnIndex == 0 && !newlineEmitted)
      && (lineIndex < |lines| ==> columnIndex <= |lines[lineIndex]|)
      && (newlineEmitted ==> emitNewlines && columnIndex == |lines[lineIndex]|)
    }

    /** The bytes still to be read. */
    ghost function Remaining(): string
      requires Valid()
      reads this
    {
      if lineIndex == |lines| then ""
      else lines[lineIndex][columnIndex..] + (if emitNewlines && !newlineEmitted then "\n" else "")
           + BufferText(lines[lineIndex + 1..], emitNewlines)
    }

    ghost function AsFrame(): Frame
      requires Valid()
      reads this
    {
      Frame(Remaining(), level, interpretation)
    }

    constructor OfBuffer(lines: seq<string>, level: nat, emitNewlines: bool, interpretation: Interpretation)
      ensures Valid() && AsFrame() == Frame(BufferText(lines, emitNewlines), level, interpretation)
    {
      this.lines, this.level, this.emitNewlines, this.interpretation := lines, level, emitNewlines, interpretation;
      lineIndex, columnIndex, newlineEmitted := 0, 0, false;
    }

    constructor OfString(text: string, level: nat)
      ensures Valid() && AsFrame() == Frame(text, level, Normal)
    {

      lines, this.level, emitNewlines, interpretation := [text], level, false, Normal;
      lineIndex, columnIndex, newlineEmitted := 0, 0, false;
      new;
      assert lines[0][0..] == text && lines[1..] == [] && BufferText([], false) == "";
      assert Remaining() == text + "" + "";
    }

    method Next() returns (character: Option<InputCharacter>)
      requires Valid()
      modifies this
      ensures Valid()
      ensures character.None? <==> old(Remaining()) == ""
      ensures character.None? ==> Remaining() == ""
      ensures character.Some? ==>
                && character.value == InputCharacter(old(Remaining())[0], level, interpretation)
                && Remaining() == old(Remaining())[1..]
    {
      hide BufferText;
      while lineIndex < |lines|
        invariant Valid() && Remaining() == old(Remaining())
        decreases |lines| - lineIndex
      {
        var current := lines[lineIndex];
        if columnIndex < |current| {
          columnIndex := columnIndex + 1;
          return Some(InputCharacter(current[columnIndex - 1], level, interpretation));
        }
        if emitNewlines && !newlineEmitted {
          newlineEmitted := true;
          return Some(InputCharacter('\n', level, interpretation));
        }
        LineEnds(lines, lineIndex, emitNewlines);
        lineIndex := lineIndex + 1;
        columnIndex := 0;
        newlineEmitted := false;
      }
      return None;
    }
  }

  /** Past the end of a line, the lines after it remain. */
  lemma {:induction false} LineEnds(lines: seq<string>, k: nat, newlines: bool)
    requires k < |lines|
    ensures lines[k][|lines[k]|..] + "" + BufferText(lines[k + 1..], newlines) == BufferText(lines[k + 1..], newlines)
    ensures k + 1 < |lines| ==>
      BufferText(lines[k + 1..], newlines) ==
      lines[k + 1][0..] + (if newlines then "\n" else "") + BufferText(lines[k + 2..], newlines)
    ensures k + 1 == |lines| ==> BufferText(lines[k + 1..], newlines) == ""
  {
    if k + 1 < |lines| {
      assert lines[k + 1..][1..] == lines[k + 2..];
      assert lines[k + 1][0..] == lines[k + 1];
    }
  }

  /** The stack without its exhausted top sources. */
  ghost function Trimmed(frames: seq<Frame>): (trimmed: seq<Frame>)
    ensures trimmed <= frames
    ensures trimmed != [] ==> trimmed[|trimmed| - 1].text != ""
  {
    if frames == [] || frames[|frames| - 1].text != "" then frames else Trimmed(frames[..|frames| - 1])
  }

  ghost function WithTop(frames: seq<Frame>, text: string): (changed: seq<Frame>)
    requires frames != []
    ensures |changed| == |frames|
  {
    frames[|frames| - 1 := frames[|frames| - 1].(text := text)]
  }

  class InputStack {
    var sources: seq<InputSource>
    const maximumDepth: nat
    ghost var frames: seq<Frame>

    ghost predicate Valid()
      reads this, sources
    {
      && |frames| == |sources| <= maximumDepth && maximumDepth > 0
      && (forall i :: 0 <= i < |sources| ==> sources[i].Valid() && sources[i].AsFrame() == frames[i])
      && (forall i, j :: 0 <= i < j < |sources| ==> sources[i] != sources[j])
    }

    constructor (maximumDepth: nat)
      requires maximumDepth > 0
      ensures Valid() && frames == [] && this.maximumDepth == maximumDepth
    {
      this.maximumDepth := maximumDepth;
      sources := [];
      frames := [];
    }

    method Push(source: InputSource) returns (result: Result<()>)
      requires Valid() && source.Valid() && source !in sources
      modifies this
      ensures Valid() && result.Ok? == (|old(frames)| < maximumDepth)
      ensures sources == if result.Ok? then old(sources) + [source] else old(sources)
      ensures frames == if result.Ok? then old(frames) + [source.AsFrame()] else old(frames)
    {
      if |sources| >= maximumDepth {
        return Fail;
      }
      sources := sources + [source];
      frames := frames + [source.AsFrame()];
      return Ok(());
    }

    method Pop()
      requires Valid() && sources != []
      modifies this
      ensures Valid() && sources == old(sources[..|sources| - 1]) && frames == old(frames[..|frames| - 1])
    {
      sources := sources[..|sources| - 1];
      frames := frames[..|frames| - 1];
    }

    /** Reads the top source only. */
    method ReadTop() returns (character: Option<InputCharacter>)
      requires Valid() && sources != []
      modifies this`frames, sources[|sources| - 1]
      ensures Valid()
      ensures var top := old(frames)[|sources| - 1];
        if top.text == "" then character == None && frames == old(frames)
        else
          && character == Some(InputCharacter(top.text[0], top.level, top.interpretation))
          && frames == WithTop(old(frames), top.text[1..])
    {
      hide InputSource.Remaining;
      var top := sources[|sources| - 1];
      assert top.AsFrame() == frames[|sources| - 1];
      character := top.Next();
      frames := WithTop(frames, top.Remaining());
    }

    /** Reads from the top source, removing exhausted sources first. */
    method Next() returns (character: Option<InputCharacter>)
      requires Valid()
      modifies this, sources
      ensures Valid() && sources <= old(sources)
      ensures var trimmed := Trimmed(old(frames));
        if trimmed == [] then character == None && frames == []
        else var top := trimmed[|trimmed| - 1];
          && character == Some(InputCharacter(top.text[0], top.level, top.interpretation))
          && frames == WithTop(trimmed, top.text[1..])
    {
      hide Trimmed, WithTop, InputSource.Valid, InputSource.AsFrame, InputSource.Remaining;
      while sources != []
        invariant Valid() && sources <= old(sources)
        invariant Trimmed(frames) == Trimmed(old(frames))
        decreases |sources|
      {
        TrimmedStep(frames);
        character := ReadTop();
        if character.Some? {
          return;
        }
        Pop();
      }
      TrimmedStep([]);
      return None;
    }
  }

  lemma {:induction false} TrimmedStep(frames: seq<Frame>)
    ensures Trimmed(frames) ==
            if frames == [] || frames[|frames| - 1].text != "" then frames else Trimmed(frames[..|frames| - 1])
  {
  }

  // ---------------------------------------------------------------- meaning of a stack

  /** What one source still contributes. */
  ghost function FrameFlow(frame: Frame, buffers: Buffers, maxDepth: nat): Result<string> {
    if frame.interpretation != Interpretation.Literal then Flow(frame.text, frame.level, buffers, maxDepth)
    else Ok(frame.text)
  }

  /** What a stack of sources still contributes, the top source first. */
  ghost function StackFlow(frames: seq<Frame>, buffers: Buffers, maxDepth: nat): Result<string> {
    if frames == [] then Ok("")
    else
      var last := |frames| - 1;
      Join(FrameFlow(frames[last], buffers, maxDepth), StackFlow(frames[..last], buffers, maxDepth))
  }

  /** The number of directives and bytes that expanding `text` handles. */
  ghost function FlowSteps(text: string, level: nat, buffers: Buffers, maxDepth: nat): nat
    decreases maxDepth - level, |text|
  {
    if text == "" then 0
    else if text[0] != '\\' || |text| == 1 then 1 + FlowSteps(text[1..], level, buffers, maxDepth)
    else match text[1]
      case 'C' | 'c' | 'O' | 'o' => if |text| == 2 then 1 else 1 + FlowSteps(text[3..], level, buffers, maxDepth)
      case 'B' | 'b' | 'S' | 's' | 'L' | 'l' =>
        var injected := Injected(text[2..], level, buffers, maxDepth);
        if injected.Fail? then 1
        else
          1 + |BufferText(injected.value.0, true)| + |BufferText(injected.value.0, false)|
          + FlowSteps(BufferText(injected.value.0, true), level + 1, buffers, maxDepth)
          + FlowSteps(injected.value.1, level, buffers, maxDepth)
      case _ => 1 + FlowSteps(text[2..], level, buffers, maxDepth)
  }

  ghost function FrameSteps(frame: Frame, buffers: Buffers, maxDepth: nat): nat {
    if frame.interpretation != Interpretation.Literal then FlowSteps(frame.text, frame.level, buffers, maxDepth)
    else |frame.text|
  }

  ghost function StackSteps(frames: seq<Frame>, buffers: Buffers, maxDepth: nat): nat {
    if frames == [] then 0
    else FrameSteps(frames[|frames| - 1], buffers, maxDepth) + StackSteps(frames[..|frames| - 1], buffers, maxDepth)
  }

  ghost predicate Levelled(frames: seq<Frame>) {
    forall i :: 0 <= i < |frames| ==> frames[i].level == i
  }

  /** Levels are stack indices; every injected source that is read for directives ends its lines. */
  ghost predicate WellStacked(frames: seq<Frame>) {
    && Levelled(frames)
    && (forall i :: 1 <= i < |frames| && frames[i].interpretation != Interpretation.Literal && frames[i].text != "" ==>
          frames[i].text[|frames[i].text| - 1] == '\n')
  }

  lemma {:induction false} BufferTextEndsLine(lines: seq<string>)
    ensures var text := BufferText(lines, true); text != "" ==> text[|text| - 1] == '\n'
  {
    if lines != [] {
      BufferTextEndsLine(lines[1..]);
      var head, tail := lines[0] + "\n", BufferText(lines[1..], true);
      assert BufferText(lines, true) == head + tail;
      if tail == "" {
        assert head + tail == head;
      }
    }
  }

  /** Exhausted sources contribute nothing. */
  lemma {:induction false} TrimmedMeansSame(frames: seq<Frame>, buffers: Buffers, maxDepth: nat)
    ensures StackFlow(Trimmed(frames), buffers, maxDepth) == StackFlow(frames, buffers, maxDepth)
    ensures StackSteps(Trimmed(frames), buffers, maxDepth) == StackSteps(frames, buffers, maxDepth)
    ensures WellStacked(frames) ==> WellStacked(Trimmed(frames))
    decreases |frames|
  {
    hide StackFlow, StackSteps, FrameFlow, FrameSteps, WellStacked;
    if frames != [] && frames[|frames| - 1].text == "" {
      var last := |frames| - 1;
      TrimmedMeansSame(frames[..last], buffers, maxDepth);
      ExhaustedTop(frames, buffers, maxDepth);
    }
  }

  lemma {:induction false} ExhaustedTop(frames: seq<Frame>, buffers: Buffers, maxDepth: nat)
    requires frames != [] && frames[|frames| - 1].text == ""
    ensures var below := frames[..|frames| - 1];
      && StackFlow(frames, buffers, maxDepth) == StackFlow(below, buffers, maxDepth)
      && StackSteps(frames, buffers, maxDepth) == StackSteps(below, buffers, maxDepth)
      && (WellStacked(frames) ==> WellStacked(below))
  {
    var last := |frames| - 1;
    assert FrameFlow(frames[last], buffers, maxDepth) == Ok("");
    JoinEmpty(StackFlow(frames[..last], buffers, maxDepth));
  }

  /** The meaning of a stack whose top source has been read further. */
  lemma {:induction false} StackSplit(frames: seq<Frame>, text: string, buffers: Buffers, maxDepth: nat)
    requires frames != []
    ensures var top := frames[|frames| - 1]; var below := frames[..|frames| - 1];
      && WithTop(frames, text)[..|frames| - 1] == below
      && StackFlow(WithTop(frames, text), buffers, maxDepth) ==
         Join(FrameFlow(top.(text := text), buffers, maxDepth), StackFlow(below, buffers, maxDepth))
      && StackSteps(WithTop(frames, text), buffers, maxDepth) ==
         FrameSteps(top.(text := text), buffers, maxDepth) + StackSteps(below, buffers, maxDepth)
  {
    assert WithTop(frames, text)[..|frames| - 1] == frames[..|frames| - 1];
  }

  lemma {:induction false} StackPush(frames: seq<Frame>, frame: Frame, buffers: Buffers, maxDepth: nat)
    ensures StackFlow(frames + [frame], buffers, maxDepth) ==
            Join(FrameFlow(frame, buffers, maxDepth), StackFlow(frames, buffers, maxDepth))
    ensures StackSteps(frames + [frame], buffers, maxDepth) ==
            FrameSteps(frame, buffers, maxDepth) + StackSteps(frames, buffers, maxDepth)
  {
    assert (frames + [frame])[..|frames|] == frames;
  }

  lemma {:induction false} JoinEmpty(r: Result<string>)
    ensures Join(Ok(""), r) == r
  {
    if r.Ok? {
      assert "" + r.value == r.value;
    }
  }

  lemma {:induction false} JoinAssociative(a: Result<string>, b: Result<string>, c: Result<string>)
    ensures Join(Join(a, b), c) == Join(a, Join(b, c))
  {
    if a.Ok? && b.Ok? && c.Ok? {
      assert a.value + b.value + c.value == a.value + (b.value + c.value);
    }
  }

  // One step of expansion, in the meaning and in the measure.

  lemma {:induction false} PlainByteStep(text: string, level: nat, buffers: Buffers, maxDepth: nat)
    requires text != "" && text[0] != '\\'
    ensures Flow(text, level, buffers, maxDepth) == Join(Ok([text[0]]), Flow(text[1..], level, buffers, maxDepth))
    ensures FlowSteps(text, level, buffers, maxDepth) == 1 + FlowSteps(text[1..], level, buffers, maxDepth)
  {
  }

  predicate IsProtector(c: char) {
    c in {'C', 'c', 'O', 'o'}
  }

  predicate IsInjector(c: char) {
    c in {'B', 'b', 'S', 's', 'L', 'l'}
  }

  lemma {:induction false} EscapeStep(text: string, level: nat, buffers: Buffers, maxDepth: nat)
    requires |text| > 1 && text[0] == '\\' && !IsProtector(text[1]) && !IsInjector(text[1])
    ensures Flow(text, level, buffers, maxDepth) ==
            Join(Ok(if text[1] == '\\' then "\\" else ['\\', text[1]]), Flow(text[2..], level, buffers, maxDepth))
    ensures FlowSteps(text, level, buffers, maxDepth) == 1 + FlowSteps(text[2..], level, buffers, maxDepth)
  {
    assert text[..2] == ['\\', text[1]];
  }

  lemma {:induction false} ProtectStep(text: string, level: nat, buffers: Buffers, maxDepth: nat)
    requires |text| > 1 && text[0] == '\\' && IsProtector(text[1])
    ensures |text| == 2 ==> Flow(text, level, buffers, maxDepth).Fail?
    ensures |text| > 2 ==>
      && Flow(text, level, buffers, maxDepth) == Join(Ok([text[2]]), Flow(text[3..], level, buffers, maxDepth))
      && FlowSteps(text, level, buffers, maxDepth) == 1 + FlowSteps(text[3..], level, buffers, maxDepth)
  {
  }

  /** The source pushed for an injecting directive. */
  function InjectedFrame(directive: char, lines: seq<string>, level: nat): Frame {
    match directive
    case 'B' | 'b' => Frame(BufferText(lines, true), level + 1, Normal)
    case 'S' | 's' => Frame(BufferText(lines, false), level + 1, Interpretation.Literal)
    case _ => Frame(BufferText(lines, true), level + 1, Interpretation.Literal)
  }

  lemma {:induction false} InjectStep(text: string, level: nat, buffers: Buffers, maxDepth: nat)
    requires |text| > 1 && text[0] == '\\' && IsInjector(text[1])
    ensures var injected := Injected(text[2..], level, buffers, maxDepth);
      if injected.Fail? then Flow(text, level, buffers, maxDepth).Fail?
      else
        && Flow(text, level, buffers, maxDepth) ==
           Join(FrameFlow(InjectedFrame(text[1], injected.value.0, level), buffers, maxDepth),
                Flow(injected.value.1, level, buffers, maxDepth))
        && FlowSteps(text, level, buffers, maxDepth) >
           FrameSteps(InjectedFrame(text[1], injected.value.0, level), buffers, maxDepth)
           + FlowSteps(injected.value.1, level, buffers, maxDepth)
  {
  }

  /** Moving a piece from the top source to the output does not change the whole. */
  lemma {:induction false} Emit(frames: seq<Frame>, next: string, piece: string, output: string, buffers: Buffers,
                                maxDepth: nat)
    requires frames != []
    requires var top := frames[|frames| - 1];
      && FrameFlow(top, buffers, maxDepth) == Join(Ok(piece), FrameFlow(top.(text := next), buffers, maxDepth))
      && FrameSteps(top, buffers, maxDepth) > FrameSteps(top.(text := next), buffers, maxDepth)
    ensures Join(Ok(output + piece), StackFlow(WithTop(frames, next), buffers, maxDepth)) ==
            Join(Ok(output), StackFlow(frames, buffers, maxDepth))
    ensures StackSteps(WithTop(frames, next), buffers, maxDepth) < StackSteps(frames, buffers, maxDepth)
  {
    var last := |frames| - 1;
    StackSplit(frames, next, buffers, maxDepth);
    var top, below := FrameFlow(frames[last].(text := next), buffers, maxDepth),
        StackFlow(frames[..last], buffers, maxDepth);
    JoinAssociative(Ok(output), Ok(piece), Join(top, below));
    JoinAssociative(Ok(piece), top, below);
  }

  /** Pushing a source in place of a directive does not change the whole. */
  lemma {:induction false} Inject(frames: seq<Frame>, next: string, frame: Frame, buffers: Buffers, maxDepth: nat)
    requires frames != []
    requires var top := frames[|frames| - 1];
      && FrameFlow(top, buffers, maxDepth) ==
         Join(FrameFlow(frame, buffers, maxDepth), FrameFlow(top.(text := next), buffers, maxDepth))
      && FrameSteps(top, buffers, maxDepth) >
         FrameSteps(frame, buffers, maxDepth) + FrameSteps(top.(text := next), buffers, maxDepth)
    ensures StackFlow(WithTop(frames, next) + [frame], buffers, maxDepth) == StackFlow(frames, buffers, maxDepth)
    ensures StackSteps(WithTop(frames, next) + [frame], buffers, maxDepth) < StackSteps(frames, buffers, maxDepth)
  {
    var last := |frames| - 1;
    StackSplit(frames, next, buffers, maxDepth);
    StackPush(WithTop(frames, next), frame, buffers, maxDepth);
    JoinAssociative(FrameFlow(frame, buffers, maxDepth), FrameFlow(frames[last].(text := next), buffers, maxDepth),
                    StackFlow(frames[..last], buffers, maxDepth));
  }

  lemma {:induction false} FailingTop(frames: seq<Frame>, buffers: Buffers, maxDepth: nat)
    requires frames != [] && FrameFlow(frames[|frames| - 1], buffers, maxDepth).Fail?
    ensures StackFlow(frames, buffers, maxDepth).Fail?
  {
  }

  lemma {:induction false} StaysStacked(frames: seq<Frame>, n: nat)
    requires frames != [] && WellStacked(frames) && n <= |frames[|frames| - 1].text|
    ensures WellStacked(WithTop(frames, frames[|frames| - 1].text[n..]))
  {
  }

  lemma {:induction false} PushStaysStacked(frames: seq<Frame>, directive: char, lines: seq<string>)
    requires WellStacked(frames) && frames != []
    ensures WellStacked(frames + [InjectedFrame(directive, lines, |frames| - 1)])
  {
    BufferTextEndsLine(lines);
  }

  class FlowEngine {
    const buffers: Buffers
    const input: InputStack

    ghost predicate Valid()
      reads this, input, input.sources
    {
      input.Valid()
    }

    constructor (buffers: Buffers, maximumDepth: nat)
      requires maximumDepth > 0
      ensures Valid() && fresh(input) && input.sources == []
      ensures this.buffers == buffers && input.maximumDepth == maximumDepth
    {
      this.buffers := buffers;
      input := new InputStack(maximumDepth);
    }

    /** The next byte, if the source at the top of the stack still has one. */
    method ReadAt(directiveLevel: nat) returns (value: Option<char>)
      requires Valid() && input.frames != [] && Levelled(input.frames) && directiveLevel == |input.frames| - 1
      modifies input, input.sources
      ensures Valid() && input.sources <= old(input.sources)
      ensures var text := old(input.frames)[directiveLevel].text;
        if text == "" then value == None
        else
          && value == Some(text[0]) && input.frames == WithTop(old(input.frames), text[1..])
          && input.sources == old(input.sources)
    {
      hide Trimmed, InputSource.Valid, InputSource.AsFrame, InputSource.Remaining;
      TrimmedStep(input.frames);
      var character := input.Next();
      if character.None? || character.value.level != directiveLevel {
        return None;
      }
      return Some(character.value.value);
    }

    /** The name after a directive read at `directiveLevel`; `nesting` counts enclosing names. */
    method ParseBufferName(directiveLevel: nat, nesting: nat) returns (result: Result<string>)
      requires Valid() && input.frames != [] && Levelled(input.frames) && directiveLevel == |input.frames| - 1
      modifies input, input.sources
      ensures Valid() && input.sources <= old(input.sources)
      ensures var parsed := ParseName(old(input.frames)[directiveLevel].text, buffers, input.maximumDepth, nesting);
        if parsed.Fail? then result == Result.Fail
        else
          && result == Ok(parsed.value.0) && input.frames == WithTop(old(input.frames), parsed.value.1)
          && input.sources == old(input.sources)
      decreases |input.frames[directiveLevel].text|, 0
    {
      hide NameBody, InputSource.Valid, InputSource.AsFrame, InputSource.Remaining, BufferText;
      ghost var frames := input.frames;
      ghost var start := frames[directiveLevel].text;
      var opening := ReadAt(directiveLevel);
      if opening != Some('(') {
        return Fail;
      }
      ghost var rest := start[1..];
      var name := "";
      while true
        invariant Valid() && input.frames == WithTop(frames, rest) && input.sources == old(input.sources)
        invariant |rest| < |start|
        invariant ParseName(start, buffers, input.maximumDepth, nesting) ==
                  NameBody(rest, name, buffers, input.maximumDepth, nesting)
        decreases |rest|
      {
        NameStep(rest, name, buffers, input.maximumDepth, nesting);
        var character := ReadAt(directiveLevel);
        if character.None? {
          return Fail;
        }
        if character.value == '\\' {
          var escaped: Result<string>;
          escaped, rest := ParseEscape(directiveLevel, nesting, name, frames, rest);
          if escaped.Fail? {
            return Fail;
          }
          name := escaped.value;
          continue;
        }
        if character.value == ')' {
          if name == "" || |name| > MAX_BUFFER_NAME_LENGTH {
            return Fail;
          }
          return Ok(name);
        }
        if character.value == '\n' {
          return Fail;
        }
        name := name + [character.value];
        rest := rest[1..];
      }
    }

    /** Reads what follows a backslash in a name; the result is the name so far. */
    method ParseEscape(directiveLevel: nat, nesting: nat, name: string, ghost frames: seq<Frame>, ghost rest: string)
      returns (longer: Result<string>, ghost after: string)
      requires Valid() && input.frames != [] && Levelled(input.frames) && directiveLevel == |input.frames| - 1
      requires |frames| == |input.frames| && rest != "" && rest[0] == '\\' && input.frames == WithTop(frames, rest[1..])
      modifies input, input.sources
      ensures Valid() && input.sources <= old(input.sources)
      ensures longer.Fail? ==> NameBody(rest, name, buffers, input.maximumDepth, nesting) == Result.Fail
      ensures longer.Ok? ==>
        && NameBody(rest, name, buffers, input.maximumDepth, nesting) ==
           NameBody(after, longer.value, buffers, input.maximumDepth, nesting)
        && |after| < |rest| && input.frames == WithTop(frames, after) && input.sources == old(input.sources)
      decreases |rest|, 1
    {
      hide NameBody, InputSource.Valid, InputSource.AsFrame, InputSource.Remaining, BufferText;
      NameStep(rest, name, buffers, input.maximumDepth, nesting);
      var nestedDirective := ReadAt(directiveLevel);
      if nestedDirective.None? {
        return Fail, rest;
      }
      if nestedDirective.value in {'C', 'c'} {
        var protectedByte := ReadAt(directiveLevel);
        if protectedByte.None? {
          return Fail, rest;
        }
        return Ok(name + [protectedByte.value]), rest[3..];
      }
      if nestedDirective.value in {'S', 's'} {
        if nesting >= input.maximumDepth {
          return Fail, rest;
        }
        var nestedName := ParseBufferName(directiveLevel, nesting + 1);
        if nestedName.Fail? || |nestedName.value| > MAX_BUFFER_NAME_LENGTH || nestedName.value !in buffers {
          return Fail, rest;
        }
        return Ok(name + BufferText(buffers[nestedName.value], false)),
               ParseName(rest[2..], buffers, input.maximumDepth, nesting + 1).value.1;
      }
      return Ok(name + ['\\', nestedDirective.value]), rest[2..];
    }

    /** Outcome of one step: failed, finished with this output, or to be continued. */
    ghost predicate StepOutcome(before: seq<Frame>, output: string, result: Result<(string, bool)>)
      reads this, input
    {
      if result.Fail? then StackFlow(before, buffers, input.maximumDepth).Fail?
      else
        && WellStacked(input.frames)
        && Join(Ok(result.value.0), StackFlow(input.frames, buffers, input.maximumDepth)) ==
           Join(Ok(output), StackFlow(before, buffers, input.maximumDepth))
        && (result.value.1 ==> input.frames == [])
        && (!result.value.1 ==> StackSteps(input.frames, buffers, input.maximumDepth) < StackSteps(before, buffers,
                input.maximumDepth))
    }

    /** Replaces a directive read at `level`, up to its letter, by the buffer that it names. */
    method InjectBuffer(directive: char, level: nat, ghost before: seq<Frame>) returns (result: Result<()>)
      requires Valid() && before != [] && level == |before| - 1 && WellStacked(before)
      requires DirectiveRead(before, input.frames, directive) && IsInjector(directive)
      modifies input, input.sources
      ensures Valid() && forall s :: s in input.sources ==> s in old(input.sources) || fresh(s)
      ensures result.Fail? ==> StackFlow(before, buffers, input.maximumDepth).Fail?
      ensures result.Ok? ==>
        && WellStacked(input.frames)
        && StackFlow(input.frames, buffers, input.maximumDepth) == StackFlow(before, buffers, input.maximumDepth)
        && StackSteps(input.frames, buffers, input.maximumDepth) < StackSteps(before, buffers, input.maximumDepth)
    {
      hide Flow, FlowSteps, StackFlow, StackSteps, ParseName, InputSource.Valid, InputSource.Remaining;
      ghost var text := before[level].text;
      InjectStep(text, level, buffers, input.maximumDepth);
      ghost var injected := Injected(text[2..], level, buffers, input.maximumDepth);
      if injected.Fail? {
        FailingTop(before, buffers, input.maximumDepth);
      }
      var name :- ParseBufferName(level, 0);
      if name !in buffers {
        return Fail;
      }
      var lines := buffers[name];
      var source := new InputSource.OfBuffer(lines, level + 1, directive !in {'S', 's'},
                                             if directive in {'B', 'b'} then Normal else Interpretation.Literal);
      ghost var rest := ParseName(text[2..], buffers, input.maximumDepth, 0).value.1;
      assert input.frames == WithTop(before, rest);
      result := input.Push(source);
      if result.Ok? {
        assert injected == Ok((lines, rest));
        ghost var frame := InjectedFrame(directive, lines, level);
        assert input.frames == WithTop(before, rest) + [frame];
        Inject(before, rest, frame, buffers, input.maximumDepth);
        InjectedStaysStacked(before, rest, directive, lines, buffers, input.maximumDepth);
      }
    }

    /** Handles the next character or directive. */
    method Step(output: string) returns (result: Result<(string, bool)>)
      requires Valid() && WellStacked(input.frames)
      modifies input, input.sources
      ensures Valid() && forall s :: s in input.sources ==> s in old(input.sources) || fresh(s)
      ensures StepOutcome(old(input.frames), output, result)
    {
      hide Flow, FlowSteps, StackFlow, StackSteps, InputSource.Valid, InputSource.Remaining;
      ghost var before := Trimmed(input.frames);
      TrimmedMeansSame(input.frames, buffers, input.maximumDepth);
      var character := input.Next();
      if character.None? {
        EmptyStack(output, buffers, input.maximumDepth);
        return Ok((output, true));
      }
      ghost var top := before[|before| - 1];
      assert before == WithTop(before, top.text);
      if character.value.interpretation == Interpretation.Literal || character.value.value != '\\' {
        ByteStep(top, buffers, input.maximumDepth);
        Emit(before, top.text[1..], [character.value.value], output, buffers, input.maximumDepth);
        StaysStacked(before, 1);
        return Ok((output + [character.value.value], false));
      }
      result := Directive(character.value.level, output, before);
    }

    /** Handles what follows a backslash that was just read at `level`. */
    method Directive(level: nat, output: string, ghost before: seq<Frame>) returns (result: Result<(string, bool)>)
      requires Valid() && before != [] && level == |before| - 1 && WellStacked(before)
      requires BackslashRead(before, input.frames)
      modifies input, input.sources
      ensures Valid() && forall s :: s in input.sources ==> s in old(input.sources) || fresh(s)
      ensures StepOutcome(before, output, result)
    {
      hide Flow, FlowSteps, StackFlow, StackSteps, Trimmed, InputSource.Valid, InputSource.Remaining;
      ghost var text := before[level].text;
      AfterBackslash(before, input.frames);
      var directive := input.Next();
      if directive.None? {
        // A trailing backslash is kept.
        TrailingBackslash(before, output, buffers, input.maximumDepth);
        return Ok((output + "\\", true));
      }
      if directive.value.level != level {
        // Only the outer text can end in a backslash, and nothing is stacked below it.
        assert false;
        return Fail;
      }
      assert DirectiveRead(before, input.frames, directive.value.value);
      if IsProtector(directive.value.value) {
        var protectedByte := ReadAt(level);
        ProtectStep(text, level, buffers, input.maximumDepth);
        if protectedByte.None? {
          FailingTop(before, buffers, input.maximumDepth);
          return Fail;
        }
        assert text[2..][1..] == text[3..];
        assert input.frames == WithTop(before, text[3..]);
        Emit(before, text[3..], [text[2]], output, buffers, input.maximumDepth);
        StaysStacked(before, 3);
        return Ok((output + [protectedByte.value], false));
      }
      if IsInjector(directive.value.value) {
        var _ :- InjectBuffer(directive.value.value, level, before);
        return Ok((output, false));
      }
      EscapeStep(text, level, buffers, input.maximumDepth);
      ghost var piece := if text[1] == '\\' then "\\" else ['\\', text[1]];
      Emit(before, text[2..], piece, output, buffers, input.maximumDepth);
      StaysStacked(before, 2);
      if directive.value.value == '\\' {
        return Ok((output + "\\", false));
      }
      return Ok((output + ['\\', directive.value.value], false));
    }

    /** Drains the stack. */
    method ExpandCurrentInput() returns (result: Result<string>)
      requires Valid() && WellStacked(input.frames)
      modifies input, input.sources
      ensures Valid()
      ensures result == StackFlow(old(input.frames), buffers, input.maximumDepth)
      ensures result.Ok? ==> input.frames == []
    {
      hide FlowSteps, StackFlow, StackSteps;
      var output := "";
      var done := false;
      JoinEmpty(StackFlow(input.frames, buffers, input.maximumDepth));
      while !done
        invariant Valid() && WellStacked(input.frames)
        invariant forall s :: s in input.sources ==> s in old(input.sources) || fresh(s)
        invariant Join(Ok(output), StackFlow(input.frames, buffers, input.maximumDepth)) ==
                  StackFlow(old(input.frames), buffers, input.maximumDepth)
        invariant done ==> input.frames == []
        decreases if done then 0 else 1, StackSteps(input.frames, buffers, input.maximumDepth)
      {
        assert forall i :: 0 <= i < |input.sources| ==> input.sources[i] in input.sources;
        var step :- Step(output);
        output, done := step.0, step.1;
      }
      EmptyStack(output, buffers, input.maximumDepth);
      return Ok(output);
    }

    /** The full expansion of a text; refused while an expansion is under way. */
    method ExpandInput(source: string) returns (result: Result<string>)
      requires Valid()
      modifies input, input.sources
      ensures Valid()
      ensures result == if old(input.sources) == [] then Flow(source, 0, buffers, input.maximumDepth) else Result.Fail
      ensures result.Ok? ==> input.sources == []
    {
      if input.sources != [] {
        return Fail;
      }
      var outer := new InputSource.OfString(source, 0);
      var pushed := input.Push(outer);
      assert pushed.Ok?;
      OneSource(Frame(source, 0, Normal), buffers, input.maximumDepth);
      assert input.frames == [Frame(source, 0, Normal)];
      result := ExpandCurrentInput();
    }

    /** The full expansion of a buffer, each of whose lines is followed by a line end. */
    method ExpandBuffer(name: string) returns (result: Result<string>)
      requires Valid()
      modifies input, input.sources
      ensures Valid()
      ensures result == if old(input.sources) == [] && name in buffers
                        then Flow(BufferText(buffers[name], true), 0, buffers, input.maximumDepth) else Result.Fail
      ensures result.Ok? ==> input.sources == []
    {
      hide Flow, BufferText, StackFlow, StackSteps, WellStacked, InputSource.Valid;
      if input.sources != [] || name !in buffers {
        return Fail;
      }
      var source := new InputSource.OfBuffer(buffers[name], 0, true, Normal);
      var pushed := input.Push(source);
      assert pushed.Ok?;
      OneSource(Frame(BufferText(buffers[name], true), 0, Normal), buffers, input.maximumDepth);
      assert input.frames == [Frame(BufferText(buffers[name], true), 0, Normal)];
      result := ExpandCurrentInput();
    }
  }

  lemma {:induction false} OneSource(frame: Frame, buffers: Buffers, maxDepth: nat)
    requires frame.level == 0
    ensures StackFlow([frame], buffers, maxDepth) == FrameFlow(frame, buffers, maxDepth)
    ensures WellStacked([frame])
  {
    assert [frame][..0] == [];
    var f := FrameFlow(frame, buffers, maxDepth);
    if f.Ok? {
      assert f.value + "" == f.value;
    }
  }

  /** The top source was at a backslash, which has been read. */
  ghost predicate BackslashRead(before: seq<Frame>, now: seq<Frame>)
    requires before != []
  {
    var top := before[|before| - 1];
    && top.interpretation != Interpretation.Literal
    && top.text != "" && top.text[0] == '\\'
    && now == WithTop(before, top.text[1..])
  }

  /** After a backslash the same source goes on, unless the outer text ends there. */
  lemma {:induction false} AfterBackslash(before: seq<Frame>, now: seq<Frame>)
    requires before != [] && WellStacked(before) && BackslashRead(before, now)
    ensures var text := before[|before| - 1].text;
      if |text| > 1 then Trimmed(now) == now && WithTop(now, now[|now| - 1].text[1..]) == WithTop(before, text[2..])
      else |before| == 1 && Trimmed(now) == []
  {
    TrimmedStep(now);
    TrimmedStep([]);
  }

  lemma {:induction false} TrailingBackslash(before: seq<Frame>, output: string, buffers: Buffers, maxDepth: nat)
    requires |before| == 1 && before[0].interpretation != Interpretation.Literal && before[0].text == "\\"
    ensures Join(Ok(output + "\\"), StackFlow([], buffers, maxDepth)) ==
            Join(Ok(output), StackFlow(before, buffers, maxDepth))
  {
    assert StackFlow(before, buffers, maxDepth) ==
           Join(FrameFlow(before[0], buffers, maxDepth), StackFlow(before[..0], buffers, maxDepth));
    assert before[..0] == [];
    assert output + "\\" + "" == output + ("\\" + "");
  }

  /** The top source was at `directive` after its backslash, and both have been read. */
  ghost predicate DirectiveRead(before: seq<Frame>, now: seq<Frame>, directive: char)
    requires before != []
  {
    var top := before[|before| - 1];
    && top.interpretation != Interpretation.Literal
    && |top.text| > 1 && top.text[0] == '\\' && top.text[1] == directive
    && now == WithTop(before, top.text[2..])
  }

  lemma {:induction false} InjectedStaysStacked(before: seq<Frame>, rest: string, directive: char, lines: seq<string>,
                                                buffers: Buffers, maxDepth: nat)
    requires before != [] && WellStacked(before) && |before[|before| - 1].text| > 1
    requires var parsed := ParseName(before[|before| - 1].text[2..], buffers, maxDepth, 0);
      parsed.Ok? && parsed.value.1 == rest
    ensures WellStacked(WithTop(before, rest) + [InjectedFrame(directive, lines, |before| - 1)])
  {
    var text := before[|before| - 1].text;
    NameSuffix(text[2..], buffers, maxDepth);
    assert rest == text[|text| - |rest|..];
    StaysStacked(before, |text| - |rest|);
    PushStaysStacked(WithTop(before, rest), directive, lines);
  }

  lemma {:induction false} NameSuffix(text: string, buffers: Buffers, maxDepth: nat)
    requires ParseName(text, buffers, maxDepth, 0).Ok?
    ensures var rest := ParseName(text, buffers, maxDepth, 0).value.1; rest == text[|text| - |rest|..]
  {
    NameLeavesSuffix(text[1..], "", buffers, maxDepth, 0);
  }

  lemma {:induction false} EmptyStack(output: string, buffers: Buffers, maxDepth: nat)
    ensures Join(Ok(output), StackFlow([], buffers, maxDepth)) == Ok(output)
  {
    assert output + "" == output;
  }

  /** A byte that starts no directive is emitted as it is. */
  lemma {:induction false} ByteStep(frame: Frame, buffers: Buffers, maxDepth: nat)
    requires frame.text != "" && (frame.interpretation == Interpretation.Literal || frame.text[0] != '\\')
    ensures var next := frame.(text := frame.text[1..]);
      && FrameFlow(frame, buffers, maxDepth) == Join(Ok([frame.text[0]]), FrameFlow(next, buffers, maxDepth))
      && FrameSteps(frame, buffers, maxDepth) > FrameSteps(next, buffers, maxDepth)
  {
    assert frame.text == [frame.text[0]] + frame.text[1..];
    if frame.interpretation != Interpretation.Literal {
      PlainByteStep(frame.text, frame.level, buffers, maxDepth);
    }
  }

  /** One step of reading a buffer name. */
  lemma {:induction false} NameStep(text: string, name: string, buffers: Buffers, maxDepth: nat, nesting: nat)
    ensures NameBody(text, name, buffers, maxDepth, nesting) ==
      if text == "" then Fail
      else if text[0] == '\\' then
        if |text| == 1 then Fail
        else if text[1] in {'C', 'c'} then
          if |text| == 2 then Fail else NameBody(text[3..], name + [text[2]], buffers, maxDepth, nesting)
        else if text[1] in {'S', 's'} then
          if nesting >= maxDepth then Fail
          else
            var nested := ParseName(text[2..], buffers, maxDepth, nesting + 1);
            if nested.Fail? || |nested.value.0| > MAX_BUFFER_NAME_LENGTH || nested.value.0 !in buffers then Fail
            else NameBody(nested.value.1, name + BufferText(buffers[nested.value.0], false), buffers, maxDepth, nesting)
        else NameBody(text[2..], name + ['\\', text[1]], buffers, maxDepth, nesting)
      else if text[0] == ')' then
        if name == "" || |name| > MAX_BUFFER_NAME_LENGTH then Fail else Ok((name, text[1..]))
      else if text[0] == '\n' then Fail
      else NameBody(text[1..], name + [text[0]], buffers, maxDepth, nesting)
  {
    if |text| > 1 && text[0] == '\\' {
      assert text[..2] == ['\\', text[1]];
    }
  }
}
