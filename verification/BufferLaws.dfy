/** What the commands on whole buffers, files and options do, stated outright. */
module BufferLaws {
  import opened Outcomes
  import opened Numbers
  import opened Addresses
  import opened AddressLaws
  import opened TextFiles
  import opened Utf8
  import opened Buffers
  import opened FileCommands
  import opened Captures
  import opened LineCommands
  import opened Semantics
  import opened CommandLaws

  /** A buffer can be named by 1 to 64 bytes. */
  predicate CanName(name: string) {
    1 <= |name| <= 64
  }

  /** What a buffer knows that nothing was put into. */
  const EMPTY: Text := Text([], 0, false, [], None, Unknown, Lf, true)

  function Known(state: State, name: string): Text {
    if name in state.texts then state.texts[name] else EMPTY
  }

  /** Names without some of them, in the same order. */
  function Others(names: seq<string>, left: set<string>): seq<string> {
    if names == [] then []
    else (if names[0] in left then [] else [names[0]]) + Others(names[1..], left)
  }

  lemma {:induction false} DroppedIsOthers(names: seq<string>, name: string, left: set<string>)
    ensures Dropped(names, name) == Others(names, {name})
    ensures Dropped(Others(names, left), name) == Others(names, left + {name})
  {
    if names != [] {
      DroppedIsOthers(names[1..], name, left);
      var rest := Others(names[1..], left);
      assert ([names[0]] + rest)[1..] == rest && [] + rest == rest;
      assert [] + Others(names[1..], left + {name}) == Others(names[1..], left + {name});
      assert [] + Others(names[1..], {name}) == Others(names[1..], {name});
    }
  }

  /** Dropping names behind a new first one. */
  lemma {:induction false} DroppedBehind(first: string, names: seq<string>, one: string, two: string)
    ensures Dropped([first] + Dropped(names, one), two) ==
            (if first == two then [] else [first]) + Others(names, {one, two})
  {
    DroppedIsOthers(names, one, {});
    DroppedIsOthers(names, two, {one});
    assert {one} + {two} == {one, two};
    var rest := Dropped(names, one);
    assert ([first] + rest)[1..] == rest;
    assert [] + Others(names, {one, two}) == Others(names, {one, two});
  }

  // ---------------------------------------------------------------- `M`

  /** `M` makes the chosen lines the content of another buffer, which may be new, and takes them away here; the other
    buffers
    stay, and the two come first in the recent list. */
  lemma {:induction false} MoveFills(state: State, address: Option<Address>, range: LineRange, name: string,
                                     other: string)
    requires IsConsistent(state) && Chooses(state, address, range) && CanName(name) && name != state.current
    ensures 1 <= range.first <= range.last <= |Here(state).lines|
    ensures var run := Executed(state, Input(Move(address, name), []));
      var lines := Chosen(state, range); var left := Above(state, range.first - 1) + Below(state, range.last);
      && run.succeeded && run.after == state.(texts := run.after.texts, recent := run.after.recent)
      && run.after.texts.Keys == state.texts.Keys + {name}
      && run.after.texts[name] == Known(state, name).(lines := lines, currentLine := |lines|, modified := true)
      && run.after.texts[state.current] ==
         Here(state).(lines := left, currentLine := if range.first <= |left| then range.first
                      else |left|, modified := true)
      && (other in state.texts && other !in {name, state.current} ==> run.after.texts[other] == state.texts[other])
      && run.after.recent == [state.current, name] + Others(state.recent, {name, state.current})
  {
    hide Evaluate, Selects, IsConsistent, Dropped, Others;
    ChoiceIs(state, address, range);
    MoveRuns(state, address, name, range);
    DroppedBehind(name, state.recent, name, state.current);
    hide Executed;
    var after := Executed(state, Input(Move(address, name), [])).after;
    assert after.recent == [state.current] + ([name] + Others(state.recent, {name, state.current}));
  }

  lemma {:induction false} MoveRuns(state: State, address: Option<Address>, name: string, range: LineRange)
    requires IsConsistent(state) && Evaluate(address, Here(state).currentLine, |Here(state).lines|) == Ok(range) &&
             CanName(name)
    ensures state.current in state.texts
    ensures Executed(state, Input(Move(address, name), [])) ==
            Effect(state.(texts := MovedTexts(state.texts, state.current, range, name),
                          recent := if name == state.current then state.recent
                                    else VisitedAndLeft(state.recent, name, state.current)), true)
  {
    hide Performed, Evaluate, MovedTexts, VisitedAndLeft;
    PerformedIs(state, Move(address, name));
  }

  /** `M` to the buffer itself keeps just the chosen lines. */
  lemma {:induction false} MoveToItself(state: State, address: Option<Address>, range: LineRange)
    requires IsConsistent(state) && Chooses(state, address, range) && CanName(state.current)
    ensures 1 <= range.first <= range.last <= |Here(state).lines|
    ensures Executed(state, Input(Move(address, state.current), [])) ==
            Effect(Altered(state, Chosen(state, range), |Chosen(state, range)|, true), true)
  {
    hide Evaluate, Selects, IsConsistent, Dropped;
    ChoiceIs(state, address, range);
    MoveRuns(state, address, state.current, range);
    hide Executed;
  }

  /** Without chosen lines, or with a name that no buffer can have, nothing happens. */
  lemma {:induction false} MoveFails(state: State, address: Option<Address>, name: string)
    requires IsConsistent(state)
    ensures (forall r :: !Chooses(state, address, r)) || !CanName(name) ==>
      Executed(state, Input(Move(address, name), [])) == Effect(state, false)
  {
    hide Performed, Evaluate, Selects, IsConsistent;
    NoneChosen(state, address);
    PerformedIs(state, Move(address, name));
  }

  // ---------------------------------------------------------------- `B`

  /** A buffer that is left is forgotten if nothing is in it, nothing was done to it, and it has no file; but never the
    one
    that is named `0`. */
  predicate IsForgettable(name: string, text: Text) {
    name != "0" && text.lines == [] && !text.modified && text.associatedFile.None?
  }

  /** `B` makes another buffer the current one, which may be new. */
  lemma {:induction false} SelectEnters(state: State, name: string, short: bool, other: string)
    requires IsConsistent(state) && CanName(name) && !(short && state.parentheses)
    ensures var run := Executed(state, Input(SelectBuffer(name, short), []));
      var forgotten := if name != state.current && IsForgettable(state.current, Here(state)) then {state.current}
                       else {};
      && run.succeeded && run.after == state.(texts := run.after.texts, recent := run.after.recent, current := name)
      && run.after.texts.Keys == state.texts.Keys + {name} - forgotten
      && run.after.texts[name] == Known(state, name)
      && (other in state.texts && other !in forgotten ==> run.after.texts[other] == state.texts[other])
      && run.after.recent == [name] + Others(state.recent, {name} + forgotten)
  {
    hide Performed, IsConsistent, SelectedState, Others, IsForgettable;
    InConsistent(state);
    PerformedIs(state, SelectBuffer(name, short));
    StateEntered(state, name, other);
  }

  lemma {:induction false} StateEntered(state: State, name: string, other: string)
    requires IsConsistent(state) && CanName(name) && state.current in state.texts
    ensures var run := SelectedState(state, name);
      var forgotten := if name != state.current && IsForgettable(state.current, Here(state)) then {state.current}
                       else {};
      && run.succeeded && run.after == state.(texts := run.after.texts, recent := run.after.recent, current := name)
      && run.after.texts.Keys == state.texts.Keys + {name} - forgotten
      && name in run.after.texts && run.after.texts[name] == Known(state, name)
      && (other in state.texts && other !in forgotten ==>
          other in run.after.texts && run.after.texts[other] == state.texts[other])
      && run.after.recent == [name] + Others(state.recent, {name} + forgotten)
  {
    hide IsConsistent, Entered, Forgotten, Others, IsConsistentText;
    var entered := EnteredIs(state, name);
    if name != state.current && IsForgettable(state.current, Here(state)) {
      ForgottenIs(state, entered, name);
    }
  }

  lemma {:induction false} EnteredIs(state: State, name: string) returns (entered: State)
    requires IsConsistent(state)
    ensures IsConsistent(entered) && entered == Entered(state, name)
    ensures entered == state.(texts := state.texts[name := Known(state, name)],
                              recent := [name] + Others(state.recent, {name}),
                              current := name)
    ensures {name} + {} == {name}
  {
    hide IsConsistent, Dropped, Others, IsConsistentText;
    entered := Entered(state, name);
    DroppedIsOthers(state.recent, name, {});
  }

  lemma {:induction false} ForgottenIs(state: State, entered: State, name: string)
    requires IsConsistent(entered) && name != state.current && entered.current == name
    requires entered.recent == [name] + Others(state.recent, {name})
    ensures Forgotten(entered, state.current) ==
            entered.(texts := entered.texts - {state.current},
                     recent := [name] + Others(state.recent, {name} + {state.current}))
  {
    hide IsConsistent, Dropped, Others, IsConsistentText;
    DroppedIsOthers(state.recent, name, {});
    DroppedBehind(name, state.recent, name, state.current);
    assert {name} + {state.current} == {name, state.current};
  }

  /** The short form is refused while names have to be in parentheses, and so is a name that no buffer can have. */
  lemma {:induction false} SelectFails(state: State, name: string, short: bool)
    requires IsConsistent(state) && ((short && state.parentheses) || !CanName(name))
    ensures Executed(state, Input(SelectBuffer(name, short), [])) == Effect(state, false)
  {
    hide Performed, IsConsistent;
    PerformedIs(state, SelectBuffer(name, short));
  }

  // ---------------------------------------------------------------- `ZG`

  /** `ZG` runs its command and keeps what it shows out of the output: it goes behind the current line of the named
    buffer,
    which may be new, and the cursor there moves to the last line. */
  lemma {:induction false} GatherPuts(state: State, name: string, nested: Command, shown: seq<string>)
    requires IsConsistent(state)
    ensures IsConsistent(state.(output := ""))
    ensures var run := Performed(state.(output := ""), nested); var back := run.after.(output := state.output);
      var gathered := Executed(state, Input(ZapGather(name, nested), []));
      && (!run.succeeded ==> gathered == Effect(back, false))
      && (run.succeeded && run.after.output == "" ==> gathered == Effect(back, true))
      && (run.succeeded && shown != [] && run.after.output == PrintedLines(shown) && AreShown(shown) ==>
            if !CanName(name) then gathered == Effect(back, false)
            else
              var text := Known(back, name);
              var cursor := if text.lines == [] then 0 else text.currentLine;
              && cursor <= |text.lines|
              && gathered == Effect(back.(texts := back.texts[name := text.(
                                            lines := text.lines[..cursor] + shown + text.lines[cursor..],
                                            currentLine := cursor + |shown|, modified := true)]), true))
  {
    hide Performed, CapturedLines, PrintedLines, IsConsistent;
    var run := Performed(Silenced(state), nested);
    PerformedIs(state, ZapGather(name, nested));
    Uncaptured();
    if shown != [] && AreShown(shown) {
      PrintedIsCaptured(shown);
    }
    StillConsistent(run.after, state.output);
    KnownIsConsistent(run.after.(output := state.output), name);
  }

  /** Lines that can be told from their output again. */
  predicate AreShown(lines: seq<string>) {
    forall k :: 0 <= k < |lines| ==> '\n' !in lines[k] && WithoutCr(lines[k]) == lines[k]
  }

  lemma {:induction false} Uncaptured()
    ensures CapturedLines("") == []
  {
  }

  lemma {:induction false} StillConsistent(state: State, output: string)
    requires IsConsistent(state)
    ensures IsConsistent(state.(output := output))
  {
  }

  lemma {:induction false} KnownIsConsistent(state: State, name: string)
    requires IsConsistent(state)
    ensures IsConsistentText(Known(state, name))
  {
  }

  // ---------------------------------------------------------------- `Q`

  /** `Q` asks to leave unless some buffer is modified, and `QQ` always. */
  lemma {:induction false} QuitLeaves(state: State, immediate: bool)
    requires IsConsistent(state)
    ensures Executed(state, Input(Quit(immediate), [])) ==
            if immediate || forall n :: n in state.texts ==> !state.texts[n].modified then
              Effect(state.(exit := true, immediate := immediate), true)
            else Effect(state, false)
  {
    hide Performed, IsConsistent;
    PerformedIs(state, Quit(immediate));
  }

  // ---------------------------------------------------------------- `R`

  /** The file that `R` and `W` are about: the one named, or else the one that the buffer is associated with. */
  function FileMeant(state: State, filename: Option<string>): Option<string>
    requires IsConsistent(state)
  {
    match filename
    case Some(_) => filename
    case None => Here(state).associatedFile
  }

  /** What the file meant holds, if there is such a file and it is text. */
  function FileRead(state: State, filename: Option<string>): Result<DecodedFile>
    requires IsConsistent(state)
  {
    match FileMeant(state, filename)
    case None => Fail
    case Some(name) => if name in state.files then Decode(state.files[name]) else Fail
  }

  /** `R` into an empty buffer makes it what the file holds, with nothing to save. */
  lemma {:induction false} ReadLoads(state: State, filename: Option<string>)
    requires IsConsistent(state)
    ensures var file := FileRead(state, filename); var run := Executed(state, Input(Read(None, filename), []));
      if file.Fail? || Here(state).lines != [] then run == Effect(state, false)
      else
        var lines := file.value.lines;
        run == Effect(state.(texts := state.texts[state.current :=
                               Text(lines, |lines|, false, lines, FileMeant(state, filename), file.value.encoding,
                                    file.value.lineEnding, file.value.finalNewline)],
                             counter := |lines|, condition := true), true)
  {
    hide Performed, IsConsistent, Decode;
    InConsistent(state);
    PerformedIs(state, Read(None, filename));
  }

  /** The line that `R` reads behind: the one that its address selects, or in an empty buffer the beginning, for `$`. */
  predicate ReadsBehind(state: State, address: Address, line: nat)
    requires IsConsistent(state)
  {
    if Here(state).lines == [] then address.Last? && line == 0 else Chooses(state, Some(address), LineRange(line, line))
  }

  /** `R` at an address puts the lines of the file in, and leaves what the buffer knows of its own file. */
  lemma {:induction false} ReadInserts(state: State, address: Address, filename: Option<string>, line: nat)
    requires IsConsistent(state)
    ensures var file := FileRead(state, filename); var run := Executed(state, Input(Read(Some(address), filename), []));
      && (file.Fail? ==> run == Effect(state, false))
      && (file.Ok? && ReadsBehind(state, address, line) ==>
            && line <= |Here(state).lines|
            && run == Effect(Altered(state, Above(state, line) + file.value.lines + Below(state, line),
                                     line + |file.value.lines|,
                                     Here(state).modified || file.value.lines != [])
                               .(counter := |file.value.lines|, condition := true), true))
      && ((forall n: nat :: !ReadsBehind(state, address, n)) ==> run == Effect(state, false))
  {
    hide Performed, IsConsistent, Decode, ReadPosition, ReadsBehind;
    InConsistent(state);
    PerformedIs(state, Read(Some(address), filename));
    ReadsIs(state, address, line);
    var position := ReadPosition(address, Here(state).currentLine, |Here(state).lines|);
    if position.Ok? {
      ReadsIs(state, address, position.value);
    }
  }

  lemma {:induction false} ReadsIs(state: State, address: Address, line: nat)
    requires IsConsistent(state)
    ensures ReadPosition(address, Here(state).currentLine, |Here(state).lines|) == Ok(line) <==>
            ReadsBehind(state, address, line)
  {
    hide Selects, ReadPosition;
    ReadGoesBehind(address, Here(state).currentLine, |Here(state).lines|, line);
  }

  // ---------------------------------------------------------------- `W`

  /** The lines that `W` writes: all of them without an address, even if there are none. */
  predicate Writes(state: State, address: Option<Address>, lines: seq<string>, full: bool)
    requires IsConsistent(state)
  {
    if address.None? then lines == Here(state).lines && full
    else
      Here(state).lines != [] &&
      exists first, last :: 1 <= first <= last <= |Here(state).lines| && Chooses(state, address, LineRange(first, last))
        && lines == Here(state).lines[first - 1..last] && full == (first == 1 && last == |Here(state).lines|)
  }

  /** How lines can be written: as ASCII if asked, as UTF-8 if asked, and else as ASCII if the buffer came from an ASCII
    file. */
  function EncodingMeant(state: State, mode: WriteMode): TextEncoding
    requires IsConsistent(state)
  {
    if mode.AsAscii? then Ascii
    else if mode.AsUtf8? then Utf8Text
    else if Here(state).encoding.Ascii? then Ascii
    else Utf8Text
  }

  /** Every byte of the lines is below 128; or every line is valid UTF-8. */
  predicate CanWrite(lines: seq<string>, encoding: TextEncoding) {
    forall k :: 0 <= k < |lines| ==>
      if encoding.Ascii? then forall j :: 0 <= j < |lines[k]| ==> lines[k][j] as int < 128 else IsValid(lines[k])
  }

  /** `W` writes its lines to the file, each with the buffer's line end; the last one goes without if it is the
    buffer's and
    had none. Once all of them are written there is nothing to save, and the buffer is associated with the file. */
  lemma {:induction false} WriteStores(state: State, address: Option<Address>, filename: Option<string>,
                                       mode: WriteMode,
                                       lines: seq<string>, full: bool)
    requires IsConsistent(state) && Writes(state, address, lines, full)
    ensures var name := FileMeant(state, filename); var run := Executed(state,
            Input(Write(address, filename, mode), []));
      var text := Here(state); var encoding := EncodingMeant(state, mode);
      if mode.AsBcd? || name.None? || !CanWrite(lines, encoding) then run == Effect(state, false)
      else
        run == Effect(state.(
          texts := state.texts[state.current :=
            if full then text.(modified := false, saved := text.lines, associatedFile := name, encoding := encoding)
            else text],
          files := state.files[name.value := Written(lines, text.lineEnding, !full || text.finalNewline)],
          counter := |lines|, condition := true), true)
  {
    hide Performed, IsConsistent, Written, Writes, IsValid, WriteTarget, LinesOf, IsFull;
    InConsistent(state);
    PerformedIs(state, Write(address, filename, mode));
    WritesIs(state, address, lines, full);
  }

  lemma {:induction false} WritesIs(state: State, address: Option<Address>, lines: seq<string>, full: bool)
    requires IsConsistent(state) && Writes(state, address, lines, full)
    ensures var range := WriteTarget(address, Here(state).currentLine, |Here(state).lines|);
      range.Ok? && LinesOf(Here(state).lines, range.value) == lines && IsFull(range.value, |Here(state).lines|) == full
  {
    hide Evaluate, Selects;
    if address.Some? {
      var first, last :| 1 <= first <= last <= |Here(state).lines| && Chooses(state, address, LineRange(first, last))
        && lines == Here(state).lines[first - 1..last] && full == (first == 1 && last == |Here(state).lines|);
      ChoiceIs(state, address, LineRange(first, last));
    }
  }

  /** Without lines to write, nothing happens. */
  lemma {:induction false} NothingToWrite(state: State, address: Address, filename: Option<string>, mode: WriteMode)
    requires IsConsistent(state) && (Here(state).lines == [] || forall r :: !Chooses(state, Some(address), r))
    ensures Executed(state, Input(Write(Some(address), filename, mode), [])) == Effect(state, false)
  {
    hide Performed, IsConsistent, Written, Evaluate, Selects;
    InConsistent(state);
    PerformedIs(state, Write(Some(address), filename, mode));
    NoneChosen(state, Some(address));
  }

  /** Files are told by their bytes: a NUL is not text, nor are bytes that are not UTF-8; three bytes in front of the
    text can
    say that it is; the first carriage return in front of a line feed tells the line ends. */
  lemma {:induction false} FilesAreTold(text: string)
    requires '\0' !in text
    ensures Decode("\0" + text).Fail?
    ensures var mark := [0xEF as char, 0xBB as char, 0xBF as char]; var marked := Decode(mark + text);
      && marked.Ok? == IsValid(text)
      && (marked.Ok? ==> marked.value.encoding == Utf8Text)
      && (IsValid(text) && !(mark <= text) ==> Decode(text).Ok? && Decode(text).value.lines == marked.value.lines)
    ensures text != "" && text[0] != 0xEF as char ==> var file := Decode(text);
      && file.Ok? == IsValid(text)
      && (file.Ok? ==>
            && (file.value.encoding == Ascii <==> forall k :: 0 <= k < |text| ==> text[k] as int < 128)
            && (file.value.encoding != Ascii ==> file.value.encoding == Utf8Text)
            && (file.value.lineEnding == CrLf <==>
                exists k :: 0 <= k < |text| - 1 && text[k] == '\r' && text[k + 1] == '\n')
            && (file.value.finalNewline <==> text[|text| - 1] == '\n'))
  {
    hide SplitLines, IsValid;
    var mark := [0xEF as char, 0xBB as char, 0xBF as char];
    assert (mark + text)[3..] == text;
    if IsAscii(text) {
      AsciiIsValid(text);
    }
    assert text[..|text|] == text;
  }

  // ---------------------------------------------------------------- the other commands

  /** The switches set just their options, and a comment does nothing. */
  lemma {:induction false} SwitchesSet(state: State, on: bool, remark: string)
    requires IsConsistent(state)
    ensures Executed(state, Input(Monitor(on), [])) == Effect(state.(monitored := on), true)
    ensures Executed(state, Input(InputParenthesis(on), [])) == Effect(state.(parentheses := on), true)
    ensures Executed(state, Input(Comment(remark), [])) == Effect(state, true)
  {
    hide Performed, IsConsistent;
    PerformedIs(state, Monitor(on));
    PerformedIs(state, InputParenthesis(on));
    PerformedIs(state, Comment(remark));
    assert state.output + "" == state.output;
  }

  /** A message of up to 2000 bytes is shown, and a shell's output; its success is the condition. */
  lemma {:induction false} MessageIsShown(state: State, text: string, newline: bool)
    requires IsConsistent(state)
    ensures Executed(state, Input(Message(text, newline), [])) ==
            if |text| <= 2000 then Effect(state.(output := state.output + (text + if newline then "\n" else "")), true)
            else Effect(state, false)
    ensures Executed(state, Input(Command.System(text), [])) ==
            Effect(state.(output := state.output + state.shell(text).0, condition := state.shell(text).1), true)
  {
    hide Performed, IsConsistent;
    PerformedIs(state, Message(text, newline));
    PerformedIs(state, Command.System(text));
    assert state.output + "" == state.output && text + "" == text;
  }

  /** `L` shows the lines of a file, whether or not it is text. */
  lemma {:induction false} FileIsShown(state: State, name: string)
    requires IsConsistent(state)
    ensures Executed(state, Input(List(Some(name)), [])) ==
            if name in state.files then
              Effect(state.(output := state.output + PrintedLines(CapturedLines(state.files[name]))), true)
            else Effect(state, false)
    ensures Executed(state, Input(List(None), [])) == Effect(state, false)
  {
    hide Performed, IsConsistent, PrintedLines, CapturedLines;
    PerformedIs(state, List(Some(name)));
    PerformedIs(state, List(None));
    assert state.output + "" == state.output;
  }

  /** `FO` shows the options. */
  lemma {:induction false} OptionsAreShown(state: State)
    requires IsConsistent(state)
    ensures Executed(state, Input(Facts(false), [])) ==
            Effect(state.(output := state.output
                                    + ((if state.parentheses then "o+i(\n" else "o-i(\n")
                                       + if state.monitored then "o+m\n" else "o-m\n")), true)
  {
    hide Performed, IsConsistent, PrintedLines;
    PerformedIs(state, Facts(false));
    var one, two := if state.parentheses then "o+i(" else "o-i(", if state.monitored then "o+m" else "o-m";
    assert [one, two] == [one] + [two];
    ShownLines([one], [two], one);
    ShownLines([one], [two], two);
    var first, second := if state.parentheses then "o+i(\n" else "o-i(\n", if state.monitored then "o+m\n" else "o-m\n";
    assert one + "\n" == first && two + "\n" == second;
    assert FactLines(state, false) == [one, two];
  }

  /** `FB` shows a line for each buffer of the recent list: its name, its current line and how many lines it has, its
    file if
    it has one, and a question mark if it is modified. */
  lemma {:induction false} BuffersAreShown(state: State, k: nat)
    requires IsConsistent(state) && k < |state.recent|
    ensures var shown := FactLines(state, true); var text := state.texts[state.recent[k]];
      && Executed(state, Input(Facts(true), [])) == Effect(state.(output := state.output + PrintedLines(shown)), true)
      && |shown| == |state.recent|
      && shown[k] == "b(" + (state.recent[k] + (") " + (Decimal(text.currentLine) + ("," + (Decimal(|text.lines|)
           + (match text.associatedFile
              case None => if text.modified then " ?" else ""
              case Some(file) => " " + (file + if text.modified then " ?" else "")))))))
  {
    hide Performed, PrintedLines, DescriptionOf;
    PerformedIs(state, Facts(true));
    DescribedAt(state.texts, state.recent, k);
    var text := state.texts[state.recent[k]];
    DescriptionReads(state.recent[k], text);
  }

  lemma {:induction false} DescribedAt(texts: map<string, Text>, names: seq<string>, k: nat)
    requires (forall n :: n in names ==> n in texts) && k < |names|
    ensures |Described(texts, names)| == |names| &&
            Described(texts, names)[k] == DescriptionOf(names[k], texts[names[k]])
  {
    hide DescriptionOf;
    if k > 0 {
      DescribedAt(texts, names[1..], k - 1);
    } else if |names| > 1 {
      DescribedAt(texts, names[1..], 0);
    }
  }

  lemma {:induction false} DescriptionReads(name: string, text: Text)
    ensures DescriptionOf(name, text) ==
            "b(" + (name + (") " + (Decimal(text.currentLine) + ("," + (Decimal(|text.lines|)
              + (match text.associatedFile
                 case None => if text.modified then " ?" else ""
                 case Some(file) => " " + (file + if text.modified then " ?" else "")))))))
  {
    hide Decimal;
    var start := "b(" + name + ") " + Decimal(text.currentLine) + "," + Decimal(|text.lines|);
    assert start == "b(" + (name + (") " + (Decimal(text.currentLine) + ("," + Decimal(|text.lines|)))));
    var mark := if text.modified then " ?" else "";
    assert start + "" + mark == start + mark;
    if text.associatedFile.Some? {
      assert start + (" " + text.associatedFile.value) + mark == start + (" " + (text.associatedFile.value + mark));
    }
  }
}
