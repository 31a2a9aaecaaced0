/** What commands do, as a function of the whole state of the editor: the meaning that the editor's methods
  are proved to have, and with which sessions and procedures are reasoned about. */
module Semantics {
  import opened Outcomes
  import opened Limits
  import opened Numbers
  import opened Addresses
  import opened TextFiles
  import opened Buffers
  import opened LineCommands
  import opened Executor
  import opened FileCommands
  import opened Captures

  /** All there is to know about an editor: what its buffers hold, by name, the recent list, the name of the
    current buffer, the output, the registers and options, the files, and the host's shell. */
  datatype State = State(texts: map<string, Text>, recent: seq<string>, current: string,
                         output: string, counter: int, condition: bool, registers: map<string, int>,
                         parentheses: bool, monitored: bool, exit: bool, immediate: bool,
                         files: map<string, string>, shell: string -> (string, bool))

  predicate IsConsistentText(text: Text) {
    text.currentLine <= |text.lines| && (!text.modified ==> text.lines == text.saved)
  }

  /** There is a current buffer, the recent list names buffers, and unmodified text is saved text. */
  predicate IsConsistent(state: State) {
    AreConsistent(state.texts, state.recent, state.current)
  }

  predicate AreConsistent(texts: map<string, Text>, recent: seq<string>, current: string) {
    && current in texts
    && (forall n :: n in recent ==> n in texts)
    && forall n :: n in texts ==> IsConsistentText(texts[n])
  }

  /** The state that an editor is in. */
  ghost function Now(context: ExecutionContext): (state: State)
    requires context.Valid()
    reads context, context.manager, context.manager.buffers.Values
    ensures IsConsistent(state) && Here(state) == context.manager.current.AsText()
  {
    TextsAreConsistent(context.manager);
    State(context.manager.Texts(), context.manager.usageOrder, context.manager.current.name,
          context.output, context.counter, context.condition, context.numericRegisters,
          context.inputParenthesesRequired, context.monitorCommands, context.exitRequested, context.immediateExit,
          context.files, context.shell)
  }

  lemma {:induction false} TextsAreConsistent(manager: BufferManager)
    requires manager.Valid()
    ensures forall n :: n in manager.buffers ==> IsConsistentText(manager.buffers[n].AsText())
  {
    forall n | n in manager.buffers ensures IsConsistentText(manager.buffers[n].AsText()) {
      assert manager.buffers[n].Valid();
    }
  }

  /** No text was saved, nothing happened to the files, and nothing asked to leave. */
  predicate SavesNothing(before: State, after: State) {
    && AreSavedAlike(before.texts, after.texts)
    && after.files == before.files && after.exit == before.exit && after.immediate == before.immediate
  }

  /** Buffers keep what they have saved and what they know of their files; new ones have nothing saved. */
  predicate AreSavedAlike(before: map<string, Text>, after: map<string, Text>) {
    && (forall n :: n in before ==> n in after && SavedAlike(before[n], after[n]))
    && (forall n :: n in after && n !in before ==> after[n].saved == [])
  }

  lemma {:induction false} InConsistent(state: State)
    requires IsConsistent(state)
    ensures state.current in state.texts && IsConsistentText(state.texts[state.current])
  {
  }

  lemma {:induction false} NothingChanged(texts: map<string, Text>)
    ensures AreSavedAlike(texts, texts)
  {
  }

  predicate SavedAlike(before: Text, after: Text) {
    after == before.(lines := after.lines, currentLine := after.currentLine, modified := after.modified)
  }

  /** One buffer holds something else now, or is new. */
  function Filed(state: State, name: string, text: Text): (filed: State)
    requires IsConsistent(state) && IsConsistentText(text)
    ensures IsConsistent(filed)
    ensures (if name in state.texts then SavedAlike(state.texts[name], text) else text.saved == []) ==>
            SavesNothing(state, filed)
  {
    state.(texts := state.texts[name := text])
  }

  /** What the current buffer holds. */
  function Here(state: State): Text
    requires state.current in state.texts
  {
    state.texts[state.current]
  }

  // ---------------------------------------------------------------- commands on the current buffer

  function DeskOf(state: State): Desk
    requires state.current in state.texts
  {
    Desk(Here(state).lines, Here(state).currentLine, Here(state).modified, state.output, state.condition, state.counter)
  }

  /** The state with the results of work on the current buffer's lines. */
  function Placed(state: State, desk: Desk): (placed: State)
    requires IsConsistent(state) && IsSound(desk, Here(state).saved)
    ensures IsConsistent(placed) && SavesNothing(state, placed)
  {
    var text := Here(state).(lines := desk.lines, currentLine := desk.currentLine, modified := desk.modified);
    Filed(state, state.current, text).(output := desk.output, condition := desk.condition, counter := desk.counter)
  }

  ghost function OnLines(state: State, command: Command): (r: Effect<State>)
    requires IsConsistent(state) && IsLineCommand(command)
    ensures IsConsistent(r.after) && SavesNothing(state, r.after)
  {
    LineWorkIsSound(DeskOf(state), command, Here(state).saved);
    var work := LineWork(DeskOf(state), command);
    Effect(Placed(state, work.after), work.succeeded)
  }

  /** `A`, `I` and `C` with their lines. */
  function Typed(state: State, command: Command, lines: seq<string>): (r: Effect<State>)
    requires IsConsistent(state) && IsTextCommand(command)
    ensures IsConsistent(r.after) && SavesNothing(state, r.after)
  {
    TypedIsSound(DeskOf(state), command, lines, Here(state).saved);
    var work := TypedWork(DeskOf(state), command, lines);
    Effect(Placed(state, work.after), work.succeeded)
  }

  lemma {:induction false} NothingInserted(lines: seq<string>, after: nat)
    requires after <= |lines|
    ensures With(lines, after, []) == lines
  {
  }

  /** `R`: loads a file into an empty buffer, or inserts its lines at an address. */
  function ReadIn(state: State, address: Option<Address>, filename: Option<string>): (r: Effect<State>)
    requires IsConsistent(state)
    ensures IsConsistent(r.after)
  {
    match ReadText(Here(state), state.files, address, filename)
    case Fail => Effect(state, false)
    case Ok(read) =>
      ReadIsConsistent(Here(state), state.files, address, filename);
      Effect(Filed(state, state.current, read.0).(counter := read.1, condition := true), true)
  }

  lemma {:induction false} ReadIsConsistent(text: Text, files: map<string, string>, address: Option<Address>,
                                            filename: Option<string>)
    requires IsConsistentText(text) && ReadText(text, files, address, filename).Ok?
    ensures IsConsistentText(ReadText(text, files, address, filename).value.0)
  {
    hide ReadFile;
    NothingInserted(text.lines,
                    if address.None? then 0 else ReadPosition(address.value, text.currentLine, |text.lines|).value);
  }

  /** `W`: writes a range if its lines fit the encoding; written in full, the text is saved text. */
  function WrittenOut(state: State, address: Option<Address>, filename: Option<string>, mode: WriteMode):
    (r: Effect<State>)
    requires IsConsistent(state)
    ensures IsConsistent(r.after)
  {
    hide Written, Representable, WriteTarget, WriteEncoding;
    var text := Here(state);
    var name := ChosenFile(filename, text.associatedFile);
    var range := WriteTarget(address, text.currentLine, |text.lines|);
    var encoding := WriteEncoding(mode, text.encoding);
    if mode == AsBcd || name.None? || range.Fail? || !Representable(LinesOf(text.lines, range.value), encoding) then
      Effect(state, false)
    else
      var lines := LinesOf(text.lines, range.value);
      var full := IsFull(range.value, |text.lines|);
      var bytes := Written(lines, text.lineEnding, !full || text.finalNewline);
      var now := if full then text.(modified := false, saved := text.lines, associatedFile := name,
                                    encoding := encoding) else text;
      Effect(Filed(state, state.current, now).(files := state.files[name.value := bytes], counter := |lines|,
                                               condition := true), true)
  }

  // ---------------------------------------------------------------- commands on other buffers

  predicate IsBufferName(name: string) {
    0 < |name| <= MAX_BUFFER_NAME_LENGTH
  }

  /** A buffer that may be dropped when it is left: not the default one, empty, unmodified and without a file. */
  predicate IsTransientText(name: string, text: Text) {
    name != "0" && text.lines == [] && !text.modified && text.associatedFile == None
  }

  /** Selects a buffer, creating it if needed; the buffer that is left is dropped if it is transient. */
  function SelectedState(state: State, name: string): (r: Effect<State>)
    requires IsConsistent(state)
    ensures IsConsistent(r.after)
  {
    if !IsBufferName(name) then Effect(state, false)
    else
      var entered := Entered(state, name);
      Effect(if state.current != name && IsTransientText(state.current, Here(state)) then
             Forgotten(entered, state.current)
             else entered, true)
  }

  function Entered(state: State, name: string): (entered: State)
    requires IsConsistent(state)
    ensures IsConsistent(entered) && entered.current == name
  {
    var text := if name in state.texts then state.texts[name] else NewText();
    Filed(state, name, text).(recent := [name] + Dropped(state.recent, name), current := name)
  }

  function Forgotten(state: State, name: string): (forgotten: State)
    requires IsConsistent(state) && name != state.current
    ensures IsConsistent(forgotten)
  {
    state.(texts := state.texts - {name}, recent := Dropped(state.recent, name))
  }

  /** `M`: a range becomes the content of another buffer, or of its own. */
  function MovedState(state: State, address: Option<Address>, name: string): (r: Effect<State>)
    requires IsConsistent(state)
    ensures IsConsistent(r.after) && SavesNothing(state, r.after)
  {
    hide Evaluate, VisitedAndLeft, AreConsistent, AreSavedAlike, MovedTexts;
    InConsistent(state);
    NothingChanged(state.texts);
    var range := Evaluate(address, Here(state).currentLine, |Here(state).lines|);
    if range.Fail? || !IsBufferName(name) then Effect(state, false)
    else
      MoveIsSound(state.texts, state.recent, state.current, range.value, name);
      var recent := if name == state.current then state.recent else VisitedAndLeft(state.recent, name, state.current);
      Effect(state.(texts := MovedTexts(state.texts, state.current, range.value, name), recent := recent), true)
  }

  lemma {:induction false} MoveIsSound(texts: map<string, Text>, recent: seq<string>, current: string,
                                       range: LineRange, name: string)
    requires AreConsistent(texts, recent, current) && 1 <= range.first <= range.last <= |texts[current].lines|
    ensures var moved := MovedTexts(texts, current, range, name);
      && AreSavedAlike(texts, moved)
      && AreConsistent(moved, if name == current then recent else VisitedAndLeft(recent, name, current), current)
  {
    hide Slice, Without, Dropped;
  }

  /** `ZG` puts captured lines into a buffer: as its content if it is empty, else after its current line. */
  function GatheredState(state: State, name: string, lines: seq<string>): (r: Effect<State>)
    requires IsConsistent(state) && lines != []
    ensures IsConsistent(r.after) && SavesNothing(state, r.after)
  {
    if !IsBufferName(name) then Effect(state, false)
    else
      var text := if name in state.texts then state.texts[name] else NewText();
      var after := if text.lines == [] then 0 else text.currentLine;
      var gathered := text.(lines := With(text.lines, after, lines), currentLine := after + |lines|, modified := true);
      Effect(Filed(state, name, gathered), true)
  }

  // ---------------------------------------------------------------- listings

  /** One line about a buffer. */
  function DescriptionOf(name: string, text: Text): string {
    "b(" + name + ") " + Decimal(text.currentLine) + "," + Decimal(|text.lines|)
    + (if text.associatedFile.Some? then " " + text.associatedFile.value else "")
    + (if text.modified then " ?" else "")
  }

  /** The lines of a listing of the named buffers. */
  function Described(texts: map<string, Text>, names: seq<string>): seq<string>
    requires forall n :: n in names ==> n in texts
  {
    if names == [] then [] else [DescriptionOf(names[0], texts[names[0]])] + Described(texts, names[1..])
  }

  function FactLines(state: State, ofBuffers: bool): seq<string>
    requires IsConsistent(state)
  {
    if ofBuffers then Described(state.texts, state.recent)
    else [if state.parentheses then "o+i(" else "o-i(", if state.monitored then "o+m" else "o-m"]
  }

  /** More output, and registers and options that no text depends on. */
  function Told(state: State, text: string, condition: bool, parentheses: bool, monitored: bool): (told: State)
    requires IsConsistent(state)
    ensures IsConsistent(told) && SavesNothing(state, told)
  {
    state.(output := state.output + text, condition := condition, parentheses := parentheses, monitored := monitored)
  }

  /** More output. */
  function Said(state: State, text: string): (said: State)
    requires IsConsistent(state)
    ensures IsConsistent(said) && SavesNothing(state, said)
  {
    Told(state, text, state.condition, state.parentheses, state.monitored)
  }

  /** The commands that touch no buffer. */
  predicate IsPlainCommand(command: Command) {
    || command.Comment? || command.InputParenthesis? || command.Monitor? || command.Message? || command.List?
    || command.Facts? || command.System?
  }

  function Plain(state: State, command: Command): (r: Effect<State>)
    requires IsConsistent(state) && IsPlainCommand(command)
    ensures IsConsistent(r.after) && SavesNothing(state, r.after)
  {
    hide PrintedLines, FactLines, CapturedLines, Told, Said, AreConsistent, SavesNothing;
    match command
    case InputParenthesis(enabled) => Effect(Told(state, "", state.condition, enabled, state.monitored), true)
    case Monitor(enabled) => Effect(Told(state, "", state.condition, state.parentheses, enabled), true)
    case Message(text, newline) =>
      Effect(Said(state, if |text| > MAX_MESSAGE_LENGTH then "" else if newline then text + "\n" else text),
             |text| <= MAX_MESSAGE_LENGTH)
    case List(filename) =>
      var found := filename.Some? && filename.value in state.files;
      Effect(Said(state, if found then PrintedLines(CapturedLines(state.files[filename.value])) else ""), found)
    case Facts(ofBuffers) => Effect(Said(state, PrintedLines(FactLines(state, ofBuffers))), true)
    case System(line) => Effect(Told(state, state.shell(line).0, state.shell(line).1, state.parentheses,
                                     state.monitored), true)
    case _ => Effect(Said(state, ""), true)
  }

  // ---------------------------------------------------------------- all commands

  predicate AnyModified(texts: map<string, Text>) {
    exists n :: n in texts && texts[n].modified
  }

  /** `Q` asks to leave unless some buffer is modified; `QQ` does not look. */
  function Quitting(state: State, immediate: bool): (r: Effect<State>)
    requires IsConsistent(state)
    ensures IsConsistent(r.after)
  {
    if !immediate && AnyModified(state.texts) then Effect(state, false)
    else Effect(state.(exit := true, immediate := immediate), true)
  }

  /** `B`: the short form is refused while parentheses are required. */
  function Selecting(state: State, name: string, shortForm: bool): (r: Effect<State>)
    requires IsConsistent(state)
    ensures IsConsistent(r.after)
  {
    if shortForm && state.parentheses then Effect(state, false) else SelectedState(state, name)
  }

  /** The state with an output of its own. */
  function Silenced(state: State): (silenced: State)
    ensures IsConsistent(state) ==> IsConsistent(silenced)
  {
    state.(output := "")
  }

  /** What a command does, and whether it succeeds. */
  ghost function Performed(state: State, command: Command): (r: Effect<State>)
    requires IsConsistent(state)
    ensures IsConsistent(r.after)
    decreases command
  {
    if IsPlainCommand(command) then Plain(state, command)
    else if IsLineCommand(command) then OnLines(state, command)
    else
      match command
      case ZapGather(name, nested) => Gathering(state, name, Performed(Silenced(state), nested))
      case Quit(immediate) => Quitting(state, immediate)
      case SelectBuffer(name, shortForm) => Selecting(state, name, shortForm)
      case Read(address, filename) => ReadIn(state, address, filename)
      case Write(address, filename, mode) => WrittenOut(state, address, filename, mode)
      case Move(address, name) => MovedState(state, address, name)
      case _ => Effect(state, false)
  }

  /** The meaning of each kind of command. */
  lemma {:induction false} PerformedIs(state: State, command: Command)
    requires IsConsistent(state)
    ensures var r := Performed(state, command);
      && (IsPlainCommand(command) ==> r == Plain(state, command))
      && (IsLineCommand(command) ==> r == OnLines(state, command))
      && (command.ZapGather? ==> r == Gathering(state, command.bufferName, Performed(Silenced(state), command.nested)))
      && (command.Quit? ==> r == Quitting(state, command.immediate))
      && (command.SelectBuffer? ==> r == Selecting(state, command.name, command.shortForm))
      && (command.Read? ==> r == ReadIn(state, command.readAddress, command.filename))
      && (command.Write? ==> r == WrittenOut(state, command.writeAddress, command.filename, command.mode))
      && (command.Move? ==> r == MovedState(state, command.address, command.bufferName))
      && (IsTextCommand(command) ==> r == Effect(state, false))
  {
    hide Plain, OnLines, Gathering, Quitting, Selecting, ReadIn, WrittenOut, MovedState, IsConsistent, Silenced;
  }

  /** `ZG`: the output of the nested command goes to a buffer, that from before is restored. */
  function Gathering(state: State, name: string, run: Effect<State>): (r: Effect<State>)
    requires IsConsistent(run.after)
    ensures IsConsistent(r.after)
  {
    var back := run.after.(output := state.output);
    var lines := CapturedLines(run.after.output);
    if !run.succeeded || lines == [] then Effect(back, run.succeeded) else GatheredState(back, name, lines)
  }

  /** One input: a command, with the lines typed for it if it is `A`, `I` or `C`. */
  datatype Input = Input(command: Command, lines: seq<string>)

  ghost function Executed(state: State, input: Input): (r: Effect<State>)
    requires IsConsistent(state)
    ensures IsConsistent(r.after)
  {
    if IsTextCommand(input.command) then Typed(state, input.command, input.lines)
    else Performed(state, input.command)
  }
}
