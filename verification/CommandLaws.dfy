/** What each command does, stated outright: which lines it takes, where they go, and all that changes in the state of
  the
  editor. */
module CommandLaws {
  import opened Outcomes
  import opened Addresses
  import opened AddressLaws
  import opened TextFiles
  import opened Buffers
  import opened Patterns
  import opened Substitution
  import opened LineCommands
  import opened GlobalLaws
  import opened Semantics

  /** The address selects these lines of the current buffer. */
  predicate Chooses(state: State, address: Option<Address>, range: LineRange)
    requires IsConsistent(state)
  {
    Selects(address, Here(state).currentLine, |Here(state).lines|, range)
  }

  /** The place behind a line of the current buffer, or in front of all of them, that an address points to. */
  predicate PointsBehind(state: State, address: Address, line: nat)
    requires IsConsistent(state)
  {
    Points(address, Here(state).currentLine, |Here(state).lines|, line)
  }

  /** The current buffer with other lines, the cursor elsewhere, and perhaps modified. */
  function Altered(state: State, lines: seq<string>, cursor: nat, modified: bool): State
    requires IsConsistent(state)
  {
    state.(texts := state.texts[state.current := Here(state).(lines := lines, currentLine := cursor,
                                                              modified := modified)])
  }

  /** The chosen lines, those before and those behind them. */
  function Chosen(state: State, range: LineRange): seq<string>
    requires IsConsistent(state) && 1 <= range.first <= range.last <= |Here(state).lines|
  {
    Here(state).lines[range.first - 1..range.last]
  }

  function Above(state: State, line: nat): seq<string>
    requires IsConsistent(state) && line <= |Here(state).lines|
  {
    Here(state).lines[..line]
  }

  function Below(state: State, line: nat): seq<string>
    requires IsConsistent(state) && line <= |Here(state).lines|
  {
    Here(state).lines[line..]
  }

  /** Text is shown line by line. */
  lemma {:induction false} ShownLines(first: seq<string>, second: seq<string>, line: string)
    ensures PrintedLines(first + second) == PrintedLines(first) + PrintedLines(second)
    ensures PrintedLines([line]) == line + "\n" && PrintedLines([]) == ""
  {
    assert PrintedLines([line]) == PrintedLines([line][..0]) + line + "\n" && "" + line == line;
    if second == [] {
      assert first + second == first && PrintedLines(first) + "" == PrintedLines(first);
    } else {
      var before, last := second[..|second| - 1], second[|second| - 1];
      assert (first + second)[..|first| + |before|] == first + before;
      ShownLines(first, before, line);
      var a, b := PrintedLines(first), PrintedLines(before);
      assert a + b + last + "\n" == a + (b + last + "\n");
    }
  }

  // ---------------------------------------------------------------- commands on lines

  lemma {:induction false} LinesRun(state: State, command: Command, text: seq<string>)
    requires IsConsistent(state) && (IsLineCommand(command) || IsTextCommand(command))
    ensures state.current in state.texts && Here(state).currentLine <= |Here(state).lines|
    ensures var work := if IsTextCommand(command) then TypedWork(DeskOf(state), command, text)
                        else LineWork(DeskOf(state), command);
      Executed(state, Input(command, text)) ==
      Effect(Altered(state, work.after.lines, work.after.currentLine, work.after.modified)
               .(output := work.after.output, condition := work.after.condition, counter := work.after.counter),
                   work.succeeded)
  {
    hide LineWork, TypedWork, IsConsistent, SavesNothing, Performed;
    InConsistent(state);
    PerformedIs(state, command);
  }

  /** An address chooses lines exactly if it evaluates to them. */
  lemma {:induction false} ChoiceIs(state: State, address: Option<Address>, range: LineRange)
    requires IsConsistent(state) && Chooses(state, address, range)
    ensures Evaluate(address, Here(state).currentLine, |Here(state).lines|) == Ok(range)
    ensures 1 <= range.first <= range.last <= |Here(state).lines|
  {
    hide Evaluate, Denotes;
    SelectsOne(address, Here(state).currentLine, |Here(state).lines|, range);
  }

  /** `P` shows the chosen lines, and moves to the last one. */
  lemma {:induction false} PrintShows(state: State, address: Option<Address>, range: LineRange)
    requires IsConsistent(state) && Chooses(state, address, range)
    ensures 1 <= range.first <= range.last <= |Here(state).lines|
    ensures Executed(state, Input(Print(address), [])) ==
            Effect(Altered(state, Here(state).lines, range.last, Here(state).modified)
                     .(output := state.output + PrintedLines(Chosen(state, range))), true)
  {
    hide Evaluate, Selects, IsConsistent, Executed, PrintedLines;
    ChoiceIs(state, address, range);
    LinesRun(state, Print(address), []);
  }

  /** `D` takes the chosen lines away, and moves to the line that comes up in their place, or to the last one. */
  lemma {:induction false} DeleteTakes(state: State, address: Option<Address>, range: LineRange)
    requires IsConsistent(state) && Chooses(state, address, range)
    ensures 1 <= range.first <= range.last <= |Here(state).lines|
    ensures var left := Above(state, range.first - 1) + Below(state, range.last);
      Executed(state, Input(Delete(address), [])) ==
      Effect(Altered(state, left, if range.first <= |left| then range.first else |left|, true), true)
  {
    hide Evaluate, Selects, IsConsistent, Executed;
    ChoiceIs(state, address, range);
    LinesRun(state, Delete(address), []);
  }

  /** `Z` moves to the chosen line; it has to be one. */
  lemma {:induction false} ZapMoves(state: State, address: Option<Address>, range: LineRange)
    requires IsConsistent(state) && Chooses(state, address, range)
    ensures 1 <= range.first <= range.last <= |Here(state).lines|
    ensures Executed(state, Input(Zap(address), [])) ==
            if range.first == range.last then
                Effect(Altered(state, Here(state).lines, range.first, Here(state).modified), true)
            else Effect(state, false)
  {
    hide Evaluate, Selects, IsConsistent, Executed;
    ChoiceIs(state, address, range);
    LinesRun(state, Zap(address), []);
    NothingHappens(state);
  }

  lemma {:induction false} NothingHappens(state: State)
    requires IsConsistent(state)
    ensures Altered(state, Here(state).lines, Here(state).currentLine, Here(state).modified) == state
    ensures state.(output := state.output, condition := state.condition, counter := state.counter) == state
  {
  }

  /** `T` puts a copy of the chosen lines behind the destination, and moves to the last line of the copy. */
  lemma {:induction false} TransferCopies(state: State, address: Option<Address>, range: LineRange,
                                          destination: Address,
                                          line: nat)
    requires IsConsistent(state) && Chooses(state, address, range) && PointsBehind(state, destination, line)
    ensures 1 <= range.first <= range.last <= |Here(state).lines| && line <= |Here(state).lines|
    ensures Executed(state, Input(Transfer(address, Some(destination)), [])) ==
            Effect(Altered(state, Above(state, line) + Chosen(state, range) + Below(state, line),
                       line + |Chosen(state, range)|, true), true)
  {
    hide Evaluate, Selects, IsConsistent, Executed, TransferDestination;
    ChoiceIs(state, address, range);
    hide Points, Exists;
    LinesRun(state, Transfer(address, Some(destination)), []);
    TransferGoesBehind(Some(destination), Here(state).currentLine, |Here(state).lines|, line);
  }

  /** Without chosen lines, these commands fail and change nothing. */
  lemma {:induction false} NothingChosen(state: State, address: Option<Address>)
    requires IsConsistent(state) && forall r :: !Chooses(state, address, r)
    ensures Executed(state, Input(Print(address), [])) == Executed(state, Input(Delete(address), [])) ==
            Effect(state, false)
    ensures Executed(state, Input(Zap(address), [])) == Effect(state, false)
  {
    hide *;
    InConsistent(state);
    NoneChosen(state, address);
    LineFails(state, Print(address), address);
    LineFails(state, Delete(address), address);
    LineFails(state, Zap(address), address);
  }

  lemma {:induction false} LineFails(state: State, command: Command, address: Option<Address>)
    requires IsConsistent(state) && command in {Print(address), Delete(address), Zap(address)}
    requires Evaluate(address, Here(state).currentLine, |Here(state).lines|).Fail?
    ensures Executed(state, Input(command, [])) == Effect(state, false)
  {
    hide Evaluate, IsConsistent, Executed;
    LinesRun(state, command, []);
    NothingHappens(state);
  }

  /** And so does `T` without chosen lines or without a destination. */
  lemma {:induction false} NothingCopied(state: State, address: Option<Address>, destination: Option<Address>)
    requires IsConsistent(state)
    requires || destination.None? || (forall r :: !Chooses(state, address, r))
             || forall line: nat :: !PointsBehind(state, destination.value, line)
    ensures Executed(state, Input(Transfer(address, destination), [])) == Effect(state, false)
  {
    hide *;
    CursorIsIn(state);
    if forall r :: !Chooses(state, address, r) {
      NoneChosen(state, address);
    } else if destination.Some? {
      NoDestination(state, destination.value);
    } else {
      NothingToPoint(Here(state).currentLine, |Here(state).lines|);
    }
    CopyFails(state, address, destination);
  }

  lemma {:induction false} CopyFails(state: State, address: Option<Address>, destination: Option<Address>)
    requires IsConsistent(state) && state.current in state.texts
    requires var current, count := Here(state).currentLine, |Here(state).lines|;
      Evaluate(address, current, count).Fail? || TransferDestination(destination, current, count).Fail?
    ensures Executed(state, Input(Transfer(address, destination), [])) == Effect(state, false)
  {
    hide Evaluate, TransferDestination, IsConsistent, Executed;
    NothingHappens(state);
    LinesRun(state, Transfer(address, destination), []);
  }

  lemma {:induction false} NoneChosen(state: State, address: Option<Address>)
    requires IsConsistent(state)
    ensures (forall r :: !Chooses(state, address, r)) ==>
            Evaluate(address, Here(state).currentLine, |Here(state).lines|).Fail?
  {
    hide Evaluate, Selects;
    var current, count := Here(state).currentLine, |Here(state).lines|;
    AddressSelects(address, current, count, LineRange(0, 0));
    if forall r :: !Chooses(state, address, r) {
      forall r ensures !Selects(address, current, count, r) {
        assert !Chooses(state, address, r);
      }
    }
  }

  lemma {:induction false} NoDestination(state: State, destination: Address)
    requires IsConsistent(state)
    ensures (forall line: nat :: !PointsBehind(state, destination, line)) ==>
            TransferDestination(Some(destination), Here(state).currentLine, |Here(state).lines|).Fail?
  {
    var current, count := Here(state).currentLine, |Here(state).lines|;
    hide Points, TransferDestination;
    var r := TransferDestination(Some(destination), current, count);
    if r.Ok? {
      TransferGoesBehind(Some(destination), current, count, r.value);
      assert PointsBehind(state, destination, r.value);
    }
  }

  lemma {:induction false} NothingToPoint(current: nat, count: nat)
    ensures TransferDestination(None, current, count).Fail?
  {
  }

  // ---------------------------------------------------------------- commands with typed lines

  /** Where `A` puts its lines: behind the line that its address points to, or at the end. */
  predicate AppendsBehind(state: State, address: Option<Address>, line: nat)
    requires IsConsistent(state)
  {
    if address.None? then line == |Here(state).lines| else PointsBehind(state, address.value, line)
  }

  /** Where `I` puts them: in front of the line that its address points to, or of the current one; in front of line 0,
    and
    in an empty buffer without an address, that is the beginning. */
  predicate InsertsBehind(state: State, address: Option<Address>, line: nat)
    requires IsConsistent(state)
  {
    if address.None? then if Here(state).lines == [] then line == 0 else line + 1 == Here(state).currentLine
    else if address.value == Absolute(0) then line == 0
    else PointsBehind(state, address.value, line + 1)
  }

  /** The state once some lines were put in behind another one. */
  function Inserted(state: State, line: nat, text: seq<string>): State
    requires IsConsistent(state) && line <= |Here(state).lines|
  {
    Altered(state, Above(state, line) + text + Below(state, line), line + |text|, Here(state).modified || text != [])
  }

  /** `A` puts its lines in, and moves to the last one. */
  lemma {:induction false} AppendPuts(state: State, address: Option<Address>, line: nat, text: seq<string>)
    requires IsConsistent(state) && AppendsBehind(state, address, line)
    ensures line <= |Here(state).lines| &&
            Executed(state, Input(Append(address), text)) == Effect(Inserted(state, line, text), true)
  {
    hide Evaluate, IsConsistent, Executed, AppendPosition, AppendsBehind;
    LinesRun(state, Append(address), text);
    AppendsIs(state, address, line);
  }

  /** So does `I`. */
  lemma {:induction false} InsertPuts(state: State, address: Option<Address>, line: nat, text: seq<string>)
    requires IsConsistent(state) && InsertsBehind(state, address, line)
    ensures line <= |Here(state).lines| &&
            Executed(state, Input(Insert(address), text)) == Effect(Inserted(state, line, text), true)
  {
    hide Evaluate, IsConsistent, Executed, InsertPosition, InsertsBehind;
    LinesRun(state, Insert(address), text);
    InsertsIs(state, address, line);
  }

  /** `C` puts its lines in place of the chosen ones, and moves to the last one; without lines it deletes. */
  lemma {:induction false} ChangePuts(state: State, address: Option<Address>, range: LineRange, text: seq<string>)
    requires IsConsistent(state) && Chooses(state, address, range)
    ensures 1 <= range.first <= range.last <= |Here(state).lines|
    ensures text != [] ==>
      Executed(state, Input(Change(address), text)) ==
      Effect(Altered(state, Above(state, range.first - 1) + text + Below(state, range.last), range.first - 1 + |text|,
                     true), true)
    ensures Executed(state, Input(Change(address), [])) == Executed(state, Input(Delete(address), []))
  {
    hide Evaluate, Selects, IsConsistent, Executed;
    ChoiceIs(state, address, range);
    LinesRun(state, Change(address), text);
    LinesRun(state, Change(address), []);
    DeleteTakes(state, address, range);
    var lines := Here(state).lines;
    assert lines[..range.first - 1] + [] + lines[range.last..] == lines[..range.first - 1] + lines[range.last..];
  }

  /** Without a place for the lines, nothing happens. */
  lemma {:induction false} NoPlaceForText(state: State, address: Option<Address>, text: seq<string>)
    requires IsConsistent(state)
    ensures (forall line: nat :: !AppendsBehind(state, address, line)) ==>
      Executed(state, Input(Append(address), text)) == Effect(state, false)
    ensures (forall line: nat :: !InsertsBehind(state, address, line)) ==>
      Executed(state, Input(Insert(address), text)) == Effect(state, false)
    ensures (forall r :: !Chooses(state, address, r)) ==>
            Executed(state, Input(Change(address), text)) == Effect(state, false)
  {
    hide *;
    CursorIsIn(state);
    var current, count := Here(state).currentLine, |Here(state).lines|;
    var append, insert := AppendPosition(address, current, count), InsertPosition(address, current, count);
    if append.Ok? {
      AppendsIs(state, address, append.value);
    } else {
      TextFails(state, Append(address), address, text);
    }
    if insert.Ok? {
      InsertsIs(state, address, insert.value);
    } else {
      TextFails(state, Insert(address), address, text);
    }
    if forall r :: !Chooses(state, address, r) {
      NoneChosen(state, address);
      TextFails(state, Change(address), address, text);
    }
  }

  lemma {:induction false} CursorIsIn(state: State)
    requires IsConsistent(state)
    ensures state.current in state.texts && Here(state).currentLine <= |Here(state).lines|
  {
  }

  lemma {:induction false} TextFails(state: State, command: Command, address: Option<Address>, text: seq<string>)
    requires IsConsistent(state) && command in {Append(address), Insert(address), Change(address)}
    requires var current, count := Here(state).currentLine, |Here(state).lines|;
      && (command.Append? ==> AppendPosition(address, current, count).Fail?)
      && (command.Insert? ==> InsertPosition(address, current, count).Fail?)
      && (command.Change? ==> Evaluate(address, current, count).Fail?)
    ensures Executed(state, Input(command, text)) == Effect(state, false)
  {
    hide Evaluate, IsConsistent, Executed, AppendPosition, InsertPosition;
    LinesRun(state, command, text);
    NothingHappens(state);
  }

  lemma {:induction false} AppendsIs(state: State, address: Option<Address>, line: nat)
    requires IsConsistent(state)
    ensures AppendPosition(address, Here(state).currentLine, |Here(state).lines|) == Ok(line) <==>
            AppendsBehind(state, address, line)
  {
    hide AppendPosition, Points;
    AppendGoesBehind(address, Here(state).currentLine, |Here(state).lines|, line);
  }

  lemma {:induction false} InsertsIs(state: State, address: Option<Address>, line: nat)
    requires IsConsistent(state)
    ensures InsertPosition(address, Here(state).currentLine, |Here(state).lines|) == Ok(line) <==>
            InsertsBehind(state, address, line)
  {
    InConsistent(state);
    hide InsertPosition, Points;
    InsertGoesBefore(address, Here(state).currentLine, |Here(state).lines|, line);
  }

  // ---------------------------------------------------------------- `S`

  /** The lines with every match in the chosen ones replaced. */
  ghost function Replaced(p: Pattern, replacement: string, lines: seq<string>, range: LineRange): seq<string> {
    seq(|lines|, k requires 0 <= k < |lines| =>
      if range.first <= k + 1 <= range.last then SubstitutedLine(p, replacement, lines[k]) else lines[k])
  }

  lemma {:induction false} ReplacedIs(p: Pattern, replacement: string, lines: seq<string>, range: LineRange)
    requires 1 <= range.first <= range.last <= |lines|
    ensures SubstitutedLines(p, replacement, lines, range.first, range.last + 1) ==
            Replaced(p, replacement, lines, range)
  {
    hide SubstitutedLine, SubstitutedLines;
    var changed := SubstitutedLines(p, replacement, lines, range.first, range.last + 1);
    forall k | 0 <= k < |lines| ensures changed[k] == Replaced(p, replacement, lines, range)[k] {
      SubstitutedLinesAt(p, replacement, lines, range.first, range.last + 1, k);
    }
  }

  /** The last line of a range with a match. */
  ghost predicate IsLastMatch(p: Pattern, lines: seq<string>, range: LineRange, line: nat)
    requires 1 <= range.first && range.last <= |lines|
  {
    && range.first <= line <= range.last && HasMatch(p, lines[line - 1])
    && NoneMatches(p, lines, line, range.last)
  }

  /** No line between two has a match, the one excluded and the other included. */
  ghost predicate NoneMatches(p: Pattern, lines: seq<string>, low: nat, high: nat)
    requires high <= |lines|
  {
    forall k :: low <= k < high ==> !HasMatch(p, lines[k])
  }

  lemma {:induction false} LastMatchIs(p: Pattern, lines: seq<string>, range: LineRange, line: nat)
    requires 1 <= range.first && range.last <= |lines| && IsLastMatch(p, lines, range, line)
    ensures LastMatch(p, lines, range.first, range.last + 1) == Some(line)
    decreases range.last
  {
    hide HasMatch;
    if line < range.last {
      LastMatchIs(p, lines, LineRange(range.first, range.last - 1), line);
    }
  }

  lemma {:induction false} NoLastMatch(p: Pattern, lines: seq<string>, range: LineRange)
    requires 1 <= range.first && range.last <= |lines|
    requires NoneMatches(p, lines, range.first - 1, range.last)
    ensures LastMatch(p, lines, range.first, range.last + 1) == None
    decreases range.last
  {
    hide HasMatch;
    if range.first <= range.last {
      NoLastMatch(p, lines, LineRange(range.first, range.last - 1));
    }
  }

  /** `S` replaces in the chosen lines, moves to the last one with a match and shows it if asked; the buffer is
    modified if
    that changed any line. */
  lemma {:induction false} SubstituteReplaces(state: State, address: Option<Address>, range: LineRange, p: Pattern,
                                              replacement: string, shown: bool, line: nat)
    requires IsConsistent(state) && Chooses(state, address, range)
    requires 1 <= range.first <= range.last <= |Here(state).lines| && IsLastMatch(p, Here(state).lines, range, line)
    ensures var lines := Replaced(p, replacement, Here(state).lines, range);
      && 1 <= line <= |lines|
      && Executed(state, Input(Command.Substitute(address, p, replacement, shown), [])) ==
         Effect(Altered(state, lines, line, Here(state).modified || lines != Here(state).lines)
                  .(condition := true, output := state.output + if shown then lines[line - 1] + "\n" else ""), true)
  {
    hide Evaluate, Selects, IsConsistent, Executed, SubstitutedLines, LastMatch, HasMatch, SubstitutedLine, Chooses;
    ChoiceIs(state, address, range);
    LinesRun(state, Command.Substitute(address, p, replacement, shown), []);
    LastMatchIs(p, Here(state).lines, range, line);
    ReplacedIs(p, replacement, Here(state).lines, range);
    hide Replaced;
  }

  /** Without a match in the chosen lines it fails, and only the condition is put out; without chosen lines not even
    that. */
  lemma {:induction false} SubstituteFails(state: State, address: Option<Address>, range: LineRange, p: Pattern,
                                           replacement: string, shown: bool)
    requires IsConsistent(state)
    ensures Chooses(state, address, range) && 1 <= range.first <= range.last <= |Here(state).lines|
            && NoneMatches(p, Here(state).lines, range.first - 1, range.last) ==>
      Executed(state, Input(Command.Substitute(address, p, replacement, shown), [])) ==
          Effect(state.(condition := false), false)
    ensures (forall r :: !Chooses(state, address, r)) ==>
      Executed(state, Input(Command.Substitute(address, p, replacement, shown), [])) == Effect(state, false)
  {
    hide Evaluate, Selects, IsConsistent, Executed, SubstitutedLines, LastMatch, HasMatch, SubstitutedLine, Chooses;
    LinesRun(state, Command.Substitute(address, p, replacement, shown), []);
    NothingHappens(state);
    NoneChosen(state, address);
    if Chooses(state, address, range) && 1 <= range.first <= range.last <= |Here(state).lines|
       && NoneMatches(p, Here(state).lines, range.first - 1, range.last) {
      ChoiceIs(state, address, range);
      NoLastMatch(p, Here(state).lines, range);
    }
  }
}
