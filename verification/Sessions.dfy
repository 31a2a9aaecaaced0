/** What holds over every session: text is saved where it is said to be, and only empty buffers disappear. */
module Sessions {
  import opened Outcomes
  import opened Addresses
  import opened TextFiles
  import opened Buffers
  import opened LineCommands
  import opened FileCommands
  import opened Captures
  import opened Semantics

  // ---------------------------------------------------------------- one command

  /** The saved text is what the buffer's file holds: the file was written from it, or read into it. */
  predicate OnFile(files: map<string, string>, text: Text) {
    && text.associatedFile.Some? && text.associatedFile.value in files
    && var bytes := files[text.associatedFile.value];
       || bytes == Written(text.saved, text.lineEnding, text.finalNewline)
       || Decode(bytes) == Ok(DecodedFile(text.saved, text.encoding, text.lineEnding, text.finalNewline))
  }

  predicate HoldsNothing(text: Text) {
    text.lines == text.saved == []
  }

  /** Saved text changed only to what the buffer's file holds, new buffers started without any, and only
    buffers without text disappeared. */
  predicate KeepsText(before: State, after: State) {
    && (forall n :: n in after.texts ==>
          || OnFile(after.files, after.texts[n])
          || after.texts[n].saved == if n in before.texts then before.texts[n].saved else [])
    && (forall n :: n in before.texts ==> n in after.texts || HoldsNothing(before.texts[n]))
  }

  /** Leaving the editor would lose nothing. */
  predicate AllSaved(state: State) {
    forall n :: n in state.texts ==> state.texts[n].lines == state.texts[n].saved
  }

  /** Every command keeps the text of all buffers. */
  lemma {:induction false} PerformedKeepsText(state: State, command: Command)
    requires IsConsistent(state)
    ensures KeepsText(state, Performed(state, command).after)
    decreases command
  {
    hide KeepsText, SavesNothing, ReadIn, WrittenOut, SelectedState, OnLines, Plain, Gathering, MovedState,
         IsConsistent;
    var after := Performed(state, command).after;
    Unchanged(state, after);
    if command.ZapGather? {
      var start := Silenced(state);
      PerformedKeepsText(start, command.nested);
      GatheringKeepsText(state, command.bufferName, Performed(start, command.nested));
    } else if command.SelectBuffer? {
      SelectionKeepsText(state, command.name);
    } else if command.Read? {
      ReadKeepsText(state, command.readAddress, command.filename);
    } else if command.Write? {
      WriteKeepsText(state, command.writeAddress, command.filename, command.mode);
    } else if SavesNothing(state, after) {
      NothingSaved(state, after);
    }
  }

  lemma {:induction false} Unchanged(before: State, after: State)
    ensures after.texts == before.texts ==> KeepsText(before, after)
  {
    hide OnFile;
  }

  lemma {:induction false} NothingSaved(before: State, after: State)
    requires SavesNothing(before, after)
    ensures KeepsText(before, after)
  {
    hide OnFile;
  }

  lemma {:induction false} SelectionKeepsText(state: State, name: string)
    requires IsConsistent(state)
    ensures KeepsText(state, SelectedState(state, name).after)
  {
    hide KeepsText, Entered, Forgotten;
    Unchanged(state, state);
    if IsBufferName(name) {
      EnteringKeepsText(state, name);
      if state.current != name && IsTransientText(state.current, Here(state)) {
        ForgettingKeepsText(state, name);
      }
    }
  }

  lemma {:induction false} EnteringKeepsText(state: State, name: string)
    requires IsConsistent(state)
    ensures KeepsText(state, Entered(state, name))
  {
    hide OnFile, Dropped;
  }

  lemma {:induction false} ForgettingKeepsText(state: State, name: string)
    requires IsConsistent(state) && state.current != name && HoldsNothing(Here(state))
    ensures KeepsText(state, Forgotten(Entered(state, name), state.current))
  {
    hide OnFile, Dropped;
  }

  /** After `R` the saved text is as before or, without an address, what the file holds. */
  lemma {:induction false} ReadKeepsText(state: State, address: Option<Address>, filename: Option<string>)
    requires IsConsistent(state)
    ensures KeepsText(state, ReadIn(state, address, filename).after)
  {
    hide Written, ReadPosition, With, KeepsText, IsConsistentText, SavesNothing;
    hide Decode;
    OneSaved(state, ReadIn(state, address, filename).after);
  }

  /** After `W` the saved text is as before or, for a full write, what the file holds. */
  lemma {:induction false} WriteKeepsText(state: State, address: Option<Address>, filename: Option<string>,
                                          mode: WriteMode)
    requires IsConsistent(state)
    ensures KeepsText(state, WrittenOut(state, address, filename, mode).after)
  {
    hide Written, WriteTarget, Representable, WriteEncoding, LinesOf, IsFull, KeepsText, OnFile, SavesNothing;
    var run := WrittenOut(state, address, filename, mode);
    var text := Here(state);
    if !run.succeeded {
      Unchanged(state, run.after);
      return;
    }
    var range := WriteTarget(address, text.currentLine, |text.lines|).value;
    if IsFull(range, |text.lines|) {
      FullRange(text.lines, range);
      WrittenIsOnFile(text, ChosenFile(filename, text.associatedFile).value, WriteEncoding(mode, text.encoding),
                      state.files);
    }
    OneSaved(state, run.after);
  }

  lemma {:induction false} WrittenIsOnFile(text: Text, name: string, encoding: TextEncoding, files: map<string, string>)
    ensures OnFile(files[name := Written(text.lines, text.lineEnding, text.finalNewline)],
                   text.(modified := false, saved := text.lines, associatedFile := Some(name), encoding := encoding))
  {
    hide Written, Decode;
  }

  lemma {:induction false} FullRange(lines: seq<string>, range: LineRange)
    requires if lines == [] then range == LineRange(0, 0) else 1 <= range.first <= range.last <= |lines|
    requires IsFull(range, |lines|)
    ensures LinesOf(lines, range) == lines
  {
  }

  /** Only the current buffer was saved. */
  lemma {:induction false} OneSaved(before: State, after: State)
    requires before.current in before.texts && before.current in after.texts
    requires var now := after.texts[before.current];
      && after.texts == before.texts[before.current := now]
      && (now.saved == before.texts[before.current].saved || OnFile(after.files, now))
    ensures KeepsText(before, after)
  {
    hide OnFile;
  }

  /** Gathering lines keeps all saved text. */
  lemma {:induction false} GatheringKeepsText(state: State, name: string, run: Effect<State>)
    requires IsConsistent(run.after) && KeepsText(Silenced(state), run.after)
    ensures KeepsText(state, Gathering(state, name, run).after)
  {
    hide CapturedLines, KeepsText, SavesNothing, GatheredState;
    var back := run.after.(output := state.output);
    OutputIsNoText(state, Silenced(state), run.after, back);
    SavesNothingAfter(state, back, Gathering(state, name, run).after);
  }

  lemma {:induction false} OutputIsNoText(before: State, start: State, after: State, back: State)
    requires before.texts == start.texts && after.texts == back.texts && after.files == back.files
    requires KeepsText(start, after)
    ensures KeepsText(before, back)
  {
    hide OnFile;
  }

  lemma {:induction false} SavesNothingAfter(before: State, between: State, after: State)
    requires KeepsText(before, between) && (SavesNothing(between, after) || after == between)
    ensures KeepsText(before, after)
  {
    if after != between {
      forall n | n in after.texts && n in between.texts && OnFile(between.files, between.texts[n])
        ensures OnFile(after.files, after.texts[n])
      {
        assert SavedAlike(between.texts[n], after.texts[n]);
        hide Written, Decode;
      }
      hide OnFile;
    }
  }

  lemma {:induction false} ExecutedKeepsText(state: State, input: Input)
    requires IsConsistent(state)
    ensures KeepsText(state, Executed(state, input).after)
  {
    hide KeepsText, SavesNothing, Typed, Performed, IsConsistent;
    if IsTextCommand(input.command) {
      NothingSaved(state, Typed(state, input.command, input.lines).after);
    } else {
      PerformedKeepsText(state, input.command);
    }
  }

  // ---------------------------------------------------------------- leaving the editor

  /** After `Q` everything is saved; a command that asks to leave has written nothing. */
  lemma {:induction false} LeavingIsSafe(state: State, command: Command)
    requires IsConsistent(state)
    ensures LeavesSafely(state, Performed(state, command).after)
    decreases command
  {
    hide OnLines, Plain, Gathering, GatheredState, ReadIn, WrittenOut, SelectedState, MovedState, IsConsistent;
    var after := Performed(state, command).after;
    if command.ZapGather? {
      var start := Silenced(state);
      LeavingIsSafe(start, command.nested);
      GatheringLeaves(state, command.bufferName, Performed(start, command.nested));
    } else if command.SelectBuffer? {
      SelectionStays(state, command.name);
    } else if command.Read? {
      ReadStays(state, command.readAddress, command.filename);
    } else if command.Write? {
      WriteStays(state, command.writeAddress, command.filename, command.mode);
    } else if command.Quit? {
      QuitIsSafe(state, command.immediate);
    }
  }

  predicate LeavesSafely(before: State, after: State) {
    && (before.exit ==> after.exit)
    && (after.exit && !before.exit ==> after.output == before.output && (after.immediate || AllSaved(after)))
  }

  lemma {:induction false} QuitIsSafe(state: State, immediate: bool)
    requires IsConsistent(state)
    ensures LeavesSafely(state, Quitting(state, immediate).after)
  {
  }

  lemma {:induction false} SelectionStays(state: State, name: string)
    requires IsConsistent(state)
    ensures SelectedState(state, name).after.exit == state.exit
  {
    hide Dropped, IsConsistent;
  }

  lemma {:induction false} ReadStays(state: State, address: Option<Address>, filename: Option<string>)
    requires IsConsistent(state)
    ensures ReadIn(state, address, filename).after.exit == state.exit
  {
    hide Decode, ReadPosition, With, IsConsistent, SavesNothing;
  }

  lemma {:induction false} WriteStays(state: State, address: Option<Address>, filename: Option<string>, mode: WriteMode)
    requires IsConsistent(state)
    ensures WrittenOut(state, address, filename, mode).after.exit == state.exit
  {
    hide Written, WriteTarget, Representable, WriteEncoding, IsConsistent, SavesNothing;
  }

  lemma {:induction false} GatheringLeaves(state: State, name: string, run: Effect<State>)
    requires IsConsistent(run.after) && LeavesSafely(Silenced(state), run.after)
    ensures LeavesSafely(state, Gathering(state, name, run).after)
  {
    hide GatheredState, IsConsistent;
    assert CapturedLines("") == [];
  }

  // ---------------------------------------------------------------- sessions

  /** The states of a session: each input is run in turn, whether or not it fails, until one of them is a
    successful `Q` or `QQ`, or there are no more. */
  ghost predicate IsSession(log: seq<State>, inputs: seq<Input>) {
    && 0 < |log| <= |inputs| + 1
    && IsConsistent(log[|log| - 1])
    && (forall k :: 0 < k < |log| ==> IsStep(log, inputs, k))
    && (|log| <= |inputs| ==> log[|log| - 1].exit)
  }

  ghost predicate IsStep(log: seq<State>, inputs: seq<Input>, k: nat)
    requires 0 < k < |log| <= |inputs| + 1
  {
    IsConsistent(log[k - 1]) && !log[k - 1].exit && log[k] == Executed(log[k - 1], inputs[k - 1]).after
  }

  /** Step by step, text is kept. */
  predicate KeepsTextThroughout(log: seq<State>) {
    forall k :: 0 < k < |log| ==> KeepsText(log[k - 1], log[k])
  }

  /** Where the saved text of a buffer comes from: from the beginning, from its creation, or from its file, which was
    then written from it or read into it. */
  predicate IsOrigin(log: seq<State>, name: string, k: nat)
    requires k < |log|
  {
    && name in log[k].texts
    && (|| k == 0
        || OnFile(log[k].files, log[k].texts[name])
        || (name !in log[k - 1].texts && log[k].texts[name].saved == []))
  }

  /** The buffer is there from some moment on, with its saved text unchanged. */
  predicate IsKeptSince(log: seq<State>, name: string, k: nat)
    requires k < |log| && name in log[k].texts
  {
    forall i :: k <= i < |log| ==> name in log[i].texts && log[i].texts[name].saved == log[k].texts[name].saved
  }

  /** The buffer was empty, with nothing saved, at or after some moment. */
  ghost predicate WasEmptySince(log: seq<State>, name: string, k: nat) {
    exists i :: k <= i < |log| && name in log[i].texts && HoldsNothing(log[i].texts[name])
  }

  /** Over a whole session: the saved text of every buffer has been the same since its origin; and a buffer that has
    disappeared was empty before. */
  ghost predicate Remembers(log: seq<State>)
    requires log != []
  {
    && (forall n :: n in log[|log| - 1].texts ==> HasOrigin(log, n))
    && (forall k: nat, n :: k < |log| && n in log[k].texts && n !in log[|log| - 1].texts ==> WasEmptySince(log, n, k))
  }

  ghost predicate HasOrigin(log: seq<State>, name: string) {
    exists k: nat :: k < |log| && IsOrigin(log, name, k) && IsKeptSince(log, name, k)
  }

  lemma {:induction false} KeptIsRemembered(log: seq<State>)
    requires log != [] && KeepsTextThroughout(log)
    ensures Remembers(log)
  {
    hide OnFile;
    if |log| == 1 {
      forall n | n in log[0].texts ensures HasOrigin(log, n) {
        assert IsOrigin(log, n, 0);
      }
    } else {
      var before := log[..|log| - 1];
      KeptIsRemembered(before);
      LongerRemembers(before, log[|log| - 1]);
      assert log == before + [log[|log| - 1]];
    }
  }

  lemma {:induction false} LongerRemembers(log: seq<State>, state: State)
    requires log != [] && Remembers(log) && KeepsText(log[|log| - 1], state)
    ensures Remembers(log + [state])
  {
    hide OnFile, HasOrigin, WasEmptySince;
    var longer, last := log + [state], log[|log| - 1];
    forall n | n in state.texts ensures HasOrigin(longer, n) {
      if OnFile(state.files, state.texts[n]) || n !in last.texts {
        OriginNow(log, state, n);
      } else {
        OriginBefore(log, state, n);
      }
    }
    forall k: nat, n | k < |longer| && n in longer[k].texts && n !in state.texts ensures WasEmptySince(longer, n, k) {
      if n in last.texts {
        EmptyNow(log, state, n, k);
      } else {
        StillWasEmpty(log, state, n, k);
      }
    }
  }

  lemma {:induction false} OriginNow(log: seq<State>, state: State, name: string)
    requires log != [] && name in state.texts
    requires OnFile(state.files, state.texts[name]) || (name !in log[|log| - 1].texts && state.texts[name].saved == [])
    ensures HasOrigin(log + [state], name)
  {
    hide OnFile;
    assert IsOrigin(log + [state], name, |log|);
  }

  lemma {:induction false} OriginBefore(log: seq<State>, state: State, name: string)
    requires log != [] && HasOrigin(log, name) && name in log[|log| - 1].texts && name in state.texts
    requires state.texts[name].saved == log[|log| - 1].texts[name].saved
    ensures HasOrigin(log + [state], name)
  {
    hide OnFile;
    var k: nat :| k < |log| && IsOrigin(log, name, k) && IsKeptSince(log, name, k);
    assert IsOrigin(log + [state], name, k) && IsKeptSince(log + [state], name, k);
  }

  lemma {:induction false} EmptyNow(log: seq<State>, state: State, name: string, k: nat)
    requires k < |log| && name in log[|log| - 1].texts && HoldsNothing(log[|log| - 1].texts[name])
    ensures WasEmptySince(log + [state], name, k)
  {
    assert (log + [state])[|log| - 1] == log[|log| - 1];
  }

  lemma {:induction false} StillWasEmpty(log: seq<State>, state: State, name: string, k: nat)
    requires WasEmptySince(log, name, k)
    ensures WasEmptySince(log + [state], name, k)
  {
    var i :| k <= i < |log| && name in log[i].texts && HoldsNothing(log[i].texts[name]);
    assert (log + [state])[i] == log[i];
  }

  /** Every session remembers its texts, and one that ends with `Q` leaves nothing unsaved. */
  lemma {:induction false} SessionsAreSafe(log: seq<State>, inputs: seq<Input>)
    requires IsSession(log, inputs) && !log[0].exit
    ensures Remembers(log)
    ensures var last := log[|log| - 1]; last.exit && !last.immediate ==> AllSaved(last)
  {
    hide KeepsText, Remembers, Executed, IsConsistent;
    forall k | 0 < k < |log| ensures KeepsText(log[k - 1], log[k]) {
      assert IsStep(log, inputs, k);
      ExecutedKeepsText(log[k - 1], inputs[k - 1]);
    }
    KeptIsRemembered(log);
    if |log| > 1 {
      var before := log[|log| - 2];
      assert IsStep(log, inputs, |log| - 1);
      ExecutedLeavesSafely(before, inputs[|log| - 2]);
    }
  }

  lemma {:induction false} ExecutedLeavesSafely(state: State, input: Input)
    requires IsConsistent(state)
    ensures LeavesSafely(state, Executed(state, input).after)
  {
    hide LeavesSafely, Typed, Performed, IsConsistent;
    if IsTextCommand(input.command) {
      StayingIsSafe(state, Typed(state, input.command, input.lines).after);
    } else {
      LeavingIsSafe(state, input.command);
    }
  }

  lemma {:induction false} StayingIsSafe(before: State, after: State)
    requires after.exit == before.exit
    ensures LeavesSafely(before, after)
  {
  }

  /** The log with one more input. */
  lemma {:induction false} SessionGoesOn(log: seq<State>, inputs: seq<Input>, k: nat, state: State)
    requires |log| == k + 1 <= |inputs| && IsSession(log, inputs[..k]) && IsConsistent(state)
    requires !log[k].exit && state == Executed(log[k], inputs[k]).after
    ensures IsSession(log + [state], inputs[..k + 1])
  {
    hide IsConsistent, Executed;
    var longer, more := log + [state], inputs[..k + 1];
    forall i | 0 < i < |longer| ensures IsStep(longer, more, i) {
      assert i < |log| ==> IsStep(log, inputs[..k], i);
    }
  }

  /** A session that has run out of inputs, or was left, is complete. */
  lemma {:induction false} SessionEnds(log: seq<State>, inputs: seq<Input>, k: nat)
    requires |log| == k + 1 <= |inputs| + 1 && IsSession(log, inputs[..k]) && (k < |inputs| ==> log[k].exit)
    ensures IsSession(log, inputs)
  {
    hide IsConsistent, Executed;
    var fewer := inputs[..k];
    forall i | 0 < i < |log| ensures IsStep(log, inputs, i) {
      assert IsStep(log, fewer, i);
    }
  }

  /** A session begins with a state that nothing asked to leave, and goes on with what its first input makes of it:
    that is the
    last state if it asks to leave, and otherwise the beginning of a session with the other inputs. */
  lemma {:induction false} SessionBegins(start: State, input: Input, rest: seq<Input>, log: seq<State>)
    requires IsConsistent(start) && !start.exit && log != []
    ensures IsSession([start] + log, [input] + rest) <==>
            && log[0] == Executed(start, input).after
            && if log[0].exit then log == [log[0]] else IsSession(log, rest)
    ensures IsSession([start], [])
  {
    hide Executed, IsConsistent;
    var longer, inputs := [start] + log, [input] + rest;
    assert longer[1..] == log && inputs[1..] == rest;
    if IsSession(longer, inputs) {
      assert IsStep(longer, inputs, 1);
      if |log| > 1 {
        assert IsStep(longer, inputs, 2);
      }
      if !log[0].exit {
        forall k | 0 < k < |log| ensures IsStep(log, rest, k) {
          assert IsStep(longer, inputs, k + 1);
        }
      }
    }
    if log[0] == Executed(start, input).after {
      ExecutedIsConsistent(start, input);
      if log[0].exit && log == [log[0]] {
        assert IsStep(longer, inputs, 1);
      }
      if IsSession(log, rest) {
        forall k | 0 < k < |longer| ensures IsStep(longer, inputs, k) {
          if k > 1 {
            assert IsStep(log, rest, k - 1);
          }
        }
      }
    }
  }

  lemma {:induction false} ExecutedIsConsistent(state: State, input: Input)
    requires IsConsistent(state)
    ensures IsConsistent(Executed(state, input).after)
  {
  }
}
