/** Loading a script: when it works, and what it leaves behind. */
module Scripts {
  import opened Outcomes
  import opened Addresses
  import opened TextFiles
  import opened Buffers
  import opened LineCommands
  import opened FileCommands
  import opened Semantics
  import opened Sessions

  /** A buffer without text, changes or file. */
  predicate IsUnusedText(text: Text) {
    text.lines == [] && !text.modified && text.associatedFile == None
  }

  /** Selects a buffer again, if it is still there. */
  function Returned(state: State, name: string): (r: Effect<State>)
    requires IsConsistent(state)
    ensures IsConsistent(r.after)
  {
    if name !in state.texts then Effect(state, false)
    else Effect(state.(current := name, recent := [name] + Dropped(state.recent, name)), true)
  }

  /** Reads a script into a buffer of its own and returns to the current buffer. */
  function Loading(state: State, filename: string, name: string): (r: Effect<State>)
    requires IsConsistent(state)
    ensures IsConsistent(r.after)
  {
    var entered := SelectedState(state, name);
    if !entered.succeeded then entered
    else if !IsUnusedText(Here(entered.after)) then Effect(Returned(entered.after, state.current).after, false)
    else
      var read := ReadIn(entered.after, None, Some(filename));
      var back := Returned(read.after, state.current);
      Effect(back.after, read.succeeded && back.succeeded)
  }

  /** A script loads exactly if its buffer has a proper name and is unused, the file can be read, and the buffer to
    return
    to is not one that is dropped when it is left. */
  lemma {:induction false} LoadsExactlyIf(state: State, filename: string, name: string)
    requires IsConsistent(state)
    ensures var loaded := Loading(state, filename, name);
      && loaded.succeeded == (
           && IsBufferName(name) && ReadFile(state.files, filename).Ok?
           && (name in state.texts ==> IsUnusedText(state.texts[name]))
           && (name == state.current || !IsTransientText(state.current, Here(state))))
      && (loaded.succeeded ==>
            && loaded.after.current == state.current && name in loaded.after.texts
            && loaded.after.texts[name].lines == ReadFile(state.files, filename).value.lines)
  {
    hide SelectedState, ReadIn, Dropped, ReadFile, SavesNothing, AreConsistent;
    InConsistent(state);
    WhatIsSelected(state, name);
    var entered := SelectedState(state, name).after;
    InConsistent(entered);
    if IsUnusedText(Here(entered)) {
      WhatIsRead(entered, filename);
    }
  }

  lemma {:induction false} WhatIsSelected(state: State, name: string)
    requires IsConsistent(state)
    ensures var selected := SelectedState(state, name);
      && selected.succeeded == IsBufferName(name)
      && (selected.succeeded ==>
            && selected.after.current == name && selected.after.files == state.files
            && Here(selected.after) == (if name in state.texts then state.texts[name] else NewText())
            && (state.current in selected.after.texts) ==
                (name == state.current || !IsTransientText(state.current, Here(state))))
  {
    hide Entered, Forgotten, SavesNothing, IsConsistent;
    InConsistent(state);
    if IsBufferName(name) {
      WhatIsEntered(state, name);
      var entered := Entered(state, name);
      if state.current != name && IsTransientText(state.current, Here(state)) {
        assert SelectedState(state, name).after == Forgotten(entered, state.current);
        WhatIsForgotten(entered, state.current);
      } else {
        assert SelectedState(state, name).after == entered;
      }
    }
  }

  lemma {:induction false} WhatIsForgotten(state: State, name: string)
    requires IsConsistent(state) && name != state.current
    ensures var forgotten := Forgotten(state, name);
      forgotten.texts == state.texts - {name} && forgotten.current == state.current && forgotten.files == state.files
  {
    hide Dropped, AreConsistent;
  }

  lemma {:induction false} WhatIsEntered(state: State, name: string)
    requires IsConsistent(state)
    ensures var entered := Entered(state, name);
      && entered.texts == state.texts[name := if name in state.texts then state.texts[name] else NewText()]
      && entered.current == name && entered.files == state.files
  {
    hide Dropped, SavesNothing, AreConsistent;
  }

  lemma {:induction false} WhatIsRead(state: State, filename: string)
    requires IsConsistent(state) && IsUnusedText(Here(state))
    ensures var read := ReadIn(state, None, Some(filename)); var file := ReadFile(state.files, filename);
      && read.succeeded == file.Ok? && read.after.texts.Keys == state.texts.Keys
      && (read.succeeded ==>
            && state.current in read.after.texts
            && read.after.texts[state.current].lines == file.value.lines)
  {
    hide ReadFile, SavesNothing;
  }

  /** From a buffer that is dropped when it is left, a script does not load: everything else is as it should be here. */
  lemma {:induction false} TransientBufferLoadsNothing(state: State)
    requires state.texts == map["x" := NewText()] && state.recent == ["x"] && state.current == "x"
    requires state.files == map["script" := ""]
    ensures IsConsistent(state) && ReadFile(state.files, "script").Ok? && "s" !in state.texts
    ensures !Loading(state, "script", "s").succeeded
  {
    hide Loading, Decode;
    EmptyFileIsRead();
    LoadsExactlyIf(state, "script", "s");
  }

  lemma {:induction false} EmptyFileIsRead()
    ensures Decode("").Ok?
  {
  }

  /** Whether it works or not, loading a script keeps all text. */
  lemma {:induction false} LoadingKeepsText(state: State, filename: string, name: string)
    requires IsConsistent(state)
    ensures KeepsText(state, Loading(state, filename, name).after)
    ensures Loading(state, filename, name).after.exit == state.exit
  {
    hide SelectedState, ReadIn, KeepsText, SavesNothing, OnFile, AreConsistent, Dropped;
    SelectionKeepsText(state, name);
    SelectionStays(state, name);
    var entered := SelectedState(state, name).after;
    InConsistent(entered);
    StillKept(state, entered, Returned(entered, state.current).after);
    var read := ReadIn(entered, None, Some(filename));
    ReadIsOnFile(entered, filename);
    ReadStays(entered, None, Some(filename));
    OneMoreSaved(state, entered, read.after);
    StillKept(state, read.after, Returned(read.after, state.current).after);
  }

  lemma {:induction false} StillKept(before: State, between: State, after: State)
    requires KeepsText(before, between) && after.texts == between.texts && after.files == between.files
    ensures KeepsText(before, after)
  {
    hide OnFile;
  }

  /** Without an address, `R` changes nothing or loads what its file holds. */
  lemma {:induction false} ReadIsOnFile(state: State, filename: string)
    requires IsConsistent(state)
    ensures var after := ReadIn(state, None, Some(filename)).after;
      && after.files == state.files && state.current in after.texts
      && after.texts == state.texts[state.current := after.texts[state.current]]
      && (after.texts == state.texts || OnFile(after.files, after.texts[state.current]))
  {
    hide Decode, Written, SavesNothing;
  }

  lemma {:induction false} OneMoreSaved(before: State, between: State, after: State)
    requires KeepsText(before, between) && after.files == between.files && between.current in after.texts
    requires between.current in between.texts
    requires after.texts == between.texts[between.current := after.texts[between.current]]
    requires after.texts == between.texts || OnFile(after.files, after.texts[between.current])
    ensures KeepsText(before, after)
  {
    hide OnFile;
  }
}
