/** The editable line buffer and the manager that owns all buffers. */
module Buffers {
  import opened Outcomes
  import opened Sequences
  import opened TextFiles
  import opened Limits

  /** The lines without those of an inclusive range. */
  function Without(lines: seq<string>, first: nat, last: nat): seq<string>
    requires 1 <= first <= last <= |lines|
  {
    lines[..first - 1] + lines[last..]
  }

  /** The lines with some text put in after line `after`. */
  function With(lines: seq<string>, after: nat, text: seq<string>): seq<string>
    requires after <= |lines|
  {
    lines[..after] + text + lines[after..]
  }

  /** The current line after erasing from line `first` on, with `count` lines left. */
  function CursorAfterErase(first: nat, count: nat): nat {
    if count == 0 then 0 else if first <= count then first else count
  }

  /** What a buffer holds: its lines and the cursor, its saved text, and what is known about its file. */
  datatype Text = Text(lines: seq<string>, currentLine: nat, modified: bool, saved: seq<string>,
                       associatedFile: Option<string>, encoding: TextEncoding, lineEnding: LineEnding,
                           finalNewline: bool)

  /** What a new buffer holds. */
  function NewText(): Text {
    Text([], 0, false, [], None, Unknown, Lf, true)
  }

  class Buffer {
    const name: string
    var lines: seq<string>
    var currentLine: nat
    var modified: bool
    var associatedFile: Option<string>
    var encoding: TextEncoding
    var lineEnding: LineEnding
    var finalNewline: bool

    /** The lines as they were created, last read from a file, or last written to one in full. */
    ghost var saved: seq<string>

    /** The cursor is on a line or before the first one, and unmodified text is saved text. */
    ghost predicate Valid()
      reads this
    {
      && name != ""
      && currentLine <= |lines|
      && (!modified ==> lines == saved)
    }

    ghost function AsText(): Text
      reads this
    {
      Text(lines, currentLine, modified, saved, associatedFile, encoding, lineEnding, finalNewline)
    }

    ghost function FileData(): (Option<string>, TextEncoding, LineEnding, bool)
      reads this
    {
      (associatedFile, encoding, lineEnding, finalNewline)
    }

    constructor (name: string)
      requires name != ""
      ensures Valid() && this.name == name && AsText() == NewText()
    {
      this.name := name;
      lines, currentLine, modified := [], 0, false;
      associatedFile, encoding, lineEnding, finalNewline := None, Unknown, Lf, true;
      saved := [];
    }

    /** Adds a line at the end and moves to it. */
    method Append(text: string)
      requires Valid()
      modifies this`lines, this`currentLine, this`modified
      ensures Valid() && lines == old(lines) + [text] && currentLine == |lines| && modified
    {
      lines := lines + [text];
      currentLine := |lines|;
      modified := true;
    }

    /** Inserts text after a line, or before everything; inserting nothing only moves the cursor. */
    method InsertAfter(number: nat, text: seq<string>) returns (result: Result<()>)
      requires Valid()
      modifies this`lines, this`currentLine, this`modified
      ensures Valid() && result.Ok? == (number <= |old(lines)|)
      ensures result.Fail? ==> unchanged(this)
      ensures result.Ok? ==>
        && lines == With(old(lines), number, text)
        && currentLine == number + |text|
        && modified == (old(modified) || text != [])
    {
      if number > |lines| {
        return Fail;
      }
      if text == [] {
        assert With(lines, number, text) == lines;
        currentLine := number;
        return Ok(());
      }
      lines := With(lines, number, text);
      currentLine := number + |text|;
      modified := true;
      return Ok(());
    }

    /** Replaces one line and moves to it; identical text does not count as a modification. */
    method Replace(number: nat, text: string)
      requires Valid() && 1 <= number <= |lines|
      modifies this`lines, this`currentLine, this`modified
      ensures Valid() && lines == old(lines)[number - 1 := text] && currentLine == number
      ensures modified == (old(modified) || lines != old(lines))
    {
      if lines[number - 1] != text {
        lines := lines[number - 1 := text];
        modified := true;
      }
      currentLine := number;
    }

    method Erase(first: nat, last: nat)
      requires Valid() && 1 <= first <= last <= |lines|
      modifies this`lines, this`currentLine, this`modified
      ensures Valid() && lines == Without(old(lines), first, last) && modified
      ensures currentLine == CursorAfterErase(first, |lines|)
    {
      lines := Without(lines, first, last);
      if lines == [] {
        currentLine := 0;
      } else if first <= |lines| {
        currentLine := first;
      } else {
        currentLine := |lines|;
      }
      modified := true;
    }

    method SetCurrentLine(number: nat)
      requires Valid() && number <= |lines|
      modifies this`currentLine
      ensures Valid() && currentLine == number
    {
      currentLine := number;
    }

    /** Takes over the content of a file as the new saved text. */
    method LoadFile(file: DecodedFile, filename: string)
      requires Valid()
      modifies this
      ensures Valid() && lines == saved == file.lines && currentLine == |lines| && !modified
      ensures FileData() == (Some(filename), file.encoding, file.lineEnding, file.finalNewline)
    {
      lines, currentLine, modified := file.lines, |file.lines|, false;
      associatedFile, encoding, lineEnding, finalNewline := Some(filename), file.encoding, file.lineEnding,
          file.finalNewline;
      saved := lines;
    }

    method AssociateFile(filename: string, encoding: TextEncoding, lineEnding: LineEnding, finalNewline: bool)
      requires Valid()
      modifies this`associatedFile, this`encoding, this`lineEnding, this`finalNewline
      ensures Valid() && FileData() == (Some(filename), encoding, lineEnding, finalNewline)
    {
      associatedFile := Some(filename);
      this.encoding, this.lineEnding, this.finalNewline := encoding, lineEnding, finalNewline;
    }

    /** The present text becomes the saved text. */
    method MarkClean()
      requires Valid()
      modifies this`modified, this`saved
      ensures Valid() && !modified && saved == lines
    {
      modified := false;
      saved := lines;
    }
  }

  /** The names without `name`. */
  function Dropped(names: seq<string>, name: string): (rest: seq<string>)
    ensures forall n :: n in rest <==> n in names && n != name
    ensures name !in names ==> rest == names
  {
    if names == [] then []
    else if names[0] == name then Dropped(names[1..], name)
    else [names[0]] + Dropped(names[1..], name)
  }

  lemma {:induction false} DroppedStaysDistinct(names: seq<string>, name: string)
    requires Distinct(names)
    ensures Distinct(Dropped(names, name))
  {
    if names != [] {
      DroppedStaysDistinct(names[1..], name);
      var rest := Dropped(names[1..], name);
      forall k | 0 <= k < |rest| ensures rest[k] != names[0] {
        assert rest[k] in names[1..];
        var i :| 0 <= i < |names[1..]| && names[1..][i] == rest[k];
        assert names[i + 1] == rest[k];
      }
    }
  }

  /** The buffers on file after one was filed and some names were dropped. */
  lemma {:induction false} FiledAgain(before: map<string, Buffer>, name: string, buffer: Buffer, dropped: set<string>)
    requires name in before ==> before[name] == buffer
    ensures (before[name := buffer] - dropped).Values <= before.Values + {buffer}
    ensures before.Values <=
            (before[name := buffer] - dropped).Values + set n | n in dropped && n in before :: before[n]
  {
    var after := before[name := buffer] - dropped;
    forall b | b in before.Values &&
        !(exists n :: n in dropped && n in before && before[n] == b) ensures b in after.Values {
      var n :| n in before && before[n] == b;
      assert after[n] == b;
    }
  }

  lemma {:induction false} OtherName(names: set<string>, name: string)
    requires name in names && names != {name}
    ensures exists n :: n in names && n != name
  {
    var others := names - {name};
    assert names == others + {name};
    var n :| n in others;
  }

  /** What a buffer holds after its content was replaced; it may have been created for that. */
  function Refilled(texts: map<string, Text>, name: string, lines: seq<string>): Text {
    (if name in texts then texts[name] else NewText()).(lines := lines, currentLine := |lines|, modified := true)
  }

  /** The recent list after another buffer was selected and left again. */
  function VisitedAndLeft(names: seq<string>, visited: string, back: string): seq<string> {
    [back] + Dropped([visited] + Dropped(names, visited), back)
  }

  class BufferManager {
    var buffers: map<string, Buffer>
    var usageOrder: seq<string>
    var current: Buffer

    /** Buffers are filed under their own names, one of them is current, and the recent list
      names live buffers, each at most once. */
    ghost predicate Valid()
      reads this, buffers.Values
    {
      && (forall n :: n in buffers ==> 0 < |n| <= MAX_BUFFER_NAME_LENGTH && buffers[n].name == n && buffers[n].Valid())
      && current.name in buffers && buffers[current.name] == current
      && Distinct(usageOrder)
      && forall n :: n in usageOrder ==> n in buffers
    }

    /** What all buffers hold. */
    ghost function Texts(): map<string, Text>
      reads this, buffers.Values
    {
      map n | n in buffers :: buffers[n].AsText()
    }

    lemma {:induction false} Standing()
      requires Valid()
      ensures current.Valid() && current in buffers.Values && current.name in buffers &&
              buffers[current.name] == current
      ensures 0 < |current.name| <= MAX_BUFFER_NAME_LENGTH
      ensures current.name in Texts() && Texts()[current.name] == current.AsText() && Texts().Keys == buffers.Keys
    {
    }

    lemma {:induction false} TextOfEach()
      ensures Texts().Keys == buffers.Keys && forall n :: n in buffers ==> Texts()[n] == buffers[n].AsText()
    {
    }

    /** No buffer changed. */
    twostate lemma Same()
      requires unchanged(`buffers) && forall b :: b in buffers.Values ==> b.AsText() == old(b.AsText())
      ensures Texts() == old(Texts())
    {
    }

    /** One buffer was created or changed; the others hold what they held. */
    twostate lemma Filed(name: string, new buffer: Buffer)
      requires buffers == old(buffers)[name := buffer]
      requires forall n :: n in old(buffers) && n != name ==> old(buffers)[n].AsText() == old(buffers[n].AsText())
      ensures Texts() == old(Texts())[name := buffer.AsText()]
    {
    }

    /** One buffer changed. */
    twostate lemma Changed(buffer: Buffer)
      requires unchanged(this) && old(Valid()) && buffer in buffers.Values && buffer.Valid()
      requires forall b :: b in buffers.Values && b != buffer ==> b.AsText() == old(b.AsText())
      ensures Valid() && Texts() == old(Texts())[buffer.name := buffer.AsText()]
    {
      forall n | n in buffers
        ensures if n == buffer.name then buffers[n] == buffer else buffers[n].AsText() == old(buffers[n].AsText())
      {
        assert buffers[n].name == n;
      }
      assert buffer.name in buffers;
    }

    /** The current buffer is the most recently used one; only `Erase` can break this. */
    ghost predicate HeadIsCurrent()
      reads this, current
    {
      usageOrder != [] && usageOrder[0] == current.name
    }

    constructor ()
      ensures Valid() && HeadIsCurrent() && buffers.Keys == {"0"} && usageOrder == ["0"]
      ensures fresh(current) && current.AsText() == NewText()
    {
      var buffer := new Buffer("0");
      buffers := map["0" := buffer];
      usageOrder := ["0"];
      current := buffer;
    }

    /** Moves a name to the front of the recent list. */
    method Touch(name: string)
      requires Distinct(usageOrder)
      modifies this`usageOrder
      ensures usageOrder == [name] + Dropped(old(usageOrder), name) && Distinct(usageOrder)
    {
      DroppedStaysDistinct(usageOrder, name);
      usageOrder := [name] + Dropped(usageOrder, name);
    }

    /** A buffer that may be dropped when it is left: not the default one, empty, unmodified and without a file. */
    predicate IsTransient(buffer: Buffer)
      reads buffer
    {
      buffer.name != "0" && buffer.lines == [] && !buffer.modified && buffer.associatedFile == None
    }

    /** Makes a buffer current, creating it if needed, and drops the one that is left if it is transient. */
    method CreateOrSelect(name: string) returns (result: Result<Buffer>)
      requires Valid()
      modifies this
      ensures result.Ok? == (0 < |name| <= MAX_BUFFER_NAME_LENGTH)
      ensures result.Fail? ==> unchanged(this)
      ensures Valid()
      ensures result.Ok? ==>
        && result.value == current && current.name == name && HeadIsCurrent()
        && (if name in old(buffers) then current == old(buffers)[name]
            else fresh(current) && current.AsText() == NewText())
        && var left := old(current);
           var dropped := if left.name != name && IsTransient(left) then {left.name} else {};
           && buffers == old(buffers)[name := current] - dropped
           && usageOrder == (if dropped == {} then [name] + Dropped(old(usageOrder), name)
                             else Dropped([name] + Dropped(old(usageOrder), name), left.name))
           && buffers.Values <= old(buffers.Values) + {current}
           && old(buffers.Values) <= buffers.Values + if dropped == {} then {} else {left}
    {
      hide Dropped, Distinct, IsTransient;
      if name == "" || |name| > MAX_BUFFER_NAME_LENGTH {
        return Fail;
      }
      var left := current;
      var removePrevious := left.name != name && IsTransient(left);
      Enter(name);
      FiledAgain(old(buffers), name, current, if removePrevious then {left.name} else {});
      if removePrevious {
        Forget(left.name);
      }
      return Ok(current);
    }

    /** Makes a buffer current, creating it if needed. */
    method Enter(name: string)
      requires Valid() && 0 < |name| <= MAX_BUFFER_NAME_LENGTH
      modifies this
      ensures Valid() && HeadIsCurrent() && current.name == name
      ensures if name in old(buffers) then current == old(buffers)[name]
              else fresh(current) && current.AsText() == NewText()
      ensures buffers == old(buffers)[name := current] && usageOrder == [name] + Dropped(old(usageOrder), name)
    {
      hide Dropped;
      if name !in buffers {
        var created := new Buffer(name);
        buffers := buffers[name := created];
      }
      current := buffers[name];
      Touch(name);
    }

    /** Drops a buffer that is not current. */
    method Forget(name: string)
      requires Valid() && name != current.name && HeadIsCurrent()
      modifies this`buffers, this`usageOrder
      ensures Valid() && HeadIsCurrent()
      ensures buffers == old(buffers) - {name} && usageOrder == Dropped(old(usageOrder), name)
    {
      DroppedStaysDistinct(usageOrder, name);
      usageOrder := Dropped(usageOrder, name);
      hide Dropped;
      buffers := buffers - {name};
    }

    /** Finds or creates a buffer without selecting it. */
    method GetOrCreate(name: string) returns (result: Result<Buffer>)
      requires Valid()
      modifies this`buffers
      ensures Valid() && result.Ok? == (0 < |name| <= MAX_BUFFER_NAME_LENGTH)
      ensures result.Fail? ==> unchanged(this)
      ensures result.Ok? ==>
        && result.value.name == name && buffers == old(buffers)[name := result.value]
        && buffers.Values == old(buffers.Values) + {result.value}
        && (if name in old(buffers) then result.value == old(buffers)[name]
            else fresh(result.value) && result.value.AsText() == NewText())
    {
      if name == "" || |name| > MAX_BUFFER_NAME_LENGTH {
        return Fail;
      }
      if name !in buffers {
        var created := new Buffer(name);
        buffers := buffers[name := created];
      }
      FiledAgain(old(buffers), name, buffers[name], {});
      assert buffers == old(buffers)[name := buffers[name]] - {};
      return Ok(buffers[name]);
    }

    method Select(name: string) returns (result: Result<Buffer>)
      requires Valid()
      modifies this`current, this`usageOrder
      ensures Valid() && result.Ok? == (name in buffers)
      ensures result.Fail? ==> unchanged(this)
      ensures result.Ok? ==>
        && result.value == current == buffers[name] && HeadIsCurrent()
        && usageOrder == [name] + Dropped(old(usageOrder), name)
    {
      if name !in buffers {
        return Fail;
      }
      current := buffers[name];
      Touch(name);
      return Ok(current);
    }

    /** Deletes a buffer; if it was current, some other one becomes current, or a new default buffer. */
    method Erase(name: string) returns (result: Result<()>)
      requires Valid()
      modifies this
      ensures Valid() && result.Ok? == (name in old(buffers))
      ensures result.Fail? ==> unchanged(this)
      ensures result.Ok? && old(buffers).Keys != {name} ==>
        && buffers == old(buffers) - {name} && usageOrder == Dropped(old(usageOrder), name)
        && (old(current).name != name ==> current == old(current))
      ensures result.Ok? && old(buffers).Keys == {name} ==> buffers.Keys == {"0"} && HeadIsCurrent() && fresh(current)
    {
      if name !in buffers {
        return Fail;
      }
      hide Dropped, Distinct;
      if buffers.Keys == {name} {
        Reset();
        return Ok(());
      }
      if current.name == name {
        SelectOther();
      }
      Discard(name);
      return Ok(());
    }

    /** Makes any other buffer current. */
    method SelectOther()
      requires Valid() && buffers.Keys != {current.name}
      modifies this`current
      ensures Valid() && current.name != old(current.name)
    {
      hide Dropped, Distinct;
      OtherName(buffers.Keys, current.name);
      var other :| other in buffers.Keys && other != current.name;
      current := buffers[other];
    }

    /** Drops a buffer that is not current. */
    method Discard(name: string)
      requires Valid() && name != current.name
      modifies this`buffers, this`usageOrder
      ensures Valid() && buffers == old(buffers) - {name} && usageOrder == Dropped(old(usageOrder), name)
    {
      DroppedStaysDistinct(usageOrder, name);
      usageOrder := Dropped(usageOrder, name);
      hide Dropped;
      buffers := buffers - {name};
    }

    /** Starts again with one empty default buffer. */
    method Reset()
      modifies this
      ensures Valid() && HeadIsCurrent() && buffers.Keys == {"0"} && fresh(current)
    {
      var created := new Buffer("0");
      buffers := map["0" := created];
      current := created;
      usageOrder := ["0"];
    }

    /** No buffer has unsaved modifications. */
    method NothingModified() returns (clean: bool)
      requires Valid()
      ensures clean == (forall n :: n in buffers ==> !buffers[n].modified)
      ensures clean ==> forall n :: n in buffers ==> buffers[n].lines == buffers[n].saved
    {
      clean := forall n :: n in buffers ==> !buffers[n].modified;
    }
  }
}
