/** `R` and `W`: files are read into and written from the current buffer. */
module FileCommands {
  import opened Outcomes
  import opened Addresses
  import opened TextFiles
  import opened Utf8
  import opened Buffers
  import opened Executor
  import opened LineCommands

  /** The file that `R` and `W` use: the one named, else the one associated with the buffer. */
  function ChosenFile(filename: Option<string>, associated: Option<string>): Option<string> {
    if filename.Some? then filename else associated
  }

  function ReadFile(files: map<string, string>, filename: string): Result<DecodedFile> {
    if filename in files then Decode(files[filename]) else Fail
  }

  /** What the buffer holds after `R`, and how many lines were read. */
  function ReadText(text: Text, files: map<string, string>, address: Option<Address>, filename: Option<string>):
    Result<(Text, nat)>
  {
    var name := ChosenFile(filename, text.associatedFile);
    var file :- if name.Some? then ReadFile(files, name.value) else Fail;
    if address.None? then
      if text.lines != [] then Fail
      else Ok((Text(file.lines, |file.lines|, false, file.lines, name, file.encoding, file.lineEnding,
                    file.finalNewline), |file.lines|))
    else
      var after :- ReadPosition(address.value, text.currentLine, |text.lines|);
      Ok((text.(lines := With(text.lines, after, file.lines), currentLine := after + |file.lines|,
                modified := text.modified || file.lines != []), |file.lines|))
  }

  method ExecuteRead(context: ExecutionContext, address: Option<Address>, filename: Option<string>)
    returns (result: Result<()>)
    requires context.Valid()
    modifies context`counter, context`condition, context.manager.current
    ensures context.Valid()
    ensures result.Fail? ==> unchanged(context.manager.current) && unchanged(context)
    ensures var read := ReadText(old(context.manager.current.AsText()), context.files, address, filename);
      && result.Ok? == read.Ok?
      && (result.Ok? ==>
            context.manager.current.AsText() == read.value.0 && context.counter == read.value.1 && context.condition)
  {
    hide ReadFile, ReadPosition, With, ExecutionContext.Valid, BufferManager.Valid;
    context.Standing();
    var buffer := context.manager.current;
    var name := filename;
    if filename.None? {
      name := buffer.associatedFile;
    }
    if name.None? {
      return Fail;
    }
    if address.None? {
      if buffer.lines != [] {
        return Fail;
      }
      var decoded :- ReadBytes(context.files, name.value);
      buffer.LoadFile(decoded, name.value);
      context.counter, context.condition := |decoded.lines|, true;
      context.StillValid();
      return Ok(());
    }
    var insertionAfter :- ReadPosition(address.value, buffer.currentLine, |buffer.lines|);
    var decoded :- ReadBytes(context.files, name.value);
    var inserted := buffer.InsertAfter(insertionAfter, decoded.lines);
    assert inserted.Ok?;
    context.counter, context.condition := |decoded.lines|, true;
    context.StillValid();
    return Ok(());
  }

  method ReadBytes(files: map<string, string>, filename: string) returns (file: Result<DecodedFile>)
    ensures file == ReadFile(files, filename)
  {
    hide Decode;
    if filename !in files {
      return Fail;
    }
    file := DecodeFile(files[filename]);
  }

  // ---------------------------------------------------------------- W

  /** The range that `W` writes: by default the whole buffer. The range (0, 0) is that of an empty buffer. */
  function WriteTarget(address: Option<Address>, current: nat, count: nat): (r: Result<LineRange>)
    ensures r.Ok? ==> if count == 0 then r.value == LineRange(0, 0) else 1 <= r.value.first <= r.value.last <= count
  {
    if count == 0 then
      if address.Some? then Fail else Ok(LineRange(0, 0))
    else if address.None? then Ok(LineRange(1, count))
    else Evaluate(address, current, count)
  }

  function LinesOf(lines: seq<string>, range: LineRange): seq<string>
    requires range == LineRange(0, 0) || 1 <= range.first <= range.last <= |lines|
  {
    if range.first == 0 then [] else Slice(lines, range)
  }

  predicate IsFull(range: LineRange, count: nat) {
    range.first <= 1 && range.last == count
  }

  function WriteEncoding(mode: WriteMode, encoding: TextEncoding): (e: TextEncoding)
    ensures e != Unknown
  {
    match mode
    case AsAscii => Ascii
    case AsUtf8 => Utf8Text
    case _ => if encoding == Ascii then Ascii else Utf8Text
  }

  method ExecuteWrite(context: ExecutionContext, address: Option<Address>, filename: Option<string>, mode: WriteMode)
    returns (result: Result<()>)
    requires context.Valid()
    modifies context`files, context`counter, context`condition, context.manager.current
    ensures context.Valid()
    ensures result.Fail? ==> unchanged(context.manager.current) && unchanged(context)
    ensures var buffer := context.manager.current;
      var name := ChosenFile(filename, old(buffer.associatedFile));
      var range := old(WriteTarget(address, buffer.currentLine, |buffer.lines|));
      var encoding := WriteEncoding(mode, old(buffer.encoding));
      && result.Ok? == (mode != AsBcd && name.Some? && range.Ok? &&
                        Representable(old(LinesOf(buffer.lines, range.value)), encoding))
      && (result.Ok? ==>
            var full := IsFull(range.value, |buffer.lines|);
            var lines := old(LinesOf(buffer.lines, range.value));
            && context.files == old(context.files)[name.value :=
                 Written(lines, buffer.lineEnding, !full || old(buffer.finalNewline))]
            && context.counter == |lines| && context.condition
            && buffer.lines == old(buffer.lines) && buffer.currentLine == old(buffer.currentLine)
            && (full ==>
                  && !buffer.modified && buffer.saved == buffer.lines
                  && buffer.FileData() == (name, encoding, old(buffer.lineEnding), old(buffer.finalNewline)))
            && (!full ==> unchanged(buffer)))
  {
    hide Written, Representable, Evaluate, Slice, LinesOf, WriteTarget, ExecutionContext.Valid, WriteEncoding;
    var buffer := context.manager.current;
    if mode == AsBcd {
      return Fail;
    }
    var name := filename;
    if filename.None? {
      name := buffer.associatedFile;
    }
    if name.None? {
      return Fail;
    }
    var range :- SelectRange(context, address);
    var fullBuffer := IsFull(range, |buffer.lines|);
    var encoding := WriteEncoding(mode, buffer.encoding);
    var representable := CheckLines(buffer.lines, range, encoding);
    if !representable {
      return Fail;
    }
    var output, count := Render(buffer.lines, range, buffer.lineEnding, fullBuffer, buffer.finalNewline);
    Store(context, name.value, output, count, fullBuffer, encoding);
    return Ok(());
  }

  /** Writes the bytes; a full write makes the present text the saved text of that file. */
  method Store(context: ExecutionContext, name: string, bytes: string, count: nat, fullBuffer: bool,
               encoding: TextEncoding)
    requires context.Valid()
    modifies context`files, context`counter, context`condition, context.manager.current
    ensures context.Valid()
    ensures context.files == old(context.files)[name := bytes] && context.counter == count && context.condition
    ensures var buffer := context.manager.current;
      && buffer.lines == old(buffer.lines) && buffer.currentLine == old(buffer.currentLine)
      && (fullBuffer ==>
            && !buffer.modified && buffer.saved == buffer.lines
            && buffer.FileData() == (Some(name), encoding, old(buffer.lineEnding), old(buffer.finalNewline)))
      && (!fullBuffer ==> unchanged(buffer))
  {
    hide ExecutionContext.Valid, BufferManager.Valid;
    context.Standing();
    var buffer := context.manager.current;
    context.files := context.files[name := bytes];
    context.counter, context.condition := count, true;
    if fullBuffer {
      buffer.AssociateFile(name, encoding, buffer.lineEnding, buffer.finalNewline);
      buffer.MarkClean();
    }
    context.StillValid();
  }

  /** The range to write; fails if there is no such range in the current buffer. */
  method SelectRange(context: ExecutionContext, address: Option<Address>) returns (range: Result<LineRange>)
    ensures var buffer := context.manager.current;
      range == WriteTarget(address, buffer.currentLine, |buffer.lines|)
  {
    hide Evaluate;
    var buffer := context.manager.current;
    var emptyBuffer := buffer.lines == [];
    if emptyBuffer && address.Some? {
      return Fail;
    }
    if emptyBuffer {
      return Ok(LineRange(0, 0));
    }
    if address.None? {
      return Ok(LineRange(1, |buffer.lines|));
    }
    range := context.Target(address);
  }

  /** The bytes and the number of the lines to write. */
  method Render(lines: seq<string>, range: LineRange, ending: LineEnding, fullBuffer: bool, finalNewline: bool)
    returns (output: string, count: nat)
    requires if lines == [] then range == LineRange(0, 0) else 1 <= range.first <= range.last <= |lines|
    ensures output == Written(LinesOf(lines, range), ending, !fullBuffer || finalNewline)
    ensures count == |LinesOf(lines, range)|
  {
    if lines == [] {
      return "", 0;
    }
    hide Written;
    output := WriteLines(lines, range.first, range.last, ending, fullBuffer, finalNewline);
    count := range.last - range.first + 1;
  }

  /** Whether the lines of a range can be written in an encoding; the range (0, 0) has no lines. */
  method CheckLines(lines: seq<string>, range: LineRange, encoding: TextEncoding) returns (representable: bool)
    requires range == LineRange(0, 0) || 1 <= range.first <= range.last <= |lines|
    ensures representable == Representable(LinesOf(lines, range), encoding)
  {
    hide IsValid, IsAscii;
    if range.first == 0 {
      return true;
    }
    ghost var slice := Slice(lines, range);
    var line := range.first;
    while line <= range.last
      invariant range.first <= line <= range.last + 1
      invariant Representable(slice[..line - range.first], encoding)
    {
      ghost var k := line - range.first;
      assert slice[k] == lines[line - 1] && slice[..k + 1] == slice[..k] + [slice[k]];
      var good: bool;
      if encoding == Ascii {
        good := IsAscii(lines[line - 1]);
      } else {
        ValidIffEncoded(lines[line - 1]);
        good := IsValidUtf8(lines[line - 1]);
      }
      if !good {
        return false;
      }
      line := line + 1;
    }
    assert slice[..|slice|] == slice;
    return true;
  }

  // ---------------------------------------------------------------- R, then W

  /** Reading an accepted file into an empty buffer and writing it back always succeeds, and gives the
    same bytes exactly when there is no byte order mark and the line feeds all follow a carriage
    return or none does. */
  method ReadThenWriteBack(context: ExecutionContext, filename: string) returns (read: Result<()>, written: Result<()>)
    requires context.Valid() && context.manager.current.lines == []
    modifies context`files, context`counter, context`condition, context.manager.current
    ensures context.Valid()
    ensures read.Ok? == ReadFile(old(context.files), filename).Ok?
    ensures read.Ok? ==>
      var bytes := old(context.files)[filename];
      && written.Ok? && context.files.Keys == old(context.files).Keys
      && (context.files == old(context.files) <==> !HasBom(bytes) && (!HasCrLf(bytes) || AllCrLf(bytes)))
  {
    hide Written, Decode, Representable, LinesOf;
    read := ExecuteRead(context, None, Some(filename));
    if read.Fail? {
      return read, Fail;
    }
    ghost var bytes := context.files[filename];
    ghost var before := context.files;
    ReadThenWrite(bytes);
    ReadLinesAreRepresentable(bytes);
    ReadEncodingIsKnown(bytes);
    WholeBuffer(context.manager.current.lines);
    written := ExecuteWrite(context, None, None, Preserve);
    assert context.files == before[filename := Rewritten(Decode(bytes).value)];
    assert context.files[filename] == bytes ==> context.files == before;
  }

  lemma {:induction false} WholeBuffer(lines: seq<string>)
    ensures LinesOf(lines, if lines == [] then LineRange(0, 0) else LineRange(1, |lines|)) == lines
  {
  }

  lemma {:induction false} ReadEncodingIsKnown(bytes: string)
    requires Decode(bytes).Ok?
    ensures WriteEncoding(Preserve, Decode(bytes).value.encoding) == Decode(bytes).value.encoding
  {
  }
}
