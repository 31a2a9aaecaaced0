/** Text files: how `R` turns bytes into lines, how `W` turns lines into bytes, and when the
  two undo each other. A file is a string of bytes. */
module TextFiles {
  import opened Outcomes
  import opened Utf8

  datatype TextEncoding = Unknown | Ascii | Utf8Text
  datatype LineEnding = Lf | CrLf

  datatype DecodedFile = DecodedFile(lines: seq<string>, encoding: TextEncoding, lineEnding: LineEnding,
                                     finalNewline: bool)

  predicate IsAscii(text: string) {
    forall k :: 0 <= k < |text| ==> text[k] as int <= 0x7F
  }

  /** The position of the first `c`, or the length of the text if there is none. */
  function IndexOf(text: string, c: char): (index: nat)
    ensures index <= |text|
    ensures index < |text| ==> text[index] == c
    ensures forall k :: 0 <= k < index ==> text[k] != c
  {
    if text == "" then 0 else if text[0] == c then 0 else 1 + IndexOf(text[1..], c)
  }

  predicate HasBom(bytes: string) {
    |bytes| >= 3 && bytes[0] as int == 0xEF && bytes[1] as int == 0xBB && bytes[2] as int == 0xBF
  }

  /** A line end written as carriage return and line feed occurs somewhere. */
  predicate HasCrLf(bytes: string) {
    exists k :: 0 <= k < |bytes| - 1 && bytes[k] == '\r' && bytes[k + 1] == '\n'
  }

  function WithoutCr(line: string): string {
    if line != "" && line[|line| - 1] == '\r' then line[..|line| - 1] else line
  }

  /** The lines of a text; a carriage return before a line feed belongs to the line end. */
  function SplitLines(bytes: string): seq<string> {
    if bytes == "" then []
    else
      var newline := IndexOf(bytes, '\n');
      if newline == |bytes| then [bytes]
      else [WithoutCr(bytes[..newline])] + SplitLines(bytes[newline + 1..])
  }

  function TextOf(bytes: string): string {
    if HasBom(bytes) then bytes[3..] else bytes
  }

  predicate EndsLine(text: string) {
    text != "" && text[|text| - 1] == '\n'
  }

  function Decode(bytes: string): Result<DecodedFile> {
    var text := TextOf(bytes);
    if '\0' in bytes || !(IsAscii(text) || IsValid(text)) then Fail
    else Ok(DecodedFile(SplitLines(text), if IsAscii(text) && !HasBom(bytes) then Ascii else Utf8Text,
                        if HasCrLf(text) then CrLf else Lf, EndsLine(text)))
  }

  method DecodeFile(bytes: string) returns (result: Result<DecodedFile>)
    ensures result == Decode(bytes)
  {
    hide SplitLines, IsValid;
    if '\0' in bytes {
      return Fail;
    }
    var text := bytes;
    var hadBom := false;
    if HasBom(bytes) {
      text := bytes[3..];
      hadBom := true;
    }
    var ascii := IsAscii(text);
    if !ascii {
      ValidIffEncoded(text);
      var valid := IsValidUtf8(text);
      if !valid {
        return Fail;
      }
    }
    var lines := ReadLines(text);
    return Ok(DecodedFile(lines, if ascii && !hadBom then Ascii else Utf8Text, if HasCrLf(text) then CrLf else Lf,
                          EndsLine(text)));
  }

  method ReadLines(text: string) returns (lines: seq<string>)
    ensures lines == SplitLines(text)
  {
    hide SplitLines;
    lines := [];
    var start := 0;
    assert text[0..] == text;
    assert [] + SplitLines(text) == SplitLines(text);
    while start < |text|
      invariant 0 <= start <= |text|
      invariant SplitLines(text) == lines + SplitLines(text[start..])
    {
      var newline := start + IndexOf(text[start..], '\n');
      SplitStep(text, start, lines);
      if newline == |text| {
        lines := lines + [text[start..]];
        return;
      }
      var line := text[start..newline];
      if line != "" && line[|line| - 1] == '\r' {
        line := line[..|line| - 1];
      }
      lines := lines + [line];
      start := newline + 1;
    }
    assert text[start..] == "";
    NoLines(lines);
  }

  lemma {:induction false} NoLines(lines: seq<string>)
    ensures lines + SplitLines("") == lines
  {
  }

  lemma {:induction false} SplitStep(text: string, start: nat, lines: seq<string>)
    requires start < |text|
    ensures var newline := start + IndexOf(text[start..], '\n');
      lines + SplitLines(text[start..]) ==
      if newline == |text| then lines + [text[start..]]
      else lines + [WithoutCr(text[start..newline])] + SplitLines(text[newline + 1..])
  {
    hide IndexOf, WithoutCr, SplitLines;
    var rest := text[start..];
    var newline := IndexOf(rest, '\n');
    SplitFirst(rest);
    if newline < |rest| {
      assert rest[..newline] == text[start..start + newline] && rest[newline + 1..] == text[start + newline + 1..];
      var first, more := [WithoutCr(rest[..newline])], SplitLines(rest[newline + 1..]);
      assert lines + (first + more) == lines + first + more;
    }
  }

  /** The first line of a text, and the others. */
  lemma {:induction false} SplitFirst(text: string)
    requires text != ""
    ensures var newline := IndexOf(text, '\n');
      SplitLines(text) ==
      if newline == |text| then [text] else [WithoutCr(text[..newline])] + SplitLines(text[newline + 1..])
  {
    hide IndexOf, WithoutCr;
  }

  // ---------------------------------------------------------------- writing

  function Newline(ending: LineEnding): string {
    if ending == CrLf then "\r\n" else "\n"
  }

  /** The bytes written for some lines; the last one is terminated only if asked. */
  function Written(lines: seq<string>, ending: LineEnding, finalNewline: bool): string {
    if lines == [] then ""
    else
      lines[0] + (if |lines| > 1 || finalNewline then Newline(ending) else "")
      + Written(lines[1..], ending, finalNewline)
  }

  /** The bytes that `W` writes for lines `first` to `last`, counted from 1. A partial write always
    ends its last line. */
  method WriteLines(lines: seq<string>, first: nat, last: nat, ending: LineEnding, fullBuffer: bool, finalNewline: bool)
    returns (output: string)
    requires 1 <= first <= last <= |lines|
    ensures output == Written(lines[first - 1..last], ending, !fullBuffer || finalNewline)
  {
    hide Written, Newline;
    output := "";
    var newline := Newline(ending);
    ghost var terminated := !fullBuffer || finalNewline;
    ghost var range := lines[first - 1..last];
    var line := first;
    assert range[0..] == range;
    while line <= last
      invariant first <= line <= last + 1
      invariant Written(range, ending, terminated) == output + Written(range[line - first..], ending, terminated)
    {
      WrittenStep(range, line - first, ending, terminated, output);
      assert range[line - first] == lines[line - 1];
      output := output + lines[line - 1];
      if line < last || !fullBuffer || finalNewline {
        output := output + newline;
      }
      line := line + 1;
    }
    WrittenStep(range, |range| - 1, ending, terminated, output);
  }

  lemma {:induction false} WrittenStep(range: seq<string>, k: nat, ending: LineEnding, terminated: bool, output: string)
    requires k < |range|
    ensures output + Written(range[k..], ending, terminated) ==
            output + range[k] + (if k + 1 < |range| || terminated then Newline(ending) else "")
            + Written(range[k + 1..], ending, terminated)
    ensures Written(range[|range|..], ending, terminated) == ""
  {
    assert range[k..][1..] == range[k + 1..];
    var line, newline := range[k], if k + 1 < |range| || terminated then Newline(ending) else "";
    var rest := Written(range[k + 1..], ending, terminated);
    assert Written(range[k..], ending, terminated) == line + newline + rest;
    hide *;
    assert output + (line + newline + rest) == output + line + newline + rest;
  }

  /** The bytes that a full write produces for a file as it was read. */
  function Rewritten(file: DecodedFile): string {
    Written(file.lines, file.lineEnding, file.finalNewline)
  }

  // ---------------------------------------------------------------- read, then write

  /** `text` with every line end replaced by the given one. */
  function Renewlined(text: string, ending: LineEnding): string {
    if text == "" then ""
    else
      var newline := IndexOf(text, '\n');
      if newline == |text| then text
      else WithoutCr(text[..newline]) + Newline(ending) + Renewlined(text[newline + 1..], ending)
  }

  lemma {:induction false} RenewlinedFirst(text: string, ending: LineEnding)
    ensures var newline := IndexOf(text, '\n');
      Renewlined(text, ending) ==
      if newline == |text| then text
      else WithoutCr(text[..newline]) + Newline(ending) + Renewlined(text[newline + 1..], ending)
  {
    hide IndexOf, WithoutCr;
  }

  /** Text that ends a line does so behind its first line, unless that is all of it. */
  lemma {:induction false} LastLine(text: string)
    ensures var newline := IndexOf(text, '\n');
      && (SplitLines(text) == [] <==> text == "")
      && (if newline == |text| then !EndsLine(text)
          else EndsLine(text) == (text[newline + 1..] == "" || EndsLine(text[newline + 1..])))
  {
    hide WithoutCr;
    if text != "" {
      SplitFirst(text);
    }
  }

  lemma {:induction false} NothingWritten(ending: LineEnding, terminated: bool)
    ensures Written([], ending, terminated) == ""
  {
  }

  lemma {:induction false} FirstWritten(first: string, rest: seq<string>, ending: LineEnding, terminated: bool)
    ensures Written([first] + rest, ending, terminated) ==
            first + (if rest != [] || terminated then Newline(ending) else "") + Written(rest, ending, terminated)
  {
    assert ([first] + rest)[1..] == rest;
  }

  lemma {:induction false} SplitThenWritten(text: string, ending: LineEnding)
    ensures Written(SplitLines(text), ending, EndsLine(text)) == Renewlined(text, ending)
    decreases |text|
  {
    hide SplitLines, Renewlined, Written, WithoutCr, IndexOf, EndsLine;
    RenewlinedFirst(text, ending);
    LastLine(text);
    if text == "" {
      NothingWritten(ending, EndsLine(text));
    } else {
      SplitFirst(text);
      var newline := IndexOf(text, '\n');
      var first := WithoutCr(text[..newline]);
      if newline == |text| {
        FirstWritten(text, [], ending, false);
        NothingWritten(ending, false);
        assert [text] + [] == [text] && text + "" + "" == text;
      } else {
        var rest := text[newline + 1..];
        SplitThenWritten(rest, ending);
        LastLine(rest);
        FirstWritten(first, SplitLines(rest), ending, EndsLine(text));
        NothingWritten(ending, true);
        NothingWritten(ending, false);
      }
    }
  }

  /** The number of line feeds that no carriage return precedes. */
  function BareLineFeeds(text: string): nat {
    if text == "" then 0
    else
      var newline := IndexOf(text, '\n');
      if newline == |text| then 0
      else (if WithoutCr(text[..newline]) == text[..newline] then 1 else 0) + BareLineFeeds(text[newline + 1..])
  }

  /** Every line feed follows a carriage return. */
  predicate AllCrLf(text: string) {
    forall k :: 0 <= k < |text| && text[k] == '\n' ==> k > 0 && text[k - 1] == '\r'
  }

  lemma {:induction false} NoBareLineFeeds()
    ensures BareLineFeeds("") == 0
  {
  }

  lemma {:induction false} FirstBareLineFeed(text: string)
    requires text != ""
    ensures var newline := IndexOf(text, '\n');
      BareLineFeeds(text) ==
      if newline == |text| then 0
      else (if newline > 0 && text[newline - 1] == '\r' then 0 else 1) + BareLineFeeds(text[newline + 1..])
  {
    hide IndexOf;
  }

  lemma {:induction false} BareLineFeedsCounted(text: string)
    ensures BareLineFeeds(text) == 0 <==> AllCrLf(text)
    decreases |text|
  {
    hide IndexOf, BareLineFeeds;
    if text == "" {
      NoBareLineFeeds();
    } else {
      var newline := IndexOf(text, '\n');
      FirstBareLineFeed(text);
      if newline < |text| {
        var rest := text[newline + 1..];
        BareLineFeedsCounted(rest);
        assert forall k :: 0 <= k < |rest| ==> rest[k] == text[newline + 1 + k];
        if AllCrLf(text) {
          assert text[newline] == '\n' && text[newline - 1] == '\r';
          forall k | 0 <= k < |rest| && rest[k] == '\n' ensures k > 0 && rest[k - 1] == '\r' {
            assert text[newline + 1 + k] == '\n' && text[newline + k] == '\r';
          }
        } else {
          var k :| 0 <= k < |text| && text[k] == '\n' && !(k > 0 && text[k - 1] == '\r');
          assert newline <= k;
          if k > newline {
            assert rest[k - newline - 1] == '\n';
            if k > newline + 1 {
              assert rest[k - newline - 2] == text[k - 1];
            }
          }
        }
      }
    }
  }

  lemma {:induction false} CutAtLineEnd(text: string, newline: nat)
    requires newline < |text| && text[newline] == '\n'
    ensures text == text[..newline] + "\n" + text[newline + 1..]
    ensures newline > 0 && text[newline - 1] == '\r' ==>
      WithoutCr(text[..newline]) == text[..newline - 1] && text == text[..newline - 1] + "\r\n" + text[newline + 1..]
    ensures !(newline > 0 && text[newline - 1] == '\r') ==> WithoutCr(text[..newline]) == text[..newline]
  {
  }

  /** With CR LF line ends, the text grows by one byte for each bare line feed. */
  lemma {:induction false} RenewlinedCrLfGrows(text: string)
    ensures |Renewlined(text, CrLf)| == |text| + BareLineFeeds(text)
    decreases |text|
  {
    if text != "" {
      var newline := IndexOf(text, '\n');
      if newline < |text| {
        RenewlinedCrLfGrows(text[newline + 1..]);
        CutAtLineEnd(text, newline);
      }
    }
  }

  /** With CR LF line ends, text without bare line feeds is kept. */
  lemma {:induction false} NothingRenewlined(ending: LineEnding)
    ensures Renewlined("", ending) == ""
  {
  }

  lemma {:induction false} FirstRenewlined(text: string, ending: LineEnding)
    requires text != ""
    ensures var newline := IndexOf(text, '\n');
      Renewlined(text, ending) ==
      if newline == |text| then text
      else WithoutCr(text[..newline]) + Newline(ending) + Renewlined(text[newline + 1..], ending)
  {
    hide IndexOf, WithoutCr, Newline;
  }

  lemma {:induction false} RenewlinedCrLf(text: string)
    requires BareLineFeeds(text) == 0
    ensures Renewlined(text, CrLf) == text
    decreases |text|
  {
    hide Renewlined, BareLineFeeds, WithoutCr, IndexOf;
    if text == "" {
      NothingRenewlined(CrLf);
    } else {
      var newline := IndexOf(text, '\n');
      FirstRenewlined(text, CrLf);
      if newline < |text| {
        FirstBareLineFeed(text);
        CutAtLineEnd(text, newline);
        RenewlinedCrLf(text[newline + 1..]);
      }
    }
  }

  lemma {:induction false} RenewlinedLf(text: string)
    requires !HasCrLf(text)
    ensures Renewlined(text, Lf) == text
    decreases |text|
  {
    hide Renewlined, WithoutCr, IndexOf;
    if text == "" {
      NothingRenewlined(Lf);
    } else {
      var newline := IndexOf(text, '\n');
      FirstRenewlined(text, Lf);
      if newline < |text| {
        var rest := text[newline + 1..];
        forall k | 0 <= k < |rest| - 1 ensures !(rest[k] == '\r' && rest[k + 1] == '\n') {
          assert rest[k] == text[newline + 1 + k] && rest[k + 1] == text[newline + 2 + k];
        }
        RenewlinedLf(rest);
        CutAtLineEnd(text, newline);
      }
    }
  }

  /** A byte order mark is never written back. */
  lemma {:induction false} BomIsLost(bytes: string, ending: LineEnding)
    requires HasBom(bytes)
    ensures Renewlined(bytes[3..], ending) != bytes
  {
    var text := bytes[3..];
    assert forall k :: 0 <= k < |text| ==> text[k] == bytes[k + 3];
    var newline := IndexOf(text, '\n');
    if text != "" && newline < |text| {
      var line := WithoutCr(text[..newline]);
      var output := Renewlined(text, ending);
      assert output[|line| + |Newline(ending)| - 1] == '\n';
      assert bytes[0] != '\n' && bytes[1] != '\n' && bytes[2] != '\n';
      assert forall k :: 3 <= k < newline + 3 ==> bytes[k] == text[k - 3];
    }
  }

  /** Reading a file and writing it back reproduces its bytes exactly when it has no byte order mark
    and its line feeds all follow a carriage return or none does. */
  lemma {:induction false} ReadThenWrite(bytes: string)
    requires Decode(bytes).Ok?
    ensures Rewritten(Decode(bytes).value) == bytes <==>
            !HasBom(bytes) && (!HasCrLf(bytes) || AllCrLf(bytes))
  {
    var text := TextOf(bytes);
    var ending := if HasCrLf(text) then CrLf else Lf;
    SplitThenWritten(text, ending);
    if HasBom(bytes) {
      BomIsLost(bytes, ending);
    } else if HasCrLf(bytes) {
      BareLineFeedsCounted(bytes);
      RenewlinedCrLfGrows(bytes);
      if AllCrLf(bytes) {
        RenewlinedCrLf(bytes);
      }
    } else {
      RenewlinedLf(bytes);
    }
  }

  /** A file with both kinds of line ends is accepted, and not reproduced. */
  lemma {:induction false} MixedLineEndsAreRewritten()
    ensures Decode("a\r\nb\n").Ok? && Rewritten(Decode("a\r\nb\n").value) != "a\r\nb\n"
  {
    hide SplitLines;
    var bytes := "a\r\nb\n";
    assert bytes[1] == '\r' && bytes[2] == '\n' && bytes[3] == 'b' && bytes[4] == '\n';
    assert IsAscii(bytes) && HasCrLf(bytes) && !AllCrLf(bytes);
    hide IsAscii, HasCrLf, AllCrLf, Rewritten;
    ReadThenWrite(bytes);
  }

  // ---------------------------------------------------------------- write, then read

  /** Lines that survive being written with these line ends. */
  predicate Writable(lines: seq<string>, ending: LineEnding, finalNewline: bool) {
    && (forall k :: 0 <= k < |lines| ==> '\n' !in lines[k])
    && (ending == Lf ==> forall k :: 0 <= k < |lines| && (k + 1 < |lines| || finalNewline) ==>
        WithoutCr(lines[k]) == lines[k])
    && (lines != [] && !finalNewline ==> lines[|lines| - 1] != "")
  }

  /** Writing lines and splitting the bytes gives the lines back. */
  lemma {:induction false} WriteThenRead(lines: seq<string>, ending: LineEnding, finalNewline: bool)
    requires Writable(lines, ending, finalNewline)
    ensures SplitLines(Written(lines, ending, finalNewline)) == lines
    decreases |lines|
  {
    if lines != [] {
      var rest := Written(lines[1..], ending, finalNewline);
      assert lines[0] in lines;
      if |lines| == 1 && !finalNewline {
        assert rest == "";
        assert Written(lines, ending, finalNewline) == lines[0];
        NoNewline(lines[0]);
        assert lines == [lines[0]];
      } else {
        WriteThenRead(lines[1..], ending, finalNewline);
        assert Written(lines, ending, finalNewline) == lines[0] + Newline(ending) + rest;
        hide Written, SplitLines, Writable;
        FirstLineBack(lines[0], ending, rest);
        assert [lines[0]] + lines[1..] == lines;
      }
    }
  }

  lemma {:induction false} NoNewline(line: string)
    requires line != "" && '\n' !in line
    ensures SplitLines(line) == [line]
  {
    assert IndexOf(line, '\n') == |line|;
  }

  /** A terminated line in front of a text is its first line. */
  lemma {:induction false} FirstLineBack(line: string, ending: LineEnding, rest: string)
    requires '\n' !in line && (ending == Lf ==> WithoutCr(line) == line)
    ensures SplitLines(line + Newline(ending) + rest) == [line] + SplitLines(rest)
  {
    var output := line + Newline(ending) + rest;
    var ended := if ending == CrLf then line + "\r" else line;
    assert output == ended + "\n" + rest;
    assert forall k :: 0 <= k < |line| ==> line[k] in line;
    FirstLineEnd(ended, rest);
    assert WithoutCr(ended) == line by {
      assert ending == CrLf ==> ended[..|ended| - 1] == line;
    }
  }

  lemma {:induction false} FirstLineEnd(ended: string, rest: string)
    requires forall k :: 0 <= k < |ended| ==> ended[k] != '\n'
    ensures SplitLines(ended + "\n" + rest) == [WithoutCr(ended)] + SplitLines(rest)
  {
    var output := ended + "\n" + rest;
    assert forall k :: 0 <= k < |ended| ==> output[k] == ended[k];
    assert output[|ended|] == '\n' && IndexOf(output, '\n') == |ended|;
    assert output[..|ended|] == ended && output[|ended| + 1..] == rest;
  }

  // ---------------------------------------------------------------- the write checks on a file that was read

  lemma {:induction false} LinesStayValid(text: string)
    requires IsValid(text)
    ensures forall k :: 0 <= k < |SplitLines(text)| ==> IsValid(SplitLines(text)[k])
    decreases |text|
  {
    if text != "" {
      var newline := IndexOf(text, '\n');
      if newline < |text| {
        var line, rest := text[..newline], text[newline + 1..];
        assert text == line + ['\n'] + rest;
        ValidCut(line, '\n', rest);
        if WithoutCr(line) != line {
          assert line == WithoutCr(line) + ['\r'] + "";
          ValidCut(WithoutCr(line), '\r', "");
        }
        LinesStayValid(rest);
      }
    }
  }

  lemma {:induction false} LinesStayAscii(text: string)
    requires IsAscii(text)
    ensures forall k :: 0 <= k < |SplitLines(text)| ==> IsAscii(SplitLines(text)[k])
    decreases |text|
  {
    if text != "" {
      var newline := IndexOf(text, '\n');
      if newline < |text| {
        LinesStayAscii(text[newline + 1..]);
      }
    }
  }

  /** What a write in the given encoding demands of the lines. */
  predicate Representable(lines: seq<string>, encoding: TextEncoding) {
    forall k :: 0 <= k < |lines| ==> if encoding == Ascii then IsAscii(lines[k]) else IsValid(lines[k])
  }

  /** Every line of a file that was read passes the check of a write in the file's own encoding. */
  lemma {:induction false} ReadLinesAreRepresentable(bytes: string)
    requires Decode(bytes).Ok?
    ensures Representable(Decode(bytes).value.lines, Decode(bytes).value.encoding)
  {
    var text := TextOf(bytes);
    if IsAscii(text) {
      LinesStayAscii(text);
      AsciiIsValid(text);
    }
    LinesStayValid(text);
  }
}
