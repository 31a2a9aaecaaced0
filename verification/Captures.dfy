/** The lines that `ZG` makes of captured output. */
module Captures {
  import opened TextFiles
  import opened LineCommands

  /** The lines of captured output. */
  function CapturedLines(text: string): seq<string> {
    if text == "" then []
    else
      var newline := IndexOf(text, '\n');
      if newline == |text| then [WithoutCr(text)]
      else [WithoutCr(text[..newline])] + CapturedLines(text[newline + 1..])
  }

  /** Lines that were printed are captured as they were. */
  lemma {:induction false} PrintedIsCaptured(lines: seq<string>)
    requires forall k :: 0 <= k < |lines| ==> '\n' !in lines[k] && WithoutCr(lines[k]) == lines[k]
    ensures CapturedLines(PrintedLines(lines)) == lines
  {
    PrintedIsWritten(lines);
    WriteThenRead(lines, Lf, true);
    TerminatedCapture(PrintedLines(lines));
  }

  lemma {:induction false} TerminatedCapture(text: string)
    requires text == "" || EndsLine(text)
    ensures CapturedLines(text) == SplitLines(text)
    decreases |text|
  {
    hide IndexOf, WithoutCr;
    if text != "" {
      var newline := IndexOf(text, '\n');
      var rest := text[newline + 1..];
      assert text[|text| - 1] == '\n' && (rest == "" || EndsLine(rest));
      var first := [WithoutCr(text[..newline])];
      assert CapturedLines(text) == first + CapturedLines(rest) && SplitLines(text) == first + SplitLines(rest);
      hide *;
      TerminatedCapture(rest);
    }
  }

  lemma {:induction false} PrintedIsWritten(lines: seq<string>)
    ensures PrintedLines(lines) == Written(lines, Lf, true)
    ensures lines != [] ==> EndsLine(PrintedLines(lines))
  {
    if lines != [] {
      var before, last := lines[..|lines| - 1], lines[|lines| - 1];
      PrintedIsWritten(before);
      WrittenAppend(before, last);
      assert lines == before + [last];
    }
  }

  lemma {:induction false} WrittenAppend(lines: seq<string>, last: string)
    ensures Written(lines + [last], Lf, true) == Written(lines, Lf, true) + last + "\n"
  {
    if lines == [] {
      assert [last][1..] == [];
      assert Written([last], Lf, true) == last + "\n" + "";
    } else {
      WrittenAppend(lines[1..], last);
      assert (lines + [last])[1..] == lines[1..] + [last];
      var first, rest := lines[0] + "\n", Written(lines[1..], Lf, true);
      assert Written(lines, Lf, true) == first + rest;
      assert Written(lines + [last], Lf, true) == first + (rest + last + "\n");
      hide *;
      assert first + (rest + last + "\n") == first + rest + last + "\n";
    }
  }
}
