/** What each directive does to text, in command input and in full flow, whatever stands behind it. */
module ExpansionLaws {
  import opened Outcomes
  import opened Characters
  import opened FlowSemantics
  import opened CommandExpansion

  /** Every byte of `text` behind a backslash and a letter. */
  function Behind(letter: char, text: string): string {
    if text == "" then "" else ['\\', letter, text[0]] + Behind(letter, text[1..])
  }

  lemma {:induction false} ProtectedIsBehind(text: string)
    ensures Protected(text) == Behind('C', text)
  {
    if text != "" {
      ProtectedIsBehind(text[1..]);
    }
  }

  predicate IsPlain(text: string) {
    '\\' !in text
  }

  /** A name of 1 to 64 bytes that needs no escapes between parentheses. */
  predicate IsShortPlainName(name: string) {
    1 <= |name| <= 64 && '\\' !in name && ')' !in name && '\n' !in name
  }

  // ---------------------------------------------------------------- command input

  lemma {:induction false} NothingBefore(rest: Result<(seq<InputCharacter>, string)>)
    ensures Before([], rest) == rest
  {
    if rest.Ok? {
      assert [] + rest.value.0 == rest.value.0;
    }
  }

  lemma {:induction false} MarkedFirst(text: string, level: nat, mark: Interpretation,
                                       rest: Result<(seq<InputCharacter>, string)>)
    requires text != ""
    ensures Before(Marked(text, level, mark), rest) ==
            Before(Marked([text[0]], level, mark), Before(Marked(text[1..], level, mark), rest))
  {
    MarkedByte(text[0], level, mark);
    BeforeJoin(Marked([text[0]], level, mark), Marked(text[1..], level, mark), rest);
  }

  /** Text without backslashes stands for itself, every byte ordinary. */
  lemma {:induction false} PlainSegment(text: string, rest: string, depth: nat, buffers: Buffers, maxDepth: nat)
    requires IsPlain(text)
    ensures Segment(text + rest, depth, false, buffers, maxDepth) ==
            Before(Marked(text, depth, Normal), Segment(rest, depth, false, buffers, maxDepth))
  {
    if text == "" {
      assert text + rest == rest;
      NothingBefore(Segment(rest, depth, false, buffers, maxDepth));
    } else {
      assert (text + rest)[1..] == text[1..] + rest;
      PlainSegment(text[1..], rest, depth, buffers, maxDepth);
      MarkedFirst(text, depth, Normal, Segment(rest, depth, false, buffers, maxDepth));
    }
  }

  /** `\C` protects the byte behind it, and `\O` forces it to be special, whatever byte it is. */
  lemma {:induction false} MarkedSegment(letter: char, text: string, rest: string, depth: nat, inName: bool,
                                         buffers: Buffers, maxDepth: nat)
    requires letter in {'C', 'c', 'O', 'o'}
    ensures Segment(Behind(letter, text) + rest, depth, inName, buffers, maxDepth) ==
            Before(Marked(text, depth, if letter in {'C', 'c'} then Interpretation.Literal else ForcedSpecial),
                   Segment(rest, depth, inName, buffers, maxDepth))
  {
    if text == "" {
      assert Behind(letter, text) + rest == rest;
      NothingBefore(Segment(rest, depth, inName, buffers, maxDepth));
    } else {
      assert (Behind(letter, text) + rest)[3..] == Behind(letter, text[1..]) + rest;
      MarkedSegment(letter, text[1..], rest, depth, inName, buffers, maxDepth);
      MarkedFirst(text, depth, if letter in {'C', 'c'} then Interpretation.Literal else ForcedSpecial,
                  Segment(rest, depth, inName, buffers, maxDepth));
    }
  }

  /** Two backslashes stay two, both ordinary; a backslash in front of any other byte that makes no directive with it
    stays as it is; one at the end stays, but `\C` and `\O` need a byte behind them. */
  lemma {:induction false} BackslashSegment(c: char, rest: string, depth: nat, buffers: Buffers, maxDepth: nat)
    ensures Segment("\\\\" + rest, depth, false, buffers, maxDepth) ==
            Before(Marked("\\\\", depth, Normal), Segment(rest, depth, false, buffers, maxDepth))
    ensures c !in {'C', 'c', 'O', 'o', '\\'} && (c in {'S', 's', 'L', 'l'} ==> rest == "" || rest[0] != '(') ==>
      Segment(['\\', c] + rest, depth, false, buffers, maxDepth) ==
      Before(Marked("\\", depth, Normal), Segment([c] + rest, depth, false, buffers, maxDepth))
    ensures Segment("\\", depth, false, buffers, maxDepth) == Ok((Marked("\\", depth, Normal), ""))
    ensures c in {'C', 'c', 'O', 'o'} ==> Segment(['\\', c], depth, false, buffers, maxDepth).Fail?
  {
    assert ("\\\\" + rest)[2..] == rest && (['\\', c] + rest)[1..] == [c] + rest;
    assert Marked("\\", depth, Normal) + [] == Marked("\\", depth, Normal);
  }

  /** `\S(name)` stands for the text of the buffer without line ends, and `\L(name)` for the text with them, protected
    and
    one level deeper; they fail for a name without a buffer or below the maximum depth. */
  lemma {:induction false} BufferSegment(letter: char, name: string, rest: string, depth: nat, buffers: Buffers,
                                         maxDepth: nat)
    requires letter in {'S', 's', 'L', 'l'} && IsShortPlainName(name)
    ensures Segment(['\\', letter] + ("(" + (name + (")" + rest))), depth, false, buffers, maxDepth) ==
            if name in buffers && depth < maxDepth then
              Before(Marked(BufferText(buffers[name], letter in {'L', 'l'}), depth + 1, Interpretation.Literal),
                     Segment(rest, depth, false, buffers, maxDepth))
            else Fail
  {
    hide Marked;
    var text := ['\\', letter] + ("(" + (name + (")" + rest)));
    assert text[3..] == name + (")" + rest);
    NameSegment(name, rest, depth + 1, buffers, maxDepth);
    NamedIs(name, text[3..], rest, depth, buffers, maxDepth);
    hide NamedBuffer;
  }

  lemma {:induction false} NamedIs(name: string, text: string, rest: string, depth: nat, buffers: Buffers,
                                   maxDepth: nat)
    requires IsShortPlainName(name)
    requires Segment(text, depth + 1, true, buffers, maxDepth) == Ok((Marked(name, depth + 1, Normal), rest))
    ensures NamedBuffer(text, depth, buffers, maxDepth) ==
            if name in buffers && depth < maxDepth then Ok((buffers[name], rest)) else Fail
  {
    hide Segment;
    MarkedValues(name, depth + 1, Normal);
  }

  lemma {:induction false} NameSegment(name: string, rest: string, depth: nat, buffers: Buffers, maxDepth: nat)
    requires '\\' !in name && ')' !in name
    ensures Segment(name + (")" + rest), depth, true, buffers, maxDepth) == Ok((Marked(name, depth, Normal), rest))
  {
    var text := name + (")" + rest);
    if name == "" {
      assert text[1..] == rest;
    } else {
      assert text[1..] == name[1..] + (")" + rest);
      NameSegment(name[1..], rest, depth, buffers, maxDepth);
      MarkedByte(name[0], depth, Normal);
    }
  }

  /** A name of more than 64 bytes names nothing. */
  lemma {:induction false} LongNameFails(letter: char, name: string, rest: string, depth: nat, buffers: Buffers,
                                         maxDepth: nat)
    requires letter in {'S', 's', 'L', 'l'} && |name| > 64 && '\\' !in name && ')' !in name
    ensures Segment(['\\', letter] + ("(" + (name + (")" + rest))), depth, false, buffers, maxDepth).Fail?
  {
    hide Marked;
    var text := ['\\', letter] + ("(" + (name + (")" + rest)));
    assert text[3..] == name + (")" + rest);
    NameSegment(name, rest, depth + 1, buffers, maxDepth);
    MarkedValues(name, depth + 1, Normal);
  }

  /** Text without directives: a backslash stands at the end, or in front of another one, or of a byte that makes no
    directive with it. */
  predicate IsUndirected(text: string) {
    if text == "" then true
    else if text[0] != '\\' then IsUndirected(text[1..])
    else if |text| == 1 then true
    else if text[1] == '\\' then IsUndirected(text[2..])
    else
      && text[1] !in {'C', 'c', 'O', 'o'} && (text[1] in {'S', 's', 'L', 'l'} ==> |text| == 2 || text[2] != '(')
      && IsUndirected(text[1..])
  }

  /** Text without backslashes changes nothing about it. */
  lemma {:induction false} PlainInFront(text: string, rest: string)
    requires IsPlain(text)
    ensures IsUndirected(text + rest) == IsUndirected(rest)
  {
    if text == "" {
      assert text + rest == rest;
    } else {
      assert (text + rest)[1..] == text[1..] + rest;
      PlainInFront(text[1..], rest);
    }
  }

  /** Such text is read as it is, its backslashes included. */
  lemma {:induction false} UndirectedSegment(text: string, depth: nat, buffers: Buffers, maxDepth: nat)
    requires IsUndirected(text)
    ensures Segment(text, depth, false, buffers, maxDepth) == Ok((Marked(text, depth, Normal), ""))
  {
    if text != "" && text[0] == '\\' && |text| > 1 {
      if text[1] == '\\' {
        UndirectedSegment(text[2..], depth, buffers, maxDepth);
        MarkedTwice(text, depth);
        assert "\\\\" + text[2..] == text;
        BackslashSegment('x', text[2..], depth, buffers, maxDepth);
      } else {
        UndirectedSegment(text[1..], depth, buffers, maxDepth);
        assert ['\\', text[1]] + text[2..] == text && [text[1]] + text[2..] == text[1..];
        BackslashSegment(text[1], text[2..], depth, buffers, maxDepth);
        FirstMarked(text, depth);
      }
    } else if text != "" {
      if text[0] != '\\' {
        UndirectedSegment(text[1..], depth, buffers, maxDepth);
        assert [text[0]] + text[1..] == text;
        PlainSegment([text[0]], text[1..], depth, buffers, maxDepth);
        FirstMarked(text, depth);
      } else {
        assert text == "\\";
        BackslashSegment('x', "", depth, buffers, maxDepth);
      }
    }
  }

  lemma {:induction false} FirstMarked(text: string, depth: nat)
    requires text != ""
    ensures Marked(text, depth, Normal) == Marked([text[0]], depth, Normal) + Marked(text[1..], depth, Normal)
  {
    MarkedByte(text[0], depth, Normal);
  }

  lemma {:induction false} MarkedTwice(text: string, depth: nat)
    requires |text| > 1 && text[0] == text[1] == '\\'
    ensures Marked(text, depth, Normal) == Marked("\\\\", depth, Normal) + Marked(text[2..], depth, Normal)
  {
    FirstMarked(text, depth);
    FirstMarked(text[1..], depth);
    FirstMarked("\\\\", depth);
    assert text[1..][1..] == text[2..] && "\\\\"[1..] == "\\" && [text[0]] == "\\" == [text[1..][0]];
    hide Marked;
    assert Marked("\\", depth, Normal) + (Marked("\\", depth, Normal) + Marked(text[2..], depth, Normal)) ==
           Marked("\\", depth, Normal) + Marked("\\", depth, Normal) + Marked(text[2..], depth, Normal);
  }

  /** Command lines without directives are read as they are. */
  lemma {:induction false} UndirectedInput(line: string, buffers: Buffers, maxDepth: nat)
    requires IsUndirected(line)
    ensures CommandInput(line, buffers, maxDepth) == Ok(Marked(line, 0, Normal))
  {
    UndirectedSegment(line, 0, buffers, maxDepth);
  }

  // ---------------------------------------------------------------- full flow

  lemma {:induction false} JoinNothing(rest: Result<string>)
    ensures Join(Ok(""), rest) == rest
  {
    if rest.Ok? {
      assert "" + rest.value == rest.value;
    }
  }

  lemma {:induction false} JoinFirst(text: string, rest: Result<string>)
    requires text != ""
    ensures Join(Ok(text), rest) == Join(Ok([text[0]]), Join(Ok(text[1..]), rest))
  {
    if rest.Ok? {
      assert text + rest.value == [text[0]] + (text[1..] + rest.value);
    }
  }

  /** Text without backslashes stands for itself. */
  lemma {:induction false} PlainFlow(text: string, rest: string, level: nat, buffers: Buffers, maxDepth: nat)
    requires IsPlain(text)
    ensures Flow(text + rest, level, buffers, maxDepth) == Join(Ok(text), Flow(rest, level, buffers, maxDepth))
  {
    if text == "" {
      assert text + rest == rest;
      JoinNothing(Flow(rest, level, buffers, maxDepth));
    } else {
      assert (text + rest)[1..] == text[1..] + rest;
      PlainFlow(text[1..], rest, level, buffers, maxDepth);
      JoinFirst(text, Flow(rest, level, buffers, maxDepth));
    }
  }

  /** `\C` and `\O` keep the byte behind them, whatever it is. */
  lemma {:induction false} KeptFlow(letter: char, text: string, rest: string, level: nat, buffers: Buffers,
                                    maxDepth: nat)
    requires letter in {'C', 'c', 'O', 'o'}
    ensures Flow(Behind(letter, text) + rest, level, buffers, maxDepth) ==
            Join(Ok(text), Flow(rest, level, buffers, maxDepth))
  {
    if text == "" {
      assert Behind(letter, text) + rest == rest;
      JoinNothing(Flow(rest, level, buffers, maxDepth));
    } else {
      assert (Behind(letter, text) + rest)[3..] == Behind(letter, text[1..]) + rest;
      KeptFlow(letter, text[1..], rest, level, buffers, maxDepth);
      JoinFirst(text, Flow(rest, level, buffers, maxDepth));
    }
  }

  /** Two backslashes stand for one; a backslash stays in front of any other byte that is no directive, and at the end;
    but
    `\C` and `\O` need a byte behind them. */
  lemma {:induction false} BackslashFlow(c: char, rest: string, level: nat, buffers: Buffers, maxDepth: nat)
    ensures Flow("\\\\" + rest, level, buffers, maxDepth) == Join(Ok("\\"), Flow(rest, level, buffers, maxDepth))
    ensures c !in {'\\', 'C', 'c', 'O', 'o', 'B', 'b', 'S', 's', 'L', 'l'} ==>
      Flow(['\\', c] + rest, level, buffers, maxDepth) == Join(Ok(['\\', c]), Flow(rest, level, buffers, maxDepth))
    ensures Flow("\\", level, buffers, maxDepth) == Ok("\\")
    ensures c in {'C', 'c', 'O', 'o'} ==> Flow(['\\', c], level, buffers, maxDepth).Fail?
  {
    assert ("\\\\" + rest)[2..] == rest && (['\\', c] + rest)[2..] == rest && (['\\', c] + rest)[..2] == ['\\', c];
  }

  /** What a directive with a buffer stands for: `\B` for the expansion of the buffer's text, one level deeper, `\S`
    for its
    text without line ends, and `\L` for its text. */
  function Inclusion(letter: char, lines: seq<string>, level: nat, buffers: Buffers, maxDepth: nat): Result<string>
    requires letter in {'B', 'b', 'S', 's', 'L', 'l'}
  {
    if letter in {'B', 'b'} then Flow(BufferText(lines, true), level + 1, buffers, maxDepth)
    else Ok(BufferText(lines, letter in {'L', 'l'}))
  }

  /** A directive with the name of a live buffer stands for that, if one more source may be active; otherwise it fails.
    */
  lemma {:induction false} BufferFlow(letter: char, name: string, rest: string, level: nat, buffers: Buffers,
                                      maxDepth: nat)
    requires letter in {'B', 'b', 'S', 's', 'L', 'l'} && IsShortPlainName(name)
    ensures Flow(['\\', letter] + ("(" + name + ")" + rest), level, buffers, maxDepth) ==
            if name in buffers && level + 1 < maxDepth then
              Join(Inclusion(letter, buffers[name], level, buffers, maxDepth), Flow(rest, level, buffers, maxDepth))
            else Fail
  {
    var text := ['\\', letter] + ("(" + name + ")" + rest);
    assert text[2..] == "(" + name + ")" + rest && text[2..][1..] == name + ")" + rest;
    PlainNameParses(name, 0, rest, buffers, maxDepth, 0);
    assert name[0..] == name && name[..0] == "";
  }

  /** A name of more than 64 bytes fails. */
  lemma {:induction false} LongNameFlow(letter: char, name: string, rest: string, level: nat, buffers: Buffers,
                                        maxDepth: nat)
    requires letter in {'B', 'b', 'S', 's', 'L', 'l'} && |name| > 64 && '\\' !in name && ')' !in name && '\n' !in name
    ensures Flow(['\\', letter] + ("(" + name + ")" + rest), level, buffers, maxDepth).Fail?
  {
    var text := ['\\', letter] + ("(" + name + ")" + rest);
    assert text[2..] == "(" + name + ")" + rest && text[2..][1..] == name + ")" + rest;
    LongNameBody(name, "", rest, buffers, maxDepth, 0);
    assert "" + name == name;
  }

  lemma {:induction false} LongNameBody(name: string, read: string, rest: string, buffers: Buffers, maxDepth: nat,
                                        nesting: nat)
    requires '\\' !in name && ')' !in name && '\n' !in name && |read + name| > 64
    ensures NameBody(name + ")" + rest, read, buffers, maxDepth, nesting).Fail?
    decreases |name|
  {
    var text := name + ")" + rest;
    if name == "" {
      assert text[0] == ')' && read + name == read;
    } else {
      assert text[0] == name[0] && text[1..] == name[1..] + ")" + rest;
      assert read + [name[0]] + name[1..] == read + name;
      LongNameBody(name[1..], read + [name[0]], rest, buffers, maxDepth, nesting);
    }
  }

  /** Without a name in parentheses, with an empty one, or with one that nothing closes, a directive fails. */
  lemma {:induction false} BrokenNames(letter: char, name: string, rest: string, level: nat, buffers: Buffers,
                                       maxDepth: nat)
    requires letter in {'B', 'b', 'S', 's', 'L', 'l'}
    ensures rest == "" || rest[0] != '(' ==> Flow(['\\', letter] + rest, level, buffers, maxDepth).Fail?
    ensures Flow(['\\', letter] + ("()" + rest), level, buffers, maxDepth).Fail?
    ensures '\\' !in name && ')' !in name ==>
      Flow(['\\', letter] + ("(" + name), level, buffers, maxDepth).Fail?
      && (letter !in {'B', 'b'} ==> Segment(['\\', letter] + ("(" + name), level, false, buffers, maxDepth).Fail?)
    ensures letter !in {'B', 'b'} ==> Segment(['\\', letter] + ("()" + rest), level, false, buffers, maxDepth).Fail?
  {
    var one, two, three := ['\\', letter] + rest, ['\\', letter] + ("()" + rest), ['\\', letter] + ("(" + name);
    assert one[2..] == rest;
    assert two[2..] == "()" + rest && two[2..][1..] == ")" + rest && two[3..] == ")" + rest;
    assert three[2..] == "(" + name && three[2..][1..] == name && three[3..] == name;
    assert (two[2..])[0] == '(' && NameBody(two[2..][1..], "", buffers, maxDepth, 0).Fail?;
    EmptyName(rest, level, buffers, maxDepth);
    if '\\' !in name && ')' !in name {
      OpenName(name, "", buffers, maxDepth, 0);
      OpenSegment(name, level + 1, buffers, maxDepth);
    }
  }

  lemma {:induction false} EmptyName(rest: string, depth: nat, buffers: Buffers, maxDepth: nat)
    ensures NamedBuffer(")" + rest, depth, buffers, maxDepth).Fail?
  {
    assert Segment(")" + rest, depth + 1, true, buffers, maxDepth) == Ok(([], (")" + rest)[1..]));
    assert Values([]) == "";
  }

  lemma {:induction false} OpenName(name: string, read: string, buffers: Buffers, maxDepth: nat, nesting: nat)
    requires '\\' !in name && ')' !in name
    ensures NameBody(name, read, buffers, maxDepth, nesting).Fail?
    decreases |name|
  {
    if name != "" {
      OpenName(name[1..], read + [name[0]], buffers, maxDepth, nesting);
    }
  }

  lemma {:induction false} OpenSegment(name: string, depth: nat, buffers: Buffers, maxDepth: nat)
    requires '\\' !in name && ')' !in name
    ensures Segment(name, depth, true, buffers, maxDepth).Fail?
    decreases |name|
  {
    if name != "" {
      OpenSegment(name[1..], depth, buffers, maxDepth);
    }
  }

  /** In a name, `\C` protects any byte, even a parenthesis. */
  lemma {:induction false} ProtectedName(name: string, read: string, rest: string, buffers: Buffers, maxDepth: nat,
                                         nesting: nat)
    requires 1 <= |read + name| <= 64
    ensures NameBody(Behind('C', name) + ")" + rest, read, buffers, maxDepth, nesting) == Ok((read + name, rest))
    decreases |name|
  {
    var text := Behind('C', name) + ")" + rest;
    if name == "" {
      assert text == ")" + rest && text[1..] == rest && read + name == read;
    } else {
      assert text[0] == '\\' && text[1] == 'C' && text[2] == name[0] &&
             text[3..] == Behind('C', name[1..]) + ")" + rest;
      assert read + [name[0]] + name[1..] == read + name;
      ProtectedName(name[1..], read + [name[0]], rest, buffers, maxDepth, nesting);
    }
  }

  /** In a name, `\S(other)` stands for the text of another buffer, without line ends; other escapes stand for
    themselves, and a line feed ends it. */
  lemma {:induction false} NameInName(other: string, c: char, read: string, rest: string, buffers: Buffers,
                                      maxDepth: nat, nesting: nat)
    requires IsShortPlainName(other)
    ensures NameBody("\\S(" + other + ")" + rest, read, buffers, maxDepth, nesting) ==
            if other in buffers && nesting < maxDepth then
              NameBody(rest, read + BufferText(buffers[other], false), buffers, maxDepth, nesting)
            else Fail
    ensures c !in {'C', 'c', 'S', 's'} ==>
      NameBody(['\\', c] + rest, read, buffers, maxDepth, nesting) ==
          NameBody(rest, read + ['\\', c], buffers, maxDepth, nesting)
    ensures NameBody("\n" + rest, read, buffers, maxDepth, nesting).Fail?
  {
    var text := "\\S(" + other + ")" + rest;
    assert text[2..] == "(" + other + ")" + rest && text[2..][1..] == other + ")" + rest;
    PlainNameParses(other, 0, rest, buffers, maxDepth, nesting + 1);
    assert other[0..] == other && other[..0] == "";
    assert (['\\', c] + rest)[2..] == rest && (['\\', c] + rest)[..2] == ['\\', c];
  }

  // ---------------------------------------------------------------- the text of a buffer

  /** The text of some lines is that of the first ones and that of the others; a line has its line end if asked. */
  lemma {:induction false} BufferTextJoins(first: seq<string>, second: seq<string>, line: string, newlines: bool)
    ensures BufferText(first + second, newlines) == BufferText(first, newlines) + BufferText(second, newlines)
    ensures BufferText([line], true) == line + "\n" && BufferText([line], false) == line
  {
    assert [line][1..] == [];
    assert line + "\n" + "" == line + "\n" && line + "" + "" == line;
    if first == [] {
      assert first + second == second;
      assert "" + BufferText(second, newlines) == BufferText(second, newlines);
    } else {
      BufferTextJoins(first[1..], second, line, newlines);
      assert (first + second)[1..] == first[1..] + second;
      var start := first[0] + if newlines then "\n" else "";
      assert start + (BufferText(first[1..], newlines) + BufferText(second, newlines)) ==
             start + BufferText(first[1..], newlines) + BufferText(second, newlines);
    }
  }
}
