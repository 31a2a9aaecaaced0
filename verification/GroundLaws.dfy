/** What the smallest pieces are, told from their text: letters, numbers, bytes of UTF-8, and tokens. */
module GroundLaws {
  import opened Outcomes
  import opened Characters
  import opened Numbers
  import opened Tokens
  import opened Lexing
  import opened Utf8
  import opened TextFiles
  import opened Captures
  import TokenStreams

  // ---------------------------------------------------------------- letters and numbers

  const DIGITS := "0123456789"

  /** Letters are those of ASCII, 26 in both cases, and digits the 10; the other bytes have no upper case. */
  lemma {:induction false} LettersAre(k: nat, c: char)
    ensures k < 26 ==> Upper((97 + k) as char) == Upper((65 + k) as char) == (65 + k) as char
    ensures IsLetter(c) <==> 97 <= c as int < 97 + 26 || 65 <= c as int < 65 + 26
    ensures !(97 <= c as int <= 122) ==> Upper(c) == c
    ensures IsDigit(c) <==> c in DIGITS
    ensures IsSpace(c) <==> c in " \t\n\r" || c as int in {11, 12}
    ensures 'A' as int == 65 && 'z' as int == 122
  {
  }

  /** A number is written with its last digit behind the number without it, and read like that. */
  lemma {:induction false} NumbersAre(number: nat, d: nat)
    requires d < 10
    ensures Decimal(d) == [DIGITS[d]] && NumberValue([DIGITS[d]]) == d
    ensures number > 0 ==> Decimal(10 * number + d) == Decimal(number) + [DIGITS[d]]
    ensures IsNumber(Decimal(number) + [DIGITS[d]]) && NumberValue(Decimal(number) + [DIGITS[d]]) == 10 * number + d
  {
    assert DIGITS[d] as int == 48 + d;
    DecimalValue(number);
    LastDigit(Decimal(number), DIGITS[d]);
    LastDigit("", DIGITS[d]);
    assert "" + [DIGITS[d]] == [DIGITS[d]];
    hide NumberValue;
  }

  lemma {:induction false} LastDigit(before: string, c: char)
    requires IsNumber(before) && IsDigit(c)
    ensures IsNumber(before + [c]) && NumberValue(before + [c]) == 10 * NumberValue(before) + (c as int - 48)
    ensures NumberValue("") == 0
  {
    assert (before + [c])[..|before|] == before;
  }

  // ---------------------------------------------------------------- UTF-8

  /** The bytes of a scalar value, as many as it needs: a leading byte and bytes with six bits each. */
  lemma {:induction false} EncodedAs(v: nat)
    requires IsScalar(v)
    ensures var bytes := Encode(v);
      && (v <= 0x7F <==> |bytes| == 1) && (v <= 0x7FF <==> |bytes| <= 2) && (v <= 0xFFFF <==> |bytes| <= 3) &&
          |bytes| <= 4
      && (|bytes| == 1 ==> bytes[0] as int == v)
      && (|bytes| == 2 ==> 0xC2 <= bytes[0] as int <= 0xDF && v == (bytes[0] as int - 0xC0) * 64 + Bits(bytes[1]))
      && (|bytes| == 3 ==>
            && 0xE0 <= bytes[0] as int <= 0xEF
            && v == (bytes[0] as int - 0xE0) * 4096 + Bits(bytes[1]) * 64 + Bits(bytes[2]))
      && (|bytes| == 4 ==>
            && 0xF0 <= bytes[0] as int <= 0xF4
            && v == (bytes[0] as int - 0xF0) * 262144 + Bits(bytes[1]) * 4096 + Bits(bytes[2]) * 64 + Bits(bytes[3]))
      && forall k :: 1 <= k < |bytes| ==> 0x80 <= bytes[k] as int <= 0xBF
  {
    assert v / 4096 / 64 == v / 262144;
    assert v / 64 / 64 == v / 4096;
  }

  function Bits(c: char): int {
    c as int - 0x80
  }

  /** The scalar values are those up to 0x10FFFF, but for the surrogates; nothing else can be encoded. */
  lemma {:induction false} ScalarsAre(v: nat)
    ensures IsScalar(v) <==> v < 0xD800 || 0xE000 <= v < 0x110000
  {
  }

  // ---------------------------------------------------------------- lines

  /** Captured output is cut behind its line feeds, and what is behind the last one is a line too; a carriage return at
    the
    end of a line is dropped. */
  lemma {:induction false} CapturedAs(line: string, rest: string)
    requires '\n' !in line
    ensures CapturedLines(line + "\n" + rest) == [WithoutCr(line)] + CapturedLines(rest)
    ensures line != "" ==> CapturedLines(line) == [WithoutCr(line)]
    ensures CapturedLines("") == []
    ensures WithoutCr(line + "\r") == line
    ensures line == "" || line[|line| - 1] != '\r' ==> WithoutCr(line) == line
  {
    var text := line + "\n" + rest;
    assert text[|line|] == '\n' && forall k :: 0 <= k < |line| ==> text[k] == line[k];
    assert text[..|line|] == line && text[|line| + 1..] == rest;
    assert (line + "\r")[..|line|] == line;
  }

  /** So are the lines of a file, but for a carriage return in front of nothing. */
  lemma {:induction false} SplitAs(line: string, rest: string)
    requires '\n' !in line
    ensures SplitLines(line + "\n" + rest) == [WithoutCr(line)] + SplitLines(rest)
    ensures line != "" ==> SplitLines(line) == [line]
    ensures SplitLines("") == []
  {
    var text := line + "\n" + rest;
    assert text[|line|] == '\n' && forall k :: 0 <= k < |line| ==> text[k] == line[k];
    assert text[..|line|] == line && text[|line| + 1..] == rest;
  }

  /** Lines are written with the line ends of their file, and the last one perhaps without. */
  lemma {:induction false} WrittenAs(line: string, rest: seq<string>, terminated: bool)
    ensures rest != [] || terminated ==>
      && Written([line] + rest, Lf, terminated) == line + "\n" + Written(rest, Lf, terminated)
      && Written([line] + rest, CrLf, terminated) == line + "\r\n" + Written(rest, CrLf, terminated)
    ensures Written([line], Lf, false) == Written([line], CrLf, false) == line
    ensures Written([], Lf, terminated) == Written([], CrLf, terminated) == ""
  {
    assert ([line] + rest)[1..] == rest && [line][1..] == [];
    assert line + "" + "" == line;
  }

  // ---------------------------------------------------------------- tokens

  /** Only ordinary space, tabs and carriage returns are passed over. */
  lemma {:induction false} SpaceIsPassed(character: Character)
    ensures IsSkippable(character) <==>
            character.interpretation == Normal &&
                (character.value == ' ' || character.value == '\t' || character.value == '\r')
  {
  }

  /** A token of one byte: a protected one that is no letter, digit or underscore, whatever it is; or an ordinary one,
    told by
    the byte. */
  lemma {:induction false} OneByteTokens(characters: seq<Character>, position: nat)
    requires position < |characters|
    requires var c := characters[position].value; !IsLetter(c) && !IsDigit(c) && c != '_'
    ensures TokenEnd(characters, position) == position + 1
    ensures TokenAt(characters, position).lexeme == [characters[position].value]
    ensures var c := characters[position].value; var kind := TokenAt(characters, position).kind;
      if characters[position].interpretation == Interpretation.Literal then kind == SymbolToken
      else if c == ',' then kind == CommaToken
      else if c == '(' then kind == LeftParenthesisToken
      else if c == ')' then kind == RightParenthesisToken
      else if c == '\\' then kind == BackslashToken
      else if c == '\n' then kind == NewLineToken
      else if 32 <= c as int < 127 then kind == SymbolToken
      else kind == UnknownToken
  {
    assert Text(characters, position, position + 1) == [characters[position].value];
  }

  /** A run of digits is a number; a letter in front of one stands alone, and so does one at the end; other letters,
    digits
    and underscores behind a letter or an underscore make a word. The metadata does not matter. */
  lemma {:induction false} WordTokens(characters: seq<Character>, position: nat, stop: nat)
    requires position < stop <= |characters|
    requires forall k :: position <= k < stop ==> IsIdentifierPart(characters[k].value)
    requires stop < |characters| ==> !IsIdentifierPart(characters[stop].value)
    ensures var c := characters[position].value; var token := TokenAt(characters, position);
      if IsDigit(c) then
        && token.kind == NumberToken && IsNumber(token.lexeme)
        && var end := TokenEnd(characters, position); end <= stop && (end < stop ==> !IsDigit(characters[end].value))
      else if IsLetter(c) && (stop == position + 1 || IsDigit(characters[position + 1].value)) then
        token.kind == CommandToken && token.lexeme == [c] && TokenEnd(characters, position) == position + 1
      else token.kind == IdentifierToken && TokenEnd(characters, position) == stop
  {
    var c := characters[position].value;
    assert Text(characters, position, position + 1) == [c];
    if IsDigit(c) {
      DigitsStop(characters, position + 1, stop);
    } else {
      WordStops(characters, position + 1, stop);
    }
  }

  lemma {:induction false} DigitsStop(characters: seq<Character>, position: nat, stop: nat)
    requires position <= stop <= |characters|
    requires stop < |characters| ==> !IsIdentifierPart(characters[stop].value)
    ensures var end := RunEnd(characters, position, true);
      end <= stop && (end < stop ==> !IsDigit(characters[end].value))
    decreases stop - position
  {
    if position < stop && IsDigit(characters[position].value) {
      DigitsStop(characters, position + 1, stop);
    }
  }

  lemma {:induction false} WordStops(characters: seq<Character>, position: nat, stop: nat)
    requires position <= stop <= |characters| && forall k :: position <= k < stop ==>
             IsIdentifierPart(characters[k].value)
    requires stop < |characters| ==> !IsIdentifierPart(characters[stop].value)
    ensures RunEnd(characters, position, false) == stop
    decreases stop - position
  {
    if position < stop {
      WordStops(characters, position + 1, stop);
    }
  }

  /** Positions are counted: offsets from 0, and lines and columns from 1; a line feed is the last byte of its line. */
  lemma {:induction false} PositionsAre(input: seq<InputCharacter>, k: nat)
    requires k < |input|
    ensures var here := Located(input)[k];
      && here.value == input[k].value && here.interpretation == input[k].interpretation
      && here.location.offset == k && here.location.level == input[k].level
      && (k == 0 ==> here.location.line == here.location.column == 1)
      && (k + 1 < |input| ==>
            var next := Located(input)[k + 1].location;
            if here.value == '\n' then next.line == here.location.line + 1 && next.column == 1
            else next.line == here.location.line && next.column == here.location.column + 1)
  {
  }

  /** Sizes have 64 bits, and integers too. */
  lemma {:induction false} SizesAre()
    ensures MAX_SIZE == 18446744073709551615
  {
  }

  /** Past the end of the tokens there is always the end token. */
  lemma {:induction false} PastTheEnd(tokens: seq<Token>, index: nat)
    requires AreTokens(tokens)
    ensures index < |tokens| ==> TokenStreams.TokenFrom(tokens, index) == tokens[index]
    ensures index >= |tokens| ==> TokenStreams.TokenFrom(tokens, index).kind == EndToken
  {
  }
}
