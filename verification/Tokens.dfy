/** Located characters and the tokens made of them.

  Expanded input gets a location per character; a token carries the location and the
  interpretation of its first character. */
module Tokens {
  import opened Outcomes
  import opened Characters

  datatype SourceLocation = SourceLocation(offset: nat, line: nat, column: nat, level: nat)

  datatype Character = Character(value: char, location: SourceLocation, interpretation: Interpretation)

  datatype TokenType =
    | EndToken
    | IdentifierToken
    | NumberToken
    | CommandToken
    | CommaToken
    | LeftParenthesisToken
    | RightParenthesisToken
    | BackslashToken
    | NewLineToken
    | SymbolToken
    | UnknownToken

  datatype Token = Token(kind: TokenType, lexeme: string, location: SourceLocation, interpretation: Interpretation)

  // ---------------------------------------------------------------- locations

  /** The line on which a position lies, counted from 1. */
  function LineAt(input: seq<InputCharacter>, position: nat): nat
    requires position <= |input|
  {
    if position == 0 then 1
    else LineAt(input, position - 1) + if input[position - 1].value == '\n' then 1 else 0
  }

  /** The column of a position in its line, counted from 1. */
  function ColumnAt(input: seq<InputCharacter>, position: nat): (column: nat)
    requires position <= |input|
    ensures 1 <= column <= position + 1
  {
    if position == 0 || input[position - 1].value == '\n' then 1 else ColumnAt(input, position - 1) + 1
  }

  function LocationAt(input: seq<InputCharacter>, position: nat): SourceLocation
    requires position < |input|
  {
    SourceLocation(position, LineAt(input, position), ColumnAt(input, position), input[position].level)
  }

  function CharacterAt(input: seq<InputCharacter>, position: nat): Character
    requires position < |input|
  {
    Character(input[position].value, LocationAt(input, position), input[position].interpretation)
  }

  /** The characters of expanded input with their locations. */
  function Located(input: seq<InputCharacter>): (located: seq<Character>)
    ensures |located| == |input|
    ensures forall k :: 0 <= k < |input| ==> located[k] == CharacterAt(input, k)
  {
    seq(|input|, k requires 0 <= k < |input| => CharacterAt(input, k))
  }

  /** The location just behind the input; its level is that of the last character. */
  function EndLocation(input: seq<InputCharacter>): SourceLocation {
    SourceLocation(|input|, LineAt(input, |input|), ColumnAt(input, |input|),
                   if input == [] then 0 else input[|input| - 1].level)
  }

  /** The characters stand where they say: offsets count up, and columns count up within a line. */
  predicate IsLocated(characters: seq<Character>) {
    && (forall k :: 0 <= k < |characters| ==> characters[k].location.offset == k)
    && (forall k :: 0 < k < |characters| ==> ColumnFollows(characters, k))
  }

  predicate ColumnFollows(characters: seq<Character>, k: nat)
    requires 0 < k < |characters|
  {
    characters[k].location.column ==
    if characters[k - 1].value == '\n' then 1 else characters[k - 1].location.column + 1
  }

  lemma {:induction false} LocatedIsLocated(input: seq<InputCharacter>)
    ensures IsLocated(Located(input))
  {
  }

  /** Counts lines and columns along the input. */
  method Locate(input: seq<InputCharacter>) returns (located: seq<Character>, end: SourceLocation)
    ensures located == Located(input) && end == EndLocation(input)
  {
    hide Located;
    located := [];
    var line, column := 1, 1;
    for offset := 0 to |input|
      invariant |located| == offset
      invariant forall k :: 0 <= k < offset ==> located[k] == CharacterAt(input, k)
      invariant line == LineAt(input, offset) && column == ColumnAt(input, offset)
    {
      var source := input[offset];
      assert CharacterAt(input, offset) ==
             Character(source.value, SourceLocation(offset, line, column, source.level), source.interpretation);
      located := located + [Character(source.value, SourceLocation(offset, line, column, source.level),
                                      source.interpretation)];
      if source.value == '\n' {
        line, column := line + 1, 1;
      } else {
        column := column + 1;
      }
    }
    assert located == Located(input);
    end := SourceLocation(|input|, line, column, if input == [] then 0 else input[|input| - 1].level);
  }

  /** A cursor over located characters. */
  class FlowCharacterStream {
    const characters: seq<Character>
    const endLocation: SourceLocation
    var position: nat

    ghost predicate Valid()
      reads this
    {
      position <= |characters| && IsLocated(characters)
    }

    constructor (input: seq<InputCharacter>)
      ensures Valid() && position == 0 && characters == Located(input) && endLocation == EndLocation(input)
    {
      var located, end := Locate(input);
      LocatedIsLocated(input);
      characters := located;
      endLocation := end;
      position := 0;
    }

    function Peek(lookahead: nat): Option<Character>
      reads this
    {
      if position + lookahead < |characters| then Some(characters[position + lookahead]) else None
    }

    function Value(lookahead: nat): char
      reads this
    {
      if Peek(lookahead).Some? then Peek(lookahead).value.value else '\0'
    }

    predicate AtEnd()
      reads this
    {
      position >= |characters|
    }

    function Location(): SourceLocation
      reads this
    {
      if Peek(0).Some? then Peek(0).value.location else endLocation
    }

    method Consume() returns (character: Option<Character>)
      requires Valid()
      modifies this`position
      ensures Valid() && character == old(Peek(0))
      ensures position == if old(AtEnd()) then old(position) else old(position) + 1
    {
      if AtEnd() {
        return None;
      }
      position := position + 1;
      return Some(characters[position - 1]);
    }
  }
}
