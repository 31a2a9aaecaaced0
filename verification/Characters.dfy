/** Per-byte metadata that survives from flow expansion to the lexer and the pattern parser. */
module Characters {

  /** How a byte is to be read: ordinary, protected from structure, or forced to be structural. */
  datatype Interpretation = Normal | Literal | ForcedSpecial

  datatype InputCharacter = InputCharacter(value: char, level: nat, interpretation: Interpretation)

  /** The bytes of a run of characters, without their metadata. */
  function Values(characters: seq<InputCharacter>): (values: string)
    ensures |values| == |characters|
    ensures forall k :: 0 <= k < |values| ==> values[k] == characters[k].value
  {
    seq(|characters|, k requires 0 <= k < |characters| => characters[k].value)
  }

  predicate IsDigit(c: char) {
    '0' <= c <= '9'
  }

  predicate IsLetter(c: char) {
    'a' <= c <= 'z' || 'A' <= c <= 'Z'
  }

  /** `std::isspace` in the C locale. */
  predicate IsSpace(c: char) {
    c == ' ' || 9 <= c as int <= 13
  }

  /** `std::toupper` in the C locale. */
  function Upper(c: char): char {
    if 'a' <= c <= 'z' then (c as int - 32) as char else c
  }
}
