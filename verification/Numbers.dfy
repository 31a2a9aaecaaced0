/** Decimal numbers of the machine's size type. */
module Numbers {
  import opened Outcomes
  import opened Characters

  const MAX_SIZE: nat := 0xFFFF_FFFF_FFFF_FFFF

  function DigitValue(c: char): nat
    requires IsDigit(c)
  {
    c as int - '0' as int
  }

  predicate IsNumber(lexeme: string) {
    forall k :: 0 <= k < |lexeme| ==> IsDigit(lexeme[k])
  }

  /** The number that decimal digits stand for. */
  function NumberValue(lexeme: string): nat
    requires IsNumber(lexeme)
  {
    if lexeme == "" then 0
    else NumberValue(lexeme[..|lexeme| - 1]) * 10 + DigitValue(lexeme[|lexeme| - 1])
  }

  /** Further digits never make a number smaller. */
  lemma {:induction false} PrefixIsSmaller(lexeme: string, k: nat)
    requires IsNumber(lexeme) && k <= |lexeme|
    ensures IsNumber(lexeme[..k]) && NumberValue(lexeme[..k]) <= NumberValue(lexeme)
    decreases |lexeme|
  {
    if k < |lexeme| {
      var before := lexeme[..|lexeme| - 1];
      assert before[..k] == lexeme[..k];
      PrefixIsSmaller(before, k);
    } else {
      assert lexeme[..k] == lexeme;
    }
  }

  /** The value of a number that fits the machine's size type; a larger one is refused, never wrapped. */
  method ParseNumber(lexeme: string) returns (number: Result<nat>)
    requires IsNumber(lexeme)
    ensures number == if NumberValue(lexeme) <= MAX_SIZE then Ok(NumberValue(lexeme)) else Fail
  {
    var value: nat := 0;
    for k := 0 to |lexeme|
      invariant value == NumberValue(lexeme[..k]) <= MAX_SIZE
    {
      var numeric := DigitValue(lexeme[k]);
      assert lexeme[..k + 1][..k] == lexeme[..k];
      PrefixIsSmaller(lexeme, k + 1);
      if value > (MAX_SIZE - numeric) / 10 {
        return Fail;
      }
      value := value * 10 + numeric;
    }
    assert lexeme[..|lexeme|] == lexeme;
    return Ok(value);
  }

  // ---------------------------------------------------------------- printing

  function Digit(value: nat): (c: char)
    requires value < 10
    ensures IsDigit(c) && DigitValue(c) == value
  {
    ('0' as int + value) as char
  }

  function Decimal(number: nat): (text: string)
    ensures text != "" && IsNumber(text)
  {
    if number < 10 then [Digit(number)] else Decimal(number / 10) + [Digit(number % 10)]
  }

  /** Reading a printed number gives the number. */
  lemma {:induction false} DecimalValue(number: nat)
    ensures NumberValue(Decimal(number)) == number
  {
    var text := Decimal(number);
    if number >= 10 {
      DecimalValue(number / 10);
      assert text[..|text| - 1] == Decimal(number / 10);
    } else {
      assert text[..|text| - 1] == "";
    }
  }
}
