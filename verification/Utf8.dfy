/** The UTF-8 validator, against the encoding defined in sections 3 and 4 of RFC 3629.

  A byte is a `char` with a code below 256; text with any other code is not valid UTF-8. */
module Utf8 {
  import opened Outcomes

  predicate IsScalar(v: nat) {
    v <= 0x10FFFF && !(0xD800 <= v <= 0xDFFF)
  }

  /** The bytes that encode one scalar value. */
  function Encode(v: nat): string
    requires IsScalar(v)
  {
    if v < 0x80 then [v as char]
    else if v < 0x800 then [(0xC0 + v / 64) as char, (0x80 + v % 64) as char]
    else if v < 0x10000 then
      [(0xE0 + v / 4096) as char, (0x80 + v / 64 % 64) as char, (0x80 + v % 64) as char]
    else
      [(0xF0 + v / 262144) as char, (0x80 + v / 4096 % 64) as char, (0x80 + v / 64 % 64) as char,
       (0x80 + v % 64) as char]
  }

  predicate AllScalars(vs: seq<nat>) {
    forall k :: 0 <= k < |vs| ==> IsScalar(vs[k])
  }

  function EncodeAll(vs: seq<nat>): string
    requires AllScalars(vs)
  {
    if vs == [] then "" else Encode(vs[0]) + EncodeAll(vs[1..])
  }

  // ---------------------------------------------------------------- reading one sequence

  predicate IsContinuation(c: char) {
    0x80 <= c as int <= 0xBF
  }

  /** The length that a leading byte announces and the bits that it carries; no byte below 0xC2,
    between 0x80 and 0xC1 or above 0xF4 leads a sequence. */
  function Lead(first: char): Option<(nat, nat)> {
    var b := first as int;
    if b <= 0x7F then Some((1, b))
    else if 0xC2 <= b <= 0xDF then Some((2, b - 0xC0))
    else if 0xE0 <= b <= 0xEF then Some((3, b - 0xE0))
    else if 0xF0 <= b <= 0xF4 then Some((4, b - 0xF0))
    else None
  }

  /** The value after shifting in the six bits of each continuation byte. */
  function Continued(text: string, offset: nat, length: nat, value: nat): Option<nat>
    requires offset <= length <= |text|
    decreases length - offset
  {
    if offset == length then Some(value)
    else if !IsContinuation(text[offset]) then None
    else Continued(text, offset + 1, length, value * 64 + (text[offset] as int - 0x80))
  }

  /** Overlong forms, surrogates and values above 0x10FFFF are refused. */
  predicate IsAllowed(length: nat, value: nat) {
    && !(length == 3 && value < 0x800)
    && !(length == 4 && value < 0x10000)
    && !(0xD800 <= value <= 0xDFFF)
    && value <= 0x10FFFF
  }

  /** The scalar value at the start of `text` and its length in bytes. */
  function DecodeFirst(text: string): (r: Option<(nat, nat)>)
    requires text != ""
    ensures r.Some? ==> 0 < r.value.1 <= |text|
  {
    match Lead(text[0])
    case None => None
    case Some(lead) =>
      if lead.0 > |text| then None
      else match Continued(text, 1, lead.0, lead.1)
        case None => None
        case Some(value) => if IsAllowed(lead.0, value) then Some((value, lead.0)) else None
  }

  function Decoded(text: string): Option<seq<nat>> {
    if text == "" then Some([])
    else match DecodeFirst(text)
      case None => None
      case Some(first) =>
        match Decoded(text[first.1..])
        case None => None
        case Some(rest) => Some([first.0] + rest)
  }

  predicate IsValid(text: string) {
    Decoded(text).Some?
  }

  method IsValidUtf8(text: string) returns (valid: bool)
    ensures valid <==> exists vs: seq<nat> :: AllScalars(vs) && EncodeAll(vs) == text
  {
    ValidIffEncoded(text);
    hide Encode, EncodeAll;
    var index := 0;
    assert text[0..] == text;
    while index < |text|
      invariant 0 <= index <= |text|
      invariant IsValid(text) == IsValid(text[index..])
    {
      ghost var rest := text[index..];
      assert forall k :: 0 <= k < |rest| ==> rest[k] == text[index + k];
      var first := text[index] as int;
      if first <= 0x7F {
        assert DecodeFirst(rest) == Some((first, 1));
        assert rest[1..] == text[index + 1..];
        index := index + 1;
        continue;
      }
      var length, codePoint := 0, 0;
      if 0xC2 <= first <= 0xDF {
        length, codePoint := 2, first - 0xC0;
      } else if 0xE0 <= first <= 0xEF {
        length, codePoint := 3, first - 0xE0;
      } else if 0xF0 <= first <= 0xF4 {
        length, codePoint := 4, first - 0xF0;
      } else {
        return false;
      }
      if index + length > |text| {
        return false;
      }
      var value := ReadContinuations(text, index, length, codePoint);
      if value.None? {
        return false;
      }
      codePoint := value.value;
      if (length == 3 && codePoint < 0x800) || (length == 4 && codePoint < 0x10000)
         || 0xD800 <= codePoint <= 0xDFFF || codePoint > 0x10FFFF {
        return false;
      }
      assert rest[length..] == text[index + length..];
      index := index + length;
    }
    return true;
  }

  /** Shifts in the continuation bytes of a sequence. */
  method ReadContinuations(text: string, index: nat, length: nat, lead: nat) returns (value: Option<nat>)
    requires 1 <= length && index + length <= |text|
    ensures value == Continued(text[index..], 1, length, lead)
  {
    ghost var rest := text[index..];
    var codePoint := lead;
    var offset := 1;
    while offset < length
      invariant 1 <= offset <= length && codePoint >= 0
      invariant Continued(rest, 1, length, lead) == Continued(rest, offset, length, codePoint)
    {
      var continuation := text[index + offset];
      if !IsContinuation(continuation) {
        return None;
      }
      codePoint := codePoint * 64 + (continuation as int - 0x80);
      offset := offset + 1;
    }
    return Some(codePoint);
  }

  // ---------------------------------------------------------------- the validator accepts exactly the encodings

  /** A sequence that is accepted is the encoding of its value. */
  lemma {:induction false} DecodedIsEncoding(text: string)
    requires text != "" && DecodeFirst(text).Some?
    ensures var first := DecodeFirst(text).value; IsScalar(first.0) && text[..first.1] == Encode(first.0)
  {
    var lead := Lead(text[0]).value;
    var value, length := DecodeFirst(text).value.0, DecodeFirst(text).value.1;
    if length == 2 {
      assert Continued(text, 2, 2, lead.1 * 64 + (text[1] as int - 0x80)) == Some(value);
      TwoBytes(text[0], text[1]);
    } else if length == 3 {
      assert Continued(text, 2, 3, lead.1 * 64 + (text[1] as int - 0x80)) == Some(value);
      assert Continued(text, 3, 3, (lead.1 * 64 + (text[1] as int - 0x80)) * 64 + (text[2] as int - 0x80)) ==
             Some(value);
      ThreeBytes(text[0], text[1], text[2]);
    } else if length == 4 {
      assert Continued(text, 2, 4, lead.1 * 64 + (text[1] as int - 0x80)) == Some(value);
      assert Continued(text, 3, 4, (lead.1 * 64 + (text[1] as int - 0x80)) * 64 + (text[2] as int - 0x80)) ==
             Some(value);
      FourBytes(text[0], text[1], text[2], text[3]);
    }
  }

  lemma {:induction false} TwoBytes(a: char, b: char)
    requires 0xC2 <= a as int <= 0xDF && IsContinuation(b)
    ensures var v := (a as int - 0xC0) * 64 + (b as int - 0x80);
      IsScalar(v) && Encode(v) == [a, b]
  {
  }

  lemma {:induction false} ThreeBytes(a: char, b: char, c: char)
    requires 0xE0 <= a as int <= 0xEF && IsContinuation(b) && IsContinuation(c)
    ensures var v := ((a as int - 0xE0) * 64 + (b as int - 0x80)) * 64 + (c as int - 0x80);
      IsAllowed(3, v) ==> IsScalar(v) && Encode(v) == [a, b, c]
  {
    var v := ((a as int - 0xE0) * 64 + (b as int - 0x80)) * 64 + (c as int - 0x80);
    assert v / 64 == (a as int - 0xE0) * 64 + (b as int - 0x80);
  }

  lemma {:induction false} FourBytes(a: char, b: char, c: char, d: char)
    requires 0xF0 <= a as int <= 0xF4 && IsContinuation(b) && IsContinuation(c) && IsContinuation(d)
    ensures var v := (((a as int - 0xF0) * 64 + (b as int - 0x80)) * 64 + (c as int - 0x80)) * 64 + (d as int - 0x80);
      IsAllowed(4, v) ==> IsScalar(v) && Encode(v) == [a, b, c, d]
  {
    var v := (((a as int - 0xF0) * 64 + (b as int - 0x80)) * 64 + (c as int - 0x80)) * 64 + (d as int - 0x80);
    SixBitGroups(a as int - 0xF0, b as int - 0x80, c as int - 0x80, d as int - 0x80);
    assert v / 262144 == a as int - 0xF0;
  }

  /** The groups of six bits of a number put together from them. */
  lemma {:induction false} SixBits(high: nat, low: nat)
    requires low < 64
    ensures (high * 64 + low) / 64 == high && (high * 64 + low) % 64 == low
  {
  }

  lemma {:induction false} SixBitGroups(p: nat, q: nat, r: nat, s: nat)
    requires q < 64 && r < 64 && s < 64
    ensures var v := ((p * 64 + q) * 64 + r) * 64 + s;
      v / 262144 == p && v / 4096 % 64 == q && v / 64 % 64 == r && v % 64 == s
  {
    var v := ((p * 64 + q) * 64 + r) * 64 + s;
    SixBits((p * 64 + q) * 64 + r, s);
    SixBits(p * 64 + q, r);
    SixBits(p, q);
    assert v / 4096 == v / 64 / 64 && v / 262144 == v / 64 / 64 / 64;
  }

  /** The encoding of every scalar value is accepted, whatever follows it. */
  lemma {:induction false} EncodingIsDecoded(v: nat, rest: string)
    requires IsScalar(v)
    ensures DecodeFirst(Encode(v) + rest) == Some((v, |Encode(v)|))
  {
    if v < 0x80 {
    } else if v < 0x800 {
      assert Continued(Encode(v) + rest, 2, 2, v) == Some(v);
    } else if v < 0x10000 {
      ThreeBytesAreDecoded(v, rest);
    } else {
      FourBytesAreDecoded(v, rest);
    }
  }

  lemma {:induction false} ThreeBytesAreDecoded(v: nat, rest: string)
    requires IsScalar(v) && 0x800 <= v < 0x10000
    ensures DecodeFirst(Encode(v) + rest) == Some((v, 3))
  {
    var text := Encode(v) + rest;
    assert v / 4096 * 64 + v / 64 % 64 == v / 64;
    assert Continued(text, 3, 3, v) == Some(v);
    assert Continued(text, 2, 3, v / 64) == Some(v);
  }

  lemma {:induction false} FourBytesAreDecoded(v: nat, rest: string)
    requires IsScalar(v) && 0x10000 <= v
    ensures DecodeFirst(Encode(v) + rest) == Some((v, 4))
  {
    hide DecodeFirst;
    TogetherAgain(v);
    FourGroupsAreDecoded(Encode(v) + rest, v / 262144, v / 4096 % 64, v / 64 % 64, v % 64);
  }

  /** A number is put together from its groups of six bits. */
  lemma {:induction false} TogetherAgain(v: nat)
    ensures v == ((v / 262144 * 64 + v / 4096 % 64) * 64 + v / 64 % 64) * 64 + v % 64
  {
    NestedDivision(v);
    NestedDivision(v / 64);
  }

  lemma {:induction false} NestedDivision(v: nat)
    ensures v == v / 64 * 64 + v % 64
    ensures v / 4096 == v / 64 / 64 && v / 262144 == v / 64 / 4096
  {
    var high, low := v / 64, v % 64;
    assert v == high * 64 + low;
    assert v / 4096 == high / 64;
    assert v / 262144 == high / 4096;
  }

  lemma {:induction false} FourGroupsAreDecoded(text: string, p: nat, q: nat, r: nat, s: nat)
    requires |text| >= 4 && p <= 4 && q < 64 && r < 64 && s < 64
    requires text[0] as int == 0xF0 + p && text[1] as int == 0x80 + q && text[2] as int == 0x80 + r &&
             text[3] as int == 0x80 + s
    requires IsAllowed(4, ((p * 64 + q) * 64 + r) * 64 + s)
    ensures DecodeFirst(text) == Some((((p * 64 + q) * 64 + r) * 64 + s, 4))
  {
    var v := ((p * 64 + q) * 64 + r) * 64 + s;
    assert Continued(text, 4, 4, v) == Some(v);
    assert Continued(text, 3, 4, (p * 64 + q) * 64 + r) == Some(v);
    assert Continued(text, 2, 4, p * 64 + q) == Some(v);
  }

  lemma {:induction false} EncodedIsDecoded(vs: seq<nat>)
    requires AllScalars(vs)
    ensures Decoded(EncodeAll(vs)) == Some(vs)
  {
    if vs != [] {
      var code, rest := Encode(vs[0]), EncodeAll(vs[1..]);
      EncodingIsDecoded(vs[0], rest);
      EncodedIsDecoded(vs[1..]);
      assert (code + rest)[|code|..] == rest;
      assert [vs[0]] + vs[1..] == vs;
    }
  }

  lemma {:induction false} DecodedIsEncoded(text: string)
    requires IsValid(text)
    ensures AllScalars(Decoded(text).value) && EncodeAll(Decoded(text).value) == text
  {
    hide DecodeFirst, Encode, IsScalar;
    if text != "" {
      var first := DecodeFirst(text).value;
      DecodedIsEncoding(text);
      DecodedIsEncoded(text[first.1..]);
      var vs := Decoded(text).value;
      assert vs[0] == first.0 && vs[1..] == Decoded(text[first.1..]).value;
      assert text == text[..first.1] + text[first.1..];
    }
  }

  /** Valid text is exactly the text that encodes some sequence of scalar values. */
  lemma {:induction false} ValidIffEncoded(text: string)
    ensures IsValid(text) <==> exists vs: seq<nat> :: AllScalars(vs) && EncodeAll(vs) == text
  {
    if IsValid(text) {
      DecodedIsEncoded(text);
    }
    if vs: seq<nat> :| AllScalars(vs) && EncodeAll(vs) == text {
      EncodedIsDecoded(vs);
    }
  }

  /** A text encodes at most one sequence of scalar values. */
  lemma {:induction false} EncodingIsUnique(vs: seq<nat>, ws: seq<nat>)
    requires AllScalars(vs) && AllScalars(ws) && EncodeAll(vs) == EncodeAll(ws)
    ensures vs == ws
  {
    EncodedIsDecoded(vs);
    EncodedIsDecoded(ws);
  }

  // ---------------------------------------------------------------- cutting valid text at ASCII bytes

  /** An ASCII byte is never inside an encoded sequence. */
  lemma {:induction false} FirstWithinLeft(left: string, c: char, right: string)
    requires left != "" && c as int <= 0x7F
    ensures DecodeFirst(left + [c] + right) == DecodeFirst(left)
  {
    var text := left + [c] + right;
    var lead := Lead(left[0]);
    if lead.Some? {
      if lead.value.0 <= |left| {
        SameContinuation(left, text, 1, lead.value.0, lead.value.1);
      } else if lead.value.0 <= |text| {
        BrokenContinuation(text, |left|, 1, lead.value.0, lead.value.1);
      }
    }
  }

  lemma {:induction false} SameContinuation(left: string, text: string, offset: nat, length: nat, value: nat)
    requires offset <= length <= |left| <= |text| && text[..|left|] == left
    ensures Continued(text, offset, length, value) == Continued(left, offset, length, value)
    decreases length - offset
  {
    if offset < length {
      assert text[offset] == text[..|left|][offset];
      if IsContinuation(left[offset]) {
        SameContinuation(left, text, offset + 1, length, value * 64 + (left[offset] as int - 0x80));
      }
    }
  }

  lemma {:induction false} BrokenContinuation(text: string, at: nat, offset: nat, length: nat, value: nat)
    requires offset <= at < length <= |text| && !IsContinuation(text[at])
    ensures Continued(text, offset, length, value) == None
    decreases length - offset
  {
    if offset < at && IsContinuation(text[offset]) {
      BrokenContinuation(text, at, offset + 1, length, value * 64 + (text[offset] as int - 0x80));
    }
  }

  /** Text cut at an ASCII byte is valid exactly when both parts are. */
  lemma {:induction false} ValidCut(left: string, c: char, right: string)
    requires c as int <= 0x7F
    ensures IsValid(left + [c] + right) <==> IsValid(left) && IsValid(right)
    decreases |left|
  {
    var text := left + [c] + right;
    if left == "" {
      assert text[1..] == right;
      assert DecodeFirst(text) == Some((c as int, 1));
    } else {
      FirstWithinLeft(left, c, right);
      var first := DecodeFirst(left);
      if first.Some? {
        assert text[first.value.1..] == left[first.value.1..] + [c] + right;
        ValidCut(left[first.value.1..], c, right);
      }
    }
  }

  lemma {:induction false} AsciiIsValid(text: string)
    requires forall k :: 0 <= k < |text| ==> text[k] as int <= 0x7F
    ensures IsValid(text)
  {
    if text != "" {
      AsciiIsValid(text[1..]);
      ValidCut("", text[0], text[1..]);
      assert "" + [text[0]] + text[1..] == text;
    }
  }
}
