/** What full-flow expansion means, as recursive substitution over text.

  `\B(name)` stands for the expansion of the named buffer, one level deeper; `\S(name)` and
  `\L(name)` stand for its literal text, without and with line ends. `maxDepth` bounds how
  many sources may be active at once, so that a buffer that names itself cannot go on forever. */
module FlowSemantics {
  import opened Outcomes
  import opened Limits

  /** The lines of every live buffer, by name. */
  type Buffers = map<string, seq<string>>

  /** The bytes a buffer contributes: its lines, each followed by a line end if asked. */
  function BufferText(lines: seq<string>, newlines: bool): string {
    if lines == [] then ""
    else lines[0] + (if newlines then "\n" else "") + BufferText(lines[1..], newlines)
  }

  // ---------------------------------------------------------------- buffer names

  /** A parenthesised buffer name at the start of `text`, and the text after it. */
  function ParseName(text: string, buffers: Buffers, maxDepth: nat, nesting: nat): (r: Result<(string, string)>)
    ensures r.Ok? ==> |r.value.1| < |text|
    decreases |text|, 0
  {
    if text == "" || text[0] != '(' then Fail else NameBody(text[1..], "", buffers, maxDepth, nesting)
  }

  /** The rest of a name of which `name` has been read. `\C` protects the next byte and `\S(...)`
    inserts a buffer's text; other escapes stand for themselves. */
  function NameBody(text: string, name: string, buffers: Buffers, maxDepth: nat, nesting: nat):
    (r: Result<(string, string)>)
    ensures r.Ok? ==> |r.value.1| < |text|
    decreases |text|, 1
  {
    if text == "" then Fail
    else if text[0] == '\\' then
      if |text| == 1 then Fail
      else if text[1] in {'C', 'c'} then
        if |text| == 2 then Fail else NameBody(text[3..], name + [text[2]], buffers, maxDepth, nesting)
      else if text[1] in {'S', 's'} then
        if nesting >= maxDepth then Fail
        else
          var (nested, rest) :- ParseName(text[2..], buffers, maxDepth, nesting + 1);
          if |nested| > MAX_BUFFER_NAME_LENGTH || nested !in buffers then Fail
          else NameBody(rest, name + BufferText(buffers[nested], false), buffers, maxDepth, nesting)
      else NameBody(text[2..], name + text[..2], buffers, maxDepth, nesting)
    else if text[0] == ')' then
      if name == "" || |name| > MAX_BUFFER_NAME_LENGTH then Fail else Ok((name, text[1..]))
    else if text[0] == '\n' then Fail
    else NameBody(text[1..], name + [text[0]], buffers, maxDepth, nesting)
  }

  /** What follows a name is a final piece of the text. */
  lemma {:induction false} NameLeavesSuffix(text: string, name: string, buffers: Buffers, maxDepth: nat, nesting: nat)
    requires NameBody(text, name, buffers, maxDepth, nesting).Ok?
    ensures var rest := NameBody(text, name, buffers, maxDepth, nesting).value.1; rest == text[|text| - |rest|..]
    decreases |text|
  {
    if text[0] == '\\' {
      if text[1] in {'C', 'c'} {
        NameLeavesSuffix(text[3..], name + [text[2]], buffers, maxDepth, nesting);
      } else if text[1] in {'S', 's'} {
        NameLeavesSuffix(text[2..][1..], "", buffers, maxDepth, nesting + 1);
        var inner := ParseName(text[2..], buffers, maxDepth, nesting + 1).value;
        NameLeavesSuffix(inner.1, name + BufferText(buffers[inner.0], false), buffers, maxDepth, nesting);
      } else {
        NameLeavesSuffix(text[2..], name + text[..2], buffers, maxDepth, nesting);
      }
    } else if text[0] != ')' {
      NameLeavesSuffix(text[1..], name + [text[0]], buffers, maxDepth, nesting);
    }
  }

  // ---------------------------------------------------------------- expansion

  /** Both texts one after the other, if neither failed. */
  function Join(first: Result<string>, second: Result<string>): Result<string> {
    if first.Ok? && second.Ok? then Ok(first.value + second.value) else Fail
  }

  /** The buffer named after a directive at `level`, if it exists and one more source may be active. */
  function Injected(text: string, level: nat, buffers: Buffers, maxDepth: nat): (r: Result<(seq<string>, string)>)
    ensures r.Ok? ==> |r.value.1| < |text| && level + 1 < maxDepth
  {
    var (name, rest) :- ParseName(text, buffers, maxDepth, 0);
    if name !in buffers || level + 1 >= maxDepth then Fail else Ok((buffers[name], rest))
  }

  /** The expansion of `text` read at the given level. */
  function Flow(text: string, level: nat, buffers: Buffers, maxDepth: nat): Result<string>
    decreases maxDepth - level, |text|
  {
    if text == "" then Ok("")
    else if text[0] != '\\' then Join(Ok([text[0]]), Flow(text[1..], level, buffers, maxDepth))
    else if |text| == 1 then Ok("\\")
    else match text[1]
      case '\\' => Join(Ok("\\"), Flow(text[2..], level, buffers, maxDepth))
      case 'C' | 'c' | 'O' | 'o' =>
        if |text| == 2 then Fail else Join(Ok([text[2]]), Flow(text[3..], level, buffers, maxDepth))
      case 'B' | 'b' =>
        var (lines, rest) :- Injected(text[2..], level, buffers, maxDepth);
        Join(Flow(BufferText(lines, true), level + 1, buffers, maxDepth), Flow(rest, level, buffers, maxDepth))
      case 'S' | 's' =>
        var (lines, rest) :- Injected(text[2..], level, buffers, maxDepth);
        Join(Ok(BufferText(lines, false)), Flow(rest, level, buffers, maxDepth))
      case 'L' | 'l' =>
        var (lines, rest) :- Injected(text[2..], level, buffers, maxDepth);
        Join(Ok(BufferText(lines, true)), Flow(rest, level, buffers, maxDepth))
      case _ => Join(Ok(text[..2]), Flow(text[2..], level, buffers, maxDepth))
  }

  // ---------------------------------------------------------------- properties of expansion

  /** Every byte of `text` made literal by a `\C` in front of it. */
  function Protected(text: string): string {
    if text == "" then "" else ['\\', 'C', text[0]] + Protected(text[1..])
  }

  /** Protected text expands to itself, whatever it contains. */
  lemma {:induction false} ProtectedFlow(text: string, level: nat, buffers: Buffers, maxDepth: nat)
    ensures Flow(Protected(text), level, buffers, maxDepth) == Ok(text)
  {
    if text != "" {
      ProtectedFlow(text[1..], level, buffers, maxDepth);
      assert Protected(text)[3..] == Protected(text[1..]);
      assert [text[0]] + text[1..] == text;
    }
  }

  /** A larger depth bound lets no name fail that succeeded before, and changes none. */
  lemma {:induction false} NameDepthMonotone(text: string, name: string, buffers: Buffers, small: nat, big: nat,
                                             nesting: nat)
    requires small <= big && NameBody(text, name, buffers, small, nesting).Ok?
    ensures NameBody(text, name, buffers, big, nesting) == NameBody(text, name, buffers, small, nesting)
    decreases |text|
  {
    if text[0] == '\\' {
      if text[1] in {'C', 'c'} {
        NameDepthMonotone(text[3..], name + [text[2]], buffers, small, big, nesting);
      } else if text[1] in {'S', 's'} {
        NameDepthMonotone(text[2..][1..], "", buffers, small, big, nesting + 1);
        var inner := ParseName(text[2..], buffers, small, nesting + 1).value;
        NameDepthMonotone(inner.1, name + BufferText(buffers[inner.0], false), buffers, small, big, nesting);
      } else {
        NameDepthMonotone(text[2..], name + text[..2], buffers, small, big, nesting);
      }
    } else if text[0] != ')' {
      NameDepthMonotone(text[1..], name + [text[0]], buffers, small, big, nesting);
    }
  }

  lemma {:induction false} InjectedDepthMonotone(text: string, level: nat, buffers: Buffers, small: nat, big: nat)
    requires small <= big && Injected(text, level, buffers, small).Ok?
    ensures Injected(text, level, buffers, big) == Injected(text, level, buffers, small)
  {
    NameDepthMonotone(text[1..], "", buffers, small, big, 0);
  }

  /** The depth bound only decides whether expansion succeeds, never what it yields. */
  lemma {:induction false} FlowDepthMonotone(text: string, level: nat, buffers: Buffers, small: nat, big: nat)
    requires small <= big && Flow(text, level, buffers, small).Ok?
    ensures Flow(text, level, buffers, big) == Flow(text, level, buffers, small)
    decreases small - level, |text|
  {
    if text != "" && text[0] != '\\' {
      FlowDepthMonotone(text[1..], level, buffers, small, big);
    } else if |text| > 1 {
      match text[1]
      case '\\' => FlowDepthMonotone(text[2..], level, buffers, small, big);
      case 'C' | 'c' | 'O' | 'o' => FlowDepthMonotone(text[3..], level, buffers, small, big);
      case 'B' | 'b' =>
        InjectedDepthMonotone(text[2..], level, buffers, small, big);
        var injected := Injected(text[2..], level, buffers, small).value;
        FlowDepthMonotone(BufferText(injected.0, true), level + 1, buffers, small, big);
        FlowDepthMonotone(injected.1, level, buffers, small, big);
      case 'S' | 's' | 'L' | 'l' =>
        InjectedDepthMonotone(text[2..], level, buffers, small, big);
        FlowDepthMonotone(Injected(text[2..], level, buffers, small).value.1, level, buffers, small, big);
      case _ => FlowDepthMonotone(text[2..], level, buffers, small, big);
    }
  }

  /** A name that can be written as it is between parentheses. */
  predicate IsPlainName(name: string) {
    0 < |name| <= MAX_BUFFER_NAME_LENGTH && forall k :: 0 <= k < |name| ==> name[k] !in {'\\', ')', '\n'}
  }

  lemma {:induction false} PlainNameParses(name: string, k: nat, rest: string, buffers: Buffers, maxDepth: nat,
                                           nesting: nat)
    requires IsPlainName(name) && k <= |name|
    ensures NameBody(name[k..] + ")" + rest, name[..k], buffers, maxDepth, nesting) == Ok((name, rest))
    decreases |name| - k
  {
    var text := name[k..] + ")" + rest;
    if k == |name| {
      assert text == ")" + rest && text[1..] == rest && name[..k] == name;
    } else {
      assert text[0] == name[k] && text[1..] == name[k + 1..] + ")" + rest;
      assert name[..k] + [name[k]] == name[..k + 1];
      PlainNameParses(name, k + 1, rest, buffers, maxDepth, nesting);
    }
  }

  /** Expanding `text` comes to an active inclusion of one of the given buffers, unless it fails before. */
  predicate Includes(text: string, names: set<string>, buffers: Buffers, maxDepth: nat)
    decreases |text|
  {
    if |text| < 2 then false
    else if text[0] != '\\' then Includes(text[1..], names, buffers, maxDepth)
    else match text[1]
      case 'C' | 'c' | 'O' | 'o' => |text| > 2 && Includes(text[3..], names, buffers, maxDepth)
      case 'B' | 'b' =>
        var parsed := ParseName(text[2..], buffers, maxDepth, 0);
        parsed.Ok? && (parsed.value.0 in names || Includes(parsed.value.1, names, buffers, maxDepth))
      case 'S' | 's' | 'L' | 'l' =>
        var parsed := ParseName(text[2..], buffers, maxDepth, 0);
        parsed.Ok? && Includes(parsed.value.1, names, buffers, maxDepth)
      case _ => Includes(text[2..], names, buffers, maxDepth)
  }

  /** Buffers that include themselves, directly or through each other, never expand at any level, whatever else they
    hold. */
  lemma {:induction false} CyclicInclusionFails(names: set<string>, name: string, level: nat, buffers: Buffers,
                                                maxDepth: nat)
    requires name in names && names <= buffers.Keys
    requires forall n :: n in names ==> Includes(BufferText(buffers[n], true), names, buffers, maxDepth)
    ensures Flow(BufferText(buffers[name], true), level, buffers, maxDepth).Fail?
    decreases maxDepth - level
  {
    hide Flow, Includes;
    if level + 1 < maxDepth {
      forall n | n in names ensures Flow(BufferText(buffers[n], true), level + 1, buffers, maxDepth).Fail? {
        CyclicInclusionFails(names, n, level + 1, buffers, maxDepth);
      }
    }
    InclusionFails(BufferText(buffers[name], true), names, level, buffers, maxDepth);
  }

  /** An inclusion fails when the included buffer does, or when it would be too deep. */
  lemma {:induction false} InclusionFails(text: string, names: set<string>, level: nat, buffers: Buffers, maxDepth: nat)
    requires Includes(text, names, buffers, maxDepth) && names <= buffers.Keys
    requires level + 1 < maxDepth ==>
      forall n :: n in names ==> Flow(BufferText(buffers[n], true), level + 1, buffers, maxDepth).Fail?
    ensures Flow(text, level, buffers, maxDepth).Fail?
    decreases |text|
  {
    if text[0] != '\\' {
      InclusionFails(text[1..], names, level, buffers, maxDepth);
    } else {
      match text[1]
      case 'C' | 'c' | 'O' | 'o' => InclusionFails(text[3..], names, level, buffers, maxDepth);
      case 'B' | 'b' =>
        var parsed := ParseName(text[2..], buffers, maxDepth, 0).value;
        if parsed.0 !in names {
          InclusionFails(parsed.1, names, level, buffers, maxDepth);
        }
      case 'S' | 's' | 'L' | 'l' =>
        InclusionFails(ParseName(text[2..], buffers, maxDepth, 0).value.1, names, level, buffers, maxDepth);
      case _ => InclusionFails(text[2..], names, level, buffers, maxDepth);
    }
  }

  /** A name that is written as it is between parentheses is read at every depth bound. */
  lemma {:induction false} PlainInclusion(prefix: string, name: string, rest: string, names: set<string>,
                                          buffers: Buffers, maxDepth: nat)
    requires (forall k :: 0 <= k < |prefix| ==> prefix[k] != '\\') && IsPlainName(name) && name in names
    ensures Includes(prefix + ("\\B(" + name + ")" + rest), names, buffers, maxDepth)
  {
    var text := prefix + ("\\B(" + name + ")" + rest);
    if prefix == "" {
      PlainNameParses(name, 0, rest, buffers, maxDepth, 0);
      assert name[0..] == name && name[..0] == "";
      assert text[2..][1..] == name + ")" + rest;
    } else {
      assert text[1..] == prefix[1..] + ("\\B(" + name + ")" + rest);
      PlainInclusion(prefix[1..], name, rest, names, buffers, maxDepth);
    }
  }
}
