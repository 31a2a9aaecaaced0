/** Global substitution: which matches are replaced, and what the new text is. */
module Substitution {
  import opened Outcomes
  import opened Patterns
  import opened PatternMatcher
  import opened LiteralPatterns

  // ---------------------------------------------------------------- the replacement text

  /** `\x` stands for `x`, `&` for the matched text, and every other byte for itself. */
  function Expanded(replacement: string, matched: string): string {
    if replacement == "" then ""
    else if replacement[0] == '\\' && |replacement| > 1 then [replacement[1]] + Expanded(replacement[2..], matched)
    else if replacement[0] == '&' then matched + Expanded(replacement[1..], matched)
    else [replacement[0]] + Expanded(replacement[1..], matched)
  }

  method ExpandSubstitutionReplacement(replacement: string, matched: string) returns (result: string)
    ensures result == Expanded(replacement, matched)
  {
    hide Expanded;
    result := "";
    var index := 0;
    assert replacement[0..] == replacement;
    while index < |replacement|
      invariant 0 <= index <= |replacement|
      invariant Expanded(replacement, matched) == result + Expanded(replacement[index..], matched)
    {
      ExpandedStep(replacement, index, matched, result);
      var value := replacement[index];
      if value == '\\' && index + 1 < |replacement| {
        index := index + 1;
        result := result + [replacement[index]];
      } else if value == '&' {
        result := result + matched;
      } else {
        result := result + [value];
      }
      index := index + 1;
    }
    assert replacement[index..] == "";
    ExpandedEmpty(matched);
  }

  lemma {:induction false} ExpandedEmpty(matched: string)
    ensures Expanded("", matched) == ""
  {
  }

  lemma {:induction false} ExpandedStep(replacement: string, index: nat, matched: string, result: string)
    requires index < |replacement|
    ensures var value := replacement[index];
      result + Expanded(replacement[index..], matched) ==
      if value == '\\' && index + 1 < |replacement| then
        result + [replacement[index + 1]] + Expanded(replacement[index + 2..], matched)
      else
        result + (if value == '&' then matched else [value]) + Expanded(replacement[index + 1..], matched)
  {
    var rest := replacement[index..];
    assert rest[0] == replacement[index] && rest[1..] == replacement[index + 1..];
    if |rest| > 1 {
      assert rest[1] == replacement[index + 1] && rest[2..] == replacement[index + 2..];
    }
    var escaped := rest[0] == '\\' && |rest| > 1;
    var piece := if escaped then [rest[1]] else if rest[0] == '&' then matched else [rest[0]];
    var after := if escaped then rest[2..] else rest[1..];
    assert Expanded(rest, matched) == piece + Expanded(after, matched);
    hide *;
    assert result + (piece + Expanded(after, matched)) == result + piece + Expanded(after, matched);
  }

  /** Every byte of `w` preceded by a backslash. */
  function Escaped(w: string): string {
    if w == "" then "" else ['\\', w[0]] + Escaped(w[1..])
  }

  /** An escaped replacement stands for its own bytes, whatever was matched. */
  lemma {:induction false} EscapedIsVerbatim(w: string, matched: string)
    ensures Expanded(Escaped(w), matched) == w
  {
    if w != "" {
      EscapedIsVerbatim(w[1..], matched);
      assert Escaped(w)[2..] == Escaped(w[1..]);
    }
  }

  // ---------------------------------------------------------------- the matches that are replaced

  /** The longest end of a match at `i`, looking down from `bound`. */
  ghost function LongestEnd(p: Pattern, text: string, i: nat, bound: nat): (end: nat)
    requires exists j: nat :: j <= bound && Matches(p, text, i, j)
    ensures Matches(p, text, i, end) && end <= bound
    ensures forall j: nat :: j <= bound && Matches(p, text, i, j) ==> j <= end
  {
    if Matches(p, text, i, bound) then bound else LongestEnd(p, text, i, bound - 1)
  }

  /** The one result that `Find` can have. */
  ghost function Found(p: Pattern, text: string, from: nat): (found: Option<Match>)
    ensures found.Some? ==> from <= found.value.start <= found.value.end <= |text|
    decreases |text| + 1 - from
  {
    if from > |text| then None
    else if exists j: nat :: Matches(p, text, from, j) then
      (forall j: nat | Matches(p, text, from, j) ensures from <= j <= |text| {
         MatchWithinText(p, text, from, j);
       }
       Some(Match(from, LongestEnd(p, text, from, |text|))))
    else Found(p, text, from + 1)
  }

  lemma {:induction false} FoundIsFound(p: Pattern, text: string, from: nat)
    ensures IsFound(p, text, from, Found(p, text, from))
    decreases |text| + 1 - from
  {
    hide Found, LongestEnd, Matches, IsFound;
    FoundStep(p, text, from);
    if from <= |text| && !exists j: nat :: Matches(p, text, from, j) {
      FoundIsFound(p, text, from + 1);
      NothingHere(p, text, from, Found(p, text, from + 1));
    }
  }

  /** The search looks at one start after the other. */
  lemma {:induction false} FoundStep(p: Pattern, text: string, from: nat)
    ensures if from > |text| || exists j: nat :: Matches(p, text, from, j) then
            IsFound(p, text, from, Found(p, text, from))
            else Found(p, text, from) == Found(p, text, from + 1)
  {
    if from <= |text| && exists j: nat :: Matches(p, text, from, j) {
      forall j: nat | Matches(p, text, from, j) ensures j <= |text| {
        MatchWithinText(p, text, from, j);
      }
    }
  }

  lemma {:induction false} NothingHere(p: Pattern, text: string, from: nat, found: Option<Match>)
    requires IsFound(p, text, from + 1, found) && !exists j: nat :: Matches(p, text, from, j)
    ensures IsFound(p, text, from, found)
  {
    hide Matches;
  }

  method FindCut(p: Pattern, text: string, from: nat) returns (found: Option<Match>)
    ensures found == Found(p, text, from)
  {
    found := Find(p, text, from);
    FoundIsFound(p, text, from);
    FoundIsUnique(p, text, from, found, Found(p, text, from));
  }

  /** Where the search resumes after a match; past the text when it is exhausted. */
  function Resume(text: string, m: Match): nat {
    if m.start < m.end then (if m.end == |text| then |text| + 1 else m.end) else m.start + 1
  }

  /** The matches that a global substitution replaces, from `from` on. */
  ghost function Cuts(p: Pattern, text: string, from: nat): seq<Match>
    decreases |text| + 1 - from
  {
    match Found(p, text, from)
    case None => []
    case Some(m) => [m] + Cuts(p, text, Resume(text, m))
  }

  /** The text with every cut replaced, from byte `from` on. */
  function Woven(text: string, cuts: seq<Match>, from: nat, replacement: string): string
    requires Ordered(text, cuts, from)
  {
    if cuts == [] then text[from..]
    else text[from..cuts[0].start]
         + Expanded(replacement, text[cuts[0].start..cuts[0].end])
         + Woven(text, cuts[1..], cuts[0].end, replacement)
  }

  /** The cuts lie one after the other in `text`, at or after `from`. */
  predicate Ordered(text: string, cuts: seq<Match>, from: nat) {
    if cuts == [] then from <= |text|
    else from <= cuts[0].start <= cuts[0].end <= |text| && Ordered(text, cuts[1..], cuts[0].end)
  }

  lemma {:induction false} CutsAreOrdered(p: Pattern, text: string, from: nat, copied: nat)
    requires copied <= from && copied <= |text|
    ensures Ordered(text, Cuts(p, text, from), copied)
    decreases |text| + 1 - from
  {
    var found := Found(p, text, from);
    if found.Some? {
      CutsAreOrdered(p, text, Resume(text, found.value), found.value.end);
    }
  }

  /** A byte before the first cut is kept as it is. */
  lemma {:induction false} WovenKeeps(text: string, cuts: seq<Match>, from: nat, replacement: string)
    requires from < |text| && Ordered(text, cuts, from + 1)
    ensures Ordered(text, cuts, from)
    ensures Woven(text, cuts, from, replacement) == [text[from]] + Woven(text, cuts, from + 1, replacement)
  {
    if cuts == [] {
      assert text[from..] == [text[from]] + text[from + 1..];
    } else {
      var start := cuts[0].start;
      var expansion := Expanded(replacement, text[start..cuts[0].end]);
      var rest := Woven(text, cuts[1..], cuts[0].end, replacement);
      assert Woven(text, cuts, from, replacement) == text[from..start] + expansion + rest;
      assert Woven(text, cuts, from + 1, replacement) == text[from + 1..start] + expansion + rest;
      assert text[from..start] == [text[from]] + text[from + 1..start];
      hide *;
      assert [text[from]] + text[from + 1..start] + expansion + rest ==
             [text[from]] + (text[from + 1..start] + expansion + rest);
    }
  }

  /** The result of substituting in all of `text`: none if nothing matches. */
  ghost function Substituted(p: Pattern, replacement: string, text: string): Option<string> {
    CutsAreOrdered(p, text, 0, 0);
    var cuts := Cuts(p, text, 0);
    if cuts == [] then None else Some(Woven(text, cuts, 0, replacement))
  }

  /** Copying up to the next match and expanding it leaves the rest of the cuts to be woven. */
  lemma {:induction false} WovenAdvance(p: Pattern, text: string, from: nat, copied: nat, replacement: string,
                                        result: string)
    requires copied <= |text| && copied <= from && Found(p, text, from).Some?
    ensures var m := Found(p, text, from).value; var later := Cuts(p, text, Resume(text, m));
      && copied <= m.start <= m.end <= |text| && from < Resume(text, m)
      && Ordered(text, Cuts(p, text, from), copied) && Ordered(text, later, m.end)
      && result + Woven(text, Cuts(p, text, from), copied, replacement) ==
         result + text[copied..m.start] + Expanded(replacement, text[m.start..m.end]) +
             Woven(text, later, m.end, replacement)
  {
    var m := Found(p, text, from).value;
    var later := Cuts(p, text, Resume(text, m));
    CutsAreOrdered(p, text, from, copied);
    CutsAreOrdered(p, text, Resume(text, m), m.end);
    assert Cuts(p, text, from) == [m] + later && ([m] + later)[1..] == later;
    WovenMatch(text, m, later, copied, replacement, result);
  }

  lemma {:induction false} WovenMatch(text: string, m: Match, later: seq<Match>, copied: nat, replacement: string,
                                      result: string)
    requires Ordered(text, [m] + later, copied)
    ensures Ordered(text, later, m.end)
    ensures result + Woven(text, [m] + later, copied, replacement) ==
            result + text[copied..m.start] + Expanded(replacement, text[m.start..m.end]) +
                Woven(text, later, m.end, replacement)
  {
    var kept, expansion := text[copied..m.start], Expanded(replacement, text[m.start..m.end]);
    assert ([m] + later)[1..] == later;
    var rest := Woven(text, later, m.end, replacement);
    assert Woven(text, [m] + later, copied, replacement) == kept + expansion + rest;
    hide *;
    assert result + (kept + expansion + rest) == result + kept + expansion + rest;
  }

  /** After an empty match the byte at the match is copied. */
  lemma {:induction false} WovenSkip(p: Pattern, text: string, at: nat, replacement: string, result: string)
    requires at < |text|
    ensures var later := Cuts(p, text, at + 1);
      && Ordered(text, later, at) && Ordered(text, later, at + 1)
      && result + Woven(text, later, at, replacement) == result + [text[at]] + Woven(text, later, at + 1, replacement)
  {
    var later := Cuts(p, text, at + 1);
    CutsAreOrdered(p, text, at + 1, at + 1);
    WovenKeeps(text, later, at, replacement);
    hide *;
    assert result + ([text[at]] + Woven(text, later, at + 1, replacement)) ==
           result + [text[at]] + Woven(text, later, at + 1, replacement);
  }

  /** What is still to be produced when the text is copied up to `copied` and searched up to `from`. */
  ghost function Remaining(p: Pattern, replacement: string, text: string, copied: nat, from: nat): string
    requires copied <= |text| && copied <= from
  {
    CutsAreOrdered(p, text, from, copied);
    Woven(text, Cuts(p, text, from), copied, replacement)
  }

  /** Handles one match: copies what precedes it, expands the replacement, and says where to go on.
    After an empty match one byte is copied so that the search advances. */
  method ReplaceMatch(p: Pattern, replacement: string, text: string, m: Match,
                      result: string, copiedUntil: nat, searchFrom: nat)
    returns (newResult: string, newCopied: nat, newSearch: nat)
    requires copiedUntil <= |text| && copiedUntil <= searchFrom
    requires Found(p, text, searchFrom) == Some(m)
    ensures searchFrom < newSearch && newCopied <= |text| && newCopied <= newSearch
    ensures newResult + Remaining(p, replacement, text, newCopied, newSearch) ==
            result + Remaining(p, replacement, text, copiedUntil, searchFrom)
  {
    hide Found, Cuts, Woven, Ordered, Expanded;
    WovenAdvance(p, text, searchFrom, copiedUntil, replacement, result);
    var expansion := ExpandSubstitutionReplacement(replacement, text[m.start..m.end]);
    newResult := result + text[copiedUntil..m.start] + expansion;
    if m.end > m.start {
      newCopied := m.end;
      newSearch := if m.end == |text| then |text| + 1 else m.end;
      return;
    }
    newCopied := m.start;
    if m.start == |text| {
      newSearch := |text| + 1;
      return;
    }
    WovenSkip(p, text, m.start, replacement, newResult);
    newResult := newResult + [text[m.start]];
    newCopied := m.start + 1;
    newSearch := newCopied;
  }

  method SubstituteAll(p: Pattern, replacement: string, text: string) returns (substituted: Option<string>)
    ensures substituted == Substituted(p, replacement, text)
  {
    var result := "";
    var copiedUntil := 0;
    var searchFrom := 0;
    var matched := false;
    while searchFrom <= |text|
      invariant 0 <= copiedUntil <= |text| && copiedUntil <= searchFrom
      invariant result + Remaining(p, replacement, text, copiedUntil, searchFrom) ==
                Remaining(p, replacement, text, 0, 0)
      invariant !matched ==> searchFrom == 0
      invariant matched ==> Found(p, text, 0).Some?
      decreases |text| + 1 - searchFrom
    {
      var found := FindCut(p, text, searchFrom);
      if found.None? {
        break;
      }
      matched := true;
      result, copiedUntil, searchFrom := ReplaceMatch(p, replacement, text, found.value, result, copiedUntil,
                                                      searchFrom);
    }
    if !matched {
      return None;
    }
    result := result + text[copiedUntil..];
    return Some(result);
  }

  // ---------------------------------------------------------------- what a global substitution does

  /** `i` is one of the cuts' starts, or lies inside a cut, or is the end of text reached by the last cut. */
  predicate IsCovered(text: string, cuts: seq<Match>, i: nat) {
    exists k :: 0 <= k < |cuts| &&
        (i == cuts[k].start || cuts[k].start <= i < cuts[k].end || i == |text| == cuts[k].end)
  }

  /** Where the search for a cut started: at the end of the cut before it, or one byte further if that one was empty. */
  function SearchStart(text: string, cuts: seq<Match>, from: nat, k: nat): nat
    requires k < |cuts|
  {
    if k == 0 then from else if cuts[k - 1].start < cuts[k - 1].end then cuts[k - 1].end else cuts[k - 1].end + 1
  }

  /** Every cut is the leftmost match from where the search for it started, and the longest one from its start. */
  lemma {:induction false} CutsAreLongest(p: Pattern, text: string, from: nat, k: nat)
    requires k < |Cuts(p, text, from)|
    ensures var cuts := Cuts(p, text, from); var m := cuts[k];
      && from <= SearchStart(text, cuts, from, k) <= m.start <= m.end <= |text|
      && Matches(p, text, m.start, m.end)
      && (forall j: nat :: Matches(p, text, m.start, j) ==> j <= m.end)
      && (forall i: nat, j: nat :: SearchStart(text, cuts, from, k) <= i < m.start ==> !Matches(p, text, i, j))
    decreases k
  {
    hide Matches;
    var m := Found(p, text, from).value;
    FoundIsFound(p, text, from);
    if k > 0 {
      CutsAreLongest(p, text, Resume(text, m), k - 1);
    }
  }

  /** A cut that is not empty and ends the text is the last one. */
  lemma {:induction false} EndingCutIsLast(p: Pattern, text: string, from: nat, k: nat)
    requires k < |Cuts(p, text, from)| && Cuts(p, text, from)[k].start < Cuts(p, text, from)[k].end == |text|
    ensures k == |Cuts(p, text, from)| - 1
    decreases k
  {
    var m := Found(p, text, from).value;
    if k > 0 {
      EndingCutIsLast(p, text, Resume(text, m), k - 1);
    }
  }

  /** Cuts do not overlap and their starts strictly increase. */
  lemma {:induction false} CutsIncrease(p: Pattern, text: string, from: nat, k: nat, l: nat)
    requires k < l < |Cuts(p, text, from)|
    ensures var cuts := Cuts(p, text, from); cuts[k].start < cuts[l].start && cuts[k].end <= cuts[l].start
    decreases k
  {
    var m := Found(p, text, from).value;
    if k > 0 {
      CutsIncrease(p, text, Resume(text, m), k - 1, l - 1);
    } else {
      CutsAreLongest(p, text, Resume(text, m), l - 1);
    }
  }

  /** Wherever the pattern matches there is a cut: starting there, running over it, or ending the text there. */
  lemma {:induction false} CutsCover(p: Pattern, text: string, from: nat, i: nat, j: nat)
    requires from <= i <= |text| && Matches(p, text, i, j)
    ensures IsCovered(text, Cuts(p, text, from), i)
    decreases |text| + 1 - from
  {
    FoundIsFound(p, text, from);
    var m := Found(p, text, from).value;
    var cuts := Cuts(p, text, from);
    assert cuts[0] == m && m.start <= i;
    if Resume(text, m) <= i {
      CutsCover(p, text, Resume(text, m), i, j);
      var later := Cuts(p, text, Resume(text, m));
      var k :| 0 <= k < |later| &&
          (i == later[k].start || later[k].start <= i < later[k].end || i == |text| == later[k].end);
      assert cuts[k + 1] == later[k];
    }
  }

  /** Nothing is substituted exactly when the pattern matches nowhere. */
  lemma {:induction false} SubstitutedNone(p: Pattern, replacement: string, text: string)
    ensures Substituted(p, replacement, text) == None <==> NoMatchFrom(p, text, 0)
  {
    var found := Found(p, text, 0);
    FoundIsFound(p, text, 0);
    if found.Some? {
      assert Matches(p, text, found.value.start, found.value.end);
    }
  }

  /** Replacing every match by `&` gives the text back, for every pattern that matches at all. */
  lemma {:induction false} SubstituteByMatch(p: Pattern, text: string)
    requires !NoMatchFrom(p, text, 0)
    ensures Substituted(p, "&", text) == Some(text)
  {
    SubstitutedNone(p, "&", text);
    CutsAreOrdered(p, text, 0, 0);
    WovenIdentity(text, Cuts(p, text, 0), 0);
  }

  lemma {:induction false} WovenIdentity(text: string, cuts: seq<Match>, from: nat)
    requires Ordered(text, cuts, from)
    ensures Woven(text, cuts, from, "&") == text[from..]
    decreases |cuts|
  {
    if cuts != [] {
      var start, end := cuts[0].start, cuts[0].end;
      WovenIdentity(text, cuts[1..], end);
      assert Expanded("&", text[start..end]) == text[start..end] + Expanded("&"[1..], text[start..end]);
      hide Expanded, Ordered;
      assert text[from..] == text[from..start] + text[start..end] + text[end..];
    }
  }

  /** The kept pieces of the text, with `inserted` in place of every cut. */
  function Filled(text: string, cuts: seq<Match>, from: nat, inserted: string): string
    requires Ordered(text, cuts, from)
  {
    if cuts == [] then text[from..]
    else text[from..cuts[0].start] + inserted + Filled(text, cuts[1..], cuts[0].end, inserted)
  }

  /** A replacement that stands for one text, whatever was matched. */
  ghost predicate IsReplacementFor(replacement: string, inserted: string) {
    forall matched :: Expanded(replacement, matched) == inserted
  }

  lemma {:induction false} EscapedStandsFor(inserted: string)
    ensures IsReplacementFor(Escaped(inserted), inserted)
  {
    forall matched ensures Expanded(Escaped(inserted), matched) == inserted {
      EscapedIsVerbatim(inserted, matched);
    }
  }

  /** Text without backslashes and ampersands stands for itself, in front of anything. */
  lemma {:induction false} PlainIsVerbatim(text: string, rest: string, matched: string)
    requires forall k :: 0 <= k < |text| ==> text[k] !in {'\\', '&'}
    ensures Expanded(text + rest, matched) == text + Expanded(rest, matched)
  {
    if text == "" {
      assert text + rest == rest;
    } else {
      assert (text + rest)[1..] == text[1..] + rest;
      PlainIsVerbatim(text[1..], rest, matched);
    }
  }

  lemma {:induction false} PlainStandsFor(text: string)
    requires forall k :: 0 <= k < |text| ==> text[k] !in {'\\', '&'}
    ensures IsReplacementFor(text, text)
  {
    forall matched ensures Expanded(text, matched) == text {
      PlainIsVerbatim(text, "", matched);
      assert text + "" == text;
    }
  }

  /** An ampersand stands for what was matched, a backslash makes any byte behind it stand for itself, and one at the
    end
    stands for itself. */
  lemma {:induction false} SpecialReplacements(c: char, rest: string, matched: string)
    ensures Expanded("&" + rest, matched) == matched + Expanded(rest, matched)
    ensures Expanded(['\\', c] + rest, matched) == [c] + Expanded(rest, matched)
    ensures Expanded("\\", matched) == "\\"
  {
    assert ("&" + rest)[1..] == rest && (['\\', c] + rest)[2..] == rest;
  }

  /** A replacement that stands for one text is inserted as that at every match. */
  lemma {:induction false} SubstituteVerbatim(text: string, cuts: seq<Match>, from: nat, replacement: string,
                                              inserted: string)
    requires Ordered(text, cuts, from) && IsReplacementFor(replacement, inserted)
    ensures Woven(text, cuts, from, replacement) == Filled(text, cuts, from, inserted)
    decreases |cuts|
  {
    if cuts != [] {
      SubstituteVerbatim(text, cuts[1..], cuts[0].end, replacement, inserted);
    }
  }

  /** So it is with an escaped one. */
  lemma {:induction false} SubstituteEscaped(text: string, cuts: seq<Match>, from: nat, inserted: string)
    requires Ordered(text, cuts, from)
    ensures Woven(text, cuts, from, Escaped(inserted)) == Filled(text, cuts, from, inserted)
  {
    EscapedStandsFor(inserted);
    SubstituteVerbatim(text, cuts, from, Escaped(inserted), inserted);
  }

  /** Plain search-and-replace, left to right. */
  function ReplaceAll(text: string, w: string, inserted: string): string
    requires w != ""
  {
    if text == "" then ""
    else if w <= text then inserted + ReplaceAll(text[|w|..], w, inserted)
    else [text[0]] + ReplaceAll(text[1..], w, inserted)
  }

  /** Behind a non-empty literal match the search resumes at its end, also at the end of the text. */
  lemma {:induction false} LiteralResumes(w: string, text: string, m: Match)
    requires w != "" && m.start < m.end <= |text|
    ensures Cuts(LiteralPattern(w), text, Resume(text, m)) == Cuts(LiteralPattern(w), text, m.end)
    ensures Ordered(text, Cuts(LiteralPattern(w), text, m.end), m.end)
  {
    CutsAreOrdered(LiteralPattern(w), text, m.end, m.end);
    if m.end == |text| {
      FoundIsFound(LiteralPattern(w), text, m.end);
      LiteralPatternFound(w, text, m.end, Found(LiteralPattern(w), text, m.end));
    }
  }

  lemma {:induction false} FilledAtStart(text: string, m: Match, later: seq<Match>, from: nat, inserted: string)
    requires m.start == from <= m.end <= |text| && Ordered(text, later, m.end)
    ensures Ordered(text, [m] + later, from)
    ensures Filled(text, [m] + later, from, inserted) == inserted + Filled(text, later, m.end, inserted)
  {
    assert ([m] + later)[1..] == later;
    assert text[from..from] + inserted == inserted;
  }

  lemma {:induction false} FilledKeeps(text: string, cuts: seq<Match>, from: nat, inserted: string)
    requires from < |text| && Ordered(text, cuts, from + 1)
    ensures Ordered(text, cuts, from)
    ensures Filled(text, cuts, from, inserted) == [text[from]] + Filled(text, cuts, from + 1, inserted)
  {
    WovenKeeps(text, cuts, from, Escaped(inserted));
    SubstituteEscaped(text, cuts, from, inserted);
    SubstituteEscaped(text, cuts, from + 1, inserted);
  }

  lemma {:induction false} LiteralCutsReplace(w: string, text: string, from: nat, inserted: string)
    requires w != "" && from <= |text|
    requires Ordered(text, Cuts(LiteralPattern(w), text, from), from)
    ensures Filled(text, Cuts(LiteralPattern(w), text, from), from, inserted) == ReplaceAll(text[from..], w, inserted)
    decreases |text| - from
  {
    hide LiteralPattern, Matches, IsFound;
    var p := LiteralPattern(w);
    var found := Found(p, text, from);
    FoundIsFound(p, text, from);
    LiteralPatternFound(w, text, from, found);
    assert w <= text[from..] <==> OccursAt(text, w, from);
    if OccursAt(text, w, from) {
      var m := Match(from, from + |w|);
      assert found == Some(m);
      LiteralResumes(w, text, m);
      var later := Cuts(p, text, m.end);
      LiteralCutsReplace(w, text, m.end, inserted);
      FilledAtStart(text, m, later, from, inserted);
      assert text[from..][|w|..] == text[m.end..];
    } else if from < |text| {
      FoundIsFound(p, text, from + 1);
      FoundIsUnique(p, text, from + 1, found, Found(p, text, from + 1));
      CutsAreOrdered(p, text, from + 1, from + 1);
      LiteralCutsReplace(w, text, from + 1, inserted);
      FilledKeeps(text, Cuts(p, text, from + 1), from, inserted);
      assert text[from..][1..] == text[from + 1..];
    }
  }

  /** Substituting a replacement that stands for one text for a literal pattern is plain search-and-replace. */
  lemma {:induction false} SubstituteLiteral(w: string, text: string, replacement: string, inserted: string)
    requires w != "" && IsReplacementFor(replacement, inserted)
    ensures Substituted(LiteralPattern(w), replacement, text) ==
            if exists i :: OccursAt(text, w, i) then Some(ReplaceAll(text, w, inserted)) else None
  {
    hide Expanded, IsReplacementFor;
    var p := LiteralPattern(w);
    var found := Found(p, text, 0);
    FoundIsFound(p, text, 0);
    LiteralPatternFound(w, text, 0, found);
    CutsAreOrdered(p, text, 0, 0);
    if found.Some? {
      SubstituteVerbatim(text, Cuts(p, text, 0), 0, replacement, inserted);
      LiteralCutsReplace(w, text, 0, inserted);
      assert text[0..] == text;
      assert OccursAt(text, w, found.value.start);
    }
  }
}
