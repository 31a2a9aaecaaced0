/** The backtracking-free matcher: every construct yields the set of its end positions.

  Each method is proved to return exactly the ends of the relation `Patterns.Matches`,
  without duplicates; repetition is a breadth-first fixpoint. `Find` picks the earliest
  start and, for it, the longest end. */
module PatternMatcher {
  import opened Outcomes
  import opened Patterns
  import opened Sequences

  datatype Match = Match(start: nat, end: nat)

  predicate Within(positions: seq<nat>, low: nat, high: nat) {
    forall v :: v in positions ==> low <= v <= high
  }

  function Elements(positions: seq<nat>): set<nat> {
    set v | v in positions
  }

  /** `ends` lists, each once, the ends of all matches of `p` that start at `position`. */
  ghost predicate IsEndSet(ends: seq<nat>, p: Pattern, text: string, position: nat) {
    && Distinct(ends)
    && Within(ends, position, |text|)
    && forall j: nat :: j in ends <==> Matches(p, text, position, j)
  }

  /** The naturals below `n`. */
  ghost function Below(n: nat): (below: set<nat>)
    ensures |below| == n && forall k: nat :: k in below <==> k < n
  {
    if n == 0 then {} else Below(n - 1) + {n - 1}
  }

  lemma {:induction false} ElementCount(positions: seq<nat>)
    requires Distinct(positions)
    ensures |Elements(positions)| == |positions|
  {
    if positions != [] {
      var n := |positions| - 1;
      ElementCount(positions[..n]);
      assert positions == positions[..n] + [positions[n]];
      assert Elements(positions) == Elements(positions[..n]) + {positions[n]};
    }
  }

  /** Distinct naturals up to `high` are at most `high + 1` many. */
  lemma {:induction false} DistinctBounded(positions: seq<nat>, high: nat)
    requires Distinct(positions) && Within(positions, 0, high)
    ensures |positions| <= high + 1
  {
    ElementCount(positions);
    SubsetCount(Elements(positions), Below(high + 1));
  }

  lemma {:induction false} SubsetCount(small: set<nat>, big: set<nat>)
    requires small <= big
    ensures |small| <= |big|
  {
    assert big == small + (big - small);
  }

  /** Adds one value unless it is already there. */
  method AppendUnique(target: seq<nat>, value: nat) returns (result: seq<nat>)
    requires Distinct(target)
    ensures Distinct(result)
    ensures forall j: nat :: j in result <==> j in target || j == value
  {
    result := target;
    if value !in target {
      result := target + [value];
    }
  }

  /** Adds every value that is not already there. */
  method AppendAllUnique(target: seq<nat>, values: seq<nat>) returns (result: seq<nat>)
    requires Distinct(target)
    ensures Distinct(result)
    ensures forall j: nat :: j in result <==> j in target || j in values
  {
    result := target;
    for a := 0 to |values|
      invariant Distinct(result)
      invariant forall j: nat :: j in result <==> j in target || j in values[..a]
    {
      result := AppendUnique(result, values[a]);
      assert values[..a + 1] == values[..a] + [values[a]];
    }
    assert values[..|values|] == values;
  }

  /** All end positions of `p` starting at `position`. */
  method MatchFrom(p: Pattern, text: string, position: nat) returns (ends: seq<nat>)
    requires position <= |text|
    ensures IsEndSet(ends, p, text, position)
    decreases p, 1
  {
    match p
    case Literal(value) =>
      ends := if position < |text| && text[position] == value then [position + 1] else [];
    case AnyCharacter =>
      ends := if position < |text| then [position + 1] else [];
    case StartOfLine =>
      ends := if position == 0 then [position] else [];
    case EndOfLine =>
      ends := if position == |text| then [position] else [];
    case Sequence(elements) =>
      ends := MatchSequence(elements, text, position);
    case Alternation(alternatives) =>
      ends := MatchAlternation(alternatives, text, position);
    case Repetition(operand, atLeastOne) =>
      ends := MatchRepetition(operand, atLeastOne, text, position);
    case CharacterClass(negated, ranges) =>
      if position >= |text| {
        ends := [];
      } else {
        var contained := ScanRanges(ranges, text[position]);
        if negated {
          contained := !contained;
        }
        ends := if contained then [position + 1] else [];
      }
    case Group(expression) =>
      ends := MatchFrom(expression, text, position);
  }

  /** Whether some range of a class contains `value`, stopping at the first one that does. */
  method ScanRanges(ranges: seq<ClassRange>, value: char) returns (contained: bool)
    ensures contained == InClass(false, ranges, value)
  {
    contained := false;
    for k := 0 to |ranges|
      invariant !contained
      invariant forall r :: 0 <= r < k ==> !InRange(ranges[r], value)
    {
      if InRange(ranges[k], value) {
        contained := true;
        break;
      }
    }
  }

  /** The rest of a sequence, from element `k` on, leads from one of the positions to `j`. */
  ghost predicate Continues(elements: seq<Pattern>, k: nat, text: string, positions: seq<nat>, j: nat)
    requires k <= |elements|
  {
    exists m :: m in positions && SequenceMatches(elements[k..], text, m, j)
  }

  method MatchSequence(elements: seq<Pattern>, text: string, position: nat) returns (positions: seq<nat>)
    requires position <= |text|
    ensures Distinct(positions) && Within(positions, position, |text|)
    ensures forall j: nat :: j in positions <==> SequenceMatches(elements, text, position, j)
    decreases elements, 0
  {
    positions := [position];
    var k := 0;
    assert elements[0..] == elements;
    while k < |elements|
      invariant 0 <= k <= |elements|
      invariant Distinct(positions) && Within(positions, position, |text|)
      invariant forall j: nat :: SequenceMatches(elements, text, position, j) <==>
                Continues(elements, k, text, positions, j)
    {
      var next := StepAll(elements[k], text, positions);
      StepsWithin(elements[k], text, positions, next, position);
      forall j: nat ensures Continues(elements, k, text, positions, j) <==> Continues(elements, k + 1, text, next, j) {
        StepsAdvance(elements, k, text, positions, next, j);
      }
      positions := next;
      k := k + 1;
      if positions == [] {
        return;
      }
    }
  }

  /** The ends of `p` from any of the given starts. */
  ghost predicate Steps(p: Pattern, text: string, starts: seq<nat>, j: nat) {
    exists a :: 0 <= a < |starts| && Matches(p, text, starts[a], j)
  }

  method StepAll(p: Pattern, text: string, starts: seq<nat>) returns (next: seq<nat>)
    requires Within(starts, 0, |text|)
    ensures Distinct(next)
    ensures forall j: nat :: j in next <==> Steps(p, text, starts, j)
    decreases p, 2
  {
    next := [];
    for a := 0 to |starts|
      invariant Distinct(next)
      invariant forall j: nat :: j in next <==> Steps(p, text, starts[..a], j)
    {
      assert starts[a] in starts;
      var ends := MatchFrom(p, text, starts[a]);
      next := AppendAllUnique(next, ends);
      forall j: nat
        ensures Steps(p, text, starts[..a + 1], j) <==> Steps(p, text, starts[..a], j) || j in ends
      {
        StepsSnoc(p, text, starts, a, j);
      }
    }
    assert starts[..|starts|] == starts;
  }

  lemma {:induction false} StepsSnoc(p: Pattern, text: string, starts: seq<nat>, a: nat, j: nat)
    requires a < |starts|
    ensures Steps(p, text, starts[..a + 1], j) <==>
            Steps(p, text, starts[..a], j) || Matches(p, text, starts[a], j)
  {
    var longer, shorter := starts[..a + 1], starts[..a];
    assert longer[a] == starts[a];
    if Steps(p, text, shorter, j) {
      var b :| 0 <= b < |shorter| && Matches(p, text, shorter[b], j);
      assert longer[b] == shorter[b];
    }
    if Steps(p, text, longer, j) {
      var b :| 0 <= b < |longer| && Matches(p, text, longer[b], j);
      assert b < a ==> shorter[b] == longer[b];
    }
  }

  lemma {:induction false} StepsWithin(p: Pattern, text: string, starts: seq<nat>, next: seq<nat>, position: nat)
    requires Within(starts, position, |text|)
    requires forall j: nat :: j in next <==> Steps(p, text, starts, j)
    ensures Within(next, position, |text|)
  {
    forall v | v in next ensures position <= v <= |text| {
      var a :| 0 <= a < |starts| && Matches(p, text, starts[a], v);
      assert starts[a] in starts;
      MatchWithinText(p, text, starts[a], v);
    }
  }

  lemma {:induction false} StepsAdvance(elements: seq<Pattern>, k: nat, text: string, starts: seq<nat>,
                                        next: seq<nat>, j: nat)
    requires k < |elements|
    requires forall m: nat :: m in next <==> Steps(elements[k], text, starts, m)
    ensures Continues(elements, k, text, starts, j) <==> Continues(elements, k + 1, text, next, j)
  {
    var rest := elements[k..];
    assert rest[0] == elements[k] && rest[1..] == elements[k + 1..];
    if Continues(elements, k, text, starts, j) {
      var m :| m in starts && SequenceMatches(rest, text, m, j);
      var mid := FirstElement(rest, text, m, j);
      assert Steps(elements[k], text, starts, mid);
    }
    if Continues(elements, k + 1, text, next, j) {
      var mid :| mid in next && SequenceMatches(rest[1..], text, mid, j);
      var a :| 0 <= a < |starts| && Matches(elements[k], text, starts[a], mid);
      assert starts[a] in starts;
    }
  }

  method MatchAlternation(alternatives: seq<Pattern>, text: string, position: nat) returns (ends: seq<nat>)
    requires position <= |text|
    ensures IsEndSet(ends, Alternation(alternatives), text, position)
    decreases alternatives, 0
  {
    ends := [];
    for k := 0 to |alternatives|
      invariant Distinct(ends) && Within(ends, position, |text|)
      invariant forall j: nat :: j in ends <==> exists c :: 0 <= c < k && Matches(alternatives[c], text, position, j)
    {
      var branch := MatchFrom(alternatives[k], text, position);
      ends := AppendAllUnique(ends, branch);
    }
  }

  /** Reachable from `i` by matching `p` a number of times (at least once if asked). */
  ghost predicate Reachable(p: Pattern, atLeastOne: bool, text: string, i: nat, j: nat) {
    exists n: nat :: (atLeastOne ==> n >= 1) && Iterates(p, text, i, j, n)
  }

  /** All that one more match of `p` reaches from `x` is in `result`. */
  ghost predicate Expanded(p: Pattern, text: string, x: nat, result: seq<nat>) {
    forall j: nat :: Matches(p, text, x, j) ==> j in result
  }

  lemma {:induction false} ReachableStep(p: Pattern, atLeastOne: bool, text: string, i: nat, m: nat, j: nat)
    requires Reachable(p, atLeastOne, text, i, m) && Matches(p, text, m, j)
    ensures Reachable(p, atLeastOne, text, i, j)
  {
    var n: nat :| (atLeastOne ==> n >= 1) && Iterates(p, text, i, m, n);
    IterationExtends(p, text, i, m, j, n);
  }

  /** A set that holds a start and is closed under `p` holds all that is reachable. */
  lemma {:induction false} ClosedContainsIterations(p: Pattern, text: string, result: seq<nat>, i: nat, j: nat, n: nat)
    requires i in result && Iterates(p, text, i, j, n)
    requires forall x :: x in result ==> Expanded(p, text, x, result)
    ensures j in result
    decreases n
  {
    if n != 0 {
      var m: nat :| Matches(p, text, i, m) && Iterates(p, text, m, j, n - 1);
      assert Expanded(p, text, i, result);
      ClosedContainsIterations(p, text, result, m, j, n - 1);
    }
  }

  lemma {:induction false} ClosedIsComplete(p: Pattern, atLeastOne: bool, text: string, position: nat, result: seq<nat>)
    requires forall x :: x in result ==> Expanded(p, text, x, result)
    requires if atLeastOne then Expanded(p, text, position, result) else position in result
    ensures forall j: nat :: Reachable(p, atLeastOne, text, position, j) ==> j in result
  {
    forall j: nat | Reachable(p, atLeastOne, text, position, j) ensures j in result {
      var n: nat :| (atLeastOne ==> n >= 1) && Iterates(p, text, position, j, n);
      if atLeastOne {
        var m := FirstIteration(p, text, position, j, n);
        ClosedContainsIterations(p, text, result, m, j, n - 1);
      } else {
        ClosedContainsIterations(p, text, result, position, j, n);
      }
    }
  }

  /** The positions found so far are reachable, and all but the pending ones are expanded. */
  ghost predicate Exploring(p: Pattern, atLeastOne: bool, text: string, position: nat,
                            result: seq<nat>, pending: set<nat>) {
    && Distinct(result)
    && Within(result, position, |text|)
    && (forall j: nat :: j in result ==> Reachable(p, atLeastOne, text, position, j))
    && (forall x :: x in pending ==> x in result)
    && (forall x :: x in result ==> x in pending || Expanded(p, text, x, result))
  }

  method MatchRepetition(p: Pattern, atLeastOne: bool, text: string, position: nat) returns (result: seq<nat>)
    requires position <= |text|
    ensures Distinct(result) && Within(result, position, |text|)
    ensures forall j: nat :: j in result <==> Reachable(p, atLeastOne, text, position, j)
    decreases p, 3
  {
    var frontier: seq<nat> := [];
    result := [];
    if !atLeastOne {
      result := [position];
      frontier := [position];
      assert Iterates(p, text, position, position, 0);
    } else {
      frontier := MatchFrom(p, text, position);
      result := AppendAllUnique(result, frontier);
      forall j: nat | j in result ensures position <= j <= |text| && Reachable(p, true, text, position, j) {
        assert Iterates(p, text, j, j, 0);
        assert Iterates(p, text, position, j, 1);
      }
    }
    DistinctBounded(result, |text|);
    while frontier != []
      invariant Exploring(p, atLeastOne, text, position, result, Elements(frontier))
      invariant if atLeastOne then Expanded(p, text, position, result) else position in result
      invariant |result| <= |text| + 1
      decreases |text| + 1 - |result| + (if frontier == [] then 0 else 1)
    {
      result, frontier := ExpandFrontier(p, atLeastOne, text, position, result, frontier);
      DistinctBounded(result, |text|);
    }
    ClosedIsComplete(p, atLeastOne, text, position, result);
  }

  /** One round of the fixpoint: visits each frontier position and collects what is new. */
  method ExpandFrontier(p: Pattern, atLeastOne: bool, text: string, position: nat,
                        known: seq<nat>, frontier: seq<nat>)
    returns (result: seq<nat>, next: seq<nat>)
    requires position <= |text|
    requires Exploring(p, atLeastOne, text, position, known, Elements(frontier))
    ensures Exploring(p, atLeastOne, text, position, result, Elements(next))
    ensures known <= result && |result| == |known| + |next|
    decreases p, 2
  {
    result, next := known, [];
    assert frontier[0..] == frontier;
    for a := 0 to |frontier|
      invariant Exploring(p, atLeastOne, text, position, result, Elements(frontier[a..]) + Elements(next))
      invariant known <= result && |result| == |known| + |next|
    {
      ghost var pending := Elements(frontier[a..]);
      assert frontier[a] in frontier[a..];
      assert frontier[a] in result;
      var ends := MatchFrom(p, text, frontier[a]);
      result, next := AddNewEnds(p, atLeastOne, text, position, result, pending, frontier[a], next, ends);
      assert frontier[a..] == [frontier[a]] + frontier[a + 1..];
      WeakenPending(p, atLeastOne, text, position, result, pending - {frontier[a]} + Elements(next),
                    Elements(frontier[a + 1..]) + Elements(next));
    }
  }

  lemma {:induction false} WeakenPending(p: Pattern, atLeastOne: bool, text: string, position: nat, result: seq<nat>,
                                         pending: set<nat>, more: set<nat>)
    requires Exploring(p, atLeastOne, text, position, result, pending)
    requires pending <= more && forall x :: x in more ==> x in result
    ensures Exploring(p, atLeastOne, text, position, result, more)
  {
  }

  /** Adds the ends not seen yet, other than `current` itself, to the result and to the next frontier. */
  method AddNewEnds(p: Pattern, atLeastOne: bool, text: string, position: nat,
                    known: seq<nat>, ghost pending: set<nat>, current: nat, later: seq<nat>, ends: seq<nat>)
    returns (result: seq<nat>, next: seq<nat>)
    requires Exploring(p, atLeastOne, text, position, known, pending + Elements(later))
    requires current in pending && current <= |text| && IsEndSet(ends, p, text, current)
    ensures Exploring(p, atLeastOne, text, position, result, pending - {current} + Elements(next))
    ensures known <= result && |result| - |known| == |next| - |later|
  {
    result, next := known, later;
    for b := 0 to |ends|
      invariant Exploring(p, atLeastOne, text, position, result, pending + Elements(next))
      invariant forall c :: 0 <= c < b ==> ends[c] in result
      invariant known <= result && |result| - |known| == |next| - |later|
    {
      var end := ends[b];
      if end == current {
        continue;
      }
      if end !in result {
        assert end in ends;
        AddReached(p, atLeastOne, text, position, result, pending + Elements(next), current, end);
        result := result + [end];
        assert Elements(next + [end]) == Elements(next) + {end};
        assert pending + Elements(next + [end]) == pending + Elements(next) + {end};
        next := next + [end];
      }
    }
    assert Expanded(p, text, current, result);
  }

  /** A new end reached from a known position joins the result as pending. */
  lemma {:induction false} AddReached(p: Pattern, atLeastOne: bool, text: string, position: nat, result: seq<nat>,
                                      pending: set<nat>, current: nat, end: nat)
    requires Exploring(p, atLeastOne, text, position, result, pending)
    requires current in result && current <= |text| && Matches(p, text, current, end) && end !in result
    ensures Exploring(p, atLeastOne, text, position, result + [end], pending + {end})
  {
    MatchWithinText(p, text, current, end);
    ReachableStep(p, atLeastOne, text, position, current, end);
    forall x | x in result && x !in pending ensures Expanded(p, text, x, result + [end]) {
      assert Expanded(p, text, x, result);
    }
  }

  /** `m` starts as early as any match at or after `from`, and is the longest one from there. */
  ghost predicate IsLeftmostLongest(p: Pattern, text: string, from: nat, m: Match) {
    && from <= m.start <= m.end <= |text|
    && Matches(p, text, m.start, m.end)
    && (forall j: nat :: Matches(p, text, m.start, j) ==> j <= m.end)
    && (forall i: nat, j: nat :: from <= i < m.start ==> !Matches(p, text, i, j))
  }

  ghost predicate NoMatchFrom(p: Pattern, text: string, from: nat) {
    forall i: nat, j: nat :: from <= i <= |text| ==> !Matches(p, text, i, j)
  }

  /** What `Find` computes: the leftmost-longest match, or none exactly when there is none. */
  ghost predicate IsFound(p: Pattern, text: string, from: nat, found: Option<Match>) {
    match found
    case Some(m) => IsLeftmostLongest(p, text, from, m)
    case None => NoMatchFrom(p, text, from)
  }

  /** At most one result meets the description of `Find`. */
  lemma {:induction false} FoundIsUnique(p: Pattern, text: string, from: nat, a: Option<Match>, b: Option<Match>)
    requires IsFound(p, text, from, a) && IsFound(p, text, from, b)
    ensures a == b
  {
    if a.Some? && b.Some? {
      assert Matches(p, text, a.value.start, a.value.end);
      assert Matches(p, text, b.value.start, b.value.end);
    }
  }

  method Find(p: Pattern, text: string, startOffset: nat) returns (found: Option<Match>)
    ensures IsFound(p, text, startOffset, found)
  {
    if startOffset > |text| {
      return None;
    }
    var start := startOffset;
    while start <= |text|
      invariant startOffset <= start <= |text| + 1
      invariant forall i: nat, j: nat :: startOffset <= i < start ==> !Matches(p, text, i, j)
    {
      var ends := MatchFrom(p, text, start);
      if ends != [] {
        var longest := Largest(ends);
        assert longest in ends;
        return Some(Match(start, longest));
      }
      forall j: nat ensures !Matches(p, text, start, j) {
        assert j !in ends;
      }
      start := start + 1;
    }
    return None;
  }

  method Largest(values: seq<nat>) returns (largest: nat)
    requires values != []
    ensures largest in values
    ensures forall v :: v in values ==> v <= largest
  {
    largest := values[0];
    for a := 1 to |values|
      invariant largest in values
      invariant forall b :: 0 <= b < a ==> values[b] <= largest
    {
      if largest < values[a] {
        largest := values[a];
      }
    }
  }

  /** Whether the pattern matches anywhere in the text. */
  method Search(p: Pattern, text: string) returns (matched: bool)
    ensures matched == !NoMatchFrom(p, text, 0)
  {
    var found := Find(p, text, 0);
    if found.Some? {
      assert Matches(p, text, found.value.start, found.value.end);
    }
    return found.Some?;
  }
}
