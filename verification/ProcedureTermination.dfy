/** Why procedures without backward jumps end, whatever they do to the buffers they came from: every other step of
  the machine leaves less to do. */
module ProcedureTermination {
  import opened Outcomes
  import opened Tokens
  import opened Lexing
  import opened CommandGrammar
  import opened Procedures
  import opened LineCommands
  import opened Semantics
  import opened ProcedureMachine

  /** What a procedure has left to do; an empty place on the stack has nothing. */
  function Left(stack: seq<Procedure>, depth: nat): nat {
    if depth >= |stack| then 0
    else if stack[depth].line >= |stack[depth].lines| then 1
    else |stack[depth].lines| - stack[depth].line + 1
  }

  /** What the line being run has left to do. */
  function ChainLeft(config: Configuration): nat {
    if config.chain.None? then 0
    else if config.chain.value.position >= |config.chain.value.tokens| then 1
    else |config.chain.value.tokens| - config.chain.value.position + 1
  }

  /** What is left to do at each depth, outermost first, and on the current line. */
  function Measure(config: Configuration, maximumDepth: nat): (measure: seq<nat>)
    ensures |measure| == maximumDepth + 1
  {
    seq(maximumDepth, depth requires 0 <= depth < maximumDepth => Left(config.stack, depth)) + [ChainLeft(config)]
  }

  /** Smaller at the first place where they differ. */
  predicate Below(a: seq<nat>, b: seq<nat>)
    requires |a| == |b|
  {
    a != [] && (a[0] < b[0] || (a[0] == b[0] && Below(a[1..], b[1..])))
  }

  lemma {:induction false} BelowAt(a: seq<nat>, b: seq<nat>, k: nat)
    requires |a| == |b| && k < |a| && a[..k] == b[..k] && a[k] < b[k]
    ensures Below(a, b)
  {
    if k > 0 {
      assert a[0] == a[..k][0] == b[0];
      assert a[1..][..k - 1] == a[..k][1..] == b[1..][..k - 1];
      BelowAt(a[1..], b[1..], k - 1);
    }
  }

  // ---------------------------------------------------------------- steps

  /** The stack after a step that is not a backward jump: a procedure returned, control went on to a later line, or
    another procedure was called, and control will go on at a later line. */
  predicate Advances(before: seq<Procedure>, after: seq<Procedure>, maximumDepth: nat) {
    Returns(before, after) || GoesOn(before, after) || Calls(before, after, maximumDepth)
  }

  /** A procedure at its end returns. */
  predicate Returns(before: seq<Procedure>, after: seq<Procedure>) {
    before != [] && var top := before[|before| - 1];
    top.line == |top.lines| && after == before[..|before| - 1]
  }

  predicate GoesOn(before: seq<Procedure>, after: seq<Procedure>) {
    before != [] && |after| == |before| && after[..|before| - 1] == before[..|before| - 1]
    && var top, next := before[|before| - 1], after[|before| - 1];
    next.lines == top.lines && top.line < next.line <= |top.lines|
  }

  predicate Calls(before: seq<Procedure>, after: seq<Procedure>, maximumDepth: nat) {
    0 < |before| < maximumDepth && |after| == |before| + 1 && GoesOn(before, after[..|before|]) &&
        after[|before|].line == 0
  }

  /** Another command of a line was run. */
  predicate RunsOn(before: Configuration, after: Configuration) {
    after.stack == before.stack && ChainLeft(after) < ChainLeft(before)
  }

  /** Every step is a backward jump, a step down the lines, or a step along a line. */
  lemma {:induction false} StepsAreKnown(before: Configuration, after: Configuration, maximumDepth: nat)
    requires Steps(before, after, maximumDepth)
    ensures JumpsBack(before, after, maximumDepth) || RunsOn(before, after) ||
            Advances(before.stack, after.stack, maximumDepth)
  {
    hide NextCommand, NextLine, JumpsTo, Advances, RunsOn, AreTokens, IsConsistent;
    match Next(before, maximumDepth)
    case Halt(_, _, _) =>
    case Seek(name, told) =>
      var target: nat :| JumpsTo(before, name, told, target, after);
      JumpGoesSomewhere(before, name, told, target, after);
    case Go(_) =>
      if before.chain.Some? {
        CommandsAreKnown(before, after);
      } else if Top(before).line == |Top(before).lines| {
        ReturnIsKnown(before, after, maximumDepth);
      } else {
        LinesAreKnown(before, after, maximumDepth);
      }
  }

  lemma {:induction false} ReturnIsKnown(before: Configuration, after: Configuration, maximumDepth: nat)
    requires before.stack != [] && Top(before).line == |Top(before).lines| &&
             after.stack == before.stack[..|before.stack| - 1]
    ensures Advances(before.stack, after.stack, maximumDepth)
  {
  }

  /** Standing at a later line is an advance. */
  lemma {:induction false} LaterLine(before: seq<Procedure>, line: nat, maximumDepth: nat)
    requires before != [] && var top := before[|before| - 1]; top.line < line <= |top.lines|
    ensures GoesOn(before, At(before, line)) && Advances(before, At(before, line), maximumDepth)
  {
  }

  lemma {:induction false} JumpGoesSomewhere(before: Configuration, name: string, told: State, target: nat,
                                             after: Configuration)
    requires JumpsTo(before, name, told, target, after)
    ensures after.stack != []
    ensures Top(after).line > Top(before).line ==>
            forall maximumDepth: nat :: Advances(before.stack, after.stack, maximumDepth)
  {
    if target + 1 > Top(before).line {
      forall maximumDepth: nat ensures Advances(before.stack, after.stack, maximumDepth) {
        LaterLine(before.stack, target + 1, maximumDepth);
      }
    }
  }

  lemma {:induction false} CommandsAreKnown(before: Configuration, after: Configuration)
    requires IsRunning(before) && before.chain.Some? && NextCommand(before) == Go(after)
    ensures RunsOn(before, after) || forall maximumDepth: nat :: Advances(before.stack, after.stack, maximumDepth)
  {
    hide ParseCommand, AreTokens, IsConsistent, Executed, Advances;
    var line := Top(before).line;
    assert At(before.stack, line) == before.stack;
    if after.stack != before.stack {
      var end := BlockEnd(Top(before).lines, line);
      assert after.stack == At(before.stack, end.value + 1);
      forall maximumDepth: nat ensures Advances(before.stack, after.stack, maximumDepth) {
        LaterLine(before.stack, end.value + 1, maximumDepth);
      }
    }
  }

  lemma {:induction false} LinesAreKnown(before: Configuration, after: Configuration, maximumDepth: nat)
    requires before.stack != [] && Top(before).line < |Top(before).lines| && IsConsistent(before.editor)
    requires NextLine(before, maximumDepth) == Go(after)
    ensures Advances(before.stack, after.stack, maximumDepth)
  {
    hide Trim, LineInput, BufferDirective, LabelDefinition, JumpDirective, IsNumericLine, NumericLine, IsConsistent,
         IsComment, AllTokens, Located, EndLocation;
    var line := Top(before).line + 1;
    LaterLine(before.stack, line, maximumDepth);
    if after.stack != At(before.stack, line) {
      assert after.stack[..|before.stack|] == At(before.stack, line);
    }
  }

  // ---------------------------------------------------------------- less and less to do

  lemma {:induction false} MeasureAt(config: Configuration, maximumDepth: nat, k: nat)
    requires k <= maximumDepth
    ensures Measure(config, maximumDepth)[k] == if k < maximumDepth then Left(config.stack, k) else ChainLeft(config)
  {
  }

  /** Every step that is not a backward jump leaves less to do. */
  lemma {:induction false} StepIsBelow(before: Configuration, after: Configuration, maximumDepth: nat)
    requires Steps(before, after, maximumDepth) && !JumpsBack(before, after, maximumDepth) &&
             |before.stack| <= maximumDepth
    ensures |after.stack| <= maximumDepth && Below(Measure(after, maximumDepth), Measure(before, maximumDepth))
  {
    hide Steps, JumpsBack, Measure;
    StepsAreKnown(before, after, maximumDepth);
    var a, b := Measure(after, maximumDepth), Measure(before, maximumDepth);
    var k := if Advances(before.stack, after.stack, maximumDepth) then |before.stack| - 1 else maximumDepth;
    forall depth | 0 <= depth < k ensures a[depth] == b[depth] {
      MeasureAt(after, maximumDepth, depth);
      MeasureAt(before, maximumDepth, depth);
      SameBelow(before.stack, after.stack, maximumDepth, depth);
    }
    MeasureAt(after, maximumDepth, k);
    MeasureAt(before, maximumDepth, k);
    assert a[..k] == b[..k];
    hide ChainLeft;
    BelowAt(a, b, k);
  }

  /** Below the topmost procedure, an advance changes nothing. */
  lemma {:induction false} SameBelow(before: seq<Procedure>, after: seq<Procedure>, maximumDepth: nat, depth: nat)
    ensures Advances(before, after, maximumDepth) && depth < |before| - 1 ==> Left(after, depth) == Left(before, depth)
  {
    if Advances(before, after, maximumDepth) && depth < |before| - 1 {
      var k := |before| - 1;
      assert after[..k] == before[..k] by {
        if Calls(before, after, maximumDepth) {
          assert after[..|before|][..k] == after[..k];
        }
      }
      assert after[..k][depth] == before[..k][depth];
    }
  }

  /** Nothing can go down for ever. */
  lemma {:induction false} NoEndlessDescent(measures: nat -> seq<nat>, width: nat, from: nat)
    requires forall k: nat :: |measures(k)| == width
    ensures exists k: nat :: from <= k && !Below(measures(k + 1), measures(k))
    decreases width, if width > 0 then measures(from)[0] else 0
  {
    if forall k: nat :: from <= k ==> Below(measures(k + 1), measures(k)) {
      assert Below(measures(from + 1), measures(from));
      if k: nat :| from <= k && measures(k)[0] < measures(from)[0] {
        NoEndlessDescent(measures, width, k);
      } else {
        var tails := (k: nat) => if |measures(k)| > 0 then measures(k)[1..] else [];
        forall k: nat | from <= k ensures Below(tails(k + 1), tails(k)) {
          FirstNeverGrows(measures, width, from, k);
          FirstNeverGrows(measures, width, from, k + 1);
          assert Below(measures(k + 1), measures(k));
        }
        NoEndlessDescent(tails, width - 1, from);
      }
    }
  }

  lemma {:induction false} FirstNeverGrows(measures: nat -> seq<nat>, width: nat, from: nat, k: nat)
    requires width > 0 && from <= k && forall i: nat :: |measures(i)| == width
    requires forall i: nat :: from <= i ==> Below(measures(i + 1), measures(i))
    ensures measures(k)[0] <= measures(from)[0]
    decreases k
  {
    if from < k {
      FirstNeverGrows(measures, width, from, k - 1);
      assert Below(measures(k - 1 + 1), measures(k - 1));
    }
  }

  /** Procedures never run deeper than the maximum. */
  lemma {:induction false} DepthIsBounded(run: nat -> Configuration, maximumDepth: nat, from: nat, k: nat)
    requires from <= k && |run(from).stack| <= maximumDepth
    requires forall i: nat :: from <= i ==> OnlyForward(run, i, maximumDepth)
    ensures |run(k).stack| <= maximumDepth
    decreases k
  {
    hide Steps, JumpsBack, Measure, Below;
    if from < k {
      DepthIsBounded(run, maximumDepth, from, k - 1);
      assert OnlyForward(run, k - 1, maximumDepth);
      StepIsBelow(run(k - 1), run(k - 1 + 1), maximumDepth);
    }
  }

  /** A step is taken here, and it is not a backward jump. */
  ghost predicate OnlyForward(run: nat -> Configuration, k: nat, maximumDepth: nat) {
    Steps(run(k), run(k + 1), maximumDepth) && !JumpsBack(run(k), run(k + 1), maximumDepth)
  }

  /** However far procedures have come: they end, or take another backward jump. */
  lemma {:induction false} EndlessRunsJumpBack(run: nat -> Configuration, maximumDepth: nat, from: nat)
    requires |run(from).stack| <= maximumDepth
    ensures exists k: nat :: from <= k && !OnlyForward(run, k, maximumDepth)
  {
    hide Steps, JumpsBack, Below, Measure;
    var measures := (k: nat) => Measure(run(k), maximumDepth);
    forall k: nat ensures |measures(k)| == maximumDepth + 1 {
      assert measures(k) == Measure(run(k), maximumDepth);
    }
    NoEndlessDescent(measures, maximumDepth + 1, from);
    var k: nat :| from <= k && !Below(measures(k + 1), measures(k));
    if forall i: nat :: from <= i ==> OnlyForward(run, i, maximumDepth) {
      DepthIsBounded(run, maximumDepth, from, k);
      assert OnlyForward(run, k, maximumDepth);
      StepIsBelow(run(k), run(k + 1), maximumDepth);
    }
  }
}
