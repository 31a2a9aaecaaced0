/** Runs of procedures: where a run of the machine ended and why, that there is only one, and that text is safe
  throughout. */
module ProcedureRuns {
  import opened Outcomes
  import opened Characters
  import opened Tokens
  import opened Lexing
  import opened CommandGrammar
  import opened Procedures
  import opened LineCommands
  import opened Semantics
  import opened Sessions
  import opened ProcedureMachine

  /** How a run ended: by itself, with an error (of which the user was told or not), or with a backward jump
    to take and none left. */
  datatype Outcome = Done | Failed(reported: bool) | OutOfJumps

  /** A run of the machine that took some of the backward jumps it may take and ended as the outcome says. It is done
    when it has come to `home` or something asked to leave; it is out of jumps only in front of another backward jump;
    and it fails only where the machine stops. Errors were shown if one of more than `silence` procedures can do so. */
  ghost predicate Ran(trace: seq<Configuration>, outcome: Outcome, budget: nat, left: nat, now: State,
                      home: seq<Procedure>, silence: nat, maximumDepth: nat)
  {
    && IsTrace(trace, maximumDepth) && BackJumps(trace, maximumDepth) + left == budget
    && var last := trace[|trace| - 1];
    match outcome
    case Done => last.editor == now && (now.exit || (last.stack == home && last.chain == None))
    case OutOfJumps => left == 0 && WantsBack(last, now, maximumDepth)
    case Failed(reported) => Failing(last, reported, now, silence, maximumDepth)
  }

  /** The next step is a backward jump; what the jump's line shows is already shown. */
  ghost predicate WantsBack(config: Configuration, now: State, maximumDepth: nat) {
    exists next :: JumpsBack(config, next, maximumDepth) && next.editor == now
  }

  ghost predicate Failing(config: Configuration, reported: bool, now: State, silence: nat, maximumDepth: nat) {
    && IsRunning(config) && !config.editor.exit && Stopped(config, maximumDepth).Some?
    && var stop := Stopped(config, maximumDepth).value;
    && reported == (Reporters(config.stack, stop) > silence)
    && now == if reported then Reported(config.stack, stop) else stop.editor
  }

  // ---------------------------------------------------------------- putting runs together

  /** Two traces, of which the second begins where the first ends. */
  function Joined(first: seq<Configuration>, second: seq<Configuration>): seq<Configuration>
    requires second != []
  {
    first + second[1..]
  }

  lemma {:induction false} JoinedIsTrace(first: seq<Configuration>, second: seq<Configuration>, maximumDepth: nat)
    requires IsTrace(first, maximumDepth) && IsTrace(second, maximumDepth) && first[|first| - 1] == second[0]
    ensures IsTrace(Joined(first, second), maximumDepth)
    ensures Joined(first, second)[0] == first[0]
    ensures Joined(first, second)[|Joined(first, second)| - 1] == second[|second| - 1]
    ensures BackJumps(Joined(first, second), maximumDepth) ==
            BackJumps(first, maximumDepth) + BackJumps(second, maximumDepth)
    decreases |second|
  {
    hide Steps, JumpsBack;
    if |second| == 1 {
      assert Joined(first, second) == first;
    } else {
      var before, last := second[..|second| - 1], second[|second| - 1];
      JoinedIsTrace(first, before, maximumDepth);
      assert Joined(first, second) == Joined(first, before) + [last];
      OneMore(Joined(first, before), last, maximumDepth);
      assert second == before + [last];
      OneMore(before, last, maximumDepth);
    }
  }

  /** A trace with one more step. */
  lemma {:induction false} OneMore(trace: seq<Configuration>, next: Configuration, maximumDepth: nat)
    requires IsTrace(trace, maximumDepth) && Steps(trace[|trace| - 1], next, maximumDepth)
    ensures IsTrace(trace + [next], maximumDepth)
    ensures BackJumps(trace + [next], maximumDepth) ==
            BackJumps(trace, maximumDepth) + if JumpsBack(trace[|trace| - 1], next, maximumDepth) then 1 else 0
  {
    hide Steps, JumpsBack;
    assert (trace + [next])[..|trace|] == trace;
  }

  /** A run that was done, and another one from where it came to. */
  lemma {:induction false} RunsJoin(first: seq<Configuration>, second: seq<Configuration>, budget: nat, between: nat,
                                    left: nat, home: seq<Procedure>, outcome: Outcome, now: State,
                                    goal: seq<Procedure>, silence: nat, otherSilence: nat, maximumDepth: nat)
    requires first != [] &&
             Ran(first, Done, budget, between, first[|first| - 1].editor, home, otherSilence, maximumDepth)
    requires Ran(second, outcome, between, left, now, goal, silence, maximumDepth) && first[|first| - 1] == second[0]
    ensures Ran(Joined(first, second), outcome, budget, left, now, goal, silence, maximumDepth)
    ensures Joined(first, second)[0] == first[0]
  {
    hide Steps, JumpsBack, Failing, WantsBack, Joined, BackJumps;
    JoinedIsTrace(first, second, maximumDepth);
  }

  /** Nothing has happened yet. */
  lemma {:induction false} StandingStill(config: Configuration, budget: nat, silence: nat, maximumDepth: nat)
    ensures IsTrace([config], maximumDepth) && BackJumps([config], maximumDepth) == 0
    ensures config.chain.None? ==>
            Ran([config], Done, budget, budget, config.editor, config.stack, silence, maximumDepth)
  {
  }

  /** One step forward. */
  lemma {:induction false} OneStep(before: Configuration, after: Configuration, budget: nat, silence: nat,
                                   maximumDepth: nat)
    requires Steps(before, after, maximumDepth) && !JumpsBack(before, after, maximumDepth)
    ensures IsTrace([before, after], maximumDepth) && BackJumps([before, after], maximumDepth) == 0
    ensures after.chain.None? ==>
            Ran([before, after], Done, budget, budget, after.editor, after.stack, silence, maximumDepth)
  {
    hide Steps, JumpsBack;
    StandingStill(before, budget, silence, maximumDepth);
    OneMore([before], after, maximumDepth);
    assert [before] + [after] == [before, after];
  }

  /** One step backwards. */
  lemma {:induction false} OneStepBack(before: Configuration, after: Configuration, budget: nat, silence: nat,
                                       maximumDepth: nat)
    requires JumpsBack(before, after, maximumDepth) && budget > 0 && after.chain.None?
    ensures Ran([before, after], Done, budget, budget - 1, after.editor, after.stack, silence, maximumDepth)
  {
    hide Steps;
    StandingStill(before, budget, silence, maximumDepth);
    OneMore([before], after, maximumDepth);
    assert [before] + [after] == [before, after];
  }

  // ---------------------------------------------------------------- the runs of one line

  /** A procedure above others, at a line. */
  function Place(below: seq<Procedure>, lines: seq<string>, line: nat, chain: Option<Chain>, editor: State):
    Configuration {
    Configuration(below + [Procedure(lines, line)], chain, editor)
  }

  lemma {:induction false} PlacedOnTop(below: seq<Procedure>, lines: seq<string>, line: nat, chain: Option<Chain>,
                                       editor: State)
    ensures var config := Place(below, lines, line, chain, editor);
      && config.stack != [] && Top(config) == Procedure(lines, line) && config.stack[..|config.stack| - 1] == below
      && forall other: nat :: At(config.stack, other) == below + [Procedure(lines, other)]
  {
  }

  /** The procedure, or one that it called, is still running. */
  predicate IsAbove(config: Configuration, below: seq<Procedure>) {
    |config.stack| > |below| && config.stack[..|below|] == below
  }

  lemma {:induction false} PlacedAbove(below: seq<Procedure>, lines: seq<string>, line: nat, chain: Option<Chain>,
                                       editor: State)
    ensures IsAbove(Place(below, lines, line, chain, editor), below)
  {
  }

  /** A step is a run. */
  lemma {:induction false} GoRan(first: Configuration, next: Configuration, budget: nat, silence: nat,
                                 maximumDepth: nat)
    requires IsRunning(first) && !first.editor.exit && Next(first, maximumDepth) == Go(next)
    ensures IsTrace([first, next], maximumDepth) && BackJumps([first, next], maximumDepth) == 0
    ensures next.chain.None? ==>
            Ran([first, next], Done, budget, budget, next.editor, next.stack, silence, maximumDepth)
  {
    hide Next, IsRunning;
    OneStep(first, next, budget, silence, maximumDepth);
  }

  /** An error is a run that goes nowhere. */
  lemma {:induction false} HaltRan(first: Configuration, stop: Stop, budget: nat, home: seq<Procedure>, silence: nat,
                                   maximumDepth: nat)
    requires IsRunning(first) && !first.editor.exit && Stopped(first, maximumDepth) == Some(stop)
    requires Reporters(first.stack, stop) <= silence
    ensures Ran([first], Failed(false), budget, budget, stop.editor, home, silence, maximumDepth)
  {
    hide Stopped, IsRunning;
    StandingStill(first, budget, silence, maximumDepth);
  }

  /** A jump was taken to its target, or not taken because of its condition; without a target it fails. A jump
    backwards takes one from the budget, and does not happen if there is nothing left of it. */
  ghost predicate Jumped(jump: Jump, condition: bool, lines: seq<string>, index: nat, budget: nat, outcome: Outcome,
                         target: nat, left: nat)
    requires index < |lines|
  {
    if jump.required.Some? && condition != jump.required.value then outcome == Done && target == index && left == budget
    else if IsJumpTarget(lines, index, jump.name, None) then outcome == Failed(false) && target == index &&
        left == budget
    else if outcome == OutOfJumps then
      && left == 0 == budget && target == index
      && exists t: nat :: t < index && IsJumpTarget(lines, index, jump.name, Some(t))
    else
      && outcome == Done && IsJumpTarget(lines, index, jump.name, Some(target))
      && left == if target < index then budget - 1 else budget
  }

  /** A run that began with a line of a procedure and came to another line; if an error is still to be shown, it is the
    business of this procedure to show it, with the line reached. */
  ghost predicate LineRan(below: seq<Procedure>, lines: seq<string>, index: nat, before: State,
                          trace: seq<Configuration>,
                          outcome: Outcome, budget: nat, left: nat, now: State, reached: nat, maximumDepth: nat)
  {
    && Ran(trace, outcome, budget, left, now, below + [Procedure(lines, reached + 1)], |below| + 1, maximumDepth)
    && trace[0] == Place(below, lines, index, None, before)
    && (outcome.Failed? ==> IsAbove(trace[|trace| - 1], below))
    && (outcome == Failed(false) ==> IsShownAt(trace[|trace| - 1], below, lines, reached, maximumDepth))
  }

  /** The error is shown by the procedure above `below`, with this line. */
  ghost predicate IsShownAt(config: Configuration, below: seq<Procedure>, lines: seq<string>, line: nat,
                            maximumDepth: nat) {
    && IsRunning(config) && Stopped(config, maximumDepth).Some? && |config.stack| > |below|
    && config.stack[|below|].lines == lines
    && var stop := Stopped(config, maximumDepth).value;
    && Reporters(config.stack, stop) == |below| + 1
    && line == if stop.silent then config.stack[|below|].line - 1 else stop.line
  }

  /** A step from one line to another. */
  lemma {:induction false} StepLine(below: seq<Procedure>, lines: seq<string>, index: nat, before: State,
                                    reached: nat, now: State, budget: nat, maximumDepth: nat)
    returns (trace: seq<Configuration>)
    requires var first := Place(below, lines, index, None, before);
      IsRunning(first) && !before.exit && Next(first, maximumDepth) == Go(Place(below, lines, reached + 1, None, now))
    ensures LineRan(below, lines, index, before, trace, Done, budget, budget, now, reached, maximumDepth)
  {
    hide Next, IsRunning, Ran;
    var first, next := Place(below, lines, index, None, before), Place(below, lines, reached + 1, None, now);
    GoRan(first, next, budget, |below| + 1, maximumDepth);
    trace := [first, next];
  }

  /** An error on a line itself. */
  lemma {:induction false} HaltLine(below: seq<Procedure>, lines: seq<string>, index: nat, before: State, now: State,
                                    budget: nat, maximumDepth: nat)
    returns (trace: seq<Configuration>)
    requires var first := Place(below, lines, index, None, before);
      IsRunning(first) && !before.exit && Stopped(first, maximumDepth) == Some(Stop(now, index, false))
    ensures LineRan(below, lines, index, before, trace, Failed(false), budget, budget, now, index, maximumDepth)
  {
    hide Stopped, IsRunning, Ran;
    var first := Place(below, lines, index, None, before);
    PlacedAbove(below, lines, index, None, before);
    HaltRan(first, Stop(now, index, false), budget, below + [Procedure(lines, index + 1)], |below| + 1, maximumDepth);
    trace := [first];
  }

  lemma {:induction false} HaltStops(first: Configuration, left: State, line: nat, silent: bool, maximumDepth: nat)
    requires IsRunning(first) && Next(first, maximumDepth) == Halt(left, line, silent)
    ensures Stopped(first, maximumDepth) == Some(Stop(left, line, silent))
  {
    hide Next, IsRunning;
  }

  lemma {:induction false} LineStops(below: seq<Procedure>, lines: seq<string>, index: nat, before: State, now: State,
                                     budget: nat, maximumDepth: nat)
    returns (trace: seq<Configuration>)
    requires var first := Place(below, lines, index, None, before);
      IsRunning(first) && !before.exit && Next(first, maximumDepth) == Halt(now, index, false)
    ensures LineRan(below, lines, index, before, trace, Failed(false), budget, budget, now, index, maximumDepth)
  {
    hide Next, IsRunning, LineRan;
    HaltStops(Place(below, lines, index, None, before), now, index, false, maximumDepth);
    hide Stopped;
    trace := HaltLine(below, lines, index, before, now, budget, maximumDepth);
  }

  /** What a jump does is a run. */
  lemma {:induction false} JumpRan(below: seq<Procedure>, lines: seq<string>, index: nat, before: State, jump: Jump,
                                   told: State, budget: nat, outcome: Outcome, target: nat, left: nat,
                                   maximumDepth: nat)
    returns (trace: seq<Configuration>)
    requires index < |lines| && IsConsistent(before) && !before.exit
    requires var first := Place(below, lines, index, None, before);
      IsRunning(first) && Next(first, maximumDepth) == NextJump(first, jump, told)
    requires target < |lines| && Jumped(jump, told.condition, lines, index, budget, outcome, target, left)
    ensures LineRan(below, lines, index, before, trace, outcome, budget, left, told, target, maximumDepth)
  {
    hide Next, IsRunning, IsJumpTarget, Ran, IsShownAt;
    var first := Place(below, lines, index, None, before);
    PlacedOnTop(below, lines, index, None, before);
    if jump.required.Some? && told.condition != jump.required.value {
      trace := StepLine(below, lines, index, before, index, told, budget, maximumDepth);
      return;
    }
    if IsJumpTarget(lines, index, jump.name, None) {
      trace := HaltLine(below, lines, index, before, told, budget, maximumDepth);
      return;
    }
    if outcome == OutOfJumps {
      var t: nat :| t < index && IsJumpTarget(lines, index, jump.name, Some(t));
      JumpIsStep(below, lines, index, before, jump.name, told, t, maximumDepth);
      OutOfJumpsRan(first, Place(below, lines, t + 1, None, told), below + [Procedure(lines, target + 1)],
                    |below| + 1, maximumDepth);
      return [first];
    }
    var next := Place(below, lines, target + 1, None, told);
    JumpIsStep(below, lines, index, before, jump.name, told, target, maximumDepth);
    TargetIsElsewhere(lines, index, jump.name, target);
    if target < index {
      OneStepBack(first, next, budget, |below| + 1, maximumDepth);
    } else {
      OneStep(first, next, budget, |below| + 1, maximumDepth);
    }
    return [first, next];
  }

  lemma {:induction false} TargetIsElsewhere(lines: seq<string>, index: nat, name: string, target: nat)
    requires index < |lines| && IsJumpTarget(lines, index, name, Some(target))
    ensures target != index && target < |lines|
  {
  }

  lemma {:induction false} JumpIsStep(below: seq<Procedure>, lines: seq<string>, index: nat, before: State,
                                      name: string, told: State, target: nat, maximumDepth: nat)
    requires index < |lines| && !before.exit && IsJumpTarget(lines, index, name, Some(target))
    requires var first := Place(below, lines, index, None, before);
      IsRunning(first) && Next(first, maximumDepth) == Seek(name, told)
    ensures var first, next := Place(below, lines, index, None, before), Place(below, lines, target + 1, None, told);
      Steps(first, next, maximumDepth) && JumpsBack(first, next, maximumDepth) == (target < index)
  {
    hide Next, IsRunning, IsJumpTarget;
    var first, next := Place(below, lines, index, None, before), Place(below, lines, target + 1, None, told);
    PlacedOnTop(below, lines, index, None, before);
    PlacedOnTop(below, lines, target + 1, None, told);
    assert JumpsTo(first, name, told, target, next);
  }

  lemma {:induction false} OutOfJumpsRan(first: Configuration, next: Configuration, home: seq<Procedure>,
                                         silence: nat, maximumDepth: nat)
    requires JumpsBack(first, next, maximumDepth)
    ensures Ran([first], OutOfJumps, 0, 0, next.editor, home, silence, maximumDepth)
  {
    hide JumpsBack;
    StandingStill(first, 0, silence, maximumDepth);
  }

  /** A step, and a run from where it leads. */
  lemma {:induction false} StepThenRun(first: Configuration, trace: seq<Configuration>, outcome: Outcome, budget: nat,
                                       left: nat, now: State, home: seq<Procedure>, silence: nat, maximumDepth: nat)
    requires Ran(trace, outcome, budget, left, now, home, silence, maximumDepth)
    requires IsRunning(first) && !first.editor.exit && Next(first, maximumDepth) == Go(trace[0])
    ensures Ran([first] + trace, outcome, budget, left, now, home, silence, maximumDepth)
  {
    hide Next, IsRunning, Failing, WantsBack, Steps, JumpsBack, BackJumps;
    GoRan(first, trace[0], budget, silence, maximumDepth);
    JoinedIsTrace([first, trace[0]], trace, maximumDepth);
    assert Joined([first, trace[0]], trace) == [first] + trace;
  }

  /** A run without backward jumps is one for every number of them. */
  lemma {:induction false} AnyBudget(trace: seq<Configuration>, succeeded: bool, budget: nat, now: State,
                                     home: seq<Procedure>, silence: nat, maximumDepth: nat)
    requires Ran(trace, if succeeded then Done else Failed(false), 0, 0, now, home, silence, maximumDepth)
    ensures Ran(trace, if succeeded then Done else Failed(false), budget, budget, now, home, silence, maximumDepth)
  {
    hide IsTrace, BackJumps, Failing;
  }

  // ---------------------------------------------------------------- lines

  /** What happens on a fresh line. */
  lemma {:induction false} NextIsLine(below: seq<Procedure>, lines: seq<string>, index: nat, state: State,
                                      maximumDepth: nat)
    requires index < |lines| && IsConsistent(state)
    ensures var first := Place(below, lines, index, None, state); var source := Trim(lines[index]);
      var input := LineInput(source, state, maximumDepth);
      && IsRunning(first) && Top(first) == Procedure(lines, index)
      && (source == "" ==> Next(first, maximumDepth) == Go(Place(below, lines, index + 1, None, state)))
      && (source != "" && input.Fail? ==> Next(first, maximumDepth) == Halt(state, index, true))
      && (source != "" && input.Ok? ==> Next(first, maximumDepth) == NextExpanded(first, input.value, maximumDepth))
  {
    hide IsConsistent, LineInput, Trim, NextExpanded;
    PlacedOnTop(below, lines, index, None, state);
  }

  /** What happens on an expanded line. */
  lemma {:induction false} NextIsExpanded(below: seq<Procedure>, lines: seq<string>, index: nat, state: State,
                                          input: seq<InputCharacter>, maximumDepth: nat)
    requires index < |lines| && IsConsistent(state)
    ensures var first := Place(below, lines, index, None, state); var value := Trim(Values(input));
      var directive := BufferDirective(value); var definition := LabelDefinition(value); var told := Echoed(state,
              value);
      && Top(first) == Procedure(lines, index)
      && NextExpanded(first, input, maximumDepth) ==
         if directive.Fail? then Halt(state, index, false)
         else if directive.value.Some? then
           if |below| + 1 >= maximumDepth || directive.value.value !in state.texts then Halt(told, index, false)
           else Go(Place(below + [Procedure(lines, index + 1)], state.texts[directive.value.value].lines, 0, None,
                         told))
         else if definition.Fail? then Halt(state, index, false)
         else if definition.value.Some? then Go(Place(below, lines, index + 1, None, told))
         else NextControl(first, value, input)
  {
    hide IsConsistent, Trim, BufferDirective, LabelDefinition, NextControl;
    PlacedOnTop(below, lines, index, None, state);
  }

  /** What happens on a line that is no directive and no label. */
  lemma {:induction false} NextIsControl(below: seq<Procedure>, lines: seq<string>, index: nat, state: State,
                                         value: string, input: seq<InputCharacter>)
    requires index < |lines| && IsConsistent(state)
    ensures var first := Place(below, lines, index, None, state); var jump := JumpDirective(value);
      && Top(first) == Procedure(lines, index)
      && NextControl(first, value, input) ==
         if IsNumericLine(value) then
           var numeric := NumericLine(value, |Here(state).lines|, Here(state).currentLine, NumericOf(state));
           var after := Calculated(state, numeric.0); var told := Echoed(after, value);
           if numeric.1.Fail? then Halt(after, index, false)
           else if numeric.1.value == "" then Go(Place(below, lines, index + 1, None, told))
           else if JumpDirective(numeric.1.value).Ok? && JumpDirective(numeric.1.value).value.Some? then
             NextJump(first, JumpDirective(numeric.1.value).value.value, told)
           else Halt(told, index, false)
         else if jump.Fail? then Halt(state, index, false)
         else if jump.value.Some? then NextJump(first, jump.value.value, Echoed(state, value))
         else if value == "" then Go(Place(below, lines, index + 1, None, state))
         else Go(AmongCommands(below, lines, index + 1, input, 0, if IsComment(value) then state
                               else Echoed(state, value)))
  {
    hide IsConsistent, JumpDirective, IsNumericLine, NumericLine, NextJump, IsComment, AllTokens, Located, EndLocation;
    PlacedOnTop(below, lines, index, None, state);
  }

  /** A line of commands. */
  lemma {:induction false} CommandLine(below: seq<Procedure>, lines: seq<string>, index: nat, state: State,
                                       told: State, input: seq<InputCharacter>, commands: seq<Configuration>,
                                       succeeded: bool, now: State, reached: nat, budget: nat, maximumDepth: nat)
    returns (trace: seq<Configuration>)
    requires var first := Place(below, lines, index, None, state);
      && IsRunning(first) && !state.exit
      && Next(first, maximumDepth) == Go(AmongCommands(below, lines, index + 1, input, 0, told))
    requires CommandsRan(below, lines, index, input, told, commands, succeeded, now, reached, maximumDepth)
    ensures LineRan(below, lines, index, state, trace, if succeeded then Done else Failed(false), budget, budget, now,
                    reached, maximumDepth)
  {
    hide Next, IsRunning, Ran, IsShownAt, AmongCommands;
    var first := Place(below, lines, index, None, state);
    RunsHaveSteps(commands, if succeeded then Done else Failed(false), 0, 0, now,
                  below + [Procedure(lines, reached + 1)], |below| + 1, maximumDepth);
    AnyBudget(commands, succeeded, budget, now, below + [Procedure(lines, reached + 1)], |below| + 1, maximumDepth);
    StepThenRun(first, commands, if succeeded then Done else Failed(false), budget, budget, now,
                below + [Procedure(lines, reached + 1)], |below| + 1, maximumDepth);
    trace := [first] + commands;
  }

  lemma {:induction false} RunsHaveSteps(trace: seq<Configuration>, outcome: Outcome, budget: nat, left: nat,
                                         now: State, home: seq<Procedure>, silence: nat, maximumDepth: nat)
    requires Ran(trace, outcome, budget, left, now, home, silence, maximumDepth)
    ensures trace != [] && left <= budget && (outcome == OutOfJumps ==> left == 0)
    ensures outcome == Done ==> trace[|trace| - 1].editor == now
    ensures outcome == Done && !now.exit ==> trace[|trace| - 1] == Configuration(home, None, now)
  {
    hide Steps, BackJumps, Failing, WantsBack;
  }

  /** A line that runs another procedure. */
  lemma {:induction false} CallLine(below: seq<Procedure>, lines: seq<string>, index: nat, state: State, told: State,
                                    called: seq<string>, nested: seq<Configuration>, outcome: Outcome, budget: nat,
                                    left: nat, now: State, maximumDepth: nat)
    returns (trace: seq<Configuration>)
    requires var first := Place(below, lines, index, None, state); var under := below + [Procedure(lines, index + 1)];
      && IsRunning(first) && !state.exit
      && Next(first, maximumDepth) == Go(Place(under, called, 0, None, told))
      && BufferRan(under, called, told, nested, outcome, budget, left, now, maximumDepth)
    ensures LineRan(below, lines, index, state, trace, outcome, budget, left, now, index, maximumDepth)
  {
    hide Next, IsRunning, Ran, IsShownAt;
    var first, under := Place(below, lines, index, None, state), below + [Procedure(lines, index + 1)];
    RunsHaveSteps(nested, outcome, budget, left, now, under, |under|, maximumDepth);
    StepThenRun(first, nested, outcome, budget, left, now, under, |below| + 1, maximumDepth);
    trace := [first] + nested;
    if outcome.Failed? {
      AboveIsAbove(nested[|nested| - 1], below, Procedure(lines, index + 1));
      if outcome == Failed(false) {
        CallerShows(nested, below, lines, index, budget, left, now, under, maximumDepth);
      }
    }
  }

  lemma {:induction false} AboveIsAbove(config: Configuration, below: seq<Procedure>, procedure: Procedure)
    requires IsAbove(config, below + [procedure])
    ensures IsAbove(config, below) && config.stack[|below|] == procedure && |config.stack| > |below| + 1
  {
    assert config.stack[..|below| + 1][..|below|] == config.stack[..|below|];
    assert config.stack[..|below| + 1][|below|] == config.stack[|below|];
  }

  /** An error that a procedure left to its caller is shown with the calling line. */
  lemma {:induction false} CallerShows(nested: seq<Configuration>, below: seq<Procedure>, lines: seq<string>,
                                       index: nat, budget: nat, left: nat, now: State, home: seq<Procedure>,
                                       maximumDepth: nat)
    requires Ran(nested, Failed(false), budget, left, now, home, |below| + 1, maximumDepth)
    requires IsAbove(nested[|nested| - 1], below + [Procedure(lines, index + 1)])
    ensures IsShownAt(nested[|nested| - 1], below, lines, index, maximumDepth)
  {
    hide Steps, BackJumps, Stopped, IsRunning;
    AboveIsAbove(nested[|nested| - 1], below, Procedure(lines, index + 1));
  }

  /** A run of a procedure; errors that it cannot show itself are left to those below. */
  ghost predicate BufferRan(below: seq<Procedure>, lines: seq<string>, before: State, trace: seq<Configuration>,
                            outcome: Outcome, budget: nat, left: nat, now: State, maximumDepth: nat)
  {
    && Ran(trace, outcome, budget, left, now, below, |below|, maximumDepth)
    && trace[0] == Place(below, lines, 0, None, before)
    && (outcome.Failed? ==> IsAbove(trace[|trace| - 1], below))
  }

  // ---------------------------------------------------------------- whole procedures

  /** What a line did, with its error shown if this procedure can do so. */
  ghost predicate LineEnded(below: seq<Procedure>, lines: seq<string>, index: nat, before: State,
                            trace: seq<Configuration>,
                            outcome: Outcome, budget: nat, left: nat, now: State, reached: nat, maximumDepth: nat)
  {
    && Ran(trace, outcome, budget, left, now, below + [Procedure(lines, reached + 1)], |below|, maximumDepth)
    && trace[0] == Place(below, lines, index, None, before)
    && (outcome.Failed? ==> IsAbove(trace[|trace| - 1], below))
  }

  /** Nothing is to be shown by this procedure. */
  lemma {:induction false} NothingToShow(below: seq<Procedure>, lines: seq<string>, index: nat, before: State,
                                         trace: seq<Configuration>, outcome: Outcome, budget: nat, left: nat,
                                         now: State, reached: nat, maximumDepth: nat)
    requires LineRan(below, lines, index, before, trace, outcome, budget, left, now, reached, maximumDepth)
    requires outcome != Failed(false)
    ensures LineEnded(below, lines, index, before, trace, outcome, budget, left, now, reached, maximumDepth)
  {
    hide Steps, BackJumps, Stopped, IsRunning;
  }

  /** The error is shown. */
  lemma {:induction false} ErrorShown(below: seq<Procedure>, lines: seq<string>, index: nat, before: State,
                                      trace: seq<Configuration>, budget: nat, left: nat, now: State, reached: nat,
                                      maximumDepth: nat)
    requires LineRan(below, lines, index, before, trace, Failed(false), budget, left, now, reached, maximumDepth)
    ensures var shown := now.(output := now.output + PrintedLines(ErrorContext(lines, reached)));
      LineEnded(below, lines, index, before, trace, Failed(true), budget, left, shown, reached, maximumDepth)
  {
    hide Steps, BackJumps, Stopped, IsRunning, ErrorContext, PrintedLines;
  }

  /** The error is left to the caller. */
  lemma {:induction false} ErrorLeft(below: seq<Procedure>, lines: seq<string>, index: nat, state: State, budget: nat,
                                     maximumDepth: nat)
    returns (trace: seq<Configuration>)
    requires var first := Place(below, lines, index, None, state);
      IsRunning(first) && !state.exit && Next(first, maximumDepth) == Halt(state, index, true)
    ensures LineEnded(below, lines, index, state, trace, Failed(false), budget, budget, state, index, maximumDepth)
  {
    hide Next, IsRunning, Ran;
    var first := Place(below, lines, index, None, state);
    PlacedAbove(below, lines, index, None, state);
    HaltStops(first, state, index, true, maximumDepth);
    hide Stopped;
    HaltRan(first, Stop(state, index, true), budget, below + [Procedure(lines, index + 1)], |below|, maximumDepth);
    trace := [first];
  }

  /** The lines of a procedure so far. */
  ghost predicate BufferRunning(below: seq<Procedure>, lines: seq<string>, before: State, trace: seq<Configuration>,
                                budget: nat, left: nat, now: State, index: nat, maximumDepth: nat)
  {
    && Ran(trace, Done, budget, left, now, below + [Procedure(lines, index)], |below|, maximumDepth)
    && trace[0] == Place(below, lines, 0, None, before)
  }

  lemma {:induction false} BufferBegins(below: seq<Procedure>, lines: seq<string>, before: State, budget: nat,
                                        maximumDepth: nat)
    returns (trace: seq<Configuration>)
    ensures BufferRunning(below, lines, before, trace, budget, budget, before, 0, maximumDepth)
  {
    hide Ran;
    trace := [Place(below, lines, 0, None, before)];
    StandingStill(trace[0], budget, |below|, maximumDepth);
  }

  /** One more line. */
  lemma {:induction false} BufferGoesOn(below: seq<Procedure>, lines: seq<string>, before: State,
                                        trace: seq<Configuration>, budget: nat, between: nat, state: State,
                                        index: nat, line: seq<Configuration>, outcome: Outcome, left: nat, now: State,
                                        reached: nat, maximumDepth: nat)
    returns (longer: seq<Configuration>)
    requires BufferRunning(below, lines, before, trace, budget, between, state, index, maximumDepth) && !state.exit
    requires LineEnded(below, lines, index, state, line, outcome, between, left, now, reached, maximumDepth)
    ensures outcome == Done ==>
            BufferRunning(below, lines, before, longer, budget, left, now, reached + 1, maximumDepth)
    ensures outcome != Done ==> BufferRan(below, lines, before, longer, outcome, budget, left, now, maximumDepth)
  {
    hide Ran;
    var home, goal := below + [Procedure(lines, index)], below + [Procedure(lines, reached + 1)];
    RunsHaveSteps(trace, Done, budget, between, state, home, |below|, maximumDepth);
    RunsHaveSteps(line, outcome, between, left, now, goal, |below|, maximumDepth);
    RunsJoin(trace, line, budget, between, left, home, outcome, now, goal, |below|, |below|, maximumDepth);
    longer := Joined(trace, line);
    assert longer[|longer| - 1] == line[|line| - 1];
    if outcome != Done {
      AnyHome(longer, outcome, budget, left, now, goal, below, |below|, maximumDepth);
    }
  }

  /** Only a run that is done has come home. */
  lemma {:induction false} AnyHome(trace: seq<Configuration>, outcome: Outcome, budget: nat, left: nat, now: State,
                                   home: seq<Procedure>, other: seq<Procedure>, silence: nat, maximumDepth: nat)
    requires Ran(trace, outcome, budget, left, now, home, silence, maximumDepth) && (outcome != Done || now.exit)
    ensures Ran(trace, outcome, budget, left, now, other, silence, maximumDepth)
  {
    hide IsTrace, BackJumps, WantsBack, Failing;
  }

  /** The end of a procedure, or something asked to leave. */
  lemma {:induction false} BufferEnds(below: seq<Procedure>, lines: seq<string>, before: State,
                                      trace: seq<Configuration>, budget: nat, left: nat, now: State, index: nat,
                                      maximumDepth: nat)
    returns (whole: seq<Configuration>)
    requires BufferRunning(below, lines, before, trace, budget, left, now, index, maximumDepth)
    requires IsConsistent(now) && (now.exit || index == |lines|)
    ensures BufferRan(below, lines, before, whole, Done, budget, left, now, maximumDepth)
  {
    hide Ran, IsConsistent, Next;
    var home := below + [Procedure(lines, index)];
    RunsHaveSteps(trace, Done, budget, left, now, home, |below|, maximumDepth);
    if now.exit {
      AnyHome(trace, Done, budget, left, now, home, below, |below|, maximumDepth);
      return trace;
    }
    var last, after := trace[|trace| - 1], Configuration(below, None, now);
    NextIsReturn(below, lines, now, maximumDepth);
    GoRan(last, after, left, |below|, maximumDepth);
    RunsJoin(trace, [last, after], budget, left, left, home, Done, now, below, |below|, |below|, maximumDepth);
    whole := Joined(trace, [last, after]);
  }

  lemma {:induction false} NextIsReturn(below: seq<Procedure>, lines: seq<string>, state: State, maximumDepth: nat)
    requires IsConsistent(state)
    ensures var last := Place(below, lines, |lines|, None, state);
      IsRunning(last) && Next(last, maximumDepth) == Go(Configuration(below, None, state))
  {
    hide IsConsistent, NextLine, NextCommand;
    PlacedOnTop(below, lines, |lines|, None, state);
  }

  // ---------------------------------------------------------------- the commands of a line

  /** In the middle of the commands of a line. */
  function AmongCommands(below: seq<Procedure>, lines: seq<string>, line: nat, input: seq<InputCharacter>,
                         position: nat,
                         state: State): Configuration
  {
    Place(below, lines, line, Some(Chain(AllTokens(Located(input), EndLocation(input), 0), position)), state)
  }

  /** The commands of a line so far. */
  ghost predicate CommandsRunning(below: seq<Procedure>, lines: seq<string>, index: nat, input: seq<InputCharacter>,
                                  before: State,
                                  trace: seq<Configuration>, position: nat, now: State, reached: nat, maximumDepth: nat)
  {
    && IsTrace(trace, maximumDepth) && BackJumps(trace, maximumDepth) == 0 && IsConsistent(now)
    && reached < |lines| && position < |AllTokens(Located(input), EndLocation(input), 0)|
    && trace[0] == AmongCommands(below, lines, index + 1, input, 0, before)
    && trace[|trace| - 1] == AmongCommands(below, lines, reached + 1, input, position, now)
  }

  /** All commands of a line, or those up to the first error. */
  ghost predicate CommandsRan(below: seq<Procedure>, lines: seq<string>, index: nat, input: seq<InputCharacter>,
                              before: State,
                              trace: seq<Configuration>, succeeded: bool, now: State, reached: nat, maximumDepth: nat)
  {
    && Ran(trace, if succeeded then Done
           else Failed(false), 0, 0, now, below + [Procedure(lines, reached + 1)], |below| + 1, maximumDepth)
    && trace[0] == AmongCommands(below, lines, index + 1, input, 0, before)
    && (!succeeded ==>
          && IsAbove(trace[|trace| - 1], below)
          && IsShownAt(trace[|trace| - 1], below, lines, reached, maximumDepth))
  }

  lemma {:induction false} CommandsBegin(below: seq<Procedure>, lines: seq<string>, index: nat,
                                         input: seq<InputCharacter>, before: State, maximumDepth: nat)
    returns (trace: seq<Configuration>)
    requires IsConsistent(before) && index < |lines|
    ensures CommandsRunning(below, lines, index, input, before, trace, 0, before, index, maximumDepth)
  {
    hide IsConsistent, AllTokens;
    trace := [AmongCommands(below, lines, index + 1, input, 0, before)];
    StandingStill(trace[0], 0, 0, maximumDepth);
  }

  /** Where the commands stand. */
  lemma {:induction false} CommandsStand(below: seq<Procedure>, lines: seq<string>, index: nat,
                                         input: seq<InputCharacter>, before: State, trace: seq<Configuration>,
                                         position: nat, now: State, reached: nat, maximumDepth: nat)
    returns (config: Configuration)
    requires CommandsRunning(below, lines, index, input, before, trace, position, now, reached, maximumDepth)
    ensures config == AmongCommands(below, lines, reached + 1, input, position, now) && trace[|trace| - 1] == config
    ensures config.chain == Some(Chain(AllTokens(Located(input), EndLocation(input), 0), position)) &&
            config.editor == now
    ensures IsRunning(config) && Top(config) == Procedure(lines, reached + 1)
  {
    hide IsConsistent, AreTokens, AllTokens;
    config := trace[|trace| - 1];
    PlacedOnTop(below, lines, reached + 1, config.chain, now);
  }

  /** What a command does, with the lines behind it that it takes. */
  lemma {:induction false} ParsedIs(config: Configuration, command: Command, position: nat, lines: seq<string>,
                                    index: nat)
    requires IsRunning(config) && config.chain.Some? && Top(config) == Procedure(lines, index + 1) && index < |lines|
    ensures NextParsed(config, command, position) ==
            if !IsTextCommand(command) then NextInput(config, Input(command, []), position, index + 1)
            else
              var end := BlockEnd(lines, index + 1);
              if end.None? then Halt(config.editor, index, false)
              else NextInput(config, Input(command, lines[index + 1..end.value]), position, end.value + 1)
  {
    hide IsRunning, NextInput, BlockEnd;
  }

  /** One more command. */
  lemma {:induction false} CommandsGoOn(below: seq<Procedure>, lines: seq<string>, index: nat,
                                        input: seq<InputCharacter>, before: State, trace: seq<Configuration>,
                                        position: nat, between: State, reached: nat, next: nat, more: nat, now: State,
                                        maximumDepth: nat)
    returns (longer: seq<Configuration>)
    requires CommandsRunning(below, lines, index, input, before, trace, position, between, reached, maximumDepth)
    requires next < |lines| && more < |AllTokens(Located(input), EndLocation(input), 0)| && IsConsistent(now) &&
             !between.exit
    requires var config := AmongCommands(below, lines, reached + 1, input, position, between);
      IsRunning(config) && NextCommand(config) ==
      Go(Configuration(At(config.stack, next + 1), Some(Chain(AllTokens(Located(input), EndLocation(input), 0), more)),
                       now))
    ensures CommandsRunning(below, lines, index, input, before, longer, more, now, next, maximumDepth)
  {
    hide IsRunning, NextCommand, AllTokens, Steps, JumpsBack, IsConsistent;
    var config := trace[|trace| - 1];
    PlacedOnTop(below, lines, reached + 1, config.chain, between);
    var after := AmongCommands(below, lines, next + 1, input, more, now);
    NextIsCommand(config, maximumDepth);
    GoRan(config, after, 0, 0, maximumDepth);
    assert IsTrace([config, after], maximumDepth);
    JoinedIsTrace(trace, [config, after], maximumDepth);
    longer := Joined(trace, [config, after]);
  }

  lemma {:induction false} NextIsCommand(config: Configuration, maximumDepth: nat)
    requires IsRunning(config) && config.chain.Some?
    ensures Next(config, maximumDepth) == NextCommand(config)
  {
    hide IsRunning, NextCommand;
  }

  /** A command that fails. */
  lemma {:induction false} CommandsFail(below: seq<Procedure>, lines: seq<string>, index: nat,
                                        input: seq<InputCharacter>, before: State, trace: seq<Configuration>,
                                        position: nat, between: State, reached: nat, next: nat, now: State,
                                        maximumDepth: nat)
    requires CommandsRunning(below, lines, index, input, before, trace, position, between, reached, maximumDepth) &&
             !between.exit
    requires var config := AmongCommands(below, lines, reached + 1, input, position, between);
      IsRunning(config) && NextCommand(config) == Halt(now, next, false)
    ensures CommandsRan(below, lines, index, input, before, trace, false, now, next, maximumDepth)
  {
    hide IsRunning, NextCommand, AllTokens, IsConsistent, Steps, BackJumps;
    var config := trace[|trace| - 1];
    PlacedOnTop(below, lines, reached + 1, config.chain, between);
    PlacedAbove(below, lines, reached + 1, config.chain, between);
    NextIsCommand(config, maximumDepth);
    HaltStops(config, now, next, false, maximumDepth);
    hide Stopped;
  }

  /** The commands are at their end, or something asked to leave. */
  lemma {:induction false} CommandsEnd(below: seq<Procedure>, lines: seq<string>, index: nat,
                                       input: seq<InputCharacter>, before: State, trace: seq<Configuration>,
                                       position: nat, now: State, reached: nat, maximumDepth: nat)
    returns (whole: seq<Configuration>)
    requires CommandsRunning(below, lines, index, input, before, trace, position, now, reached, maximumDepth)
    requires now.exit || position == |AllTokens(Located(input), EndLocation(input), 0)| - 1
    ensures CommandsRan(below, lines, index, input, before, whole, true, now, reached, maximumDepth)
  {
    hide AllTokens, IsConsistent, AreTokens, Steps, JumpsBack, Next;
    if now.exit {
      return trace;
    }
    var config := trace[|trace| - 1];
    var after := Place(below, lines, reached + 1, None, now);
    PlacedOnTop(below, lines, reached + 1, config.chain, now);
    NextIsCommand(config, maximumDepth);
    GoRan(config, after, 0, |below| + 1, maximumDepth);
    JoinedIsTrace(trace, [config, after], maximumDepth);
    whole := Joined(trace, [config, after]);
  }

  // ---------------------------------------------------------------- there is only one run

  /** What the machine does next is determined. */
  lemma {:induction false} StepsAreUnique(before: Configuration, one: Configuration, two: Configuration,
                                          maximumDepth: nat)
    requires Steps(before, one, maximumDepth) && Steps(before, two, maximumDepth)
    ensures one == two && Stopped(before, maximumDepth).None?
  {
    hide IsRunning, NextCommand, NextLine, IsJumpTarget;
    var move := Next(before, maximumDepth);
    if move.Seek? {
      hide Next;
      var t: nat :| JumpsTo(before, move.name, move.told, t, one);
      var u: nat :| JumpsTo(before, move.name, move.told, u, two);
      var top := Top(before);
      JumpTargetIsUnique(top.lines, top.line, move.name, Some(t), Some(u));
      if IsJumpTarget(top.lines, top.line, move.name, None) {
        JumpTargetIsUnique(top.lines, top.line, move.name, Some(t), None);
      }
    }
  }

  /** Two runs from the same start are the same as far as they go; so a larger number of backward jumps only makes
    a run longer. */
  lemma {:induction false} RunsAgree(one: seq<Configuration>, two: seq<Configuration>, maximumDepth: nat)
    requires IsTrace(one, maximumDepth) && IsTrace(two, maximumDepth) && one[0] == two[0] && |one| <= |two|
    ensures one == two[..|one|]
  {
    hide Steps;
    if |one| > 1 {
      var k := |one| - 1;
      RunsAgree(one[..k], two, maximumDepth);
      assert one[k - 1] == one[..k][k - 1] == two[..k][k - 1] == two[k - 1];
      assert Steps(one[k - 1], one[k], maximumDepth) && Steps(two[k - 1], two[k], maximumDepth);
      StepsAreUnique(one[k - 1], one[k], two[k], maximumDepth);
      assert one == one[..k] + [one[k]] && two[..k + 1] == two[..k] + [two[k]];
    }
  }

  // ---------------------------------------------------------------- text is safe

  /** The state that a move leads to. */
  function Reached(move: Move): State {
    match move
    case Go(next) => next.editor
    case Seek(_, told) => told
    case Halt(left, _, _) => left
  }

  /** No text, no file, and nothing asked to leave. */
  predicate TouchesNoText(before: State, after: State) {
    && after.texts == before.texts && after.recent == before.recent && after.current == before.current
    && after.files == before.files && after.exit == before.exit && after.immediate == before.immediate
  }

  lemma {:induction false} NoTextTouched(before: State, after: State)
    requires TouchesNoText(before, after)
    ensures KeepsText(before, after) && LeavesSafely(before, after)
    ensures IsConsistent(before) ==> IsConsistent(after)
  {
    hide OnFile, AreConsistent;
    SameTexts(before, after);
  }

  lemma {:induction false} SameTexts(before: State, after: State)
    requires after.texts == before.texts
    ensures KeepsText(before, after)
  {
    hide OnFile;
  }

  /** Lines that are no commands touch no text. */
  lemma {:induction false} LinesTouchNoText(config: Configuration, maximumDepth: nat)
    requires config.stack != [] && Top(config).line < |Top(config).lines| && IsConsistent(config.editor)
    ensures TouchesNoText(config.editor, Reached(NextLine(config, maximumDepth)))
  {
    hide Trim, LineInput, BufferDirective, LabelDefinition, IsConsistent, NextControl, At;
    forall value, input ensures TouchesNoText(config.editor, Reached(NextControl(config, value, input))) {
      ControlTouchesNoText(config, value, input);
    }
  }

  lemma {:induction false} ControlTouchesNoText(config: Configuration, value: string, input: seq<InputCharacter>)
    requires config.stack != [] && IsConsistent(config.editor)
    ensures TouchesNoText(config.editor, Reached(NextControl(config, value, input)))
  {
    hide JumpDirective, IsNumericLine, NumericLine, IsConsistent, IsComment, AllTokens, Located, EndLocation, At,
         TouchesNoText, Echoed, Calculated, NumericOf;
    forall numeric { ControlStates(config.editor, numeric, value); }
    ControlStates(config.editor, NumericOf(config.editor), value);
  }

  lemma {:induction false} ControlStates(state: State, numeric: Numeric, value: string)
    ensures TouchesNoText(state, state) && TouchesNoText(state, Echoed(state, value))
    ensures TouchesNoText(state, Calculated(state, numeric)) &&
            TouchesNoText(state, Echoed(Calculated(state, numeric), value))
  {
  }

  /** Whatever happens next, even an error, keeps all text. */
  lemma {:induction false} MovesKeepText(config: Configuration, maximumDepth: nat)
    requires IsRunning(config)
    ensures var after := Reached(Next(config, maximumDepth));
      KeepsText(config.editor, after) && LeavesSafely(config.editor, after) && IsConsistent(after)
  {
    hide NextLine, ParseCommand, AreTokens, IsConsistent, Executed, KeepsText, LeavesSafely, At;
    NoTextTouched(config.editor, config.editor);
    if config.chain.Some? {
      var chain := config.chain.value;
      if chain.position < |chain.tokens| - 1 {
        var parsed := ParseCommand(chain.tokens, chain.position, true);
        if parsed.Ok? {
          CommandsKeepText(config, parsed.value.0);
        }
      }
    } else if Top(config).line < |Top(config).lines| {
      LinesTouchNoText(config, maximumDepth);
      NoTextTouched(config.editor, Reached(NextLine(config, maximumDepth)));
    }
  }

  lemma {:induction false} CommandsKeepText(config: Configuration, command: Command)
    requires IsRunning(config)
    ensures forall lines :: var after := Executed(config.editor, Input(command, lines)).after;
      KeepsText(config.editor, after) && LeavesSafely(config.editor, after)
  {
    forall lines
      ensures var after := Executed(config.editor, Input(command, lines)).after;
        KeepsText(config.editor, after) && LeavesSafely(config.editor, after)
    {
      ExecutedKeepsText(config.editor, Input(command, lines));
      ExecutedLeavesSafely(config.editor, Input(command, lines));
    }
  }

  /** The states of the editor along a trace. */
  function Editors(trace: seq<Configuration>): (editors: seq<State>)
    ensures |editors| == |trace| && forall k :: 0 <= k < |trace| ==> editors[k] == trace[k].editor
  {
    seq(|trace|, k requires 0 <= k < |trace| => trace[k].editor)
  }

  lemma {:induction false} StepsKeepText(before: Configuration, after: Configuration, maximumDepth: nat)
    requires Steps(before, after, maximumDepth)
    ensures KeepsText(before.editor, after.editor) && LeavesSafely(before.editor, after.editor)
  {
    hide Next, IsRunning, KeepsText, LeavesSafely;
    MovesKeepText(before, maximumDepth);
  }

  lemma {:induction false} EndsKeepText(trace: seq<Configuration>, outcome: Outcome, budget: nat, left: nat,
                                        now: State, home: seq<Procedure>, silence: nat, maximumDepth: nat)
    requires Ran(trace, outcome, budget, left, now, home, silence, maximumDepth)
    ensures var last := trace[|trace| - 1].editor;
      && KeepsText(last, now) && (now.exit && !last.exit ==> now.immediate || AllSaved(now))
      && (last.exit ==> now == last)
  {
    hide Next, IsRunning, KeepsText, AllSaved, Steps, BackJumps, ErrorContext;
    var last := trace[|trace| - 1];
    match outcome
    case Done => NoTextTouched(now, now);
    case OutOfJumps =>
      var next :| JumpsBack(last, next, maximumDepth) && next.editor == now;
      StepsKeepText(last, next, maximumDepth);
      RunsFromHere(last, next, maximumDepth);
    case Failed(reported) =>
      MovesKeepText(last, maximumDepth);
      var stop := Stopped(last, maximumDepth).value;
      NoTextTouched(stop.editor, now);
      SameSaved(last.editor, stop.editor, now);
  }

  lemma {:induction false} RunsFromHere(before: Configuration, after: Configuration, maximumDepth: nat)
    requires Steps(before, after, maximumDepth)
    ensures !before.editor.exit
  {
  }

  lemma {:induction false} SameSaved(before: State, between: State, after: State)
    requires KeepsText(before, between) && TouchesNoText(between, after)
    ensures KeepsText(before, after) && AllSaved(after) == AllSaved(between)
  {
    hide OnFile;
  }

  /** Over every run of procedures, however it ends: saved text is that from the beginning, or none, or it was on a file
    at some time, only empty buffers disappear, and after a `Q` nothing is left unsaved. */
  lemma {:induction false} RunsAreSafe(before: State, trace: seq<Configuration>, outcome: Outcome, budget: nat,
                                       left: nat, now: State, home: seq<Procedure>, silence: nat, maximumDepth: nat)
    requires Ran(trace, outcome, budget, left, now, home, silence, maximumDepth)
    requires KeepsText(before, trace[0].editor) && !trace[0].editor.exit
    ensures Remembers([before] + Editors(trace) + [now])
    ensures now.exit && !now.immediate ==> AllSaved(now)
  {
    hide KeepsText, Remembers, AllSaved, Steps, BackJumps, WantsBack, Failing;
    EndsKeepText(trace, outcome, budget, left, now, home, silence, maximumDepth);
    var log := [before] + Editors(trace) + [now];
    forall k | 0 < k < |log| ensures KeepsText(log[k - 1], log[k]) {
      if 1 < k <= |trace| {
        StepsKeepText(trace[k - 2], trace[k - 1], maximumDepth);
      }
    }
    KeptIsRemembered(log);
    if |trace| > 1 {
      var last := trace[|trace| - 1];
      assert Steps(trace[|trace| - 2], last, maximumDepth);
      StepsKeepText(trace[|trace| - 2], last, maximumDepth);
      RunsFromHere(trace[|trace| - 2], last, maximumDepth);
    }
  }
}
