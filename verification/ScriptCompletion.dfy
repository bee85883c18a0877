/**
  The script of an input is not only an upper bound on what runs do: with enough presses
  and steps a run completes it, and every point of it is reached by some run.
*/
module ScriptCompletion {
  import opened ConsoleScript
  import opened ConsoleMachine
  import opened ScriptRefinement

  /** Nothing is left to do but wait for input. */
  predicate Finished(s: State) {
    s.pc.Gone? || (s.pc.Read? && !HasLine(s))
  }

  function Rank(pc: Pc): nat {
    match pc
    case CheckEmpty(_) => 24
    case LogEmpty(_) => 23
    case ShowEmpty(_) => 22
    case LowerInput(_) => 21
    case LogCommand(_) => 20
    case TestCommand => 19
    case Dispatch => 18
    case TestBlock => 17
    case ClearBlock => 16
    case LogLeave => 15
    case TrayLeave => 14
    case ClearModel => 13
    case ClearScreen => 12
    case Sleeping => 11
    case TestModel => 10
    case TestIdle => 9
    case SetBlock => 8
    case LogEnter => 7
    case TrayEnter => 6
    case Prompt(_) => 5
    case Read(_) => 4
    case Uninitialize => 2
    case Exit => 1
    case Gone => 0
  }

  /** Steps of the main thread, made with the flag set, that are enough to finish.  While the
      flag is clear the main thread only goes round the mode loop, and comes no closer. */
  function Distance(s: State): nat
    requires s.next <= |s.input|
  {
    (|s.input| - s.next) * 25 + if s.commandModel then Rank(s.pc) else 12
  }

  /** A press has come since the last step of the main thread. */
  predicate Armed(schedule: seq<Action>) {
    schedule != [] &&
    match schedule[|schedule| - 1]
    case CtrlC => true
    case MainThread => false
    case HandlerLog => Armed(schedule[..|schedule| - 1])
  }

  /** The number of disjoint stretches of the schedule that hold a press and after it a step of
      the main thread: one ends at each step that follows a press. */
  function Stretches(schedule: seq<Action>): nat {
    if schedule == [] then 0
    else
      var before := schedule[..|schedule| - 1];
      Stretches(before) + if schedule[|schedule| - 1].MainThread? && Armed(before) then 1 else 0
  }

  lemma MainStepCloser(s: State)
    requires FlagsFit(s)
    ensures FlagsFit(MainStep(s))
    ensures Finished(s) ==> Finished(MainStep(s))
    ensures !Finished(s) ==> Distance(MainStep(s)) <= Distance(s) - if s.commandModel then 1 else 0
  {
    if s.commandModel {
      assert !Finished(s) ==> Distance(MainStep(s)) < Distance(s);
    }
  }

  lemma StepCloser(s: State, a: Action)
    requires FlagsFit(s)
    ensures var t := Step(s, a).state;
            && FlagsFit(t)
            && (Finished(s) ==> Finished(t))
            && (!Finished(s) ==> Distance(t) <= Distance(s) - if a.MainThread? && s.commandModel then 1 else 0)
            && (a.CtrlC? ==> t.commandModel || Finished(t))
            && (a.HandlerLog? ==> t.commandModel == s.commandModel)
  {
    FlagsFitStep(s, a);
    if a.MainThread? && !s.pc.Gone? {
      MainStepCloser(s);
    }
  }

  lemma {:induction false} StretchesCount(input: seq<Line>, schedule: seq<Action>)
    ensures var s := Run(input, schedule).state;
            && FlagsFit(s) && s.input == input
            && (Finished(s) || (Distance(s) + Stretches(schedule) <= 25 * |input| + 12
                                && (Armed(schedule) ==> s.commandModel)))
  {
    FlagsFitAlways(input, schedule);
    if schedule != [] {
      var before := schedule[..|schedule| - 1];
      StretchesCount(input, before);
      StepCloser(Run(input, before).state, schedule[|schedule| - 1]);
    }
  }

  /** Every schedule in which often enough the main thread makes a step after a press makes it
      go through the whole script, whatever else is in the schedule. */
  lemma PressesCompleteScript(input: seq<Line>, schedule: seq<Action>)
    requires Stretches(schedule) >= 25 * |input| + 12
    ensures FollowedBy(MainTrace(Run(input, schedule).trace), Nil) == Script(DecodeAll(input), 0)
  {
    StretchesCount(input, schedule);
    FlagsFitAlways(input, schedule);
    RunsFollowTheScript(input, schedule);
    FinishedHasNoRest(Run(input, schedule).state, DecodeAll(input));
  }

  lemma FinishedHasNoRest(s: State, commands: seq<Command>)
    requires HoldsCommand(s, commands) && |commands| == |s.input| && FlagsFit(s)
    ensures Finished(s) ==> Remaining(s, commands) == Nil
    ensures !Finished(s) ==> Distance(s) > 0
  {
  }

  // ------------------------------------------------------------------
  // Schedules in blocks
  // ------------------------------------------------------------------

  function Flatten(blocks: seq<seq<Action>>): seq<Action> {
    if blocks == [] then [] else Flatten(blocks[..|blocks| - 1]) + blocks[|blocks| - 1]
  }

  /** A press, and somewhere after it a step of the main thread. */
  ghost predicate HoldsPush(block: seq<Action>) {
    exists i, j :: 0 <= i < j < |block| && block[i].CtrlC? && block[j].MainThread?
  }

  lemma {:induction false} BlockIsStretch(before: seq<Action>, block: seq<Action>)
    ensures Stretches(before + block) >= Stretches(before)
    ensures CtrlC in block ==> Armed(before + block) || Stretches(before + block) > Stretches(before)
    ensures HoldsPush(block) ==> Stretches(before + block) > Stretches(before)
  {
    if block == [] {
      assert before + block == before;
    } else {
      var last := |block| - 1;
      var init := block[..last];
      BlockIsStretch(before, init);
      assert (before + block)[..|before + block| - 1] == before + init;
      assert CtrlC in init || !(CtrlC in block) || block[last].CtrlC?;
      if i, j :| 0 <= i < j < |block| && block[i].CtrlC? && block[j].MainThread? {
        assert init[i] == block[i];
        if j < last {
          assert init[j] == block[j];
          assert HoldsPush(init);
        }
      }
    }
  }

  lemma {:induction false} BlocksAreStretches(blocks: seq<seq<Action>>)
    requires forall b :: b in blocks ==> HoldsPush(b)
    ensures Stretches(Flatten(blocks)) >= |blocks|
  {
    if blocks != [] {
      BlocksAreStretches(blocks[..|blocks| - 1]);
      BlockIsStretch(Flatten(blocks[..|blocks| - 1]), blocks[|blocks| - 1]);
    }
  }

  /** The same for a schedule given as blocks that each hold a press and after it a step. */
  lemma BlocksCompleteScript(input: seq<Line>, blocks: seq<seq<Action>>)
    requires |blocks| >= 25 * |input| + 12 && forall b :: b in blocks ==> HoldsPush(b)
    ensures FollowedBy(MainTrace(Run(input, Flatten(blocks)).trace), Nil) == Script(DecodeAll(input), 0)
  {
    BlocksAreStretches(blocks);
    PressesCompleteScript(input, Flatten(blocks));
  }

  function Pushes(n: nat): seq<Action> {
    if n == 0 then [] else Pushes(n - 1) + [CtrlC, MainThread]
  }

  lemma {:induction false} PushesAreStretches(n: nat)
    ensures Stretches(Pushes(n)) == n
  {
    if n > 0 {
      PushesAreStretches(n - 1);
      var half, whole := Pushes(n - 1) + [CtrlC], Pushes(n);
      assert half[..|half| - 1] == Pushes(n - 1);
      assert whole[..|whole| - 1] == half;
      assert Stretches(half) == n - 1 && Armed(half);
    }
  }

  /** For every input there is such a schedule. */
  lemma ScriptIsCompleted(input: seq<Line>)
    ensures exists schedule :: FollowedBy(MainTrace(Run(input, schedule).trace), Nil) == Script(DecodeAll(input), 0)
  {
    PushesAreStretches(25 * |input| + 12);
    PressesCompleteScript(input, Pushes(25 * |input| + 12));
  }

  // ------------------------------------------------------------------
  // Every point of the script is reached
  // ------------------------------------------------------------------

  /** Under this schedule the main thread has done `past` and has still to do `future`. */
  ghost predicate Reaches(input: seq<Line>, schedule: seq<Action>, past: seq<Event>, future: Events) {
    var m := Run(input, schedule);
    && HoldsCommand(m.state, DecodeAll(input))
    && MainTrace(m.trace) == past && Remaining(m.state, DecodeAll(input)) == future
  }

  /** The runs on an input come to every point of its script, and to nothing else. */
  lemma ReachedIff(input: seq<Line>, past: seq<Event>, future: Events)
    ensures FollowedBy(past, future) == Script(DecodeAll(input), 0)
            <==> exists schedule :: Reaches(input, schedule, past, future)
  {
    if schedule :| Reaches(input, schedule, past, future) {
      RunsFollowTheScript(input, schedule);
    }
    if FollowedBy(past, future) == Script(DecodeAll(input), 0) {
      ScriptIsCompleted(input);
      var whole :| FollowedBy(MainTrace(Run(input, whole).trace), Nil) == Script(DecodeAll(input), 0);
      EarlierInScript(past, future, MainTrace(Run(input, whole).trace));
      var k := ReachPrefix(input, whole, past);
      FutureOfRun(input, whole[..k], past, future);
    }
  }

  lemma EarlierInScript(past: seq<Event>, future: Events, whole: seq<Event>)
    requires FollowedBy(past, future) == FollowedBy(whole, Nil)
    ensures past <= whole
  {
    SamePast(past, future, whole, Nil);
    FollowedByLength(past, future);
    FollowedByLength(whole, Nil);
  }

  lemma FutureOfRun(input: seq<Line>, schedule: seq<Action>, past: seq<Event>, future: Events)
    requires MainTrace(Run(input, schedule).trace) == past
    requires FollowedBy(past, future) == Script(DecodeAll(input), 0)
    ensures Reaches(input, schedule, past, future)
  {
    RunsFollowTheScript(input, schedule);
    FutureIsDetermined(past, future, Remaining(Run(input, schedule).state, DecodeAll(input)));
  }

  /** What a run has done at some time, a shorter schedule makes it do and no more. */
  lemma {:induction false} ReachPrefix(input: seq<Line>, schedule: seq<Action>, past: seq<Event>) returns (k: nat)
    requires past <= MainTrace(Run(input, schedule).trace)
    ensures k <= |schedule| && MainTrace(Run(input, schedule[..k]).trace) == past
  {
    if past == MainTrace(Run(input, schedule).trace) {
      k := |schedule|;
      assert schedule[..k] == schedule;
    } else {
      var before := schedule[..|schedule| - 1];
      LastStepAddsOne(input, schedule);
      k := ReachPrefix(input, before, past);
      assert before[..k] == schedule[..k];
    }
  }

  lemma LastStepAddsOne(input: seq<Line>, schedule: seq<Action>)
    requires schedule != []
    ensures var was := MainTrace(Run(input, schedule[..|schedule| - 1]).trace);
            var now := MainTrace(Run(input, schedule).trace);
            was <= now && |now| <= |was| + 1
  {
    var m, a := Run(input, schedule[..|schedule| - 1]), schedule[|schedule| - 1];
    FlagsFitAlways(input, schedule[..|schedule| - 1]);
    FlagsFitStep(m.state, a);
    MainTraceAppend(m.trace, Step(m.state, a).trace);
  }
}
