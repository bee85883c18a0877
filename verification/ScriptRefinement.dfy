/**
  Ctrl+C decides when sessions start, but not what happens in them: in every run, what the
  main thread does is a prefix of one script, which depends on the input alone.
*/
module ScriptRefinement {
  import opened ConsoleScript
  import opened ConsoleMachine

  predicate FromHandler(e: Event) {
    e.Pressed? || e.PressLogged?
  }

  /** The events of the main thread. */
  function MainTrace(trace: seq<Event>): seq<Event> {
    if trace == [] then []
    else
      var before, e := MainTrace(trace[..|trace| - 1]), trace[|trace| - 1];
      if FromHandler(e) then before else before + [e]
  }

  // ------------------------------------------------------------------
  // What is still to come
  // ------------------------------------------------------------------

  /** The script from the state `s` on. */
  function Remaining(s: State, commands: seq<Command>): Events
    requires s.next <= |commands| && (HasCommand(s.pc) ==> s.next > 0)
  {
    match s.pc
    case Sleeping | TestModel | TestIdle | SetBlock | LogEnter => Script(commands, s.next)
    case TrayEnter => Cons(TrayEntered, Dialogue(commands, s.next, true))
    case Prompt(first) => Dialogue(commands, s.next, first)
    case Read(_) => Reading(commands, s.next)
    case CheckEmpty(_) => Noting(commands[s.next - 1], Logging(commands, s.next - 1))
    case LogEmpty(_) => Cons(EmptyLogged, Cons(EmptyShown, Logging(commands, s.next - 1)))
    case ShowEmpty(_) => Cons(EmptyShown, Logging(commands, s.next - 1))
    case LowerInput(_) | LogCommand(_) => Logging(commands, s.next - 1)
    case TestCommand | Dispatch => Acting(commands, s.next - 1)
    case Uninitialize => Cons(Uninitialized, Cons(Exited, Nil))
    case Exit => Cons(Exited, Nil)
    case Gone => Nil
    case TestBlock | ClearBlock | LogLeave => Leaving(Script(commands, s.next))
    case TrayLeave => Cons(TrayLeft, Cons(ModelCleared, Cons(ScreenCleared, Script(commands, s.next))))
    case ClearModel => Cons(ModelCleared, Cons(ScreenCleared, Script(commands, s.next)))
    case ClearScreen => Cons(ScreenCleared, Script(commands, s.next))
  }

  /** Program points at which the line read last is being dealt with. */
  predicate HasCommand(pc: Pc) {
    match pc
    case CheckEmpty(_) | LogEmpty(_) | ShowEmpty(_) | LowerInput(_) | LogCommand(_) | TestCommand | Dispatch => true
    case _ => false
  }

  /** The buffer and the variable `command` hold the line read last. */
  predicate HoldsCommand(s: State, commands: seq<Command>) {
    && s.next <= |commands|
    && (HasCommand(s.pc) ==> s.next > 0)
    && match s.pc
       case CheckEmpty(_) | LogEmpty(_) | ShowEmpty(_) | LowerInput(_) =>
         commands[s.next - 1] == Understand(Lower(s.userInput))
       case LogCommand(_) => s.userInput == s.command && commands[s.next - 1] == Understand(s.command)
       case TestCommand => commands[s.next - 1] == Understand(s.command)
       case Dispatch => commands[s.next - 1] == Understand(s.command) && !commands[s.next - 1].kind.Leave?
       case _ => true
  }

  /** A step of the main thread performs the head of what remains, or nothing. */
  ghost predicate FollowsScript(s: State, commands: seq<Command>)
    requires HoldsCommand(s, commands)
  {
    && HoldsCommand(MainStep(s), commands)
    && var after := Remaining(MainStep(s), commands);
       Remaining(s, commands) == if Output(s) == [] then after else Cons(Output(s)[0], after)
  }

  lemma StepFollowsScript(s: State, commands: seq<Command>)
    requires FlagsFit(s) && HoldsCommand(s, commands) && commands == DecodeAll(s.input)
    ensures FollowsScript(s, commands)
  {
    if InSession(s.pc) {
      SessionStepFollowsScript(s, commands);
    } else {
      OutsideStepFollowsScript(s, commands);
    }
  }

  lemma SessionStepFollowsScript(s: State, commands: seq<Command>)
    requires FlagsFit(s) && HoldsCommand(s, commands) && commands == DecodeAll(s.input) && InSession(s.pc)
    ensures FollowsScript(s, commands)
  {
    if s.pc.CheckEmpty? {
      CheckFollowsScript(s, commands);
    } else if s.pc.Dispatch? {
      DispatchFollowsScript(s, commands);
    } else if s.pc.Read? {
      ReadFollowsScript(s, commands);
    } else if s.pc.TestCommand? {
      TestFollowsScript(s, commands);
    } else {
      PlainStepFollowsScript(s, commands);
    }
  }

  lemma ReadFollowsScript(s: State, commands: seq<Command>)
    requires HoldsCommand(s, commands) && commands == DecodeAll(s.input) && s.pc.Read?
    ensures FollowsScript(s, commands)
  {
    if HasLine(s) {
      assert commands[s.next] == Understand(Lower(MainStep(s).userInput));
    }
  }

  lemma TestFollowsScript(s: State, commands: seq<Command>)
    requires FlagsFit(s) && HoldsCommand(s, commands) && s.pc.TestCommand?
    ensures FollowsScript(s, commands)
  {
  }

  lemma PlainStepFollowsScript(s: State, commands: seq<Command>)
    requires FlagsFit(s) && HoldsCommand(s, commands) && InSession(s.pc)
    requires !s.pc.CheckEmpty? && !s.pc.Dispatch? && !s.pc.Read? && !s.pc.TestCommand?
    ensures FollowsScript(s, commands)
  {
  }

  lemma OutsideStepFollowsScript(s: State, commands: seq<Command>)
    requires FlagsFit(s) && HoldsCommand(s, commands) && !InSession(s.pc)
    ensures FollowsScript(s, commands)
  {
  }

  lemma CheckFollowsScript(s: State, commands: seq<Command>)
    requires HoldsCommand(s, commands) && s.pc.CheckEmpty?
    ensures FollowsScript(s, commands)
  {
    var c := commands[s.next - 1];
    assert |c.text| == |s.userInput|;
    assert c.kind.Empty? <==> c.text == "";
  }

  lemma DispatchFollowsScript(s: State, commands: seq<Command>)
    requires HoldsCommand(s, commands) && s.pc.Dispatch?
    ensures FollowsScript(s, commands)
  {
  }

  // ------------------------------------------------------------------
  // Whole runs
  // ------------------------------------------------------------------

  lemma MainTraceAppend(trace: seq<Event>, events: seq<Event>)
    requires |events| <= 1
    ensures MainTrace(trace + events) ==
              if events == [] || FromHandler(events[0]) then MainTrace(trace) else MainTrace(trace) + events
  {
    if events == [] {
      assert trace + events == trace;
    } else {
      assert (trace + events)[..|trace|] == trace;
      assert events == [events[0]];
    }
  }

  ghost predicate OnScript(m: Move, commands: seq<Command>) {
    && HoldsCommand(m.state, commands)
    && FollowedBy(MainTrace(m.trace), Remaining(m.state, commands)) == Script(commands, 0)
  }

  lemma StepStaysOnScript(m: Move, a: Action, commands: seq<Command>)
    requires FlagsFit(m.state) && commands == DecodeAll(m.state.input) && OnScript(m, commands)
    ensures OnScript(Then(m, a), commands)
  {
    var step := Step(m.state, a);
    FlagsFitStep(m.state, a);
    MainTraceAppend(m.trace, step.trace);
    if a.MainThread? && !m.state.pc.Gone? {
      StepFollowsScript(m.state, commands);
      OutputIsOurs(m.state);
      if step.trace != [] {
        assert step.trace == [step.trace[0]];
        FollowedByOne(MainTrace(m.trace), step.trace[0], Remaining(step.state, commands));
      }
    } else {
      HandlerKeepsRemaining(m.state, a, commands);
    }
  }

  lemma OutputIsOurs(s: State)
    ensures forall e :: e in Output(s) ==> !FromHandler(e)
  {
  }

  lemma HandlerKeepsRemaining(s: State, a: Action, commands: seq<Command>)
    requires HoldsCommand(s, commands) && (a.MainThread? ==> s.pc.Gone?)
    ensures HoldsCommand(Step(s, a).state, commands)
    ensures Remaining(Step(s, a).state, commands) == Remaining(s, commands)
    ensures forall e :: e in Step(s, a).trace ==> FromHandler(e)
  {
  }

  /** In every run, under every schedule of Ctrl+C presses, what the main thread has done is
      followed by what remains to make up the one script of the input. */
  lemma {:induction false} RunsFollowTheScript(input: seq<Line>, schedule: seq<Action>)
    ensures OnScript(Run(input, schedule), DecodeAll(input))
  {
    if schedule != [] {
      var before := schedule[..|schedule| - 1];
      RunsFollowTheScript(input, before);
      FlagsFitAlways(input, before);
      StepStaysOnScript(Run(input, before), schedule[|schedule| - 1], DecodeAll(input));
    }
  }

  /** Two runs on the same input never disagree on what the main thread does, however the
      presses fall: of their traces, one is a prefix of the other. */
  lemma SchedulesOnlyDelay(input: seq<Line>, one: seq<Action>, two: seq<Action>)
    ensures var a, b := MainTrace(Run(input, one).trace), MainTrace(Run(input, two).trace);
            a <= b || b <= a
  {
    var commands := DecodeAll(input);
    RunsFollowTheScript(input, one);
    RunsFollowTheScript(input, two);
    var a, b := Run(input, one), Run(input, two);
    SamePast(MainTrace(a.trace), Remaining(a.state, commands), MainTrace(b.trace), Remaining(b.state, commands));
  }

  /** How far a run has come is told by what its state still calls for: runs on one input whose
      states call for the same remainder have done the same. */
  lemma RemainderTellsPast(input: seq<Line>, one: seq<Action>, two: seq<Action>)
    ensures HoldsCommand(Run(input, one).state, DecodeAll(input))
    ensures HoldsCommand(Run(input, two).state, DecodeAll(input))
    ensures Remaining(Run(input, one).state, DecodeAll(input)) == Remaining(Run(input, two).state, DecodeAll(input))
            <==> MainTrace(Run(input, one).trace) == MainTrace(Run(input, two).trace)
  {
    var commands := DecodeAll(input);
    RunsFollowTheScript(input, one);
    RunsFollowTheScript(input, two);
    var a, b := Run(input, one), Run(input, two);
    if Remaining(a.state, commands) == Remaining(b.state, commands) {
      PastIsDetermined(MainTrace(a.trace), MainTrace(b.trace), Remaining(a.state, commands));
    }
    if MainTrace(a.trace) == MainTrace(b.trace) {
      FutureIsDetermined(MainTrace(a.trace), Remaining(a.state, commands), Remaining(b.state, commands));
    }
  }
}
