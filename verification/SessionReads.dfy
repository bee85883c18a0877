/**
  What a session consumes, in every run: from its entry to its end exactly the lines up to
  the first that ends it, with one prompt for each.
*/
module SessionReads {
  import opened Options
  import opened ConsoleScript
  import opened ConsoleMachine
  import opened ScriptRefinement

  /** The lines read so far, and for the session entered last, the lines that had been read
      when it was entered and the prompts since. */
  datatype Tally = Tally(start: nat, lines: nat, prompts: nat)

  function CountOne(t: Tally, e: Event): Tally {
    match e
    case Entered => Tally(t.lines, t.lines, 0)
    case LineRead => t.(lines := t.lines + 1)
    case Prompted(_) => t.(prompts := t.prompts + 1)
    case _ => t
  }

  function TallyOf(trace: seq<Event>): Tally {
    if trace == [] then Tally(0, 0, 0)
    else CountOne(TallyOf(trace[..|trace| - 1]), trace[|trace| - 1])
  }

  /** At the end of a session, which the event `e` marks: the line read last is the first from
      the session's start on that ends a session, it does so in the way that `e` says, and
      there were as many prompts as lines. */
  ghost predicate EndsDuly(t: Tally, e: Event, commands: seq<Command>) {
    && t.start < t.lines <= |commands|
    && FirstEnd(commands, t.start) == Some(t.lines - 1)
    && (e.Exited? <==> commands[t.lines - 1].kind.Quit?)
    && t.prompts == t.lines - t.start
  }

  ghost predicate AllEndDuly(trace: seq<Event>, commands: seq<Command>) {
    forall j :: 0 <= j < |trace| && ClosesSession(trace[j]) ==> EndsDuly(TallyOf(trace[..j]), trace[j], commands)
  }

  /** How far the session under way has come. */
  ghost predicate Progress(s: State, commands: seq<Command>, t: Tally) {
    && t.start <= t.lines == s.next <= |commands|
    && match s.pc
       case TrayEnter | Prompt(_) =>
         FirstEnd(commands, t.start) == FirstEnd(commands, t.lines) && t.prompts == t.lines - t.start
       case Read(_) =>
         FirstEnd(commands, t.start) == FirstEnd(commands, t.lines) && t.prompts == t.lines - t.start + 1
       case CheckEmpty(_) | LogEmpty(_) | ShowEmpty(_) | LowerInput(_) | LogCommand(_) | TestCommand | Dispatch =>
         t.start < t.lines && FirstEnd(commands, t.start) == FirstEnd(commands, t.lines - 1)
         && t.prompts == t.lines - t.start
       case Uninitialize | Exit => EndsDuly(t, Exited, commands)
       case TestBlock | ClearBlock | LogLeave => EndsDuly(t, Left, commands)
       case _ => true
  }

  function CountAll(t: Tally, events: seq<Event>): Tally
    requires |events| <= 1
  {
    if events == [] then t else CountOne(t, events[0])
  }

  lemma StepProgresses(s: State, commands: seq<Command>, t: Tally)
    requires FlagsFit(s) && HoldsCommand(s, commands) && |commands| == |s.input| && Progress(s, commands, t)
    ensures Progress(MainStep(s), commands, CountAll(t, Output(s)))
  {
    if s.pc.TestCommand? {
      TestProgresses(s, commands, t);
    } else if s.pc.Dispatch? {
      DispatchProgresses(s, commands, t);
    } else if s.pc.Read? {
      ReadProgresses(s, commands, t);
    } else if HasCommand(s.pc) {
      LineStepProgresses(s, commands, t);
    } else {
      PlainStepProgresses(s, commands, t);
    }
  }

  lemma TestProgresses(s: State, commands: seq<Command>, t: Tally)
    requires FlagsFit(s) && HoldsCommand(s, commands) && Progress(s, commands, t) && s.pc.TestCommand?
    ensures Progress(MainStep(s), commands, t)
  {
    assert NextPc(s) == if commands[s.next - 1].kind.Leave? then TestBlock else Dispatch;
  }

  lemma DispatchProgresses(s: State, commands: seq<Command>, t: Tally)
    requires HoldsCommand(s, commands) && Progress(s, commands, t) && s.pc.Dispatch?
    ensures Progress(MainStep(s), commands, CountAll(t, Output(s)))
  {
    assert NextPc(s) == if commands[s.next - 1].kind.Quit? then Uninitialize else Prompt(false);
    assert CountAll(t, Output(s)) == t;
  }

  lemma ReadProgresses(s: State, commands: seq<Command>, t: Tally)
    requires |commands| == |s.input| && Progress(s, commands, t) && s.pc.Read?
    ensures Progress(MainStep(s), commands, CountAll(t, Output(s)))
  {
  }

  lemma LineStepProgresses(s: State, commands: seq<Command>, t: Tally)
    requires HoldsCommand(s, commands) && Progress(s, commands, t)
    requires HasCommand(s.pc) && !s.pc.TestCommand? && !s.pc.Dispatch?
    ensures Progress(MainStep(s), commands, CountAll(t, Output(s)))
  {
  }

  lemma PlainStepProgresses(s: State, commands: seq<Command>, t: Tally)
    requires FlagsFit(s) && Progress(s, commands, t) && !s.pc.Read? && !HasCommand(s.pc)
    ensures Progress(MainStep(s), commands, CountAll(t, Output(s)))
  {
  }

  lemma EndIsDue(s: State, commands: seq<Command>, t: Tally)
    requires Progress(s, commands, t)
    ensures |Output(s)| <= 1
    ensures forall e :: e in Output(s) && ClosesSession(e) ==> EndsDuly(t, e, commands)
  {
  }

  lemma TallyOne(trace: seq<Event>, events: seq<Event>)
    requires |events| <= 1
    ensures TallyOf(trace + events) == CountAll(TallyOf(trace), events)
  {
    if events == [] {
      assert trace + events == trace;
    } else {
      assert (trace + events)[..|trace|] == trace;
    }
  }

  lemma AllStillEndDuly(trace: seq<Event>, events: seq<Event>, commands: seq<Command>)
    requires |events| <= 1 && AllEndDuly(trace, commands)
    requires forall e :: e in events && ClosesSession(e) ==> EndsDuly(TallyOf(trace), e, commands)
    ensures AllEndDuly(trace + events, commands)
  {
    var now := trace + events;
    forall j | 0 <= j < |now| && ClosesSession(now[j])
      ensures EndsDuly(TallyOf(now[..j]), now[j], commands)
    {
      assert now[..j] == trace[..j];
      assert trace[..|trace|] == trace;
    }
  }

  lemma StepKeepsSessions(m: Move, a: Action, commands: seq<Command>)
    requires FlagsFit(m.state) && HoldsCommand(m.state, commands) && |commands| == |m.state.input|
    requires Progress(m.state, commands, TallyOf(m.trace)) && AllEndDuly(m.trace, commands)
    ensures Progress(Then(m, a).state, commands, TallyOf(Then(m, a).trace))
    ensures AllEndDuly(Then(m, a).trace, commands)
  {
    var step := Step(m.state, a);
    FlagsFitStep(m.state, a);
    TallyOne(m.trace, step.trace);
    if a.MainThread? && !m.state.pc.Gone? {
      StepProgresses(m.state, commands, TallyOf(m.trace));
      EndIsDue(m.state, commands, TallyOf(m.trace));
    } else {
      HandlerCountsNothing(m.state, a, commands, TallyOf(m.trace));
    }
    AllStillEndDuly(m.trace, step.trace, commands);
  }

  lemma HandlerCountsNothing(s: State, a: Action, commands: seq<Command>, t: Tally)
    requires a.MainThread? ==> s.pc.Gone?
    requires Progress(s, commands, t)
    ensures |Step(s, a).trace| <= 1 && CountAll(t, Step(s, a).trace) == t
    ensures Progress(Step(s, a).state, commands, t)
    ensures forall e :: e in Step(s, a).trace ==> !ClosesSession(e)
  {
  }

  /** In every run, under every schedule, each session that has been left or has ended the
      process read exactly the lines from its entry up to and including the first that ends a
      session, and prompted once for each of them; and it ended the process if and only if
      that line asks for it. */
  lemma {:induction false} RunsReadToTheEnd(input: seq<Line>, schedule: seq<Action>)
    ensures AllEndDuly(Run(input, schedule).trace, DecodeAll(input))
    ensures Progress(Run(input, schedule).state, DecodeAll(input), TallyOf(Run(input, schedule).trace))
  {
    if schedule != [] {
      var before := schedule[..|schedule| - 1];
      RunsReadToTheEnd(input, before);
      FlagsFitAlways(input, before);
      RunsFollowTheScript(input, before);
      StepKeepsSessions(Run(input, before), schedule[|schedule| - 1], DecodeAll(input));
    }
  }
}
