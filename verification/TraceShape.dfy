/**
  The order of events over whole runs: sessions are entered and left in turn, lines are read
  only inside a session, and nothing happens after the exit.
*/
module TraceShape {
  import opened ConsoleScript
  import opened ConsoleMachine

  predicate IsMarker(e: Event) {
    e.Entered? || e.Left? || e.Exited?
  }

  function Markers(trace: seq<Event>): seq<Event> {
    if trace == [] then []
    else
      var before, e := Markers(trace[..|trace| - 1]), trace[|trace| - 1];
      if IsMarker(e) then before + [e] else before
  }

  /** A prefix of (enter leave)*, or such a prefix followed by enter and exit. */
  ghost predicate Alternates(markers: seq<Event>) {
    forall i :: 0 <= i < |markers| ==>
      if i % 2 == 0 then markers[i].Entered?
      else markers[i].Left? || (markers[i].Exited? && i == |markers| - 1)
  }

  /** A session has been entered that has been neither left nor ended by the exit. */
  predicate Inside(trace: seq<Event>) {
    |Markers(trace)| % 2 == 1
  }

  ghost predicate ReadsInside(trace: seq<Event>) {
    forall i :: 0 <= i < |trace| && trace[i].LineRead? ==> Inside(trace[..i])
  }

  ghost predicate ExitIsLast(trace: seq<Event>) {
    forall i :: 0 <= i < |trace| && trace[i].Exited? ==> i == |trace| - 1
  }

  /** Program points between the log entry for a session's start and the one for its end. */
  predicate SessionOpen(pc: Pc) {
    pc.LogLeave? || (InSession(pc) && !pc.LogEnter? && !pc.Gone?)
  }

  /** The markers alternate; an odd number of them means an open session; and the last is the
      exit exactly when the process is gone. */
  ghost predicate TurnsFit(trace: seq<Event>, open: bool, gone: bool) {
    var markers := Markers(trace);
    && Alternates(markers)
    && (Inside(trace) <==> open)
    && (gone <==> markers != [] && markers[|markers| - 1].Exited?)
  }

  ghost predicate SessionsInTurn(m: Move) {
    TurnsFit(m.trace, SessionOpen(m.state.pc), m.state.pc.Gone?)
  }

  ghost predicate QuietOutside(m: Move) {
    && ReadsInside(m.trace)
    && ExitIsLast(m.trace)
    && (!m.state.pc.Gone? ==> forall e :: e in m.trace ==> !e.Exited?)
  }

  /** What a step does to the session, event by event. */
  ghost predicate MarksSession(s: State, t: State, events: seq<Event>) {
    && |events| <= 1
    && (events == [] ==> SessionOpen(t.pc) == SessionOpen(s.pc) && t.pc.Gone? == s.pc.Gone?)
    && (events != [] ==>
          var e := events[0];
          && (e.Entered? ==> !SessionOpen(s.pc) && SessionOpen(t.pc))
          && (e.Left? || e.Exited? ==> SessionOpen(s.pc) && !SessionOpen(t.pc))
          && (!IsMarker(e) ==> SessionOpen(t.pc) == SessionOpen(s.pc))
          && (e.LineRead? ==> SessionOpen(s.pc))
          && (t.pc.Gone? <==> e.Exited?))
  }

  lemma StepMarkers(s: State, a: Action)
    requires FlagsFit(s)
    ensures MarksSession(s, Step(s, a).state, Step(s, a).trace)
    ensures s.pc.Gone? ==> Step(s, a).trace == []
  {
    if a.MainThread? && !s.pc.Gone? {
      MainStepMarkers(s);
    }
  }

  lemma MainStepMarkers(s: State)
    requires FlagsFit(s) && !s.pc.Gone?
    ensures MarksSession(s, MainStep(s), Output(s))
  {
  }

  lemma AppendMarker(trace: seq<Event>, e: Event)
    ensures Markers(trace + [e]) == if IsMarker(e) then Markers(trace) + [e] else Markers(trace)
  {
    assert (trace + [e])[..|trace|] == trace;
  }

  lemma TurnsOneMore(trace: seq<Event>, e: Event, open: bool)
    requires TurnsFit(trace, open, false)
    requires e.Entered? ==> !open
    requires e.Left? || e.Exited? ==> open
    ensures TurnsFit(trace + [e], if IsMarker(e) then !open else open, e.Exited?)
  {
    AppendMarker(trace, e);
    if IsMarker(e) {
      AlternatesOneMore(Markers(trace), e);
    }
  }

  lemma AlternatesOneMore(markers: seq<Event>, e: Event)
    requires Alternates(markers)
    requires markers != [] ==> !markers[|markers| - 1].Exited?
    requires if |markers| % 2 == 0 then e.Entered? else e.Left? || e.Exited?
    ensures Alternates(markers + [e])
  {
  }

  lemma StepKeepsTurns(m: Move, a: Action)
    requires FlagsFit(m.state) && SessionsInTurn(m)
    ensures SessionsInTurn(Then(m, a))
  {
    var step := Step(m.state, a);
    StepMarkers(m.state, a);
    if step.trace == [] {
      assert Then(m, a).trace == m.trace;
    } else {
      assert Then(m, a).trace == m.trace + [step.trace[0]];
      TurnsOneMore(m.trace, step.trace[0], SessionOpen(m.state.pc));
    }
  }

  lemma StepKeepsQuiet(m: Move, a: Action)
    requires FlagsFit(m.state) && QuietOutside(m) && (Inside(m.trace) <==> SessionOpen(m.state.pc))
    ensures QuietOutside(Then(m, a))
  {
    var step := Step(m.state, a);
    StepMarkers(m.state, a);
    if step.trace == [] {
      assert m.trace + step.trace == m.trace;
    } else {
      assert step.trace == [step.trace[0]];
      ReadsStayInside(m.trace, step.trace[0]);
    }
  }

  lemma ReadsStayInside(trace: seq<Event>, e: Event)
    requires ReadsInside(trace) && (e.LineRead? ==> Inside(trace))
    requires forall f :: f in trace ==> !f.Exited?
    ensures ReadsInside(trace + [e]) && ExitIsLast(trace + [e])
  {
    var now := trace + [e];
    forall i | 0 <= i < |now| && now[i].LineRead?
      ensures Inside(now[..i])
    {
      assert now[..i] == trace[..i];
      assert trace[..|trace|] == trace;
    }
  }

  /** In every run the enter, leave and exit events form a prefix of (enter leave)*, possibly
      followed by enter and exit; lines are read only inside a session; and nothing, not even
      a press, comes after the exit. */
  lemma {:induction false} RunsAreWellShaped(input: seq<Line>, schedule: seq<Action>)
    ensures SessionsInTurn(Run(input, schedule)) && QuietOutside(Run(input, schedule))
  {
    if schedule != [] {
      var before := schedule[..|schedule| - 1];
      RunsAreWellShaped(input, before);
      FlagsFitAlways(input, before);
      StepKeepsTurns(Run(input, before), schedule[|schedule| - 1]);
      StepKeepsQuiet(Run(input, before), schedule[|schedule| - 1]);
    }
  }
}
