/**
  Which presses of Ctrl+C start a session: the accounting of `g_command_model` over whole
  runs, from the trace alone.
*/
module PressAccounting {
  import opened ConsoleScript
  import opened ConsoleMachine

  /** The flag as an observer of the trace would reckon it. */
  predicate PressSinceClear(trace: seq<Event>) {
    trace != [] &&
    var e := trace[|trace| - 1];
    e.Pressed? || (!e.ModelCleared? && PressSinceClear(trace[..|trace| - 1]))
  }

  predicate EntrySinceClear(trace: seq<Event>) {
    trace != [] &&
    var e := trace[|trace| - 1];
    e.Entered? || (!e.ModelCleared? && EntrySinceClear(trace[..|trace| - 1]))
  }

  /** A press is recorded that no session has been entered for. */
  predicate PressPending(trace: seq<Event>) {
    PressSinceClear(trace) && !EntrySinceClear(trace)
  }

  function Entries(trace: seq<Event>): nat {
    if trace == [] then 0
    else Entries(trace[..|trace| - 1]) + if trace[|trace| - 1].Entered? then 1 else 0
  }

  function Presses(trace: seq<Event>): nat {
    if trace == [] then 0
    else Presses(trace[..|trace| - 1]) + if trace[|trace| - 1].Pressed? then 1 else 0
  }

  /** The presses that are the first after a clear, or the first of all. */
  function FreshPresses(trace: seq<Event>): nat {
    if trace == [] then 0
    else
      var before := trace[..|trace| - 1];
      FreshPresses(before) + if trace[|trace| - 1].Pressed? && !PressSinceClear(before) then 1 else 0
  }

  lemma {:induction false} FreshPressesAreFewer(trace: seq<Event>)
    ensures FreshPresses(trace) <= Presses(trace)
  {
    if trace != [] {
      FreshPressesAreFewer(trace[..|trace| - 1]);
    }
  }

  /** Between the log entry for a session's start and the clear of the flag. */
  predicate EntryShown(pc: Pc) {
    InCommandModel(pc) && !(pc in {TestIdle, SetBlock, LogEnter})
  }

  /** An entry whose cause is a press with neither a clear nor another entry in between. */
  ghost predicate CausedBy(trace: seq<Event>, press: nat, entry: nat) {
    && press < entry < |trace| && trace[press].Pressed?
    && forall k :: press < k < entry ==> !trace[k].ModelCleared? && !trace[k].Entered?
  }

  ghost predicate EntriesCaused(trace: seq<Event>) {
    forall i: nat :: i < |trace| && trace[i].Entered? ==> exists j: nat :: CausedBy(trace, j, i)
  }

  /** The accounts of a trace fit a state with the flag, the program point (whether between an
      entry's log and the clear) and the number of handlers about to log. */
  ghost predicate AccountsFit(trace: seq<Event>, flag: bool, shown: bool, pendingLogs: nat) {
    && (flag <==> PressSinceClear(trace))
    && (shown <==> EntrySinceClear(trace))
    && FreshPresses(trace) == Entries(trace) + (if PressPending(trace) then 1 else 0)
    && Presses(trace) == pendingLogs + Logs(trace)
  }

  ghost predicate Accounted(m: Move) {
    AccountsFit(m.trace, m.state.commandModel, EntryShown(m.state.pc), m.state.pendingLogs)
  }

  function Logs(trace: seq<Event>): nat {
    if trace == [] then 0
    else Logs(trace[..|trace| - 1]) + if trace[|trace| - 1].PressLogged? then 1 else 0
  }

  /** How a single event changes the accounts. */
  lemma OneMore(trace: seq<Event>, e: Event)
    ensures var now := trace + [e];
            && (PressSinceClear(now) <==> e.Pressed? || (!e.ModelCleared? && PressSinceClear(trace)))
            && (EntrySinceClear(now) <==> e.Entered? || (!e.ModelCleared? && EntrySinceClear(trace)))
            && Entries(now) == Entries(trace) + (if e.Entered? then 1 else 0)
            && Presses(now) == Presses(trace) + (if e.Pressed? then 1 else 0)
            && Logs(now) == Logs(trace) + (if e.PressLogged? then 1 else 0)
            && FreshPresses(now) == FreshPresses(trace) + (if e.Pressed? && !PressSinceClear(trace) then 1 else 0)
  {
    var now := trace + [e];
    assert now[..|now| - 1] == trace && now[|now| - 1] == e;
  }

  /** What a step does to the flag, event by event. */
  ghost predicate MarksFlag(s: State, t: State, events: seq<Event>) {
    && |events| <= 1
    && (events == [] ==> t.commandModel == s.commandModel && t.pendingLogs == s.pendingLogs
                         && EntryShown(t.pc) == EntryShown(s.pc))
    && (events != [] ==>
          var e := events[0];
          && (t.commandModel <==> e.Pressed? || (s.commandModel && !e.ModelCleared?))
          && (EntryShown(t.pc) <==> e.Entered? || (EntryShown(s.pc) && !e.ModelCleared?))
          && (e.Entered? ==> s.commandModel && !EntryShown(s.pc))
          && (e.ModelCleared? ==> EntryShown(s.pc))
          && t.pendingLogs == s.pendingLogs + (if e.Pressed? then 1 else 0) - (if e.PressLogged? then 1 else 0))
  }

  lemma StepEffects(s: State, a: Action)
    requires FlagsFit(s)
    ensures MarksFlag(s, Step(s, a).state, Step(s, a).trace)
  {
    if a.MainThread? && !s.pc.Gone? {
      MainStepEffects(s);
    }
  }

  lemma MainStepEffects(s: State)
    requires FlagsFit(s)
    ensures MarksFlag(s, MainStep(s), Output(s))
  {
  }

  lemma AccountOne(trace: seq<Event>, e: Event, flag: bool, shown: bool, pendingLogs: nat)
    requires AccountsFit(trace, flag, shown, pendingLogs)
    requires (shown ==> flag) && (e.Entered? ==> flag && !shown) && (e.ModelCleared? ==> shown)
    requires e.PressLogged? ==> pendingLogs > 0
    ensures AccountsFit(trace + [e],
                        e.Pressed? || (flag && !e.ModelCleared?),
                        e.Entered? || (shown && !e.ModelCleared?),
                        pendingLogs + (if e.Pressed? then 1 else 0) - (if e.PressLogged? then 1 else 0))
  {
    OneMore(trace, e);
  }

  lemma StepStaysAccounted(m: Move, a: Action)
    requires FlagsFit(m.state) && Accounted(m)
    ensures Accounted(Then(m, a))
  {
    var s, step := m.state, Step(m.state, a);
    StepEffects(s, a);
    if step.trace == [] {
      assert Then(m, a).trace == m.trace;
    } else {
      assert Then(m, a).trace == m.trace + [step.trace[0]];
      AccountOne(m.trace, step.trace[0], s.commandModel, EntryShown(s.pc), s.pendingLogs);
    }
  }

  lemma {:induction false} AlwaysAccounted(input: seq<Line>, schedule: seq<Action>)
    ensures Accounted(Run(input, schedule))
  {
    if schedule != [] {
      var before := schedule[..|schedule| - 1];
      AlwaysAccounted(input, before);
      FlagsFitAlways(input, before);
      StepStaysAccounted(Run(input, before), schedule[|schedule| - 1]);
    }
  }

  /** In every run the flag is set exactly if a press has come after the last clear; each
      session entered has used up one fresh press, and at most one fresh press is waiting.
      Presses that are not fresh are merged into the session of the fresh press before them,
      so entries never exceed presses.  Every press has been logged, or its handler is about
      to log it. */
  lemma PressAccounts(input: seq<Line>, schedule: seq<Action>)
    ensures var m := Run(input, schedule);
            && (m.state.commandModel <==> PressSinceClear(m.trace))
            && Entries(m.trace) + (if PressPending(m.trace) then 1 else 0) == FreshPresses(m.trace)
            && Entries(m.trace) <= FreshPresses(m.trace) <= Presses(m.trace)
            && Presses(m.trace) == m.state.pendingLogs + Logs(m.trace)
  {
    AlwaysAccounted(input, schedule);
    FreshPressesAreFewer(Run(input, schedule).trace);
  }

  // ------------------------------------------------------------------
  // The handler's log
  // ------------------------------------------------------------------

  /** The handlers that have set the flag and still have to log it, as the schedule tells. */
  function Waiting(schedule: seq<Action>): nat {
    if schedule == [] then 0
    else
      var before := Waiting(schedule[..|schedule| - 1]);
      match schedule[|schedule| - 1]
      case CtrlC => before + 1
      case HandlerLog => if before > 0 then before - 1 else 0
      case MainThread => before
  }

  function CtrlCs(schedule: seq<Action>): nat {
    if schedule == [] then 0
    else CtrlCs(schedule[..|schedule| - 1]) + if schedule[|schedule| - 1].CtrlC? then 1 else 0
  }

  lemma HandlerCounts(m: Move, a: Action, waiting: nat)
    requires m.state.pendingLogs == waiting && !m.state.pc.Gone?
    ensures Then(m, a).state.pendingLogs ==
              match a
              case CtrlC => waiting + 1
              case HandlerLog => if waiting > 0 then waiting - 1 else 0
              case MainThread => waiting
    ensures Presses(Then(m, a).trace) == Presses(m.trace) + if a.CtrlC? then 1 else 0
  {
    var step := Step(m.state, a);
    OnlyPressesPress(m.state, a);
    if step.trace == [] {
      assert m.trace + step.trace == m.trace;
    } else {
      assert step.trace == [step.trace[0]];
      OneMore(m.trace, step.trace[0]);
    }
  }

  /** The run is that of the first `k` actions, and its trace fits them: every Ctrl+C is a press,
      and each turn of a handler with something to log makes one log entry. */
  ghost predicate LoggedUpTo(input: seq<Line>, schedule: seq<Action>, k: nat) {
    && k <= |schedule| && Run(input, schedule[..k]) == Run(input, schedule)
    && var trace := Run(input, schedule).trace;
       && Presses(trace) == CtrlCs(schedule[..k])
       && Logs(trace) == Presses(trace) - Waiting(schedule[..k])
  }

  lemma {:induction false} CountUpToExit(input: seq<Line>, schedule: seq<Action>) returns (k: nat)
    ensures LoggedUpTo(input, schedule, k)
    ensures !Run(input, schedule).state.pc.Gone? ==> k == |schedule|
  {
    k := |schedule|;
    assert schedule[..k] == schedule;
    AlwaysAccounted(input, schedule);
    if schedule != [] {
      var before := schedule[..k - 1];
      var earlier := CountUpToExit(input, before);
      var m := Run(input, before);
      AlwaysAccounted(input, before);
      if m.state.pc.Gone? {
        k := earlier;
        assert before[..k] == schedule[..k];
        assert m.trace + [] == m.trace;
      } else {
        assert before[..earlier] == before;
        HandlerCounts(m, schedule[k - 1], Waiting(before));
      }
    }
  }

  /** As long as the process runs, the trace has a press for every Ctrl+C, and a log entry for
      every press but those whose handlers still wait; and the exit only stops the counting. */
  lemma PressesAreLogged(input: seq<Line>, schedule: seq<Action>)
    ensures var m := Run(input, schedule);
            !m.state.pc.Gone? ==>
              Presses(m.trace) == CtrlCs(schedule) && Logs(m.trace) == Presses(m.trace) - Waiting(schedule)
    ensures exists k :: LoggedUpTo(input, schedule, k)
  {
    var k := CountUpToExit(input, schedule);
    assert schedule[..|schedule|] == schedule;
  }

  // ------------------------------------------------------------------
  // Causes
  // ------------------------------------------------------------------

  /** A pending press stands in the trace with no clear and no entry after it. */
  lemma {:induction false} PendingPress(trace: seq<Event>) returns (j: nat)
    requires PressPending(trace)
    ensures j < |trace| && trace[j].Pressed?
    ensures forall k :: j < k < |trace| ==> !trace[k].ModelCleared? && !trace[k].Entered?
  {
    var last := |trace| - 1;
    if trace[last].Pressed? {
      j := last;
    } else {
      j := PendingPress(trace[..last]);
    }
  }

  lemma EntriesStayCaused(m: Move, a: Action)
    requires FlagsFit(m.state) && Accounted(m) && EntriesCaused(m.trace)
    ensures EntriesCaused(Then(m, a).trace)
  {
    var step := Step(m.state, a);
    StepEffects(m.state, a);
    if step.trace == [] {
      assert m.trace + step.trace == m.trace;
    } else {
      assert step.trace == [step.trace[0]];
      if step.trace[0].Entered? {
        var j := PendingPress(m.trace);
        CausesPersist(m.trace, step.trace[0], j);
      } else {
        CausesPersist(m.trace, step.trace[0], 0);
      }
    }
  }

  lemma CausesPersist(trace: seq<Event>, e: Event, press: nat)
    requires EntriesCaused(trace)
    requires e.Entered? ==> CausedBy(trace + [e], press, |trace|)
    ensures EntriesCaused(trace + [e])
  {
    var now := trace + [e];
    forall i: nat | i < |now| && now[i].Entered?
      ensures exists j: nat :: CausedBy(now, j, i)
    {
      if i < |trace| {
        assert trace[i].Entered?;
        var j: nat :| CausedBy(trace, j, i);
        assert CausedBy(now, j, i);
      }
    }
  }

  /** In every run each entry into a session has its own press before it, with neither a clear
      nor another entry in between. */
  lemma {:induction false} EveryEntryHasItsPress(input: seq<Line>, schedule: seq<Action>)
    ensures EntriesCaused(Run(input, schedule).trace)
  {
    if schedule != [] {
      var before := schedule[..|schedule| - 1];
      EveryEntryHasItsPress(input, before);
      FlagsFitAlways(input, before);
      AlwaysAccounted(input, before);
      EntriesStayCaused(Run(input, before), schedule[|schedule| - 1]);
    }
  }

  // ------------------------------------------------------------------
  // Progress
  // ------------------------------------------------------------------

  function MainSteps(schedule: seq<Action>): nat {
    if schedule == [] then 0
    else MainSteps(schedule[..|schedule| - 1]) + if schedule[|schedule| - 1].MainThread? then 1 else 0
  }

  /** Steps to the next entry, with the flag set. */
  function StepsToEntry(pc: Pc): nat {
    match pc
    case ClearScreen => 6
    case Sleeping => 5
    case TestModel => 4
    case TestIdle => 3
    case SetBlock => 2
    case LogEnter => 1
    case _ => 0
  }

  ghost predicate OnTheWay(m: Move, earlier: nat, steps: nat) {
    || Entries(m.trace) > earlier
    || (m.state.commandModel && 0 < StepsToEntry(m.state.pc) && StepsToEntry(m.state.pc) + steps <= 6
        && Entries(m.trace) == earlier)
  }

  lemma NotEnteredIsOnTheWay(pc: Pc)
    ensures !EntryShown(pc) <==> StepsToEntry(pc) > 0
  {
  }

  lemma CountDown(s: State, a: Action)
    requires FlagsFit(s) && s.commandModel && StepsToEntry(s.pc) > 0
    ensures var step := Step(s, a);
            && |step.trace| <= 1
            && if step.trace != [] && step.trace[0].Entered? then true
               else step.state.commandModel
                    && 0 < StepsToEntry(step.state.pc) <= StepsToEntry(s.pc) - if a.MainThread? then 1 else 0
  {
  }

  lemma StepTowardsEntry(m: Move, a: Action, earlier: nat, steps: nat)
    requires FlagsFit(m.state) && OnTheWay(m, earlier, steps)
    ensures OnTheWay(Then(m, a), earlier, steps + if a.MainThread? then 1 else 0)
  {
    var step := Step(m.state, a);
    if Entries(m.trace) == earlier {
      CountDown(m.state, a);
    } else {
      FlagsFitStep(m.state, a);
    }
    if step.trace == [] {
      assert m.trace + step.trace == m.trace;
    } else {
      assert step.trace == [step.trace[0]];
      OneMore(m.trace, step.trace[0]);
    }
  }

  lemma {:induction false} WaitForEntry(start: Move, schedule: seq<Action>)
    requires FlagsFit(start.state) && start.state.commandModel && 0 < StepsToEntry(start.state.pc)
    ensures FlagsFit(RunFrom(start, schedule).state)
    ensures OnTheWay(RunFrom(start, schedule), Entries(start.trace), MainSteps(schedule))
  {
    if schedule != [] {
      var before := schedule[..|schedule| - 1];
      WaitForEntry(start, before);
      FlagsFitStep(RunFrom(start, before).state, schedule[|schedule| - 1]);
      StepTowardsEntry(RunFrom(start, before), schedule[|schedule| - 1], Entries(start.trace), MainSteps(before));
    }
  }

  /** A pending press is not lost: the next session is entered within six steps of the main
      thread, whatever else the handler does meanwhile. */
  lemma PendingPressIsServed(input: seq<Line>, before: seq<Action>, after: seq<Action>)
    requires PressPending(Run(input, before).trace) && MainSteps(after) >= 6
    ensures Entries(Run(input, before + after).trace) > Entries(Run(input, before).trace)
  {
    FlagsFitAlways(input, before);
    AlwaysAccounted(input, before);
    RunFromAppend(Init(input), before, after);
    NotEnteredIsOnTheWay(Run(input, before).state.pc);
    WaitForEntry(Run(input, before), after);
  }

  // ------------------------------------------------------------------
  // Merging
  // ------------------------------------------------------------------

  /** Without a press, no press is fresh, and a recorded press stays where it is. */
  lemma {:induction false} NoPressNoFreshPress(start: Move, schedule: seq<Action>)
    requires forall a :: a in schedule ==> !a.CtrlC?
    ensures FreshPresses(RunFrom(start, schedule).trace) == FreshPresses(start.trace)
    ensures Entries(RunFrom(start, schedule).trace) >= Entries(start.trace)
  {
    if schedule != [] {
      var init, a := schedule[..|schedule| - 1], schedule[|schedule| - 1];
      NoPressNoFreshPress(start, init);
      var m := RunFrom(start, init);
      var step := Step(m.state, a);
      OnlyPressesPress(m.state, a);
      if step.trace == [] {
        assert m.trace + step.trace == m.trace;
      } else {
        assert step.trace == [step.trace[0]];
        OneMore(m.trace, step.trace[0]);
      }
    }
  }

  lemma OnlyPressesPress(s: State, a: Action)
    ensures |Step(s, a).trace| <= 1
    ensures !a.CtrlC? ==> forall e :: e in Step(s, a).trace ==> !e.Pressed?
  {
  }

  /** A press after a session's entry and before the clear that ends it is merged into that
      session: if no other press follows, no other session does.  That includes a press between
      the session's log of its end and the clear, which comes too late to be of any use. */
  lemma PressInSessionIsMerged(input: seq<Line>, before: seq<Action>, after: seq<Action>)
    requires EntrySinceClear(Run(input, before).trace)
    requires forall a :: a in after ==> !a.CtrlC?
    ensures Entries(Run(input, before + [CtrlC] + after).trace) == Entries(Run(input, before).trace)
  {
    var m := Run(input, before);
    var pressed := RunFrom(m, [CtrlC]);
    FlagsFitAlways(input, before);
    AlwaysAccounted(input, before);
    MergedPress(m);
    RunFromAppend(Init(input), before, [CtrlC]);
    RunFromAppend(Init(input), before + [CtrlC], after);
    NoPressNoFreshPress(pressed, after);
    PressAccounts(input, before + [CtrlC] + after);
  }

  lemma MergedPress(m: Move)
    requires FlagsFit(m.state) && Accounted(m) && EntrySinceClear(m.trace)
    ensures var pressed := RunFrom(m, [CtrlC]);
            Entries(pressed.trace) == FreshPresses(pressed.trace) == Entries(m.trace)
  {
    assert [CtrlC][..0] == [];
    assert RunFrom(m, [CtrlC]) == Then(m, CtrlC);
    if m.state.pc.Gone? {
      assert m.trace + [] == m.trace;
    } else {
      OneMore(m.trace, Pressed);
    }
  }
}
