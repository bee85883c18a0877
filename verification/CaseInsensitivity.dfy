/**
  What of the input makes a difference to what a run does: not the case of the letters typed,
  nor anything behind a NUL, but exactly the script.
*/
module CaseInsensitivity {
  import opened ConsoleScript
  import opened ConsoleMachine
  import opened ScriptRefinement
  import opened ScriptCompletion

  /** Inputs whose lines are the same once normalised. */
  ghost predicate SimilarInputs(one: seq<Line>, two: seq<Line>) {
    |one| == |two| && forall i :: 0 <= i < |one| ==> Normalise(one[i]) == Normalise(two[i])
  }

  /** That is so if the lines agree up to ASCII letter case. */
  lemma SameUpToCaseIsSimilar(one: seq<Line>, two: seq<Line>)
    requires |one| == |two| && forall i :: 0 <= i < |one| ==> SameUpToCase(one[i], two[i])
    ensures SimilarInputs(one, two)
  {
    forall i | 0 <= i < |one|
      ensures Normalise(one[i]) == Normalise(two[i])
    {
      CStringKeepsSimilarity(one[i], two[i]);
      LowerEqualIff(CString(one[i]), CString(two[i]));
    }
  }

  /** States that differ at most in the case of letters not yet lower-cased. */
  ghost predicate Similar(s: State, t: State) {
    && SimilarInputs(s.input, t.input)
    && s.pc == t.pc
    && s.commandModel == t.commandModel
    && s.blockAutoInfo == t.blockAutoInfo
    && s.next == t.next
    && SameUpToCase(s.userInput, t.userInput)
    && (s.pc.LogCommand? ==> s.userInput == t.userInput)
    && s.command == t.command
    && s.pendingLogs == t.pendingLogs
  }

  lemma SimilarStep(s: State, t: State, a: Action)
    requires Similar(s, t)
    ensures Similar(Step(s, a).state, Step(t, a).state)
    ensures Step(s, a).trace == Step(t, a).trace
  {
    if a.MainThread? {
      SimilarMainStep(s, t);
    }
  }

  lemma SimilarMainStep(s: State, t: State)
    requires Similar(s, t)
    ensures Similar(MainStep(s), MainStep(t))
    ensures Output(s) == Output(t)
  {
    assert HasLine(s) == HasLine(t);
    assert |s.userInput| == |t.userInput|;
    if s.pc.Read? && HasLine(s) {
      assert Normalise(s.input[s.next]) == Normalise(t.input[t.next]);
      LowerEqualIff(CString(s.input[s.next]), CString(t.input[t.next]));
    } else if s.pc.LowerInput? {
      LowerEqualIff(s.userInput, t.userInput);
    }
  }

  /** Two runs under the same schedule, on inputs whose lines are the same once normalised,
      have the same trace, the same flags and the same program point throughout. */
  lemma {:induction false} RunsIgnoreCase(one: seq<Line>, two: seq<Line>, schedule: seq<Action>)
    requires SimilarInputs(one, two)
    ensures Run(one, schedule).trace == Run(two, schedule).trace
    ensures Similar(Run(one, schedule).state, Run(two, schedule).state)
  {
    if schedule != [] {
      var before := schedule[..|schedule| - 1];
      RunsIgnoreCase(one, two, before);
      SimilarStep(Run(one, before).state, Run(two, before).state, schedule[|schedule| - 1]);
    }
  }

  // ------------------------------------------------------------------
  // Exactly the script
  // ------------------------------------------------------------------

  ghost predicate Indistinguishable(one: seq<Line>, two: seq<Line>) {
    forall schedule :: Run(one, schedule).trace == Run(two, schedule).trace
  }

  /** States at the same point with the same flags that call for the same things. */
  ghost predicate Alike(s: State, c: seq<Command>, t: State, d: seq<Command>) {
    && FlagsFit(s) && HoldsCommand(s, c) && c == DecodeAll(s.input)
    && FlagsFit(t) && HoldsCommand(t, d) && d == DecodeAll(t.input)
    && s.pc == t.pc
    && s.commandModel == t.commandModel
    && s.pendingLogs == t.pendingLogs
    && Remaining(s, c) == Remaining(t, d)
  }

  /** What is called for tells what the main thread does next, and where it goes. */
  lemma AlikeNext(s: State, c: seq<Command>, t: State, d: seq<Command>)
    requires Alike(s, c, t, d)
    ensures Output(s) == Output(t) && NextPc(s) == NextPc(t)
  {
    match s.pc
    case Read(_) => AlikeRead(s, c, t, d);
    case CheckEmpty(_) => AlikeCheck(s, c, t, d);
    case LogCommand(_) =>
    case TestCommand => AlikeTest(s, c, t, d);
    case Dispatch => AlikeDispatch(s, c, t, d);
    case _ => AlikePlain(s, c, t, d);
  }

  lemma AlikePlain(s: State, c: seq<Command>, t: State, d: seq<Command>)
    requires Alike(s, c, t, d)
    requires !s.pc.Read? && !s.pc.CheckEmpty? && !s.pc.LogCommand? && !s.pc.TestCommand? && !s.pc.Dispatch?
    ensures Output(s) == Output(t) && NextPc(s) == NextPc(t)
  {
  }

  lemma AlikeRead(s: State, c: seq<Command>, t: State, d: seq<Command>)
    requires Alike(s, c, t, d) && s.pc.Read?
    ensures HasLine(s) == HasLine(t)
  {
    assert HasLine(s) <==> Reading(c, s.next).Cons?;
    assert HasLine(t) <==> Reading(d, t.next).Cons?;
  }

  lemma AlikeCheck(s: State, c: seq<Command>, t: State, d: seq<Command>)
    requires Alike(s, c, t, d) && s.pc.CheckEmpty?
    ensures |s.userInput| == 0 <==> |t.userInput| == 0
  {
    CheckTellsEmpty(s, c);
    CheckTellsEmpty(t, d);
  }

  lemma CheckTellsEmpty(s: State, c: seq<Command>)
    requires HoldsCommand(s, c) && s.pc.CheckEmpty?
    ensures |s.userInput| == 0 <==> Remaining(s, c).Cons? && Remaining(s, c).head.Beeped?
  {
    assert |c[s.next - 1].text| == |s.userInput|;
  }

  /** The kind of a command shows in the first thing it leads to. */
  lemma ActingTellsKind(c: seq<Command>, i: nat)
    requires i < |c|
    ensures Acting(c, i).Cons?
    ensures match c[i].kind
            case Leave => Acting(c, i).head == Left
            case Quit => Acting(c, i).head == TrayRemoved
            case Info => Acting(c, i).head == InfoShown
            case Help => Acting(c, i).head == HelpShown
            case Unknown => Acting(c, i).head == UnknownShown(c[i].text)
            case Empty => Acting(c, i).head.Prompted?
  {
    assert Dialogue(c, i + 1, false).Cons? && Dialogue(c, i + 1, false).head.Prompted?;
  }

  lemma AlikeTest(s: State, c: seq<Command>, t: State, d: seq<Command>)
    requires Alike(s, c, t, d) && s.pc.TestCommand?
    ensures NextPc(s) == NextPc(t)
  {
    TestTellsLeave(s, c);
    TestTellsLeave(t, d);
  }

  lemma TestTellsLeave(s: State, c: seq<Command>)
    requires HoldsCommand(s, c) && s.pc.TestCommand?
    ensures NextPc(s) == if Remaining(s, c).Cons? && Remaining(s, c).head.Left? then TestBlock else Dispatch
  {
    ActingTellsKind(c, s.next - 1);
  }

  lemma AlikeDispatch(s: State, c: seq<Command>, t: State, d: seq<Command>)
    requires Alike(s, c, t, d) && s.pc.Dispatch?
    ensures Output(s) == Output(t) && NextPc(s) == NextPc(t)
  {
    DispatchTellsResponse(s, c);
    DispatchTellsResponse(t, d);
  }

  lemma DispatchTellsResponse(s: State, c: seq<Command>)
    requires HoldsCommand(s, c) && s.pc.Dispatch?
    ensures Remaining(s, c).Cons?
    ensures Output(s) == if Remaining(s, c).head.Prompted? then [] else [Remaining(s, c).head]
    ensures NextPc(s) == if Remaining(s, c).head.TrayRemoved? then Uninitialize else Prompt(false)
  {
    ActingTellsKind(c, s.next - 1);
  }

  lemma AlikeStep(s: State, c: seq<Command>, t: State, d: seq<Command>, a: Action)
    requires Alike(s, c, t, d)
    ensures Step(s, a).trace == Step(t, a).trace
    ensures Alike(Step(s, a).state, c, Step(t, a).state, d)
  {
    FlagsFitStep(s, a);
    FlagsFitStep(t, a);
    if a.MainThread? && !s.pc.Gone? {
      AlikeNext(s, c, t, d);
      StepFollowsScript(s, c);
      StepFollowsScript(t, d);
    } else {
      HandlerKeepsRemaining(s, a, c);
      HandlerKeepsRemaining(t, a, d);
    }
  }

  lemma {:induction false} AlikeRuns(one: seq<Line>, two: seq<Line>, schedule: seq<Action>)
    requires Script(DecodeAll(one), 0) == Script(DecodeAll(two), 0)
    ensures Run(one, schedule).trace == Run(two, schedule).trace
    ensures Alike(Run(one, schedule).state, DecodeAll(one), Run(two, schedule).state, DecodeAll(two))
  {
    if schedule != [] {
      var before := schedule[..|schedule| - 1];
      AlikeRuns(one, two, before);
      AlikeStep(Run(one, before).state, DecodeAll(one), Run(two, before).state, DecodeAll(two),
                schedule[|schedule| - 1]);
    }
  }

  /** Two inputs lead to the same trace under every schedule exactly if their scripts are the
      same. */
  lemma IndistinguishableIff(one: seq<Line>, two: seq<Line>)
    ensures Indistinguishable(one, two) <==> Script(DecodeAll(one), 0) == Script(DecodeAll(two), 0)
  {
    if Script(DecodeAll(one), 0) == Script(DecodeAll(two), 0) {
      forall schedule
        ensures Run(one, schedule).trace == Run(two, schedule).trace
      {
        AlikeRuns(one, two, schedule);
      }
    }
    if Indistinguishable(one, two) {
      var n := 25 * (|one| + |two|) + 12;
      PushesAreStretches(n);
      assert Run(one, Pushes(n)).trace == Run(two, Pushes(n)).trace;
      PressesCompleteScript(one, Pushes(n));
      PressesCompleteScript(two, Pushes(n));
    }
  }
}
