/**
  The main thread's mode loop and the Ctrl+C handler as a transition system.

  Every read or write of one of the two flags, and every event, is one step.  A run is
  driven by a schedule that says, step by step, which thread moves; the input is an
  arbitrary sequence of lines, and a read with no line left waits.
*/
module ConsoleMachine {
  import opened ConsoleScript

  /** The main thread's program counter.  The seven points with a parameter exist twice in the
      code: before the command loop (`first`) and at the end of its body. */
  datatype Pc =
    | Sleeping                  // at the head of the mode loop, waiting a second
    | TestModel                 // about to read the flag that Ctrl+C sets
    | TestIdle                  // about to check that no session is under way
    | SetBlock                  // about to mark the session as under way
    | LogEnter
    | TrayEnter
    | Prompt(first: bool)
    | Read(first: bool)
    | CheckEmpty(first: bool)   // about to look whether anything was typed
    | LogEmpty(first: bool)
    | ShowEmpty(first: bool)
    | LowerInput(first: bool)
    | LogCommand(first: bool)
    | TestCommand               // at the head of the command loop
    | Dispatch
    | Uninitialize
    | Exit
    | Gone                      // the process has ended
    | TestBlock                 // about to check that a session is under way
    | ClearBlock                // about to mark the session as over
    | LogLeave
    | TrayLeave
    | ClearModel                // about to clear the flag that Ctrl+C sets
    | ClearScreen

  datatype State = State(
    input: seq<Line>,
    pc: Pc,
    commandModel: bool,
    blockAutoInfo: bool,
    next: nat,                  // lines read so far
    userInput: string,
    command: string,
    pendingLogs: nat)           // handlers that have set the flag but not yet logged

  /** A state and the events on the way to it: those of one step, or those of a run. */
  datatype Move = Move(state: State, trace: seq<Event>)

  datatype Action = MainThread | CtrlC | HandlerLog

  function Init(input: seq<Line>): Move {
    Move(State(input, Sleeping, false, false, 0, "", "", 0), [])
  }

  /** A line is waiting to be read. */
  predicate HasLine(s: State) {
    s.next < |s.input|
  }

  /** Where the main thread goes next. */
  function NextPc(s: State): Pc {
    match s.pc
    case Sleeping => TestModel
    case TestModel => if s.commandModel then TestIdle else Sleeping
    case TestIdle => if !s.blockAutoInfo then SetBlock else TestBlock
    case SetBlock => LogEnter
    case LogEnter => TrayEnter
    case TrayEnter => Prompt(true)
    case Prompt(first) => Read(first)
    case Read(first) => if HasLine(s) then CheckEmpty(first) else Read(first)
    case CheckEmpty(first) => if |s.userInput| == 0 then LogEmpty(first) else LowerInput(first)
    case LogEmpty(first) => ShowEmpty(first)
    case ShowEmpty(first) => LowerInput(first)
    case LowerInput(first) => LogCommand(first)
    case LogCommand(_) => TestCommand
    case TestCommand => if s.command != "work;" && s.command != "01" then Dispatch else TestBlock
    case Dispatch =>
      if s.command == "info;" || s.command == "02" then Prompt(false)
      else if s.command == "help;" || s.command == "03" then Prompt(false)
      else if s.command == "exit;" || s.command == "04" then Uninitialize
      else Prompt(false)
    case Uninitialize => Exit
    case Exit => Gone
    case Gone => Gone
    case TestBlock => if s.blockAutoInfo then ClearBlock else Sleeping
    case ClearBlock => LogLeave
    case LogLeave => TrayLeave
    case TrayLeave => ClearModel
    case ClearModel => ClearScreen
    case ClearScreen => Sleeping
  }

  /** What the main thread's next step shows, logs or asks for. */
  function Output(s: State): seq<Event> {
    match s.pc
    case LogEnter => [Entered]
    case TrayEnter => [TrayEntered]
    case Prompt(first) => [Prompted(PromptText(first))]
    case Read(_) => if HasLine(s) then [LineRead] else []
    case CheckEmpty(_) => if |s.userInput| == 0 then [Beeped] else []
    case LogEmpty(_) => [EmptyLogged]
    case ShowEmpty(_) => [EmptyShown]
    case LogCommand(_) => [CommandLogged(s.userInput)]
    case Dispatch =>
      if s.command == "info;" || s.command == "02" then [InfoShown]
      else if s.command == "help;" || s.command == "03" then [HelpShown]
      else if s.command == "exit;" || s.command == "04" then [TrayRemoved]
      else if s.command != "" then [UnknownShown(s.command)]
      else []
    case Uninitialize => [Uninitialized]
    case Exit => [Exited]
    case LogLeave => [Left]
    case TrayLeave => [TrayLeft]
    case ClearModel => [ModelCleared]
    case ClearScreen => [ScreenCleared]
    case _ => []
  }

  /** The main thread's next step: its assignments, and the move to the next program point. */
  function MainStep(s: State): State {
    s.(
      pc := NextPc(s),
      commandModel := s.commandModel && !s.pc.ClearModel?,
      blockAutoInfo := (s.blockAutoInfo || s.pc.SetBlock?) && !s.pc.ClearBlock?,
      next := if s.pc.Read? && HasLine(s) then s.next + 1 else s.next,
      userInput :=
        if s.pc.Read? && HasLine(s) then CString(s.input[s.next])
        else if s.pc.LowerInput? then Lower(s.userInput)
        else s.userInput,
      command := if s.pc.LowerInput? then Lower(s.userInput) else s.command)
  }

  /** The handler can set the flag at any time, and logs the press some time later.  Nothing
      moves once the process has ended. */
  function Step(s: State, a: Action): Move {
    if s.pc.Gone? then Move(s, [])
    else
      match a
      case MainThread => Move(MainStep(s), Output(s))
      case CtrlC => Move(s.(commandModel := true, pendingLogs := s.pendingLogs + 1), [Pressed])
      case HandlerLog =>
        if s.pendingLogs == 0 then Move(s, [])
        else Move(s.(pendingLogs := s.pendingLogs - 1), [PressLogged])
  }

  function Then(before: Move, a: Action): Move {
    var step := Step(before.state, a);
    Move(step.state, before.trace + step.trace)
  }

  function RunFrom(start: Move, schedule: seq<Action>): Move {
    if schedule == [] then start
    else Then(RunFrom(start, schedule[..|schedule| - 1]), schedule[|schedule| - 1])
  }

  function Run(input: seq<Line>, schedule: seq<Action>): Move {
    RunFrom(Init(input), schedule)
  }

  lemma {:induction false} RunFromAppend(start: Move, a: seq<Action>, b: seq<Action>)
    ensures RunFrom(start, a + b) == RunFrom(RunFrom(start, a), b)
  {
    if b == [] {
      assert a + b == a;
    } else {
      assert (a + b)[..|a + b| - 1] == a + b[..|b| - 1];
      RunFromAppend(start, a, b[..|b| - 1]);
    }
  }

  // ------------------------------------------------------------------
  // The flags
  // ------------------------------------------------------------------

  /** Program points between the write of `g_block_auto_info` at a session's start and the
      one at its end. */
  predicate InSession(pc: Pc) {
    !(pc in {Sleeping, TestModel, TestIdle, SetBlock, LogLeave, TrayLeave, ClearModel, ClearScreen})
  }

  /** Program points between the test of `g_command_model` and its clear. */
  predicate InCommandModel(pc: Pc) {
    !(pc in {Sleeping, TestModel, ClearScreen})
  }

  ghost predicate FlagsFit(s: State) {
    && (s.blockAutoInfo <==> InSession(s.pc))
    && (InCommandModel(s.pc) ==> s.commandModel)
    && s.next <= |s.input|
  }

  lemma FlagsFitStep(s: State, a: Action)
    requires FlagsFit(s)
    ensures FlagsFit(Step(s, a).state) && Step(s, a).state.input == s.input
    ensures |Step(s, a).trace| <= 1
  {
  }

  lemma {:induction false} FlagsFitAlways(input: seq<Line>, schedule: seq<Action>)
    ensures FlagsFit(Run(input, schedule).state) && Run(input, schedule).state.input == input
  {
    if schedule != [] {
      FlagsFitAlways(input, schedule[..|schedule| - 1]);
      FlagsFitStep(Run(input, schedule[..|schedule| - 1]).state, schedule[|schedule| - 1]);
    }
  }

  /** Whatever the handler does, `g_block_auto_info` is false at the head of the outer loop and
      true throughout a session, `g_command_model` is true from its test to its clear, and the
      tests of `g_block_auto_info` succeed whenever they are reached: no session is skipped, and
      none is left half open. */
  lemma FlagInvariant(input: seq<Line>, schedule: seq<Action>)
    ensures var s := Run(input, schedule).state;
            && (s.pc.Sleeping? ==> !s.blockAutoInfo)
            && (InSession(s.pc) ==> s.blockAutoInfo)
            && (InCommandModel(s.pc) ==> s.commandModel)
            && (s.pc.TestIdle? ==> Step(s, MainThread).state.pc == SetBlock)
            && (s.pc.TestBlock? ==> Step(s, MainThread).state.pc == ClearBlock)
  {
    FlagsFitAlways(input, schedule);
  }
}
