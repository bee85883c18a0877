/**
  The console as it is programmed: the flags, the input buffer that is lower-cased in place,
  the command loop with its read before and its read at the end of the body, and one pass
  through the mode loop.  The handler may run after every event of the main thread; what
  several presses in a row come to is the subject of PressAccounting.  What the main thread
  does here is what it does in some run of the transition system (`ConsoleIsARun`).
*/
module ConsoleSession {
  import opened Options
  import opened ConsoleScript
  import opened ScriptRefinement
  import opened PressAccounting
  import ScriptCompletion

  datatype PassEnd = Idle | LeftSession | EndedProcess | WaitingForInput

  // ------------------------------------------------------------------
  // C strings in a buffer
  // ------------------------------------------------------------------

  lemma {:induction false} CStringStopsAtNul(s: string, rest: string)
    ensures CString(s + ['\0'] + rest) == CString(s)
  {
    var whole := s + ['\0'] + rest;
    if s == "" {
      assert whole[0] == '\0';
    } else {
      assert whole[1..] == s[1..] + ['\0'] + rest;
      CStringStopsAtNul(s[1..], rest);
    }
  }

  lemma {:induction false} CStringOfNulFree(s: string)
    requires '\0' !in s
    ensures CString(s) == s
  {
    if s != "" {
      assert s == [s[0]] + s[1..];
      CStringOfNulFree(s[1..]);
    }
  }

  lemma LowerHasNoNul(s: string)
    requires '\0' !in s
    ensures '\0' !in Lower(s)
  {
    forall i | 0 <= i < |s|
      ensures Lower(s)[i] != '\0'
    {
      assert s[i] in s;
    }
  }

  method StrLen(buffer: array<char>) returns (n: nat)
    requires '\0' in buffer[..]
    ensures n < buffer.Length && buffer[n] == '\0' && buffer[..n] == CString(buffer[..])
  {
    ghost var s := buffer[..];
    n := 0;
    while buffer[n] != '\0'
      invariant n < |s| && '\0' in s[n..]
      invariant CString(s) == s[..n] + CString(s[n..])
      decreases |s| - n
    {
      CStringStep(s, n);
      n := n + 1;
    }
    assert CString(s[n..]) == "";
  }

  lemma CStringStep(s: string, n: nat)
    requires n < |s| && s[n] != '\0'
    ensures s[..n] + CString(s[n..]) == s[..n + 1] + CString(s[n + 1..])
    ensures '\0' in s[n..] ==> '\0' in s[n + 1..]
  {
    assert s[n..] == [s[n]] + s[n + 1..];
    assert s[n..][1..] == s[n + 1..];
    assert s[..n + 1] == s[..n] + [s[n]];
  }

  method LowerInPlace(buffer: array<char>, length: nat)
    requires length <= buffer.Length
    modifies buffer
    ensures buffer[..length] == Lower(old(buffer[..length]))
    ensures buffer[length..] == old(buffer[length..])
  {
    for i := 0 to length
      invariant forall k :: 0 <= k < i ==> buffer[k] == LowerChar(old(buffer[k]))
      invariant forall k :: i <= k < buffer.Length ==> buffer[k] == old(buffer[k])
    {
      if 'A' <= buffer[i] <= 'Z' {
        buffer[i] := (buffer[i] as int + ('a' as int - 'A' as int)) as char;
      }
    }
  }

  /** Stores a line and its NUL at the start of the buffer; what was behind stays. */
  method StoreLine(buffer: array<char>, line: Line)
    requires buffer.Length == CFG_MAX_PATH_LEN
    modifies buffer
    ensures buffer[..] == line + ['\0'] + old(buffer[|line| + 1..])
  {
    for i := 0 to |line|
      invariant forall k :: 0 <= k < i ==> buffer[k] == line[k]
      invariant forall k :: i <= k < buffer.Length ==> buffer[k] == old(buffer[k])
    {
      buffer[i] := line[i];
    }
    buffer[|line|] := '\0';
  }

  /** What `gets_s` leaves in the buffer, which takes up to 255 characters and a NUL. */
  method GetLine(buffer: array<char>, line: Line)
    requires buffer.Length == CFG_MAX_PATH_LEN
    modifies buffer
    ensures |line| <= 255 && buffer.Length == 256
    ensures '\0' in buffer[..] && CString(buffer[..]) == CString(line)
  {
    StoreLine(buffer, line);
    CStringStopsAtNul(line, buffer[|line| + 1..]);
    assert buffer[..][|line|] == '\0';
  }

  /** Lower-cases the C string in the buffer and returns it. */
  method LowerCommand(buffer: array<char>) returns (command: string)
    requires '\0' in buffer[..]
    modifies buffer
    ensures command == Lower(old(CString(buffer[..]))) == CString(buffer[..])
  {
    ghost var typed := CString(buffer[..]);
    CStringEndsAtNul(buffer[..]);
    var length := StrLen(buffer);
    LowerInPlace(buffer, length);
    LowerHasNoNul(typed);
    CStringOfNulFree(Lower(typed));
    CStringStopsAtNul(Lower(typed), buffer[length + 1..]);
    assert buffer[length..][0] == '\0';
    assert buffer[..] == Lower(typed) + ['\0'] + buffer[length + 1..];
    assert '\0' in buffer[..] by {
      assert buffer[..][length] == '\0';
    }
    var n := StrLen(buffer);
    command := buffer[..n];
  }

  // ------------------------------------------------------------------
  // The console
  // ------------------------------------------------------------------

  lemma FirstEndUnfolds(commands: seq<Command>, from: nat)
    requires from <= |commands|
    ensures FirstEnd(commands, from) ==
              if from == |commands| then None
              else if commands[from].EndsSession() then Some(from)
              else FirstEnd(commands, from + 1)
  {
  }

  /** The main thread's part of the trace has followed the script, with `future` still to come,
      and the flag is set exactly if the trace has a press since the last clear. */
  ghost predicate OnTrack(trace: seq<Event>, future: Events, script: Events, flag: bool) {
    FollowedBy(MainTrace(trace), future) == script && (flag <==> PressSinceClear(trace))
  }

  lemma MainEventKeepsTrack(trace: seq<Event>, future: Events, script: Events, flag: bool)
    requires OnTrack(trace, future, script, flag) && future.Cons? && !FromHandler(future.head)
    ensures OnTrack(trace + [future.head], future.tail, script, flag && !future.head.ModelCleared?)
  {
    MainTraceAppend(trace, [future.head]);
    FollowedByOne(MainTrace(trace), future.head, future.tail);
    OneMore(trace, future.head);
  }

  lemma PressKeepsTrack(trace: seq<Event>, future: Events, script: Events, flag: bool)
    requires OnTrack(trace, future, script, flag)
    ensures OnTrack(trace + [Pressed, PressLogged], future, script, true)
  {
    assert trace + [Pressed, PressLogged] == trace + [Pressed] + [PressLogged];
    MainTraceAppend(trace, [Pressed]);
    MainTraceAppend(trace + [Pressed], [PressLogged]);
    OneMore(trace, Pressed);
    OneMore(trace + [Pressed], PressLogged);
  }

  class Console {
    const input: seq<Line>
    var commandModel: bool
    var blockAutoInfo: bool
    var next: nat
    var trace: seq<Event>   // what the main thread and the handler have done

    ghost const commands := DecodeAll(input)   // what the input says
    ghost const script := Script(commands, 0)  // what the main thread is to do
    ghost var future: Events                   // ... and has not done yet

    ghost predicate Valid()
      reads this
    {
      next <= |input| && OnTrack(trace, future, script, commandModel)
    }

    /** The trace has been extended, and the flag has not been cleared. */
    twostate predicate Continues()
      reads this
    {
      old(trace) <= trace && (old(commandModel) ==> commandModel)
    }

    constructor (input: seq<Line>)
      ensures Valid() && this.input == input && future == Script(commands, 0)
      ensures !commandModel && !blockAutoInfo && next == 0 && trace == []
    {
      this.input := input;
      commandModel, blockAutoInfo, next, trace := false, false, 0, [];
      future := Script(DecodeAll(input), 0);
    }

    /** The handler, when the event is Ctrl+C. */
    method ConsoleHandler()
      requires Valid()
      modifies this`commandModel, this`trace
      ensures Valid() && commandModel && trace == old(trace) + [Pressed, PressLogged]
    {
      PressKeepsTrack(trace, future, script, commandModel);
      commandModel := true;
      trace := trace + [Pressed, PressLogged];
    }

    /** The handler may run at this point. */
    method Interrupt()
      requires Valid()
      modifies this`commandModel, this`trace
      ensures Valid() && Continues()
    {
      if * {
        ConsoleHandler();
      }
    }

    /** Does the next thing in the script. */
    method Perform(e: Event)
      requires Valid() && future.Cons? && future.head == e && !FromHandler(e) && !e.ModelCleared?
      modifies this`trace, this`future
      ensures Valid() && trace == old(trace) + [e] && future == old(future).tail
    {
      MainEventKeepsTrack(trace, future, script, commandModel);
      trace := trace + [e];
      future := future.tail;
    }

    /** The same; a press may come right after it. */
    method Emit(e: Event)
      requires Valid() && future.Cons? && future.head == e && !FromHandler(e) && !e.ModelCleared?
      modifies this`trace, this`future, this`commandModel
      ensures Valid() && Continues() && future == old(future).tail
    {
      Perform(e);
      Interrupt();
    }

    /** Clears the flag; a press may come right after it. */
    method ClearModel()
      requires Valid() && future.Cons? && future.head == ModelCleared
      modifies this`trace, this`future, this`commandModel
      ensures Valid() && future == old(future).tail
      ensures old(trace) + [ModelCleared] <= trace
    {
      MainEventKeepsTrack(trace, future, script, commandModel);
      commandModel := false;
      trace := trace + [ModelCleared];
      future := future.tail;
      Interrupt();
    }

    method ComplainIfEmpty(userInput: array<char>, ghost after: Events)
      requires Valid() && '\0' in userInput[..]
      requires future == Noting(Understand(Lower(CString(userInput[..]))), after)
      modifies this`trace, this`future, this`commandModel
      ensures Valid() && Continues() && future == after
    {
      var length := StrLen(userInput);
      assert |Lower(CString(userInput[..]))| == length;
      if length == 0 {
        Emit(Beeped);
        Emit(EmptyLogged);
        Emit(EmptyShown);
      }
    }

    /** Reads a line, complains if it is empty, lower-cases it in the buffer and logs it. */
    method ReadCommand(userInput: array<char>, ghost after: Events) returns (command: string)
      requires Valid() && userInput.Length == CFG_MAX_PATH_LEN && next < |input|
      requires future == Cons(LineRead, Noting(commands[next], Cons(CommandLogged(commands[next].text), after)))
      modifies this`next, this`trace, this`future, this`commandModel, userInput
      ensures Valid() && Continues() && future == after
      ensures next == old(next) + 1 && commands[old(next)] == Understand(command)
    {
      Emit(LineRead);
      var line := input[next];
      ghost var c := commands[next];
      next := next + 1;
      GetLine(userInput, line);
      assert c == Understand(Lower(CString(userInput[..])));
      ComplainIfEmpty(userInput, Cons(CommandLogged(c.text), after));
      command := LowerCommand(userInput);
      Emit(CommandLogged(command));
    }

    /** Prompts, and reads a command unless it has to wait. */
    method NextCommand(userInput: array<char>, first: bool) returns (command: Option<string>)
      requires Valid() && userInput.Length == CFG_MAX_PATH_LEN
      requires future == Dialogue(commands, next, first)
      modifies this`next, this`trace, this`future, this`commandModel, userInput
      ensures Valid() && Continues()
      ensures command.None? <==> old(next) == |input|
      ensures command.None? ==> next == old(next) && future == Nil
      ensures command.Some? ==> next == old(next) + 1 && commands[old(next)] == Understand(command.value)
      ensures command.Some? ==> future == Acting(commands, old(next))
    {
      Emit(Prompted(if first then "CMD>: " else "\nCMD>: "));
      if next == |input| {
        return None;
      }
      assert Logging(commands, next) == Cons(CommandLogged(commands[next].text), Acting(commands, next));
      var text := ReadCommand(userInput, Acting(commands, next));
      return Some(text);
    }

    method EndProcess()
      requires Valid() && future == Quitting(Nil)
      modifies this`trace, this`future, this`commandModel
      ensures Valid() && Continues() && future == Nil
    {
      Emit(TrayRemoved);
      Emit(Uninitialized);
      Emit(Exited);
    }

    /** Responds to a command that does not leave the session; the command may end the process. */
    method Dispatch(command: string, ghost after: Events) returns (exited: bool)
      requires Valid() && !Classify(command).Leave?
      requires future == if Classify(command).Quit? then Quitting(Nil) else Responding(Understand(command), after)
      modifies this`trace, this`future, this`commandModel
      ensures Valid() && Continues()
      ensures exited <==> Classify(command).Quit?
      ensures future == if exited then Nil else after
    {
      if command == "info;" || command == "02" {
        Emit(InfoShown);
      } else if command == "help;" || command == "03" {
        Emit(HelpShown);
      } else if command == "exit;" || command == "04" {
        EndProcess();
        return true;
      } else {
        if command != "" {
          Emit(UnknownShown(command));
        }
      }
      return false;
    }

    /** The body of the command loop, up to the next command, unless that is not to come. */
    method LoopBody(userInput: array<char>, command: string) returns (end: PassEnd, nextCommand: string)
      requires Valid() && userInput.Length == CFG_MAX_PATH_LEN && 0 < next
      requires commands[next - 1] == Understand(command) && future == Acting(commands, next - 1)
      requires !Classify(command).Leave?
      modifies this`next, this`trace, this`future, this`commandModel, userInput
      ensures Valid() && Continues()
      ensures !end.Idle? ==> EndsAt(old(next) - 1, end) && !end.LeftSession? && future == Nil
      ensures end.Idle? ==> next == old(next) + 1 && commands[next - 1] == Understand(nextCommand)
      ensures end.Idle? ==> future == Acting(commands, next - 1)
      ensures end.Idle? ==> FirstEnd(commands, old(next) - 1) == FirstEnd(commands, next - 1)
    {
      nextCommand := command;
      FirstEndUnfolds(commands, next - 1);
      var exited := Dispatch(command, Dialogue(commands, next, false));
      if exited {
        return EndedProcess, command;
      }
      FirstEndUnfolds(commands, next);
      var read := NextCommand(userInput, false);
      if read.None? {
        return WaitingForInput, command;
      }
      return Idle, read.value;
    }

    /** The command loop, with the command read before it. */
    method CommandLoop(userInput: array<char>, firstCommand: string) returns (end: PassEnd)
      requires Valid() && userInput.Length == CFG_MAX_PATH_LEN && 0 < next
      requires commands[next - 1] == Understand(firstCommand) && future == Acting(commands, next - 1)
      modifies this`next, this`trace, this`future, this`commandModel, userInput
      ensures Valid() && Continues() && EndsAt(old(next) - 1, end)
      ensures future == if end.LeftSession? then Leaving(Script(commands, next)) else Nil
    {
      var command := firstCommand;
      while command != "work;" && command != "01"
        invariant Valid() && Continues() && 0 < next
        invariant commands[next - 1] == Understand(command) && future == Acting(commands, next - 1)
        invariant old(next) <= next && FirstEnd(commands, old(next) - 1) == FirstEnd(commands, next - 1)
        decreases |input| - next
      {
        end, command := LoopBody(userInput, command);
        if !end.Idle? {
          return;
        }
      }
      FirstEndUnfolds(commands, next - 1);
      return LeftSession;
    }

    /** A session that starts at `from` has read exactly the lines up to and including the
        first that ends it, or all if there is none. */
    ghost predicate EndsAt(from: nat, end: PassEnd)
      requires from <= |input|
      reads this
    {
      match FirstEnd(commands, from)
      case None => end == WaitingForInput && next == |input|
      case Some(t) => next == t + 1 && end == if commands[t].kind.Quit? then EndedProcess else LeftSession
    }

    /** From the first prompt to the command that ends the session: does all of it. */
    method CommandSession() returns (end: PassEnd)
      requires Valid() && future == Dialogue(commands, next, true)
      modifies this`next, this`trace, this`future, this`commandModel
      ensures Valid() && Continues() && EndsAt(old(next), end)
      ensures future == if end.LeftSession? then Leaving(Script(commands, next)) else Nil
    {
      var userInput := new char[CFG_MAX_PATH_LEN](_ => '\0');
      var read := NextCommand(userInput, true);
      if read.None? {
        return WaitingForInput;
      }
      end := CommandLoop(userInput, read.value);
    }

    /** One pass through the mode loop: nothing without a press, otherwise one whole session of
        the script.  Presses may come at any time during it; after a session that has been left
        the flag is set again exactly if one has come since the clear. */
    method Pass() returns (end: PassEnd)
      requires Valid() && !blockAutoInfo && future == Script(commands, next)
      modifies this`commandModel, this`blockAutoInfo, this`next, this`trace, this`future
      ensures Valid() && old(trace) <= trace
      ensures end.Idle? <==> !old(commandModel)
      ensures end.Idle? ==> unchanged(this)
      ensures !end.Idle? ==> EndsAt(old(next), end)
      ensures end.LeftSession? ==> !blockAutoInfo && future == Script(commands, next)
      ensures end.LeftSession? ==> ClearedSince(|old(trace)|)
      ensures !end.Idle? && !end.LeftSession? ==> commandModel && blockAutoInfo && future == Nil
    {
      end := Idle;
      if true == commandModel {
        if false == blockAutoInfo {
          blockAutoInfo := true;
          ShowEntered(Dialogue(commands, next, true));
          end := CommandSession();
          if !end.LeftSession? {
            return;
          }
        }
        if true == blockAutoInfo {
          LeaveSession(Script(commands, next));
        }
      }
    }

    /** The flag has been cleared after the first `n` events; by `Valid`, it is set now exactly if
        a press has come since the last clear. */
    ghost predicate ClearedSince(n: nat)
      reads this
    {
      exists k :: n <= k < |trace| && trace[k].ModelCleared?
    }

    method LeaveSession(ghost after: Events)
      requires Valid() && future == Leaving(after)
      modifies this`commandModel, this`blockAutoInfo, this`trace, this`future
      ensures Valid() && old(trace) <= trace && future == after && !blockAutoInfo
      ensures ClearedSince(|old(trace)|)
    {
      blockAutoInfo := false;
      ShowLeft(Cons(ModelCleared, Cons(ScreenCleared, after)));
      ghost var k := |trace|;
      ClearModel();
      assert trace[k].ModelCleared?;
      Emit(ScreenCleared);
      assert trace[k].ModelCleared?;
    }

    method ShowEntered(ghost after: Events)
      requires Valid() && future == Cons(Entered, Cons(TrayEntered, after))
      modifies this`trace, this`future, this`commandModel
      ensures Valid() && Continues() && future == after
    {
      Emit(Entered);
      Emit(TrayEntered);
    }

    method ShowLeft(ghost after: Events)
      requires Valid() && future == Cons(Left, Cons(TrayLeft, after))
      modifies this`trace, this`future, this`commandModel
      ensures Valid() && Continues() && future == after
    {
      Emit(Left);
      Emit(TrayLeft);
    }
  }

  /** What the main thread has done in a valid console, and what it has still to do, are those of
      a run of the transition system on the same input. */
  lemma ConsoleIsARun(c: Console)
    requires c.Valid()
    ensures exists schedule :: ScriptCompletion.Reaches(c.input, schedule, MainTrace(c.trace), c.future)
  {
    ScriptCompletion.ReachedIff(c.input, MainTrace(c.trace), c.future);
  }
}
