/**
  Which event of the main thread comes after which, told by the events and the lines alone.
  This is a second description of the behaviour beside the script, and they are equivalent:
  a sequence of events is what the main thread does in some run exactly if every event in it
  may come where it stands.
*/
module EventOrder {
  import opened ConsoleScript
  import opened ConsoleMachine
  import opened ScriptRefinement
  import opened ScriptCompletion

  /** What the console makes of a command, `t` being its text. */
  predicate IsAnswer(t: string, e: Event) {
    if t == "work;" || t == "01" then e == Left
    else if t == "info;" || t == "02" then e == InfoShown
    else if t == "help;" || t == "03" then e == HelpShown
    else if t == "exit;" || t == "04" then e == TrayRemoved
    else if t == "" then e == Prompted("\nCMD>: ")
    else e == UnknownShown(t)
  }

  /** After the event `last`, when `lines` lines have been read, `e` may come.  What the lines
      say, normalised, is in `texts`. */
  predicate MayFollow(texts: seq<string>, last: Event, lines: nat, e: Event) {
    match last
    case Entered => e == TrayEntered
    case TrayEntered => e == Prompted("CMD>: ")
    case Prompted(_) => e == LineRead && lines < |texts|
    case LineRead =>
      0 < lines <= |texts| && e == if texts[lines - 1] == "" then Beeped else CommandLogged(texts[lines - 1])
    case Beeped => e == EmptyLogged
    case EmptyLogged => e == EmptyShown
    case EmptyShown => e == CommandLogged("")
    case CommandLogged(t) => IsAnswer(t, e)
    case InfoShown | HelpShown | UnknownShown(_) => e == Prompted("\nCMD>: ")
    case TrayRemoved => e == Uninitialized
    case Uninitialized => e == Exited
    case Left => e == TrayLeft
    case TrayLeft => e == ModelCleared
    case ModelCleared => e == ScreenCleared
    case ScreenCleared => e == Entered
    case Exited | Pressed | PressLogged => false
  }

  /** Nothing may come after the exit, or after a prompt with no line left. */
  predicate MayStop(texts: seq<string>, last: Event, lines: nat) {
    last.Exited? || (last.Prompted? && lines == |texts|)
  }

  function LinesRead(past: seq<Event>): nat {
    if past == [] then 0
    else LinesRead(past[..|past| - 1]) + OneIfRead(past[|past| - 1])
  }

  function OneIfRead(e: Event): nat {
    if e.LineRead? then 1 else 0
  }

  /** At the start the main thread goes on as after a session. */
  function LastOf(past: seq<Event>): Event {
    if past == [] then ScreenCleared else past[|past| - 1]
  }

  /** Every event may come where it stands. */
  ghost predicate InOrder(texts: seq<string>, past: seq<Event>) {
    past != [] ==>
      var before := past[..|past| - 1];
      InOrder(texts, before) && MayFollow(texts, LastOf(before), LinesRead(before), past[|past| - 1])
  }

  function Texts(input: seq<Line>): (r: seq<string>)
    ensures |r| == |input| && forall i :: 0 <= i < |input| ==> r[i] == Lower(CString(input[i]))
  {
    seq(|input|, i requires 0 <= i < |input| => Normalise(input[i]))
  }

  // ------------------------------------------------------------------
  // The script is in order
  // ------------------------------------------------------------------

  /** After `last` the events come in order, and stop only where they may. */
  ghost predicate GoesOn(texts: seq<string>, last: Event, lines: nat, events: Events)
    decreases events
  {
    match events
    case Nil => MayStop(texts, last, lines)
    case Cons(e, rest) => MayFollow(texts, last, lines, e) && GoesOn(texts, e, lines + OneIfRead(e), rest)
  }

  lemma GoOn(texts: seq<string>, last: Event, lines: nat, e: Event, rest: Events)
    requires MayFollow(texts, last, lines, e) && GoesOn(texts, e, lines + OneIfRead(e), rest)
    ensures GoesOn(texts, last, lines, Cons(e, rest))
  {
  }

  ghost predicate Mean(commands: seq<Command>, texts: seq<string>) {
    |commands| == |texts| && forall i :: 0 <= i < |texts| ==> commands[i] == Understand(texts[i])
  }

  lemma {:induction false} ScriptGoesOn(commands: seq<Command>, texts: seq<string>, from: nat)
    requires Mean(commands, texts) && from <= |commands|
    ensures GoesOn(texts, ScreenCleared, from, Script(commands, from))
    decreases |commands| - from, 1
  {
    DialogueGoesOn(commands, texts, from, true, TrayEntered);
    GoOn(texts, Entered, from, TrayEntered, Dialogue(commands, from, true));
    GoOn(texts, ScreenCleared, from, Entered, Cons(TrayEntered, Dialogue(commands, from, true)));
  }

  lemma {:induction false} DialogueGoesOn(commands: seq<Command>, texts: seq<string>, from: nat, first: bool,
                                          last: Event)
    requires Mean(commands, texts) && from <= |commands|
    requires MayFollow(texts, last, from, Prompted(PromptText(first)))
    ensures GoesOn(texts, last, from, Dialogue(commands, from, first))
    decreases |commands| - from, 0
  {
    var prompt := Prompted(PromptText(first));
    if from < |commands| {
      ActingGoesOn(commands, texts, from);
    }
    ReadingGoesOn(commands, texts, from, prompt);
    GoOn(texts, last, from, prompt, Reading(commands, from));
  }

  lemma ReadingGoesOn(commands: seq<Command>, texts: seq<string>, from: nat, prompt: Event)
    requires Mean(commands, texts) && from <= |commands| && prompt.Prompted?
    requires from < |commands| ==>
               GoesOn(texts, CommandLogged(commands[from].text), from + 1, Acting(commands, from))
    ensures GoesOn(texts, prompt, from, Reading(commands, from))
  {
    if from < |commands| {
      LineGoesOn(texts, from, prompt, commands[from], Acting(commands, from));
      assert Logging(commands, from) == Cons(CommandLogged(commands[from].text), Acting(commands, from));
    } else {
      assert Reading(commands, from) == Nil;
    }
  }

  lemma LineGoesOn(texts: seq<string>, from: nat, prompt: Event, c: Command, acting: Events)
    requires from < |texts| && c == Understand(texts[from]) && prompt.Prompted?
    requires GoesOn(texts, CommandLogged(c.text), from + 1, acting)
    ensures GoesOn(texts, prompt, from, Cons(LineRead, Noting(c, Cons(CommandLogged(c.text), acting))))
  {
    var logging := Cons(CommandLogged(c.text), acting);
    if c.text == "" {
      GoOn(texts, EmptyShown, from + 1, CommandLogged(c.text), acting);
      GoOn(texts, EmptyLogged, from + 1, EmptyShown, logging);
      GoOn(texts, Beeped, from + 1, EmptyLogged, Cons(EmptyShown, logging));
    }
    GoOn(texts, prompt, from, LineRead, Noting(c, logging));
  }

  lemma {:induction false} ActingGoesOn(commands: seq<Command>, texts: seq<string>, from: nat)
    requires Mean(commands, texts) && from < |commands|
    ensures GoesOn(texts, CommandLogged(commands[from].text), from + 1, Acting(commands, from))
    decreases |commands| - from - 1, 2
  {
    var c := commands[from];
    if c.kind.Leave? {
      ScriptGoesOn(commands, texts, from + 1);
      LeavingGoesOn(texts, from + 1, c.text, Script(commands, from + 1));
    } else if c.kind.Quit? {
      QuittingGoesOn(texts, from + 1, c.text);
    } else {
      AnswerThenPrompt(texts, from + 1, c);
      DialogueGoesOn(commands, texts, from + 1, false, AnswerTo(c));
      RespondingGoesOn(texts, from + 1, c, Dialogue(commands, from + 1, false));
    }
  }

  lemma LeavingGoesOn(texts: seq<string>, lines: nat, t: string, after: Events)
    requires Classify(t).Leave? && GoesOn(texts, ScreenCleared, lines, after)
    ensures GoesOn(texts, CommandLogged(t), lines, Leaving(after))
  {
    GoOn(texts, ModelCleared, lines, ScreenCleared, after);
    GoOn(texts, TrayLeft, lines, ModelCleared, Cons(ScreenCleared, after));
    GoOn(texts, Left, lines, TrayLeft, Cons(ModelCleared, Cons(ScreenCleared, after)));
    GoOn(texts, CommandLogged(t), lines, Left, Cons(TrayLeft, Cons(ModelCleared, Cons(ScreenCleared, after))));
  }

  lemma QuittingGoesOn(texts: seq<string>, lines: nat, t: string)
    requires Classify(t).Quit?
    ensures GoesOn(texts, CommandLogged(t), lines, Quitting(Nil))
  {
    GoOn(texts, Uninitialized, lines, Exited, Nil);
    GoOn(texts, TrayRemoved, lines, Uninitialized, Cons(Exited, Nil));
    GoOn(texts, CommandLogged(t), lines, TrayRemoved, Cons(Uninitialized, Cons(Exited, Nil)));
  }

  /** What comes last before the next prompt. */
  function AnswerTo(c: Command): Event {
    match c.kind
    case Info => InfoShown
    case Help => HelpShown
    case Unknown => UnknownShown(c.text)
    case _ => CommandLogged(c.text)
  }

  lemma AnswerThenPrompt(texts: seq<string>, lines: nat, c: Command)
    requires c == Understand(c.text) && !c.EndsSession()
    ensures MayFollow(texts, AnswerTo(c), lines, Prompted(PromptText(false)))
  {
  }

  lemma RespondingGoesOn(texts: seq<string>, lines: nat, c: Command, after: Events)
    requires c == Understand(c.text) && !c.EndsSession() && GoesOn(texts, AnswerTo(c), lines, after)
    ensures GoesOn(texts, CommandLogged(c.text), lines, Responding(c, after))
  {
  }

  // ------------------------------------------------------------------
  // Pasts of the script
  // ------------------------------------------------------------------

  lemma {:induction false} PastInOrder(texts: seq<string>, past: seq<Event>, future: Events)
    requires GoesOn(texts, ScreenCleared, 0, FollowedBy(past, future))
    ensures InOrder(texts, past) && GoesOn(texts, LastOf(past), LinesRead(past), future)
  {
    if past != [] {
      PastInOrder(texts, past[..|past| - 1], Cons(past[|past| - 1], future));
      PastOneMore(texts, past, future);
    }
  }

  lemma PastOneMore(texts: seq<string>, past: seq<Event>, future: Events)
    requires past != []
    requires var before := past[..|past| - 1];
             && InOrder(texts, before)
             && GoesOn(texts, LastOf(before), LinesRead(before), Cons(past[|past| - 1], future))
    ensures InOrder(texts, past) && GoesOn(texts, LastOf(past), LinesRead(past), future)
  {
  }

  /** A sequence of events in order can be continued to the script. */
  lemma {:induction false} OrderedIsPast(texts: seq<string>, past: seq<Event>, script: Events) returns (future: Events)
    requires GoesOn(texts, ScreenCleared, 0, script) && InOrder(texts, past)
    ensures FollowedBy(past, future) == script
  {
    if past == [] {
      future := script;
    } else {
      var before, e := past[..|past| - 1], past[|past| - 1];
      var rest := OrderedIsPast(texts, before, script);
      PastInOrder(texts, before, rest);
      OnlyOneFollows(texts, LastOf(before), LinesRead(before), e, rest);
      future := rest.tail;
    }
  }

  lemma OnlyOneFollows(texts: seq<string>, last: Event, lines: nat, e: Event, events: Events)
    requires MayFollow(texts, last, lines, e) && GoesOn(texts, last, lines, events)
    ensures events.Cons? && events.head == e
  {
    if events.Cons? {
      FollowerIsUnique(texts, last, lines, e, events.head);
    }
  }

  lemma FollowerIsUnique(texts: seq<string>, last: Event, lines: nat, e: Event, f: Event)
    requires MayFollow(texts, last, lines, e) && MayFollow(texts, last, lines, f)
    ensures e == f
  {
    if last.CommandLogged? {
      AnswerIsUnique(last.command, e, f);
    }
  }

  lemma AnswerIsUnique(t: string, e: Event, f: Event)
    requires IsAnswer(t, e) && IsAnswer(t, f)
    ensures e == f
  {
  }

  lemma InputGoesOn(input: seq<Line>)
    ensures GoesOn(Texts(input), ScreenCleared, 0, Script(DecodeAll(input), 0))
  {
    ScriptGoesOn(DecodeAll(input), Texts(input), 0);
  }

  lemma RunInOrder(input: seq<Line>, schedule: seq<Action>)
    ensures var m := Run(input, schedule);
            && InOrder(Texts(input), MainTrace(m.trace))
            && HoldsCommand(m.state, DecodeAll(input))
            && GoesOn(Texts(input), LastOf(MainTrace(m.trace)), LinesRead(MainTrace(m.trace)),
                      Remaining(m.state, DecodeAll(input)))
  {
    var m := Run(input, schedule);
    InputGoesOn(input);
    RunsFollowTheScript(input, schedule);
    PastInOrder(Texts(input), MainTrace(m.trace), Remaining(m.state, DecodeAll(input)));
  }

  /** A sequence of events is what the main thread has done in some run on the input exactly if
      every event in it may come where it stands. */
  lemma DoneInSomeRunIff(input: seq<Line>, past: seq<Event>)
    ensures (exists schedule :: MainTrace(Run(input, schedule).trace) == past) <==> InOrder(Texts(input), past)
  {
    if schedule :| MainTrace(Run(input, schedule).trace) == past {
      RunInOrder(input, schedule);
    }
    if InOrder(Texts(input), past) {
      InputGoesOn(input);
      var future := OrderedIsPast(Texts(input), past, Script(DecodeAll(input), 0));
      ReachedIff(input, past, future);
      var schedule :| Reaches(input, schedule, past, future);
      assert MainTrace(Run(input, schedule).trace) == past;
    }
  }

  // ------------------------------------------------------------------
  // What the events say
  // ------------------------------------------------------------------

  /** What the main thread has done. */
  function Done(input: seq<Line>, schedule: seq<Action>): seq<Event> {
    MainTrace(Run(input, schedule).trace)
  }

  lemma {:induction false} InOrderAt(texts: seq<string>, past: seq<Event>, j: nat)
    requires InOrder(texts, past) && j < |past|
    ensures MayFollow(texts, LastOf(past[..j]), LinesRead(past[..j]), past[j])
  {
    var before := past[..|past| - 1];
    if j < |before| {
      InOrderAt(texts, before, j);
      assert before[..j] == past[..j];
    }
  }

  lemma DoneAt(input: seq<Line>, schedule: seq<Action>, j: nat)
    requires j < |Done(input, schedule)|
    ensures var done := Done(input, schedule);
            MayFollow(Texts(input), if j == 0 then ScreenCleared else done[j - 1], LinesRead(done[..j]), done[j])
  {
    RunInOrder(input, schedule);
    InOrderAt(Texts(input), Done(input, schedule), j);
  }

  /** Each command gets the answer that its text asks for, and no other. */
  lemma CommandsAreAnswered(input: seq<Line>, schedule: seq<Action>, j: nat)
    requires j + 1 < |Done(input, schedule)| && Done(input, schedule)[j].CommandLogged?
    ensures var t, answer := Done(input, schedule)[j].command, Done(input, schedule)[j + 1];
            && (answer == Left <==> t == "work;" || t == "01")
            && (answer == InfoShown <==> t == "info;" || t == "02")
            && (answer == HelpShown <==> t == "help;" || t == "03")
            && (answer == TrayRemoved <==> t == "exit;" || t == "04")
            && (answer == Prompted("\nCMD>: ") <==> t == "")
            && (answer == UnknownShown(t) <==>
                  && t != "" && t != "work;" && t != "01" && t != "info;" && t != "02"
                  && t != "help;" && t != "03" && t != "exit;" && t != "04")
  {
    DoneAt(input, schedule, j + 1);
    AnswerTold(Done(input, schedule)[j].command, Done(input, schedule)[j + 1]);
  }

  lemma AnswerTold(t: string, answer: Event)
    requires IsAnswer(t, answer)
    ensures answer == Left <==> t == "work;" || t == "01"
    ensures answer == InfoShown <==> t == "info;" || t == "02"
    ensures answer == HelpShown <==> t == "help;" || t == "03"
    ensures answer == TrayRemoved <==> t == "exit;" || t == "04"
    ensures answer == Prompted("\nCMD>: ") <==> t == ""
    ensures answer == UnknownShown(t) <==>
            && t != "" && t != "work;" && t != "01" && t != "info;" && t != "02"
            && t != "help;" && t != "03" && t != "exit;" && t != "04"
  {
  }

  /** The first prompt of a session starts no new line, the others do; and a line is read
      exactly after a prompt. */
  lemma PromptsAndReads(input: seq<Line>, schedule: seq<Action>, j: nat)
    requires j < |Done(input, schedule)|
    ensures var done := Done(input, schedule);
            && (done[j].Prompted? ==>
                  j > 0 && done[j].text == if done[j - 1] == TrayEntered then "CMD>: " else "\nCMD>: ")
            && (j > 0 && done[j - 1] == TrayEntered ==> done[j] == Prompted("CMD>: "))
            && (done[j] == LineRead <==> j > 0 && done[j - 1].Prompted?)
            && (j > 0 && (done[j - 1] == InfoShown || done[j - 1] == HelpShown || done[j - 1].UnknownShown?) ==>
                  done[j] == Prompted("\nCMD>: "))
  {
    DoneAt(input, schedule, j);
  }

  /** What certain events come after. */
  lemma ComesAfter(texts: seq<string>, last: Event, lines: nat, e: Event)
    requires MayFollow(texts, last, lines, e)
    ensures e == Exited ==> last == Uninitialized
    ensures e == Uninitialized ==> last == TrayRemoved
    ensures e == TrayRemoved ==> last == CommandLogged("exit;") || last == CommandLogged("04")
    ensures e == EmptyShown ==> last == EmptyLogged
    ensures e == EmptyLogged ==> last == Beeped
    ensures e == Beeped ==> last == LineRead
  {
  }

  lemma DoneAfter(input: seq<Line>, schedule: seq<Action>, j: nat)
    requires j < |Done(input, schedule)|
    ensures var done := Done(input, schedule);
            var e, last := done[j], if j == 0 then ScreenCleared else done[j - 1];
            && (e == Exited ==> last == Uninitialized)
            && (e == Uninitialized ==> last == TrayRemoved)
            && (e == TrayRemoved ==> last == CommandLogged("exit;") || last == CommandLogged("04"))
            && (e == EmptyShown ==> last == EmptyLogged)
            && (e == EmptyLogged ==> last == Beeped)
            && (e == Beeped ==> last == LineRead)
  {
    var done := Done(input, schedule);
    DoneAt(input, schedule, j);
    ComesAfter(Texts(input), if j == 0 then ScreenCleared else done[j - 1], LinesRead(done[..j]), done[j]);
  }

  /** The process exits on an exit command only, with the tray icon removed and the system
      taken down. */
  lemma ExitIsPrepared(input: seq<Line>, schedule: seq<Action>, j: nat)
    requires j < |Done(input, schedule)| && Done(input, schedule)[j] == Exited
    ensures var done := Done(input, schedule);
            && j >= 3 && done[j - 1] == Uninitialized && done[j - 2] == TrayRemoved
            && (done[j - 3] == CommandLogged("exit;") || done[j - 3] == CommandLogged("04"))
  {
    DoneAfter(input, schedule, j);
    DoneAfter(input, schedule, j - 1);
    DoneAfter(input, schedule, j - 2);
  }

  /** A command is the lower-cased C string of the line read last; if that is empty, the
      console has beeped, logged and complained before. */
  lemma CommandsAreLines(input: seq<Line>, schedule: seq<Action>, j: nat)
    requires j < |Done(input, schedule)| && Done(input, schedule)[j].CommandLogged?
    ensures var done := Done(input, schedule);
            var n := LinesRead(done[..j]);
            && 0 < n <= |input| && done[j].command == Lower(CString(input[n - 1]))
            && if done[j].command == "" then
                 && j >= 4 && done[j - 4] == LineRead
                 && done[j - 3] == Beeped && done[j - 2] == EmptyLogged && done[j - 1] == EmptyShown
               else j >= 1 && done[j - 1] == LineRead
  {
    LoggedAt(input, schedule, j);
    if Done(input, schedule)[j].command == "" {
      ComplaintIsWhole(input, schedule, j - 1);
      NoReadBetween(Done(input, schedule), j);
      EmptyAt(input, schedule, j - 3);
    }
  }

  lemma LoggedAt(input: seq<Line>, schedule: seq<Action>, j: nat)
    requires j < |Done(input, schedule)| && Done(input, schedule)[j].CommandLogged?
    ensures var done := Done(input, schedule);
            var n := LinesRead(done[..j]);
            && j > 0
            && if done[j].command == "" then done[j - 1] == EmptyShown
               else done[j - 1] == LineRead && 0 < n <= |input| && done[j].command == Lower(CString(input[n - 1]))
  {
    var done := Done(input, schedule);
    DoneAt(input, schedule, j);
    LoggedText(Texts(input), if j == 0 then ScreenCleared else done[j - 1], LinesRead(done[..j]), done[j].command);
  }

  lemma LoggedText(texts: seq<string>, last: Event, lines: nat, t: string)
    requires MayFollow(texts, last, lines, CommandLogged(t))
    ensures if t == "" then last == EmptyShown
            else last == LineRead && 0 < lines <= |texts| && t == texts[lines - 1]
  {
  }

  lemma EmptyAt(input: seq<Line>, schedule: seq<Action>, j: nat)
    requires j < |Done(input, schedule)| && Done(input, schedule)[j] == Beeped
    ensures var n := LinesRead(Done(input, schedule)[..j]);
            0 < n <= |input| && Lower(CString(input[n - 1])) == ""
  {
    var done := Done(input, schedule);
    DoneAt(input, schedule, j);
    EmptyText(Texts(input), if j == 0 then ScreenCleared else done[j - 1], LinesRead(done[..j]));
  }

  lemma EmptyText(texts: seq<string>, last: Event, lines: nat)
    requires MayFollow(texts, last, lines, Beeped)
    ensures 0 < lines <= |texts| && texts[lines - 1] == ""
  {
  }

  lemma ComplaintIsWhole(input: seq<Line>, schedule: seq<Action>, j: nat)
    requires j < |Done(input, schedule)| && Done(input, schedule)[j] == EmptyShown
    ensures var done := Done(input, schedule);
            j >= 3 && done[j - 1] == EmptyLogged && done[j - 2] == Beeped && done[j - 3] == LineRead
  {
    DoneAfter(input, schedule, j);
    DoneAfter(input, schedule, j - 1);
    DoneAfter(input, schedule, j - 2);
  }

  lemma NoReadBetween(done: seq<Event>, j: nat)
    requires 3 <= j < |done| && !done[j - 1].LineRead? && !done[j - 2].LineRead? && !done[j - 3].LineRead?
    ensures LinesRead(done[..j]) == LinesRead(done[..j - 3])
  {
    LinesReadBefore(done, j);
    LinesReadBefore(done, j - 1);
    LinesReadBefore(done, j - 2);
  }

  lemma LinesReadBefore(done: seq<Event>, j: nat)
    requires 0 < j <= |done|
    ensures LinesRead(done[..j]) == LinesRead(done[..j - 1]) + OneIfRead(done[j - 1])
  {
    assert done[..j][..j - 1] == done[..j - 1];
  }

  /** After a session the tray icon is changed, the flag and the screen are cleared, and the
      next session is entered, with the tray icon changed again. */
  lemma LeavingIsWhole(input: seq<Line>, schedule: seq<Action>, j: nat)
    requires j < |Done(input, schedule)| && Done(input, schedule)[j] == Left
    ensures var after := Done(input, schedule)[j + 1..];
            var whole := [TrayLeft, ModelCleared, ScreenCleared, Entered, TrayEntered];
            after <= whole || whole <= after
  {
    var done := Done(input, schedule);
    forall k | j < k < |done| && k <= j + 5
      ensures done[k] == [TrayLeft, ModelCleared, ScreenCleared, Entered, TrayEntered][k - j - 1]
    {
      LeavingAt(input, schedule, j, k);
    }
  }

  lemma {:induction false} LeavingAt(input: seq<Line>, schedule: seq<Action>, j: nat, k: nat)
    requires j < k < |Done(input, schedule)| && k <= j + 5 && Done(input, schedule)[j] == Left
    ensures Done(input, schedule)[k] == [TrayLeft, ModelCleared, ScreenCleared, Entered, TrayEntered][k - j - 1]
  {
    DoneAt(input, schedule, k);
    if k > j + 1 {
      LeavingAt(input, schedule, j, k - 1);
    }
  }

  /** The first session is entered in the same way. */
  lemma FirstEntry(input: seq<Line>, schedule: seq<Action>)
    ensures var done := Done(input, schedule);
            done <= [Entered, TrayEntered] || [Entered, TrayEntered] <= done
  {
    var done := Done(input, schedule);
    if |done| > 0 {
      DoneAt(input, schedule, 0);
    }
    if |done| > 1 {
      DoneAt(input, schedule, 1);
    }
  }

  /** With steps enough, the main thread stops only after the exit, or at a prompt when every
      line has been read. */
  lemma StopsOnlyAtTheEnd(input: seq<Line>, schedule: seq<Action>)
    requires Stretches(schedule) >= 25 * |input| + 12
    ensures var done := Done(input, schedule);
            done != [] && (done[|done| - 1] == Exited || (done[|done| - 1].Prompted? && LinesRead(done) == |input|))
  {
    InputGoesOn(input);
    PressesCompleteScript(input, schedule);
    PastInOrder(Texts(input), Done(input, schedule), Nil);
  }

  // ------------------------------------------------------------------
  // The flag of the main thread
  // ------------------------------------------------------------------

  /** Only directly after the clear of the screen, or after a command that leaves, the event
      last seen leaves it open. */
  predicate BlockFits(block: bool, last: Event) {
    match last
    case Left | TrayLeft | ModelCleared => !block
    case ScreenCleared => true
    case CommandLogged(t) => t == "work;" || t == "01" || block
    case _ => block
  }

  predicate OutsideHead(events: Events) {
    events.Cons? &&
    match events.head
    case Entered | Left | TrayLeft | ModelCleared | ScreenCleared => true
    case _ => false
  }

  predicate LeavingHead(events: Events) {
    events.Cons? &&
    match events.head
    case TrayLeft | ModelCleared | ScreenCleared => true
    case _ => false
  }

  lemma RemainingTellsPlace(s: State, commands: seq<Command>)
    requires HoldsCommand(s, commands)
    ensures !InSession(s.pc) ==> OutsideHead(Remaining(s, commands))
    ensures InSession(s.pc) ==> !LeavingHead(Remaining(s, commands))
  {
    if HasCommand(s.pc) {
      ActingHead(commands, s.next - 1);
    }
  }

  lemma ActingHead(commands: seq<Command>, from: nat)
    requires from < |commands|
    ensures !LeavingHead(Acting(commands, from))
  {
  }

  lemma LastTellsPlace(texts: seq<string>, last: Event, lines: nat, events: Events)
    requires GoesOn(texts, last, lines, events)
    ensures OutsideHead(events) ==> BlockFits(false, last)
    ensures !LeavingHead(events) ==> BlockFits(true, last)
  {
  }

  lemma BlockFitsAlways(input: seq<Line>, schedule: seq<Action>)
    ensures BlockFits(Run(input, schedule).state.blockAutoInfo, LastOf(Done(input, schedule)))
  {
    var s, done := Run(input, schedule).state, Done(input, schedule);
    RunInOrder(input, schedule);
    FlagsFitAlways(input, schedule);
    RemainingTellsPlace(s, DecodeAll(input));
    LastTellsPlace(Texts(input), LastOf(done), LinesRead(done), Remaining(s, DecodeAll(input)));
  }

  /** `g_block_auto_info` is set before the log entry for a session's start, and cleared after
      the command that leaves and before the log entry for the session's end. */
  lemma TraceTellsBlock(input: seq<Line>, schedule: seq<Action>)
    requires Done(input, schedule) != []
    ensures var block, last := Run(input, schedule).state.blockAutoInfo, LastOf(Done(input, schedule));
            && (last == Left || last == TrayLeft || last == ModelCleared ==> !block)
            && (block
                || last == Left || last == TrayLeft || last == ModelCleared || last == ScreenCleared
                || last == CommandLogged("work;") || last == CommandLogged("01"))
  {
    BlockFitsAlways(input, schedule);
  }
}
