/**
  What the console does, command line by command line: how a line is normalised, what is
  shown for it, and where a session ends.
*/
module ConsoleScript {
  import opened Options

  const CFG_MAX_PATH_LEN: nat := 256

  /** A line that fits into the input buffer together with its terminating NUL. */
  type Line = s: string | |s| < CFG_MAX_PATH_LEN witness ""

  // ------------------------------------------------------------------
  // Normalisation
  // ------------------------------------------------------------------

  /** The C string at the start of a buffer. */
  function CString(s: string): (r: string)
    ensures |r| <= |s|
  {
    if s == "" || s[0] == '\0' then "" else [s[0]] + CString(s[1..])
  }

  /** It is what stands before the first NUL. */
  lemma {:induction false} CStringEndsAtNul(s: string)
    ensures CString(s) <= s && '\0' !in CString(s)
    ensures |CString(s)| < |s| ==> s[|CString(s)|] == '\0'
  {
    if s != "" && s[0] != '\0' {
      CStringEndsAtNul(s[1..]);
      assert s == [s[0]] + s[1..];
    }
  }

  function LowerChar(c: char): char {
    if 'A' <= c <= 'Z' then (c as int + ('a' as int - 'A' as int)) as char else c
  }

  function Lower(s: string): string {
    seq(|s|, i requires 0 <= i < |s| => LowerChar(s[i]))
  }

  function Normalise(line: string): string {
    Lower(CString(line))
  }

  /** The same character, or the same ASCII letter in the other case. */
  predicate SameLetter(c: char, d: char) {
    || c == d
    || ('A' <= c <= 'Z' && d as int == c as int + 32)
    || ('A' <= d <= 'Z' && c as int == d as int + 32)
  }

  predicate SameUpToCase(s: string, t: string) {
    |s| == |t| && forall i :: 0 <= i < |s| ==> SameLetter(s[i], t[i])
  }

  /** Lower-casing changes at most the case of letters, leaves no capital, and identifies
      exactly the strings that agree up to ASCII letter case. */
  lemma LowerEqualIff(s: string, t: string)
    ensures SameUpToCase(s, Lower(s)) && forall c :: c in Lower(s) ==> !('A' <= c <= 'Z')
    ensures Lower(s) == Lower(t) <==> SameUpToCase(s, t)
  {
    forall i | 0 <= i < |s| && i < |t|
      ensures Lower(s)[i] == Lower(t)[i] <==> SameLetter(s[i], t[i])
    {
    }
    if Lower(s) == Lower(t) {
      assert |s| == |Lower(s)| == |t|;
    }
  }

  lemma {:induction false} CStringKeepsSimilarity(s: string, t: string)
    requires SameUpToCase(s, t)
    ensures SameUpToCase(CString(s), CString(t))
  {
    if s != "" && s[0] != '\0' {
      assert SameLetter(s[0], t[0]);
      forall i | 0 <= i < |s| - 1
        ensures SameLetter(s[1..][i], t[1..][i])
      {
        assert SameLetter(s[i + 1], t[i + 1]);
      }
      CStringKeepsSimilarity(s[1..], t[1..]);
    }
  }

  // ------------------------------------------------------------------
  // Commands
  // ------------------------------------------------------------------

  datatype Kind = Leave | Info | Help | Quit | Empty | Unknown

  function Classify(command: string): Kind {
    if command == "work;" || command == "01" then Leave
    else if command == "info;" || command == "02" then Info
    else if command == "help;" || command == "03" then Help
    else if command == "exit;" || command == "04" then Quit
    else if command == "" then Empty
    else Unknown
  }

  /** A command line as the console understands it. */
  datatype Command = Command(text: string, kind: Kind)
  {
    predicate EndsSession() {
      kind.Leave? || kind.Quit?
    }
  }

  function Understand(text: string): Command {
    Command(text, Classify(text))
  }

  function Decode(line: string): Command {
    Understand(Normalise(line))
  }

  function DecodeAll(input: seq<Line>): (r: seq<Command>)
    ensures |r| == |input| && forall i :: 0 <= i < |input| ==> r[i] == Decode(input[i])
  {
    seq(|input|, i requires 0 <= i < |input| => Decode(input[i]))
  }

  // ------------------------------------------------------------------
  // Events
  // ------------------------------------------------------------------

  datatype Event =
    | Pressed                          // Ctrl+C: the handler has set the flag
    | PressLogged                      // ... and has written its log entry
    | Entered                          // log: command mode entered
    | TrayEntered                      // tray icon: command mode entered
    | Prompted(text: string)
    | LineRead
    | Beeped                           // empty command: beep,
    | EmptyLogged                      // log entry
    | EmptyShown                       // and error message
    | CommandLogged(command: string)
    | InfoShown
    | HelpShown
    | UnknownShown(command: string)
    | TrayRemoved                      // exit: tray icon removed,
    | Uninitialized                    // system taken down
    | Exited                           // and process ended
    | Left                             // log: command mode left
    | TrayLeft                         // tray icon: command mode left
    | ModelCleared                     // the flag has been cleared
    | ScreenCleared

  function PromptText(first: bool): string {
    if first then "CMD>: " else "\nCMD>: "
  }

  /** Events still to come, the next one first. */
  datatype Events = Nil | Cons(head: Event, tail: Events)

  /** The events that have happened, then those to come. */
  function FollowedBy(past: seq<Event>, future: Events): Events {
    if past == [] then future
    else FollowedBy(past[..|past| - 1], Cons(past[|past| - 1], future))
  }

  lemma {:induction false} FollowedByAppend(a: seq<Event>, b: seq<Event>, future: Events)
    ensures FollowedBy(a + b, future) == FollowedBy(a, FollowedBy(b, future))
  {
    if b == [] {
      assert a + b == a;
    } else {
      assert (a + b)[..|a + b| - 1] == a + b[..|b| - 1];
      FollowedByAppend(a, b[..|b| - 1], Cons(b[|b| - 1], future));
    }
  }

  lemma FollowedByOne(past: seq<Event>, e: Event, future: Events)
    ensures FollowedBy(past + [e], future) == FollowedBy(past, Cons(e, future))
  {
    assert (past + [e])[..|past|] == past;
  }

  lemma {:induction false} SamePast(a: seq<Event>, afterA: Events, b: seq<Event>, afterB: Events)
    requires FollowedBy(a, afterA) == FollowedBy(b, afterB)
    ensures a <= b || b <= a
  {
    if a != [] && b != [] {
      FollowedByHead(a, afterA);
      FollowedByHead(b, afterB);
      SamePast(a[1..], afterA, b[1..], afterB);
      assert a == [a[0]] + a[1..] && b == [b[0]] + b[1..];
    }
  }

  lemma FollowedByHead(past: seq<Event>, future: Events)
    requires past != []
    ensures FollowedBy(past, future) == Cons(past[0], FollowedBy(past[1..], future))
  {
    assert past == [past[0]] + past[1..];
    FollowedByAppend([past[0]], past[1..], future);
    assert [past[0]][..0] == [];
  }

  function Length(events: Events): nat {
    match events
    case Nil => 0
    case Cons(_, rest) => 1 + Length(rest)
  }

  lemma {:induction false} FollowedByLength(past: seq<Event>, future: Events)
    ensures Length(FollowedBy(past, future)) == |past| + Length(future)
  {
    if past != [] {
      FollowedByLength(past[..|past| - 1], Cons(past[|past| - 1], future));
    }
  }

  /** What has happened is determined by the script and by what is still to come. */
  lemma {:induction false} PastIsDetermined(p: seq<Event>, q: seq<Event>, future: Events)
    requires FollowedBy(p, future) == FollowedBy(q, future)
    ensures p == q
  {
    FollowedByLength(p, future);
    FollowedByLength(q, future);
    SamePast(p, future, q, future);
  }

  lemma {:induction false} FutureIsDetermined(past: seq<Event>, f: Events, g: Events)
    requires FollowedBy(past, f) == FollowedBy(past, g)
    ensures f == g
  {
    if past != [] {
      FutureIsDetermined(past[..|past| - 1], Cons(past[|past| - 1], f), Cons(past[|past| - 1], g));
    }
  }

  // ------------------------------------------------------------------
  // The script
  // ------------------------------------------------------------------

  /** One session after the other, for the commands from `from` on. */
  function Script(commands: seq<Command>, from: nat): Events
    requires from <= |commands|
    decreases |commands| - from, 3
  {
    Cons(Entered, Cons(TrayEntered, Dialogue(commands, from, true)))
  }

  /** A session from its next prompt on, and everything after it. */
  function Dialogue(commands: seq<Command>, from: nat, first: bool): Events
    requires from <= |commands|
    decreases |commands| - from, 2
  {
    Cons(Prompted(PromptText(first)), Reading(commands, from))
  }

  /** A read waits if there is no line left. */
  function Reading(commands: seq<Command>, from: nat): Events
    requires from <= |commands|
    decreases |commands| - from, 1
  {
    if from == |commands| then Nil
    else Cons(LineRead, Noting(commands[from], Logging(commands, from)))
  }

  function Noting(c: Command, after: Events): Events {
    if c.kind.Empty? then Cons(Beeped, Cons(EmptyLogged, Cons(EmptyShown, after))) else after
  }

  function Logging(commands: seq<Command>, from: nat): Events
    requires from < |commands|
    decreases |commands| - from, 0
  {
    Cons(CommandLogged(commands[from].text), Acting(commands, from))
  }

  /** What the command at `from` leads to. */
  function Acting(commands: seq<Command>, from: nat): Events
    requires from < |commands|
    decreases |commands| - from - 1, 4
  {
    var c := commands[from];
    match c.kind
    case Leave => Leaving(Script(commands, from + 1))
    case Quit => Quitting(Nil)
    case _ => Responding(c, Dialogue(commands, from + 1, false))
  }

  function Responding(c: Command, after: Events): Events {
    match c.kind
    case Info => Cons(InfoShown, after)
    case Help => Cons(HelpShown, after)
    case Unknown => Cons(UnknownShown(c.text), after)
    case _ => after
  }

  function Leaving(after: Events): Events {
    Cons(Left, Cons(TrayLeft, Cons(ModelCleared, Cons(ScreenCleared, after))))
  }

  function Quitting(after: Events): Events {
    Cons(TrayRemoved, Cons(Uninitialized, Cons(Exited, after)))
  }

  // ------------------------------------------------------------------
  // What a session consumes
  // ------------------------------------------------------------------

  /** The first command at or after `from` that ends a session. */
  function FirstEnd(commands: seq<Command>, from: nat): (r: Option<nat>)
    requires from <= |commands|
    ensures r.None? ==> forall i :: from <= i < |commands| ==> !commands[i].EndsSession()
    ensures r.Some? ==> from <= r.value < |commands| && commands[r.value].EndsSession()
    ensures r.Some? ==> forall i :: from <= i < r.value ==> !commands[i].EndsSession()
    decreases |commands| - from
  {
    if from == |commands| then None
    else if commands[from].EndsSession() then Some(from)
    else FirstEnd(commands, from + 1)
  }

  predicate ClosesSession(e: Event) {
    e.Left? || e.Exited?
  }

  /** The number of prompts, and of lines read, before the session closes. */
  function Prompts(events: Events): nat {
    match events
    case Nil => 0
    case Cons(e, rest) => if ClosesSession(e) then 0 else (if e.Prompted? then 1 else 0) + Prompts(rest)
  }

  function Reads(events: Events): nat {
    match events
    case Nil => 0
    case Cons(e, rest) => if ClosesSession(e) then 0 else (if e.LineRead? then 1 else 0) + Reads(rest)
  }

  /** A session reads exactly the lines up to and including the first that ends it, and
      prompts once for each; if there is no such line it reads them all and its last prompt
      waits. */
  lemma {:induction false} SessionReadsToItsEnd(commands: seq<Command>, from: nat, first: bool)
    requires from <= |commands|
    ensures var events, end := Dialogue(commands, from, first), FirstEnd(commands, from);
            && Reads(events) == (if end.Some? then end.value + 1 else |commands|) - from
            && Prompts(events) == Reads(events) + (if end.Some? then 0 else 1)
    decreases |commands| - from
  {
    if from < |commands| {
      CountLine(commands[from], Logging(commands, from));
      CountAct(commands, from);
      if !commands[from].EndsSession() {
        SessionReadsToItsEnd(commands, from + 1, false);
      }
    }
  }

  lemma CountLine(c: Command, after: Events)
    ensures Reads(Noting(c, after)) == Reads(after) && Prompts(Noting(c, after)) == Prompts(after)
  {
    if c.kind.Empty? {
      var shown := Cons(EmptyShown, after);
      assert Reads(Cons(EmptyLogged, shown)) == Reads(after);
      assert Prompts(Cons(EmptyLogged, shown)) == Prompts(after);
    }
  }

  lemma CountAct(commands: seq<Command>, from: nat)
    requires from < |commands|
    ensures var act, next := Acting(commands, from), Dialogue(commands, from + 1, false);
            && Reads(act) == (if commands[from].EndsSession() then 0 else Reads(next))
            && Prompts(act) == (if commands[from].EndsSession() then 0 else Prompts(next))
  {
    if commands[from].kind.Quit? {
      assert Reads(Cons(Uninitialized, Cons(Exited, Nil))) == 0;
      assert Prompts(Cons(Uninitialized, Cons(Exited, Nil))) == 0;
    }
  }
}
