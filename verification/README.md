# QuoteX: in-place string rewriting and the console mode machine

A Dafny model of the two stateful algorithms in `src/quotex/quotex.cpp`, with proofs about
all texts, all inputs and all interleavings.

**String rewriting and the host check.** `StringReplace` edits a string while a cursor moves
through it. `Substitution.dfy` says what it is meant to compute, one character at a time
(`Rewrite`), and develops a second description of it: cutting the text at the matches of a
greedy scan (`Split`) and joining the pieces with another separator (`Join`).
`GreedyOptimality.dfy`, `RoundTrips.dfy`, `Elimination.dfy` and `Locality.dfy` prove its laws.
`TextBuffer.dfy` has the buffer, the method with its loop, and the loop as a sequence of
edits of a text and a cursor, for statements about every iteration and about termination.
`MacAddress.dfy` and `HostCheck.dfy` build the canonical address text on it, a parser that
inverts it, and the scan over the adapters; `HexText.dfy` says what the two digit tables
write.

**The console.** The main thread and the Ctrl+C handler share `g_command_model`.
`ConsoleMachine.dfy` is a transition system in which every access to a flag and every event
is one step of the main thread (`MainThread`), the handler's write of the flag (`CtrlC`) or
its log entry (`HandlerLog`); a run is an input, an arbitrary sequence of lines, together
with an arbitrary schedule of such steps. `ConsoleScript.dfy` is the specification: the
events that the commands of an input call for, session after session.
`ScriptRefinement.dfy`, `ScriptCompletion.dfy`, `SessionReads.dfy`, `PressAccounting.dfy`,
`TraceShape.dfy` and `CaseInsensitivity.dfy` hold the theorems about whole runs.
`EventOrder.dfy` describes the main thread a second time, without commands, kinds or program
points: which event may come after which, told by the texts of the events and the lines. The
two descriptions are equivalent (`EventOrder.DoneInSomeRunIff`), so that each answer, each
prompt and each fixed group of events is stated for every run.
`ConsoleSession.dfy` is the same code as it is written, with the input buffer lower-cased in
place and the command loop with its two reads, proved against the same script; there the
handler may run, or not, after every event of the main thread. The two are linked: what the
main thread has done in a console object, it has done in a run of the transition system
(`ConsoleSession.ConsoleIsARun`). The read before the command loop and the read at the end of
its body differ only in the text of the prompt and are one method with a parameter, called at
both places; in the transition system they are separate program points.

Things a reader of the source may find worth knowing:

- An empty source string makes `StringReplace` loop forever, and it is the only thing that
  does (`TextBuffer.TerminatesIff`).
- A call may leave, or newly make, occurrences of the source. It never does exactly if the
  source can neither start inside the destination nor run into it
  (`Elimination.EliminatesIff`), which holds for the one use in the program, where a space
  is replaced by a zero.
- The host address in the source has capital letters. If the formatting library writes
  hexadecimal in small letters for `x`, no host passes the check
  (`HostCheck.HostAddressNeedsCapitals`).
- `main` does not call the host check at present: the call is commented out
  (`src/quotex/quotex.cpp:364`).

Assumptions: library calls do not throw; strings are not limited in length, apart from the
input buffer; each access to a flag is atomic and sequentially consistent; the parameters of
`StringReplace` are different objects; hexadecimal formatting with width 2 pads with spaces
on the left and uses sixteen different digits, none of which is a space or a dash.

## Model

| member | source | states |
|---|---|---|
| Substitution.FirstFrom | src/quotex/quotex.cpp:129 | the result of `find`: an occurrence at or after the start with none in between, or none if there is no occurrence from there on |
| Substitution.GreedyCutIsUnique | src/quotex/quotex.cpp:129-132 | the pieces kept by the scan are the only way to cut the text at the source such that no match starts inside a piece |
| Substitution.RewriteIsSplitJoin | src/quotex/quotex.cpp:129-132 | leftmost non-overlapping substitution, defined character by character, replaces exactly the separators of that cut |
| Substitution.LengthIsConserved | src/quotex/quotex.cpp:127-131 | final length plus matches times source length is original length plus matches times destination length |
| Substitution.UnchangedIff | src/quotex/quotex.cpp:129-132 | a call changes nothing if and only if the source does not occur |
| GreedyOptimality.GreedyIsOptimal | src/quotex/quotex.cpp:129-132 | no way to cut a text at disjoint occurrences has more cuts than the loop makes substitutions |
| GreedyOptimality.GreedyIsMaximumPacking | src/quotex/quotex.cpp:129-132 | the number of substitutions is the largest size of a set of pairwise disjoint occurrences, and is attained |
| RoundTrips.RoundTripIff | src/quotex/quotex.cpp:125-133 | replacing and replacing back restores the text if and only if the destination occurs no earlier than after each kept piece, and not in the last |
| RoundTrips.RoundTrip | src/quotex/quotex.cpp:125-133 | in particular if no character of the destination occurs in the kept text, or none in the text |
| Elimination.EliminatesIff | src/quotex/quotex.cpp:125-133 | no text is left with an occurrence of the source, across seams included, if and only if the source can neither start inside the destination nor run into it from a piece that can be kept |
| Elimination.ForeignDestinationEliminates | src/quotex/quotex.cpp:125-133 | in particular for a non-empty destination with no character of the source; two concrete texts show that neither half of this can be dropped |
| Elimination.IdempotentIff | src/quotex/quotex.cpp:125-133 | a second call never changes anything if and only if the destination cannot recreate the source |
| Locality.Locality | src/quotex/quotex.cpp:129-132 | two texts are cut independently if and only if the piece across their seam is clean, and then their rewrites concatenate |
| Locality.RewritesConcatenateIff | src/quotex/quotex.cpp:129-132 | rewriting a concatenation is concatenating the rewrites, for every destination, if and only if the piece across the seam is clean |
| Locality.LocalityWithoutStraddling | src/quotex/quotex.cpp:129-132 | rewrites concatenate if no occurrence of the source lies across the seam |
| TextBuffer.LoopState | src/quotex/quotex.cpp:129-132 | after every number of iterations, the text before the cursor is the rewrite of a prefix and the rest is an untouched suffix of the original; the loop makes one iteration per match and the cursor stays within the text |
| TextBuffer.StepShortensRest | src/quotex/quotex.cpp:129-132 | an iteration shortens the text after the cursor by the gap and the source, however much the text grows |
| TextBuffer.EmptySourceNeverEnds | src/quotex/quotex.cpp:126-132 | with an empty source every number of iterations is made, and the distance from cursor to end never changes |
| TextBuffer.TerminatesIff | src/quotex/quotex.cpp:126-132 | the loop ends if and only if the source is non-empty, after exactly as many iterations as there are matches, which fit into the text, and then holds the specified text |
| TextBuffer.Text.Find | src/quotex/quotex.cpp:129 | the search of the buffer finds the first occurrence from the given position |
| TextBuffer.Text.Replace | src/quotex/quotex.cpp:130 | the part before the position and the part behind the characters replaced stay, the replacement stands between them, and at most the given number of characters goes |
| TextBuffer.StringReplace | src/quotex/quotex.cpp:125-133 | the loop over the mutable buffer ends with the specified text, for every text, destination and non-empty source |
| MacAddress.CanonicalByFields | src/quotex/quotex.cpp:165-172 | replacing the padding in the whole formatted address does the same as replacing it in each of the six fields and joining them with the dashes |
| MacAddress.CanonicalShape | src/quotex/quotex.cpp:164-172 | formatting followed by the replacement gives 17 characters, dashes in the five fixed places, two digits per byte and no space |
| MacAddress.CanonicalIsUnique | src/quotex/quotex.cpp:164-175 | the canonical text is the only one of that shape |
| MacAddress.ParseInvertsCanonical | src/quotex/quotex.cpp:164-175 | a parser accepts exactly the canonical texts and returns their addresses |
| MacAddress.InjectiveIff | src/quotex/quotex.cpp:164-177 | equal texts mean equal addresses if and only if '0' is not the digit of a positive value |
| HexText.CanonicalTellsBytes | src/quotex/quotex.cpp:165-172 | with either digit table, the two characters in each of the six places have the byte as their hexadecimal value, by their character codes |
| HexText.CanonicalCase | src/quotex/quotex.cpp:165-172 | the two tables write the same text up to ASCII letter case, one without small letters and the other without capitals |
| HostCheck.IsMacAddrMatch | src/quotex/quotex.cpp:163-180 | a match means a successful status query and the canonical text of its six bytes |
| HostCheck.CheckHostMacAddr | src/quotex/quotex.cpp:201-216 | the program goes on if and only if the enumeration succeeded and some adapter listed matches |
| HostCheck.AcceptedForItsBytes | src/quotex/quotex.cpp:163-211 | an adapter matches exactly if the text wanted encodes an address and the adapter's six bytes are that address |
| HostCheck.HostAddressNeedsCapitals | src/quotex/quotex.cpp:189 | with capital digits the literal stands for one address; with small ones no adapter list is accepted |
| ConsoleScript.LowerEqualIff | src/quotex/quotex.cpp:396-400 | lower-casing changes only the case of letters, leaves no capital and identifies exactly the strings that agree up to ASCII letter case |
| ConsoleScript.CStringEndsAtNul | src/quotex/quotex.cpp:395-401 | the C string in a buffer is what stands before its first NUL |
| ConsoleScript.FirstEnd | src/quotex/quotex.cpp:405-415 | the first command from a position on that leaves the session or exits |
| ConsoleScript.SessionReadsToItsEnd | src/quotex/quotex.cpp:387-449 | from a prompt of the script to the end of its session there are exactly the reads up to that command and one prompt for each, or all lines and one prompt that waits |
| SessionReads.RunsReadToTheEnd | src/quotex/quotex.cpp:387-449 | in every run, each session that ends has read exactly the lines from its entry up to the first that ends a session, prompted once for each, and ended the process exactly if that line is an exit command |
| ConsoleMachine.FlagInvariant | src/quotex/quotex.cpp:373-465 | in every reachable state the flags fit the program point, and the tests of `g_block_auto_info` succeed whenever reached |
| ScriptRefinement.RunsFollowTheScript | src/quotex/quotex.cpp:370-470 | in every run what the main thread has done, followed by what its state calls for, is the script of the input |
| ScriptRefinement.SchedulesOnlyDelay | src/quotex/quotex.cpp:370-470 | of the main thread's events in two runs on one input, under any schedules, one sequence is a prefix of the other |
| ScriptRefinement.RemainderTellsPast | src/quotex/quotex.cpp:370-470 | two runs on one input have the same events of the main thread if and only if their states call for the same remainder |
| ScriptCompletion.PressesCompleteScript | src/quotex/quotex.cpp:370-470 | every schedule in which the main thread often enough makes a step after a press completes the script |
| ScriptCompletion.BlocksCompleteScript | src/quotex/quotex.cpp:370-470 | the same for a schedule given as blocks that each hold a press and after it a step of the main thread |
| ScriptCompletion.ScriptIsCompleted | src/quotex/quotex.cpp:370-470 | for every input some schedule makes a run complete the script |
| ScriptCompletion.ReachedIff | src/quotex/quotex.cpp:370-470 | a split of events into done and still to do is reached by the main thread in some run if and only if the two together are the script of the input |
| EventOrder.DoneInSomeRunIff | src/quotex/quotex.cpp:370-470 | a sequence of events is what the main thread does in some run on an input if and only if each event may come after the one before it, given the lines read so far |
| EventOrder.CommandsAreAnswered | src/quotex/quotex.cpp:405-432 | in every run each logged command is answered as its text asks for and in no other way: "work;" or "01" by leaving, "info;" or "02" by the information, "help;" or "03" by the help, "exit;" or "04" by the exit, an empty one by the next prompt, any other as unknown |
| EventOrder.PromptsAndReads | src/quotex/quotex.cpp:388-448 | in every run the prompt after a session's entry is "CMD>: " and all others are "\nCMD>: "; answers are followed by a prompt, and lines are read exactly after prompts |
| EventOrder.ExitIsPrepared | src/quotex/quotex.cpp:413-422 | in every run the exit comes directly after the tray icon's removal and the system's end, and they after "exit;" or "04" |
| EventOrder.CommandsAreLines | src/quotex/quotex.cpp:389-403 | in every run a logged command is the lower-cased C string of the line read last, and comes directly after the read, or, exactly if it is empty, after the beep, the log entry and the message |
| EventOrder.LeavingIsWhole | src/quotex/quotex.cpp:452-467 | in every run a session's end is followed by the change of the tray icon, the clear of the flag, the clear of the screen and the next entry with its change of the tray icon, as far as the run goes |
| EventOrder.FirstEntry | src/quotex/quotex.cpp:373-385 | every run begins with the entry and its change of the tray icon, as far as it goes |
| EventOrder.StopsOnlyAtTheEnd | src/quotex/quotex.cpp:370-470 | with steps enough after presses, the main thread has come to the exit, or to a prompt with every line read |
| EventOrder.TraceTellsBlock | src/quotex/quotex.cpp:374-455 | in every run `g_block_auto_info` is set before the entry is logged, and is cleared after the command that leaves and before the end is logged |
| PressAccounting.PressesAreLogged | src/quotex/quotex.cpp:94-97 | until the exit the trace has a press for every Ctrl+C, and a log entry for every press whose handler has had a turn since; the exit only stops the counting |
| PressAccounting.PressAccounts | src/quotex/quotex.cpp:95-465 | the flag is set exactly if a press came after the last clear; sessions entered plus the pending press are the fresh presses, so entries never exceed presses |
| PressAccounting.EveryEntryHasItsPress | src/quotex/quotex.cpp:95-376 | each entry has a press before it with neither a clear nor another entry in between |
| PressAccounting.PendingPressIsServed | src/quotex/quotex.cpp:371-376 | a pending press leads to an entry within six steps of the main thread, whatever the handler does |
| PressAccounting.PressInSessionIsMerged | src/quotex/quotex.cpp:376-465 | a press between a session's entry and its clear of the flag, even one after the session's end has been logged, brings about no further session by itself |
| TraceShape.RunsAreWellShaped | src/quotex/quotex.cpp:370-470 | enter, leave and exit events form a prefix of (enter leave)* or end with enter exit, lines are read only inside a session, and nothing follows the exit |
| CaseInsensitivity.RunsIgnoreCase | src/quotex/quotex.cpp:396-446 | runs under one schedule on inputs whose lines are the same once normalised have the same trace, flags and program point |
| CaseInsensitivity.SameUpToCaseIsSimilar | src/quotex/quotex.cpp:396-446 | lines that agree up to ASCII letter case are the same once normalised |
| CaseInsensitivity.IndistinguishableIff | src/quotex/quotex.cpp:370-470 | two inputs give the same trace under every schedule if and only if their scripts are the same |
| ConsoleSession.StrLen | src/quotex/quotex.cpp:395 | the length of the C string in the buffer, whatever stands behind its NUL |
| ConsoleSession.LowerInPlace | src/quotex/quotex.cpp:396-400 | the loop lower-cases that many characters and leaves the rest |
| ConsoleSession.LowerCommand | src/quotex/quotex.cpp:395-401 | the buffer then holds, and the command is, the lower-cased C string |
| ConsoleSession.Console.ConsoleHandler | src/quotex/quotex.cpp:94-97 | sets the flag, appends the press and its log entry to the trace and leaves the script alone |
| ConsoleSession.Console.ReadCommand | src/quotex/quotex.cpp:389-403 | reads one line, performs the events for it and returns it normalised |
| ConsoleSession.Console.NextCommand | src/quotex/quotex.cpp:430-448 | prompts and reads, or prompts and waits exactly if no line is left |
| ConsoleSession.Console.Dispatch | src/quotex/quotex.cpp:406-428 | performs the response to a command and ends the process exactly for an exit command |
| ConsoleSession.Console.LoopBody | src/quotex/quotex.cpp:406-448 | responds to the command, then reads the next unless the process has ended or no line is left; only then it goes on, one line further and with the same end of the session ahead |
| ConsoleSession.Console.CommandLoop | src/quotex/quotex.cpp:405-449 | the rotated loop performs the script up to the first command that ends the session and reads no further |
| ConsoleSession.Console.CommandSession | src/quotex/quotex.cpp:387-449 | a whole session performs the script of its lines |
| ConsoleSession.Console.ClearModel | src/quotex/quotex.cpp:465 | appends the clear to the trace; the flag is set afterwards exactly if the trace has a press after its last clear |
| ConsoleSession.Console.LeaveSession | src/quotex/quotex.cpp:452-467 | extends the trace by the events of leaving, the clear among them, and clears both flags; `g_command_model` is set afterwards exactly if the trace has a press after its last clear |
| ConsoleSession.Console.Pass | src/quotex/quotex.cpp:373-469 | a pass does nothing without a press; otherwise, with presses at any time, it extends the trace by one session, and if that is left it has cleared the flag in this pass, which is set exactly if the trace has a press after its last clear |
| ConsoleSession.ConsoleIsARun | src/quotex/quotex.cpp:370-470 | what the main thread has done and has still to do in a console object are those of some run of the transition system on the same input |

## Left out

- Windows calls: the tray icon, the console window, the mutex, the beep and NetBIOS are trace events or parameters.
- Start-up and shut-down of the platform and the plugins: calls into libraries that are not part of this model.
- The quoter plugins: not part of this model.
- Console events other than Ctrl+C: they do not touch the flags.
- Weak memory: the flags are plain `bool`s in the source; a step of the model reads or writes one at a time.
- Lines of 256 characters or more: `gets_s` hands them to the runtime's constraint handler, which ends the process by default.
- End of input: a read with no line left waits; the real `gets_s` would return an empty line again and again, which the model has as an input that goes on with empty lines.
- Aliased arguments of `StringReplace`: the source's and the destination's length are read once, so a buffer that is its own source or destination is excluded.
