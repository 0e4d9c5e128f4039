# Verified models of Orca's algorithmic cores

Orca is a desktop application with a command-line front end, a Linux computer-use bridge and a Windows
launcher. This project models the parts of it that are algorithms in their own right and proves what they are
for. `dafny verify dfyconfig.toml` checks everything; each module follows one source file or one concern of it.

| module | models |
|---|---|
| `WindowsCommandLine` | the launcher's one-pass argument quoter, against the `CommandLineToArgvW` / C runtime splitter |
| `EditDistance`, `CliSuggestions` | the two-row Levenshtein table, and the typo suggestions ranked by it |
| `CliArgs`, `CliLookahead`, `CliFlags` | the argv parser, its separate lookahead scanner, and reading flags back |
| `PosixShell`, `ComputerFollowUp` | shell quoting and the follow-up command, read back by a shell and by the parser |
| `CliRegistry` | canonical command paths, validation, the handler table, registry parity |
| `DueDate` | the calendar check by roll-over through `Date.UTC` |
| `AccessibilityTree`, `AccessibilityRecords`, `AccessibilityNumbers`, `DescendantSearch` | the capped tree walk, tab compaction, finding nodes again, record numbers, the bounded search |
| `AgentAwake` | the keep-awake service with its blocker and stale timer |
| `HookScripts`, `HookRunners` | line splitting, CR LF normalisation, and the Windows and POSIX hook runners |
| `DockIconCommand`, `DockIconQueue` | the bounded Dock-icon command and the last-request-wins queue |
| `PlainNodeEntryGuard` | the build guard's graph search and its electron test |

Code that changes variables step by step is a method or a class here, proved against a specification function;
the laws are lemmas about that function.

## Where the code does less than its comments say

Each of these is proved as a condition that holds if and only if the code does what is meant, and where it helps
with a concrete input.

- The lookahead and the parser skip flags by different rules. They read the same words exactly when the scanner
  never stands on two value flags followed by a word (`CliLookahead.LookaheadAgrees`, `LookaheadCanMislead`).
- The follow-up command carries its flags exactly when no app, session or worktree value starts with `--`
  (`ComputerFollowUp.FollowUpRoundTrip`).
- Repeated `--label` values come back whole exactly when none contains the NUL separator
  (`CliFlags.RepeatedLabels`), and a `--label` without a value drops those before it (`LabelFlag`).
- The due-date check refuses every year 0 to 99, real dates included, because `Date.UTC` reads them as 1900 to
  1999 (`DueDate.RolloverCheckIsExact`).
- Agent discovery lists no flags for a passthrough command, and validation still accepts the global ones
  (`CliRegistry.DiscoveryMatchesValidation`).
- A command line is validated against one command and dispatched as another exactly when it is canonicalised to a
  command whose own path is an alias of an earlier one (`CliRegistry.ValidatedAgainstOther`, `AliasCanShadow`).
- A refresh on the very millisecond in which a status expires sees it as eligible but arms no timer for it. The
  blocker is wrong from then on exactly when the service is enabled, no timer is armed, and a status expires at
  that instant, or between the two clock readings if the clock was set back (`AgentAwake.RightExactly`,
  `AgentAwakeService.Refresh`, `ExactExpiryIsMissed`).
- A search off trees can leave out nodes within its depth, since a node first met at the limit is not expanded
  again. It asks about all of them exactly when no child of such a node is missed
  (`DescendantSearch.FirstDescendant`).
- The two hook runners do the same exactly when two things hold. No command before the last exits with a negative
  code, which `if errorlevel 1` does not see. And no line is reached that the two take differently: one from which
  the Windows runner trims more than blanks (a shell takes a lone CR at a line's end as part of the command), a
  comment, which the Windows runner calls, or `set -e` (`HookRunners.RunnersAgree`, `LoneReturnsDiverge`).
- A Dock-icon command's promise settles with its process still alive exactly when the timers run out on it
  (`DockIconCommand.OutlivedExactly`). Such a process may apply an older icon last: from any state that can be
  reached, and while no further command is given up, the order of icons is sure exactly when it has been kept so
  far and no such process is left (`DockIconQueue.OrderHoldsExactly`, `LateExactly`, `LateProcessCanWin`).
- After tab compaction the next record number counts the records left. Two records come to share a number exactly
  when some number is given out while in use and is not omitted later
  (`AccessibilityNumbers.WholeWalkClashesExactly`, `SegmentClashExactly`, `NumbersClashExactly`, and a window in
  `NumbersCanClash`).

## Model

| member | source | states |
|---|---|---|
| `WindowsCommandLine.BuildArguments` | native/windows-cli-launcher/OrcaCliLauncher.cs:82-91 | every reader of the command line, in any of the three dialects of a doubled quote, recovers exactly the CLI path followed by the arguments |
| `WindowsCommandLine.QuoteArgument` | native/windows-cli-launcher/OrcaCliLauncher.cs:93-103 | one printed argument, bare or quoted, is read as that one argument |
| `WindowsCommandLine.BareExactly` | native/windows-cli-launcher/OrcaCliLauncher.cs:93-103 | an argument is printed bare exactly when it is not empty and has no quote and no white space |
| `WindowsCommandLine.QuoteWithBackslashes` | native/windows-cli-launcher/OrcaCliLauncher.cs:105-130 | the single pass with its pending backslash count prints the quoted form that the splitter undoes |
| `WindowsCommandLine.ScanQuotedBody` | native/windows-cli-launcher/OrcaCliLauncher.cs:105-130 | inside quotes, backslashes and quotes of any value are read back unchanged and the closing quote is the value's end |
| `WindowsCommandLine.RoundTrip` | native/windows-cli-launcher/OrcaCliLauncher.cs:82-131 | splitting is a left inverse of printing on every argument list |
| `WindowsCommandLine.Unambiguous` | native/windows-cli-launcher/OrcaCliLauncher.cs:82-131 | different argument lists never give the same command line |
| `EditDistance.Levenshtein` | src/cli/command-suggestion.ts:50-72 | the two swapped rows, stale cells included, compute the edit distance |
| `EditDistance.DistanceIsLeast` | src/cli/command-suggestion.ts:50-72 | the distance is the least number of single-character inserts, deletes and substitutions that turn one string into the other, and some script attains it |
| `EditDistance.NoShorterScript` | src/cli/command-suggestion.ts:50-72 | no edit script is shorter than the distance |
| `EditDistance.ShortScript` | src/cli/command-suggestion.ts:50-72 | an edit script as short as the distance exists for every pair of strings |
| `EditDistance.ZeroOnlyOnEqual` | src/cli/command-suggestion.ts:50-72 | the distance is zero exactly on equal strings |
| `EditDistance.Symmetric` | src/cli/command-suggestion.ts:50-72 | the distance is symmetric |
| `EditDistance.TriangleInequality` | src/cli/command-suggestion.ts:50-72 | the distance obeys the triangle inequality |
| `CliSuggestions.SuggestCommands` | src/cli/command-suggestion.ts:84-111 | at most three different labels of the input's word count, all at distance 1 to 3, ordered by distance and then collation, and no eligible label left out beats one kept |
| `CliSuggestions.SuggestionsAre` | src/cli/command-suggestion.ts:33-111 | in numbers: at most three different labels on offer, 1 to 3 edits from the input, ordered by distance and then collation, a near one left out only behind three others; a label is on offer when a path or alias has it, of a destructive command only if the last word typed is at most one edit from the last word of some destructive path |
| `CliSuggestions.BenignTypoStaysBenign` | src/cli/command-suggestion.ts:33-43 | if the last word is more than one edit from every destructive verb, each suggestion comes from a non-destructive spec |
| `CliSuggestions.DestructiveVerbs` | src/cli/command-suggestion.ts:21-31 | the verbs are the last words of every path and alias of every destructive spec, and nothing else |
| `CliSuggestions.IntendsDestruction` | src/cli/command-suggestion.ts:36-43 | true exactly when some destructive verb is within one edit |
| `CliSuggestions.CollectCandidates` | src/cli/command-suggestion.ts:95-108 | one spec adds exactly the labels it offers to an input of that many words, each once and with its distance |
| `CliSuggestions.OfferedLabels` | src/cli/command-suggestion.ts:95-101 | one typed word is matched with the first word of every path, groups included, and several words only with paths of as many words |
| `CliSuggestions.RankingIsShortlist` | src/cli/command-suggestion.ts:75-81 | filtering, sorting and cutting the scored labels keeps at most three, distinct, near and in order |
| `CliSuggestions.RankingHasNoneBetter` | src/cli/command-suggestion.ts:75-81 | a near label is dropped only when three others come before it |
| `CliArgs.ParseArgs` | src/cli/args.ts:97-141 | the loop over argv computes the parse on which the laws below are proved |
| `CliArgs.CommandPathStartsAt` | src/cli/args.ts:81-95 | the cursor scan decides whether a path starts at a token, flags skipped |
| `CliArgs.StartsCommandAt` | src/cli/args.ts:124-125 | true exactly when some registered path starts at the token |
| `CliLookahead.StartsAtIsPrefix` | src/cli/args.ts:81-95 | a path starts at a token exactly when it is a prefix of the words the scanner sees from there |
| `CliLookahead.LookaheadAgrees` | src/cli/args.ts:81-138 | where a registered path starts and no word has been read, the parser goes on to read exactly the scanner's words if and only if the scanner never stands on two value flags before a word that would be lost; a path found is a prefix of the result as soon as that holds up to the path's last word |
| `CliLookahead.WordsAfterFirst` | src/cli/args.ts:81-138 | after the first command word the parser reads the scanner's words on aligned input and strictly fewer otherwise |
| `CliLookahead.SeparatedIsAligned` | src/cli/args.ts:108-137 | no value flag directly followed by another flag is enough for the agreement |
| `CliLookahead.CommandSurvivesFlag` | src/cli/args.ts:123-129 | a value flag before the command is kept bare when a command starts right after it and none one token later; that command is then a prefix of what the parser returns, if the tokens up to its last word are aligned |
| `CliLookahead.LookaheadCanMislead` | src/cli/args.ts:81-137 | a concrete command line on which the lookahead sees a command whose second word the parser gives to a flag |
| `CliFlags.InterleavedParse` | src/cli/args.ts:97-141 | for any mix of words, `--name=value` tokens, spaced `--name value` pairs and flags without a value that can be read so, the words come back in order and each flag but `label` has the last value given |
| `CliFlags.ParseReadsItems` | src/cli/args.ts:97-141 | every argv is such a mix, as the parser takes it; the words come back in order and each flag but `label` has the last thing said about it, present exactly when given |
| `CliFlags.LabelFlag` | src/cli/args.ts:69-79 | the repeatable flag keeps all its values, of both forms and in order, joined by the separator, since it was last given without a value |
| `CliFlags.RepeatedLabels` | src/cli/flags.ts:31-39 | for every argv, reading `label` back gives the nonempty pieces of every value in order, since the last `--label` without a value; these are exactly the nonempty values if and only if none contains the separator |
| `CliFlags.SpacedLabels` | src/cli/args.ts:69-137 | the documented form: after a command, any number of spaced `--label name` pairs are read back as exactly those names in order, whatever paths are registered, if the names are not empty, do not start with `--` and hold no separator |
| `PosixShell.LexArgument` | src/cli/shell-command-quote.ts:1-9 | a POSIX shell reads the quoted form of any value as that one word |
| `PosixShell.BareExactly` | src/cli/shell-command-quote.ts:1-4 | a value stays bare exactly when it is not empty and has only letters, digits and `. _ : / @ -` |
| `ComputerFollowUp.FormatFollowUpCommand` | src/cli/computer-format.ts:219-255 | the shell splits the printed line into exactly the intended words, with nothing expanded |
| `ComputerFollowUp.FollowUpRoundTrip` | src/cli/computer-format.ts:219-255 | parsed again after the program name, the command is always `computer get-app-state`, and it carries exactly the intended flags if and only if no value passed on starts with `--` |
| `ComputerFollowUp.IntendedIsExact` | src/cli/computer-format.ts:219-255 | which flags the command carries, in the fields of the result and the target: bundle id before name, a nonempty session before a nonempty worktree, the target's window unless the action changed windows, an id before an index |
| `ComputerFollowUp.WindowIsChosen` | src/cli/computer-format.ts:235-250 | once the action changed windows the target's window has no say; otherwise a window the target names decides alone; an id goes before an index |
| `ComputerFollowUp.OptionsAreKnown` | src/cli/computer-format.ts:223-253 | at most one scope and one window option are ever printed, no name twice, and each is a flag the parser gives a value or a switch |
| `CliRegistry.NormalizeCommandPositionals` | src/cli/args.ts:250-284 | the nested loops pick the first spec and base that capture the command line, and its canonical form |
| `CliRegistry.NormalizeIsExact` | src/cli/args.ts:250-284 | the first command with a path that takes the words, and its first such path, binds them: each name that neither a flag nor an earlier word has gets its word, each that a flag has is a conflict, nothing else changes; without such a command nothing changes at all |
| `CliRegistry.NothingIsLost` | src/cli/args.ts:268-280 | without conflicts, every word after the base becomes the value of its positional flag and all other flags keep what they were |
| `CliRegistry.NormalizedIsCanonical` | src/cli/args.ts:250-291 | after canonicalisation, a path that some spec answers to, by alias or not, is some spec's own path |
| `CliRegistry.ValidatedIsDispatched` | src/cli/dispatch.ts:39-91 | with the table of any groups without duplicate keys, and every command registered: any argv that passes validation runs exactly the one handler that some group lists under the own path of a command; where no alias shadows a later command, that is the very command the flags were validated against |
| `CliRegistry.DispatchIsRegistered` | src/cli/dispatch.ts:85-91 | a handler runs if and only if some group lists it under the joined words of the path, and none runs if and only if no group lists that key |
| `CliRegistry.RunLine` | src/cli/index.ts:42-115 | one invocation from argv to the handler: a shim, help (with its topic), a refusal, no handler, or the handler, each exactly when it should be; the handler that runs is the only one listed under the canonical words, and if every command is registered no accepted line is without one |
| `CliRegistry.ParityIsExact` | src/cli/registry-parity.ts:10-23 | the parity check finds no gap exactly when every command is registered by some group and every registered key is the own path of a command |
| `CliRegistry.ValidatedAgainstOther` | src/cli/args.ts:250-291 | the command found for validation differs from the canonical path exactly when the spec that captured the command line has a path that an earlier spec answers to as an alias |
| `CliRegistry.AliasCanShadow` | src/cli/args.ts:250-291 | two specs and a command line that is dispatched as the second while its flag was accepted by the first |
| `CliRegistry.AcceptedIsExact` | src/cli/args.ts:250-326 | for every registry and parsed line, canonicalisation and validation accept exactly when a command answers, no value is given both positionally and as a flag, and flags and positional values alike are allowed for the command found, with a value where a global flag needs one |
| `CliRegistry.FoundIsFirst` | src/cli/args.ts:286-291 | the command found is the first one listed whose own path or alias is the path, and none is found exactly when there is no such command |
| `CliRegistry.VerdictIsExact` | src/cli/args.ts:293-326 | which of the four verdicts is given, in terms of the command found, the conflicts, and each flag being global, the command's own or a supported `page`, with a nonempty value where a global flag needs one |
| `CliRegistry.DiscoveryMatchesValidation` | src/cli/args.ts:200-212 | the flags listed for discovery are those validation accepts, exactly for commands that are not passthrough |
| `CliRegistry.BuildHandlers` | src/cli/dispatch.ts:39-77 | the table is built exactly when no key is registered twice, and then holds exactly the registered handlers |
| `DueDate.RolloverCheckIsExact` | src/cli/linear-request-builders.ts:92-98 | for all integers, roll-over and comparison accept exactly the real proleptic Gregorian dates outside years 0 to 99 that a `Date` can hold |
| `DueDate.DueDateIsExact` | src/cli/linear-request-builders.ts:87-102 | a well-formed flag is accepted exactly when it is a real date of year 100 or later |
| `DueDate.DueDateFlagExactly` | src/cli/linear-request-builders.ts:80-102 | for all flags and names: missing exactly when absent, bare or empty; wrong format exactly when not ten characters of digits with dashes at 4 and 7; accepted, as given, exactly when those digits, summed by place, are a real date of year 100 or later |
| `DueDate.RealDateMeans` | src/cli/linear-request-builders.ts:92-98 | a real date in numbers: month 1 to 12, and a day up to the length of the month, February by the Gregorian leap rule |
| `DueDate.FieldsOfRealDate` | src/cli/linear-request-builders.ts:93-97 | reading the day number of a real date back gives that date |
| `DueDate.FieldsAreReal` | src/cli/linear-request-builders.ts:93-97 | reading any day number back gives a real date with that day number |
| `DueDate.NextYear` | src/cli/linear-request-builders.ts:93 | the closed formula for the first day of a year counts leap years by the Gregorian rule |
| `DueDate.MakeDayIsFound` | src/cli/linear-request-builders.ts:93 | a month outside the year carries into the year, from the day that the standard asks to find |
| `AccessibilityTree.TreeRenderer.Walk` | native/computer-use-linux/runtime.py:402-438 | one walk changes the shared records, lines and truncation flags as the specification says, compaction included |
| `AccessibilityTree.TreeRenderer.CompactRenderedBrowserTabs` | native/computer-use-linux/runtime.py:444-475 | deleting inactive tabs backwards in place equals filtering them out behind one marker that counts them, and dropping their records |
| `AccessibilityTree.CompactionIsExact` | native/computer-use-linux/runtime.py:444-475 | compaction changes the lines exactly when a strip has ten tabs or more, one open and one closed; then one marker that counts the closed ones stands at the first tab, followed by all other lines in order |
| `AccessibilityTree.CompactedRecords` | native/computer-use-linux/runtime.py:474 | compaction removes exactly the records that have the number of a closed tab of the strip |
| `AccessibilityTree.SweepsTo` | native/computer-use-linux/runtime.py:464-471 | at every point of the backward deletion, the lines behind the cursor are the filtered ones and the counts match what was dropped |
| `AccessibilityRecords.RenderingIsPrefix` | native/computer-use-linux/runtime.py:402-441 | without compaction the output is the first 1200 shown nodes in preorder, numbered from 0, one line each, none deeper than 64; it is marked truncated exactly when something was cut, and the depth flag is set exactly when a node shown at depth 64 has children that its line does not stand for |
| `AccessibilityRecords.NothingElseOmitted` | native/computer-use-linux/runtime.py:402-441 | every node of an untruncated tree has a record, is elided, or lies below a node that hides its children |
| `AccessibilityRecords.ListedExactly` | native/computer-use-linux/runtime.py:271-285 | in an untruncated rendering without compaction a node has a record if and only if it is not an empty wrapper and no node above it stands for its children, both in terms of roles, texts and actions; the record copies the node's role, name, id and actions |
| `AccessibilityRecords.IndentCountsShown` | native/computer-use-linux/runtime.py:402-436 | a line's indentation is the number of shown nodes above it, elided ones not counted |
| `AccessibilityRecords.RecordsAreDistinct` | native/computer-use-linux/runtime.py:402-441 | without compaction no two records share a number or a path |
| `AccessibilityRecords.RecordsFindTheirNodes` | native/computer-use-linux/runtime.py:750-767 | `find_element` returns, for every record of a rendering, the very node it was made from, elided ancestors and compaction included |
| `AccessibilityRecords.FindElementExactly` | native/computer-use-linux/runtime.py:750-767 | for any tree and any saved record, a node is found exactly when it stands at the record's path and has its role, name, automation id and actions |
| `AccessibilityRecords.StaleRecordIsRefused` | native/computer-use-linux/runtime.py:750-767 | a record of an earlier rendering, looked up in another tree, finds nothing exactly when no node is at its path or the one there differs in role, name, automation id or actions |
| `AccessibilityRecords.FindByPath` | native/computer-use-linux/runtime.py:727-733 | the loop follows child indexes to the node at the path, or to none |
| `AccessibilityNumbers.WholeWalkClashesExactly` | native/computer-use-linux/runtime.py:402-475 | two records of a whole rendering, compacted any number of times, share a number exactly when some number is given out while it is in use and no compaction omits it after that |
| `AccessibilityNumbers.WithoutClashExactly` | native/computer-use-linux/runtime.py:474 | compaction leaves two records with one number exactly when there were two with that number and it is not omitted |
| `AccessibilityNumbers.SegmentClashExactly` | native/computer-use-linux/runtime.py:402-438 | from any state, after any compactions, while the walk compacts nothing more: two records share a number exactly when two did before or one of the numbers given out, as many as listed nodes there is room for, is still in use |
| `AccessibilityNumbers.NumbersClashExactly` | native/computer-use-linux/runtime.py:402-475 | after the first compaction, the records that follow clash exactly when some number from the count of records left onwards was in use and not omitted |
| `AccessibilityNumbers.SiblingTakesActiveNumber` | native/computer-use-linux/runtime.py:402-475 | in any window whose first child holds ten to a thousand leaf tabs, of which only the second is open (by the mark on its line, its state or its value), the walk gives the leaf after the tabs number 3, which that tab already has |
| `AccessibilityNumbers.NumbersCanClash` | native/computer-use-linux/runtime.py:402-475 | a concrete window with a strip of ten page tabs, the second one selected, and a frame after it, whose rendering has two records with one number |
| `DescendantSearch.FirstDescendant` | native/computer-use-linux/runtime.py:586-606 | on a tree, the first accepted node among the first `max_nodes` of the recursive preorder to `max_depth`; on any graph, at most `max_nodes` predicate calls, never two on one node; a node returned is accepted and within the depth, and without one no node asked about is accepted; below the cap the root and all children of nodes met above the limit were asked about, and everything within the depth exactly when no child of a node first met at the limit was missed; if some closed set around the root has at most `max_depth` and fewer than `max_nodes` members, `None` is returned exactly when nothing reachable is accepted |
| `DescendantSearch.PushReversed` | native/computer-use-linux/runtime.py:603-605 | pushing children in reverse puts their preorder listings in front, in child order |
| `AgentAwake.AgentAwakeService.Refresh` | src/main/agent-awake-service.ts:105-162 | whatever throws, the service still knows the only blocker that can be live; if nothing fails, one is held exactly when enabled and some status was seen working in this runtime with a finite arrival no more than 7200000 ms ago; the timer is the least future expiry of such statuses; and whatever the two clock readings are this stays right until the timer armed now if and only if the service is disabled, the timer is armed, or no status expires from the count to the time the timer was set at |
| `AgentAwake.AgentAwakeService.Run` | src/main/agent-awake-service.ts:84-162 | in every run, with calls throwing and blockers dropped anywhere, there are never two live blockers and none is forgotten, and the settings, the timer and the last refresh are those the events plan, which is no earlier than any status change, or resume that the service listens for, unless it was disposed of since; without faults, or with none since some event that starts or stops the blocker afresh, the blocker is held as planned: at the last refresh, exactly when enabled and some observed, working status was no more than 7200000 ms old |
| `AgentAwake.EligibleMeans` | src/main/agent-awake-service.ts:120-132 | some status is eligible exactly when one is observed in this runtime, working, and arrived at a finite time no more than 7200000 ms ago |
| `AgentAwake.DeadlineMeans` | src/main/agent-awake-service.ts:134-154 | the deadline is one such status's expiry, after now, and no later than any other |
| `AgentAwake.IgnoredStatus` | src/main/agent-awake-service.ts:120-154 | statuses that are not of this runtime, not working or without a finite time can be put in or left out anywhere without changing either answer |
| `AgentAwake.PlanIsRightExactly` | src/main/agent-awake-service.ts:84-162 | in the plan of every run, from its last refresh until the timer is due, a blocker is held exactly when it should be if and only if the service is disabled, the timer is armed, or no status expires from that refresh's count to the time its timer was set at |
| `AgentAwake.AgentAwakeService.StartBlocker` | src/main/agent-awake-service.ts:172-190 | starts only when none is live, so that without faults exactly one is held |
| `AgentAwake.AgentAwakeService.StopBlocker` | src/main/agent-awake-service.ts:240-257 | forgets a blocker only once it is known to be gone, and without faults none is held |
| `AgentAwake.AgentAwakeService.ReconcileBlocker` | src/main/agent-awake-service.ts:259-278 | keeps the id whenever it answers that the blocker runs, as it does when the answer is missing, and forgets it only when the blocker is not live |
| `AgentAwake.AgentAwakeService.ScheduleStaleTimer` | src/main/agent-awake-service.ts:134-162 | the armed deadline is the least `receivedAt + 7200000` after now over the observed, working statuses with a finite time, and none is armed without one |
| `AgentAwake.AgentAwakeService.DisposeService` | src/main/agent-awake-service.ts:97-103 | no timer is left, and without faults no blocker |
| `AgentAwake.RightExactly` | src/main/agent-awake-service.ts:120-162 | for any two clock readings, in either order, a blocker that is right when the statuses are counted stays right until the deadline exactly when disabled, armed, or no status expires between the two readings |
| `AgentAwake.TimerCoversEligibility` | src/main/agent-awake-service.ts:120-162 | up to the armed deadline, or for ever without one, every status keeps its eligibility if and only if none expires at the refresh instant, and whether any is eligible stays the same if and only if none expires then or a deadline is armed |
| `AgentAwake.ExactExpiryIsMissed` | src/main/agent-awake-service.ts:125-150 | a timer that fires exactly at the expiry finds the status eligible, arms nothing, and one millisecond later nothing is eligible |
| `HookScripts.IterateLfScriptLines` | src/main/hooks.ts:425-440 | the lines are those of splitting at an optional CR followed by LF, lone CRs and CR CR LF included |
| `HookScripts.NormalizeCrlfScriptLineEndings` | src/main/hooks.ts:471-490 | the chunked loop replaces every CR LF by LF and changes nothing else |
| `HookScripts.LinesAndNormalForm` | src/main/hooks.ts:425-490 | joining the lines with LF gives the normalised script, and splitting that at LF gives the lines |
| `HookRunners.BuildWindowsRunnerScript` | src/main/hooks.ts:404-423 | the text splits at CR LF into the header and, for each source line, nothing or its call and check |
| `HookRunners.BuildPosixRunnerScript` | src/main/hooks.ts:467-469 | the text splits at LF into the two header lines and exactly the script's lines |
| `HookRunners.WindowsRunnerLines` | src/main/hooks.ts:404-423 | splitting the Windows runner at CR LF recovers its header and its body lines, whatever CRs the script holds |
| `HookRunners.BodyCallsCommands` | src/main/hooks.ts:407-420 | the body calls each nonblank trimmed source line once and in order, and nothing else |
| `HookRunners.TrimIsExact` | src/main/hooks.ts:408 | trimming takes white space off both ends and all of it |
| `HookRunners.PosixRunnerLines` | src/main/hooks.ts:467-490 | splitting the POSIX runner at LF gives its header and exactly the script's lines |
| `HookRunners.RunnersAgree` | src/main/hooks.ts:404-469 | run from their texts by a batch and a shell interpreter, the two runners execute the same commands and return the same status if and only if, before anything fails, there is no line that is trimmed of more than blanks, is a comment or is `set -e`, and no command before the last exits with a negative code |
| `HookRunners.LoneReturnsDiverge` | src/main/hooks.ts:404-469 | a last line that ends in a lone CR, or is one, runs differently in the two runners on every machine |
| `HookRunners.NonnegativeCodesAgree` | src/main/hooks.ts:404-469 | with nonnegative exit codes a script with no such line runs the same from both texts, and where every command succeeds only such a script does |
| `DockIconCommand.SettlesOnce` | src/main/app-icon.ts:136-208 | in every order of callback, timers and process end, the promise is resolved once at most, nothing stays armed afterwards, and the timers alone always settle it |
| `DockIconCommand.OutlivedExactly` | src/main/app-icon.ts:164-207 | the promise settles with the process still alive exactly when, before anything is heard of it, both timers fire, or the first one where no child was handed out |
| `DockIconCommand.SettlesByVerdict` | src/main/app-icon.ts:147-208 | whether the promise settles and whether it complains, for every launch and every order of events, agrees with a two-phase reference: at first only the callback counts, after the first timer also the end of the child and the second timer |
| `DockIconCommand.BoundedCommand.HandleAll` | src/main/app-icon.ts:144-208 | the callbacks, run in place over any sequence, resolve once and disarm both timers; a settled promise does not change, and an open one settles before its process ends exactly when the timers run out on it |
| `DockIconQueue.StartedInOrder` | src/main/app-icon.ts:214-219 | in every interleaving the works started are those finished, in the same order, and at most one that runs; they start in request order, each with its request's icon, and a drained queue has started the latest request |
| `DockIconQueue.LastRequestWins` | src/main/app-icon.ts:262-288 | if no command's timers run out on its process, icons are applied in request order, and the drained queue leaves the last requested icon exactly when that request was applied |
| `DockIconQueue.LateExactly` | src/main/app-icon.ts:164-189 | an event leaves a process over exactly when it settles a command whose timers ran out while its process could still apply its icon |
| `DockIconQueue.OrderHoldsExactly` | src/main/app-icon.ts:164-288 | from any state that can be reached, every continuation that gives no further command up keeps icons in request order if and only if they are in order so far and no process is left over |
| `DockIconQueue.LateProcessCanWin` | src/main/app-icon.ts:164-189 | a concrete run in which both timers run out on a command and its process applies the older icon last |
| `DockIconQueue.PersistenceQueue.HandleAll` | src/main/app-icon.ts:214-288 | the queue run in place over any events starts works one at a time and in order, and if no command is given up it stays orderly and the last request wins |
| `DockIconQueue.PersistenceQueue.RunNext` | src/main/app-icon.ts:276-281 | nothing starts while a work runs; otherwise the first pending work is taken off, and started exactly when it is of the newest request |
| `DockIconQueue.PersistenceQueue.PersistMacDockIcon` | src/main/app-icon.ts:262-275 | a request is taken exactly on macOS, outside development and with an app bundle |
| `DockIconQueue.PersistenceQueue.OnSettled` | src/main/app-icon.ts:214-219 | the queue is released exactly when the running command's promise has resolved |
| `PlainNodeEntryGuard.CollectReachableChunks` | build-plugins/plain-node-entry-guard.ts:26-49 | terminates on every import graph and lists exactly the known chunks reachable by static and dynamic imports, each once |
| `PlainNodeEntryGuard.AssertNoElectronRequire` | build-plugins/plain-node-entry-guard.ts:51-66 | fails exactly when some reachable chunk's code matches the electron pattern, and names such a chunk |
| `PlainNodeEntryGuard.RequiresElectronExactly` | build-plugins/plain-node-entry-guard.ts:24 | code matches exactly when a call stands in it: `require(`, white space, `electron` between quotes of either kind, white space, and the closing parenthesis |
| `PlainNodeEntryGuard.CheckBundle` | build-plugins/plain-node-entry-guard.ts:107-123 | the build fails exactly when, for one of the four plain-Node entry names, imports lead from the last entry chunk of that name to the chunk of a file in whose code an electron call stands |
| `PlainNodeEntryGuard.LeaksExactly` | build-plugins/plain-node-entry-guard.ts:107-123 | the lookups by file name and by entry name stand for the last chunk of each name, entry chunks only for the latter |

## Left out

- Texts are sequences of characters: UTF-16 code units and surrogate pairs are not modelled, nor case folding beyond ASCII.
- CliArgs: leaving the list of registered paths out is the same as passing an empty one.
- Maps are unordered: which of several flag errors is reported first, and the order in which registry gaps are listed, are not modelled.
- DockIconQueue: a work is one command with one moment of effect; the three commands that clear the classic icon are not told apart.
- DockIconCommand: `kill` is taken not to throw and not to call back synchronously, and a command's callback to come only when its process has ended.
- AgentAwake: the macOS and Linux assertions are left out, since each call is caught on its own and touches no state of the service; a refresh they ask for is an event like any other. Times are integers. `setTimeout` fires after 1 ms when the delay exceeds 2147483647 ms, so that a `receivedAt` some 25 days ahead makes the service refresh over and over; the timer may fire at any time in `Run`, so what is proved of runs holds, but how often it fires is not modelled.
- AccessibilityTree: the rendered text of a line is reduced to depth, number, tab flag and selected flag, and whether a node gets a text summary is an attribute of the node; AT-SPI calls always succeed and the tree does not change.
- DescendantSearch: nodes are numbers; Python object identity is taken to be node identity.
- HookRunners: batch parsing of `%`, `^` and special characters inside a command, and commands that span lines; a command is an opaque text with an exit code, and the shell's own reading of a line ends at blanks, comment lines and `set -e`.
- ComputerFollowUp: the Windows branch of the quoting, and the sentence around the command.
- PosixShell: expansions, double quotes and operators are not read but refused, so that a result means none occurred.
- WindowsCommandLine: the program name in front of the arguments, which the runtime adds itself, and the environment handling.
- CliRegistry: what help prints, what the two shim commands do, and which server a handler talks to.
- DueDate: `Number` on the digits of a well-formed flag is the only number parsing modelled.
- PlainNodeEntryGuard: the smoke load of the daemon entry in a child process.
- User interface, services, SSH, updater, telemetry and formatters: no algorithm of their own, or resting on stores and libraries outside these files.
