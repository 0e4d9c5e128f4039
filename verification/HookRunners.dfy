/** The two runners written for a hook script, and what running them does.

`Exec` is any deterministic machine: the exit code of a command given the commands already run. The POSIX
runner is a script under `set -e`; the Windows runner is a batch file that calls each command and leaves
when `if errorlevel 1` holds. They do the same, except that `if errorlevel 1` does not see a negative code,
that the Windows runner trims more from a line than a shell skips (a lone CR at a line's end is part of the
command for the shell), and that it calls what only a shell understands: comments and `set -e`.
 */
module HookRunners {
  import opened CliText
  import opened HookScripts

  // ----- commands of a script -----

  /** White space and line terminators, as `String.prototype.trim` takes them. */
  predicate IsTrimmed(c: char) {
    || '\t' <= c <= '\r' || c == ' ' || c == '\U{A0}' || c == '\U{1680}' || '\U{2000}' <= c <= '\U{200A}'
    || c == '\U{2028}' || c == '\U{2029}' || c == '\U{202F}' || c == '\U{205F}' || c == '\U{3000}' || c == '\U{FEFF}'
  }

  function Trim(s: string): string
    decreases |s|
  {
    if s != "" && IsTrimmed(s[0]) then Trim(s[1..])
    else if s != "" && IsTrimmed(s[|s| - 1]) then Trim(s[..|s| - 1])
    else s
  }

  /** Trimming takes white space off both ends, and all of it. */
  lemma {:induction false} TrimIsExact(s: string) returns (before: string, after: string)
    ensures s == before + Trim(s) + after
    ensures (forall c | c in before + after :: IsTrimmed(c))
    ensures Trim(s) != "" ==> !IsTrimmed(Trim(s)[0]) && !IsTrimmed(Trim(s)[|Trim(s)| - 1])
    decreases |s|
  {
    before, after := "", "";
    if s != "" && IsTrimmed(s[0]) {
      before, after := TrimIsExact(s[1..]);
      before := [s[0]] + before;
    } else if s != "" && IsTrimmed(s[|s| - 1]) {
      before, after := TrimIsExact(s[..|s| - 1]);
      after := after + [s[|s| - 1]];
    }
  }

  /** What a POSIX shell skips around a command: blanks, and no other white space. */
  predicate IsBlank(c: char) {
    c == ' ' || c == '\t'
  }

  function BlankTrim(s: string): string
    decreases |s|
  {
    if s != "" && IsBlank(s[0]) then BlankTrim(s[1..])
    else if s != "" && IsBlank(s[|s| - 1]) then BlankTrim(s[..|s| - 1])
    else s
  }

  lemma {:induction false} TrimDropsLast(s: string)
    requires s != "" && IsTrimmed(s[|s| - 1])
    ensures Trim(s) == Trim(s[..|s| - 1])
    decreases |s|
  {
    if IsTrimmed(s[0]) && |s| > 1 {
      TrimDropsLast(s[1..]);
      assert s[1..][..|s| - 2] == s[..|s| - 1][1..];
    }
  }

  lemma {:induction false} TrimOfBlankTrim(s: string)
    ensures Trim(BlankTrim(s)) == Trim(s)
    decreases |s|
  {
    if s != "" && IsBlank(s[0]) {
      TrimOfBlankTrim(s[1..]);
    } else if s != "" && IsBlank(s[|s| - 1]) {
      TrimOfBlankTrim(s[..|s| - 1]);
      TrimDropsLast(s);
    }
  }

  lemma {:induction false} TrimTwice(s: string)
    ensures Trim(Trim(s)) == Trim(s)
    decreases |s|
  {
    if s != "" && IsTrimmed(s[0]) {
      TrimTwice(s[1..]);
    } else if s != "" && IsTrimmed(s[|s| - 1]) {
      TrimTwice(s[..|s| - 1]);
    }
  }

  /** The commands of the Windows runner: the nonblank lines, trimmed, in order. */
  function Commands(lines: seq<string>): seq<string> {
    if lines == [] then []
    else (if Trim(lines[0]) == "" then [] else [Trim(lines[0])]) + Commands(lines[1..])
  }

  // ----- running -----

  type Exec = (seq<string>, string) -> int

  /** The commands that ran, in order, and the status of the whole. */
  datatype Outcome = Outcome(ran: seq<string>, status: int)

  /** Nothing that runs: a comment, or the option that makes the shell stop at the first failure. */
  predicate IsShellOnly(command: string) {
    (command != "" && command[0] == '#') || command == "set -e"
  }

  /** A shell script, one simple command per line. It goes on after a failure unless `set -e` was met. */
  function RunShell(exec: Exec, lines: seq<string>, ran: seq<string>, failFast: bool, status: int): Outcome
    decreases lines
  {
    if lines == [] then Outcome(ran, status)
    else
      var command := BlankTrim(lines[0]);
      if command == "set -e" then RunShell(exec, lines[1..], ran, true, 0)
      else if command == "" || command[0] == '#' then RunShell(exec, lines[1..], ran, failFast, status)
      else
        var code := exec(ran, command);
        var ran' := ran + [command];
        if code != 0 && failFast then Outcome(ran', code) else RunShell(exec, lines[1..], ran', failFast, code)
  }

  /** `if errorlevel N exit /b %errorlevel%` leaves with the error level when it is at least the digit `N`. */
  function CheckedLevel(line: string): Option<int> {
    if |line| > 14 && line == "if errorlevel " + [line[14]] + " exit /b %errorlevel%" && '0' <= line[14] <= '9' then
      Some(line[14] as int - '0' as int)
    else None
  }

  function CallOf(line: string): Option<string> {
    if "call " <= line then Some(line[5..]) else None
  }

  /** A batch file, line by line, with the error level the last command left; `None` for a line that is not
      one of those the runner is made of. */
  function RunBatch(exec: Exec, lines: seq<string>, ran: seq<string>, errorLevel: int): Option<Outcome>
    decreases lines
  {
    if lines == [] then Some(Outcome(ran, errorLevel))
    else
      var line, rest := lines[0], lines[1..];
      if line == "" || line == "@echo off" || line == "setlocal EnableExtensions" then
        RunBatch(exec, rest, ran, errorLevel)
      else
        match (CheckedLevel(line), CallOf(line))
        case (Some(least), _) =>
          if errorLevel >= least then Some(Outcome(ran, errorLevel)) else RunBatch(exec, rest, ran, errorLevel)
        case (None, Some(command)) => RunBatch(exec, rest, ran + [command], exec(ran, command))
        case (None, None) => None
  }

  // ----- the Windows runner -----

  const CRLF := "\r\n"
  const CHECK_LINE := "if errorlevel 1 exit /b %errorlevel%"
  const CALL := "call "
  const BATCH_HEADER := "@echo off\r\nsetlocal EnableExtensions\r\n"

  function BatchLines(line: string): seq<string> {
    var command := Trim(line);
    if command == "" then [""] else [CALL + command, CHECK_LINE]
  }

  function BodyLines(lines: seq<string>): seq<string> {
    if lines == [] then [] else BatchLines(lines[0]) + BodyLines(lines[1..])
  }

  /** Each line followed by CR LF. */
  function Terminated(lines: seq<string>): string {
    if lines == [] then "" else lines[0] + CRLF + Terminated(lines[1..])
  }

  lemma {:induction false} TerminatedConcat(a: seq<string>, b: seq<string>)
    ensures Terminated(a + b) == Terminated(a) + Terminated(b)
  {
    if a == [] {
      assert a + b == b;
    } else {
      assert (a + b)[1..] == a[1..] + b;
      TerminatedConcat(a[1..], b);
    }
  }

  lemma TerminatedOne(line: string)
    ensures Terminated([line]) == line + CRLF
  {
    assert [line][1..] == [];
  }

  lemma TerminatedPair(first: string, second: string)
    ensures Terminated([first, second]) == first + CRLF + second + CRLF
  {
    TerminatedConcat([first], [second]);
    TerminatedOne(first);
    TerminatedOne(second);
    assert [first] + [second] == [first, second];
  }

  /** The runner so far, as the lines it is made of. */
  ghost function WindowsText(body: seq<string>): string {
    BATCH_HEADER + Terminated(body)
  }

  lemma AppendLines(body: seq<string>, line: string)
    ensures WindowsText(body + BatchLines(line))
         == WindowsText(body) + if Trim(line) == "" then CRLF else CALL + Trim(line) + CRLF + CHECK_LINE + CRLF
  {
    TerminatedConcat(body, BatchLines(line));
    if Trim(line) == "" {
      TerminatedOne("");
      assert "" + CRLF == CRLF;
    } else {
      TerminatedPair(CALL + Trim(line), CHECK_LINE);
    }
    Regroup(BATCH_HEADER, Terminated(body), Terminated(BatchLines(line)));
  }

  lemma {:induction false} BodySnoc(lines: seq<string>, line: string)
    ensures BodyLines(lines + [line]) == BodyLines(lines) + BatchLines(line)
  {
    if lines == [] {
      assert lines + [line] == [line] && [line][1..] == [];
      assert BodyLines([line][1..]) == [];
    } else {
      assert (lines + [line])[1..] == lines[1..] + [line];
      BodySnoc(lines[1..], line);
    }
  }

  /** Splitting at CR LF only. */
  function SplitCrLf(s: string, current: string): seq<string>
    decreases |s|
  {
    if s == [] then [current]
    else if StartsWithCrLf(s) then [current] + SplitCrLf(s[2..], "")
    else SplitCrLf(s[1..], current + [s[0]])
  }

  lemma {:induction false} SplitLine(line: string, rest: string, current: string)
    requires '\n' !in line
    ensures SplitCrLf(line + (CRLF + rest), current) == [current + line] + SplitCrLf(rest, "")
    decreases |line|
  {
    var s := line + (CRLF + rest);
    if line == "" {
      assert s[2..] == rest && current + "" == current;
    } else {
      assert s[1..] == line[1..] + (CRLF + rest);
      assert !StartsWithCrLf(s);
      SplitLine(line[1..], rest, current + [line[0]]);
      assert current + [line[0]] + line[1..] == current + line;
    }
  }

  lemma {:induction false} SplitTerminated(lines: seq<string>)
    requires forall line | line in lines :: '\n' !in line
    ensures SplitCrLf(Terminated(lines), "") == lines + [""]
  {
    if lines != [] {
      var rest := Terminated(lines[1..]);
      assert Terminated(lines) == lines[0] + (CRLF + rest);
      SplitLine(lines[0], rest, "");
      SplitTerminated(lines[1..]);
      assert "" + lines[0] == lines[0];
      assert [lines[0]] + (lines[1..] + [""]) == lines + [""];
    }
  }

  lemma {:induction false} LinesHaveNoLf(s: string, current: string)
    requires '\n' !in current
    ensures forall line | line in SplitLines(s, current) :: '\n' !in line
    decreases |s|
  {
    if s != [] {
      if StartsWithCrLf(s) {
        LinesHaveNoLf(s[2..], "");
      } else if s[0] == '\n' {
        LinesHaveNoLf(s[1..], "");
      } else {
        LinesHaveNoLf(s[1..], current + [s[0]]);
      }
    }
  }

  lemma {:induction false} TrimKeepsOut(s: string, c: char)
    requires c !in s
    ensures c !in Trim(s)
    decreases |s|
  {
    if s != "" && IsTrimmed(s[0]) {
      TrimKeepsOut(s[1..], c);
    } else if s != "" && IsTrimmed(s[|s| - 1]) {
      TrimKeepsOut(s[..|s| - 1], c);
    }
  }

  lemma {:induction false} BodyHasNoLf(lines: seq<string>)
    requires forall line | line in lines :: '\n' !in line
    ensures forall line | line in BodyLines(lines) :: '\n' !in line
  {
    if lines != [] {
      assert '\n' !in lines[0];
      TrimKeepsOut(lines[0], '\n');
      assert '\n' !in CALL && '\n' !in CHECK_LINE;
      BodyHasNoLf(lines[1..]);
    }
  }

  function RunnerLines(script: string): seq<string> {
    ["@echo off", "setlocal EnableExtensions"] + BodyLines(Lines(script))
  }

  lemma HeaderText()
    ensures Terminated(["@echo off", "setlocal EnableExtensions"]) == BATCH_HEADER
  {
    TerminatedPair("@echo off", "setlocal EnableExtensions");
  }

  /** Splitting the Windows runner at CR LF gives the header and then, for each source line, nothing or the
      trimmed line once with its check. */
  lemma WindowsRunnerLines(script: string, runner: string)
    requires runner == BATCH_HEADER + Terminated(BodyLines(Lines(script)))
    ensures SplitCrLf(runner, "") == RunnerLines(script) + [""]
  {
    var body := BodyLines(Lines(script));
    HeaderText();
    TerminatedConcat(["@echo off", "setlocal EnableExtensions"], body);
    LinesHaveNoLf(script, "");
    BodyHasNoLf(Lines(script));
    HeaderHasNoLf(body);
    SplitTerminated(RunnerLines(script));
  }

  lemma HeaderHasNoLf(body: seq<string>)
    requires forall line | line in body :: '\n' !in line
    ensures forall line | line in ["@echo off", "setlocal EnableExtensions"] + body :: '\n' !in line
  {
    assert '\n' !in "@echo off" && '\n' !in "setlocal EnableExtensions";
  }

  /** The text is the header and the lines above, and it splits back into exactly those. */
  method BuildWindowsRunnerScript(script: string) returns (r: string)
    ensures r == BATCH_HEADER + Terminated(BodyLines(Lines(script)))
    ensures SplitCrLf(r, "") == RunnerLines(script) + [""]
  {
    var runnerScript := BATCH_HEADER;
    var lines := IterateLfScriptLines(script);
    for k := 0 to |lines|
      invariant runnerScript == WindowsText(BodyLines(lines[..k]))
    {
      assert lines[..k + 1] == lines[..k] + [lines[k]];
      BodySnoc(lines[..k], lines[k]);
      AppendLines(BodyLines(lines[..k]), lines[k]);
      var command := Trim(lines[k]);
      if command == "" {
        runnerScript := runnerScript + CRLF;
        continue;
      }
      runnerScript := runnerScript + (CALL + command + CRLF + CHECK_LINE + CRLF);
    }
    assert lines[..|lines|] == lines;
    WindowsRunnerLines(script, runnerScript);
    return runnerScript;
  }

  // ----- the POSIX runner -----

  const SHEBANG := "#!/usr/bin/env bash"
  const SET_E := "set -e"

  lemma SplitEnd(body: string)
    ensures Split(body + "\n", '\n') == Split(body, '\n') + [""]
  {
    SplitConcat(body, '\n', "");
    assert body + ['\n'] + "" == body + "\n";
    assert Split("", '\n') == [""];
  }

  lemma SplitHeader(first: string, second: string, body: string)
    requires '\n' !in first && '\n' !in second
    ensures Split(first + ['\n'] + (second + ['\n'] + (body + "\n")), '\n')
         == [first] + ([second] + (Split(body, '\n') + [""]))
  {
    SplitFirst(first, '\n', second + ['\n'] + (body + "\n"));
    SplitFirst(second, '\n', body + "\n");
    SplitEnd(body);
  }

  lemma RegroupHeader(first: string, second: string, body: string)
    ensures first + ['\n'] + (second + ['\n'] + (body + "\n")) == first + "\n" + second + "\n" + body + "\n"
  {
  }

  lemma RegroupLines(first: string, second: string, lines: seq<string>)
    ensures [first] + ([second] + (lines + [""])) == [first, second] + lines + [""]
  {
  }

  /** Splitting the POSIX runner at LF gives its two header lines, the script's lines, and nothing more. */
  lemma PosixRunnerLines(script: string)
    ensures Split(SHEBANG + "\n" + SET_E + "\n" + Normalized(script) + "\n", '\n')
         == [SHEBANG, SET_E] + Lines(script) + [""]
  {
    LinesAndNormalForm(script);
    assert '\n' !in SHEBANG && '\n' !in SET_E;
    SplitHeader(SHEBANG, SET_E, Normalized(script));
    RegroupHeader(SHEBANG, SET_E, Normalized(script));
    RegroupLines(SHEBANG, SET_E, Lines(script));
  }

  /** A reader that splits at LF sees the header and exactly the script's own lines. */
  method BuildPosixRunnerScript(script: string) returns (r: string)
    ensures r == SHEBANG + "\n" + SET_E + "\n" + Normalized(script) + "\n"
    ensures Split(r, '\n') == [SHEBANG, SET_E] + Lines(script) + [""]
  {
    PosixRunnerLines(script);
    var normalized := NormalizeCrlfScriptLineEndings(script);
    return SHEBANG + "\n" + SET_E + "\n" + normalized + "\n";
  }

  // ----- same commands, same status -----

  /** The runners take this line differently: the Windows runner trims more from it than the blanks a shell
      skips, or calls what a shell does not run. */
  predicate IsStray(line: string) {
    Trim(line) != BlankTrim(line) || IsShellOnly(BlankTrim(line))
  }

  /** A stray line comes before any command that fails. */
  predicate ReachesStray(exec: Exec, lines: seq<string>, ran: seq<string>)
    decreases lines
  {
    lines != [] &&
    if IsStray(lines[0]) then true
    else
      var command := Trim(lines[0]);
      if command == "" then ReachesStray(exec, lines[1..], ran)
      else exec(ran, command) == 0 && ReachesStray(exec, lines[1..], ran + [command])
  }

  /** Some command other than the last one that `set -e` gets to exits with a negative code. */
  predicate MissedFailure(exec: Exec, commands: seq<string>, ran: seq<string>)
    decreases commands
  {
    |commands| > 1 &&
    var code := exec(ran, commands[0]);
    code < 0 || (code == 0 && MissedFailure(exec, commands[1..], ran + [commands[0]]))
  }

  /** The lines made from one source line, run by the batch interpreter. */
  lemma RunSourceLine(exec: Exec, line: string, rest: seq<string>, ran: seq<string>, level: int)
    ensures var command := Trim(line);
            RunBatch(exec, BatchLines(line) + rest, ran, level)
            == if command == "" then RunBatch(exec, rest, ran, level)
               else
                 var code, ran' := exec(ran, command), ran + [command];
                 if code >= 1 then Some(Outcome(ran', code)) else RunBatch(exec, rest, ran', code)
  {
    var command := Trim(line);
    if command == "" {
      assert ([""] + rest)[1..] == rest;
    } else {
      var call := CALL + command;
      var lines := [call, CHECK_LINE] + rest;
      assert lines[1..] == [CHECK_LINE] + rest && ([CHECK_LINE] + rest)[1..] == rest;
      CallLine(command);
      CheckLine();
    }
  }

  lemma CheckLine()
    ensures CheckedLevel(CHECK_LINE) == Some(1)
    ensures CHECK_LINE != "" && CHECK_LINE != "@echo off" && CHECK_LINE != "setlocal EnableExtensions"
  {
    assert CHECK_LINE[0] == 'i' && CHECK_LINE[14] == '1';
    assert "@echo off"[0] == '@' && "setlocal EnableExtensions"[0] == 's';
  }

  lemma CallLine(command: string)
    ensures var call := CALL + command;
            && CallOf(call) == Some(command) && CheckedLevel(call) == None
            && call != "" && call != "@echo off" && call != "setlocal EnableExtensions"
  {
    var call := CALL + command;
    assert call[0] == 'c';
    assert "@echo off"[0] == '@' && "setlocal EnableExtensions"[0] == 's';
    if |call| > 14 {
      assert ("if errorlevel " + [call[14]] + " exit /b %errorlevel%")[0] == 'i';
    }
  }

  /** The commands called by a batch file's lines, in order. */
  function Called(lines: seq<string>): seq<string> {
    if lines == [] then []
    else (if CallOf(lines[0]).Some? then [CallOf(lines[0]).value] else []) + Called(lines[1..])
  }

  lemma {:induction false} CalledConcat(a: seq<string>, b: seq<string>)
    ensures Called(a + b) == Called(a) + Called(b)
  {
    if a == [] {
      assert a + b == b;
    } else {
      assert (a + b)[1..] == a[1..] + b;
      CalledConcat(a[1..], b);
    }
  }

  lemma CalledFirst(first: string, rest: seq<string>)
    ensures Called([first] + rest) == (if CallOf(first).Some? then [CallOf(first).value] else []) + Called(rest)
  {
    assert ([first] + rest)[1..] == rest;
  }

  lemma CalledOnce(line: string)
    ensures Called(BatchLines(line)) == if Trim(line) == "" then [] else [Trim(line)]
  {
    if Trim(line) == "" {
      assert Called([""][1..]) == [];
    } else {
      CallLine(Trim(line));
      var call := CALL + Trim(line);
      assert CHECK_LINE[0] == 'i' && "call "[0] == 'c' && CallOf(CHECK_LINE) == None;
      CalledFirst(CHECK_LINE, []);
      CalledFirst(call, [CHECK_LINE]);
      assert [call] + [CHECK_LINE] == BatchLines(line) && [CHECK_LINE] + [] == [CHECK_LINE];
    }
  }

  /** The runner calls each nonblank trimmed source line once and in order, and nothing else. */
  lemma {:induction false} BodyCallsCommands(lines: seq<string>)
    ensures Called(BodyLines(lines)) == Commands(lines)
  {
    if lines != [] {
      CalledConcat(BatchLines(lines[0]), BodyLines(lines[1..]));
      CalledOnce(lines[0]);
      BodyCallsCommands(lines[1..]);
    }
  }

  /** A batch body always runs to an end. What it runs next, if anything, is a trimmed command; and it does
      run on as long as a command is left. */
  lemma {:induction false} BatchRunsOn(exec: Exec, lines: seq<string>, ran: seq<string>, level: int)
    ensures var r := RunBatch(exec, BodyLines(lines) + [""], ran, level);
            && r.Some? && ran <= r.value.ran
            && (|r.value.ran| > |ran| ==> Trim(r.value.ran[|ran|]) == r.value.ran[|ran|])
            && (Commands(lines) != [] ==> |r.value.ran| > |ran|)
            && (Commands(lines) == [] ==> r.value == Outcome(ran, level))
    decreases lines
  {
    if lines == [] {
      assert BodyLines(lines) + [""] == [""] && [""][1..] == [];
    } else {
      var rest := BodyLines(lines[1..]) + [""];
      assert BodyLines(lines) + [""] == BatchLines(lines[0]) + rest;
      RunSourceLine(exec, lines[0], rest, ran, level);
      var command := Trim(lines[0]);
      if command == "" {
        BatchRunsOn(exec, lines[1..], ran, level);
      } else {
        TrimTwice(lines[0]);
        BatchRunsOn(exec, lines[1..], ran + [command], exec(ran, command));
      }
    }
  }

  /** The shell adds to what ran, never something that it does not run; a command that comes first runs. */
  lemma {:induction false} ShellRunsOn(exec: Exec, lines: seq<string>, ran: seq<string>, failFast: bool, status: int)
    ensures var r := RunShell(exec, lines, ran, failFast, status);
            && ran <= r.ran && (|r.ran| > |ran| ==> !IsShellOnly(r.ran[|ran|]))
            && (lines != [] ==>
                  var command := BlankTrim(lines[0]);
                  command != "" && !IsShellOnly(command) ==> ran + [command] <= r.ran)
    decreases lines
  {
    if lines != [] {
      var command := BlankTrim(lines[0]);
      if command == "set -e" {
        ShellRunsOn(exec, lines[1..], ran, true, 0);
      } else if command == "" || command[0] == '#' {
        ShellRunsOn(exec, lines[1..], ran, failFast, status);
      } else {
        var code := exec(ran, command);
        assert (ran + [command])[|ran|] == command;
        if code == 0 || !failFast {
          ShellRunsOn(exec, lines[1..], ran + [command], failFast, code);
        }
      }
    }
  }

  lemma {:induction false} TrimKeepsFirst(s: string)
    requires s != "" && !IsTrimmed(s[0])
    ensures Trim(s) != "" && Trim(s)[0] == s[0]
    decreases |s|
  {
    if IsTrimmed(s[|s| - 1]) {
      TrimKeepsFirst(s[..|s| - 1]);
    }
  }

  /** What a shell does not run, the batch file calls. */
  lemma ShellOnlyIsCalled(line: string)
    requires IsShellOnly(BlankTrim(line))
    ensures Trim(line) != "" && IsShellOnly(Trim(line))
  {
    TrimOfBlankTrim(line);
    TrimKeepsFirst(BlankTrim(line));
    if BlankTrim(line) == "set -e" {
      assert "set -e"[0] == 's' && "set -e"[5] == 'e';
      assert Trim("set -e") == "set -e";
    }
  }

  /** Where the runners take a line differently, one of them runs something the other never runs there. */
  lemma StrayLineDiffers(exec: Exec, lines: seq<string>, ran: seq<string>)
    requires lines != [] && IsStray(lines[0])
    ensures RunBatch(exec, BodyLines(lines) + [""], ran, 0) != Some(RunShell(exec, lines, ran, true, 0))
  {
    var command := BlankTrim(lines[0]);
    ShellRunsOn(exec, lines, ran, true, 0);
    if IsShellOnly(command) {
      ShellOnlyIsCalled(lines[0]);
      BatchCallsFirst(exec, lines, ran);
    } else {
      TrimOfBlankTrim(lines[0]);
      BatchRunsOn(exec, lines, ran, 0);
      assert (ran + [command])[|ran|] == command;
    }
  }

  lemma BatchCallsFirst(exec: Exec, lines: seq<string>, ran: seq<string>)
    requires lines != [] && Trim(lines[0]) != ""
    ensures var r := RunBatch(exec, BodyLines(lines) + [""], ran, 0);
            r.Some? && |r.value.ran| > |ran| && r.value.ran[|ran|] == Trim(lines[0])
  {
    var command, rest := Trim(lines[0]), BodyLines(lines[1..]) + [""];
    assert BodyLines(lines) + [""] == BatchLines(lines[0]) + rest;
    RunSourceLine(exec, lines[0], rest, ran, 0);
    assert (ran + [command])[|ran|] == command;
    BatchRunsOn(exec, lines[1..], ran + [command], exec(ran, command));
  }

  lemma CommandsFirst(lines: seq<string>)
    requires lines != [] && Trim(lines[0]) != ""
    ensures Commands(lines) != [] && Commands(lines)[0] == Trim(lines[0])
    ensures Commands(lines)[1..] == Commands(lines[1..])
  {
  }

  /** From any point where the last command succeeded, the batch body and `set -e` come out the same exactly
      when no stray line is reached and no failure is missed. */
  lemma {:induction false} BodiesAgree(exec: Exec, lines: seq<string>, ran: seq<string>)
    ensures RunBatch(exec, BodyLines(lines) + [""], ran, 0) == Some(RunShell(exec, lines, ran, true, 0))
       <==> !ReachesStray(exec, lines, ran) && !MissedFailure(exec, Commands(lines), ran)
    decreases lines
  {
    if lines == [] {
      assert BodyLines(lines) + [""] == [""] && [""][1..] == [];
    } else if IsStray(lines[0]) {
      StrayLineDiffers(exec, lines, ran);
    } else if Trim(lines[0]) == "" {
      assert BodyLines(lines) + [""] == BatchLines(lines[0]) + (BodyLines(lines[1..]) + [""]);
      RunSourceLine(exec, lines[0], BodyLines(lines[1..]) + [""], ran, 0);
      assert Commands(lines) == Commands(lines[1..]);
      BodiesAgree(exec, lines[1..], ran);
    } else {
      BodiesAgreeAfterCommand(exec, lines, ran);
    }
  }

  lemma {:induction false} BodiesAgreeAfterCommand(exec: Exec, lines: seq<string>, ran: seq<string>)
    requires lines != [] && !IsStray(lines[0]) && Trim(lines[0]) != ""
    ensures RunBatch(exec, BodyLines(lines) + [""], ran, 0) == Some(RunShell(exec, lines, ran, true, 0))
       <==> !ReachesStray(exec, lines, ran) && !MissedFailure(exec, Commands(lines), ran)
    decreases lines, 0
  {
    var rest := BodyLines(lines[1..]) + [""];
    assert BodyLines(lines) + [""] == BatchLines(lines[0]) + rest;
    RunSourceLine(exec, lines[0], rest, ran, 0);
    CommandsFirst(lines);
    var command := Trim(lines[0]);
    var code := exec(ran, command);
    if code == 0 {
      BodiesAgree(exec, lines[1..], ran + [command]);
    } else if code < 0 {
      BatchRunsOn(exec, lines[1..], ran + [command], code);
    }
  }

  /** Run from their texts, the Windows runner and the POSIX script execute the same commands and return the
      same status, if and only if, before anything fails, there is no line that the two take differently, and no
      command before the last exits with a negative code. */
  lemma RunnersAgree(exec: Exec, script: string, windows: string, posix: string)
    requires windows == BATCH_HEADER + Terminated(BodyLines(Lines(script)))
    requires posix == SHEBANG + "\n" + SET_E + "\n" + Normalized(script) + "\n"
    ensures RunBatch(exec, SplitCrLf(windows, ""), [], 0) == Some(RunShell(exec, Split(posix, '\n'), [], false, 0))
       <==> !ReachesStray(exec, Lines(script), []) && !MissedFailure(exec, Commands(Lines(script)), [])
  {
    RunnerTextsRun(exec, script, windows, posix);
    BodiesAgree(exec, Lines(script), []);
  }

  /** Running the two texts is running the two forms of the script's lines, the shell's under `set -e`. */
  lemma RunnerTextsRun(exec: Exec, script: string, windows: string, posix: string)
    requires windows == BATCH_HEADER + Terminated(BodyLines(Lines(script)))
    requires posix == SHEBANG + "\n" + SET_E + "\n" + Normalized(script) + "\n"
    ensures RunShell(exec, Split(posix, '\n'), [], false, 0) == RunShell(exec, Lines(script), [], true, 0)
    ensures RunBatch(exec, SplitCrLf(windows, ""), [], 0) == RunBatch(exec, BodyLines(Lines(script)) + [""], [], 0)
  {
    WindowsRunnerLines(script, windows);
    PosixRunnerLines(script);
    var lines := Lines(script);
    RegroupLines(SHEBANG, SET_E, lines);
    ShellHeaderRuns(exec, lines + [""]);
    EmptyLineAtEnd(exec, lines, [], true, 0);
    HeaderRuns(exec, BodyLines(lines) + [""]);
    assert RunnerLines(script) + [""] == ["@echo off", "setlocal EnableExtensions"] + (BodyLines(lines) + [""]);
  }

  lemma ShellHeaderRuns(exec: Exec, rest: seq<string>)
    ensures RunShell(exec, [SHEBANG] + ([SET_E] + rest), [], false, 0) == RunShell(exec, rest, [], true, 0)
  {
    assert SHEBANG[0] == '#' && SHEBANG[|SHEBANG| - 1] == 'h';
    NothingToTrim(SHEBANG);
    assert SET_E[0] == 's' && SET_E[|SET_E| - 1] == 'e';
    NothingToTrim(SET_E);
    assert "set -e"[0] == 's';
    assert ([SHEBANG] + ([SET_E] + rest))[1..] == [SET_E] + rest && ([SET_E] + rest)[1..] == rest;
  }

  lemma {:induction false} EmptyLineAtEnd(exec: Exec, lines: seq<string>, ran: seq<string>, failFast: bool, status: int)
    ensures RunShell(exec, lines + [""], ran, failFast, status) == RunShell(exec, lines, ran, failFast, status)
    decreases lines
  {
    if lines == [] {
      assert lines + [""] == [""] && [""][1..] == [];
    } else {
      assert (lines + [""])[1..] == lines[1..] + [""];
      var command := BlankTrim(lines[0]);
      if command == "set -e" {
        EmptyLineAtEnd(exec, lines[1..], ran, true, 0);
      } else if command == "" || command[0] == '#' {
        EmptyLineAtEnd(exec, lines[1..], ran, failFast, status);
      } else {
        EmptyLineAtEnd(exec, lines[1..], ran + [command], failFast, exec(ran, command));
      }
    }
  }

  lemma HeaderRuns(exec: Exec, rest: seq<string>)
    ensures RunBatch(exec, ["@echo off", "setlocal EnableExtensions"] + rest, [], 0) == RunBatch(exec, rest, [], 0)
  {
    var lines := ["@echo off", "setlocal EnableExtensions"] + rest;
    assert lines[1..] == ["setlocal EnableExtensions"] + rest && lines[1..][1..] == rest;
  }

  // ----- when they part -----

  /** Only line ends that are CR LF or LF are safe: after a last line that ends in a lone CR, the Windows
      runner calls the command and the shell runs a word that ends in CR; a line of a lone CR is nothing to
      the Windows runner and a command to the shell. */
  lemma LoneReturnsDiverge(exec: Exec, script: string, windows: string, posix: string)
    requires script == "a\r" || script == "\r"
    requires windows == BATCH_HEADER + Terminated(BodyLines(Lines(script)))
    requires posix == SHEBANG + "\n" + SET_E + "\n" + Normalized(script) + "\n"
    ensures var windowsRan := RunBatch(exec, SplitCrLf(windows, ""), [], 0);
            && windowsRan.Some? && windowsRan.value.ran == (if script == "\r" then [] else ["a"])
            && RunShell(exec, Split(posix, '\n'), [], false, 0).ran == [script]
  {
    LoneReturnLine(script);
    RunnerTextsRun(exec, script, windows, posix);
    OneLineInShell(exec, script);
    OneLineInBatch(exec, script);
  }

  lemma OneLineInShell(exec: Exec, line: string)
    requires BlankTrim(line) == line != "" && !IsShellOnly(line)
    ensures RunShell(exec, [line], [], true, 0).ran == [line]
  {
    assert [line][1..] == [] && [] + [line] == [line];
  }

  lemma OneLineInBatch(exec: Exec, line: string)
    ensures var r := RunBatch(exec, BodyLines([line]) + [""], [], 0);
            r.Some? && r.value.ran == if Trim(line) == "" then [] else [Trim(line)]
  {
    RunSourceLine(exec, line, [""], [], 0);
    assert BodyLines([line]) == BatchLines(line) + BodyLines([line][1..]);
    assert BatchLines(line) + [] == BatchLines(line) && [""][1..] == [];
    assert [] + [Trim(line)] == [Trim(line)];
  }

  lemma LoneReturnLine(script: string)
    requires script == "a\r" || script == "\r"
    ensures Lines(script) == [script] && BlankTrim(script) == script
    ensures Trim(script) == if script == "\r" then "" else "a"
    ensures IsStray(script) && script != "" && !IsShellOnly(script)
  {
    UnbrokenLine(script, "");
    assert "" + script == script;
    NothingToTrim(script);
  }

  lemma NothingToTrim(s: string)
    requires s != "" && !IsBlank(s[0]) && !IsBlank(s[|s| - 1])
    ensures BlankTrim(s) == s
  {
  }

  lemma {:induction false} UnbrokenLine(s: string, current: string)
    requires '\n' !in s
    ensures SplitLines(s, current) == [current + s]
    decreases |s|
  {
    if s == "" {
      assert current + s == current;
    } else {
      UnbrokenLine(s[1..], current + [s[0]]);
      assert current + [s[0]] + s[1..] == current + s;
    }
  }

  lemma {:induction false} NonnegativeCodesMissNothing(exec: Exec, commands: seq<string>, ran: seq<string>)
    requires forall before, command :: exec(before, command) >= 0
    ensures !MissedFailure(exec, commands, ran)
    decreases commands
  {
    if commands != [] {
      NonnegativeCodesMissNothing(exec, commands[1..], ran + [commands[0]]);
    }
  }

  lemma {:induction false} NoStrayReached(exec: Exec, lines: seq<string>, ran: seq<string>)
    requires forall line | line in lines :: !IsStray(line)
    ensures !ReachesStray(exec, lines, ran)
    decreases lines
  {
    if lines != [] && !IsStray(lines[0]) {
      NoStrayReached(exec, lines[1..], if Trim(lines[0]) == "" then ran else ran + [Trim(lines[0])]);
    }
  }

  lemma {:induction false} StrayReachedOnSuccess(exec: Exec, lines: seq<string>, ran: seq<string>)
    requires forall before, command :: exec(before, command) == 0
    requires exists line | line in lines :: IsStray(line)
    ensures ReachesStray(exec, lines, ran)
    decreases lines
  {
    if !IsStray(lines[0]) {
      StrayReachedOnSuccess(exec, lines[1..], if Trim(lines[0]) == "" then ran else ran + [Trim(lines[0])]);
    }
  }

  /** With nonnegative exit codes a script without stray lines does the same in both runners, and a script on
      which every command succeeds does so only then. */
  lemma NonnegativeCodesAgree(exec: Exec, script: string, windows: string, posix: string)
    requires forall before, command :: exec(before, command) >= 0
    requires windows == BATCH_HEADER + Terminated(BodyLines(Lines(script)))
    requires posix == SHEBANG + "\n" + SET_E + "\n" + Normalized(script) + "\n"
    ensures var agree := RunBatch(exec, SplitCrLf(windows, ""), [], 0)
                         == Some(RunShell(exec, Split(posix, '\n'), [], false, 0));
            var plain := forall line | line in Lines(script) :: !IsStray(line);
            && (plain ==> agree)
            && ((forall before, command :: exec(before, command) == 0) ==> (agree <==> plain))
  {
    RunnersAgree(exec, script, windows, posix);
    NonnegativeCodesMissNothing(exec, Commands(Lines(script)), []);
    if forall line | line in Lines(script) :: !IsStray(line) {
      NoStrayReached(exec, Lines(script), []);
    } else if forall before, command :: exec(before, command) == 0 {
      StrayReachedOnSuccess(exec, Lines(script), []);
    }
  }
}
