/** Windows command-line quoting, and the argument splitter that has to undo it.

The launcher starts Orca.exe with one command-line string. The program it starts splits that string
again by the rules of CommandLineToArgvW and of the Microsoft C runtime. `Split` states those rules;
`BuildArguments` is the launcher's printer. The main result is that `Split` is a left inverse of the
printer on every argument list, in every dialect of the rule for a doubled quote.
 */
module WindowsCommandLine {

  /** The three published readings of `""` inside quotes: two toggles, a literal quote that stays
      quoted (C runtime since 2008), and a literal quote that leaves quoting (older runtimes). */
  datatype Dialect = Toggles | LiteralStays | LiteralLeaves

  function Backslashes(n: nat): (r: string)
    ensures |r| == n && forall i | 0 <= i < n :: r[i] == '\\'
  {
    seq(n, _ => '\\')
  }

  /** Length of the run of backslashes at the front of `s`. */
  function Run(s: string): (n: nat)
    ensures n <= |s|
    ensures forall i | 0 <= i < n :: s[i] == '\\'
    ensures n < |s| ==> s[n] != '\\'
  {
    if s != [] && s[0] == '\\' then 1 + Run(s[1..]) else 0
  }

  predicate Separator(c: char) {
    c == ' ' || c == '\t'
  }

  // ----- the splitter -----

  /** Reads `s` with `current` the argument read so far, `quoted` the quoting state, and `started`
      whether an argument is open. */
  function Scan(d: Dialect, s: string, current: string, quoted: bool, started: bool): seq<string>
    decreases |s|, 1
  {
    ScanAfter(d, Run(s), s[Run(s)..], current, quoted, started)
  }

  /** The same with `n` backslashes already read and no more to come. */
  function ScanAfter(d: Dialect, n: nat, rest: string, current: string, quoted: bool, started: bool): seq<string>
    decreases n + |rest|, 0
  {
    if rest == [] then
      if started || n > 0 then [current + Backslashes(n)] else []
    else if rest[0] == '"' then
      if n % 2 == 1 then
        Scan(d, rest[1..], current + Backslashes(n / 2) + "\"", quoted, true)
      else if quoted && d != Toggles && |rest| > 1 && rest[1] == '"' then
        Scan(d, rest[2..], current + Backslashes(n / 2) + "\"", d == LiteralStays, true)
      else
        Scan(d, rest[1..], current + Backslashes(n / 2), !quoted, true)
    else if !quoted && Separator(rest[0]) then
      (if started || n > 0 then [current + Backslashes(n)] else []) + Scan(d, rest[1..], "", false, false)
    else
      Scan(d, rest[1..], current + Backslashes(n) + [rest[0]], quoted, true)
  }

  function Split(d: Dialect, commandLine: string): seq<string> {
    Scan(d, commandLine, "", false, false)
  }

  // ----- what the printer computes -----

  /** `Char.IsWhiteSpace`. */
  predicate IsWhiteSpace(c: char) {
    || '\t' <= c <= '\r' || c == ' ' || c == '\U{85}' || c == '\U{A0}' || c == '\U{1680}'
    || '\U{2000}' <= c <= '\U{200A}' || c == '\U{2028}' || c == '\U{2029}' || c == '\U{202F}'
    || c == '\U{205F}' || c == '\U{3000}'
  }

  predicate RequiresQuotes(value: string) {
    value == [] || exists i | 0 <= i < |value| :: value[i] == '"' || IsWhiteSpace(value[i])
  }

  /** Everything after the opening quote, closing quote included. */
  function QuotedBody(value: string): string
    decreases |value|, 1
  {
    BodyAfter(Run(value), value[Run(value)..])
  }

  function BodyAfter(n: nat, rest: string): string
    decreases n + |rest|, 0
  {
    if rest == [] then Backslashes(2 * n) + "\""
    else if rest[0] == '"' then Backslashes(2 * n + 1) + ("\"" + QuotedBody(rest[1..]))
    else Backslashes(n) + ([rest[0]] + QuotedBody(rest[1..]))
  }

  function Quoted(value: string): string {
    if RequiresQuotes(value) then "\"" + QuotedBody(value) else value
  }

  function ArgumentTail(args: seq<string>): string {
    if args == [] then [] else " " + Quoted(args[0]) + ArgumentTail(args[1..])
  }

  function CommandLine(cliPath: string, args: seq<string>): string {
    Quoted(cliPath) + ArgumentTail(args)
  }

  // ----- the round trip -----

  lemma {:induction false} RunOf(n: nat, rest: string)
    requires rest == [] || rest[0] != '\\'
    ensures Run(Backslashes(n) + rest) == n
    ensures (Backslashes(n) + rest)[n..] == rest
  {
    var s := Backslashes(n) + rest;
    if n > 0 {
      assert s[1..] == Backslashes(n - 1) + rest;
      RunOf(n - 1, rest);
    } else {
      assert s == rest;
    }
  }

  ghost predicate EndsArgument(tail: string) {
    tail == [] || tail[0] == ' '
  }

  lemma ScanRun(d: Dialect, n: nat, rest: string, current: string, quoted: bool, started: bool)
    requires rest == [] || rest[0] != '\\'
    ensures Scan(d, Backslashes(n) + rest, current, quoted, started)
         == ScanAfter(d, n, rest, current, quoted, started)
  {
    RunOf(n, rest);
  }

  /** 2n+1 backslashes and a quote give n backslashes and a literal quote. */
  lemma ScanEscaped(d: Dialect, n: nat, after: string, current: string, quoted: bool, started: bool)
    ensures ScanAfter(d, 2 * n + 1, "\"" + after, current, quoted, started)
         == Scan(d, after, current + Backslashes(n) + "\"", quoted, true)
  {
    assert ("\"" + after)[1..] == after;
    assert (2 * n + 1) % 2 == 1 && (2 * n + 1) / 2 == n;
  }

  /** 2n backslashes and a quote give n backslashes and toggle quoting, unless a second quote follows. */
  lemma ScanClose(d: Dialect, n: nat, after: string, current: string, quoted: bool, started: bool)
    requires !quoted || after == [] || after[0] != '"'
    ensures ScanAfter(d, 2 * n, "\"" + after, current, quoted, started)
         == Scan(d, after, current + Backslashes(n), !quoted, true)
  {
    var rest := "\"" + after;
    assert rest[1..] == after;
    assert (2 * n) % 2 == 0 && (2 * n) / 2 == n;
    assert |rest| > 1 ==> rest[1] == after[0];
  }

  /** Backslashes not followed by a quote are literal. */
  lemma ScanOrdinary(d: Dialect, n: nat, c: char, after: string, current: string, quoted: bool, started: bool)
    requires c != '"' && (quoted || !Separator(c))
    ensures ScanAfter(d, n, [c] + after, current, quoted, started)
         == Scan(d, after, current + Backslashes(n) + [c], quoted, true)
  {
    assert ([c] + after)[1..] == after;
  }

  lemma Shift(a: string, b: string, c: string, tail: string)
    ensures (a + (b + c)) + tail == a + (b + (c + tail))
  {
  }

  /** One printer step, escaped or not, is one reader step: the `n` pending backslashes of the value and
      the character after them have been read. */
  lemma ScanBodyAfter(d: Dialect, n: nat, c: char, rest: string, tail: string, current: string)
    requires c != '\\'
    ensures Scan(d, BodyAfter(n, [c] + rest) + tail, current, true, true)
         == Scan(d, QuotedBody(rest) + tail, current + Backslashes(n) + [c], true, true)
  {
    var after := QuotedBody(rest) + tail;
    assert ([c] + rest)[1..] == rest;
    var m := if c == '"' then 2 * n + 1 else n;
    Shift(Backslashes(m), [c], QuotedBody(rest), tail);
    ScanRun(d, m, [c] + after, current, true, true);
    if c == '"' {
      ScanEscaped(d, n, after, current, true, true);
    } else {
      ScanOrdinary(d, n, c, after, current, true, true);
    }
  }

  lemma SplitAtRun(value: string, current: string) returns (c: char, rest: string)
    requires Run(value) < |value|
    ensures var n := Run(value);
            && c == value[n] && rest == value[n + 1..] && value[n..] == [c] + rest && |rest| < |value|
            && current + Backslashes(n) + [c] + rest == current + value
  {
    c, rest := value[Run(value)], value[Run(value) + 1..];
  }

  lemma ScanBodyEnd(d: Dialect, n: nat, tail: string, current: string)
    requires EndsArgument(tail)
    ensures Scan(d, BodyAfter(n, "") + tail, current, true, true)
         == Scan(d, tail, current + Backslashes(n), false, true)
  {
    assert BodyAfter(n, "") + tail == Backslashes(2 * n) + ("\"" + tail);
    ScanRun(d, 2 * n, "\"" + tail, current, true, true);
    ScanClose(d, n, tail, current, true, true);
  }

  /** The closing quote consumes exactly what the printer put before it. */
  lemma {:induction false} ScanQuotedBody(d: Dialect, value: string, tail: string, current: string)
    requires EndsArgument(tail)
    ensures Scan(d, QuotedBody(value) + tail, current, true, true) == Scan(d, tail, current + value, false, true)
    decreases |value|
  {
    var n := Run(value);
    if n == |value| {
      assert Backslashes(n) == value;
      ScanBodyEnd(d, n, tail, current);
    } else {
      var c, rest := SplitAtRun(value, current);
      ScanBodyAfter(d, n, c, rest, tail, current);
      ScanQuotedBody(d, rest, tail, current + Backslashes(n) + [c]);
    }
  }

  /** At the end of an argument, pending backslashes are literal. */
  lemma ScanTrailing(d: Dialect, n: nat, tail: string, current: string, started: bool)
    requires EndsArgument(tail) && (n > 0 || started)
    ensures Scan(d, Backslashes(n) + tail, current, false, started)
         == Scan(d, tail, current + Backslashes(n), false, true)
  {
    ScanRun(d, n, tail, current, false, started);
    assert Run(tail) == 0 && tail[0..] == tail;
    assert current + Backslashes(n) + Backslashes(0) == current + Backslashes(n);
  }

  lemma BehindRun(value: string, n: nat, c: char, rest: string, tail: string)
    requires n <= |value| && value[..n] == Backslashes(n) && value[n..] == [c] + rest
    ensures value + tail == Backslashes(n) + ([c] + (rest + tail))
  {
    assert value == value[..n] + value[n..];
  }

  /** An argument printed bare is read back bare. */
  lemma {:induction false} ScanBare(d: Dialect, value: string, tail: string, current: string, started: bool)
    requires EndsArgument(tail) && (value != [] || started)
    requires forall i | 0 <= i < |value| :: value[i] != '"' && !IsWhiteSpace(value[i])
    ensures Scan(d, value + tail, current, false, started) == Scan(d, tail, current + value, false, true)
    decreases |value|
  {
    var n := Run(value);
    if n == |value| {
      assert Backslashes(n) == value;
      ScanTrailing(d, n, tail, current, started);
    } else {
      var c, rest := SplitAtRun(value, current);
      BehindRun(value, n, c, rest, tail);
      assert forall i | 0 <= i < |rest| :: rest[i] == value[n + 1 + i];
      ScanRun(d, n, [c] + (rest + tail), current, false, started);
      ScanOrdinary(d, n, c, rest + tail, current, false, started);
      ScanBare(d, rest, tail, current + Backslashes(n) + [c], true);
    }
  }

  lemma OpenShift(body: string, tail: string)
    ensures ("\"" + body) + tail == "\"" + (body + tail)
  {
  }

  lemma ScanOpen(d: Dialect, after: string)
    ensures Scan(d, "\"" + after, "", false, false) == Scan(d, after, "", true, true)
  {
    ScanRun(d, 0, "\"" + after, "", false, false);
    ScanClose(d, 0, after, "", false, false);
    NoBackslashes("\"" + after);
    NoBackslashes("");
  }

  lemma NoBackslashes(rest: string)
    ensures Backslashes(0) + rest == rest && rest + Backslashes(0) == rest
  {
  }

  /** One printed argument followed by a space or the end is one argument again. */
  lemma ScanQuoted(d: Dialect, value: string, tail: string)
    requires EndsArgument(tail)
    ensures Scan(d, Quoted(value) + tail, "", false, false) == Scan(d, tail, value, false, true)
  {
    assert "" + value == value;
    if RequiresQuotes(value) {
      ScanOpen(d, QuotedBody(value) + tail);
      OpenShift(QuotedBody(value), tail);
      ScanQuotedBody(d, value, tail, "");
    } else {
      ScanBare(d, value, tail, "", false);
    }
  }

  lemma ScanSpace(d: Dialect, after: string, current: string)
    ensures Scan(d, " " + after, current, false, true) == [current] + Scan(d, after, "", false, false)
  {
    var s := " " + after;
    assert Run(s) == 0 && s[0..] == s && s[1..] == after;
    assert current + Backslashes(0) == current;
  }

  lemma {:induction false} ScanArguments(d: Dialect, current: string, args: seq<string>)
    ensures Scan(d, ArgumentTail(args), current, false, true) == [current] + args
    decreases args
  {
    if args == [] {
      assert Run("") == 0 && current + Backslashes(0) == current;
    } else {
      var tail := ArgumentTail(args[1..]);
      assert ArgumentTail(args) == " " + (Quoted(args[0]) + tail);
      ScanSpace(d, Quoted(args[0]) + tail, current);
      ScanQuoted(d, args[0], tail);
      ScanArguments(d, args[0], args[1..]);
      assert args == [args[0]] + args[1..];
    }
  }

  /** The law the launcher relies on: the child sees exactly `cliPath` followed by the arguments. */
  lemma RoundTrip(d: Dialect, cliPath: string, args: seq<string>)
    ensures Split(d, CommandLine(cliPath, args)) == [cliPath] + args
  {
    ScanQuoted(d, cliPath, ArgumentTail(args));
    ScanArguments(d, cliPath, args);
  }

  /** Two invocations never share a command line. */
  lemma Unambiguous(cliPath: string, args: seq<string>, cliPath': string, args': seq<string>)
    requires CommandLine(cliPath, args) == CommandLine(cliPath', args')
    ensures cliPath == cliPath' && args == args'
  {
    RoundTrip(Toggles, cliPath, args);
    RoundTrip(Toggles, cliPath', args');
    assert ([cliPath] + args)[0] == ([cliPath'] + args')[0];
    assert args == ([cliPath] + args)[1..] == ([cliPath'] + args')[1..] == args';
  }

  lemma BodyRun(n: nat, rest: string)
    requires rest == [] || rest[0] != '\\'
    ensures QuotedBody(Backslashes(n) + rest) == BodyAfter(n, rest)
  {
    RunOf(n, rest);
  }

  /** The printed text when `quoted` is out, `n` backslashes are pending and `rest` is still to come. */
  ghost function Printed(quoted: string, n: nat, rest: string): string {
    quoted + QuotedBody(Backslashes(n) + rest)
  }

  lemma PrintedStep(quoted: string, n: nat, rest: string)
    ensures Printed(quoted, n, "") == quoted + Backslashes(2 * n) + "\""
    ensures rest != [] && rest[0] == '\\' ==> Printed(quoted, n, rest) == Printed(quoted, n + 1, rest[1..])
    ensures rest != [] && rest[0] == '"' ==>
              Printed(quoted, n, rest) == Printed(quoted + Backslashes(2 * n + 1) + "\"", 0, rest[1..])
    ensures rest != [] && rest[0] != '"' && rest[0] != '\\' ==>
              Printed(quoted, n, rest) == Printed(quoted + Backslashes(n) + [rest[0]], 0, rest[1..])
  {
    BodyRun(n, "");
    if rest != [] {
      if rest[0] == '\\' {
        assert Backslashes(n) + rest == Backslashes(n + 1) + rest[1..];
      } else {
        BodyRun(n, rest);
        assert Backslashes(0) + rest[1..] == rest[1..];
      }
    }
  }

  // ----- the printer itself -----

  lemma {:induction false} BodyIsLonger(n: nat, rest: string)
    ensures |BodyAfter(n, rest)| > n + |rest|
    decreases n + |rest|
  {
    if rest != [] {
      var after := rest[1..];
      BodyIsLonger(Run(after), after[Run(after)..]);
    }
  }

  /** A value is printed as it is exactly when it is not empty and has no quote and no white space. */
  lemma BareExactly(value: string)
    ensures Quoted(value) == value <==> value != "" && forall c | c in value :: c != '"' && !IsWhiteSpace(c)
  {
    if RequiresQuotes(value) {
      BodyIsLonger(Run(value), value[Run(value)..]);
      if i :| 0 <= i < |value| && (value[i] == '"' || IsWhiteSpace(value[i])) {
        assert value[i] in value;
      }
    }
  }

  /** The one-pass quoter: `backslashCount` carries the run not yet printed. */
  method QuoteArgument(value: string) returns (r: string)
    ensures r == Quoted(value)
    ensures forall d :: Split(d, r) == [value]
  {
    forall d ensures Split(d, Quoted(value)) == [value] {
      RoundTrip(d, value, []);
      assert Quoted(value) + [] == Quoted(value);
    }
    var requiresQuotes := |value| == 0;
    var index := 0;
    while index < |value| && !requiresQuotes
      invariant 0 <= index <= |value|
      invariant requiresQuotes ==> RequiresQuotes(value)
      invariant !requiresQuotes ==>
                  value != [] && forall i | 0 <= i < index :: value[i] != '"' && !IsWhiteSpace(value[i])
    {
      requiresQuotes := value[index] == '"' || IsWhiteSpace(value[index]);
      index := index + 1;
    }
    if !requiresQuotes {
      return value;
    }
    r := QuoteWithBackslashes(value);
  }

  method QuoteWithBackslashes(value: string) returns (r: string)
    ensures r == "\"" + QuotedBody(value)
  {
    var quoted := "\"";
    var backslashCount := 0;
    assert Backslashes(0) + value[0..] == value;
    for index := 0 to |value|
      invariant 0 <= backslashCount
      invariant Printed(quoted, backslashCount, value[index..]) == "\"" + QuotedBody(value)
    {
      var character := value[index];
      PrintedStep(quoted, backslashCount, value[index..]);
      if character == '\\' {
        backslashCount := backslashCount + 1;
        continue;
      }
      if character == '"' {
        quoted := quoted + Backslashes(backslashCount * 2 + 1);
        quoted := quoted + "\"";
      } else {
        quoted := quoted + Backslashes(backslashCount);
        quoted := quoted + [character];
      }
      backslashCount := 0;
    }
    PrintedStep(quoted, backslashCount, "");
    quoted := quoted + Backslashes(backslashCount * 2);
    quoted := quoted + "\"";
    return quoted;
  }

  /** Whatever the path and the arguments are, every reader recovers them from the one string. */
  method BuildArguments(cliPath: string, args: seq<string>) returns (r: string)
    ensures r == CommandLine(cliPath, args)
    ensures forall d :: Split(d, r) == [cliPath] + args
  {
    r := QuoteArgument(cliPath);
    for i := 0 to |args|
      invariant r + ArgumentTail(args[i..]) == CommandLine(cliPath, args)
    {
      var quoted := QuoteArgument(args[i]);
      assert args[i..][1..] == args[i + 1..];
      r := r + " ";
      r := r + quoted;
    }
    assert r + ArgumentTail(args[|args|..]) == r;
    forall d ensures Split(d, CommandLine(cliPath, args)) == [cliPath] + args {
      RoundTrip(d, cliPath, args);
    }
  }
}
