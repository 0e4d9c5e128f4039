/** The command line's argv parser, and the lookahead that guesses what it will read.

`ParseFrom` is the parser with its cursor; `StartsAt` is the separate scanner it consults to decide
whether a flag may swallow the next token. The two skip flags by different rules, and the main results
say exactly when they agree.
 */
module CliArgs {
  import opened CliText

  datatype FlagValue = Present | Text(text: string)
  type Flags = map<string, FlagValue>
  type Path = seq<string>

  /** `conflicts` is empty both when the source leaves it undefined and when it is an empty list. */
  datatype ParsedArgs = ParsedArgs(path: Path, flags: Flags, conflicts: seq<string>)

  const NOTHING_PARSED := ParsedArgs([], map[], [])

  const BOOLEAN_FLAGS: set<string> := {
    "all", "attachments", "children", "comments", "connect", "current", "dry-run", "enter", "focus", "force",
    "full", "help", "inject", "interrupt", "json", "messages", "me", "mobile", "mobile-pairing", "no-pairing",
    "parent-current", "provision", "ready", "recipe-json", "relations", "reinstall", "restore-window",
    "return-preamble", "run-hooks", "show-profile", "staged", "tab", "tasks", "text-stdin", "unread",
    "value-stdin", "wait"
  }
  const REPEATED_FLAG_SEPARATOR := '\0'
  const REPEATABLE_STRING_FLAGS: set<string> := {"label"}

  // ----- tokens -----

  predicate IsFlag(token: string) {
    "--" <= token
  }

  function Assignment(token: string): string
    requires IsFlag(token)
  {
    token[2..]
  }

  predicate HasEquals(token: string)
    requires IsFlag(token)
  {
    IndexOf(Assignment(token), '=') < |Assignment(token)|
  }

  predicate IsBooleanName(name: string) {
    name in BOOLEAN_FLAGS
  }

  /** A flag that may take the next token as its value. */
  predicate TakesValue(token: string) {
    IsFlag(token) && !HasEquals(token) && !IsBooleanName(Assignment(token))
  }

  lemma FlagTokens(name: string)
    ensures IsFlag("--" + name) && Assignment("--" + name) == name
    ensures HasEquals("--" + name) <==> '=' in name
    ensures TakesValue("--" + name) <==> '=' !in name && !IsBooleanName(name)
  {
  }

  predicate FlagAt(argv: seq<string>, i: nat) {
    i < |argv| && IsFlag(argv[i])
  }

  predicate WordAt(argv: seq<string>, i: nat) {
    i < |argv| && !IsFlag(argv[i])
  }

  predicate ValueFlagAt(argv: seq<string>, i: nat) {
    i < |argv| && TakesValue(argv[i])
  }

  // ----- the lookahead scanner -----

  /** Skips flags, and after each flag that takes a value skips one more token, whatever it is. */
  function SkipFlags(argv: seq<string>, i: nat): (j: nat)
    ensures i <= j && !FlagAt(argv, j)
    decreases |argv| - i
  {
    if !FlagAt(argv, i) then i
    else SkipFlags(argv, if TakesValue(argv[i]) then i + 2 else i + 1)
  }

  predicate StartsAt(argv: seq<string>, i: nat, path: Path)
    decreases |path|
  {
    path == [] ||
    var j := SkipFlags(argv, i);
    j < |argv| && argv[j] == path[0] && StartsAt(argv, j + 1, path[1..])
  }

  predicate StartsAny(argv: seq<string>, i: nat, paths: seq<Path>) {
    exists k | 0 <= k < |paths| :: StartsAt(argv, i, paths[k])
  }

  /** The words the scanner sees from `i` on. */
  function ScannedWords(argv: seq<string>, i: nat): Path
    decreases |argv| - i
  {
    if i >= |argv| then []
    else if !IsFlag(argv[i]) then [argv[i]] + ScannedWords(argv, i + 1)
    else ScannedWords(argv, if TakesValue(argv[i]) then i + 2 else i + 1)
  }

  method CommandPathStartsAt(argv: seq<string>, tokenIndex: nat, path: Path) returns (starts: bool)
    ensures starts == StartsAt(argv, tokenIndex, path)
  {
    var cursor := tokenIndex;
    for k := 0 to |path|
      invariant cursor >= tokenIndex
      invariant StartsAt(argv, cursor, path[k..]) == StartsAt(argv, tokenIndex, path)
    {
      ghost var from := cursor;
      while cursor < |argv| && IsFlag(argv[cursor])
        invariant cursor >= from
        invariant SkipFlags(argv, cursor) == SkipFlags(argv, from)
        decreases |argv| - cursor
      {
        var assignment := Assignment(argv[cursor]);
        var flag := assignment[..IndexOf(assignment, '=')];
        assert !HasEquals(argv[cursor]) ==> flag == assignment;
        cursor := cursor + if HasEquals(argv[cursor]) || IsBooleanName(flag) then 1 else 2;
      }
      assert path[k..][1..] == path[k + 1..];
      if cursor >= |argv| || argv[cursor] != path[k] {
        return false;
      }
      cursor := cursor + 1;
    }
    return true;
  }

  method StartsCommandAt(argv: seq<string>, tokenIndex: nat, paths: seq<Path>) returns (starts: bool)
    ensures starts == StartsAny(argv, tokenIndex, paths)
  {
    for k := 0 to |paths|
      invariant forall l | 0 <= l < k :: !StartsAt(argv, tokenIndex, paths[l])
    {
      var here := CommandPathStartsAt(argv, tokenIndex, paths[k]);
      if here {
        return true;
      }
    }
    return false;
  }

  // ----- the parser -----

  function SetFlagValue(flags: Flags, name: string, value: string): Flags {
    if name in flags && flags[name].Text? && name in REPEATABLE_STRING_FLAGS then
      flags[name := Text(flags[name].text + [REPEATED_FLAG_SEPARATOR] + value)]
    else
      flags[name := Text(value)]
  }

  /** How far the cursor moves past token `i` when `path` has been read so far. */
  function Width(argv: seq<string>, paths: seq<Path>, i: nat, path: Path): (w: nat)
    requires i < |argv|
    ensures 1 <= w <= 2
  {
    if !TakesValue(argv[i]) then 1
    else if path == [] && StartsAny(argv, i + 1, paths) && !StartsAny(argv, i + 2, paths) then 1
    else if WordAt(argv, i + 1) then 2
    else 1
  }

  function ReadToken(argv: seq<string>, paths: seq<Path>, i: nat, parsed: ParsedArgs): ParsedArgs
    requires i < |argv|
  {
    var token := argv[i];
    if !IsFlag(token) then parsed.(path := parsed.path + [token])
    else
      var assignment := Assignment(token);
      var equals := IndexOf(assignment, '=');
      if equals < |assignment| then
        parsed.(flags := SetFlagValue(parsed.flags, assignment[..equals], assignment[equals + 1..]))
      else if Width(argv, paths, i, parsed.path) == 2 then
        parsed.(flags := SetFlagValue(parsed.flags, assignment, argv[i + 1]))
      else
        parsed.(flags := parsed.flags[assignment := Present])
  }

  function ParseFrom(argv: seq<string>, paths: seq<Path>, i: nat, parsed: ParsedArgs): ParsedArgs
    decreases |argv| - i
  {
    if i >= |argv| then parsed
    else ParseFrom(argv, paths, i + Width(argv, paths, i, parsed.path), ReadToken(argv, paths, i, parsed))
  }

  function Parse(argv: seq<string>, paths: seq<Path>): ParsedArgs {
    ParseFrom(argv, paths, 0, NOTHING_PARSED)
  }

  lemma ParseStep(argv: seq<string>, paths: seq<Path>, i: nat, parsed: ParsedArgs)
    requires i < |argv|
    ensures ParseFrom(argv, paths, i, parsed)
         == ParseFrom(argv, paths, i + Width(argv, paths, i, parsed.path), ReadToken(argv, paths, i, parsed))
  {
  }

  method ParseArgs(argv: seq<string>, commandPaths: seq<Path>) returns (parsed: ParsedArgs)
    ensures parsed == Parse(argv, commandPaths)
  {
    var commandPath: Path := [];
    var flags: Flags := map[];
    var i := 0;
    while i < |argv|
      invariant 0 <= i
      invariant ParseFrom(argv, commandPaths, i, ParsedArgs(commandPath, flags, [])) == Parse(argv, commandPaths)
      decreases |argv| - i
    {
      ParseStep(argv, commandPaths, i, ParsedArgs(commandPath, flags, []));
      var token := argv[i];
      if !IsFlag(token) {
        commandPath := commandPath + [token];
        i := i + 1;
        continue;
      }
      var assignment := Assignment(token);
      var equalsIndex := IndexOf(assignment, '=');
      if equalsIndex != |assignment| {
        flags := SetFlagValue(flags, assignment[..equalsIndex], assignment[equalsIndex + 1..]);
        i := i + 1;
        continue;
      }
      if IsBooleanName(assignment) {
        flags := flags[assignment := Present];
        i := i + 1;
        continue;
      }
      if |commandPath| == 0 {
        var next := StartsCommandAt(argv, i + 1, commandPaths);
        var afterNext := StartsCommandAt(argv, i + 2, commandPaths);
        if next && !afterNext {
          flags := flags[assignment := Present];
          i := i + 1;
          continue;
        }
      }
      if i + 1 >= |argv| || IsFlag(argv[i + 1]) {
        flags := flags[assignment := Present];
        i := i + 1;
        continue;
      }
      flags := SetFlagValue(flags, assignment, argv[i + 1]);
      i := i + 2;
    }
    return ParsedArgs(commandPath, flags, []);
  }
}
