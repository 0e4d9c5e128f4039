/** The follow-up command a computer action prints, read back by a shell and then by the CLI's own parser. */
module ComputerFollowUp {
  import opened CliText
  import opened CliArgs
  import opened PosixShell

  /** What `String(n)` gives for a number: digits, letters for exponents, `NaN` and `Infinity`, a sign. */
  predicate IsNumberText(s: string) {
    s != [] && !IsFlag(s) && forall i | 0 <= i < |s| :: '0' <= s[i] <= '9' || s[i] in "+-.eNaInfity"
  }

  type NumberText = s: string | IsNumberText(s) witness "0"

  /** `null` and `undefined` are both `None`: the source treats them alike. */
  datatype Verification = Verification(state: string, reason: Option<string>)
  datatype Action = Action(
    targetWindowId: Option<NumberText>,
    targetWindowIndex: Option<NumberText>,
    verification: Option<Verification>)
  datatype ActionResult = ActionResult(
    bundleId: Option<string>,
    appName: string,
    windowId: Option<NumberText>,
    windowIndex: Option<NumberText>,
    action: Option<Action>)
  datatype Target = Target(
    session: Option<string>,
    worktree: Option<string>,
    windowId: Option<NumberText>,
    windowIndex: Option<NumberText>,
    restoreWindow: bool)

  function AppOf(result: ActionResult): string {
    if result.bundleId.Some? then result.bundleId.value else result.appName
  }

  predicate WindowChanged(result: ActionResult) {
    && result.action.Some? && result.action.value.verification.Some?
    && result.action.value.verification.value.state == "unverified"
    && result.action.value.verification.value.reason == Some("window_changed")
  }

  predicate Truthy(text: Option<string>) {
    text.Some? && text.value != ""
  }

  function OrElse<T>(first: Option<T>, second: Option<T>): Option<T> {
    if first.Some? then first else second
  }

  // ----- what the command is meant to say -----

  datatype Opt = Pair(name: string, value: string) | Switch(name: string)

  function ScopeOpt(target: Target): seq<Opt> {
    if Truthy(target.session) then [Pair("session", target.session.value)]
    else if Truthy(target.worktree) then [Pair("worktree", target.worktree.value)]
    else []
  }

  function WindowOf(id: Option<NumberText>, index: Option<NumberText>): seq<Opt> {
    if id.Some? then [Pair("window-id", id.value)]
    else if index.Some? then [Pair("window-index", index.value)]
    else []
  }

  /** The target's own window unless the action changed it; then the window the action reports, or the
      snapshot's. */
  function WindowOpt(result: ActionResult, target: Target): seq<Opt> {
    if !WindowChanged(result) && (target.windowId.Some? || target.windowIndex.Some?) then
      WindowOf(target.windowId, target.windowIndex)
    else
      var acted := result.action.Some?;
      WindowOf(
        OrElse(if acted then result.action.value.targetWindowId else None, result.windowId),
        OrElse(if acted then result.action.value.targetWindowIndex else None, result.windowIndex))
  }

  /** When the action changed windows the target's window has no say; when it did not and the target names
      one, the result has none. An id always goes before an index of the same origin. */
  lemma WindowIsChosen(result: ActionResult, other: ActionResult, target: Target, elsewhere: Target)
    ensures WindowChanged(result) ==> WindowOpt(result, target) == WindowOpt(result, elsewhere)
    ensures !WindowChanged(result) && !WindowChanged(other) && (target.windowId.Some? || target.windowIndex.Some?) ==>
              WindowOpt(result, target) == WindowOpt(other, target) != []
    ensures !WindowChanged(result) && target.windowId.Some? ==>
              WindowOpt(result, target) == [Pair("window-id", target.windowId.value)]
    ensures WindowChanged(result) && result.action.value.targetWindowId.Some? ==>
              WindowOpt(result, target) == [Pair("window-id", result.action.value.targetWindowId.value)]
  {
  }

  function RestoreOpt(target: Target): seq<Opt> {
    if target.restoreWindow then [Switch("restore-window")] else []
  }

  function Options(result: ActionResult, target: Target): seq<Opt> {
    [Pair("app", AppOf(result))] + (ScopeOpt(target) + (WindowOpt(result, target) + RestoreOpt(target)))
  }

  /** The flags the command is meant to carry. */
  function Intended(options: seq<Opt>): Flags {
    if options == [] then map[]
    else
      var o := options[0];
      Intended(options[1..])[o.name := if o.Pair? then Text(o.value) else Present]
  }

  function OptTokens(options: seq<Opt>): seq<string> {
    if options == [] then []
    else
      var o := options[0];
      (if o.Pair? then ["--" + o.name, o.value] else ["--" + o.name]) + OptTokens(options[1..])
  }

  const COMMAND: Path := ["computer", "get-app-state"]

  /** The words of the whole command. */
  function CommandWords(result: ActionResult, target: Target): seq<string> {
    ["orca"] + COMMAND + OptTokens(Options(result, target))
  }

  // ----- printing -----

  /** `printed[i]` is read by the shell as the word `words[i]`. */
  ghost predicate Prints(printed: seq<string>, words: seq<string>) {
    |printed| == |words| && forall i | 0 <= i < |words| :: PrintsOne(printed[i], words[i])
  }

  ghost predicate PrintsOne(printed: string, word: string) {
    printed == QuoteArgument(word) || (printed == word && word != [] && Ordinary(word))
  }

  lemma LexPrinted(printed: string, word: string, tail: string)
    requires PrintsOne(printed, word)
    ensures Lex(printed + tail, "", false) == Lex(tail, word, true)
  {
    if printed == QuoteArgument(word) {
      LexArgument(word, tail);
    } else {
      LexOrdinary(word, tail, "", false);
      assert "" + word == word;
    }
  }

  lemma LexLast(printed: string, word: string)
    requires PrintsOne(printed, word)
    ensures Lex(printed, "", false) == Some([word])
  {
    LexPrinted(printed, word, "");
    assert printed + "" == printed;
  }

  lemma LexNext(printed: string, word: string, rest: string, words: seq<string>)
    requires PrintsOne(printed, word) && Lex(rest, "", false) == Some(words)
    ensures Lex(printed + " " + rest, "", false) == Some([word] + words)
  {
    LexPrinted(printed, word, " " + rest);
    assert printed + " " + rest == printed + (" " + rest);
  }

  lemma PrintsRest(printed: seq<string>, words: seq<string>)
    requires Prints(printed, words) && printed != []
    ensures PrintsOne(printed[0], words[0]) && Prints(printed[1..], words[1..])
    ensures words == [words[0]] + words[1..]
  {
  }

  lemma {:induction false} JoinedLine(printed: seq<string>, words: seq<string>)
    requires Prints(printed, words)
    ensures Lex(Join(printed, " "), "", false) == Some(words)
    decreases |printed|
  {
    if printed != [] {
      PrintsRest(printed, words);
      if |printed| == 1 {
        LexLast(printed[0], words[0]);
        assert words == [words[0]];
      } else {
        JoinedLine(printed[1..], words[1..]);
        LexNext(printed[0], words[0], Join(printed[1..], " "), words[1..]);
      }
    }
  }

  lemma Push(printed: seq<string>, words: seq<string>, more: seq<string>, moreWords: seq<string>)
    requires Prints(printed, words) && Prints(more, moreWords)
    ensures Prints(printed + more, words + moreWords)
  {
    var p, w := printed + more, words + moreWords;
    forall i | 0 <= i < |w| ensures PrintsOne(p[i], w[i]) {
      if i < |words| {
        assert p[i] == printed[i] && w[i] == words[i];
      } else {
        assert p[i] == more[i - |words|] && w[i] == moreWords[i - |words|];
      }
    }
  }

  lemma NumberCharIsOrdinary(c: char)
    requires '0' <= c <= '9' || c in "+-.eNaInfity"
    ensures !Special(c)
  {
  }

  lemma NumbersAreOrdinary(n: NumberText)
    ensures n != "" && Ordinary(n)
  {
    forall i | 0 <= i < |n| ensures !Special(n[i]) {
      NumberCharIsOrdinary(n[i]);
    }
  }

  lemma LettersAreOrdinary(text: string)
    requires text != "" && forall i | 0 <= i < |text| :: 'a' <= text[i] <= 'z' || text[i] == '-'
    ensures PrintsOne(text, text)
  {
  }

  lemma OneOpt(o: Opt)
    ensures OptTokens([o]) == if o.Pair? then ["--" + o.name, o.value] else ["--" + o.name]
  {
    assert [o][1..] == [];
  }

  lemma {:induction false} OptTokensConcat(a: seq<Opt>, b: seq<Opt>)
    ensures OptTokens(a + b) == OptTokens(a) + OptTokens(b)
  {
    if a == [] {
      assert a + b == b;
    } else {
      assert (a + b)[1..] == a[1..] + b;
      OptTokensConcat(a[1..], b);
    }
  }

  /** One optional part of the command line, whatever branch produced it. */
  ghost predicate PrintsOpt(printed: seq<string>, options: seq<Opt>) {
    Prints(printed, OptTokens(options))
  }

  lemma PairPrints(name: string, printed: string, value: string)
    requires PrintsOne(printed, value)
    requires forall i | 0 <= i < |name| :: 'a' <= name[i] <= 'z' || name[i] == '-'
    ensures PrintsOpt(["--" + name, printed], [Pair(name, value)])
  {
    OneOpt(Pair(name, value));
    LettersAreOrdinary("--" + name);
  }

  method ScopeArgs(target: Target) returns (args: seq<string>)
    ensures PrintsOpt(args, ScopeOpt(target))
  {
    args := [];
    if Truthy(target.session) {
      args := args + ["--" + "session", QuoteArgument(target.session.value)];
      PairPrints("session", args[1], target.session.value);
    } else if Truthy(target.worktree) {
      args := args + ["--" + "worktree", QuoteArgument(target.worktree.value)];
      PairPrints("worktree", args[1], target.worktree.value);
    }
  }

  lemma NumberPrints(name: string, n: NumberText)
    requires forall i | 0 <= i < |name| :: 'a' <= name[i] <= 'z' || name[i] == '-'
    ensures PrintsOpt(["--" + name, n], [Pair(name, n)])
  {
    NumbersAreOrdinary(n);
    PairPrints(name, n, n);
  }

  method WindowOrIndex(id: Option<NumberText>, index: Option<NumberText>) returns (args: seq<string>)
    ensures PrintsOpt(args, WindowOf(id, index))
  {
    args := [];
    if id.Some? {
      args := ["--" + "window-id", id.value];
      NumberPrints("window-id", id.value);
    } else if index.Some? {
      args := ["--" + "window-index", index.value];
      NumberPrints("window-index", index.value);
    }
  }

  method WindowArgs(result: ActionResult, target: Target) returns (args: seq<string>)
    ensures PrintsOpt(args, WindowOpt(result, target))
  {
    var windowChanged := WindowChanged(result);
    if !windowChanged && (target.windowId.Some? || target.windowIndex.Some?) {
      args := WindowOrIndex(target.windowId, target.windowIndex);
    } else {
      var acted := result.action.Some?;
      var windowId := OrElse(if acted then result.action.value.targetWindowId else None, result.windowId);
      var windowIndex := OrElse(if acted then result.action.value.targetWindowIndex else None, result.windowIndex);
      args := WindowOrIndex(windowId, windowIndex);
    }
  }

  lemma CommandParts(result: ActionResult, target: Target)
    ensures CommandWords(result, target)
         == ["orca", "computer", "get-app-state"] + OptTokens([Pair("app", AppOf(result))])
            + OptTokens(ScopeOpt(target)) + OptTokens(WindowOpt(result, target)) + OptTokens(RestoreOpt(target))
  {
    OptTokensConcat([Pair("app", AppOf(result))],
                    ScopeOpt(target) + (WindowOpt(result, target) + RestoreOpt(target)));
    OptTokensConcat(ScopeOpt(target), WindowOpt(result, target) + RestoreOpt(target));
    OptTokensConcat(WindowOpt(result, target), RestoreOpt(target));
  }

  /** The shell reads the printed line as exactly the intended words. */
  method FormatFollowUpCommand(result: ActionResult, target: Target) returns (line: string)
    ensures Lex(line, "", false) == Some(CommandWords(result, target))
  {
    var args := ["orca", "computer", "get-app-state"];
    ghost var words := args;
    forall i | 0 <= i < 3 ensures PrintsOne(args[i], words[i]) {
      LettersAreOrdinary(args[i]);
    }
    var app := ["--" + "app", QuoteArgument(AppOf(result))];
    PairPrints("app", app[1], AppOf(result));
    Push(args, words, app, OptTokens([Pair("app", AppOf(result))]));
    args, words := args + app, words + OptTokens([Pair("app", AppOf(result))]);
    var scope := ScopeArgs(target);
    Push(args, words, scope, OptTokens(ScopeOpt(target)));
    args, words := args + scope, words + OptTokens(ScopeOpt(target));
    var window := WindowArgs(result, target);
    Push(args, words, window, OptTokens(WindowOpt(result, target)));
    args, words := args + window, words + OptTokens(WindowOpt(result, target));
    if target.restoreWindow {
      LettersAreOrdinary("--" + "restore-window");
      OneOpt(Switch("restore-window"));
      Push(args, words, ["--" + "restore-window"], OptTokens(RestoreOpt(target)));
      args, words := args + ["--" + "restore-window"], words + OptTokens(RestoreOpt(target));
    } else {
      assert words + OptTokens(RestoreOpt(target)) == words;
    }
    CommandParts(result, target);
    JoinedLine(args, words);
    line := Join(args, " ");
  }

  // ----- parsing it again -----

  /** How the parser takes one option token: as `name=value`, or as a bare flag. */
  function BareFlag(flags: Flags, token: string): Flags
    requires IsFlag(token)
  {
    var a := Assignment(token);
    var i := IndexOf(a, '=');
    if i < |a| then SetFlagValue(flags, a[..i], a[i + 1..]) else flags[a := Present]
  }

  /** What the parser makes of one option; a value that looks like a flag is not taken as a value. */
  function TakeOpt(flags: Flags, o: Opt): Flags {
    match o
    case Switch(name) => flags[name := Present]
    case Pair(name, value) =>
      if IsFlag(value) then BareFlag(flags[name := Present], value) else flags[name := Text(value)]
  }

  function TakeOpts(flags: Flags, options: seq<Opt>): Flags
    decreases options
  {
    if options == [] then flags else TakeOpts(TakeOpt(flags, options[0]), options[1..])
  }

  predicate KnownOpt(o: Opt) {
    '=' !in o.name && o.name != "label" && (o.Pair? <==> !IsBooleanName(o.name))
  }

  lemma {:induction false} ParseOptions(before: seq<string>, options: seq<Opt>, paths: seq<Path>, parsed: ParsedArgs)
    requires parsed.path != [] && forall o | o in options :: KnownOpt(o)
    ensures ParseFrom(before + OptTokens(options), paths, |before|, parsed)
         == parsed.(flags := TakeOpts(parsed.flags, options))
    decreases options
  {
    if options != [] {
      var o, rest := options[0], options[1..];
      assert options == [o] + rest;
      var argv := before + OptTokens(options);
      var at := OptionTokens(before, o, rest);
      ReadOption(argv, paths, |before|, parsed, o);
      ParseOptions(before + OptTokens([o]), rest, paths, parsed.(flags := TakeOpt(parsed.flags, o)));
    }
  }

  /** Where the tokens of the first option stand, and that no word follows them. */
  lemma OptionTokens(before: seq<string>, o: Opt, rest: seq<Opt>) returns (i: nat)
    ensures i == |before|
    ensures var argv := before + OptTokens([o] + rest);
            && i + Count(o) <= |argv| && argv[i] == "--" + o.name && (o.Pair? ==> argv[i + 1] == o.value)
            && !WordAt(argv, i + Count(o))
            && argv == (before + OptTokens([o])) + OptTokens(rest)
            && |before + OptTokens([o])| == i + Count(o)
  {
    i := |before|;
    OneOpt(o);
    OptTokensConcat([o], rest);
    if rest != [] {
      NextIsFlag(rest);
    }
  }

  lemma NextIsFlag(options: seq<Opt>)
    requires options != []
    ensures OptTokens(options) != [] && IsFlag(OptTokens(options)[0])
  {
  }

  function Count(o: Opt): nat {
    if o.Pair? then 2 else 1
  }

  lemma ReadOption(argv: seq<string>, paths: seq<Path>, i: nat, parsed: ParsedArgs, o: Opt)
    requires parsed.path != [] && KnownOpt(o)
    requires i + Count(o) <= |argv| && argv[i] == "--" + o.name && (o.Pair? ==> argv[i + 1] == o.value)
    requires !WordAt(argv, i + Count(o))
    ensures ParseFrom(argv, paths, i, parsed)
         == ParseFrom(argv, paths, i + Count(o), parsed.(flags := TakeOpt(parsed.flags, o)))
  {
    if o.Switch? || IsFlag(o.value) {
      ReadBare(argv, paths, i, parsed, o.name);
      if o.Pair? {
        ReadFlagToken(argv, paths, i + 1, parsed.(flags := parsed.flags[o.name := Present]));
      }
    } else {
      ReadValue(argv, paths, i, parsed, o.name);
    }
  }

  lemma ReadBare(argv: seq<string>, paths: seq<Path>, i: nat, parsed: ParsedArgs, name: string)
    requires parsed.path != [] && i < |argv| && argv[i] == "--" + name && '=' !in name
    requires IsBooleanName(name) || !WordAt(argv, i + 1)
    ensures ParseFrom(argv, paths, i, parsed)
         == ParseFrom(argv, paths, i + 1, parsed.(flags := parsed.flags[name := Present]))
  {
  }

  lemma ReadFlagToken(argv: seq<string>, paths: seq<Path>, i: nat, parsed: ParsedArgs)
    requires parsed.path != [] && i < |argv| && IsFlag(argv[i]) && !WordAt(argv, i + 1)
    ensures ParseFrom(argv, paths, i, parsed)
         == ParseFrom(argv, paths, i + 1, parsed.(flags := BareFlag(parsed.flags, argv[i])))
  {
  }

  lemma ReadValue(argv: seq<string>, paths: seq<Path>, i: nat, parsed: ParsedArgs, name: string)
    requires parsed.path != [] && WordAt(argv, i + 1) && argv[i] == "--" + name
    requires '=' !in name && !IsBooleanName(name) && name != "label"
    ensures ParseFrom(argv, paths, i, parsed)
         == ParseFrom(argv, paths, i + 2, parsed.(flags := parsed.flags[name := Text(argv[i + 1])]))
  {
  }

  // ----- what comes out -----

  /** No option says something about a name that an earlier one did. */
  predicate Distinct(options: seq<Opt>) {
    forall i, j | 0 <= i < j < |options| :: options[i].name != options[j].name
  }

  predicate GoodValues(options: seq<Opt>) {
    forall o | o in options && o.Pair? :: !IsFlag(o.value)
  }

  lemma {:induction false} TakeGoodOpts(flags: Flags, options: seq<Opt>)
    requires Distinct(options) && GoodValues(options)
    ensures TakeOpts(flags, options) == flags + Intended(options)
    decreases options
  {
    if options != [] {
      var o := options[0];
      assert forall p | p in options[1..] :: p in options;
      TakeGoodOpts(TakeOpt(flags, o), options[1..]);
      IntendedNames(options[1..], o.name);
    }
  }

  lemma {:induction false} IntendedNames(options: seq<Opt>, name: string)
    requires forall o | o in options :: o.name != name
    ensures name !in Intended(options)
  {
    if options != [] {
      IntendedNames(options[1..], name);
    }
  }

  /** A value that looks like a flag never ends up as the value of its own option. */
  lemma BadValueIsLost(flags: Flags, o: Opt)
    requires o.Pair? && IsFlag(o.value) && o.name != "label"
    ensures o.name in TakeOpt(flags, o) && TakeOpt(flags, o)[o.name] != Text(o.value)
  {
    var a := Assignment(o.value);
    var i := IndexOf(a, '=');
    if i < |a| && a[..i] == o.name {
      assert |a[i + 1..]| < |o.value|;
    }
  }

  /** Later good options leave it lost. */
  lemma {:induction false} TakeOthers(flags: Flags, options: seq<Opt>, name: string)
    requires GoodValues(options) && forall o | o in options :: o.name != name
    ensures name in flags <==> name in TakeOpts(flags, options)
    ensures name in flags ==> TakeOpts(flags, options)[name] == flags[name]
    decreases options
  {
    if options != [] {
      assert forall p | p in options[1..] :: p in options;
      TakeOthers(TakeOpt(flags, options[0]), options[1..], name);
    }
  }

  lemma {:induction false} TakeBadOpts(flags: Flags, options: seq<Opt>) returns (o: Opt)
    requires Distinct(options) && !GoodValues(options) && forall o | o in options :: KnownOpt(o)
    ensures o in options && o.Pair?
    ensures o.name in TakeOpts(flags, options) && TakeOpts(flags, options)[o.name] != Text(o.value)
    decreases options
  {
    o := options[0];
    var rest := options[1..];
    assert options == [o] + rest;
    var after := TakeOpt(flags, o);
    if GoodValues(rest) {
      BadValueIsLost(flags, o);
      TakeOthers(after, rest, o.name);
    } else {
      o := TakeBadOpts(after, rest);
    }
  }

  lemma {:induction false} IntendedValue(options: seq<Opt>, o: Opt)
    requires Distinct(options) && o in options && o.Pair?
    ensures o.name in Intended(options) && Intended(options)[o.name] == Text(o.value)
  {
    if options[0] != o {
      var i :| 0 <= i < |options| && options[i] == o;
      assert options[1..][i - 1] == o;
      IntendedValue(options[1..], o);
    }
  }

  lemma ValueNames(name: string)
    requires name in {"app", "session", "worktree", "window-id", "window-index"}
    ensures '=' !in name && !IsBooleanName(name) && name != "label"
  {
  }

  /** Which part of the command an option name belongs to. */
  function Slot(name: string): int {
    if name == "app" then 0
    else if name == "session" || name == "worktree" then 1
    else if name == "window-id" || name == "window-index" then 2
    else 3
  }

  predicate InSlot(options: seq<Opt>, slot: int) {
    |options| <= 1 && forall o | o in options :: KnownOpt(o) && Slot(o.name) == slot
  }

  lemma SlotsAreKnown(result: ActionResult, target: Target)
    ensures InSlot(ScopeOpt(target), 1) && InSlot(WindowOpt(result, target), 2) && InSlot(RestoreOpt(target), 3)
    ensures InSlot([Pair("app", AppOf(result))], 0)
  {
    ValueNames("app");
    ValueNames("session");
    ValueNames("worktree");
    ValueNames("window-id");
    ValueNames("window-index");
  }

  lemma OptionsAreKnown(result: ActionResult, target: Target)
    ensures Distinct(Options(result, target))
    ensures forall o | o in Options(result, target) :: KnownOpt(o)
  {
    SlotsAreKnown(result, target);
    SlotsAreDistinct([Pair("app", AppOf(result))], ScopeOpt(target), WindowOpt(result, target), RestoreOpt(target));
  }

  lemma SlotsAreDistinct(a: seq<Opt>, b: seq<Opt>, c: seq<Opt>, d: seq<Opt>)
    requires InSlot(a, 0) && InSlot(b, 1) && InSlot(c, 2) && InSlot(d, 3)
    ensures var options := a + (b + (c + d));
            Distinct(options) && forall o | o in options :: KnownOpt(o)
  {
    var options := a + (b + (c + d));
    forall i, j | 0 <= i < j < |options| ensures Slot(options[i].name) < Slot(options[j].name) {
      assert options[j] in b || options[j] in c || options[j] in d;
    }
  }

  /** The values the command passes on, whatever branch they come from. */
  function PassedValues(result: ActionResult, target: Target): seq<string> {
    [AppOf(result)] +
    if Truthy(target.session) then [target.session.value]
    else if Truthy(target.worktree) then [target.worktree.value]
    else []
  }

  /** Printed, split by the shell, and parsed, the follow-up command always names `computer get-app-state`,
      and it carries exactly the intended flags if and only if no app, session or worktree value starts
      with `--`. */
  lemma FollowUpRoundTrip(result: ActionResult, target: Target, paths: seq<Path>)
    ensures var argv := CommandWords(result, target)[1..];
            var parsed := Parse(argv, paths);
            && parsed.path == COMMAND && parsed.conflicts == []
            && (parsed.flags == Intended(Options(result, target))
                <==> forall v | v in PassedValues(result, target) :: !IsFlag(v))
  {
    var options := Options(result, target);
    var argv := CommandWords(result, target)[1..];
    assert argv == COMMAND + OptTokens(options);
    OptionsAreKnown(result, target);
    ParseOptions(COMMAND, options, paths, ParsedArgs(COMMAND, map[], []));
    ReadCommand(argv, paths);
    PassedAreOptions(result, target);
    if GoodValues(options) {
      TakeGoodOpts(map[], options);
      assert map[] + Intended(options) == Intended(options);
    } else {
      var o := TakeBadOpts(map[], options);
      IntendedValue(options, o);
    }
  }

  lemma ReadCommand(argv: seq<string>, paths: seq<Path>)
    requires COMMAND <= argv
    ensures Parse(argv, paths) == ParseFrom(argv, paths, 2, ParsedArgs(COMMAND, map[], []))
  {
    assert argv[0] == "computer" && argv[1] == "get-app-state";
    assert argv[0][0] == 'c' && argv[1][0] == 'g';
    assert [] + ["computer"] == ["computer"] && ["computer"] + ["get-app-state"] == COMMAND;
    assert Parse(argv, paths) == ParseFrom(argv, paths, 1, ParsedArgs(["computer"], map[], []));
  }

  lemma PassedAreOptions(result: ActionResult, target: Target)
    ensures GoodValues(Options(result, target)) <==> forall v | v in PassedValues(result, target) :: !IsFlag(v)
  {
  }

  function FlagOf(flags: Flags, name: string): Option<FlagValue> {
    if name in flags then Some(flags[name]) else None
  }

  function TextOf(text: Option<string>): Option<FlagValue> {
    if text.Some? then Some(Text(text.value)) else None
  }

  /** The first option that says something about a name decides. */
  lemma {:induction false} FlagOfConcat(a: seq<Opt>, b: seq<Opt>, name: string)
    ensures var first := FlagOf(Intended(a), name);
            FlagOf(Intended(a + b), name) == if first.Some? then first else FlagOf(Intended(b), name)
  {
    if a == [] {
      assert a + b == b;
    } else {
      assert (a + b)[1..] == a[1..] + b;
      FlagOfConcat(a[1..], b, name);
    }
  }

  /** At most one option: its flag, and no other. */
  lemma IntendedOne(options: seq<Opt>, name: string)
    requires |options| <= 1
    ensures FlagOf(Intended(options), name) ==
              if options == [] || options[0].name != name then None
              else Some(if options[0].Pair? then Text(options[0].value) else Present)
  {
  }

  lemma IntendedParts(result: ActionResult, target: Target, name: string)
    ensures var scope, window, restore := ScopeOpt(target), WindowOpt(result, target), RestoreOpt(target);
            FlagOf(Intended(Options(result, target)), name) ==
              if name == "app" then Some(Text(AppOf(result)))
              else if name == "session" || name == "worktree" then FlagOf(Intended(scope), name)
              else if name == "window-id" || name == "window-index" then FlagOf(Intended(window), name)
              else if name == "restore-window" then FlagOf(Intended(restore), name)
              else None
  {
    var scope, window, restore := ScopeOpt(target), WindowOpt(result, target), RestoreOpt(target);
    var app := [Pair("app", AppOf(result))];
    FlagOfConcat(app, scope + (window + restore), name);
    FlagOfConcat(scope, window + restore, name);
    FlagOfConcat(window, restore, name);
    IntendedOne(app, name);
    IntendedOne(scope, name);
    IntendedOne(window, name);
    IntendedOne(restore, name);
  }

  /** Which flags are intended. The app is the bundle id, or the name without one. A session that is not empty
      goes before a worktree that is not empty. The window is the target's, id before index, unless the action
      changed windows or the target names none; otherwise the action's or else the snapshot's id, and without
      one the action's or else the snapshot's index. */
  lemma IntendedIsExact(result: ActionResult, target: Target, name: string)
    ensures var flag := FlagOf(Intended(Options(result, target)), name);
            var action := result.action;
            var verified := if action.Some? then action.value.verification else None;
            var changed := verified.Some? && verified.value.state == "unverified"
                           && verified.value.reason == Some("window_changed");
            var kept := !changed && (target.windowId.Some? || target.windowIndex.Some?);
            var actedId := action.Some? && action.value.targetWindowId.Some?;
            var actedIndex := action.Some? && action.value.targetWindowIndex.Some?;
            var id := if kept then target.windowId
                      else if actedId then action.value.targetWindowId else result.windowId;
            var index := if kept then target.windowIndex
                         else if actedIndex then action.value.targetWindowIndex else result.windowIndex;
            var bySession := target.session.Some? && target.session.value != "";
            var byWorktree := !bySession && target.worktree.Some? && target.worktree.value != "";
            match name
            case "app" => flag == Some(Text(if result.bundleId.Some? then result.bundleId.value else result.appName))
            case "session" => flag == if bySession then TextOf(target.session) else None
            case "worktree" => flag == if byWorktree then TextOf(target.worktree) else None
            case "window-id" => flag == TextOf(id)
            case "window-index" => flag == if id.Some? then None else TextOf(index)
            case "restore-window" => flag == if target.restoreWindow then Some(Present) else None
            case _ => flag == None
  {
    IntendedParts(result, target, name);
    IntendedOne(ScopeOpt(target), name);
    IntendedOne(WindowOpt(result, target), name);
    IntendedOne(RestoreOpt(target), name);
  }
}
