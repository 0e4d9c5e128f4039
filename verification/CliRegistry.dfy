/** Command specs, the canonical form of a parsed command line, and the handler table.

The main result is that a command line which passes validation after canonicalisation always has a
handler, so the dispatcher's own unknown-command branch cannot be reached.
 */
module CliRegistry {
  import opened CliText
  import opened CliArgs

  datatype CommandSpec = CommandSpec(
    path: Path,
    aliases: Option<seq<Path>>,
    passthrough: bool,
    destructive: bool,
    allowedFlags: seq<string>,
    positionalArgs: seq<string>)

  function SpecPaths(spec: CommandSpec): (paths: seq<Path>)
    ensures spec.path in paths
  {
    [spec.path] + if spec.aliases.Some? then spec.aliases.value else []
  }

  // ----- canonical form -----

  /** `base` is a path of `spec`, and what follows it fits the spec's positional arguments. */
  predicate Captures(spec: CommandSpec, base: Path, path: Path) {
    |base| <= |path| <= |base| + |spec.positionalArgs| && base <= path
  }

  /** Specs without positionals or aliases have nothing to canonicalise. */
  predicate Skipped(spec: CommandSpec) {
    spec.positionalArgs == [] && spec.aliases.None?
  }

  /** The values that follow the base, under their positional names; an explicit flag wins. */
  function BindPositionals(flags: Flags, names: seq<string>, values: seq<string>): Flags
    requires |values| <= |names|
    decreases values
  {
    if values == [] then flags
    else
      BindPositionals(if names[0] in flags then flags else flags[names[0] := Text(values[0])], names[1..], values[1..])
  }

  function Conflicts(flags: Flags, names: seq<string>): seq<string> {
    if names == [] then []
    else (if names[0] in flags then [names[0]] else []) + Conflicts(flags, names[1..])
  }

  function Canonical(spec: CommandSpec, base: Path, parsed: ParsedArgs): ParsedArgs
    requires Captures(spec, base, parsed.path)
  {
    var values := parsed.path[|base|..];
    ParsedArgs(
      spec.path,
      BindPositionals(parsed.flags, spec.positionalArgs, values),
      Conflicts(parsed.flags, spec.positionalArgs[..|values|]))
  }

  /** The first path of the list that captures `path`. */
  function FirstBase(spec: CommandSpec, bases: seq<Path>, path: Path): Option<Path> {
    if bases == [] then None
    else if Captures(spec, bases[0], path) then Some(bases[0])
    else FirstBase(spec, bases[1..], path)
  }

  lemma {:induction false} FirstBaseCaptures(spec: CommandSpec, bases: seq<Path>, path: Path)
    ensures match FirstBase(spec, bases, path)
            case None => forall base | base in bases :: !Captures(spec, base, path)
            case Some(base) => base in bases && Captures(spec, base, path)
  {
    if bases != [] {
      FirstBaseCaptures(spec, bases[1..], path);
    }
  }

  function Normalize(specs: seq<CommandSpec>, parsed: ParsedArgs): ParsedArgs {
    if specs == [] then parsed
    else
      var spec := specs[0];
      if Skipped(spec) then Normalize(specs[1..], parsed)
      else
        match FirstBase(spec, SpecPaths(spec), parsed.path)
        case None => Normalize(specs[1..], parsed)
        case Some(base) => FirstBaseCaptures(spec, SpecPaths(spec), parsed.path); Canonical(spec, base, parsed)
  }

  method NormalizeCommandPositionals(specs: seq<CommandSpec>, parsed: ParsedArgs) returns (r: ParsedArgs)
    ensures r == Normalize(specs, parsed)
  {
    for k := 0 to |specs|
      invariant Normalize(specs[k..], parsed) == Normalize(specs, parsed)
    {
      var spec := specs[k];
      assert specs[k..][1..] == specs[k + 1..];
      if |spec.positionalArgs| == 0 && spec.aliases.None? {
        continue;
      }
      var bases := SpecPaths(spec);
      for b := 0 to |bases|
        invariant FirstBase(spec, bases[b..], parsed.path) == FirstBase(spec, bases, parsed.path)
      {
        var base := bases[b];
        assert bases[b..][1..] == bases[b + 1..];
        var positionalCount := |parsed.path| - |base|;
        if positionalCount < 0 || positionalCount > |spec.positionalArgs| {
          continue;
        }
        if parsed.path[..|base|] != base {
          continue;
        }
        r := BindValues(spec, base, parsed);
        return;
      }
      assert bases[|bases|..] == [];
    }
    assert specs[|specs|..] == [];
    return parsed;
  }

  method BindValues(spec: CommandSpec, base: Path, parsed: ParsedArgs) returns (r: ParsedArgs)
    requires Captures(spec, base, parsed.path)
    ensures r == Canonical(spec, base, parsed)
  {
    var flags := parsed.flags;
    var values := parsed.path[|base|..];
    var provided := spec.positionalArgs[..|values|];
    for i := 0 to |values|
      invariant BindPositionals(flags, spec.positionalArgs[i..], values[i..])
             == BindPositionals(parsed.flags, spec.positionalArgs, values)
    {
      assert values[i..][1..] == values[i + 1..];
      assert spec.positionalArgs[i..][1..] == spec.positionalArgs[i + 1..];
      var name := spec.positionalArgs[i];
      if name !in flags {
        flags := flags[name := Text(values[i])];
      }
    }
    return ParsedArgs(spec.path, flags, Conflicts(parsed.flags, provided));
  }

  /** The bound flags are the given ones, unchanged, and the positional names that have a value. */
  lemma {:induction false} BoundFlags(flags: Flags, names: seq<string>, values: seq<string>)
    requires |values| <= |names|
    ensures var bound := BindPositionals(flags, names, values);
            && (forall name :: name in bound <==> name in flags || name in names[..|values|])
            && (forall name | name in flags :: name in bound && bound[name] == flags[name])
    decreases values
  {
    if values != [] {
      BoundFlags(if names[0] in flags then flags else flags[names[0] := Text(values[0])], names[1..], values[1..]);
      assert names[..|values|] == [names[0]] + names[1..][..|values[1..]|];
    }
  }

  /** A positional name is bound to its value unless a flag or an earlier value has it. */
  lemma {:induction false} BoundValue(flags: Flags, names: seq<string>, values: seq<string>, i: nat)
    requires i < |values| <= |names| && names[i] !in flags && names[i] !in names[..i]
    ensures var bound := BindPositionals(flags, names, values);
            names[i] in bound && bound[names[i]] == Text(values[i])
    decreases values
  {
    var flags' := if names[0] in flags then flags else flags[names[0] := Text(values[0])];
    if i == 0 {
      BoundFlags(flags', names[1..], values[1..]);
    } else {
      BoundValue(flags', names[1..], values[1..], i - 1);
    }
  }

  lemma {:induction false} NoConflicts(flags: Flags, names: seq<string>)
    ensures Conflicts(flags, names) == [] <==> forall i | 0 <= i < |names| :: names[i] !in flags
  {
    if names != [] {
      NoConflicts(flags, names[1..]);
      assert forall i | 1 <= i < |names| :: names[i] == names[1..][i - 1];
    }
  }

  /** Canonicalising without conflicts loses nothing: every word after the base becomes the value of its
      positional flag, and every other flag keeps what it was. */
  lemma NothingIsLost(spec: CommandSpec, base: Path, parsed: ParsedArgs)
    requires Captures(spec, base, parsed.path)
    requires forall i, j | 0 <= i < j < |spec.positionalArgs| :: spec.positionalArgs[i] != spec.positionalArgs[j]
    requires Canonical(spec, base, parsed).conflicts == []
    ensures var r := Canonical(spec, base, parsed);
            var names := spec.positionalArgs[..|parsed.path| - |base|];
            && (forall i | 0 <= i < |names| ::
                  names[i] in r.flags && r.flags[names[i]] == Text(parsed.path[|base| + i]))
            && (forall name | name !in names ::
                  && (name in r.flags <==> name in parsed.flags)
                  && (name in r.flags ==> r.flags[name] == parsed.flags[name]))
  {
    var values := parsed.path[|base|..];
    NoConflicts(parsed.flags, spec.positionalArgs[..|values|]);
    var names := spec.positionalArgs;
    BoundFlags(parsed.flags, names, values);
    forall i | 0 <= i < |values|
      ensures names[i] in Canonical(spec, base, parsed).flags
      ensures Canonical(spec, base, parsed).flags[names[i]] == Text(parsed.path[|base| + i])
    {
      assert names[..|values|][i] == names[i];
      BoundValue(parsed.flags, names, values, i);
    }
  }

  // ----- validation -----

  predicate SpecMatches(spec: CommandSpec, path: Path) {
    path in SpecPaths(spec)
  }

  function FindCommandSpec(specs: seq<CommandSpec>, path: Path): (r: Option<CommandSpec>)
    ensures match r
            case None => forall spec | spec in specs :: !SpecMatches(spec, path)
            case Some(spec) => spec in specs && SpecMatches(spec, path)
  {
    if specs == [] then None
    else if SpecMatches(specs[0], path) then Some(specs[0])
    else FindCommandSpec(specs[1..], path)
  }

  const GLOBAL_FLAGS := ["help", "json", "pairing-code", "environment"]
  const GLOBAL_VALUE_FLAGS: set<string> := {"pairing-code", "environment"}

  const PAGELESS_GROUPS: set<string> := {
    "automations", "project", "repo", "worktree", "terminal", "file", "orchestration", "computer", "emulator", "note",
    "diagnostics", "linear", "skills", "agent-context"
  }
  const PAGELESS_COMMANDS: set<string> := {
    "tab list", "tab create", "tab current", "tab profile list", "tab profile create", "tab profile delete"
  }

  predicate SupportsBrowserPageFlag(path: Path) {
    && (path == [] || (path[0] != "open" && path[0] != "status" && path[0] !in PAGELESS_GROUPS))
    && Join(path, " ") !in PAGELESS_COMMANDS
  }

  predicate MissingValue(flag: string, value: FlagValue) {
    flag in GLOBAL_VALUE_FLAGS && (value.Present? || value.text == "")
  }

  predicate FlagAllowed(spec: CommandSpec, flag: string) {
    flag in GLOBAL_FLAGS || flag in spec.allowedFlags || (flag == "page" && SupportsBrowserPageFlag(spec.path))
  }

  datatype Verdict = Accepted(spec: CommandSpec) | UnknownCommand | PositionalConflict | BadFlag

  function Validate(specs: seq<CommandSpec>, parsed: ParsedArgs): Verdict {
    match FindCommandSpec(specs, parsed.path)
    case None => UnknownCommand
    case Some(spec) =>
      if parsed.conflicts != [] then PositionalConflict
      else if exists flag | flag in parsed.flags ::
                MissingValue(flag, parsed.flags[flag]) || !FlagAllowed(spec, flag) then BadFlag
      else Accepted(spec)
  }

  function EffectiveAllowedFlags(spec: CommandSpec): set<string> {
    if spec.passthrough then {}
    else
      (set f | f in GLOBAL_FLAGS) + (set f | f in spec.allowedFlags) +
      (if SupportsBrowserPageFlag(spec.path) then {"page"} else {})
  }

  /** Validation and agent discovery agree on a command's flags, except that passthrough commands list
      none and still accept the global ones. */
  lemma DiscoveryMatchesValidation(spec: CommandSpec)
    ensures (forall flag :: FlagAllowed(spec, flag) <==> flag in EffectiveAllowedFlags(spec)) <==> !spec.passthrough
  {
    assert GLOBAL_FLAGS[0] == "help";
    assert FlagAllowed(spec, "help");
  }

  // ----- handlers -----

  type Handlers = map<string, nat>
  type Group = seq<(string, nat)>
  datatype Table = Table(handlers: Handlers) | Duplicate(key: string)

  function Entries(groups: seq<Group>): seq<(string, nat)> {
    if groups == [] then [] else groups[0] + Entries(groups[1..])
  }

  ghost predicate DistinctKeys(entries: seq<(string, nat)>) {
    forall i, j | 0 <= i < j < |entries| :: entries[i].0 != entries[j].0
  }

  /** `table` holds exactly the entries. */
  ghost predicate Holds(table: Handlers, entries: seq<(string, nat)>) {
    && (forall e | e in entries :: e.0 in table && table[e.0] == e.1)
    && (forall key | key in table :: (key, table[key]) in entries)
  }

  /** The table is right for the entries done so far, none of which clash. */
  ghost predicate Registered(table: Handlers, done: seq<(string, nat)>) {
    DistinctKeys(done) && Holds(table, done)
  }

  ghost predicate HasDuplicate(all: seq<(string, nat)>, key: string) {
    exists i, j | 0 <= i < j < |all| :: all[i].0 == all[j].0 == key
  }

  lemma AlreadyRegistered(table: Handlers, done: seq<(string, nat)>, e: (string, nat), all: seq<(string, nat)>)
    requires Registered(table, done) && e.0 in table && done + [e] <= all
    ensures HasDuplicate(all, e.0)
  {
    assert (e.0, table[e.0]) in done;
    var i :| 0 <= i < |done| && done[i] == (e.0, table[e.0]);
    assert (done + [e])[i] == all[i] && (done + [e])[|done|] == all[|done|];
  }

  lemma {:induction false} EntriesUpTo(groups: seq<Group>, g: nat)
    requires g < |groups|
    ensures Entries(groups[..g + 1]) == Entries(groups[..g]) + groups[g]
    ensures Entries(groups[..g + 1]) <= Entries(groups)
  {
    if g == 0 {
      assert groups[..1][0] == groups[0] && Entries(groups[..1][1..]) == [];
    } else {
      EntriesUpTo(groups[1..], g - 1);
      assert groups[..g + 1][1..] == groups[1..][..g] && groups[..g][1..] == groups[1..][..g - 1];
    }
  }

  method RegisterGroup(table: Handlers, group: Group, ghost done: seq<(string, nat)>) returns (r: Table)
    requires Registered(table, done)
    ensures r.Table? ==> Registered(r.handlers, done + group)
    ensures r.Duplicate? ==> HasDuplicate(done + group, r.key)
  {
    var handlers := table;
    assert done + group[..0] == done;
    for k := 0 to |group|
      invariant Registered(handlers, done + group[..k])
    {
      var (key, handler) := group[k];
      assert (done + group[..k]) + [group[k]] == done + group[..k + 1] <= done + group;
      if key in handlers {
        AlreadyRegistered(handlers, done + group[..k], group[k], done + group);
        return Duplicate(key);
      }
      handlers := handlers[key := handler];
    }
    assert group[..|group|] == group;
    return Table(handlers);
  }

  /** The table is built exactly when no key is registered twice, and then it holds every entry. */
  method BuildHandlers(groups: seq<Group>) returns (r: Table)
    ensures r.Table? ==> DistinctKeys(Entries(groups)) && Holds(r.handlers, Entries(groups))
    ensures r.Duplicate? ==> HasDuplicate(Entries(groups), r.key) && !DistinctKeys(Entries(groups))
  {
    var table: Handlers := map[];
    for g := 0 to |groups|
      invariant Registered(table, Entries(groups[..g]))
    {
      EntriesUpTo(groups, g);
      r := RegisterGroup(table, groups[g], Entries(groups[..g]));
      if r.Duplicate? {
        return;
      }
      table := r.handlers;
    }
    assert groups[..|groups|] == groups;
    return Table(table);
  }

  function Dispatch(handlers: Handlers, path: Path): Option<nat> {
    if Join(path, " ") in handlers then Some(handlers[Join(path, " ")]) else None
  }

  datatype Gaps = Gaps(handlersWithoutSpec: set<string>, specsWithoutHandler: set<string>)

  function FindRegistryParityGaps(specs: seq<CommandSpec>, handlerKeys: set<string>): Gaps {
    var canonical := set spec | spec in specs :: Join(spec.path, " ");
    Gaps(handlerKeys - canonical, canonical - handlerKeys)
  }

  // ----- main result -----

  /** After canonicalisation, a path some spec answers to is some spec's own path, aliases included. */
  lemma {:induction false} NormalizedIsCanonical(specs: seq<CommandSpec>, parsed: ParsedArgs)
    ensures var path := Normalize(specs, parsed).path;
            (exists spec :: spec in specs && SpecMatches(spec, path)) ==>
            (exists spec :: spec in specs && spec.path == path)
  {
    NormalizeCases(specs, parsed);
  }

  /** Either some spec captured the command line, or no spec with aliases answers to it. */
  lemma {:induction false} NormalizeCases(specs: seq<CommandSpec>, parsed: ParsedArgs)
    ensures var r := Normalize(specs, parsed);
            (exists spec :: spec in specs && spec.path == r.path) ||
            (r == parsed && forall spec | spec in specs && spec.aliases.Some? :: !SpecMatches(spec, r.path))
  {
    if specs != [] {
      var spec, rest := specs[0], specs[1..];
      NormalizeCases(rest, parsed);
      FirstBaseCaptures(spec, SpecPaths(spec), parsed.path);
      var r := Normalize(specs, parsed);
      if !Skipped(spec) && FirstBase(spec, SpecPaths(spec), parsed.path).Some? {
        assert spec in specs && spec.path == r.path;
      } else if s :| s in rest && s.path == r.path {
        assert s in specs;
      } else {
        assert spec.aliases.Some? ==> !Captures(spec, parsed.path, parsed.path) || !SpecMatches(spec, parsed.path);
      }
    }
  }

  /** No command's own path is an alias of a command listed before it. */
  predicate NoAliasShadows(specs: seq<CommandSpec>) {
    forall i, j | 0 <= i < j < |specs| && SpecMatches(specs[i], specs[j].path) :: specs[i].path == specs[j].path
  }

  lemma {:induction false} FoundIsOwn(specs: seq<CommandSpec>, k: nat)
    requires NoAliasShadows(specs) && k < |specs|
    ensures var found := FindCommandSpec(specs, specs[k].path);
            found.Some? && found.value.path == specs[k].path
  {
    if k > 0 && !SpecMatches(specs[0], specs[k].path) {
      assert specs[1..][k - 1] == specs[k];
      forall i, j | 0 <= i < j < |specs[1..]| && SpecMatches(specs[1..][i], specs[1..][j].path)
        ensures specs[1..][i].path == specs[1..][j].path
      {
        assert specs[1..][i] == specs[i + 1] && specs[1..][j] == specs[j + 1];
      }
      FoundIsOwn(specs[1..], k - 1);
    }
  }

  /** The first spec that answers to `path` is another command's, which has it as an alias. */
  predicate Shadowed(specs: seq<CommandSpec>, path: Path) {
    specs != [] && if SpecMatches(specs[0], path) then specs[0].path != path else Shadowed(specs[1..], path)
  }

  lemma {:induction false} ShadowedIsFound(specs: seq<CommandSpec>, path: Path)
    ensures Shadowed(specs, path) <==>
              FindCommandSpec(specs, path).Some? && FindCommandSpec(specs, path).value.path != path
  {
    if specs != [] && !SpecMatches(specs[0], path) {
      ShadowedIsFound(specs[1..], path);
    }
  }

  /** The spec that canonicalises `path`, if any. */
  function CapturedBy(specs: seq<CommandSpec>, path: Path): Option<CommandSpec> {
    if specs == [] then None
    else if !Skipped(specs[0]) && FirstBase(specs[0], SpecPaths(specs[0]), path).Some? then Some(specs[0])
    else CapturedBy(specs[1..], path)
  }

  lemma {:induction false} NormalizedPath(specs: seq<CommandSpec>, parsed: ParsedArgs)
    ensures match CapturedBy(specs, parsed.path)
            case Some(spec) => Normalize(specs, parsed).path == spec.path
            case None => Normalize(specs, parsed) == parsed && !Shadowed(specs, parsed.path)
  {
    if specs != [] {
      FirstBaseCaptures(specs[0], SpecPaths(specs[0]), parsed.path);
      NormalizedPath(specs[1..], parsed);
      if CapturedBy(specs, parsed.path).None? && SpecMatches(specs[0], parsed.path) {
        assert specs[0].aliases.None?;
      }
    }
  }

  /** Every flag is allowed for `spec`, and the global ones that need a value have one. */
  predicate FlagsFit(spec: CommandSpec, flags: Flags) {
    forall flag | flag in flags :: FlagAllowed(spec, flag) && !MissingValue(flag, flags[flag])
  }

  /** So do the positional values, taken as values of their names. */
  predicate ValuesFit(spec: CommandSpec, names: seq<string>, values: seq<string>)
    requires |values| <= |names|
  {
    forall i | 0 <= i < |values| && names[i] !in names[..i] ::
      FlagAllowed(spec, names[i]) && !MissingValue(names[i], Text(values[i]))
  }

  lemma {:induction false} FirstOccurrence(names: seq<string>, name: string) returns (i: nat)
    requires name in names
    ensures i < |names| && names[i] == name && name !in names[..i]
  {
    if names[0] == name {
      i := 0;
    } else {
      i := FirstOccurrence(names[1..], name);
      i := i + 1;
      assert names[..i] == [names[0]] + names[1..][..i - 1];
    }
  }

  lemma BoundFit(spec: CommandSpec, flags: Flags, names: seq<string>, values: seq<string>)
    requires |values| <= |names| && forall i | 0 <= i < |values| :: names[i] !in flags
    ensures FlagsFit(spec, BindPositionals(flags, names, values))
       <==> FlagsFit(spec, flags) && ValuesFit(spec, names, values)
  {
    BoundFlags(flags, names, values);
    var bound := BindPositionals(flags, names, values);
    if FlagsFit(spec, flags) && ValuesFit(spec, names, values) {
      forall flag | flag in bound ensures FlagAllowed(spec, flag) && !MissingValue(flag, bound[flag]) {
        BoundOneFits(spec, flags, names, values, flag);
      }
    }
    if FlagsFit(spec, bound) {
      forall i | 0 <= i < |values| && names[i] !in names[..i]
        ensures FlagAllowed(spec, names[i]) && !MissingValue(names[i], Text(values[i]))
      {
        BoundValue(flags, names, values, i);
      }
    }
  }

  lemma BoundOneFits(spec: CommandSpec, flags: Flags, names: seq<string>, values: seq<string>, flag: string)
    requires |values| <= |names| && forall i | 0 <= i < |values| :: names[i] !in flags
    requires FlagsFit(spec, flags) && ValuesFit(spec, names, values)
    requires flag in BindPositionals(flags, names, values)
    ensures FlagAllowed(spec, flag) && !MissingValue(flag, BindPositionals(flags, names, values)[flag])
  {
    BoundFlags(flags, names, values);
    if flag !in flags {
      var i := FirstOccurrence(names[..|values|], flag);
      assert names[..|values|][..i] == names[..i];
      BoundValue(flags, names, values, i);
    }
  }

  /** Some command answers to `path` and accepts those flags and values. */
  predicate Fits(specs: seq<CommandSpec>, path: Path, flags: Flags, names: seq<string>, values: seq<string>)
    requires |values| <= |names|
  {
    var found := FindCommandSpec(specs, path);
    found.Some? && FlagsFit(found.value, flags) && ValuesFit(found.value, names, values)
  }

  /** What a command line must be to pass canonicalisation and validation, in terms of the line as it was
      parsed. If no spec captures it, some spec must answer to it and its flags must fit. Otherwise no value
      may be given both ways, and its flags and its positional values alike must fit the command found. */
  lemma AcceptedIsExact(specs: seq<CommandSpec>, parsed: ParsedArgs)
    ensures Validate(specs, Normalize(specs, parsed)).Accepted? <==>
              match CapturedBy(specs, parsed.path)
              case None => parsed.conflicts == [] && Fits(specs, parsed.path, parsed.flags, [], [])
              case Some(spec) =>
                var base := FirstBase(spec, SpecPaths(spec), parsed.path);
                && base.Some? && Captures(spec, base.value, parsed.path)
                && var values := parsed.path[|base.value|..];
                   && (forall i | 0 <= i < |values| :: spec.positionalArgs[i] !in parsed.flags)
                   && Fits(specs, spec.path, parsed.flags, spec.positionalArgs, values)
  {
    NormalizedPath(specs, parsed);
    match CapturedBy(specs, parsed.path) {
      case None =>
      case Some(spec) =>
        var base := CapturedCanonical(specs, parsed);
        CanonicalFits(specs, spec, base, parsed);
    }
  }

  lemma {:induction false} CapturedCanonical(specs: seq<CommandSpec>, parsed: ParsedArgs) returns (base: Path)
    requires CapturedBy(specs, parsed.path).Some?
    ensures var spec := CapturedBy(specs, parsed.path).value;
            && FirstBase(spec, SpecPaths(spec), parsed.path) == Some(base) && Captures(spec, base, parsed.path)
            && Normalize(specs, parsed) == Canonical(spec, base, parsed)
  {
    FirstBaseCaptures(specs[0], SpecPaths(specs[0]), parsed.path);
    if !Skipped(specs[0]) && FirstBase(specs[0], SpecPaths(specs[0]), parsed.path).Some? {
      base := FirstBase(specs[0], SpecPaths(specs[0]), parsed.path).value;
    } else {
      base := CapturedCanonical(specs[1..], parsed);
    }
  }

  lemma CanonicalFits(specs: seq<CommandSpec>, spec: CommandSpec, base: Path, parsed: ParsedArgs)
    requires Captures(spec, base, parsed.path)
    ensures var r, values := Canonical(spec, base, parsed), parsed.path[|base|..];
            r.conflicts == [] && Fits(specs, r.path, r.flags, [], []) <==>
              && (forall i | 0 <= i < |values| :: spec.positionalArgs[i] !in parsed.flags)
              && Fits(specs, spec.path, parsed.flags, spec.positionalArgs, values)
  {
    var names, values := spec.positionalArgs, parsed.path[|base|..];
    NoConflicts(parsed.flags, names[..|values|]);
    assert forall i | 0 <= i < |values| :: names[..|values|][i] == names[i];
    if (forall i | 0 <= i < |values| :: names[i] !in parsed.flags) && FindCommandSpec(specs, spec.path).Some? {
      BoundFit(FindCommandSpec(specs, spec.path).value, parsed.flags, names, values);
    }
  }

  /** A command line is validated against another command than the one it is dispatched as, exactly when it
      is canonicalised to a command whose own path an earlier command has as an alias. */
  lemma ValidatedAgainstOther(specs: seq<CommandSpec>, parsed: ParsedArgs)
    ensures var r := Normalize(specs, parsed);
            var found, captured := FindCommandSpec(specs, r.path), CapturedBy(specs, parsed.path);
            (found.Some? && found.value.path != r.path) <==> captured.Some? && Shadowed(specs, captured.value.path)
  {
    NormalizedPath(specs, parsed);
    ShadowedIsFound(specs, Normalize(specs, parsed).path);
  }

  /** What is registered under a key: exactly the pairs of the groups. */
  lemma {:induction false} EntriesAreGroups(groups: seq<Group>, e: (string, nat))
    ensures e in Entries(groups) <==> exists group :: group in groups && e in group
  {
    if groups != [] {
      EntriesAreGroups(groups[1..], e);
      assert groups == [groups[0]] + groups[1..];
    }
  }

  /** The handler that runs is the one that a group lists under the words of the path, and none runs exactly
      when no group lists them. */
  lemma DispatchIsRegistered(groups: seq<Group>, handlers: Handlers, path: Path, h: nat)
    requires DistinctKeys(Entries(groups)) && Holds(handlers, Entries(groups))
    ensures Dispatch(handlers, path) == Some(h) <==>
              exists group :: group in groups && (Join(path, " "), h) in group
    ensures Dispatch(handlers, path) == None <==>
              forall group, e | group in groups && e in group :: e.0 != Join(path, " ")
  {
    var key := Join(path, " ");
    EntriesAreGroups(groups, (key, h));
    if key in handlers {
      EntriesAreGroups(groups, (key, handlers[key]));
    }
    forall group, e | group in groups && e in group ensures e in Entries(groups) {
      EntriesAreGroups(groups, e);
    }
  }

  /** The command's own path, or one of its aliases. */
  ghost predicate IsPathOf(spec: CommandSpec, path: Path) {
    path == spec.path || (spec.aliases.Some? && path in spec.aliases.value)
  }

  lemma AnswersTo(spec: CommandSpec, path: Path)
    ensures path in SpecPaths(spec) <==> IsPathOf(spec, path)
    ensures SpecMatches(spec, path) <==> IsPathOf(spec, path)
  {
  }

  ghost predicate IsFirst(specs: seq<CommandSpec>, path: Path, k: int) {
    0 <= k < |specs| && IsPathOf(specs[k], path) && forall j | 0 <= j < k :: !IsPathOf(specs[j], path)
  }

  /** The command that validation finds is the first one listed that has the path or an alias equal to it. */
  lemma {:induction false} FoundIsFirst(specs: seq<CommandSpec>, path: Path)
    ensures match FindCommandSpec(specs, path)
            case None => forall spec | spec in specs :: !IsPathOf(spec, path)
            case Some(spec) => exists k | IsFirst(specs, path, k) :: specs[k] == spec
  {
    if specs != [] {
      AnswersTo(specs[0], path);
      if SpecMatches(specs[0], path) {
        assert IsFirst(specs, path, 0);
      } else {
        FoundIsFirst(specs[1..], path);
        FirstBehind(specs, path);
      }
    }
  }

  lemma FirstBehind(specs: seq<CommandSpec>, path: Path)
    requires specs != [] && !IsPathOf(specs[0], path)
    ensures forall k | IsFirst(specs[1..], path, k) :: IsFirst(specs, path, k + 1) && specs[k + 1] == specs[1..][k]
  {
    assert forall j | 1 <= j < |specs| :: specs[j] == specs[1..][j - 1];
  }

  /** Every command's own words are registered by some group. */
  ghost predicate EachRegistered(specs: seq<CommandSpec>, groups: seq<Group>) {
    forall spec | spec in specs :: exists group, h :: group in groups && (Join(spec.path, " "), h) in group
  }

  /** The parity check finds no gap exactly when every command is registered and every registered key is a
      command's own words. */
  lemma ParityIsExact(specs: seq<CommandSpec>, groups: seq<Group>, handlers: Handlers)
    requires Holds(handlers, Entries(groups))
    ensures var gaps := FindRegistryParityGaps(specs, handlers.Keys);
            && (gaps.specsWithoutHandler == {} <==> EachRegistered(specs, groups))
            && (gaps.handlersWithoutSpec == {} <==>
                  forall group, e | group in groups && e in group ::
                    exists spec :: spec in specs && e.0 == Join(spec.path, " "))
  {
    var gaps := FindRegistryParityGaps(specs, handlers.Keys);
    forall group, e | group in groups && e in group ensures e in Entries(groups) && e.0 in handlers {
      EntriesAreGroups(groups, e);
    }
    forall key | key in handlers
      ensures exists group :: group in groups && (key, handlers[key]) in group
    {
      EntriesAreGroups(groups, (key, handlers[key]));
    }
    if gaps.specsWithoutHandler == {} {
      forall spec | spec in specs ensures exists group, h :: group in groups && (Join(spec.path, " "), h) in group {
        assert Join(spec.path, " ") !in gaps.specsWithoutHandler;
      }
    }
    if gaps.handlersWithoutSpec == {} {
      forall group, e | group in groups && e in group
        ensures exists spec :: spec in specs && e.0 == Join(spec.path, " ")
      {
        assert e.0 !in gaps.handlersWithoutSpec;
      }
    }
  }

  /** If every command is registered, whatever argv says, a command line that passes validation runs what the
      groups list under the own path of some command, and nothing else is listed there: the dispatcher never
      reports an unknown command. Where no alias shadows a later command, that command is the very one the
      flags were validated against. */
  lemma ValidatedIsDispatched(
      specs: seq<CommandSpec>, groups: seq<Group>, handlers: Handlers, argv: seq<string>, paths: seq<Path>)
    requires DistinctKeys(Entries(groups)) && Holds(handlers, Entries(groups))
    requires EachRegistered(specs, groups)
    ensures var parsed := Normalize(specs, Parse(argv, paths));
            Validate(specs, parsed).Accepted? ==>
              exists spec, group, h ::
                && spec in specs && group in groups && (Join(spec.path, " "), h) in group
                && Dispatch(handlers, parsed.path) == Some(h)
                && (forall other, e | other in groups && e in other && e.0 == Join(spec.path, " ") :: e.1 == h)
                && (NoAliasShadows(specs) ==> Validate(specs, parsed).spec.path == spec.path)
  {
    var parsed := Normalize(specs, Parse(argv, paths));
    if Validate(specs, parsed).Accepted? {
      var k := AcceptedIsOwn(specs, Parse(argv, paths));
      var spec := specs[k];
      var group, h :| group in groups && (Join(spec.path, " "), h) in group;
      DispatchIsRegistered(groups, handlers, spec.path, h);
      OnlyOneListed(groups, handlers, spec.path, h);
    }
  }

  lemma AcceptedIsOwn(specs: seq<CommandSpec>, parsed: ParsedArgs) returns (k: nat)
    requires Validate(specs, Normalize(specs, parsed)).Accepted?
    ensures var r := Normalize(specs, parsed);
            k < |specs| && specs[k].path == r.path && (NoAliasShadows(specs) ==> Validate(specs, r).spec.path == r.path)
  {
    var path := Normalize(specs, parsed).path;
    NormalizedIsCanonical(specs, parsed);
    assert SpecMatches(FindCommandSpec(specs, path).value, path);
    k :| 0 <= k < |specs| && specs[k].path == path;
    if NoAliasShadows(specs) {
      FoundIsOwn(specs, k);
    }
  }

  /** The command's own path, then its aliases. */
  function Base(spec: CommandSpec, b: nat): Path
    requires b == 0 || (spec.aliases.Some? && b <= |spec.aliases.value|)
  {
    if b == 0 then spec.path else spec.aliases.value[b - 1]
  }

  /** The `b`-th path of `spec` starts `path`, and no more words follow than `spec` has positional names. */
  ghost predicate Takes(spec: CommandSpec, b: int, path: Path) {
    && (b == 0 || (spec.aliases.Some? && 0 < b <= |spec.aliases.value|))
    && (spec.aliases.Some? || spec.positionalArgs != [])
    && Base(spec, b) <= path && |path| - |Base(spec, b)| <= |spec.positionalArgs|
  }

  ghost predicate TakenFirst(specs: seq<CommandSpec>, k: int, b: int, path: Path) {
    && 0 <= k < |specs| && Takes(specs[k], b, path)
    && (forall c | c < b :: !Takes(specs[k], c, path))
    && (forall j, c | 0 <= j < k :: !Takes(specs[j], c, path))
  }

  /** The words after the path go to the positional names in order: a name that neither a flag nor an earlier
      word has gets its word, a name that a flag has is a conflict, and nothing else changes. */
  ghost predicate Bound(spec: CommandSpec, base: Path, parsed: ParsedArgs, r: ParsedArgs)
    requires base <= parsed.path && |parsed.path| - |base| <= |spec.positionalArgs|
  {
    var values := parsed.path[|base|..];
    var names := spec.positionalArgs[..|values|];
    && r.path == spec.path
    && BothGiven(parsed.flags, names, r.conflicts)
    && BoundTo(parsed.flags, names, values, r.flags)
  }

  /** The conflicts are the names that a flag has too. */
  ghost predicate BothGiven(flags: Flags, names: seq<string>, conflicts: seq<string>) {
    forall name :: name in conflicts <==> name in names && name in flags
  }

  /** `bound` is `flags` and the values of the names that were free. */
  ghost predicate BoundTo(flags: Flags, names: seq<string>, values: seq<string>, bound: Flags) {
    && |names| == |values|
    && (forall name :: name in bound <==> name in names || name in flags)
    && (forall name | name in flags :: bound[name] == flags[name])
    && (forall i | 0 <= i < |names| && names[i] !in flags && names[i] !in names[..i] ::
          bound[names[i]] == Text(values[i]))
  }

  /** What a command line becomes: the first command with a path that takes it, and its first such path, bind
      its words; if there is none, nothing changes. */
  lemma NormalizeIsExact(specs: seq<CommandSpec>, parsed: ParsedArgs)
    ensures var r := Normalize(specs, parsed);
            if exists spec, b :: spec in specs && Takes(spec, b, parsed.path) then
              exists k, b :: TakenFirst(specs, k, b, parsed.path) && Bound(specs[k], Base(specs[k], b), parsed, r)
            else r == parsed
  {
    var k, b := TakerFound(specs, parsed);
    if k < |specs| {
      BoundIsCanonical(specs[k], Base(specs[k], b), parsed);
    }
  }

  lemma {:induction false} TakerFound(specs: seq<CommandSpec>, parsed: ParsedArgs) returns (k: nat, b: nat)
    ensures k <= |specs|
    ensures if k < |specs| then
              && TakenFirst(specs, k, b, parsed.path) && Captures(specs[k], Base(specs[k], b), parsed.path)
              && Normalize(specs, parsed) == Canonical(specs[k], Base(specs[k], b), parsed)
            else
              && (forall spec, c :: spec in specs ==> !Takes(spec, c, parsed.path))
              && Normalize(specs, parsed) == parsed
  {
    k, b := 0, 0;
    if specs != [] {
      b := FirstBaseIsFirst(specs[0], parsed.path);
      if Skipped(specs[0]) || FirstBase(specs[0], SpecPaths(specs[0]), parsed.path).None? {
        k, b := TakerFound(specs[1..], parsed);
        k := k + 1;
        assert forall j | 1 <= j < |specs| :: specs[j] == specs[1..][j - 1];
      }
    }
  }

  lemma FirstBaseIsFirst(spec: CommandSpec, path: Path) returns (b: nat)
    ensures if Skipped(spec) || FirstBase(spec, SpecPaths(spec), path).None? then
              forall c :: !Takes(spec, c, path)
            else
              && Takes(spec, b, path) && FirstBase(spec, SpecPaths(spec), path) == Some(Base(spec, b))
              && (forall c | c < b :: !Takes(spec, c, path))
  {
    b := FirstIndex(spec, SpecPaths(spec), path);
    forall c | Takes(spec, c, path) ensures SpecPaths(spec)[c] == Base(spec, c) {
    }
    if b < |SpecPaths(spec)| && !Skipped(spec) {
      assert SpecPaths(spec)[b] == Base(spec, b);
    }
  }

  lemma {:induction false} FirstIndex(spec: CommandSpec, bases: seq<Path>, path: Path) returns (b: nat)
    ensures b <= |bases| && forall c | 0 <= c < b :: !Captures(spec, bases[c], path)
    ensures FirstBase(spec, bases, path) == if b < |bases| then Some(bases[b]) else None
    ensures b < |bases| ==> Captures(spec, bases[b], path)
  {
    b := 0;
    if bases != [] && !Captures(spec, bases[0], path) {
      b := FirstIndex(spec, bases[1..], path);
      b := b + 1;
      assert forall c | 1 <= c < |bases| :: bases[c] == bases[1..][c - 1];
    }
  }

  lemma BoundIsCanonical(spec: CommandSpec, base: Path, parsed: ParsedArgs)
    requires Captures(spec, base, parsed.path)
    ensures Bound(spec, base, parsed, Canonical(spec, base, parsed))
  {
    var values := parsed.path[|base|..];
    BoundValues(parsed.flags, spec.positionalArgs, values);
    ConflictsAre(parsed.flags, spec.positionalArgs[..|values|]);
  }

  lemma BoundValues(flags: Flags, names: seq<string>, values: seq<string>)
    requires |values| <= |names|
    ensures BoundTo(flags, names[..|values|], values, BindPositionals(flags, names, values))
  {
    var given := names[..|values|];
    BoundFlags(flags, names, values);
    forall i | 0 <= i < |values| && given[i] !in flags && given[i] !in given[..i]
      ensures BindPositionals(flags, names, values)[given[i]] == Text(values[i])
    {
      assert given[..i] == names[..i];
      BoundValue(flags, names, values, i);
    }
  }

  lemma {:induction false} ConflictsAre(flags: Flags, names: seq<string>)
    ensures BothGiven(flags, names, Conflicts(flags, names))
  {
    if names != [] {
      ConflictsAre(flags, names[1..]);
    }
  }

  /** Validation is this, and the command found is the first that answers to the path (FoundIsFirst). */
  lemma VerdictIsExact(specs: seq<CommandSpec>, parsed: ParsedArgs)
    ensures var found := FindCommandSpec(specs, parsed.path);
            match Validate(specs, parsed)
            case UnknownCommand => found.None?
            case PositionalConflict => found.Some? && parsed.conflicts != []
            case Accepted(spec) =>
              && found == Some(spec) && parsed.conflicts == []
              && forall flag | flag in parsed.flags :: AllowedWith(spec, flag, parsed.flags[flag])
            case BadFlag =>
              && found.Some? && parsed.conflicts == []
              && exists flag | flag in parsed.flags :: !AllowedWith(found.value, flag, parsed.flags[flag])
  {
    if found :| FindCommandSpec(specs, parsed.path) == Some(found) {
      forall flag | flag in parsed.flags
        ensures AllowedWith(found, flag, parsed.flags[flag]) <==>
                  FlagAllowed(found, flag) && !MissingValue(flag, parsed.flags[flag])
      {
        assert flag in GLOBAL_FLAGS <==> flag in ["help", "json", "pairing-code", "environment"];
      }
    }
  }

  /** A global flag, one of the command's own, or `page` where the command supports it; the two global flags
      that need a value have one that is not empty. */
  ghost predicate AllowedWith(spec: CommandSpec, flag: string, value: FlagValue) {
    if flag == "pairing-code" || flag == "environment" then value.Text? && value.text != ""
    else
      || flag == "help" || flag == "json" || flag in spec.allowedFlags
      || (flag == "page" && SupportsBrowserPageFlag(spec.path))
  }

  // ----- the whole line -----

  datatype Outcome =
    | Shim
    | Help(topic: Path)
    | Refused(verdict: Verdict)
    | NoHandler
    | Ran(handler: nat, parsed: ParsedArgs)

  const TMUX_SHIM := "agent-teams-tmux"
  const CLAUDE_SHIM := "claude-teams"
  const HELP_WORD := "help"

  function ResolveHelpPath(parsed: ParsedArgs): Option<Path> {
    if parsed.path != [] && parsed.path[0] == HELP_WORD then Some(parsed.path[1..])
    else if HELP_WORD in parsed.flags then Some(parsed.path)
    else None
  }

  /** Every path of every command, in order. */
  function CommandPaths(specs: seq<CommandSpec>): seq<Path> {
    if specs == [] then [] else SpecPaths(specs[0]) + CommandPaths(specs[1..])
  }

  /** One invocation, from argv to the handler. A handler runs exactly when the line is no shim, asks for no
      help, passes validation, and a group lists its words; it is the only one listed under them, and it gets
      the path and the flags that were validated. If every command is registered, no accepted line is left
      without a handler. */
  method RunLine(specs: seq<CommandSpec>, ghost groups: seq<Group>, handlers: Handlers, argv: seq<string>)
      returns (outcome: Outcome)
    requires DistinctKeys(Entries(groups)) && Holds(handlers, Entries(groups))
    ensures outcome.Shim? <==> argv != [] && (argv[0] == "agent-teams-tmux" || argv[0] == "claude-teams")
    ensures var parsed := Normalize(specs, Parse(argv, CommandPaths(specs)));
            !outcome.Shim? ==>
              && (outcome.Help? <==> parsed.path == [] || parsed.path[0] == "help" || "help" in parsed.flags)
              && (outcome.Help? ==>
                    var askedAs := parsed.path != [] && parsed.path[0] == "help";
                    outcome.topic == if askedAs then parsed.path[1..] else parsed.path)
              && (outcome.Refused? <==> !outcome.Help? && !Validate(specs, parsed).Accepted?)
              && (outcome.NoHandler? <==>
                    && !outcome.Help? && !outcome.Refused?
                    && forall group, e | group in groups && e in group :: e.0 != Join(parsed.path, " "))
    ensures EachRegistered(specs, groups) ==> !outcome.NoHandler?
    ensures outcome.Ran? ==>
              && outcome.parsed == Normalize(specs, Parse(argv, CommandPaths(specs)))
              && (exists spec :: spec in specs && spec.path == outcome.parsed.path)
              && (exists group :: group in groups && (Join(outcome.parsed.path, " "), outcome.handler) in group)
              && (forall group, e | group in groups && e in group && e.0 == Join(outcome.parsed.path, " ") ::
                    e.1 == outcome.handler)
  {
    if |argv| > 0 && (argv[0] == TMUX_SHIM || argv[0] == CLAUDE_SHIM) {
      return Shim;
    }
    var parsed := ParseArgs(argv, CommandPaths(specs));
    parsed := NormalizeCommandPositionals(specs, parsed);
    var helpPath := ResolveHelpPath(parsed);
    if helpPath.Some? {
      return Help(helpPath.value);
    }
    if |parsed.path| == 0 {
      return Help([]);
    }
    var verdict := Validate(specs, parsed);
    if !verdict.Accepted? {
      return Refused(verdict);
    }
    var handler := Dispatch(handlers, parsed.path);
    ghost var k := AcceptedIsOwn(specs, Parse(argv, CommandPaths(specs)));
    if handler.None? {
      DispatchIsRegistered(groups, handlers, parsed.path, 0);
      return NoHandler;
    }
    OnlyOneListed(groups, handlers, parsed.path, handler.value);
    return Ran(handler.value, parsed);
  }

  lemma OnlyOneListed(groups: seq<Group>, handlers: Handlers, path: Path, h: nat)
    requires DistinctKeys(Entries(groups)) && Holds(handlers, Entries(groups))
    requires Dispatch(handlers, path) == Some(h)
    ensures exists group :: group in groups && (Join(path, " "), h) in group
    ensures forall group, e | group in groups && e in group && e.0 == Join(path, " ") :: e.1 == h
  {
    DispatchIsRegistered(groups, handlers, path, h);
    forall group, e | group in groups && e in group && e.0 == Join(path, " ") ensures e.1 == h {
      DispatchIsRegistered(groups, handlers, path, e.1);
      assert e == (Join(path, " "), e.1);
    }
  }

  /** With an alias in the way it can be another spec: `second` has the alias `other`, and its own path is an
      alias of `first`. The line `other --flag` is dispatched as `second`, but its flag is one that only
      `first` allows. */
  lemma AliasCanShadow(first: CommandSpec, second: CommandSpec, path: Path, other: Path, flag: string)
    requires first == CommandSpec(first.path, Some([path]), false, false, [flag], [])
    requires second == CommandSpec(path, Some([other]), false, false, [], [])
    requires path != other && other != first.path && path != first.path
    requires flag !in GLOBAL_FLAGS && flag != "page"
    ensures var specs := [first, second];
            var r := Normalize(specs, ParsedArgs(other, map[flag := Present], []));
            && r.path == second.path
            && Validate(specs, r) == Accepted(first)
            && !FlagAllowed(second, flag)
  {
    var specs := [first, second];
    var parsed := ParsedArgs(other, map[flag := Present], []);
    NotCaptured(first, path, other);
    assert specs[1..] == [second];
    CapturedByAlias(second, other, parsed);
    assert Normalize(specs, parsed) == ParsedArgs(path, parsed.flags, []);
    assert SpecMatches(first, path);
  }

  lemma CapturedByAlias(spec: CommandSpec, alias: Path, parsed: ParsedArgs)
    requires spec.aliases == Some([alias]) && spec.positionalArgs == [] && spec.path != alias
    requires parsed.path == alias
    ensures Normalize([spec], parsed) == ParsedArgs(spec.path, parsed.flags, [])
  {
    assert SpecPaths(spec) == [spec.path, alias] && [spec.path, alias][1..] == [alias];
    assert Captures(spec, alias, alias) && !Captures(spec, spec.path, alias);
    assert FirstBase(spec, [alias], alias) == Some(alias);
    assert FirstBase(spec, SpecPaths(spec), alias) == Some(alias);
    assert alias[|alias|..] == [] && spec.positionalArgs[..0] == [];
    assert Canonical(spec, alias, parsed) == ParsedArgs(spec.path, parsed.flags, []);
  }

  lemma NotCaptured(spec: CommandSpec, alias: Path, path: Path)
    requires spec.aliases == Some([alias]) && spec.positionalArgs == [] && path != alias && path != spec.path
    ensures FirstBase(spec, SpecPaths(spec), path).None?
  {
    FirstBaseCaptures(spec, SpecPaths(spec), path);
    assert SpecPaths(spec) == [spec.path, alias];
  }
}
