/** What the parser makes of words, `--name=value` tokens and known switches in any order, and how the
repeatable flag `label` is read back. */
module CliFlags {
  import opened CliText
  import opened CliArgs

  // ----- reading flags back -----

  function GetOptionalStringFlag(flags: Flags, name: string): Option<string> {
    if name in flags && flags[name].Text? && flags[name].text != "" then Some(flags[name].text) else None
  }

  function NonEmpty(parts: seq<string>): seq<string> {
    if parts == [] then []
    else (if parts[0] == "" then [] else [parts[0]]) + NonEmpty(parts[1..])
  }

  function GetRepeatedStringFlag(flags: Flags, name: string): seq<string> {
    match GetOptionalStringFlag(flags, name)
    case None => []
    case Some(text) => NonEmpty(Split(text, REPEATED_FLAG_SEPARATOR))
  }

  // ----- an argv as a list of items -----

  /** `Spaced` is `--name value` in two tokens, `Bare` a value flag that gets none. */
  datatype Item =
    | Word(word: string)
    | Assign(name: string, value: string)
    | Switch(name: string)
    | Spaced(name: string, value: string)
    | Bare(name: string)
  {
    predicate Valid() {
      match this
      case Word(word) => !IsFlag(word)
      case Assign(name, _) => '=' !in name
      case Switch(name) => IsBooleanName(name)
      case Spaced(name, value) => '=' !in name && !IsBooleanName(name) && !IsFlag(value)
      case Bare(name) => '=' !in name && !IsBooleanName(name)
    }

    function Tokens(): (tokens: seq<string>)
      ensures tokens != []
    {
      match this
      case Word(word) => [word]
      case Assign(name, value) => ["--" + name + "=" + value]
      case Switch(name) => ["--" + name]
      case Spaced(name, value) => ["--" + name, value]
      case Bare(name) => ["--" + name]
    }
  }

  predicate AllValid(items: seq<Item>) {
    forall item | item in items :: item.Valid()
  }

  function Tokens(items: seq<Item>): seq<string> {
    if items == [] then [] else items[0].Tokens() + Tokens(items[1..])
  }

  /** The command word of one item, if it is one. */
  function WordIn(item: Item): seq<string> {
    if item.Word? then [item.word] else []
  }

  function Words(items: seq<Item>): seq<string> {
    if items == [] then [] else WordIn(items[0]) + Words(items[1..])
  }

  /** The value one item gives to `name`, in either form, if it gives one. */
  function ValueIn(item: Item, name: string): seq<string> {
    if (item.Assign? || item.Spaced?) && item.name == name then [item.value] else []
  }

  /** The values given to `name`, in order. */
  function ValuesOf(items: seq<Item>, name: string): seq<string> {
    if items == [] then [] else ValueIn(items[0], name) + ValuesOf(items[1..], name)
  }

  /** The items after the last `--name` that got no value. */
  function SinceBare(items: seq<Item>, name: string): seq<Item> {
    if items == [] then []
    else if items[|items| - 1] == Bare(name) then []
    else SinceBare(items[..|items| - 1], name) + [items[|items| - 1]]
  }

  lemma {:induction false} NoneBare(items: seq<Item>, name: string)
    requires Bare(name) !in items
    ensures SinceBare(items, name) == items
    decreases |items|
  {
    if items != [] {
      NoneBare(items[..|items| - 1], name);
    }
  }

  /** What the last item about `name` says, if there is one. */
  function LastOf(items: seq<Item>, name: string): Option<FlagValue> {
    if items == [] then None
    else
      var item, before := items[|items| - 1], items[..|items| - 1];
      match item
      case Assign(n, value) => if n == name then Some(Text(value)) else LastOf(before, name)
      case Spaced(n, value) => if n == name then Some(Text(value)) else LastOf(before, name)
      case Switch(n) => if n == name then Some(Present) else LastOf(before, name)
      case Bare(n) => if n == name then Some(Present) else LastOf(before, name)
      case Word(_) => LastOf(before, name)
  }

  function FlagAfter(flags: Flags, item: Item): Flags {
    match item
    case Word(_) => flags
    case Assign(name, value) => SetFlagValue(flags, name, value)
    case Spaced(name, value) => SetFlagValue(flags, name, value)
    case Switch(name) => flags[name := Present]
    case Bare(name) => flags[name := Present]
  }

  function FlagsAfter(flags: Flags, items: seq<Item>): Flags
    decreases items
  {
    if items == [] then flags else FlagsAfter(FlagAfter(flags, items[0]), items[1..])
  }

  // ----- the parser reads every item for what it is -----

  lemma SwitchNames(name: string)
    requires IsBooleanName(name)
    ensures '=' !in name && name != "label"
  {
  }

  lemma AssignToken(name: string, value: string)
    requires '=' !in name
    ensures var token := "--" + name + "=" + value;
            && IsFlag(token) && HasEquals(token)
            && var a := Assignment(token);
               var i := IndexOf(a, '=');
               i < |a| && a[..i] == name && a[i + 1..] == value
  {
    var token := "--" + name + "=" + value;
    assert token[2..] == name + ['='] + value;
    IndexInFront(name, '=', value);
  }

  ghost function After(parsed: ParsedArgs, item: Item): ParsedArgs {
    parsed.(path := parsed.path + WordIn(item), flags := FlagAfter(parsed.flags, item))
  }

  ghost function AllAfter(parsed: ParsedArgs, items: seq<Item>): ParsedArgs
    decreases items
  {
    if items == [] then parsed else AllAfter(After(parsed, items[0]), items[1..])
  }

  lemma {:induction false} AllAfterIs(parsed: ParsedArgs, items: seq<Item>)
    ensures AllAfter(parsed, items)
         == ParsedArgs(parsed.path + Words(items), FlagsAfter(parsed.flags, items), parsed.conflicts)
    decreases items
  {
    if items == [] {
      assert parsed.path + [] == parsed.path;
    } else {
      AllAfterIs(After(parsed, items[0]), items[1..]);
      CliText.Regroup(parsed.path, WordIn(items[0]), Words(items[1..]));
    }
  }

  /** Before any word, a value flag that stands directly before a command is kept from taking its first word. */
  predicate CommandNext(argv: seq<string>, paths: seq<Path>, i: nat, afterWord: bool) {
    !afterWord && StartsAny(argv, i + 1, paths) && !StartsAny(argv, i + 2, paths)
  }

  predicate TokensAt(argv: seq<string>, i: nat, tokens: seq<string>) {
    i + |tokens| <= |argv| && forall k | 0 <= k < |tokens| :: argv[i + k] == tokens[k]
  }

  /** The tokens of `item` stand at `i`, and what follows lets them be read as that item. */
  predicate StandsAt(argv: seq<string>, paths: seq<Path>, i: nat, item: Item, afterWord: bool) {
    && TokensAt(argv, i, item.Tokens())
    && (item.Spaced? ==> !CommandNext(argv, paths, i, afterWord))
    && (item.Bare? ==> CommandNext(argv, paths, i, afterWord) || !WordAt(argv, i + 1))
  }

  type Fits = (nat, Item, bool) -> bool

  /** Which items can be read where. */
  function FitsIn(argv: seq<string>, paths: seq<Path>): Fits {
    (i: nat, item: Item, afterWord: bool) => item.Valid() && StandsAt(argv, paths, i, item, afterWord)
  }

  /** The items stand one after the other from `i` to `end`, each where it fits. */
  predicate Follow(fits: Fits, end: nat, i: nat, items: seq<Item>, afterWord: bool)
    decreases items
  {
    if items == [] then i == end
    else
      && fits(i, items[0], afterWord)
      && Follow(fits, end, i + |items[0].Tokens()|, items[1..], afterWord || items[0].Word?)
  }

  /** From `i` on, `argv` is these items. */
  predicate ReadAs(argv: seq<string>, paths: seq<Path>, i: nat, items: seq<Item>, afterWord: bool) {
    Follow(FitsIn(argv, paths), |argv|, i, items, afterWord)
  }

  lemma ReadWord(argv: seq<string>, paths: seq<Path>, i: nat, parsed: ParsedArgs)
    requires WordAt(argv, i)
    ensures ParseFrom(argv, paths, i, parsed)
         == ParseFrom(argv, paths, i + 1, parsed.(path := parsed.path + [argv[i]]))
  {
  }

  lemma ReadAssign(argv: seq<string>, paths: seq<Path>, i: nat, parsed: ParsedArgs, name: string, value: string)
    requires i < |argv| && '=' !in name && argv[i] == "--" + name + "=" + value
    ensures ParseFrom(argv, paths, i, parsed)
         == ParseFrom(argv, paths, i + 1, parsed.(flags := SetFlagValue(parsed.flags, name, value)))
  {
    AssignToken(name, value);
    assert !TakesValue(argv[i]);
  }

  lemma ReadPresent(argv: seq<string>, paths: seq<Path>, i: nat, parsed: ParsedArgs, name: string)
    requires i < |argv| && '=' !in name && argv[i] == "--" + name
    requires IsBooleanName(name) || CommandNext(argv, paths, i, parsed.path != []) || !WordAt(argv, i + 1)
    ensures ParseFrom(argv, paths, i, parsed)
         == ParseFrom(argv, paths, i + 1, parsed.(flags := parsed.flags[name := Present]))
  {
    FlagTokens(name);
  }

  /** The next token becomes the value, kept beside earlier ones where the flag is repeatable. */
  lemma ReadSpaced(argv: seq<string>, paths: seq<Path>, i: nat, parsed: ParsedArgs, name: string)
    requires '=' !in name && !IsBooleanName(name) && !CommandNext(argv, paths, i, parsed.path != [])
    requires WordAt(argv, i + 1) && argv[i] == "--" + name
    ensures ParseFrom(argv, paths, i, parsed)
         == ParseFrom(argv, paths, i + 2, parsed.(flags := SetFlagValue(parsed.flags, name, argv[i + 1])))
  {
    FlagTokens(name);
  }

  lemma ReadWordItem(argv: seq<string>, paths: seq<Path>, i: nat, parsed: ParsedArgs, item: Item)
    requires item.Valid() && StandsAt(argv, paths, i, item, parsed.path != []) && item.Word?
    ensures ParseFrom(argv, paths, i, parsed) == ParseFrom(argv, paths, i + 1, After(parsed, item))
  {
    assert argv[i + 0] == item.Tokens()[0];
    ReadWord(argv, paths, i, parsed);
  }

  lemma AfterFlag(parsed: ParsedArgs, item: Item)
    requires !item.Word?
    ensures After(parsed, item) == parsed.(flags := FlagAfter(parsed.flags, item))
  {
    assert parsed.path + [] == parsed.path;
  }

  lemma ReadFlagItem(argv: seq<string>, paths: seq<Path>, i: nat, parsed: ParsedArgs, item: Item)
    requires item.Valid() && StandsAt(argv, paths, i, item, parsed.path != []) && !item.Word? && !item.Spaced?
    ensures ParseFrom(argv, paths, i, parsed) == ParseFrom(argv, paths, i + 1, After(parsed, item))
  {
    AfterFlag(parsed, item);
    assert argv[i + 0] == item.Tokens()[0];
    if item.Assign? {
      ReadAssign(argv, paths, i, parsed, item.name, item.value);
    } else {
      if item.Switch? {
        SwitchNames(item.name);
      }
      ReadPresent(argv, paths, i, parsed, item.name);
    }
  }

  lemma ReadSpacedItem(argv: seq<string>, paths: seq<Path>, i: nat, parsed: ParsedArgs, item: Item)
    requires item.Valid() && StandsAt(argv, paths, i, item, parsed.path != []) && item.Spaced?
    ensures ParseFrom(argv, paths, i, parsed) == ParseFrom(argv, paths, i + 2, After(parsed, item))
  {
    AfterFlag(parsed, item);
    assert argv[i + 0] == item.Tokens()[0] && argv[i + 1] == item.Tokens()[1];
    ReadSpaced(argv, paths, i, parsed, item.name);
  }

  /** The parser's step over one item. */
  lemma ReadItem(argv: seq<string>, paths: seq<Path>, i: nat, parsed: ParsedArgs, item: Item)
    requires item.Valid() && StandsAt(argv, paths, i, item, parsed.path != [])
    ensures ParseFrom(argv, paths, i, parsed) == ParseFrom(argv, paths, i + |item.Tokens()|, After(parsed, item))
  {
    if item.Word? {
      ReadWordItem(argv, paths, i, parsed, item);
    } else if item.Spaced? {
      ReadSpacedItem(argv, paths, i, parsed, item);
    } else {
      ReadFlagItem(argv, paths, i, parsed, item);
    }
  }

  type Parser = (nat, ParsedArgs) -> ParsedArgs

  /** The parser takes the item for what it is. */
  ghost predicate TakesItem(parser: Parser, fits: Fits, i: nat, parsed: ParsedArgs, item: Item) {
    fits(i, item, parsed.path != []) ==> parser(i, parsed) == parser(i + |item.Tokens()|, After(parsed, item))
  }

  lemma AfterHasWord(parsed: ParsedArgs, item: Item)
    ensures After(parsed, item).path != [] <==> parsed.path != [] || item.Word?
  {
  }

  lemma {:induction false} TakesAll(parser: Parser, fits: Fits, end: nat, i: nat, items: seq<Item>,
                                    parsed: ParsedArgs)
    requires forall j, p, item :: TakesItem(parser, fits, j, p, item)
    requires Follow(fits, end, i, items, parsed.path != [])
    ensures parser(i, parsed) == parser(end, AllAfter(parsed, items))
    decreases items
  {
    if items != [] {
      assert TakesItem(parser, fits, i, parsed, items[0]);
      AfterHasWord(parsed, items[0]);
      TakesAll(parser, fits, end, i + |items[0].Tokens()|, items[1..], After(parsed, items[0]));
    }
  }

  lemma ParserTakesItem(parser: Parser, argv: seq<string>, paths: seq<Path>, i: nat, parsed: ParsedArgs, item: Item)
    requires forall j, p :: parser(j, p) == ParseFrom(argv, paths, j, p)
    ensures TakesItem(parser, FitsIn(argv, paths), i, parsed, item)
  {
    if FitsIn(argv, paths)(i, item, parsed.path != []) {
      ReadItem(argv, paths, i, parsed, item);
    }
  }

  lemma ParseItems(argv: seq<string>, paths: seq<Path>, i: nat, items: seq<Item>, parsed: ParsedArgs)
    requires ReadAs(argv, paths, i, items, parsed.path != [])
    ensures ParseFrom(argv, paths, i, parsed) == AllAfter(parsed, items)
  {
    var parser := (j: nat, p: ParsedArgs) => ParseFrom(argv, paths, j, p);
    forall j, p, item ensures TakesItem(parser, FitsIn(argv, paths), j, p, item) {
      ParserTakesItem(parser, argv, paths, j, p, item);
    }
    TakesAll(parser, FitsIn(argv, paths), |argv|, i, items, parsed);
  }

  // ----- a list of items as an argv -----

  /** Tokens that may be put one after the other: value flags without `=` come after a word, and no word
      follows one that gets no value. */
  predicate Readable(items: seq<Item>, afterWord: bool) {
    items == [] ||
    (&& ((items[0].Spaced? || items[0].Bare?) ==> afterWord)
     && (items[0].Bare? && |items| > 1 ==> !items[1].Word?)
     && Readable(items[1..], afterWord || items[0].Word?))
  }

  /** The tokens of the first of several items, behind others. */
  lemma FirstTokens(before: seq<string>, first: seq<string>, rest: seq<string>)
    ensures var argv := before + (first + rest);
            && TokensAt(argv, |before|, first)
            && argv == (before + first) + rest
            && (rest != [] ==> argv[|before| + |first|] == rest[0])
            && (rest == [] ==> |argv| == |before| + |first|)
  {
  }

  lemma TokensFirst(items: seq<Item>)
    requires items != []
    ensures Tokens(items) != [] && Tokens(items)[0] == items[0].Tokens()[0]
  {
  }

  lemma FirstStands(before: seq<string>, items: seq<Item>, paths: seq<Path>, afterWord: bool)
    requires items != [] && AllValid(items) && Readable(items, afterWord)
    ensures StandsAt(before + Tokens(items), paths, |before|, items[0], afterWord)
  {
    var item, rest := items[0], items[1..];
    FirstTokens(before, item.Tokens(), Tokens(rest));
    if item.Bare? && rest != [] {
      TokensFirst(rest);
      assert rest[0] in items;
      NoWordFirst(rest[0]);
    }
  }

  lemma NoWordFirst(item: Item)
    requires item.Valid() && !item.Word?
    ensures IsFlag(item.Tokens()[0])
  {
  }

  lemma FollowFirst(argv: seq<string>, paths: seq<Path>, i: nat, items: seq<Item>, afterWord: bool)
    requires items != [] && FitsIn(argv, paths)(i, items[0], afterWord)
    ensures ReadAs(argv, paths, i, items, afterWord)
       <==> ReadAs(argv, paths, i + |items[0].Tokens()|, items[1..], afterWord || items[0].Word?)
  {
  }

  lemma FirstFits(before: seq<string>, items: seq<Item>, paths: seq<Path>, afterWord: bool)
    requires items != [] && AllValid(items) && Readable(items, afterWord)
    ensures FitsIn(before + Tokens(items), paths)(|before|, items[0], afterWord)
  {
    FirstStands(before, items, paths, afterWord);
    assert items[0] in items;
  }

  /** The first item in front of others that are read behind it. */
  lemma FirstIsRead(before: seq<string>, items: seq<Item>, paths: seq<Path>, afterWord: bool)
    requires items != [] && AllValid(items) && Readable(items, afterWord)
    requires ReadAs(before + Tokens(items), paths, |before| + |items[0].Tokens()|, items[1..],
                    afterWord || items[0].Word?)
    ensures ReadAs(before + Tokens(items), paths, |before|, items, afterWord)
  {
    FirstFits(before, items, paths, afterWord);
    FollowFirst(before + Tokens(items), paths, |before|, items, afterWord);
  }

  lemma RestIsReadable(items: seq<Item>, afterWord: bool)
    requires items != [] && AllValid(items) && Readable(items, afterWord)
    ensures AllValid(items[1..]) && Readable(items[1..], afterWord || items[0].Word?)
  {
    assert forall other | other in items[1..] :: other in items;
  }

  lemma TokensBehind(before: seq<string>, items: seq<Item>)
    requires items != []
    ensures before + Tokens(items) == (before + items[0].Tokens()) + Tokens(items[1..])
  {
    FirstTokens(before, items[0].Tokens(), Tokens(items[1..]));
  }

  lemma {:induction false} ReadableIsRead(before: seq<string>, items: seq<Item>, paths: seq<Path>, afterWord: bool)
    requires AllValid(items) && Readable(items, afterWord)
    ensures ReadAs(before + Tokens(items), paths, |before|, items, afterWord)
    decreases items
  {
    if items == [] {
      assert before + [] == before;
    } else {
      RestIsReadable(items, afterWord);
      TokensBehind(before, items);
      ReadableIsRead(before + items[0].Tokens(), items[1..], paths, afterWord || items[0].Word?);
      FirstIsRead(before, items, paths, afterWord);
    }
  }

  // ----- every argv is such a list -----

  /** The item that starts at `i`. */
  function ItemAt(argv: seq<string>, paths: seq<Path>, i: nat, afterWord: bool): Item
    requires i < |argv|
  {
    if !IsFlag(argv[i]) then Word(argv[i])
    else
      var a := Assignment(argv[i]);
      var k := IndexOf(a, '=');
      if k < |a| then Assign(a[..k], a[k + 1..])
      else if IsBooleanName(a) then Switch(a)
      else if WordAt(argv, i + 1) && !CommandNext(argv, paths, i, afterWord) then Spaced(a, argv[i + 1])
      else Bare(a)
  }

  lemma Rejoined(token: string, k: nat)
    requires IsFlag(token) && k < |Assignment(token)| && Assignment(token)[k] == '='
    ensures token == "--" + Assignment(token)[..k] + "=" + Assignment(token)[k + 1..]
  {
    var a := Assignment(token);
    assert a == a[..k] + "=" + a[k + 1..];
    assert token == "--" + a;
  }

  lemma ItemStands(argv: seq<string>, paths: seq<Path>, i: nat, afterWord: bool)
    requires i < |argv|
    ensures var item := ItemAt(argv, paths, i, afterWord);
            item.Valid() && StandsAt(argv, paths, i, item, afterWord)
  {
    if IsFlag(argv[i]) {
      var a := Assignment(argv[i]);
      var k := IndexOf(a, '=');
      assert argv[i] == "--" + a;
      if k < |a| {
        Rejoined(argv[i], k);
      } else {
        assert a[..k] == a;
      }
    }
  }

  /** Nothing is missing from these items: every argv is a list of them. */
  lemma {:induction false} EveryArgvIsItems(argv: seq<string>, paths: seq<Path>, i: nat, afterWord: bool)
    returns (items: seq<Item>)
    requires i <= |argv|
    ensures ReadAs(argv, paths, i, items, afterWord)
    decreases |argv| - i
  {
    if i == |argv| {
      items := [];
    } else {
      var item := ItemAt(argv, paths, i, afterWord);
      ItemStands(argv, paths, i, afterWord);
      var rest := EveryArgvIsItems(argv, paths, i + |item.Tokens()|, afterWord || item.Word?);
      items := [item] + rest;
      assert items[1..] == rest;
    }
  }

  // ----- what ends up in the map -----

  lemma {:induction false} FlagsAfterSnoc(flags: Flags, items: seq<Item>, item: Item)
    ensures FlagsAfter(flags, items + [item]) == FlagAfter(FlagsAfter(flags, items), item)
    decreases items
  {
    if items == [] {
      assert items + [item] == [item] && [item][1..] == [];
    } else {
      assert (items + [item])[1..] == items[1..] + [item];
      FlagsAfterSnoc(FlagAfter(flags, items[0]), items[1..], item);
    }
  }

  lemma {:induction false} ValuesOfSnoc(items: seq<Item>, item: Item, name: string)
    ensures ValuesOf(items + [item], name) == ValuesOf(items, name) + ValueIn(item, name)
  {
    if items == [] {
      assert items + [item] == [item];
    } else {
      assert (items + [item])[1..] == items[1..] + [item];
      ValuesOfSnoc(items[1..], item, name);
    }
  }

  lemma {:induction false} JoinSnoc(parts: seq<string>, last: string, separator: string)
    ensures Join(parts + [last], separator) == if parts == [] then last else Join(parts, separator) + separator + last
  {
    if |parts| > 1 {
      assert (parts + [last])[1..] == parts[1..] + [last];
      JoinSnoc(parts[1..], last, separator);
      assert parts[0] + separator + (Join(parts[1..], separator) + separator + last)
          == parts[0] + separator + Join(parts[1..], separator) + separator + last;
    } else if |parts| == 1 {
      assert (parts + [last])[1..] == [last];
    }
  }

  /** An ordinary flag keeps the last thing said about it. */
  lemma {:induction false} OrdinaryFlag(items: seq<Item>, name: string)
    requires name != "label"
    ensures var flags := FlagsAfter(map[], items);
            match LastOf(items, name)
            case None => name !in flags
            case Some(v) => name in flags && flags[name] == v
    decreases |items|
  {
    if items != [] {
      var front, last := items[..|items| - 1], items[|items| - 1];
      assert items == front + [last];
      OrdinaryFlag(front, name);
      FlagsAfterSnoc(map[], front, last);
    }
  }

  /** `label` holds these values; if there are none it is absent or bare. */
  ghost predicate HoldsLabels(flags: Flags, values: seq<string>) {
    if values == [] then "label" !in flags || flags["label"] == Present
    else "label" in flags && flags["label"] == Text(Join(values, [REPEATED_FLAG_SEPARATOR]))
  }

  lemma LabelStep(flags: Flags, values: seq<string>, item: Item)
    requires HoldsLabels(flags, values) && item.Valid() && item != Bare("label")
    ensures HoldsLabels(FlagAfter(flags, item), values + ValueIn(item, "label"))
  {
    if (item.Assign? || item.Spaced?) && item.name == "label" {
      JoinSnoc(values, item.value, [REPEATED_FLAG_SEPARATOR]);
      assert values + [item.value] != [];
    } else {
      if item.Switch? {
        SwitchNames(item.name);
      }
      assert values + [] == values;
    }
  }

  /** `label` keeps all its values, in both forms, since it was last given without one. */
  lemma {:induction false} LabelFlag(items: seq<Item>)
    requires AllValid(items)
    ensures HoldsLabels(FlagsAfter(map[], items), ValuesOf(SinceBare(items, "label"), "label"))
    decreases |items|
  {
    if items != [] {
      var front, last := items[..|items| - 1], items[|items| - 1];
      assert items == front + [last];
      LabelFlag(front);
      FlagsAfterSnoc(map[], front, last);
      if last != Bare("label") {
        var since := SinceBare(front, "label");
        ValuesOfSnoc(since, last, "label");
        LabelStep(FlagsAfter(map[], front), ValuesOf(since, "label"), last);
      }
    }
  }

  lemma {:induction false} ReadAsValid(argv: seq<string>, paths: seq<Path>, i: nat, items: seq<Item>,
                                       afterWord: bool)
    requires ReadAs(argv, paths, i, items, afterWord)
    ensures AllValid(items)
    decreases items
  {
    if items != [] {
      ReadAsValid(argv, paths, i + |items[0].Tokens()|, items[1..], afterWord || items[0].Word?);
    }
  }

  /** Whatever argv is, it is a list of items, and the parser returns its words in order and, for every flag
      but `label`, the last thing said about it. */
  lemma ParseReadsItems(argv: seq<string>, paths: seq<Path>) returns (items: seq<Item>)
    ensures ReadAs(argv, paths, 0, items, false)
    ensures var parsed := Parse(argv, paths);
            && parsed.path == Words(items) && parsed.conflicts == []
            && forall name | name != "label" ::
                 match LastOf(items, name)
                 case None => name !in parsed.flags
                 case Some(v) => name in parsed.flags && parsed.flags[name] == v
  {
    items := EveryArgvIsItems(argv, paths, 0, false);
    ParseWhole(argv, paths, items);
    forall name | name != "label"
      ensures var flags := FlagsAfter(map[], items);
              match LastOf(items, name)
              case None => name !in flags
              case Some(v) => name in flags && flags[name] == v
    {
      OrdinaryFlag(items, name);
    }
  }

  lemma ParseWhole(argv: seq<string>, paths: seq<Path>, items: seq<Item>)
    requires ReadAs(argv, paths, 0, items, false)
    ensures Parse(argv, paths) == ParsedArgs(Words(items), FlagsAfter(map[], items), [])
  {
    ParseItems(argv, paths, 0, items, NOTHING_PARSED);
    AllAfterIs(NOTHING_PARSED, items);
    assert [] + Words(items) == Words(items);
  }

  /** For items put together as an argv: the words in order, and the last thing said about each flag but
      `label`. */
  lemma InterleavedParse(items: seq<Item>, paths: seq<Path>, name: string)
    requires AllValid(items) && Readable(items, false) && name != "label"
    ensures var parsed := Parse(Tokens(items), paths);
            && parsed.path == Words(items) && parsed.conflicts == []
            && match LastOf(items, name)
               case None => name !in parsed.flags
               case Some(v) => name in parsed.flags && parsed.flags[name] == v
  {
    ReadableIsRead([], items, paths, false);
    assert [] + Tokens(items) == Tokens(items);
    ParseWhole(Tokens(items), paths, items);
    OrdinaryFlag(items, name);
  }

  // ----- repeated labels -----

  /** The non-empty pieces of every value, in order. */
  function Pieces(values: seq<string>): seq<string> {
    if values == [] then []
    else NonEmpty(Split(values[0], REPEATED_FLAG_SEPARATOR)) + Pieces(values[1..])
  }

  lemma {:induction false} NonEmptyConcat(a: seq<string>, b: seq<string>)
    ensures NonEmpty(a + b) == NonEmpty(a) + NonEmpty(b)
  {
    if a == [] {
      assert a + b == b;
    } else {
      assert (a + b)[1..] == a[1..] + b;
      NonEmptyConcat(a[1..], b);
    }
  }

  lemma {:induction false} SplitJoined(values: seq<string>)
    requires values != []
    ensures NonEmpty(Split(Join(values, [REPEATED_FLAG_SEPARATOR]), REPEATED_FLAG_SEPARATOR)) == Pieces(values)
  {
    var c := REPEATED_FLAG_SEPARATOR;
    if |values| == 1 {
      assert Pieces(values[1..]) == [];
    } else {
      var rest := Join(values[1..], [c]);
      SplitConcat(values[0], c, rest);
      NonEmptyConcat(Split(values[0], c), Split(rest, c));
      SplitJoined(values[1..]);
    }
  }

  lemma {:induction false} PartsWithout(s: string, c: char)
    ensures forall part | part in Split(s, c) :: c !in part
    decreases |s|
  {
    var i := IndexOf(s, c);
    if i < |s| {
      PartsWithout(s[i + 1..], c);
    } else {
      assert s[..i] == s;
    }
  }

  lemma {:induction false} NonEmptyKeeps(parts: seq<string>, part: string)
    ensures part in NonEmpty(parts) <==> part in parts && part != ""
  {
    if parts != [] {
      NonEmptyKeeps(parts[1..], part);
    }
  }

  lemma {:induction false} PiecesHaveNoSeparator(values: seq<string>)
    ensures forall piece | piece in Pieces(values) :: REPEATED_FLAG_SEPARATOR !in piece
  {
    if values != [] {
      var parts := Split(values[0], REPEATED_FLAG_SEPARATOR);
      PartsWithout(values[0], REPEATED_FLAG_SEPARATOR);
      PiecesHaveNoSeparator(values[1..]);
      forall piece | piece in NonEmpty(parts) ensures REPEATED_FLAG_SEPARATOR !in piece {
        NonEmptyKeeps(parts, piece);
      }
    }
  }

  lemma NonEmptyOne(part: string)
    ensures NonEmpty([part]) == if part == "" then [] else [part]
  {
    assert [part][1..] == [];
  }

  lemma {:induction false} WholePieces(values: seq<string>)
    requires forall v | v in values :: REPEATED_FLAG_SEPARATOR !in v
    ensures Pieces(values) == NonEmpty(values)
  {
    if values != [] {
      SplitWithout(values[0], REPEATED_FLAG_SEPARATOR);
      WholePieces(values[1..]);
      NonEmptyOne(values[0]);
    }
  }

  /** What `getRepeatedStringFlag` returns for `label` after any such argv, and exactly when that is every
      non-empty label value in order, since the last `--label` without a value if there is one. */
  lemma RepeatedLabels(argv: seq<string>, paths: seq<Path>, items: seq<Item>)
    requires ReadAs(argv, paths, 0, items, false)
    ensures var read := GetRepeatedStringFlag(Parse(argv, paths).flags, "label");
            var values := ValuesOf(SinceBare(items, "label"), "label");
            && (Bare("label") !in items ==> values == ValuesOf(items, "label"))
            && read == Pieces(values)
            && (read == NonEmpty(values) <==> forall v | v in values :: '\0' !in v)
  {
    var values := ValuesOf(SinceBare(items, "label"), "label");
    if Bare("label") !in items {
      NoneBare(items, "label");
    }
    ParseWhole(argv, paths, items);
    ReadAsValid(argv, paths, 0, items, false);
    LabelFlag(items);
    ReadsPieces(FlagsAfter(map[], items), values);
    PiecesHaveNoSeparator(values);
    if forall v | v in values :: REPEATED_FLAG_SEPARATOR !in v {
      WholePieces(values);
    } else if v :| v in values && REPEATED_FLAG_SEPARATOR in v {
      NonEmptyKeeps(values, v);
    }
  }

  lemma ReadsPieces(flags: Flags, values: seq<string>)
    requires HoldsLabels(flags, values)
    ensures GetRepeatedStringFlag(flags, "label") == Pieces(values)
  {
    if values != [] {
      SplitJoined(values);
      SplitWithout("", REPEATED_FLAG_SEPARATOR);
      NonEmptyOne("");
    }
  }

  /** The documented form: after a command, `--label` followed by each name gives back all the names. */
  lemma {:induction false} SpacedLabels(command: string, names: seq<string>, paths: seq<Path>)
    requires !IsFlag(command)
    requires forall name | name in names :: name != "" && !IsFlag(name) && '\0' !in name
    ensures GetRepeatedStringFlag(Parse([command] + LabelTokens(names), paths).flags, "label") == names
  {
    var items := [Word(command)] + LabelItems(names);
    LabelItemsRead(names);
    assert items[1..] == LabelItems(names);
    assert Tokens(items) == [command] + LabelTokens(names);
    assert ValuesOf(items, "label") == [] + names == names;
    ReadableIsRead([], items, paths, false);
    assert [] + Tokens(items) == Tokens(items);
    RepeatedLabels(Tokens(items), paths, items);
    NoneEmpty(names);
  }

  /** `--label name` for each name. */
  function LabelTokens(names: seq<string>): seq<string> {
    if names == [] then [] else ["--" + "label", names[0]] + LabelTokens(names[1..])
  }

  function LabelItems(names: seq<string>): seq<Item> {
    if names == [] then [] else [Spaced("label", names[0])] + LabelItems(names[1..])
  }

  lemma {:induction false} LabelItemsRead(names: seq<string>)
    requires forall name | name in names :: !IsFlag(name)
    ensures var items := LabelItems(names);
            && AllValid(items) && Readable(items, true) && Tokens(items) == LabelTokens(names)
            && ValuesOf(items, "label") == names && Bare("label") !in items
  {
    if names != [] {
      var items, rest := LabelItems(names), LabelItems(names[1..]);
      LabelItemsRead(names[1..]);
      LabelTakesValue("label");
      assert items[1..] == rest && names == [names[0]] + names[1..];
    }
  }

  lemma LabelTakesValue(name: string)
    requires name == "label"
    ensures '=' !in name && !IsBooleanName(name)
  {
  }

  lemma {:induction false} NoneEmpty(parts: seq<string>)
    requires "" !in parts
    ensures NonEmpty(parts) == parts
  {
    if parts != [] {
      NoneEmpty(parts[1..]);
    }
  }
}
