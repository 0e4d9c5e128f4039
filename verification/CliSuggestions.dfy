/** Typo recovery: which registered commands an unknown one is matched with.

`Collation` is the label order of `localeCompare`, any total preorder; equal labels keep registry order
because the sort is stable.
 */
module CliSuggestions {
  import opened CliText
  import opened CliArgs
  import opened CliRegistry
  import opened EditDistance

  const SUGGESTION_THRESHOLD := 3
  const MAX_SUGGESTIONS := 3
  const DESTRUCTIVE_INTENT_THRESHOLD := 1

  type Collation = (string, string) -> bool

  ghost predicate TotalPreorder(leq: Collation) {
    && (forall a, b :: leq(a, b) || leq(b, a))
    && (forall a, b, c :: leq(a, b) && leq(b, c) ==> leq(a, c))
  }

  datatype Entry = Entry(name: string, distance: nat)

  predicate Before(leq: Collation, a: Entry, b: Entry) {
    a.distance < b.distance || (a.distance == b.distance && leq(a.name, b.name))
  }

  // ----- ranking -----

  ghost predicate Sorted(leq: Collation, entries: seq<Entry>) {
    forall i, j | 0 <= i < j < |entries| :: Before(leq, entries[i], entries[j])
  }

  /** Stable insertion: `e` goes before the first entry that it strictly precedes. */
  function InsertSorted(leq: Collation, e: Entry, entries: seq<Entry>): seq<Entry> {
    if entries == [] then [e]
    else if Before(leq, entries[0], e) then [entries[0]] + InsertSorted(leq, e, entries[1..])
    else [e] + entries
  }

  function Sort(leq: Collation, entries: seq<Entry>): seq<Entry> {
    if entries == [] then []
    else InsertSorted(leq, entries[|entries| - 1], Sort(leq, entries[..|entries| - 1]))
  }

  predicate Near(e: Entry) {
    0 < e.distance <= SUGGESTION_THRESHOLD
  }

  function NearOnes(entries: seq<Entry>): seq<Entry> {
    if entries == [] then []
    else (if Near(entries[0]) then [entries[0]] else []) + NearOnes(entries[1..])
  }

  function Labels(entries: seq<Entry>): (labels: seq<string>)
    ensures |labels| == |entries|
    ensures forall i | 0 <= i < |entries| :: labels[i] == entries[i].name
  {
    if entries == [] then [] else [entries[0].name] + Labels(entries[1..])
  }

  function RankByDistance(leq: Collation, scored: seq<Entry>): seq<string> {
    Labels(UpTo(Sort(leq, NearOnes(scored)), MAX_SUGGESTIONS))
  }

  /** Insertion adds one element and loses none. */
  lemma {:induction false} InsertSortedElements(leq: Collation, e: Entry, entries: seq<Entry>)
    ensures multiset(InsertSorted(leq, e, entries)) == multiset(entries) + multiset{e}
  {
    if entries != [] {
      assert entries == [entries[0]] + entries[1..];
      if Before(leq, entries[0], e) {
        InsertSortedElements(leq, e, entries[1..]);
      }
    }
  }

  lemma InsertedIsOneOf(leq: Collation, e: Entry, entries: seq<Entry>, x: Entry)
    requires x in InsertSorted(leq, e, entries)
    ensures x == e || x in entries
  {
    InsertSortedElements(leq, e, entries);
    assert x in multiset(InsertSorted(leq, e, entries));
    assert x in multiset(entries) + multiset{e};
  }

  lemma {:induction false} InsertSortedIsSorted(leq: Collation, e: Entry, entries: seq<Entry>)
    requires TotalPreorder(leq) && Sorted(leq, entries)
    ensures Sorted(leq, InsertSorted(leq, e, entries))
  {
    if entries != [] {
      var first, rest := entries[0], entries[1..];
      if Before(leq, first, e) {
        InsertSortedIsSorted(leq, e, rest);
        forall x | x in InsertSorted(leq, e, rest) ensures Before(leq, first, x) {
          InsertedIsOneOf(leq, e, rest, x);
        }
      }
    }
  }

  lemma {:induction false} SortIsSorted(leq: Collation, entries: seq<Entry>)
    requires TotalPreorder(leq)
    ensures Sorted(leq, Sort(leq, entries))
    ensures multiset(Sort(leq, entries)) == multiset(entries)
    decreases |entries|
  {
    if entries != [] {
      var front, last := entries[..|entries| - 1], entries[|entries| - 1];
      assert entries == front + [last];
      SortIsSorted(leq, front);
      InsertSortedIsSorted(leq, last, Sort(leq, front));
      InsertSortedElements(leq, last, Sort(leq, front));
    }
  }

  // ----- which commands take part -----

  function FinalToken(path: Path): string {
    if path == [] then "" else path[|path| - 1]
  }

  ghost predicate IsDestructiveVerb(specs: seq<CommandSpec>, verb: string) {
    exists spec, path :: spec in specs && spec.destructive && path in SpecPaths(spec) && verb == FinalToken(path)
  }

  method DestructiveVerbs(specs: seq<CommandSpec>) returns (verbs: set<string>)
    ensures forall verb :: verb in verbs <==> IsDestructiveVerb(specs, verb)
  {
    verbs := {};
    for k := 0 to |specs|
      invariant forall verb :: verb in verbs <==> IsDestructiveVerb(specs[..k], verb)
    {
      assert specs[..k + 1] == specs[..k] + [specs[k]];
      if specs[k].destructive {
        var paths := SpecPaths(specs[k]);
        ghost var before := verbs;
        for p := 0 to |paths|
          invariant forall verb :: verb in verbs <==>
                      verb in before || exists i | 0 <= i < p :: verb == FinalToken(paths[i])
        {
          verbs := verbs + {FinalToken(paths[p])};
        }
        forall verb ensures verb in verbs <==> IsDestructiveVerb(specs[..k + 1], verb) {
          if verb in verbs && verb !in before {
            var i :| 0 <= i < |paths| && verb == FinalToken(paths[i]);
            assert paths[i] in SpecPaths(specs[k]);
          }
        }
      }
    }
    assert specs[..|specs|] == specs;
  }

  /** The last word typed is at most one edit from the last word of a destructive command. */
  ghost predicate Intends(specs: seq<CommandSpec>, token: string) {
    exists verb :: IsDestructiveVerb(specs, verb) && Distance(token, verb) <= DESTRUCTIVE_INTENT_THRESHOLD
  }

  method IntendsDestruction(token: string, verbs: set<string>) returns (r: bool)
    ensures r <==> exists verb | verb in verbs :: Distance(token, verb) <= DESTRUCTIVE_INTENT_THRESHOLD
  {
    var rest := verbs;
    while rest != {}
      invariant rest <= verbs
      invariant forall verb | verb in verbs - rest :: Distance(token, verb) > DESTRUCTIVE_INTENT_THRESHOLD
    {
      var verb :| verb in rest;
      var d := Levenshtein(token, verb);
      if d <= DESTRUCTIVE_INTENT_THRESHOLD {
        return true;
      }
      rest := rest - {verb};
    }
    return false;
  }

  /** A one-word command line is matched with the first words of the registered paths. */
  function Candidate(path: Path, words: nat): Path {
    if words == 1 && |path| > 1 then path[..1] else path
  }

  /** `spec` offers the label `name` to an input of that many words. */
  ghost predicate Offers(spec: CommandSpec, words: nat, name: string) {
    exists path :: path in SpecPaths(spec) &&
      |Candidate(path, words)| == words && name == Join(Candidate(path, words), " ")
  }

  /** One typed word is matched with the first word of every path, so with command groups too; several
      words only with paths of that many words. */
  lemma OfferedLabels(spec: CommandSpec, words: nat, name: string)
    ensures Offers(spec, words, name) <==>
              exists path :: path in SpecPaths(spec) &&
                (if words == 1 then path != [] && name == path[0] else |path| == words && name == Join(path, " "))
  {
    if words == 1 {
      forall path | path != [] ensures |Candidate(path, 1)| == 1 && Join(Candidate(path, 1), " ") == path[0] {
      }
    }
  }

  ghost predicate Eligible(specs: seq<CommandSpec>, words: nat, allowDestructive: bool, name: string) {
    exists spec :: spec in specs && (spec.destructive ==> allowDestructive) && Offers(spec, words, name)
  }

  function Scored(input: string, name: string): Entry {
    Entry(name, Distance(input, name))
  }

  /** `scored` lists each eligible name once, with its distance from the input. */
  ghost predicate Scores(scored: seq<Entry>, input: string, labels: iset<string>) {
    && (forall i, j | 0 <= i < j < |scored| :: scored[i].name != scored[j].name)
    && (forall e | e in scored :: e.name in labels && e == Scored(input, e.name))
    && (forall name | name in labels :: Scored(input, name) in scored)
  }

  /** At most three different labels at distance 1 to 3, in order. */
  ghost predicate Shortlist(leq: Collation, r: seq<string>, input: string, labels: iset<string>) {
    && |r| <= MAX_SUGGESTIONS
    && (forall i, j | 0 <= i < j < |r| :: r[i] != r[j] && Before(leq, Scored(input, r[i]), Scored(input, r[j])))
    && (forall i | 0 <= i < |r| :: r[i] in labels && Near(Scored(input, r[i])))
  }

  /** No eligible name left out beats one kept, and none is left out while there is room. */
  ghost predicate NoneBetter(leq: Collation, r: seq<string>, input: string, labels: iset<string>) {
    forall name | name in labels && Near(Scored(input, name)) && name !in r ::
      && |r| == MAX_SUGGESTIONS
      && forall i | 0 <= i < |r| :: Before(leq, Scored(input, r[i]), Scored(input, name))
  }

  lemma {:induction false} NearOnesAre(entries: seq<Entry>)
    ensures forall e :: e in NearOnes(entries) <==> e in entries && Near(e)
    ensures multiset(NearOnes(entries)) <= multiset(entries)
  {
    if entries != [] {
      assert entries == [entries[0]] + entries[1..];
      NearOnesAre(entries[1..]);
    }
  }

  /** The sorted list holds exactly the near entries, each once. */
  lemma SortedNear(leq: Collation, scored: seq<Entry>)
    requires TotalPreorder(leq) && forall i, j | 0 <= i < j < |scored| :: scored[i].name != scored[j].name
    ensures var sorted := Sort(leq, NearOnes(scored));
            && Sorted(leq, sorted)
            && (forall i, j | 0 <= i < j < |sorted| :: sorted[i].name != sorted[j].name)
            && (forall e :: e in sorted <==> e in scored && Near(e))
  {
    var near := NearOnes(scored);
    var sorted := Sort(leq, near);
    NearOnesAre(scored);
    SortIsSorted(leq, near);
    SortedOnce(scored, sorted);
    forall e ensures e in sorted <==> e in near {
      assert e in multiset(sorted) <==> e in multiset(near);
    }
  }

  /** The names kept are those of the first entries of the sorted list. */
  lemma KeptEntries(leq: Collation, scored: seq<Entry>, input: string, labels: iset<string>)
    returns (sorted: seq<Entry>)
    requires TotalPreorder(leq) && Scores(scored, input, labels)
    ensures Sorted(leq, sorted)
    ensures forall i, j | 0 <= i < j < |sorted| :: sorted[i].name != sorted[j].name
    ensures forall e :: e in sorted <==> e in scored && Near(e)
    ensures var r := RankByDistance(leq, scored);
            && |r| == Min(|sorted|, MAX_SUGGESTIONS)
            && forall i | 0 <= i < |r| :: sorted[i] == Scored(input, r[i])
  {
    sorted := Sort(leq, NearOnes(scored));
    SortedNear(leq, scored);
    var kept := UpTo(sorted, MAX_SUGGESTIONS);
    forall i | 0 <= i < |kept| ensures sorted[i] == Scored(input, Labels(kept)[i]) {
      assert sorted[i] in sorted && kept[i] == sorted[i];
    }
  }

  lemma RankingIsShortlist(leq: Collation, scored: seq<Entry>, input: string, labels: iset<string>)
    requires TotalPreorder(leq) && Scores(scored, input, labels)
    ensures Shortlist(leq, RankByDistance(leq, scored), input, labels)
  {
    var sorted := KeptEntries(leq, scored, input, labels);
    var r := RankByDistance(leq, scored);
    forall i | 0 <= i < |r| ensures r[i] in labels && Near(Scored(input, r[i])) {
      assert sorted[i] in sorted;
    }
  }

  lemma RankingHasNoneBetter(leq: Collation, scored: seq<Entry>, input: string, labels: iset<string>)
    requires TotalPreorder(leq) && Scores(scored, input, labels)
    ensures NoneBetter(leq, RankByDistance(leq, scored), input, labels)
  {
    var sorted := KeptEntries(leq, scored, input, labels);
    var r := RankByDistance(leq, scored);
    forall name | name in labels && Near(Scored(input, name)) && name !in r
      ensures |r| == MAX_SUGGESTIONS
      ensures forall i | 0 <= i < |r| :: Before(leq, Scored(input, r[i]), Scored(input, name))
    {
      var e := Scored(input, name);
      assert e in sorted;
      var k :| 0 <= k < |sorted| && sorted[k] == e;
      assert k >= |r|;
    }
  }

  /** Each scored name appears once, so no name is suggested twice. */
  lemma SortedOnce(scored: seq<Entry>, sorted: seq<Entry>)
    requires multiset(sorted) <= multiset(scored)
    requires forall i, j | 0 <= i < j < |scored| :: scored[i].name != scored[j].name
    ensures forall i, j | 0 <= i < j < |sorted| :: sorted[i].name != sorted[j].name
  {
    forall i, j | 0 <= i < j < |sorted| && sorted[i].name == sorted[j].name ensures false {
      var a, b := sorted[i], sorted[j];
      assert a in multiset(sorted) && b in multiset(sorted);
      assert a in multiset(scored) && b in multiset(scored);
      assert a in scored && b in scored;
      assert a == b;
      TwiceInSequence(sorted, i, j);
      OnceInSequence(scored, a);
    }
  }

  lemma TwiceInSequence(s: seq<Entry>, i: nat, j: nat)
    requires i < j < |s| && s[i] == s[j]
    ensures multiset(s)[s[i]] >= 2
  {
    assert s == s[..i] + [s[i]] + s[i + 1..j] + [s[j]] + s[j + 1..];
  }

  lemma {:induction false} OnceInSequence(s: seq<Entry>, e: Entry)
    requires forall i, j | 0 <= i < j < |s| :: s[i] != s[j]
    ensures multiset(s)[e] <= 1
  {
    if s != [] {
      var rest := s[1..];
      assert s == [s[0]] + rest;
      assert forall i | 0 <= i < |rest| :: rest[i] == s[i + 1];
      OnceInSequence(rest, e);
      assert e == s[0] ==> e !in rest;
    }
  }

  // ----- the suggestions -----

  ghost function EligibleLabels(specs: seq<CommandSpec>, path: Path): iset<string> {
    iset name | Eligible(specs, |path|, Intends(specs, FinalToken(path)), name)
  }

  /** One candidate of one spec, looked at in order. */
  ghost predicate OffersUpTo(paths: seq<Path>, k: int, words: nat, name: string)
    requires 0 <= k <= |paths|
  {
    exists i | 0 <= i < k :: |Candidate(paths[i], words)| == words && name == Join(Candidate(paths[i], words), " ")
  }

  /** `seen` and `scored` hold the same labels, each once, scored by distance. */
  ghost predicate Listed(seen: set<string>, scored: seq<Entry>, input: string) {
    && (forall i, j | 0 <= i < j < |scored| :: scored[i].name != scored[j].name)
    && (forall e | e in scored :: e.name in seen && e == Scored(input, e.name))
    && (forall name | name in seen :: Scored(input, name) in scored)
  }

  method CollectCandidates(spec: CommandSpec, path: Path, input: string, seen: set<string>, scored: seq<Entry>)
    returns (seen': set<string>, scored': seq<Entry>)
    requires Listed(seen, scored, input)
    ensures Listed(seen', scored', input)
    ensures forall name :: name in seen' <==> name in seen || Offers(spec, |path|, name)
  {
    seen', scored' := seen, scored;
    var paths := SpecPaths(spec);
    for k := 0 to |paths|
      invariant Listed(seen', scored', input)
      invariant forall name :: name in seen' <==> name in seen || OffersUpTo(paths, k, |path|, name)
    {
      var candidate := Candidate(paths[k], |path|);
      if |candidate| != |path| {
        continue;
      }
      var joined := Join(candidate, " ");
      if joined in seen' {
        continue;
      }
      seen' := seen' + {joined};
      var distance := Levenshtein(input, joined);
      scored' := scored' + [Entry(joined, distance)];
    }
    forall name ensures OffersUpTo(paths, |paths|, |path|, name) <==> Offers(spec, |path|, name) {
      if Offers(spec, |path|, name) {
        var p :| p in paths && |Candidate(p, |path|)| == |path| && name == Join(Candidate(p, |path|), " ");
        var i :| 0 <= i < |paths| && paths[i] == p;
      }
    }
  }

  method SuggestCommands(leq: Collation, specs: seq<CommandSpec>, commandPath: Path) returns (r: seq<string>)
    requires TotalPreorder(leq)
    ensures Shortlist(leq, r, Join(commandPath, " "), EligibleLabels(specs, commandPath))
    ensures NoneBetter(leq, r, Join(commandPath, " "), EligibleLabels(specs, commandPath))
  {
    var input := Join(commandPath, " ");
    var verbs := DestructiveVerbs(specs);
    var allowDestructive := IntendsDestruction(FinalToken(commandPath), verbs);
    var seen: set<string> := {};
    var scored: seq<Entry> := [];
    for k := 0 to |specs|
      invariant Listed(seen, scored, input)
      invariant forall name :: name in seen <==> Eligible(specs[..k], |commandPath|, allowDestructive, name)
    {
      assert specs[..k + 1] == specs[..k] + [specs[k]];
      if specs[k].destructive && !allowDestructive {
        continue;
      }
      seen, scored := CollectCandidates(specs[k], commandPath, input, seen, scored);
    }
    assert specs[..|specs|] == specs;
    var labels := EligibleLabels(specs, commandPath);
    assert forall name :: name in seen <==> name in labels;
    RankingIsShortlist(leq, scored, input, labels);
    RankingHasNoneBetter(leq, scored, input, labels);
    r := RankByDistance(leq, scored);
  }

  /** Unless the last word typed is a near miss of a destructive verb, nothing suggested comes from a
      destructive command. */
  lemma BenignTypoStaysBenign(leq: Collation, specs: seq<CommandSpec>, path: Path, r: seq<string>, name: string)
    requires Shortlist(leq, r, Join(path, " "), EligibleLabels(specs, path)) && name in r
    requires forall verb | IsDestructiveVerb(specs, verb) ::
               Distance(FinalToken(path), verb) > DESTRUCTIVE_INTENT_THRESHOLD
    ensures exists spec :: spec in specs && !spec.destructive && Offers(spec, |path|, name)
  {
    var i :| 0 <= i < |r| && r[i] == name;
    assert !Intends(specs, FinalToken(path));
  }

  // ----- what is suggested -----

  ghost predicate IsLastWord(p: Path, word: string) {
    if p == [] then word == "" else word == p[|p| - 1]
  }

  /** The last word typed is at most one edit from the last word of a path of some destructive command. */
  ghost predicate MeansHarm(specs: seq<CommandSpec>, path: Path) {
    exists spec, p, typed, verb ::
      && spec in specs && spec.destructive && IsPathOf(spec, p)
      && IsLastWord(path, typed) && IsLastWord(p, verb) && Distance(typed, verb) <= 1
  }

  /** A command whose paths have that label for an input of as many words; a destructive one only if harm is
      meant. */
  ghost predicate MayOffer(specs: seq<CommandSpec>, path: Path, name: string) {
    exists spec, p ::
      && spec in specs && IsPathOf(spec, p) && (spec.destructive ==> MeansHarm(specs, path))
      && if |path| == 1 then p != [] && name == p[0] else |p| == |path| && name == Join(p, " ")
  }

  lemma HarmIsIntent(specs: seq<CommandSpec>, path: Path)
    ensures Intends(specs, FinalToken(path)) <==> MeansHarm(specs, path)
  {
    forall p, word ensures IsLastWord(p, word) <==> word == FinalToken(p) {
    }
    forall spec: CommandSpec, p ensures p in SpecPaths(spec) <==> IsPathOf(spec, p) {
      AnswersTo(spec, p);
    }
    if MeansHarm(specs, path) {
      var spec, p, typed, verb :|
        && spec in specs && spec.destructive && IsPathOf(spec, p)
        && IsLastWord(path, typed) && IsLastWord(p, verb) && Distance(typed, verb) <= 1;
      assert IsDestructiveVerb(specs, verb);
    }
    if verb :| IsDestructiveVerb(specs, verb) && Distance(FinalToken(path), verb) <= 1 {
      var spec, p :| spec in specs && spec.destructive && p in SpecPaths(spec) && verb == FinalToken(p);
      assert IsLastWord(path, FinalToken(path)) && IsLastWord(p, verb) && IsPathOf(spec, p);
    }
  }

  lemma OfferedIsEligible(specs: seq<CommandSpec>, path: Path, name: string)
    ensures name in EligibleLabels(specs, path) <==> MayOffer(specs, path, name)
  {
    HarmIsIntent(specs, path);
    forall spec: CommandSpec, p ensures p in SpecPaths(spec) <==> IsPathOf(spec, p) {
      AnswersTo(spec, p);
    }
    forall spec: CommandSpec ensures Offers(spec, |path|, name) <==>
        exists p :: IsPathOf(spec, p) &&
          if |path| == 1 then p != [] && name == p[0] else |p| == |path| && name == Join(p, " ")
    {
      OfferedLabels(spec, |path|, name);
    }
  }

  /** What `SuggestCommands` answers, in numbers: at most three different labels on offer, 1 to 3 edits away,
      closer ones first and equally close ones by collation; a label that near is left out only when three
      others come before it. */
  lemma SuggestionsAre(leq: Collation, specs: seq<CommandSpec>, path: Path, r: seq<string>)
    requires Shortlist(leq, r, Join(path, " "), EligibleLabels(specs, path))
    requires NoneBetter(leq, r, Join(path, " "), EligibleLabels(specs, path))
    ensures |r| <= 3
    ensures forall i | 0 <= i < |r| :: MayOffer(specs, path, r[i]) && 1 <= Distance(Join(path, " "), r[i]) <= 3
    ensures forall i, j | 0 <= i < j < |r| ::
              var di, dj := Distance(Join(path, " "), r[i]), Distance(Join(path, " "), r[j]);
              r[i] != r[j] && (di < dj || (di == dj && leq(r[i], r[j])))
    ensures forall name | MayOffer(specs, path, name) && 1 <= Distance(Join(path, " "), name) <= 3 && name !in r ::
              |r| == 3 && forall i | 0 <= i < 3 ::
                var di, d := Distance(Join(path, " "), r[i]), Distance(Join(path, " "), name);
                di < d || (di == d && leq(r[i], name))
  {
    forall name ensures name in EligibleLabels(specs, path) <==> MayOffer(specs, path, name) {
      OfferedIsEligible(specs, path, name);
    }
    var input := Join(path, " ");
    forall name | MayOffer(specs, path, name) && 1 <= Distance(input, name) <= 3 && name !in r
      ensures |r| == 3 && forall i | 0 <= i < 3 :: Before(leq, Scored(input, r[i]), Scored(input, name))
    {
      assert Near(Scored(input, name));
    }
  }
}
