/** When the lookahead scanner and the parser read the same command words.

After a flag that takes a value the scanner always skips one token. The parser does not when that token
is another flag. They can only part where two value flags stand directly before a word: the scanner has
skipped the second flag and sees the word, and the parser gives the word to that flag.
 */
module CliLookahead {
  import opened CliArgs

  /** Two value flags, then a word. */
  predicate SwallowsAt(argv: seq<string>, i: nat) {
    ValueFlagAt(argv, i) && ValueFlagAt(argv, i + 1) && WordAt(argv, i + 2)
  }

  /** From `i` on, the scanner never stands on such a pair. */
  predicate Aligned(argv: seq<string>, i: nat)
    decreases |argv| - i
  {
    i >= |argv| ||
    (!SwallowsAt(argv, i) && Aligned(argv, if ValueFlagAt(argv, i) then i + 2 else i + 1))
  }

  /** The same before the first word, where a registered path starting after the word is also needed
      for the word to be lost. */
  predicate AlignedStart(argv: seq<string>, paths: seq<Path>, i: nat)
    decreases |argv| - i
  {
    i >= |argv| ||
    if WordAt(argv, i) then Aligned(argv, i + 1)
    else
      && !(SwallowsAt(argv, i) && StartsAny(argv, i + 3, paths))
      && AlignedStart(argv, paths, if ValueFlagAt(argv, i) then i + 2 else i + 1)
  }

  /** The same two, but only as far as the next `words` words. */
  predicate AlignedFor(argv: seq<string>, i: nat, words: nat)
    decreases |argv| - i
  {
    words == 0 || i >= |argv| ||
    if WordAt(argv, i) then AlignedFor(argv, i + 1, words - 1)
    else !SwallowsAt(argv, i) && AlignedFor(argv, if ValueFlagAt(argv, i) then i + 2 else i + 1, words)
  }

  predicate AlignedStartFor(argv: seq<string>, paths: seq<Path>, i: nat, words: nat)
    decreases |argv| - i
  {
    words == 0 || i >= |argv| ||
    if WordAt(argv, i) then AlignedFor(argv, i + 1, words - 1)
    else
      && !(SwallowsAt(argv, i) && StartsAny(argv, i + 3, paths))
      && AlignedStartFor(argv, paths, if ValueFlagAt(argv, i) then i + 2 else i + 1, words)
  }

  lemma {:induction false} AlignedForAny(argv: seq<string>, i: nat, words: nat)
    requires Aligned(argv, i)
    ensures AlignedFor(argv, i, words)
    decreases |argv| - i
  {
    if i < |argv| && words > 0 {
      if WordAt(argv, i) {
        AlignedForAny(argv, i + 1, words - 1);
      } else {
        AlignedForAny(argv, if ValueFlagAt(argv, i) then i + 2 else i + 1, words);
      }
    }
  }

  lemma {:induction false} AlignedStartForAny(argv: seq<string>, paths: seq<Path>, i: nat, words: nat)
    requires AlignedStart(argv, paths, i)
    ensures AlignedStartFor(argv, paths, i, words)
    decreases |argv| - i
  {
    if i < |argv| && words > 0 {
      if WordAt(argv, i) {
        AlignedForAny(argv, i + 1, words - 1);
      } else {
        AlignedStartForAny(argv, paths, if ValueFlagAt(argv, i) then i + 2 else i + 1, words);
      }
    }
  }

  /** A check on neighbouring tokens alone is enough: no value flag directly followed by another flag. */
  predicate ValuesAreSeparated(argv: seq<string>, i: nat) {
    forall k | i <= k < |argv| :: !(ValueFlagAt(argv, k) && FlagAt(argv, k + 1))
  }

  lemma {:induction false} SeparatedIsAligned(argv: seq<string>, paths: seq<Path>, i: nat)
    requires ValuesAreSeparated(argv, i)
    ensures Aligned(argv, i) && AlignedStart(argv, paths, i)
    decreases |argv| - i
  {
    if i < |argv| {
      SeparatedIsAligned(argv, paths, i + 1);
      if i + 1 < |argv| {
        SeparatedIsAligned(argv, paths, i + 2);
      }
    }
  }

  // ----- the scanner's answer in terms of the words it sees -----

  lemma PastFlag(argv: seq<string>, i: nat)
    requires FlagAt(argv, i)
    ensures var next := if TakesValue(argv[i]) then i + 2 else i + 1;
            SkipFlags(argv, i) == SkipFlags(argv, next) && ScannedWords(argv, i) == ScannedWords(argv, next)
  {
  }

  lemma {:induction false} WordsAfterSkipping(argv: seq<string>, i: nat)
    ensures var j := SkipFlags(argv, i);
            ScannedWords(argv, i) == if j < |argv| then [argv[j]] + ScannedWords(argv, j + 1) else []
    decreases |argv| - i
  {
    if FlagAt(argv, i) {
      PastFlag(argv, i);
      WordsAfterSkipping(argv, if TakesValue(argv[i]) then i + 2 else i + 1);
    } else if i < |argv| {
      assert SkipFlags(argv, i) == i;
      assert ScannedWords(argv, i) == [argv[i]] + ScannedWords(argv, i + 1);
    } else {
      assert SkipFlags(argv, i) == i;
    }
  }

  lemma PrefixCons(path: Path, first: string, rest: Path)
    requires path != []
    ensures path <= [first] + rest <==> path[0] == first && path[1..] <= rest
  {
    assert path == [path[0]] + path[1..];
    assert ([first] + rest)[1..] == rest;
  }

  lemma {:induction false} StartsAtIsPrefix(argv: seq<string>, i: nat, path: Path)
    ensures StartsAt(argv, i, path) <==> path <= ScannedWords(argv, i)
    decreases |path|
  {
    if path != [] {
      WordsAfterSkipping(argv, i);
      var j := SkipFlags(argv, i);
      if j < |argv| {
        StartsAtIsPrefix(argv, j + 1, path[1..]);
        PrefixCons(path, argv[j], ScannedWords(argv, j + 1));
      }
    }
  }

  /** A value flag does not change what starts where: the scanner looks past its value. */
  lemma StartsPastFlag(argv: seq<string>, paths: seq<Path>, i: nat)
    requires FlagAt(argv, i)
    ensures var next := if ValueFlagAt(argv, i) then i + 2 else i + 1;
            (forall k | 0 <= k < |paths| :: StartsAt(argv, i, paths[k]) <==> StartsAt(argv, next, paths[k]))
            && (StartsAny(argv, i, paths) <==> StartsAny(argv, next, paths))
  {
    var next := if ValueFlagAt(argv, i) then i + 2 else i + 1;
    forall k | 0 <= k < |paths| ensures StartsAt(argv, i, paths[k]) <==> StartsAt(argv, next, paths[k]) {
      assert SkipFlags(argv, i) == SkipFlags(argv, next);
    }
  }

  // ----- the parser's words -----

  /** The words the parser adds from `i` on, given whether it has read one already. */
  function ParsedWords(argv: seq<string>, paths: seq<Path>, i: nat, path: Path): Path
    decreases |argv| - i
  {
    if i >= |argv| then []
    else if !IsFlag(argv[i]) then [argv[i]] + ParsedWords(argv, paths, i + 1, path + [argv[i]])
    else ParsedWords(argv, paths, i + Width(argv, paths, i, path), path)
  }

  lemma {:induction false} ParsedPath(argv: seq<string>, paths: seq<Path>, i: nat, parsed: ParsedArgs)
    ensures ParseFrom(argv, paths, i, parsed).path == parsed.path + ParsedWords(argv, paths, i, parsed.path)
    decreases |argv| - i
  {
    if i < |argv| {
      ParsedPath(argv, paths, i + Width(argv, paths, i, parsed.path), ReadToken(argv, paths, i, parsed));
    }
  }

  /** Once a word has been read, the parser's words are the scanner's exactly on aligned input, and
      fewer otherwise. */
  lemma {:induction false} WordsAfterFirst(argv: seq<string>, paths: seq<Path>, i: nat, path: Path)
    requires path != []
    ensures var read, seen := ParsedWords(argv, paths, i, path), ScannedWords(argv, i);
            && (Aligned(argv, i) ==> read == seen)
            && (!Aligned(argv, i) ==> |read| < |seen|)
            && |read| <= |seen|
    decreases |argv| - i
  {
    if i < |argv| {
      if WordAt(argv, i) {
        WordsAfterFirst(argv, paths, i + 1, path + [argv[i]]);
      } else if !ValueFlagAt(argv, i) {
        WordsAfterFirst(argv, paths, i + 1, path);
      } else if SwallowsAt(argv, i) {
        assert ParsedWords(argv, paths, i + 1, path) == ParsedWords(argv, paths, i + 3, path);
        assert ScannedWords(argv, i) == [argv[i + 2]] + ScannedWords(argv, i + 3);
        WordsAfterFirst(argv, paths, i + 3, path);
      } else {
        PairStaysInStep(argv, paths, i, path);
        WordsAfterFirst(argv, paths, i + 2, path);
      }
    }
  }

  /** Past a value flag that is not followed by another one and a word, both cursors meet at `i + 2`. */
  lemma PairStaysInStep(argv: seq<string>, paths: seq<Path>, i: nat, path: Path)
    requires ValueFlagAt(argv, i) && !SwallowsAt(argv, i)
    requires path != [] || StartsAny(argv, i, paths)
    ensures ParsedWords(argv, paths, i, path) == ParsedWords(argv, paths, i + 2, path)
  {
    StartsPastFlag(argv, paths, i);
    if FlagAt(argv, i + 1) {
      assert Width(argv, paths, i, path) == 1;
      assert Width(argv, paths, i + 1, path) == 1;
    }
  }

  /** Where a registered path starts at the cursor and no word has been read, the parser's words are the
      scanner's exactly on `AlignedStart` input, and fewer otherwise. */
  lemma {:induction false} WordsFromStart(argv: seq<string>, paths: seq<Path>, i: nat)
    requires StartsAny(argv, i, paths)
    ensures var read, seen := ParsedWords(argv, paths, i, []), ScannedWords(argv, i);
            && (AlignedStart(argv, paths, i) ==> read == seen)
            && (!AlignedStart(argv, paths, i) ==> |read| < |seen|)
            && |read| <= |seen|
    decreases |argv| - i
  {
    if i < |argv| {
      if WordAt(argv, i) {
        assert [] + [argv[i]] == [argv[i]];
        WordsAfterFirst(argv, paths, i + 1, [argv[i]]);
      } else {
        StartsPastFlag(argv, paths, i);
        if !ValueFlagAt(argv, i) {
          WordsFromStart(argv, paths, i + 1);
        } else if SwallowsAt(argv, i) {
          assert Width(argv, paths, i, []) == 1;
          assert ScannedWords(argv, i) == [argv[i + 2]] + ScannedWords(argv, i + 3);
          if StartsAny(argv, i + 3, paths) {
            assert Width(argv, paths, i + 1, []) == 2;
            WordsFromStart(argv, paths, i + 3);
          } else {
            assert Width(argv, paths, i + 1, []) == 1;
            WordsFromStart(argv, paths, i + 2);
          }
        } else {
          PairStaysInStep(argv, paths, i, []);
          WordsFromStart(argv, paths, i + 2);
        }
      }
    }
  }

  /** What the scanner sees first the parser reads first, as long as it is aligned that far. */
  lemma {:induction false} PrefixAfterFirst(argv: seq<string>, paths: seq<Path>, i: nat, path: Path, p: Path)
    requires path != [] && p <= ScannedWords(argv, i) && AlignedFor(argv, i, |p|)
    ensures p <= ParsedWords(argv, paths, i, path)
    decreases |argv| - i
  {
    if i < |argv| && p != [] {
      if WordAt(argv, i) {
        PrefixCons(p, argv[i], ScannedWords(argv, i + 1));
        PrefixAfterFirst(argv, paths, i + 1, path + [argv[i]], p[1..]);
        PrefixCons(p, argv[i], ParsedWords(argv, paths, i + 1, path + [argv[i]]));
      } else if !ValueFlagAt(argv, i) {
        PrefixAfterFirst(argv, paths, i + 1, path, p);
      } else {
        PairStaysInStep(argv, paths, i, path);
        PrefixAfterFirst(argv, paths, i + 2, path, p);
      }
    }
  }

  lemma {:induction false} PrefixFromStart(argv: seq<string>, paths: seq<Path>, i: nat, p: Path)
    requires StartsAny(argv, i, paths) && p <= ScannedWords(argv, i) && AlignedStartFor(argv, paths, i, |p|)
    ensures p <= ParsedWords(argv, paths, i, [])
    decreases |argv| - i
  {
    if i < |argv| && p != [] {
      if WordAt(argv, i) {
        assert [] + [argv[i]] == [argv[i]];
        PrefixCons(p, argv[i], ScannedWords(argv, i + 1));
        PrefixAfterFirst(argv, paths, i + 1, [argv[i]], p[1..]);
        PrefixCons(p, argv[i], ParsedWords(argv, paths, i + 1, [argv[i]]));
      } else {
        StartsPastFlag(argv, paths, i);
        if !ValueFlagAt(argv, i) {
          PrefixFromStart(argv, paths, i + 1, p);
        } else if SwallowsAt(argv, i) {
          assert Width(argv, paths, i, []) == 1 && Width(argv, paths, i + 1, []) == 1;
          PrefixFromStart(argv, paths, i + 2, p);
        } else {
          PairStaysInStep(argv, paths, i, []);
          PrefixFromStart(argv, paths, i + 2, p);
        }
      }
    }
  }

  // ----- main results -----

  /** Where the lookahead finds a registered path, the parser goes on to read exactly the words the
      lookahead saw, if and only if `AlignedStart` holds there. A path it found is a prefix of what the parser
      returns whenever that holds as far as the path's own words. */
  lemma LookaheadAgrees(argv: seq<string>, paths: seq<Path>, i: nat, flags: Flags)
    requires StartsAny(argv, i, paths)
    ensures var read := ParseFrom(argv, paths, i, ParsedArgs([], flags, [])).path;
            && (read == ScannedWords(argv, i) <==> AlignedStart(argv, paths, i))
            && (forall p | p in paths && StartsAt(argv, i, p) && AlignedStartFor(argv, paths, i, |p|) :: p <= read)
            && (AlignedStart(argv, paths, i) ==> forall p | p in paths && StartsAt(argv, i, p) :: p <= read)
  {
    ParsedPath(argv, paths, i, ParsedArgs([], flags, []));
    WordsFromStart(argv, paths, i);
    var read := ParsedWords(argv, paths, i, []);
    assert [] + read == read;
    forall p | p in paths && StartsAt(argv, i, p)
      ensures AlignedStartFor(argv, paths, i, |p|) ==> p <= read
      ensures AlignedStart(argv, paths, i) ==> AlignedStartFor(argv, paths, i, |p|)
    {
      StartsAtIsPrefix(argv, i, p);
      if AlignedStartFor(argv, paths, i, |p|) {
        PrefixFromStart(argv, paths, i, p);
      }
      if AlignedStart(argv, paths, i) {
        AlignedStartForAny(argv, paths, i, |p|);
      }
    }
  }

  /** A flag before the command never swallows the command: when the parser keeps a value flag bare
      because a command starts right after it, that command is what it returns, provided that the tokens up
      to its last word are aligned. */
  lemma CommandSurvivesFlag(argv: seq<string>, paths: seq<Path>, i: nat, flags: Flags, p: Path)
    requires ValueFlagAt(argv, i) && p in paths && StartsAt(argv, i + 1, p)
    requires !StartsAny(argv, i + 2, paths) && AlignedStartFor(argv, paths, i + 1, |p|)
    ensures var parsed := ParsedArgs([], flags, []);
            && Width(argv, paths, i, []) == 1
            && ReadToken(argv, paths, i, parsed).flags[Assignment(argv[i])] == Present
            && p <= ParseFrom(argv, paths, i, parsed).path
  {
    var k :| 0 <= k < |paths| && paths[k] == p;
    assert StartsAny(argv, i + 1, paths);
    KeptBare(argv, paths, i, flags);
    LookaheadAgrees(argv, paths, i + 1, flags[Assignment(argv[i]) := Present]);
  }

  lemma KeptBare(argv: seq<string>, paths: seq<Path>, i: nat, flags: Flags)
    requires ValueFlagAt(argv, i) && StartsAny(argv, i + 1, paths) && !StartsAny(argv, i + 2, paths)
    ensures var parsed := ParsedArgs([], flags, []);
            var bare := ParsedArgs([], flags[Assignment(argv[i]) := Present], []);
            && Width(argv, paths, i, []) == 1 && ReadToken(argv, paths, i, parsed) == bare
            && ParseFrom(argv, paths, i, parsed) == ParseFrom(argv, paths, i + 1, bare)
  {
  }

  /** The agreement does need its condition: after a word, the second of two value flags takes the next. */
  lemma PairSwallowsWord(a: string, f: string, g: string, b: string)
    requires !IsFlag(a) && TakesValue(f) && TakesValue(g) && !IsFlag(b)
    ensures StartsAt([a, f, g, b], 0, [a, b]) && |Parse([a, f, g, b], [[a, b]]).path| < 2
  {
    var argv, p := [a, f, g, b], [a, b];
    assert ScannedWords(argv, 3) == [b] + ScannedWords(argv, 4) == [b];
    assert ScannedWords(argv, 1) == ScannedWords(argv, 3);
    assert ScannedWords(argv, 0) == [a] + ScannedWords(argv, 1) == p;
    StartsAtIsPrefix(argv, 0, p);
    assert SwallowsAt(argv, 1) && !Aligned(argv, 1);
    assert StartsAt(argv, 0, [p][0]);
    WordsFromStart(argv, [p], 0);
    ParsedPath(argv, [p], 0, NOTHING_PARSED);
  }

  lemma ExampleNames(name: string)
    requires name == "page" || name == "worktree"
    ensures '=' !in name && !IsBooleanName(name)
  {
  }

  /** For instance `tab --page --worktree list` with `tab list` registered. */
  lemma LookaheadCanMislead(a: string, page: string, worktree: string, b: string)
    requires a == "tab" && page == "page" && worktree == "worktree" && b == "list"
    ensures var argv := [a, "--" + page, "--" + worktree, b];
            StartsAt(argv, 0, [a, b]) && |Parse(argv, [[a, b]]).path| < 2
  {
    assert a[0] == 't' && b[0] == 'l' && "--"[0] == '-';
    ExampleNames(page);
    ExampleNames(worktree);
    FlagTokens(page);
    FlagTokens(worktree);
    PairSwallowsWord(a, "--" + page, "--" + worktree, b);
  }
}
