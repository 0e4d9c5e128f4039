/** Hook scripts: their lines, and their line endings made uniform. */
module HookScripts {
  import opened CliText

  // ----- lines -----

  predicate StartsWithCrLf(s: string) {
    |s| >= 2 && s[0] == '\r' && s[1] == '\n'
  }

  /** `s.split(/\r?\n/)`, with `current` the line read so far. */
  function SplitLines(s: string, current: string): (lines: seq<string>)
    ensures lines != []
    decreases |s|
  {
    if s == [] then [current]
    else if StartsWithCrLf(s) then [current] + SplitLines(s[2..], "")
    else if s[0] == '\n' then [current] + SplitLines(s[1..], "")
    else SplitLines(s[1..], current + [s[0]])
  }

  function Lines(script: string): seq<string> {
    SplitLines(script, "")
  }

  /** `s` with every CR LF made one LF; other CRs stay. */
  function Normalized(s: string): string
    decreases |s|
  {
    if s == [] then []
    else if StartsWithCrLf(s) then "\n" + Normalized(s[2..])
    else [s[0]] + Normalized(s[1..])
  }

  function WithoutCr(line: string): string {
    if line != "" && line[|line| - 1] == '\r' then line[..|line| - 1] else line
  }

  lemma {:induction false} FirstLine(line: string, rest: string, current: string)
    requires '\n' !in line
    ensures SplitLines(line + ("\n" + rest), current) == [current + WithoutCr(line)] + SplitLines(rest, "")
    decreases |line|
  {
    var s := line + ("\n" + rest);
    if line == "" {
      assert s == "\n" + rest && s[1..] == rest;
      assert current + "" == current;
    } else if line == "\r" {
      assert s[2..] == rest;
      assert current + "" == current;
    } else {
      assert s[1..] == line[1..] + ("\n" + rest);
      assert !StartsWithCrLf(s);
      FirstLine(line[1..], rest, current + [line[0]]);
      assert current + [line[0]] + WithoutCr(line[1..]) == current + WithoutCr(line);
    }
  }

  lemma {:induction false} LastLine(line: string, current: string)
    requires '\n' !in line
    ensures SplitLines(line, current) == [current + line]
    decreases |line|
  {
    if line == "" {
      assert current + line == current;
    } else {
      assert !StartsWithCrLf(line);
      LastLine(line[1..], current + [line[0]]);
      assert current + [line[0]] + line[1..] == current + line;
    }
  }

  lemma LastLineWhole(line: string)
    requires '\n' !in line
    ensures Lines(line) == [line]
  {
    LastLine(line, "");
    assert "" + line == line;
  }

  /** The line that an LF at `index` ends, with the CR before the LF left out. */
  lemma LineEndsAt(script: string, lineStart: nat, index: nat)
    requires lineStart <= index < |script| && script[index] == '\n' && '\n' !in script[lineStart..index]
    ensures var lineEnd := if index > lineStart && script[index - 1] == '\r' then index - 1 else index;
            Lines(script[lineStart..]) == [script[lineStart..lineEnd]] + Lines(script[index + 1..])
  {
    CutAtLf(script, lineStart, index);
    FirstLine(script[lineStart..index], script[index + 1..], "");
    SliceWithoutCr(script, lineStart, index);
  }

  lemma CutAtLf(script: string, lineStart: nat, index: nat)
    requires lineStart <= index < |script| && script[index] == '\n'
    ensures script[lineStart..] == script[lineStart..index] + ("\n" + script[index + 1..])
  {
  }

  lemma SliceWithoutCr(script: string, lineStart: nat, index: nat)
    requires lineStart <= index < |script|
    ensures "" + WithoutCr(script[lineStart..index])
         == script[lineStart..if index > lineStart && script[index - 1] == '\r' then index - 1 else index]
  {
    if index > lineStart {
      assert script[lineStart..index][..index - lineStart - 1] == script[lineStart..index - 1];
    }
  }

  method IterateLfScriptLines(script: string) returns (lines: seq<string>)
    ensures lines == Lines(script)
  {
    lines := [];
    var lineStart := 0;
    assert script[0..] == script;
    for index := 0 to |script|
      invariant 0 <= lineStart <= index
      invariant '\n' !in script[lineStart..index]
      invariant lines + Lines(script[lineStart..]) == Lines(script)
    {
      if script[index] != '\n' {
        continue;
      }
      var lineEnd := if index > lineStart && script[index - 1] == '\r' then index - 1 else index;
      LineEndsAt(script, lineStart, index);
      Regroup(lines, [script[lineStart..lineEnd]], Lines(script[index + 1..]));
      lines := lines + [script[lineStart..lineEnd]];
      lineStart := index + 1;
    }
    LastLineWhole(script[lineStart..]);
    lines := lines + [script[lineStart..]];
  }

  // ----- normalisation -----

  /** `s.indexOf('\r\n', from)` */
  function IndexOfCrLf(s: string, from: nat): (i: int)
    requires from <= |s|
    ensures i == -1 || (from <= i && i + 2 <= |s| && StartsWithCrLf(s[i..]))
    ensures forall j | from <= j < (if i == -1 then |s| else i) :: !StartsWithCrLf(s[j..])
    decreases |s| - from
  {
    if from == |s| then -1
    else if StartsWithCrLf(s[from..]) then from
    else IndexOfCrLf(s, from + 1)
  }

  lemma {:induction false} NormalizedChunk(s: string, chunk: nat)
    requires chunk <= |s| && forall j | 0 <= j < chunk :: !StartsWithCrLf(s[j..])
    ensures Normalized(s) == s[..chunk] + Normalized(s[chunk..])
    decreases chunk
  {
    if chunk == 0 {
      assert s[0..] == s && s[..0] == [];
    } else {
      assert s[0..] == s;
      forall j | 0 <= j < chunk - 1 ensures !StartsWithCrLf(s[1..][j..]) {
        assert s[1..][j..] == s[j + 1..];
      }
      NormalizedChunk(s[1..], chunk - 1);
      assert s[1..][chunk - 1..] == s[chunk..];
      assert [s[0]] + s[1..][..chunk - 1] == s[..chunk];
    }
  }

  lemma ChunkAt(s: string, from: nat, end: nat)
    requires from <= end <= |s| && forall j | from <= j < end :: !StartsWithCrLf(s[j..])
    ensures Normalized(s[from..]) == s[from..end] + Normalized(s[end..])
  {
    var t := s[from..];
    forall j | 0 <= j < end - from ensures !StartsWithCrLf(t[j..]) {
      assert t[j..] == s[from + j..];
    }
    NormalizedChunk(t, end - from);
    assert t[..end - from] == s[from..end] && t[end - from..] == s[end..];
  }

  /** The normal form when `normalized` is out and `s` is still to come from `from` on. */
  ghost function Rebuilt(normalized: string, s: string, from: nat): string
    requires from <= |s|
  {
    normalized + Normalized(s[from..])
  }

  /** One chunk up to the next CR LF, or to the end. */
  lemma NextChunk(normalized: string, s: string, from: nat, i: int)
    requires from <= |s| && i == IndexOfCrLf(s, from)
    ensures i == -1 ==> Rebuilt(normalized, s, from) == normalized + s[from..]
    ensures i != -1 ==> Rebuilt(normalized, s, from) == Rebuilt(normalized + s[from..i] + "\n", s, i + 2)
  {
    if i == -1 {
      ChunkAt(s, from, |s|);
      assert s[from..|s|] == s[from..] && s[|s|..] == [] && s[from..] + [] == s[from..];
    } else {
      ChunkAt(s, from, i);
      assert s[i..][2..] == s[i + 2..];
      assert normalized + (s[from..i] + ("\n" + Normalized(s[i + 2..])))
          == normalized + s[from..i] + "\n" + Normalized(s[i + 2..]);
    }
  }

  method NormalizeCrlfScriptLineEndings(script: string) returns (r: string)
    ensures r == Normalized(script)
  {
    assert Rebuilt("", script, 0) == Normalized(script) by {
      assert script[0..] == script;
    }
    var crlfStart := IndexOfCrLf(script, 0);
    NextChunk("", script, 0, crlfStart);
    if crlfStart == -1 {
      return script;
    }
    var normalized := script[0..crlfStart];
    assert "" + script[0..crlfStart] + "\n" == normalized + "\n";
    var chunkStart := crlfStart + 2;
    normalized := normalized + "\n";
    crlfStart := IndexOfCrLf(script, chunkStart);
    while crlfStart != -1
      invariant 0 <= chunkStart <= |script| && crlfStart == IndexOfCrLf(script, chunkStart)
      invariant Rebuilt(normalized, script, chunkStart) == Normalized(script)
      decreases |script| - chunkStart
    {
      NextChunk(normalized, script, chunkStart, crlfStart);
      normalized := normalized + script[chunkStart..crlfStart];
      normalized := normalized + "\n";
      chunkStart := crlfStart + 2;
      crlfStart := IndexOfCrLf(script, chunkStart);
    }
    NextChunk(normalized, script, chunkStart, crlfStart);
    return normalized + script[chunkStart..];
  }

  lemma JoinFront(first: string, rest: seq<string>)
    requires rest != []
    ensures Join([first] + rest, "\n") == first + "\n" + Join(rest, "\n")
  {
    assert ([first] + rest)[1..] == rest;
  }

  lemma {:induction false} LinesJoined(s: string, current: string)
    ensures Join(SplitLines(s, current), "\n") == current + Normalized(s)
    decreases |s|
  {
    if s == [] {
      assert current + Normalized(s) == current;
    } else if StartsWithCrLf(s) {
      LinesJoined(s[2..], "");
      JoinFront(current, SplitLines(s[2..], ""));
      assert current + "\n" + ("" + Normalized(s[2..])) == current + ("\n" + Normalized(s[2..]));
    } else if s[0] == '\n' {
      LinesJoined(s[1..], "");
      JoinFront(current, SplitLines(s[1..], ""));
      assert current + "\n" + ("" + Normalized(s[1..])) == current + (['\n'] + Normalized(s[1..]));
    } else {
      LinesJoined(s[1..], current + [s[0]]);
      assert current + [s[0]] + Normalized(s[1..]) == current + ([s[0]] + Normalized(s[1..]));
    }
  }

  lemma NormalizedBreak(s: string, rest: string, current: string)
    requires '\n' !in current && s != [] && (StartsWithCrLf(s) || s[0] == '\n')
    requires rest == if StartsWithCrLf(s) then s[2..] else s[1..]
    ensures Split(current + Normalized(s), '\n') == [current] + Split(Normalized(rest), '\n')
    ensures SplitLines(s, current) == [current] + SplitLines(rest, "")
  {
    Regroup(current, ['\n'], Normalized(rest));
    SplitFirst(current, '\n', Normalized(rest));
  }

  lemma {:induction false} NormalizedSplit(s: string, current: string)
    requires '\n' !in current
    ensures Split(current + Normalized(s), '\n') == SplitLines(s, current)
    decreases |s|
  {
    if s == [] {
      assert current + Normalized(s) == current;
      IndexInFront(current, '\n', "");
    } else if StartsWithCrLf(s) || s[0] == '\n' {
      var rest := if StartsWithCrLf(s) then s[2..] else s[1..];
      NormalizedBreak(s, rest, current);
      NormalizedSplit(rest, "");
      assert "" + Normalized(rest) == Normalized(rest);
    } else {
      NormalizedSplit(s[1..], current + [s[0]]);
      assert current + [s[0]] + Normalized(s[1..]) == current + ([s[0]] + Normalized(s[1..]));
    }
  }

  /** Joining the lines gives the normalised script, and splitting it at LF gives the lines again. */
  lemma LinesAndNormalForm(script: string)
    ensures Join(Lines(script), "\n") == Normalized(script)
    ensures Split(Normalized(script), '\n') == Lines(script)
  {
    LinesJoined(script, "");
    NormalizedSplit(script, "");
    assert "" + Normalized(script) == Normalized(script);
  }
}
