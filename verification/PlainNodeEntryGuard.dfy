/** The build guard: no chunk that a plain-Node entry reaches may require electron. */
module PlainNodeEntryGuard {
  import opened CliText

  datatype Chunk = Chunk(
    fileName: string,
    name: string,
    isEntry: bool,
    imports: seq<string>,
    dynamicImports: seq<string>,
    code: string)

  type Bundle = map<string, Chunk>

  function Edges(chunk: Chunk): seq<string> {
    chunk.imports + chunk.dynamicImports
  }

  // ----- reachability -----

  ghost predicate Imports(chunk: Chunk, name: string) {
    name in chunk.imports || name in chunk.dynamicImports
  }

  /** A chain of imports, static or dynamic; every name but the last must be a chunk of the bundle. */
  ghost predicate IsImportPath(bundle: Bundle, path: seq<string>) {
    && path != []
    && forall i | 0 <= i < |path| - 1 :: path[i] in bundle && Imports(bundle[path[i]], path[i + 1])
  }

  ghost predicate Reaches(bundle: Bundle, entry: string, name: string) {
    exists path :: IsImportPath(bundle, path) && path[0] == entry && path[|path| - 1] == name
  }

  lemma ReachesSelf(bundle: Bundle, entry: string)
    ensures Reaches(bundle, entry, entry)
  {
    assert IsImportPath(bundle, [entry]);
  }

  lemma ReachesImport(bundle: Bundle, entry: string, name: string, next: string)
    requires Reaches(bundle, entry, name) && name in bundle && next in Edges(bundle[name])
    ensures Reaches(bundle, entry, next)
  {
    var path :| IsImportPath(bundle, path) && path[0] == entry && path[|path| - 1] == name;
    assert IsImportPath(bundle, path + [next]);
  }

  /** A set of names that holds the entry and every import of its chunks holds everything reachable. */
  lemma {:induction false} ClosedHoldsPath(bundle: Bundle, closed: set<string>, path: seq<string>)
    requires IsImportPath(bundle, path) && path[0] in closed
    requires forall name, next | name in closed && name in bundle && next in Edges(bundle[name]) :: next in closed
    ensures path[|path| - 1] in closed
    decreases |path|
  {
    if |path| > 1 {
      assert path[1] in closed;
      var rest := path[1..];
      assert forall i | 0 <= i < |rest| :: rest[i] == path[i + 1];
      ClosedHoldsPath(bundle, closed, rest);
    }
  }

  // ----- the worklist -----

  /** Every name reached so far is seen or still on the stack, and nothing else is. */
  ghost predicate Exploring(bundle: Bundle, entry: string, seen: set<string>, stack: seq<string>) {
    && (entry in seen || entry in stack)
    && (forall name | name in seen || name in stack :: Reaches(bundle, entry, name))
    && (forall name, next | name in seen && name in bundle && next in Edges(bundle[name]) ::
          next in seen || next in stack)
  }

  /** `reachable` lists the chunks of the seen names, each once. */
  ghost predicate Collected(bundle: Bundle, seen: set<string>, reachable: seq<Chunk>, names: seq<string>) {
    && |names| == |reachable|
    && (forall i | 0 <= i < |names| :: names[i] in bundle && reachable[i] == bundle[names[i]])
    && (forall i, j | 0 <= i < j < |names| :: names[i] != names[j])
    && (forall name :: name in names <==> name in seen && name in bundle)
  }

  lemma Skip(bundle: Bundle, entry: string, seen: set<string>, stack: seq<string>, name: string)
    requires Exploring(bundle, entry, seen, stack + [name]) && (name in seen || name !in bundle)
    ensures Exploring(bundle, entry, seen + {name}, stack)
  {
    forall n | n in seen + {name} || n in stack ensures Reaches(bundle, entry, n) {
      assert n in seen || n in stack + [name];
    }
    forall n, next | n in seen + {name} && n in bundle && next in Edges(bundle[n])
      ensures next in seen + {name} || next in stack
    {
      assert next in seen || next in stack + [name];
    }
    assert entry in seen || entry in stack + [name];
  }

  lemma Expand(bundle: Bundle, entry: string, seen: set<string>, stack: seq<string>, name: string)
    requires Exploring(bundle, entry, seen, stack + [name]) && name in bundle
    ensures Exploring(bundle, entry, seen + {name}, stack + Edges(bundle[name]))
  {
    var pushed := stack + Edges(bundle[name]);
    assert (stack + [name])[|stack|] == name;
    forall n | n in seen + {name} || n in pushed ensures Reaches(bundle, entry, n) {
      if n in Edges(bundle[name]) {
        ReachesImport(bundle, entry, name, n);
      } else {
        assert n in seen || n in stack + [name];
      }
    }
    forall n, next | n in seen + {name} && n in bundle && next in Edges(bundle[n])
      ensures next in seen + {name} || next in pushed
    {
      if n != name {
        assert next in seen || next in stack + [name];
      }
    }
    assert entry in seen || entry in stack + [name];
  }

  lemma ExploredAll(bundle: Bundle, entry: string, seen: set<string>)
    requires Exploring(bundle, entry, seen, [])
    ensures forall name :: name in seen <==> Reaches(bundle, entry, name)
  {
    forall name | Reaches(bundle, entry, name) ensures name in seen {
      var path :| IsImportPath(bundle, path) && path[0] == entry && path[|path| - 1] == name;
      ClosedHoldsPath(bundle, seen, path);
    }
  }

  /** The bundle files every chunk under its own name. */
  predicate Keyed(bundle: Bundle) {
    forall name | name in bundle :: bundle[name].fileName == name
  }

  /** `chunks` are the bundle's chunks that `entry` reaches, each once. */
  ghost predicate AreReachable(bundle: Bundle, entry: string, chunks: seq<Chunk>) {
    && (forall c | c in chunks :: c.fileName in bundle && bundle[c.fileName] == c && Reaches(bundle, entry, c.fileName))
    && (forall name | name in bundle && Reaches(bundle, entry, name) :: bundle[name] in chunks)
    && (forall i, j | 0 <= i < j < |chunks| :: chunks[i].fileName != chunks[j].fileName)
  }

  /** Terminates on every import graph, cycles and unknown names included, and lists exactly the chunks that
      the entry reaches, each once. */
  method CollectReachableChunks(entry: Chunk, byFileName: Bundle) returns (reachable: seq<Chunk>)
    requires Keyed(byFileName)
    ensures AreReachable(byFileName, entry.fileName, reachable)
  {
    ghost var names: seq<string>;
    var seen: set<string> := {};
    reachable, names := [], [];
    var stack := [entry.fileName];
    ReachesSelf(byFileName, entry.fileName);
    while |stack| > 0
      invariant Exploring(byFileName, entry.fileName, seen, stack)
      invariant Collected(byFileName, seen, reachable, names)
      decreases byFileName.Keys - seen, |stack|
    {
      var fileName := stack[|stack| - 1];
      ghost var before := stack;
      stack := stack[..|stack| - 1];
      assert before == stack + [fileName];
      if fileName in seen {
        Skip(byFileName, entry.fileName, seen, stack, fileName);
        assert seen + {fileName} == seen;
        continue;
      }
      if fileName !in byFileName {
        Skip(byFileName, entry.fileName, seen, stack, fileName);
        assert byFileName.Keys - (seen + {fileName}) == byFileName.Keys - seen;
        seen := seen + {fileName};
        continue;
      }
      Expand(byFileName, entry.fileName, seen, stack, fileName);
      assert fileName in byFileName.Keys - seen;
      seen := seen + {fileName};
      var chunk := byFileName[fileName];
      reachable := reachable + [chunk];
      names := names + [fileName];
      stack := stack + Edges(chunk);
    }
    assert stack == [];
    ExploredAll(byFileName, entry.fileName, seen);
  }

  // ----- the electron test -----

  predicate IsSpace(c: char) {
    || '\t' <= c <= '\r' || c == ' ' || c == '\U{A0}' || c == '\U{1680}' || '\U{2000}' <= c <= '\U{200A}'
    || c == '\U{2028}' || c == '\U{2029}' || c == '\U{202F}' || c == '\U{205F}' || c == '\U{3000}' || c == '\U{FEFF}'
  }

  function SkipSpace(s: string): string {
    if s != "" && IsSpace(s[0]) then SkipSpace(s[1..]) else s
  }

  predicate IsQuote(c: char) {
    c == '"' || c == '\''
  }

  /** `/require\(\s*["']electron["']\s*\)/` at the front of `s`. */
  predicate RequiresElectronHere(s: string) {
    "require(" <= s &&
    var t := SkipSpace(s[|"require("|..]);
    t != "" && IsQuote(t[0]) && "electron" <= t[1..] &&
    var u := t[1 + |"electron"|..];
    u != "" && IsQuote(u[0]) &&
    var v := SkipSpace(u[1..]);
    v != "" && v[0] == ')'
  }

  predicate RequiresElectron(code: string) {
    exists i | 0 <= i <= |code| :: RequiresElectronHere(code[i..])
  }

  ghost predicate AllSpace(s: string) {
    forall c | c in s :: IsSpace(c)
  }

  /** The text of one match of the pattern. */
  ghost predicate IsElectronCall(text: string) {
    exists a, q, r, b ::
      && AllSpace(a) && AllSpace(b) && (q == '"' || q == '\'') && (r == '"' || r == '\'')
      && text == ElectronCall(a, q, r, b)
  }

  ghost function ElectronCall(a: string, q: char, r: char, b: string): string {
    "require(" + (a + ([q] + ("electron" + ([r] + (b + ")")))))
  }

  ghost predicate HasElectronCall(code: string) {
    exists before, call, after :: IsElectronCall(call) && code == before + call + after
  }

  lemma {:induction false} SpaceBefore(s: string) returns (a: string)
    ensures AllSpace(a) && s == a + SkipSpace(s)
  {
    a := "";
    if s != "" && IsSpace(s[0]) {
      a := SpaceBefore(s[1..]);
      a := [s[0]] + a;
    }
  }

  lemma {:induction false} SpaceSkipped(a: string, s: string)
    requires AllSpace(a) && s != "" && !IsSpace(s[0])
    ensures SkipSpace(a + s) == s
  {
    if a == "" {
      assert a + s == s;
    } else {
      assert (a + s)[1..] == a[1..] + s && a[0] in a;
      SpaceSkipped(a[1..], s);
    }
  }

  /** The code matches exactly when a call stands in it: `require(`, white space, a quoted `electron` in either
      kind of quote on either side, white space, and the closing parenthesis. */
  lemma RequiresElectronExactly(code: string)
    ensures RequiresElectron(code) <==> HasElectronCall(code)
  {
    if RequiresElectron(code) {
      var i :| 0 <= i <= |code| && RequiresElectronHere(code[i..]);
      var call, after := CallFound(code[i..]);
      Cut(code, i, call, after);
    }
    if before, call, after :| IsElectronCall(call) && code == before + call + after {
      CallMatches(call, after);
      MatchesBehind(before, call, after);
    }
  }

  lemma Cut(code: string, i: nat, call: string, after: string)
    requires i <= |code| && code[i..] == call + after
    ensures code == code[..i] + call + after
  {
    assert code == code[..i] + (call + after);
  }

  lemma MatchesBehind(before: string, call: string, after: string)
    requires RequiresElectronHere(call + after)
    ensures RequiresElectron(before + call + after)
  {
    var code := before + call + after;
    assert code[|before|..] == call + after;
  }

  lemma CallFound(s: string) returns (call: string, after: string)
    requires RequiresElectronHere(s)
    ensures IsElectronCall(call) && s == call + after
  {
    var s1 := SplitPrefix("require(", s);
    var a := SpaceBefore(s1);
    var t := SkipSpace(s1);
    var u := SplitPrefix("electron", t[1..]);
    var b := SpaceBefore(u[1..]);
    var v := SkipSpace(u[1..]);
    after := v[1..];
    call := ElectronCall(a, t[0], u[0], b);
    Rebuilt(s, a, t, u, b, after);
  }

  lemma SplitPrefix(prefix: string, s: string) returns (rest: string)
    requires prefix <= s
    ensures rest == s[|prefix|..] && s == prefix + rest
  {
    rest := s[|prefix|..];
  }

  lemma Rebuilt(s: string, a: string, t: string, u: string, b: string, after: string)
    requires t != "" && u != "" && u[1..] == b + (")" + after)
    requires t[1..] == "electron" + u && s == "require(" + (a + t)
    ensures s == ElectronCall(a, t[0], u[0], b) + after
  {
    CallSplit(a, t[0], u[0], b, after);
    assert u == [u[0]] + u[1..] && t == [t[0]] + t[1..];
  }

  lemma CallSplit(a: string, q: char, r: char, b: string, after: string)
    ensures ElectronCall(a, q, r, b) + after
         == "require(" + (a + ([q] + ("electron" + ([r] + (b + (")" + after))))))
  {
  }

  lemma CallMatches(call: string, after: string)
    requires IsElectronCall(call)
    ensures RequiresElectronHere(call + after)
  {
    var a, q, r, b :| AllSpace(a) && AllSpace(b) && (q == '"' || q == '\'') && (r == '"' || r == '\'')
      && call == ElectronCall(a, q, r, b);
    CallSplit(a, q, r, b, after);
    var v := ")" + after;
    var u := [r] + (b + v);
    var t := [q] + ("electron" + u);
    var s := call + after;
    assert s == "require(" + (a + t) && s[|"require("|..] == a + t;
    SpaceSkipped(a, t);
    assert t[1..] == "electron" + u && t[1 + |"electron"|..] == u;
    assert u[1..] == b + v;
    SpaceSkipped(b, v);
  }

  /** The entry reaches a chunk whose code requires electron. */
  ghost predicate ReachesElectron(bundle: Bundle, entry: string) {
    exists name :: name in bundle && Reaches(bundle, entry, name) && RequiresElectron(bundle[name].code)
  }

  ghost predicate NoneRequires(chunks: seq<Chunk>, k: nat) {
    forall i | 0 <= i < k && i < |chunks| :: !RequiresElectron(chunks[i].code)
  }

  lemma NoneRequiresNext(chunks: seq<Chunk>, k: nat)
    requires k < |chunks| && NoneRequires(chunks, k) && !RequiresElectron(chunks[k].code)
    ensures NoneRequires(chunks, k + 1)
  {
  }

  lemma Offender(bundle: Bundle, entry: string, chunks: seq<Chunk>, k: nat)
    requires AreReachable(bundle, entry, chunks) && k < |chunks| && RequiresElectron(chunks[k].code)
    ensures var chunk := chunks[k];
            && chunk.fileName in bundle && bundle[chunk.fileName] == chunk && Reaches(bundle, entry, chunk.fileName)
    ensures ReachesElectron(bundle, entry)
  {
    assert chunks[k] in chunks;
  }

  /** The offending chunk, when the guard throws. */
  method AssertNoElectronRequire(entry: Chunk, byFileName: Bundle) returns (offender: Option<Chunk>)
    requires Keyed(byFileName)
    ensures offender.Some? <==> ReachesElectron(byFileName, entry.fileName)
    ensures offender.Some? ==>
              var chunk := offender.value;
              && RequiresElectron(chunk.code) && chunk.fileName in byFileName && byFileName[chunk.fileName] == chunk
              && Reaches(byFileName, entry.fileName, chunk.fileName)
  {
    var chunks := CollectReachableChunks(entry, byFileName);
    for k := 0 to |chunks|
      invariant NoneRequires(chunks, k)
    {
      if RequiresElectron(chunks[k].code) {
        Offender(byFileName, entry.fileName, chunks, k);
        return Some(chunks[k]);
      }
      NoneRequiresNext(chunks, k);
    }
    return None;
  }

  // ----- the plugin -----

  const PLAIN_NODE_ENTRY_NAMES := [
    "daemon-entry", "parcel-watcher-process-entry", "computer-sidecar", "agent-hooks/managed-agent-hook-controls"
  ]

  /** Later chunks of the same file name win. */
  function ByFileName(chunks: seq<Chunk>): (bundle: Bundle)
    ensures Keyed(bundle)
  {
    if chunks == [] then map[]
    else ByFileName(chunks[..|chunks| - 1])[chunks[|chunks| - 1].fileName := chunks[|chunks| - 1]]
  }

  function EntryByName(chunks: seq<Chunk>): map<string, Chunk> {
    if chunks == [] then map[]
    else
      var entries, last := EntryByName(chunks[..|chunks| - 1]), chunks[|chunks| - 1];
      if last.isEntry && last.name != "" then entries[last.name := last] else entries
  }

  /** The chunk that its file name stands for: the last one of that name. */
  ghost predicate IsFile(chunks: seq<Chunk>, k: int, fileName: string) {
    && 0 <= k < |chunks| && chunks[k].fileName == fileName
    && forall j | k < j < |chunks| :: chunks[j].fileName != fileName
  }

  /** The chunk that an entry name stands for: the last entry chunk of that name. */
  ghost predicate IsNamedEntry(chunks: seq<Chunk>, k: int, name: string) {
    && 0 <= k < |chunks| && chunks[k].isEntry && chunks[k].name == name
    && forall j | k < j < |chunks| :: !chunks[j].isEntry || chunks[j].name != name
  }

  lemma {:induction false} FilesAreLast(chunks: seq<Chunk>, fileName: string)
    ensures var files := ByFileName(chunks);
            && (fileName in files <==> exists k :: IsFile(chunks, k, fileName))
            && (forall k | IsFile(chunks, k, fileName) :: files[fileName] == chunks[k])
    decreases |chunks|
  {
    if chunks != [] {
      var n := |chunks| - 1;
      FilesAreLast(chunks[..n], fileName);
      if chunks[n].fileName == fileName {
        assert IsFile(chunks, n, fileName);
      } else {
        assert forall k :: IsFile(chunks, k, fileName) <==> IsFile(chunks[..n], k, fileName);
      }
    }
  }

  lemma {:induction false} EntriesAreLast(chunks: seq<Chunk>, name: string)
    ensures var entries := EntryByName(chunks);
            && (name in entries <==> name != "" && exists k :: IsNamedEntry(chunks, k, name))
            && (forall k | name != "" && IsNamedEntry(chunks, k, name) :: entries[name] == chunks[k])
    decreases |chunks|
  {
    if chunks != [] {
      var n := |chunks| - 1;
      EntriesAreLast(chunks[..n], name);
      if chunks[n].isEntry && chunks[n].name == name {
        assert IsNamedEntry(chunks, n, name);
      } else {
        assert forall k :: IsNamedEntry(chunks, k, name) <==> IsNamedEntry(chunks[..n], k, name);
      }
    }
  }

  /** From the entry of that name, imports lead to a chunk in whose code an electron call stands. */
  ghost predicate Ships(chunks: seq<Chunk>, name: string) {
    exists e, k, file :: IsNamedEntry(chunks, e, name) && ReachesCall(chunks, chunks[e].fileName, k, file)
  }

  ghost predicate ReachesCall(chunks: seq<Chunk>, entry: string, k: int, file: string) {
    IsFile(chunks, k, file) && Reaches(ByFileName(chunks), entry, file) && HasElectronCall(chunks[k].code)
  }

  lemma ReachesCallExactly(chunks: seq<Chunk>, entry: string)
    ensures ReachesElectron(ByFileName(chunks), entry) <==> exists k, file :: ReachesCall(chunks, entry, k, file)
  {
    var files := ByFileName(chunks);
    if ReachesElectron(files, entry) {
      var file :| file in files && Reaches(files, entry, file) && RequiresElectron(files[file].code);
      FilesAreLast(chunks, file);
      RequiresElectronExactly(files[file].code);
      var k :| IsFile(chunks, k, file);
      assert ReachesCall(chunks, entry, k, file);
    }
    if k, file :| ReachesCall(chunks, entry, k, file) {
      FilesAreLast(chunks, file);
      RequiresElectronExactly(chunks[k].code);
    }
  }

  lemma LeaksExactly(chunks: seq<Chunk>, name: string)
    requires name != ""
    ensures LeaksElectron(ByFileName(chunks), EntryByName(chunks), name) <==> Ships(chunks, name)
  {
    EntriesAreLast(chunks, name);
    if e :| IsNamedEntry(chunks, e, name) {
      ReachesCallExactly(chunks, chunks[e].fileName);
    }
  }

  /** That plain-Node entry is in the build and reaches a chunk that requires electron. */
  ghost predicate LeaksElectron(byFileName: Bundle, entryByName: map<string, Chunk>, name: string) {
    name in entryByName && ReachesElectron(byFileName, entryByName[name].fileName)
  }

  method CheckEntry(byFileName: Bundle, entryByName: map<string, Chunk>, name: string) returns (leaks: bool)
    requires Keyed(byFileName)
    ensures leaks <==> LeaksElectron(byFileName, entryByName, name)
  {
    if name !in entryByName {
      return false;
    }
    var offender := AssertNoElectronRequire(entryByName[name], byFileName);
    return offender.Some?;
  }

  ghost predicate NoneLeaks(byFileName: Bundle, entryByName: map<string, Chunk>, names: seq<string>, k: nat) {
    forall i | 0 <= i < k && i < |names| :: !LeaksElectron(byFileName, entryByName, names[i])
  }

  lemma NoneLeaksNext(byFileName: Bundle, entryByName: map<string, Chunk>, names: seq<string>, k: nat)
    requires k < |names| && NoneLeaks(byFileName, entryByName, names, k)
    requires !LeaksElectron(byFileName, entryByName, names[k])
    ensures NoneLeaks(byFileName, entryByName, names, k + 1)
  {
  }

  method CheckEntries(byFileName: Bundle, entryByName: map<string, Chunk>, names: seq<string>)
    returns (failed: Option<string>)
    requires Keyed(byFileName)
    ensures failed.None? ==> NoneLeaks(byFileName, entryByName, names, |names|)
    ensures failed.Some? ==> failed.value in names && LeaksElectron(byFileName, entryByName, failed.value)
  {
    for i := 0 to |names|
      invariant NoneLeaks(byFileName, entryByName, names, i)
    {
      var leaks := CheckEntry(byFileName, entryByName, names[i]);
      if leaks {
        return Some(names[i]);
      }
      NoneLeaksNext(byFileName, entryByName, names, i);
    }
    return None;
  }

  /** The build fails exactly when one of the four plain-Node entries ships an electron call. */
  method CheckBundle(chunks: seq<Chunk>) returns (failed: Option<string>)
    ensures failed.None? <==>
              && !Ships(chunks, "daemon-entry") && !Ships(chunks, "parcel-watcher-process-entry")
              && !Ships(chunks, "computer-sidecar") && !Ships(chunks, "agent-hooks/managed-agent-hook-controls")
    ensures failed.Some? ==> failed.value in PLAIN_NODE_ENTRY_NAMES && Ships(chunks, failed.value)
  {
    failed := CheckEntries(ByFileName(chunks), EntryByName(chunks), PLAIN_NODE_ENTRY_NAMES);
    forall name | name in PLAIN_NODE_ENTRY_NAMES
      ensures LeaksElectron(ByFileName(chunks), EntryByName(chunks), name) <==> Ships(chunks, name)
    {
      LeaksExactly(chunks, name);
    }
    assert PLAIN_NODE_ENTRY_NAMES[0] == "daemon-entry";
    assert PLAIN_NODE_ENTRY_NAMES[1] == "parcel-watcher-process-entry";
    assert PLAIN_NODE_ENTRY_NAMES[2] == "computer-sidecar";
    assert PLAIN_NODE_ENTRY_NAMES[3] == "agent-hooks/managed-agent-hook-controls";
  }
}
