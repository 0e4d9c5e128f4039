/** What the capped walk leaves out, and finding a node again from its record. */
module AccessibilityRecords {
  import opened CliText
  import opened AccessibilityTree

  const EMPTY := Rendering([], [], false, false)

  // ----- the capped walk takes entries from the front -----

  function TakeEntry(st: Rendering, e: Entry): Rendering {
    if |st.records| >= MAX_NODES || e.kind.TooDeep? then st.(truncated := true)
    else if e.kind.Emitted? then Emit(st, e.node, e.depth, e.path)
    else st
  }

  function Feed(st: Rendering, entries: seq<Entry>): Rendering
    decreases entries
  {
    if entries == [] then st else Feed(TakeEntry(st, entries[0]), entries[1..])
  }

  lemma {:induction false} FeedConcat(st: Rendering, a: seq<Entry>, b: seq<Entry>)
    ensures Feed(st, a + b) == Feed(Feed(st, a), b)
    decreases a
  {
    if a == [] {
      assert a + b == b;
    } else {
      assert (a + b)[1..] == a[1..] + b;
      FeedConcat(TakeEntry(st, a[0]), a[1..], b);
    }
  }

  lemma {:induction false} FeedWhenFull(st: Rendering, entries: seq<Entry>)
    requires |st.records| >= MAX_NODES && entries != []
    ensures Feed(st, entries) == st.(truncated := true)
    decreases entries
  {
    if |entries| > 1 {
      FeedWhenFull(st.(truncated := true), entries[1..]);
    }
  }

  /** The depth flag aside, which only says why the result is cut. */
  function Cut(st: Rendering): Rendering {
    st.(maxDepthReached := false)
  }

  lemma {:induction false} WalkFeeds(node: Node, depth: nat, path: Trail, st: Rendering)
    ensures Cut(Walked(node, depth, path, false, st)) == Feed(Cut(st), Entries(node, depth, path))
    decreases node, 1
  {
    if |st.records| >= MAX_NODES {
      FeedWhenFull(Cut(st), Entries(node, depth, path));
    } else if depth > MAX_DEPTH {
    } else if ShouldElide(node) {
      KidsFeed(node.kids, depth, path, st);
    } else {
      WalkFeedsEmitted(node, depth, path, st);
    }
  }

  lemma {:induction false} WalkFeedsEmitted(node: Node, depth: nat, path: Trail, st: Rendering)
    requires |st.records| < MAX_NODES && depth <= MAX_DEPTH && !ShouldElide(node)
    ensures Cut(Walked(node, depth, path, false, st)) == Feed(Cut(st), Entries(node, depth, path))
    decreases node, 0, 0
  {
    var emitted := Emit(st, node, depth, path);
    var rest := if HidesKids(node) then [] else KidEntries(node.kids, depth + 1, path);
    assert Cut(emitted) == Emit(Cut(st), node, depth, path);
    if !HidesKids(node) {
      KidsFeed(node.kids, depth + 1, path, emitted);
    }
  }

  lemma {:induction false} KidsFeed(kids: seq<Node>, depth: nat, path: Trail, st: Rendering)
    ensures Cut(WalkedKids(kids, depth, path, false, st)) == Feed(Cut(st), KidEntries(kids, depth, path))
    decreases kids, 0
  {
    if kids != [] {
      var here := path + [kids[0].index];
      WalkFeeds(kids[0], depth, here, st);
      KidsFeed(kids[1..], depth, path, Walked(kids[0], depth, here, false, st));
      FeedConcat(Cut(st), Entries(kids[0], depth, here), KidEntries(kids[1..], depth, path));
    }
  }

  predicate HasDeep(entries: seq<Entry>) {
    exists e | e in entries :: e.kind.TooDeep?
  }

  /** Something is left when `room` nodes have been emitted. */
  predicate Overflows(entries: seq<Entry>, room: nat) {
    entries != [] && (room == 0 || Overflows(entries[1..], if entries[0].kind.Emitted? then room - 1 else room))
  }

  function NumberedRecords(from: nat, emits: seq<Entry>): seq<Record>
    decreases emits
  {
    if emits == [] then [] else [RecordOf(emits[0].node, from, emits[0].path)] + NumberedRecords(from + 1, emits[1..])
  }

  function NumberedLines(from: nat, emits: seq<Entry>): seq<Line>
    decreases emits
  {
    if emits == [] then [] else [LineOf(emits[0].node, from, emits[0].depth)] + NumberedLines(from + 1, emits[1..])
  }

  lemma {:induction false} FedTruncation(st: Rendering, entries: seq<Entry>)
    requires |st.records| <= MAX_NODES
    ensures Feed(st, entries).truncated
       <==> st.truncated || HasDeep(entries) || Overflows(entries, MAX_NODES - |st.records|)
    decreases entries
  {
    if entries != [] {
      if |st.records| == MAX_NODES {
        FeedWhenFull(st, entries);
      } else {
        FedTruncation(TakeEntry(st, entries[0]), entries[1..]);
        assert entries == [entries[0]] + entries[1..];
      }
    }
  }

  /** `st` with more nodes emitted. */
  function Appended(st: Rendering, emits: seq<Entry>): Rendering {
    st.(records := st.records + NumberedRecords(|st.records|, emits),
        lines := st.lines + NumberedLines(|st.records|, emits))
  }

  lemma UpToFront(e: Entry, rest: seq<Entry>, room: nat)
    requires room > 0
    ensures UpTo([e] + rest, room) == [e] + UpTo(rest, room - 1)
  {
  }

  lemma EmitsFront(entries: seq<Entry>)
    requires entries != []
    ensures Emits(entries)
         == if entries[0].kind.Emitted? then [entries[0]] + Emits(entries[1..]) else Emits(entries[1..])
  {
  }

  lemma FedEmit(st: Rendering, e: Entry, emits: seq<Entry>)
    requires |st.records| < MAX_NODES
    ensures Appended(Emit(st, e.node, e.depth, e.path), UpTo(emits, MAX_NODES - |st.records| - 1))
         == Appended(st, UpTo([e] + emits, MAX_NODES - |st.records|))
  {
    UpToFront(e, emits, MAX_NODES - |st.records|);
  }

  lemma {:induction false} FedState(st: Rendering, entries: seq<Entry>)
    requires |st.records| <= MAX_NODES
    ensures var full := Appended(st, UpTo(Emits(entries), MAX_NODES - |st.records|));
            Feed(st, entries).records == full.records && Feed(st, entries).lines == full.lines
    decreases entries
  {
    if entries != [] {
      if |st.records| == MAX_NODES {
        FeedWhenFull(st, entries);
        assert UpTo(Emits(entries), 0) == [];
      } else {
        var e, rest := entries[0], entries[1..];
        FedState(TakeEntry(st, e), rest);
        EmitsFront(entries);
        if e.kind.Emitted? {
          FedEmit(st, e, Emits(rest));
        }
      }
    }
  }

  lemma {:induction false} NumberedAt(from: nat, emits: seq<Entry>, i: nat)
    requires i < |emits|
    ensures |NumberedRecords(from, emits)| == |NumberedLines(from, emits)| == |emits|
    ensures NumberedRecords(from, emits)[i] == RecordOf(emits[i].node, from + i, emits[i].path)
    ensures NumberedLines(from, emits)[i] == LineOf(emits[i].node, from + i, emits[i].depth)
    decreases emits
  {
    if |emits| > 1 {
      NumberedAt(from + 1, emits[1..], if i == 0 then 0 else i - 1);
    } else {
      assert emits[1..] == [];
    }
  }

  lemma NumberedAll(emits: seq<Entry>)
    ensures |NumberedRecords(0, emits)| == |NumberedLines(0, emits)| == |emits|
    ensures forall i | 0 <= i < |emits| ::
              && NumberedRecords(0, emits)[i] == RecordOf(emits[i].node, i, emits[i].path)
              && NumberedLines(0, emits)[i] == LineOf(emits[i].node, i, emits[i].depth)
  {
    forall i | 0 <= i < |emits|
      ensures |NumberedRecords(0, emits)| == |NumberedLines(0, emits)| == |emits|
      ensures NumberedRecords(0, emits)[i] == RecordOf(emits[i].node, i, emits[i].path)
      ensures NumberedLines(0, emits)[i] == LineOf(emits[i].node, i, emits[i].depth)
    {
      NumberedAt(0, emits, i);
    }
  }

  lemma {:induction false} EmitsWhenRoom(entries: seq<Entry>, room: nat)
    requires !Overflows(entries, room)
    ensures |Emits(entries)| <= room
  {
    if entries != [] {
      EmitsWhenRoom(entries[1..], if entries[0].kind.Emitted? then room - 1 else room);
    }
  }

  lemma {:induction false} EmitsAreEntries(entries: seq<Entry>, i: nat)
    requires i < |Emits(entries)|
    ensures Emits(entries)[i] in entries && Emits(entries)[i].kind.Emitted?
  {
    var rest := Emits(entries[1..]);
    if entries[0].kind.Emitted? {
      if i > 0 {
        EmitsAreEntries(entries[1..], i - 1);
      }
    } else {
      EmitsAreEntries(entries[1..], i);
    }
  }

  lemma {:induction false} EmittedDepth(node: Node, depth: nat, path: Trail)
    ensures forall e | e in Entries(node, depth, path) && !e.kind.TooDeep? :: e.depth <= MAX_DEPTH
    decreases node, 1
  {
    KidsDepth(node.kids, depth, path);
    KidsDepth(node.kids, depth + 1, path);
  }

  lemma {:induction false} KidsDepth(kids: seq<Node>, depth: nat, path: Trail)
    ensures forall e | e in KidEntries(kids, depth, path) && !e.kind.TooDeep? :: e.depth <= MAX_DEPTH
    decreases kids, 0
  {
    if kids != [] {
      EmittedDepth(kids[0], depth, path + [kids[0].index]);
      KidsDepth(kids[1..], depth, path);
    }
  }

  // ----- the depth flag -----

  /** A shown node at the last depth, 64, whose children the walk still tries. */
  predicate AtLimit(e: Entry) {
    e.depth == 64 && !HidesKids(e.node) && e.node.kids != []
  }

  predicate AnyAtLimit(emits: seq<Entry>) {
    exists e | e in emits :: AtLimit(e)
  }

  lemma {:induction false} EmitsConcat(a: seq<Entry>, b: seq<Entry>)
    ensures Emits(a + b) == Emits(a) + Emits(b)
  {
    if a == [] {
      assert a + b == b;
    } else {
      EmitsConcat(a[1..], b);
      assert a + b == [a[0]] + (a[1..] + b) && a == [a[0]] + a[1..];
      Regroup(if a[0].kind.Emitted? then [a[0]] else [], Emits(a[1..]), Emits(b));
    }
  }

  /** The nodes of a listing that still get a record. */
  function KeptOf(entries: seq<Entry>, st: Rendering): seq<Entry>
    requires |st.records| <= MAX_NODES
  {
    UpTo(Emits(entries), MAX_NODES - |st.records|)
  }

  lemma WalkAdds(node: Node, depth: nat, path: Trail, st: Rendering)
    requires |st.records| <= MAX_NODES
    ensures |Walked(node, depth, path, false, st).records|
         == |st.records| + |KeptOf(Entries(node, depth, path), st)| <= MAX_NODES
  {
    var entries := Entries(node, depth, path);
    var kept := KeptOf(entries, st);
    WalkFeeds(node, depth, path, st);
    FedState(Cut(st), entries);
    NumberedLength(|st.records|, kept);
  }

  lemma {:induction false} NumberedLength(from: nat, emits: seq<Entry>)
    ensures |NumberedRecords(from, emits)| == |emits|
    decreases emits
  {
    if emits != [] {
      NumberedLength(from + 1, emits[1..]);
    }
  }

  lemma {:induction false} DepthFlag(node: Node, depth: nat, path: Trail, st: Rendering)
    requires |st.records| <= MAX_NODES
    ensures Walked(node, depth, path, false, st).maxDepthReached
       <==> st.maxDepthReached || depth > MAX_DEPTH || AnyAtLimit(KeptOf(Entries(node, depth, path), st))
    decreases node, 1
  {
    if |st.records| == MAX_NODES {
    } else if depth > MAX_DEPTH {
      assert Emits([Entry(node, depth, path, TooDeep)][1..]) == [];
    } else if ShouldElide(node) {
      EmitsFront(Entries(node, depth, path));
      assert Entries(node, depth, path)[1..] == KidEntries(node.kids, depth, path);
      KidsDepthFlag(node.kids, depth, path, st);
    } else {
      ShownDepthFlag(node, depth, path, st);
    }
  }

  lemma {:induction false} ShownDepthFlag(node: Node, depth: nat, path: Trail, st: Rendering)
    requires |st.records| < MAX_NODES && depth <= MAX_DEPTH && !ShouldElide(node)
    ensures Walked(node, depth, path, false, st).maxDepthReached
       <==> st.maxDepthReached || AnyAtLimit(KeptOf(Entries(node, depth, path), st))
    decreases node, 0, 0
  {
    var e := Entry(node, depth, path, Emitted);
    var rest := if HidesKids(node) then [] else KidEntries(node.kids, depth + 1, path);
    var emitted := Emit(st, node, depth, path);
    KeptFront(st, e, rest, emitted);
    if !HidesKids(node) {
      KidsDepthFlag(node.kids, depth + 1, path, emitted);
    }
  }

  lemma KeptFront(st: Rendering, e: Entry, rest: seq<Entry>, emitted: Rendering)
    requires |st.records| < MAX_NODES && |emitted.records| == |st.records| + 1 && e.kind.Emitted?
    ensures KeptOf([e] + rest, st) == [e] + KeptOf(rest, emitted)
    ensures AnyAtLimit(KeptOf([e] + rest, st)) <==> AtLimit(e) || AnyAtLimit(KeptOf(rest, emitted))
  {
    EmitsFront([e] + rest);
    assert ([e] + rest)[1..] == rest;
    UpToFront(e, Emits(rest), MAX_NODES - |st.records|);
    assert AnyAtLimit([e]) <==> AtLimit(e) by {
      assert e in [e];
    }
  }

  lemma {:induction false} KidsDepthFlag(kids: seq<Node>, depth: nat, path: Trail, st: Rendering)
    requires |st.records| <= MAX_NODES
    ensures WalkedKids(kids, depth, path, false, st).maxDepthReached
       <==> || st.maxDepthReached || (kids != [] && depth > MAX_DEPTH)
            || AnyAtLimit(KeptOf(KidEntries(kids, depth, path), st))
    decreases kids, 0
  {
    if kids != [] {
      var here := path + [kids[0].index];
      var next := Walked(kids[0], depth, here, false, st);
      var first, rest := Entries(kids[0], depth, here), KidEntries(kids[1..], depth, path);
      DepthFlag(kids[0], depth, here, st);
      WalkAdds(kids[0], depth, here, st);
      KidsDepthFlag(kids[1..], depth, path, next);
      KeptConcatOf(first, rest, st, next);
    }
  }

  lemma KeptConcatOf(a: seq<Entry>, b: seq<Entry>, st: Rendering, next: Rendering)
    requires |st.records| <= MAX_NODES && |next.records| == |st.records| + |KeptOf(a, st)| <= MAX_NODES
    ensures AnyAtLimit(KeptOf(a + b, st)) <==> AnyAtLimit(KeptOf(a, st)) || AnyAtLimit(KeptOf(b, next))
  {
    KeptOfBoth(a, b, st, next);
  }

  lemma KeptOfBoth(a: seq<Entry>, b: seq<Entry>, st: Rendering, next: Rendering)
    requires |st.records| <= MAX_NODES && |next.records| == |st.records| + |KeptOf(a, st)| <= MAX_NODES
    ensures KeptOf(a + b, st) == KeptOf(a, st) + KeptOf(b, next)
  {
    EmitsConcat(a, b);
  }

  /** Without compaction the output is the first 1200 emitted nodes in preorder, numbered from 0, one
      line each and none deeper than 64; it is marked truncated exactly when the listing has a node
      that is too deep or goes on after the last number; and the depth flag is set exactly when a node shown
      at depth 64 has children that its line does not stand for. */
  lemma RenderingIsPrefix(root: Node, path: Trail)
    ensures var entries := Entries(root, 0, path);
            var kept := UpTo(Emits(entries), 1200);
            var r := Walked(root, 0, path, false, EMPTY);
            && |r.records| == |r.lines| == |kept| <= 1200
            && (forall i | 0 <= i < |kept| ::
                  && r.records[i] == RecordOf(kept[i].node, i, kept[i].path)
                  && r.lines[i] == LineOf(kept[i].node, i, kept[i].depth)
                  && kept[i].depth <= 64)
            && (r.truncated <==> HasDeep(entries) || Overflows(entries, 1200))
            && (!r.truncated ==> kept == Emits(entries))
            && (r.maxDepthReached <==> AnyAtLimit(kept))
  {
    DepthFlag(root, 0, path, EMPTY);
    var entries := Entries(root, 0, path);
    var emits := Emits(entries);
    var kept := UpTo(emits, MAX_NODES);
    WalkFeeds(root, 0, path, EMPTY);
    FedState(EMPTY, entries);
    FedTruncation(EMPTY, entries);
    var r := Walked(root, 0, path, false, EMPTY);
    assert r.records == NumberedRecords(0, kept) && r.lines == NumberedLines(0, kept);
    NumberedAll(kept);
    forall i | 0 <= i < |kept| ensures kept[i].depth <= MAX_DEPTH {
      EmittedDepth(root, 0, path);
      EmitsAreEntries(entries, i);
      assert kept[i] == emits[i];
    }
    if !Overflows(entries, MAX_NODES) {
      EmitsWhenRoom(entries, MAX_NODES);
    }
  }

  // ----- nodes by their path -----

  /** `dict(children(node)).get(index)`: a later child of the same index would win. */
  function KidAt(kids: seq<Node>, index: nat): (r: Option<Node>)
    ensures r.Some? ==> r.value in kids && r.value.index == index
  {
    if kids == [] then None
    else if kids[|kids| - 1].index == index then Some(kids[|kids| - 1])
    else KidAt(kids[..|kids| - 1], index)
  }

  function NodeAt(node: Node, path: Trail): Option<Node>
    decreases path
  {
    if path == [] then Some(node)
    else
      match KidAt(node.kids, path[0])
      case None => None
      case Some(kid) => NodeAt(kid, path[1..])
  }

  method FindByPath(app: Node, path: Trail) returns (r: Option<Node>)
    ensures r == NodeAt(app, path)
  {
    var node := app;
    for k := 0 to |path|
      invariant NodeAt(node, path[k..]) == NodeAt(app, path)
    {
      assert path[k..][1..] == path[k + 1..];
      var kid := KidAt(node.kids, path[k]);
      if kid.None? {
        return None;
      }
      node := kid.value;
    }
    return Some(node);
  }

  predicate SameElementSignature(node: Node, saved: Record) {
    && node.info.role == saved.controlType && node.info.name == saved.name
    && node.info.automationId == saved.automationId && node.info.actions == saved.actions
  }

  function FindElement(app: Node, saved: Record): Option<Node> {
    match NodeAt(app, saved.runtimeId)
    case None => None
    case Some(node) => if SameElementSignature(node, saved) then Some(node) else None
  }

  /** For any tree and any saved record: a node is found exactly when it stands at the record's path and still
      has the record's role, name, automation id and actions. */
  lemma FindElementExactly(app: Node, saved: Record, node: Node)
    ensures FindElement(app, saved) == Some(node) <==>
              && NodeAt(app, saved.runtimeId) == Some(node)
              && node.info.role == saved.controlType && node.info.name == saved.name
              && node.info.automationId == saved.automationId && node.info.actions == saved.actions
  {
  }

  /** Children are listed by increasing position, at every node. */
  predicate WellIndexed(node: Node)
    decreases node, 1
  {
    (forall i, j | 0 <= i < j < |node.kids| :: node.kids[i].index < node.kids[j].index) && AllWellIndexed(node.kids)
  }

  predicate AllWellIndexed(kids: seq<Node>)
    decreases kids, 0
  {
    kids == [] || (WellIndexed(kids[0]) && AllWellIndexed(kids[1..]))
  }

  lemma {:induction false} KidIsAt(kids: seq<Node>, k: nat)
    requires k < |kids| && forall i, j | 0 <= i < j < |kids| :: kids[i].index < kids[j].index
    ensures KidAt(kids, kids[k].index) == Some(kids[k])
  {
    if k < |kids| - 1 {
      KidIsAt(kids[..|kids| - 1], k);
    }
  }

  lemma {:induction false} StepDown(app: Node, path: Trail, node: Node, k: nat)
    requires NodeAt(app, path) == Some(node) && WellIndexed(node) && k < |node.kids|
    ensures NodeAt(app, path + [node.kids[k].index]) == Some(node.kids[k])
    decreases path
  {
    var next := path + [node.kids[k].index];
    if path == [] {
      KidIsAt(node.kids, k);
      assert next[1..] == [];
    } else {
      assert next[1..] == path[1..] + [node.kids[k].index];
      StepDown(KidAt(app.kids, path[0]).value, path[1..], node, k);
    }
  }

  lemma {:induction false} KidWellIndexed(kids: seq<Node>, k: nat)
    requires AllWellIndexed(kids) && k < |kids|
    ensures WellIndexed(kids[k])
  {
    if k > 0 {
      KidWellIndexed(kids[1..], k - 1);
    }
  }

  // ----- every record leads back to its node -----

  /** The record was made from the node that its path leads to. */
  ghost predicate Faithful(app: Node, r: Record) {
    match NodeAt(app, r.runtimeId)
    case None => false
    case Some(node) => r == RecordOf(node, r.index, r.runtimeId)
  }

  ghost predicate AllFaithful(app: Node, records: seq<Record>) {
    forall r | r in records :: Faithful(app, r)
  }

  lemma CompactedFaithful(app: Node, st: Rendering, start: nat, depth: nat)
    requires start <= |st.lines| && AllFaithful(app, st.records)
    ensures AllFaithful(app, Compacted(st, start, depth).records)
  {
    forall r | r in Compacted(st, start, depth).records ensures r in st.records {
      if Compacts(st, start, depth) {
        var tail := st.lines[TabIndexes(st.lines, start, depth)[0]..];
        WithoutKeeps(st.records, OmittedIndexes(tail, depth, st.records), r);
      }
    }
  }

  lemma {:induction false} WalkIsFaithful(app: Node, node: Node, depth: nat, path: Trail, compact: bool, st: Rendering)
    requires NodeAt(app, path) == Some(node) && WellIndexed(node) && AllFaithful(app, st.records)
    ensures AllFaithful(app, Walked(node, depth, path, compact, st).records)
    decreases node, 1
  {
    if |st.records| < MAX_NODES && depth <= MAX_DEPTH {
      if ShouldElide(node) {
        KidsAreFaithful(app, node, 0, depth, path, compact, st);
      } else {
        ShownIsFaithful(app, node, depth, path, compact, st);
      }
    }
  }

  lemma {:induction false} ShownIsFaithful(app: Node, node: Node, depth: nat, path: Trail, compact: bool,
                                           st: Rendering)
    requires NodeAt(app, path) == Some(node) && WellIndexed(node) && AllFaithful(app, st.records)
    ensures AllFaithful(app, WalkedShown(node, depth, path, compact, st).records)
    decreases node, 0, |node.kids| + 1
  {
    var emitted := Emit(st, node, depth, path);
    assert Faithful(app, RecordOf(node, |st.records|, path));
    if !HidesKids(node) {
      KidsAreFaithful(app, node, 0, depth + 1, path, compact, emitted);
      if compact {
        var below := WalkedKids(node.kids, depth + 1, path, compact, emitted);
        CompactedFaithful(app, below, |emitted.lines|, depth + 1);
      }
    }
  }

  lemma {:induction false} KidsAreFaithful(app: Node, node: Node, k: nat, depth: nat, path: Trail, compact: bool,
                                           st: Rendering)
    requires NodeAt(app, path) == Some(node) && WellIndexed(node) && AllFaithful(app, st.records) && k <= |node.kids|
    ensures AllFaithful(app, WalkedKids(node.kids[k..], depth, path, compact, st).records)
    decreases node, 0, |node.kids| - k
  {
    if k < |node.kids| {
      var kid := node.kids[k];
      StepDown(app, path, node, k);
      KidWellIndexed(node.kids, k);
      WalkIsFaithful(app, kid, depth, path + [kid.index], compact, st);
      assert node.kids[k..][1..] == node.kids[k + 1..];
      KidsAreFaithful(app, node, k + 1, depth, path, compact, Walked(kid, depth, path + [kid.index], compact, st));
    }
  }

  /** `find_element` gives back, for every record of a snapshot, the very node the record was made from,
      elided ancestors and tab compaction included. */
  lemma RecordsFindTheirNodes(app: Node, window: nat, root: Node, compact: bool)
    requires WellIndexed(app) && KidAt(app.kids, window) == Some(root)
    ensures forall r | r in Walked(root, 0, [window], compact, EMPTY).records ::
              && FindElement(app, r).Some? && FindElement(app, r) == NodeAt(app, r.runtimeId)
              && r == RecordOf(FindElement(app, r).value, r.index, r.runtimeId)
  {
    var k :| 0 <= k < |app.kids| && app.kids[k] == root;
    KidWellIndexed(app.kids, k);
    assert [window][1..] == [];
    WalkIsFaithful(app, root, 0, [window], compact, EMPTY);
  }

  /** Looked up in another tree, a record of an earlier rendering finds nothing exactly when no node stands at
      its path, or the one there differs from the node it was made from in role, name, automation id or
      actions. */
  lemma StaleRecordIsRefused(app: Node, window: nat, root: Node, compact: bool, saved: Record, now: Node)
    requires WellIndexed(app) && KidAt(app.kids, window) == Some(root)
    requires saved in Walked(root, 0, [window], compact, EMPTY).records
    ensures NodeAt(app, saved.runtimeId).Some?
    ensures var before := NodeAt(app, saved.runtimeId).value.info;
            FindElement(now, saved).None? <==>
              match NodeAt(now, saved.runtimeId)
              case None => true
              case Some(node) =>
                || node.info.role != before.role || node.info.name != before.name
                || node.info.automationId != before.automationId || node.info.actions != before.actions
  {
    RecordsFindTheirNodes(app, window, root, compact);
    var made := NodeAt(app, saved.runtimeId).value;
    FindElementExactly(app, saved, made);
    match NodeAt(now, saved.runtimeId) {
      case None =>
      case Some(node) => FindElementExactly(now, saved, node);
    }
  }

  // ----- what is left out -----

  /** Some entry stands at that path, with that kind. */
  ghost predicate Listed(entries: seq<Entry>, path: Trail, kind: Kind) {
    exists e | e in entries :: e.path == path && e.kind == kind
  }

  ghost predicate HiddenBelow(entries: seq<Entry>, path: Trail) {
    exists e | e in entries :: e.kind.Emitted? && HidesKids(e.node) && e.path < path
  }

  ghost predicate CutAbove(entries: seq<Entry>, path: Trail) {
    exists e | e in entries :: e.kind.TooDeep? && e.path <= path
  }

  /** A node is emitted, elided, below a node that hides its children, or cut off by depth. */
  ghost predicate Accounted(entries: seq<Entry>, path: Trail) {
    || Listed(entries, path, Emitted)
    || Listed(entries, path, Elided)
    || HiddenBelow(entries, path)
    || CutAbove(entries, path)
  }

  lemma {:induction false} EveryNodeAccounted(node: Node, depth: nat, path: Trail, below: Trail)
    requires NodeAt(node, below).Some?
    ensures Accounted(Entries(node, depth, path), path + below)
    decreases node, 1
  {
    var entries := Entries(node, depth, path);
    assert entries[0] in entries && entries[0].path == path;
    if below == [] {
      assert path + below == path;
    } else if depth <= MAX_DEPTH && (ShouldElide(node) || !HidesKids(node)) {
      var kid := KidAt(node.kids, below[0]).value;
      var k :| 0 <= k < |node.kids| && node.kids[k] == kid;
      var next := if ShouldElide(node) then depth else depth + 1;
      EveryNodeAccounted(kid, next, path + [kid.index], below[1..]);
      assert path + [kid.index] + below[1..] == path + below;
      KidEntriesHold(node.kids, k, next, path);
    } else {
      assert path < path + below;
    }
  }

  lemma {:induction false} KidEntriesHold(kids: seq<Node>, k: nat, depth: nat, path: Trail)
    requires k < |kids|
    ensures forall e | e in Entries(kids[k], depth, path + [kids[k].index]) :: e in KidEntries(kids, depth, path)
    decreases kids
  {
    if k > 0 {
      KidEntriesHold(kids[1..], k - 1, depth, path);
    }
  }

  /** An untruncated rendering without compaction leaves out only elided nodes and nodes below one whose
      line stands for its children. */
  lemma NothingElseOmitted(root: Node, path: Trail, below: Trail)
    requires NodeAt(root, below).Some? && !Walked(root, 0, path, false, EMPTY).truncated
    ensures var entries := Entries(root, 0, path);
            || (exists r | r in Walked(root, 0, path, false, EMPTY).records :: r.runtimeId == path + below)
            || Listed(entries, path + below, Elided)
            || HiddenBelow(entries, path + below)
  {
    var entries := Entries(root, 0, path);
    RenderingIsPrefix(root, path);
    EveryNodeAccounted(root, 0, path, below);
    if Listed(entries, path + below, Emitted) {
      var e :| e in entries && e.path == path + below && e.kind == Emitted;
      var i := EmittedAt(entries, e);
      var r := Walked(root, 0, path, false, EMPTY).records[i];
      assert r in Walked(root, 0, path, false, EMPTY).records;
    }
  }

  lemma {:induction false} EmittedAt(entries: seq<Entry>, e: Entry) returns (i: nat)
    requires e in entries && e.kind.Emitted?
    ensures i < |Emits(entries)| && Emits(entries)[i] == e
  {
    if entries[0] == e {
      i := 0;
    } else {
      i := EmittedAt(entries[1..], e);
      if entries[0].kind.Emitted? {
        i := i + 1;
      }
    }
  }

  // ----- which nodes are listed -----

  /** A wrapper of nothing: a generic role, no name, id or value, only routine actions, no text summary, and
      one child at most. */
  ghost predicate IsWrapper(node: Node) {
    var info := node.info;
    && Lower(info.role) in {"panel", "filler", "unknown", "section"}
    && info.name == "" && info.automationId == "" && info.value == "" && !info.summarised && |node.kids| <= 1
    && forall a | a in info.actions :: IsRoutine(Lower(Strip(a)))
  }

  ghost predicate IsRoutine(action: string) {
    action in {"click", "press", "show default ui", "show alternate ui", "show menu", "scroll to visible", "raise"}
  }

  /** A line that stands for what is below it: a text summary, or a name, id or value other than white space in
      a role that is read as its label. */
  ghost predicate Covers(info: Info) {
    || info.summarised
    || (&& (info.name != "" || info.automationId != "" || exists c :: c in info.value && !IsSpace(c))
        && Lower(info.role) in {"button", "check box", "checkbox", "combo box", "heading", "link", "menu item",
                                "page tab", "push button", "radio button"})
  }

  /** No node above the one at `below` stands for it. */
  ghost predicate Uncovered(node: Node, below: Trail)
    decreases below
  {
    below == [] ||
    (!Covers(node.info) && KidAt(node.kids, below[0]).Some? && Uncovered(KidAt(node.kids, below[0]).value, below[1..]))
  }

  lemma TestsAre(node: Node)
    ensures ShouldElide(node) <==> IsWrapper(node)
    ensures HidesKids(node) <==> Covers(node.info)
    ensures !(IsWrapper(node) && Covers(node.info))
  {
    var info := node.info;
    assert forall a :: IsRoutine(a) <==> a in NOISY_ACTIONS;
    assert (exists c :: c in info.value && !IsSpace(c)) <==> HasText(info.value) by {
      if c :| c in info.value && !IsSpace(c) {
        var i :| 0 <= i < |info.value| && info.value[i] == c;
      }
    }
    RolesDiffer(Lower(info.role));
  }

  lemma RolesDiffer(role: string)
    ensures role in {"panel", "filler", "unknown", "section"} ==> role !in LABELLED_ROLES
  {
  }

  /** An entry of the listing is right about where its node stands, and about what becomes of it. */
  ghost predicate EntryIsRight(node: Node, path: Trail, e: Entry) {
    && path <= e.path
    && NodeAt(node, e.path[|path|..]) == Some(e.node)
    && Uncovered(node, e.path[|path|..])
    && (!e.kind.TooDeep? ==> (e.kind.Elided? <==> IsWrapper(e.node)))
  }

  lemma {:induction false} EntriesAreRight(node: Node, depth: nat, path: Trail)
    requires WellIndexed(node)
    ensures forall e | e in Entries(node, depth, path) :: EntryIsRight(node, path, e)
    decreases node, 1
  {
    TestsAre(node);
    var next := if ShouldElide(node) then depth else depth + 1;
    KidEntriesAreRight(node, 0, next, path);
    assert path[|path|..] == [] && node.kids[0..] == node.kids;
    forall e | e in Entries(node, depth, path) ensures EntryIsRight(node, path, e) {
      assert e == Entries(node, depth, path)[0] || (!Covers(node.info) && e in KidEntries(node.kids, next, path));
    }
  }

  lemma {:induction false} KidEntriesAreRight(node: Node, k: nat, depth: nat, path: Trail)
    requires WellIndexed(node) && k <= |node.kids|
    ensures !Covers(node.info) ==>
              forall e | e in KidEntries(node.kids[k..], depth, path) :: EntryIsRight(node, path, e)
    decreases node, 0, |node.kids| - k
  {
    if k < |node.kids| {
      var kid := node.kids[k];
      KidWellIndexed(node.kids, k);
      KidIsAt(node.kids, k);
      EntriesAreRight(kid, depth, path + [kid.index]);
      KidEntriesAreRight(node, k + 1, depth, path);
      assert node.kids[k..][1..] == node.kids[k + 1..];
      if !Covers(node.info) {
        forall e | e in Entries(kid, depth, path + [kid.index]) ensures EntryIsRight(node, path, e) {
          RightAbove(node, kid, path, e);
        }
      }
    }
  }

  lemma RightAbove(node: Node, kid: Node, path: Trail, e: Entry)
    requires !Covers(node.info) && KidAt(node.kids, kid.index) == Some(kid)
    requires EntryIsRight(kid, path + [kid.index], e)
    ensures EntryIsRight(node, path, e)
  {
    var here := path + [kid.index];
    assert e.path[|path|..] == [kid.index] + e.path[|here|..];
    assert e.path[|path|..][1..] == e.path[|here|..];
  }

  /** Every node that nothing covers is in the listing, unless depth cuts it off. */
  lemma {:induction false} UncoveredIsListed(node: Node, depth: nat, path: Trail, below: Trail)
    requires NodeAt(node, below).Some? && Uncovered(node, below)
    ensures var entries := Entries(node, depth, path);
            HasDeep(entries) || exists e | e in entries :: e.path == path + below
    decreases node, 1
  {
    var entries := Entries(node, depth, path);
    assert entries[0] in entries && entries[0].path == path;
    if below == [] {
      assert path + below == path;
    } else if depth <= MAX_DEPTH {
      TestsAre(node);
      var kid := KidAt(node.kids, below[0]).value;
      var k :| 0 <= k < |node.kids| && node.kids[k] == kid;
      var next := if ShouldElide(node) then depth else depth + 1;
      UncoveredIsListed(kid, next, path + [kid.index], below[1..]);
      assert path + [kid.index] + below[1..] == path + below;
      KidEntriesHold(node.kids, k, next, path);
    }
  }

  /** Which nodes an untruncated rendering without compaction lists: those that are not a wrapper of nothing
      and that no node above stands for. Each has one record, which is a copy of the node's own role, name, id
      and actions, and active when the node is selected or has the value 1. */
  lemma ListedExactly(root: Node, path: Trail, below: Trail)
    requires WellIndexed(root) && NodeAt(root, below).Some?
    requires !Walked(root, 0, path, false, EMPTY).truncated
    ensures var node := NodeAt(root, below).value;
            var records := Walked(root, 0, path, false, EMPTY).records;
            && ((exists r :: r in records && r.runtimeId == path + below)
                <==> !IsWrapper(node) && Uncovered(root, below))
            && (forall r | r in records && r.runtimeId == path + below ::
                  && r.controlType == node.info.role && r.name == node.info.name && r.actions == node.info.actions
                  && r.automationId == node.info.automationId
                  && (r.active <==> node.info.selected || Strip(node.info.value) == "1"))
  {
    var entries := Entries(root, 0, path);
    var node := NodeAt(root, below).value;
    var records := Walked(root, 0, path, false, EMPTY).records;
    RenderingIsPrefix(root, path);
    EntriesAreRight(root, 0, path);
    assert (path + below)[|path|..] == below;
    forall r | r in records && r.runtimeId == path + below
      ensures r == RecordOf(node, r.index, r.runtimeId) && !IsWrapper(node) && Uncovered(root, below)
    {
      var i :| 0 <= i < |records| && records[i] == r;
      EmitsAreEntries(entries, i);
      assert EntryIsRight(root, path, Emits(entries)[i]);
    }
    if !IsWrapper(node) && Uncovered(root, below) {
      UncoveredIsListed(root, 0, path, below);
      var e :| e in entries && e.path == path + below;
      assert EntryIsRight(root, path, e);
      var i := EmittedAt(entries, e);
      assert records[i] in records;
    }
  }

  // ----- numbers and paths -----

  ghost predicate DistinctPaths(entries: seq<Entry>) {
    forall i, j | 0 <= i < j < |entries| :: entries[i].path != entries[j].path
  }

  lemma {:induction false} PathsStartWith(node: Node, depth: nat, path: Trail)
    ensures forall e | e in Entries(node, depth, path) :: path <= e.path
    decreases node, 1
  {
    KidPathsStartWith(node.kids, depth, path);
    KidPathsStartWith(node.kids, depth + 1, path);
  }

  lemma {:induction false} KidPathsStartWith(kids: seq<Node>, depth: nat, path: Trail)
    ensures forall e | e in KidEntries(kids, depth, path) ::
              path < e.path && exists k | 0 <= k < |kids| :: e.path[|path|] == kids[k].index
    decreases kids, 0
  {
    if kids != [] {
      var here := path + [kids[0].index];
      PathsStartWith(kids[0], depth, here);
      KidPathsStartWith(kids[1..], depth, path);
      forall e | e in KidEntries(kids, depth, path)
        ensures path < e.path && exists k | 0 <= k < |kids| :: e.path[|path|] == kids[k].index
      {
        if e in Entries(kids[0], depth, here) {
          assert e.path[..|here|] == here;
        } else {
          assert e in KidEntries(kids[1..], depth, path);
          var k :| 0 <= k < |kids[1..]| && e.path[|path|] == kids[1..][k].index;
          assert kids[k + 1] == kids[1..][k];
        }
      }
    }
  }

  /** No two entries share a path, so two records never name the same node. */
  lemma {:induction false} PathsAreDistinct(node: Node, depth: nat, path: Trail)
    requires WellIndexed(node)
    ensures DistinctPaths(Entries(node, depth, path))
    decreases node, 1
  {
    var next := if ShouldElide(node) then depth else depth + 1;
    KidPathsAreDistinct(node.kids, next, path);
    KidPathsStartWith(node.kids, next, path);
    var below := KidEntries(node.kids, next, path);
    assert forall i | 0 <= i < |below| :: below[i] in below;
  }

  lemma {:induction false} KidPathsAreDistinct(kids: seq<Node>, depth: nat, path: Trail)
    requires AllWellIndexed(kids) && forall i, j | 0 <= i < j < |kids| :: kids[i].index < kids[j].index
    ensures DistinctPaths(KidEntries(kids, depth, path))
    decreases kids, 0
  {
    if kids != [] {
      var here := path + [kids[0].index];
      var first, rest := Entries(kids[0], depth, here), KidEntries(kids[1..], depth, path);
      PathsAreDistinct(kids[0], depth, here);
      KidPathsAreDistinct(kids[1..], depth, path);
      PathsStartWith(kids[0], depth, here);
      KidPathsStartWith(kids[1..], depth, path);
      forall i, j | 0 <= i < |first| && 0 <= j < |rest| ensures first[i].path != rest[j].path {
        assert first[i] in first && rest[j] in rest;
        assert first[i].path[..|here|] == here;
        var k :| 0 <= k < |kids[1..]| && rest[j].path[|path|] == kids[1..][k].index;
        assert kids[1..][k] == kids[k + 1];
      }
    }
  }

  /** How many shown nodes lie strictly above `path`. */
  function ShownAbove(entries: seq<Entry>, path: Trail): nat {
    if entries == [] then 0
    else (if entries[0].kind.Emitted? && entries[0].path < path then 1 else 0) + ShownAbove(entries[1..], path)
  }

  lemma {:induction false} ShownConcat(a: seq<Entry>, b: seq<Entry>, path: Trail)
    ensures ShownAbove(a + b, path) == ShownAbove(a, path) + ShownAbove(b, path)
  {
    if a == [] {
      assert a + b == b;
    } else {
      assert (a + b)[1..] == a[1..] + b;
      ShownConcat(a[1..], b, path);
    }
  }

  lemma {:induction false} NoneShown(entries: seq<Entry>, path: Trail)
    requires forall e | e in entries :: !(e.path < path)
    ensures ShownAbove(entries, path) == 0
  {
    if entries != [] {
      NoneShown(entries[1..], path);
    }
  }

  /** A line's indentation is the number of shown nodes above it, elided ones not counted. */
  lemma {:induction false} IndentCountsShown(node: Node, depth: nat, path: Trail, e: Entry)
    requires WellIndexed(node) && e in Entries(node, depth, path)
    ensures e.depth == depth + ShownAbove(Entries(node, depth, path), e.path)
    decreases node, 1
  {
    var entries := Entries(node, depth, path);
    var next := if ShouldElide(node) then depth else depth + 1;
    KidPathsStartWith(node.kids, next, path);
    if e == entries[0] {
      PathsStartWith(node, depth, path);
      NoneShown(entries, path);
    } else {
      var below := KidEntries(node.kids, next, path);
      assert entries == [entries[0]] + below && e in below;
      KidIndent(node.kids, next, path, e);
      assert entries[1..] == below;
    }
  }

  lemma {:induction false} KidIndent(kids: seq<Node>, depth: nat, path: Trail, e: Entry)
    requires AllWellIndexed(kids) && forall i, j | 0 <= i < j < |kids| :: kids[i].index < kids[j].index
    requires e in KidEntries(kids, depth, path)
    ensures e.depth == depth + ShownAbove(KidEntries(kids, depth, path), e.path)
    decreases kids, 0
  {
    var here := path + [kids[0].index];
    var first, rest := Entries(kids[0], depth, here), KidEntries(kids[1..], depth, path);
    PathsStartWith(kids[0], depth, here);
    KidPathsStartWith(kids[1..], depth, path);
    ShownConcat(first, rest, e.path);
    forall f, r | f in first && r in rest ensures !(f.path < r.path) && !(r.path < f.path) {
    }
    if e in first {
      IndentCountsShown(kids[0], depth, here, e);
      NoneShown(rest, e.path);
    } else {
      KidIndent(kids[1..], depth, path, e);
      NoneShown(first, e.path);
    }
  }

  lemma {:induction false} EmitsInOrder(entries: seq<Entry>)
    requires DistinctPaths(entries)
    ensures DistinctPaths(Emits(entries))
  {
    if entries != [] {
      EmitsInOrder(entries[1..]);
      EmitsFront(entries);
      var rest := Emits(entries[1..]);
      forall i | 0 <= i < |rest| ensures rest[i].path != entries[0].path {
        EmitsAreEntries(entries[1..], i);
      }
    }
  }

  /** Without compaction two records never share their number or their path. */
  lemma RecordsAreDistinct(root: Node, path: Trail)
    requires WellIndexed(root)
    ensures var records := Walked(root, 0, path, false, EMPTY).records;
            forall i, j | 0 <= i < j < |records| ::
              records[i].index != records[j].index && records[i].runtimeId != records[j].runtimeId
  {
    RenderingIsPrefix(root, path);
    PathsAreDistinct(root, 0, path);
    EmitsInOrder(Entries(root, 0, path));
  }
}
