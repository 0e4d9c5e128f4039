/** The capped walk over an accessibility tree, its records, and finding a node again from its record.

A tree is static while it is walked. `Entries` lists, in preorder and without any cap, what the walk would
meet at each node; the walk itself carries shared state, numbers records as it goes and stops at its caps.
 */
module AccessibilityTree {
  import opened CliText

  const MAX_NODES: nat := 1200
  const MAX_DEPTH: nat := 64

  /** `summarised` says whether the node gets a generic text summary; `tabLine` and `saysSelected` what its
      rendered line looks like. */
  datatype Info = Info(
    role: string,
    name: string,
    automationId: string,
    value: string,
    actions: seq<string>,
    selected: bool,
    summarised: bool,
    tabLine: bool,
    saysSelected: bool)

  /** `index` is the node's position under its parent; positions of missing children are skipped. */
  datatype Node = Node(index: nat, info: Info, kids: seq<Node>)

  type Trail = seq<nat>

  datatype Record = Record(
    index: nat,
    runtimeId: Trail,
    automationId: string,
    name: string,
    controlType: string,
    actions: seq<string>,
    active: bool)

  datatype Line =
    | Element(depth: nat, index: nat, isTab: bool, saysSelected: bool)
    | Omitted(depth: nat, count: nat)

  // ----- per-node tests -----

  predicate IsSpace(c: char) {
    || '\t' <= c <= '\r' || '\U{1C}' <= c <= ' ' || c == '\U{85}' || c == '\U{A0}' || c == '\U{1680}'
    || '\U{2000}' <= c <= '\U{200A}' || c == '\U{2028}' || c == '\U{2029}' || c == '\U{202F}' || c == '\U{205F}'
    || c == '\U{3000}'
  }

  /** `sanitize_text(value)` is not empty. */
  predicate HasText(value: string) {
    exists i | 0 <= i < |value| :: !IsSpace(value[i])
  }

  function LowerChar(c: char): char {
    if 'A' <= c <= 'Z' then (c as int + 32) as char else c
  }

  function Lower(s: string): string {
    seq(|s|, i requires 0 <= i < |s| => LowerChar(s[i]))
  }

  function Strip(s: string): string {
    if s != "" && IsSpace(s[0]) then Strip(s[1..])
    else if s != "" && IsSpace(s[|s| - 1]) then Strip(s[..|s| - 1])
    else s
  }

  const NOISY_ACTIONS: set<string> := {
    "click", "press", "show default ui", "show alternate ui", "show menu", "scroll to visible", "raise"
  }
  const GENERIC_ROLES: set<string> := {"panel", "filler", "unknown", "section"}
  const LABELLED_ROLES: set<string> := {
    "button", "check box", "checkbox", "combo box", "heading", "link", "menu item", "page tab", "push button",
    "radio button"
  }

  predicate HasMeaningfulAction(actions: seq<string>) {
    exists i | 0 <= i < |actions| :: Lower(Strip(actions[i])) !in NOISY_ACTIONS
  }

  /** Empty wrappers are left out of the output, but not their single child. */
  predicate ShouldElide(node: Node) {
    var info := node.info;
    && Lower(info.role) in GENERIC_ROLES
    && info.name == "" && info.automationId == "" && info.value == ""
    && !HasMeaningfulAction(info.actions) && !info.summarised && |node.kids| <= 1
  }

  /** Nodes whose own line already says what is below them. */
  predicate HidesKids(node: Node) {
    var info := node.info;
    || info.summarised
    || ((info.name != "" || info.automationId != "" || HasText(info.value)) && Lower(info.role) in LABELLED_ROLES)
  }

  function RecordOf(node: Node, index: nat, path: Trail): Record {
    var info := node.info;
    var active := info.selected || Strip(info.value) == "1";
    Record(index, path, info.automationId, info.name, info.role, info.actions, active)
  }

  function LineOf(node: Node, index: nat, depth: nat): Line {
    Element(depth, index, node.info.tabLine, node.info.saysSelected)
  }

  // ----- the uncapped listing -----

  datatype Kind = Emitted | Elided | TooDeep
  datatype Entry = Entry(node: Node, depth: nat, path: Trail, kind: Kind)

  function Entries(node: Node, depth: nat, path: Trail): seq<Entry>
    decreases node, 1
  {
    if depth > MAX_DEPTH then [Entry(node, depth, path, TooDeep)]
    else if ShouldElide(node) then [Entry(node, depth, path, Elided)] + KidEntries(node.kids, depth, path)
    else
      [Entry(node, depth, path, Emitted)] +
      if HidesKids(node) then [] else KidEntries(node.kids, depth + 1, path)
  }

  function KidEntries(kids: seq<Node>, depth: nat, path: Trail): seq<Entry>
    decreases kids, 0
  {
    if kids == [] then []
    else Entries(kids[0], depth, path + [kids[0].index]) + KidEntries(kids[1..], depth, path)
  }

  function Emits(entries: seq<Entry>): (r: seq<Entry>)
    ensures |r| <= |entries|
  {
    if entries == [] then []
    else (if entries[0].kind.Emitted? then [entries[0]] else []) + Emits(entries[1..])
  }

  // ----- compaction of inactive browser tabs -----

  datatype Rendering = Rendering(records: seq<Record>, lines: seq<Line>, truncated: bool, maxDepthReached: bool)

  predicate DirectTab(line: Line, depth: nat) {
    line.Element? && line.depth == depth && line.isTab
  }

  /** The last record with that number, as a dictionary built over the records keeps it. */
  function RecordAt(records: seq<Record>, index: nat): Option<Record> {
    if records == [] then None
    else if records[|records| - 1].index == index then Some(records[|records| - 1])
    else RecordAt(records[..|records| - 1], index)
  }

  predicate ActiveTab(line: Line, records: seq<Record>)
    requires line.Element?
  {
    line.saysSelected || (RecordAt(records, line.index).Some? && RecordAt(records, line.index).value.active)
  }

  predicate InactiveTab(line: Line, depth: nat, records: seq<Record>) {
    DirectTab(line, depth) && !ActiveTab(line, records)
  }

  /** The lines that are not inactive tabs at that depth. */
  function Kept(lines: seq<Line>, depth: nat, records: seq<Record>): (kept: seq<Line>)
    ensures |kept| <= |lines|
  {
    if lines == [] then []
    else (if InactiveTab(lines[0], depth, records) then [] else [lines[0]]) + Kept(lines[1..], depth, records)
  }

  /** The positions of the direct tabs from `start` on. */
  function TabIndexes(lines: seq<Line>, start: nat, depth: nat): (tabs: seq<nat>)
    requires start <= |lines|
    ensures forall k | 0 <= k < |tabs| :: start <= tabs[k] < |lines| && DirectTab(lines[tabs[k]], depth)
    decreases |lines| - start
  {
    if start == |lines| then []
    else (if DirectTab(lines[start], depth) then [start] else []) + TabIndexes(lines, start + 1, depth)
  }

  function ActiveTabsOf(lines: seq<Line>, tabs: seq<nat>, records: seq<Record>): set<nat>
    requires forall i | i in tabs :: i < |lines| && lines[i].Element?
  {
    set i | i in tabs && ActiveTab(lines[i], records)
  }

  function OmittedIndexes(lines: seq<Line>, depth: nat, records: seq<Record>): set<nat> {
    set line | line in lines && InactiveTab(line, depth, records) :: line.index
  }

  function Without(records: seq<Record>, omitted: set<nat>): seq<Record> {
    if records == [] then []
    else (if records[0].index in omitted then [] else [records[0]]) + Without(records[1..], omitted)
  }

  predicate Compacts(st: Rendering, start: nat, depth: nat)
    requires start <= |st.lines|
  {
    var tabs := TabIndexes(st.lines, start, depth);
    && |tabs| >= 10
    && (exists i | 0 <= i < |tabs| :: ActiveTab(st.lines[tabs[i]], st.records))
    && (exists i | 0 <= i < |tabs| :: !ActiveTab(st.lines[tabs[i]], st.records))
  }

  /** From the first tab on, inactive tabs give way to one marker that counts them. */
  function Compacted(st: Rendering, start: nat, depth: nat): (r: Rendering)
    requires start <= |st.lines|
    ensures st.lines[..start] <= r.lines
  {
    if !Compacts(st, start, depth) then st
    else
      var first := TabIndexes(st.lines, start, depth)[0];
      var tail := st.lines[first..];
      var kept := Kept(tail, depth, st.records);
      st.(lines := st.lines[..first] + [Omitted(depth, |tail| - |kept|)] + kept,
          records := Without(st.records, OmittedIndexes(tail, depth, st.records)))
  }

  // ----- when compaction happens -----

  /** A tab of the strip at that depth, and whether it is the open one: by its own line, or by the last record
      of its number. */
  ghost predicate IsTabAt(lines: seq<Line>, start: nat, depth: nat, i: int) {
    start <= i < |lines| && lines[i].Element? && lines[i].depth == depth && lines[i].isTab
  }

  ghost predicate IsOpen(line: Line, records: seq<Record>) {
    line.Element? && (line.saysSelected || exists k :: LastOf(records, line.index, k) && records[k].active)
  }

  ghost predicate LastOf(records: seq<Record>, index: nat, k: int) {
    0 <= k < |records| && records[k].index == index && forall j | k < j < |records| :: records[j].index != index
  }

  lemma {:induction false} RecordIsLast(records: seq<Record>, index: nat)
    ensures forall k | LastOf(records, index, k) :: RecordAt(records, index) == Some(records[k])
    ensures RecordAt(records, index).Some? ==> exists k :: LastOf(records, index, k)
    decreases |records|
  {
    if records != [] {
      var n := |records| - 1;
      if records[n].index == index {
        assert LastOf(records, index, n);
      } else {
        RecordIsLast(records[..n], index);
        assert forall k :: LastOf(records, index, k) <==> LastOf(records[..n], index, k);
      }
    }
  }

  lemma OpenIsActive(line: Line, records: seq<Record>)
    requires line.Element?
    ensures ActiveTab(line, records) <==> IsOpen(line, records)
  {
    RecordIsLast(records, line.index);
  }

  lemma {:induction false} TabsAre(lines: seq<Line>, start: nat, depth: nat)
    requires start <= |lines|
    ensures forall i :: i in TabIndexes(lines, start, depth) <==> IsTabAt(lines, start, depth, i)
    decreases |lines| - start
  {
    if start < |lines| {
      TabsAre(lines, start + 1, depth);
      var rest := TabIndexes(lines, start + 1, depth);
      forall i ensures i in TabIndexes(lines, start, depth) <==> IsTabAt(lines, start, depth, i) {
        assert i in rest <==> IsTabAt(lines, start + 1, depth, i);
        assert TabIndexes(lines, start, depth) == (if DirectTab(lines[start], depth) then [start] else []) + rest;
      }
    }
  }

  ghost function Tabs(lines: seq<Line>, start: nat, depth: nat): set<int> {
    set i | start <= i < |lines| && IsTabAt(lines, start, depth, i)
  }

  ghost function ClosedTabs(lines: seq<Line>, start: nat, depth: nat, records: seq<Record>): set<int> {
    set i | start <= i < |lines| && IsTabAt(lines, start, depth, i) && !IsOpen(lines[i], records)
  }

  /** The lines from `i` on, without those positions. */
  ghost function Others(lines: seq<Line>, i: nat, dropped: set<int>): seq<Line>
    requires i <= |lines|
    decreases |lines| - i
  {
    if i == |lines| then [] else (if i in dropped then [] else [lines[i]]) + Others(lines, i + 1, dropped)
  }

  lemma {:induction false} TabCount(lines: seq<Line>, start: nat, depth: nat)
    requires start <= |lines|
    ensures |TabIndexes(lines, start, depth)| == |Tabs(lines, start, depth)|
    decreases |lines| - start
  {
    if start < |lines| {
      TabCount(lines, start + 1, depth);
      var rest := Tabs(lines, start + 1, depth);
      assert Tabs(lines, start, depth) == if IsTabAt(lines, start, depth, start) then {start} + rest else rest;
    }
  }

  lemma ClosedIsInactive(line: Line, depth: nat, records: seq<Record>)
    ensures InactiveTab(line, depth, records) <==>
              line.Element? && line.depth == depth && line.isTab && !IsOpen(line, records)
  {
    if line.Element? {
      OpenIsActive(line, records);
    }
  }

  lemma {:induction false} ClosedCount(lines: seq<Line>, start: nat, depth: nat, records: seq<Record>)
    requires start <= |lines|
    ensures |lines[start..]| - |Kept(lines[start..], depth, records)| == |ClosedTabs(lines, start, depth, records)|
    decreases |lines| - start
  {
    if start < |lines| {
      ClosedCount(lines, start + 1, depth, records);
      var rest := ClosedTabs(lines, start + 1, depth, records);
      ClosedIsInactive(lines[start], depth, records);
      assert lines[start..][1..] == lines[start + 1..];
      assert ClosedTabs(lines, start, depth, records)
          == if InactiveTab(lines[start], depth, records) then {start} + rest else rest;
    }
  }

  lemma {:induction false} KeptAreOthers(
      lines: seq<Line>, start: nat, i: nat, depth: nat, records: seq<Record>, closed: set<int>)
    requires start <= i <= |lines| && closed == ClosedTabs(lines, start, depth, records)
    ensures Kept(lines[i..], depth, records) == Others(lines, i, closed)
    decreases |lines| - i
  {
    if i < |lines| {
      KeptAreOthers(lines, start, i + 1, depth, records, closed);
      ClosedIsInactive(lines[i], depth, records);
      assert lines[i..][1..] == lines[i + 1..];
    }
  }

  lemma {:induction false} WithoutKeeps(records: seq<Record>, omitted: set<nat>, r: Record)
    ensures r in Without(records, omitted) <==> r in records && r.index !in omitted
  {
    if records != [] {
      WithoutKeeps(records[1..], omitted, r);
    }
  }

  /** Compaction changes something exactly when the strip has ten tabs or more, one of them open and one not.
      Then a marker that counts the closed ones takes the place of the first tab, and behind it stand, in their
      order, the other lines from there on. */
  lemma CompactionIsExact(st: Rendering, start: nat, depth: nat)
    requires start <= |st.lines|
    ensures var tabs, closed := Tabs(st.lines, start, depth), ClosedTabs(st.lines, start, depth, st.records);
            var r := Compacted(st, start, depth);
            if |tabs| < 10 || closed == {} || closed == tabs then r == st
            else
              && r.truncated == st.truncated && r.maxDepthReached == st.maxDepthReached
              && exists first: nat | first in tabs ::
                   && (forall i | i in tabs :: first <= i)
                   && r.lines == st.lines[..first] + [Omitted(depth, |closed|)] + Others(st.lines, first, closed)
  {
    CompactsExactly(st, start, depth);
    if Compacts(st, start, depth) {
      var first := CompactedFrom(st, start, depth);
    }
  }

  lemma CompactedFrom(st: Rendering, start: nat, depth: nat) returns (first: nat)
    requires start <= |st.lines| && Compacts(st, start, depth)
    ensures first in Tabs(st.lines, start, depth) && forall i | i in Tabs(st.lines, start, depth) :: first <= i
    ensures var closed := ClosedTabs(st.lines, start, depth, st.records);
            && first <= |st.lines|
            && Compacted(st, start, depth).lines
               == st.lines[..first] + [Omitted(depth, |closed|)] + Others(st.lines, first, closed)
  {
    first := FirstTab(st.lines, start, depth);
    FromFirst(st, start, depth, first);
    ClosedCount(st.lines, first, depth, st.records);
    KeptAreOthers(st.lines, start, first, depth, st.records, ClosedTabs(st.lines, start, depth, st.records));
  }

  lemma FirstTab(lines: seq<Line>, start: nat, depth: nat) returns (first: nat)
    requires start <= |lines| && TabIndexes(lines, start, depth) != []
    ensures first == TabIndexes(lines, start, depth)[0]
    ensures first in Tabs(lines, start, depth) && forall i | i in Tabs(lines, start, depth) :: first <= i
  {
    TabsAre(lines, start, depth);
    var list := TabIndexes(lines, start, depth);
    first := list[0];
    assert first in list;
    forall i | i in Tabs(lines, start, depth) ensures first <= i {
      assert i in list;
      var k :| 0 <= k < |list| && list[k] == i;
      TabsAscend(lines, start, depth, k);
    }
  }

  lemma CompactsExactly(st: Rendering, start: nat, depth: nat)
    requires start <= |st.lines|
    ensures var tabs, closed := Tabs(st.lines, start, depth), ClosedTabs(st.lines, start, depth, st.records);
            Compacts(st, start, depth) <==> |tabs| >= 10 && closed != {} && closed != tabs
  {
    var tabs, closed := Tabs(st.lines, start, depth), ClosedTabs(st.lines, start, depth, st.records);
    var list := TabIndexes(st.lines, start, depth);
    TabCount(st.lines, start, depth);
    TabsAre(st.lines, start, depth);
    forall k | 0 <= k < |list|
      ensures list[k] in tabs && (ActiveTab(st.lines[list[k]], st.records) <==> list[k] !in closed)
    {
      OpenIsActive(st.lines[list[k]], st.records);
      assert list[k] in list;
    }
    forall i | i in tabs ensures exists k :: 0 <= k < |list| && list[k] == i {
      assert i in list;
    }
    if Compacts(st, start, depth) {
    } else if |tabs| >= 10 && closed != {} {
      assert closed <= tabs;
    }
  }

  /** No closed tab stands before the first tab. */
  lemma FromFirst(st: Rendering, start: nat, depth: nat, first: nat)
    requires start <= first < |st.lines| && forall i | i in Tabs(st.lines, start, depth) :: first <= i
    ensures ClosedTabs(st.lines, first, depth, st.records) == ClosedTabs(st.lines, start, depth, st.records)
  {
    forall i ensures i in ClosedTabs(st.lines, first, depth, st.records)
                <==> i in ClosedTabs(st.lines, start, depth, st.records) {
      if i in ClosedTabs(st.lines, start, depth, st.records) {
        assert i in Tabs(st.lines, start, depth);
      }
    }
  }

  /** Compaction removes exactly the records that have the number of a closed tab of the strip. */
  lemma CompactedRecords(st: Rendering, start: nat, depth: nat, record: Record)
    requires start <= |st.lines| && Compacts(st, start, depth)
    ensures record in Compacted(st, start, depth).records <==>
              && record in st.records
              && forall i | i in ClosedTabs(st.lines, start, depth, st.records) :: st.lines[i].index != record.index
  {
    var first := FirstTab(st.lines, start, depth);
    var tail := st.lines[first..];
    FromFirst(st, start, depth, first);
    WithoutKeeps(st.records, OmittedIndexes(tail, depth, st.records), record);
    OmittedAre(st.lines, first, depth, st.records, record.index);
  }

  lemma OmittedAre(lines: seq<Line>, first: nat, depth: nat, records: seq<Record>, index: nat)
    requires first <= |lines|
    ensures index in OmittedIndexes(lines[first..], depth, records) <==>
              exists i | i in ClosedTabs(lines, first, depth, records) :: lines[i].index == index
  {
    var tail := lines[first..];
    if index in OmittedIndexes(tail, depth, records) {
      var line :| line in tail && InactiveTab(line, depth, records) && line.index == index;
      var j :| 0 <= j < |tail| && tail[j] == line;
      ClosedIsInactive(line, depth, records);
      assert lines[first + j] == line && first + j in ClosedTabs(lines, first, depth, records);
    }
    if i :| i in ClosedTabs(lines, first, depth, records) && lines[i].index == index {
      ClosedIsInactive(lines[i], depth, records);
      assert tail[i - first] == lines[i] && lines[i] in tail;
    }
  }

  // ----- the walk's state -----

  function Emit(st: Rendering, node: Node, depth: nat, path: Trail): Rendering {
    st.(records := st.records + [RecordOf(node, |st.records|, path)],
        lines := st.lines + [LineOf(node, |st.records|, depth)])
  }

  /** What one walk does to the state, with `compact` standing for browser-tab compaction. */
  function Walked(node: Node, depth: nat, path: Trail, compact: bool, st: Rendering): (r: Rendering)
    ensures st.lines <= r.lines
    decreases node, 2
  {
    if |st.records| >= MAX_NODES || depth > MAX_DEPTH then
      st.(truncated := true, maxDepthReached := st.maxDepthReached || depth > MAX_DEPTH)
    else if ShouldElide(node) then WalkedKids(node.kids, depth, path, compact, st)
    else WalkedShown(node, depth, path, compact, st)
  }

  /** A node that gets a record and a line of its own. */
  function WalkedShown(node: Node, depth: nat, path: Trail, compact: bool, st: Rendering): (r: Rendering)
    ensures st.lines <= r.lines
    decreases node, 1
  {
    var emitted := Emit(st, node, depth, path);
    if HidesKids(node) then emitted
    else
      var below := WalkedKids(node.kids, depth + 1, path, compact, emitted);
      if compact then Compacted(below, |emitted.lines|, depth + 1) else below
  }

  function WalkedKids(kids: seq<Node>, depth: nat, path: Trail, compact: bool, st: Rendering): (r: Rendering)
    ensures st.lines <= r.lines
    decreases kids, 0
  {
    if kids == [] then st
    else
      WalkedKids(kids[1..], depth, path, compact, Walked(kids[0], depth, path + [kids[0].index], compact, st))
  }

  // ----- the walk itself -----

  lemma {:induction false} KeptConcat(a: seq<Line>, b: seq<Line>, depth: nat, records: seq<Record>)
    ensures Kept(a + b, depth, records) == Kept(a, depth, records) + Kept(b, depth, records)
  {
    if a == [] {
      assert a + b == b;
    } else {
      KeptConcat(a[1..], b, depth, records);
      assert a + b == [a[0]] + (a[1..] + b) && a == [a[0]] + a[1..];
      Regroup(if InactiveTab(a[0], depth, records) then [] else [a[0]],
              Kept(a[1..], depth, records), Kept(b, depth, records));
    }
  }

  lemma {:induction false} KeptAll(lines: seq<Line>, depth: nat, records: seq<Record>)
    requires forall line | line in lines :: !InactiveTab(line, depth, records)
    ensures Kept(lines, depth, records) == lines
  {
    if lines != [] {
      KeptAll(lines[1..], depth, records);
    }
  }

  /** The stretch before the `k`-th tab position, or after the last one. */
  ghost function GapFrom(tabs: seq<nat>, start: nat, k: nat): nat
    requires k <= |tabs|
  {
    if k == 0 then start else tabs[k - 1] + 1
  }

  ghost function GapTo(tabs: seq<nat>, end: nat, k: nat): nat
    requires k <= |tabs|
  {
    if k < |tabs| then tabs[k] else end
  }

  ghost predicate NoTabIn(lines: seq<Line>, depth: nat, low: nat, high: nat) {
    low <= high <= |lines| && forall j | low <= j < high :: !DirectTab(lines[j], depth)
  }

  lemma GapFromEarlier(lines: seq<Line>, depth: nat, tabs: seq<nat>, start: nat, k: nat)
    requires start < |lines| && k <= |tabs| && !DirectTab(lines[start], depth)
    requires NoTabIn(lines, depth, GapFrom(tabs, start + 1, k), GapTo(tabs, |lines|, k))
    ensures NoTabIn(lines, depth, GapFrom(tabs, start, k), GapTo(tabs, |lines|, k))
  {
  }

  /** No direct tab stands before the first position, after the last, or between two neighbouring ones. */
  lemma {:induction false} BetweenTabs(lines: seq<Line>, start: nat, depth: nat, k: nat)
    requires start <= |lines| && k <= |TabIndexes(lines, start, depth)|
    ensures var tabs := TabIndexes(lines, start, depth);
            NoTabIn(lines, depth, GapFrom(tabs, start, k), GapTo(tabs, |lines|, k))
    decreases |lines| - start
  {
    if start == |lines| {
      assert TabIndexes(lines, start, depth) == [];
    } else {
      if !DirectTab(lines[start], depth) {
        BetweenTabs(lines, start + 1, depth, k);
        GapFromEarlier(lines, depth, TabIndexes(lines, start + 1, depth), start, k);
      } else {
        TabThenRest(lines, start, depth, k);
      }
    }
  }

  lemma {:induction false} TabThenRest(lines: seq<Line>, start: nat, depth: nat, k: nat)
    requires start < |lines| && DirectTab(lines[start], depth) && k <= |TabIndexes(lines, start + 1, depth)| + 1
    ensures var tabs := [start] + TabIndexes(lines, start + 1, depth);
            NoTabIn(lines, depth, GapFrom(tabs, start, k), GapTo(tabs, |lines|, k))
    decreases |lines| - start, 0
  {
    if k > 0 {
      BetweenTabs(lines, start + 1, depth, k - 1);
    }
  }

  lemma LineAndRest(lines: seq<Line>, i: nat, from: nat)
    requires i < from <= |lines|
    ensures lines[i..] == [lines[i]] + (lines[i + 1..from] + lines[from..])
    ensures lines[i..][1..] == lines[i + 1..from] + lines[from..]
  {
  }

  lemma KeptBack(lines: seq<Line>, i: nat, from: nat, depth: nat, records: seq<Record>)
    requires i < from && NoTabIn(lines, depth, i + 1, from)
    ensures Kept(lines[i..], depth, records)
         == (if InactiveTab(lines[i], depth, records) then [] else [lines[i]]) + lines[i + 1..from]
            + Kept(lines[from..], depth, records)
  {
    var between := lines[i + 1..from];
    LineAndRest(lines, i, from);
    forall line | line in between ensures !InactiveTab(line, depth, records) {
      var j :| 0 <= j < |between| && between[j] == line;
      assert lines[i + 1 + j] == line;
    }
    KeptAll(between, depth, records);
    KeptConcat(between, lines[from..], depth, records);
  }

  lemma OmittedBack(lines: seq<Line>, i: nat, from: nat, depth: nat, records: seq<Record>)
    requires i < from && NoTabIn(lines, depth, i + 1, from)
    ensures OmittedIndexes(lines[i..], depth, records)
         == (if InactiveTab(lines[i], depth, records) then {lines[i].index} else {})
            + OmittedIndexes(lines[from..], depth, records)
  {
    var between := lines[i + 1..from];
    LineAndRest(lines, i, from);
    forall line | line in between ensures !InactiveTab(line, depth, records) {
      var j :| 0 <= j < |between| && between[j] == line;
      assert lines[i + 1 + j] == line;
    }
    forall line ensures line in lines[i..] <==> line == lines[i] || line in between || line in lines[from..] {
      assert line in between + lines[from..] <==> line in between || line in lines[from..];
    }
  }

  /** What the backward scan over the tab positions has produced so far. */
  datatype Sweep = Sweep(lines: seq<Line>, count: nat, omitted: set<nat>)

  function DeleteTab(s: Sweep, i: nat): Sweep
    requires i < |s.lines| && s.lines[i].Element?
  {
    Sweep(s.lines[..i] + s.lines[i + 1..], s.count + 1, s.omitted + {s.lines[i].index})
  }

  /** The backward scan has dealt with everything from `from` on. */
  ghost predicate Swept(before: Rendering, from: int, depth: nat, s: Sweep) {
    && 0 <= from <= |before.lines|
    && var tail := before.lines[from..];
       && s.lines == before.lines[..from] + Kept(tail, depth, before.records)
       && s.count == |tail| - |Kept(tail, depth, before.records)|
       && s.omitted == OmittedIndexes(tail, depth, before.records)
  }

  /** Deleting line `i` in front of an already filtered tail. */
  lemma DeleteAt(lines: seq<Line>, i: nat, from: nat, tail: seq<Line>)
    requires i < from <= |lines|
    ensures var whole := lines[..from] + tail;
            && whole[i] == lines[i]
            && whole[..i] + whole[i + 1..] == lines[..i] + ([] + lines[i + 1..from] + tail)
            && whole == lines[..i] + ([lines[i]] + lines[i + 1..from] + tail)
  {
  }

  lemma SweptStep(before: Rendering, i: nat, from: nat, depth: nat, s: Sweep)
    requires Swept(before, from, depth, s)
    requires i < from && DirectTab(before.lines[i], depth) && NoTabIn(before.lines, depth, i + 1, from)
    ensures i < |s.lines| && s.lines[i].Element?
    ensures Swept(before, i, depth, if ActiveTab(before.lines[i], before.records) then s else DeleteTab(s, i))
  {
    KeptBack(before.lines, i, from, depth, before.records);
    OmittedBack(before.lines, i, from, depth, before.records);
    DeleteAt(before.lines, i, from, Kept(before.lines[from..], depth, before.records));
  }

  ghost function TabPosition(st: Rendering, start: nat, depth: nat, k: nat): nat
    requires start <= |st.lines| && k <= |TabIndexes(st.lines, start, depth)|
  {
    var tabs := TabIndexes(st.lines, start, depth);
    if k < |tabs| then tabs[k] else |st.lines|
  }

  lemma SweptTab(before: Rendering, start: nat, depth: nat, k: nat, s: Sweep)
    requires start <= |before.lines| && k < |TabIndexes(before.lines, start, depth)|
    requires Swept(before, TabPosition(before, start, depth, k + 1), depth, s)
    ensures var i := TabPosition(before, start, depth, k);
            && i < |s.lines| && s.lines[i].Element? && i < |before.lines| && before.lines[i].Element?
            && Swept(before, i, depth, if ActiveTab(before.lines[i], before.records) then s else DeleteTab(s, i))
  {
    BetweenTabs(before.lines, start, depth, k + 1);
    SweptStep(before, TabPosition(before, start, depth, k), TabPosition(before, start, depth, k + 1), depth, s);
  }

  lemma {:induction false} SomethingOmitted(lines: seq<Line>, depth: nat, records: seq<Record>)
    ensures |Kept(lines, depth, records)| < |lines| <==>
              exists i | 0 <= i < |lines| :: InactiveTab(lines[i], depth, records)
  {
    if lines != [] {
      SomethingOmitted(lines[1..], depth, records);
      if i :| 0 <= i < |lines[1..]| && InactiveTab(lines[1..][i], depth, records) {
        assert InactiveTab(lines[i + 1], depth, records);
      }
      if i :| 1 <= i < |lines| && InactiveTab(lines[i], depth, records) {
        assert InactiveTab(lines[1..][i - 1], depth, records);
      }
    }
  }

  /** Something is omitted exactly when one of the tabs is inactive. */
  lemma OmittedCount(st: Rendering, start: nat, depth: nat)
    requires start <= |st.lines| && TabIndexes(st.lines, start, depth) != []
    ensures var tabs := TabIndexes(st.lines, start, depth);
            var tail := st.lines[tabs[0]..];
            |tail| > |Kept(tail, depth, st.records)| <==>
            exists i | 0 <= i < |tabs| :: !ActiveTab(st.lines[tabs[i]], st.records)
  {
    var tabs := TabIndexes(st.lines, start, depth);
    var tail := st.lines[tabs[0]..];
    SomethingOmitted(tail, depth, st.records);
    if i :| 0 <= i < |tail| && InactiveTab(tail[i], depth, st.records) {
      var k := TabAt(st.lines, start, depth, tabs[0] + i);
    }
    if k :| 0 <= k < |tabs| && !ActiveTab(st.lines[tabs[k]], st.records) {
      TabsAscend(st.lines, start, depth, k);
      assert InactiveTab(tail[tabs[k] - tabs[0]], depth, st.records);
    }
  }

  lemma {:induction false} TabAt(lines: seq<Line>, start: nat, depth: nat, i: nat) returns (k: nat)
    requires start <= i < |lines| && DirectTab(lines[i], depth)
    ensures k < |TabIndexes(lines, start, depth)| && TabIndexes(lines, start, depth)[k] == i
    decreases |lines| - start
  {
    if i == start {
      k := 0;
    } else {
      k := TabAt(lines, start + 1, depth, i);
      if DirectTab(lines[start], depth) {
        k := k + 1;
      }
    }
  }

  lemma {:induction false} TabsAscend(lines: seq<Line>, start: nat, depth: nat, k: nat)
    requires start <= |lines| && k < |TabIndexes(lines, start, depth)|
    ensures TabIndexes(lines, start, depth)[0] <= TabIndexes(lines, start, depth)[k]
    decreases k
  {
    if k > 0 {
      TabsAscend(lines, start, depth, k - 1);
      BetweenTabs(lines, start, depth, k);
    }
  }

  class TreeRenderer {
    var records: seq<Record>
    var lines: seq<Line>
    var truncated: bool
    var maxDepthReached: bool
    const compactBrowserTabs: bool

    ghost function Current(): Rendering
      reads this
    {
      Rendering(records, lines, truncated, maxDepthReached)
    }

    constructor (compactBrowserTabs: bool)
      ensures records == [] && lines == [] && !truncated && !maxDepthReached
      ensures this.compactBrowserTabs == compactBrowserTabs
    {
      records, lines, truncated, maxDepthReached := [], [], false, false;
      this.compactBrowserTabs := compactBrowserTabs;
    }

    method Walk(node: Node, depth: nat, path: Trail)
      modifies this
      ensures Current() == Walked(node, depth, path, compactBrowserTabs, old(Current()))
      decreases node, 2
    {
      if |records| >= MAX_NODES || depth > MAX_DEPTH {
        truncated := true;
        if depth > MAX_DEPTH {
          maxDepthReached := true;
        }
        return;
      }
      if ShouldElide(node) {
        WalkKids(node.kids, depth, path);
        return;
      }
      WalkShown(node, depth, path);
    }

    method WalkShown(node: Node, depth: nat, path: Trail)
      modifies this
      ensures Current() == WalkedShown(node, depth, path, compactBrowserTabs, old(Current()))
      decreases node, 1
    {
      var index := |records|;
      records := records + [RecordOf(node, index, path)];
      lines := lines + [LineOf(node, index, depth)];
      if HidesKids(node) {
        return;
      }
      var childLineStart := |lines|;
      WalkKids(node.kids, depth + 1, path);
      if compactBrowserTabs {
        CompactRenderedBrowserTabs(childLineStart, depth + 1);
      }
    }

    method WalkKids(kids: seq<Node>, depth: nat, path: Trail)
      modifies this
      ensures Current() == WalkedKids(kids, depth, path, compactBrowserTabs, old(Current()))
      decreases kids, 0
    {
      for k := 0 to |kids|
        invariant WalkedKids(kids[k..], depth, path, compactBrowserTabs, Current())
               == WalkedKids(kids, depth, path, compactBrowserTabs, old(Current()))
      {
        assert kids[k..][1..] == kids[k + 1..];
        Walk(kids[k], depth, path + [kids[k].index]);
      }
    }

    /** Deletes inactive tabs from the end backwards, so positions still to visit do not move. */
    method CompactRenderedBrowserTabs(start: nat, depth: nat)
      requires start <= |lines|
      modifies this
      ensures Current() == Compacted(old(Current()), start, depth)
    {
      var tabs := TabIndexes(lines, start, depth);
      if |tabs| < 10 {
        return;
      }
      var activeTabs := ActiveTabsOf(lines, tabs, records);
      if |activeTabs| == 0 {
        NoActiveTab(Current(), start, depth);
        return;
      }
      ghost var before := Current();
      var omittedRecords, omittedCount := DeleteInactive(tabs, activeTabs, start, depth);
      FinishedSweep(before, start, depth, Sweep(lines, omittedCount, omittedRecords));
      if omittedCount <= 0 {
        return;
      }
      records := Without(records, omittedRecords);
      lines := lines[..tabs[0]] + [Omitted(depth, omittedCount)] + lines[tabs[0]..];
    }

    method DeleteInactive(tabs: seq<nat>, activeTabs: set<nat>, start: nat, depth: nat)
      returns (omittedRecords: set<nat>, omittedCount: nat)
      requires start <= |lines| && tabs == TabIndexes(lines, start, depth)
      requires activeTabs == ActiveTabsOf(lines, tabs, records)
      modifies this`lines
      ensures Sweep(lines, omittedCount, omittedRecords) == TabSweep(old(Current()), start, depth, 0)
    {
      ghost var before := Current();
      omittedRecords, omittedCount := {}, 0;
      var k := |tabs|;
      while k > 0
        invariant 0 <= k <= |tabs|
        invariant Sweep(lines, omittedCount, omittedRecords) == TabSweep(before, start, depth, k)
      {
        k := k - 1;
        NextTab(before, start, depth, k);
        var i := tabs[k];
        if i !in activeTabs {
          omittedRecords := omittedRecords + {lines[i].index};
          lines := lines[..i] + lines[i + 1..];
          omittedCount := omittedCount + 1;
        }
      }
    }
  }

  /** The backward scan over the tab positions, down to the `k`-th. */
  ghost function SweepDown(lines: seq<Line>, tabs: seq<nat>, activeTabs: set<nat>, k: nat): Sweep
    requires k <= |tabs|
    decreases |tabs| - k
  {
    if k == |tabs| then Sweep(lines, 0, {})
    else
      var s := SweepDown(lines, tabs, activeTabs, k + 1);
      if tabs[k] in activeTabs || tabs[k] >= |s.lines| || !s.lines[tabs[k]].Element? then s else DeleteTab(s, tabs[k])
  }

  ghost function TabSweep(st: Rendering, start: nat, depth: nat, k: nat): Sweep
    requires start <= |st.lines| && k <= |TabIndexes(st.lines, start, depth)|
  {
    var tabs := TabIndexes(st.lines, start, depth);
    SweepDown(st.lines, tabs, ActiveTabsOf(st.lines, tabs, st.records), k)
  }

  /** The scan over one more tab, whose line is where it was. */
  lemma SweepOnce(before: Rendering, start: nat, depth: nat, k: nat)
    requires start <= |before.lines| && k < |TabIndexes(before.lines, start, depth)|
    requires var next := TabSweep(before, start, depth, k + 1);
             var i := TabPosition(before, start, depth, k);
             i < |next.lines| && next.lines[i].Element?
    ensures var next := TabSweep(before, start, depth, k + 1);
            var i := TabPosition(before, start, depth, k);
            && i < |before.lines| && before.lines[i].Element?
            && TabSweep(before, start, depth, k)
               == if ActiveTab(before.lines[i], before.records) then next else DeleteTab(next, i)
  {
    assert TabIndexes(before.lines, start, depth)[k] in TabIndexes(before.lines, start, depth);
  }

  lemma {:induction false} SweepsTo(before: Rendering, start: nat, depth: nat, k: nat)
    requires start <= |before.lines| && k <= |TabIndexes(before.lines, start, depth)|
    ensures Swept(before, TabPosition(before, start, depth, k), depth, TabSweep(before, start, depth, k))
    decreases |TabIndexes(before.lines, start, depth)| - k
  {
    if k < |TabIndexes(before.lines, start, depth)| {
      SweepsTo(before, start, depth, k + 1);
      SweptTab(before, start, depth, k, TabSweep(before, start, depth, k + 1));
      SweepOnce(before, start, depth, k);
    }
  }

  lemma NextTab(before: Rendering, start: nat, depth: nat, k: nat)
    requires start <= |before.lines| && k < |TabIndexes(before.lines, start, depth)|
    ensures var tabs := TabIndexes(before.lines, start, depth);
            var next := TabSweep(before, start, depth, k + 1);
            && tabs[k] < |next.lines| && next.lines[tabs[k]].Element?
            && TabSweep(before, start, depth, k)
               == if tabs[k] in ActiveTabsOf(before.lines, tabs, before.records) then next else DeleteTab(next, tabs[k])
  {
    SweepsTo(before, start, depth, k + 1);
    SweptTab(before, start, depth, k, TabSweep(before, start, depth, k + 1));
  }

  lemma SomeMember<T>(s: set<T>) returns (x: T)
    requires |s| > 0
    ensures x in s
  {
    x :| x in s;
  }

  lemma NotEmpty<T>(s: set<T>, x: T)
    requires x in s
    ensures |s| > 0
  {
  }

  lemma NoActiveTab(st: Rendering, start: nat, depth: nat)
    requires start <= |st.lines|
    requires |ActiveTabsOf(st.lines, TabIndexes(st.lines, start, depth), st.records)| == 0
    ensures Compacted(st, start, depth) == st
  {
    var tabs := TabIndexes(st.lines, start, depth);
    if k :| 0 <= k < |tabs| && ActiveTab(st.lines[tabs[k]], st.records) {
      assert tabs[k] in tabs;
      NotEmpty(ActiveTabsOf(st.lines, tabs, st.records), tabs[k]);
    }
  }

  /** What the finished sweep leaves is what compaction is meant to produce, up to the marker. */
  lemma FinishedSweep(before: Rendering, start: nat, depth: nat, s: Sweep)
    requires start <= |before.lines|
    requires var tabs := TabIndexes(before.lines, start, depth);
             var active := ActiveTabsOf(before.lines, tabs, before.records);
             |tabs| >= 10 && |active| > 0 && s == TabSweep(before, start, depth, 0)
    ensures var first := TabIndexes(before.lines, start, depth)[0];
            var after := Compacted(before, start, depth);
            && first <= |s.lines|
            && after.truncated == before.truncated && after.maxDepthReached == before.maxDepthReached
            && (s.count <= 0 ==> after.lines == s.lines && after.records == before.records)
            && (s.count > 0 ==>
                  && after.lines == s.lines[..first] + [Omitted(depth, s.count)] + s.lines[first..]
                  && after.records == Without(before.records, s.omitted))
  {
    var tabs := TabIndexes(before.lines, start, depth);
    var i := SomeMember(ActiveTabsOf(before.lines, tabs, before.records));
    SweepsTo(before, start, depth, 0);
    FinishedCompaction(before, start, depth, s);
  }

  lemma FinishedCompaction(before: Rendering, start: nat, depth: nat, s: Sweep)
    requires start <= |before.lines| && |TabIndexes(before.lines, start, depth)| >= 10
    requires Swept(before, TabPosition(before, start, depth, 0), depth, s)
    requires exists k | 0 <= k < |TabIndexes(before.lines, start, depth)| ::
               ActiveTab(before.lines[TabIndexes(before.lines, start, depth)[k]], before.records)
    ensures var first := TabIndexes(before.lines, start, depth)[0];
            var after := Compacted(before, start, depth);
            && first <= |s.lines|
            && after.truncated == before.truncated && after.maxDepthReached == before.maxDepthReached
            && (s.count <= 0 ==> after.lines == s.lines && after.records == before.records)
            && (s.count > 0 ==>
                  && after.lines == s.lines[..first] + [Omitted(depth, s.count)] + s.lines[first..]
                  && after.records == Without(before.records, s.omitted))
  {
    var first := TabIndexes(before.lines, start, depth)[0];
    var tail := before.lines[first..];
    var kept := Kept(tail, depth, before.records);
    OmittedCount(before, start, depth);
    assert s.lines[..first] == before.lines[..first] && s.lines[first..] == kept;
    if s.count <= 0 {
      SomethingOmitted(tail, depth, before.records);
      KeptAll(tail, depth, before.records);
      assert s.lines == before.lines;
    }
  }
}
