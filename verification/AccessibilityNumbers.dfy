/** Record numbers after tab compaction.

The walk numbers a record by how many there are, and compaction takes records away from the middle, so later
records may get numbers that earlier ones still have. This module says exactly when, and gives a tree.
 */
module AccessibilityNumbers {
  import opened CliText
  import opened AccessibilityTree
  import opened AccessibilityRecords

  /** Two records have the same number. */
  ghost predicate Clash(records: seq<Record>) {
    exists i, j | 0 <= i < j < |records| :: records[i].index == records[j].index
  }

  /** As in every state the walk reaches before its first compaction. */
  ghost predicate NumberedFromZero(records: seq<Record>) {
    forall i | 0 <= i < |records| :: records[i].index == i
  }

  ghost predicate Increasing(records: seq<Record>) {
    forall i, j | 0 <= i < j < |records| :: records[i].index < records[j].index
  }

  lemma {:induction false} WithoutIncreases(records: seq<Record>, omitted: set<nat>)
    requires Increasing(records)
    ensures Increasing(Without(records, omitted))
  {
    if records != [] {
      WithoutIncreases(records[1..], omitted);
      forall r | r in Without(records[1..], omitted) ensures records[0].index < r.index {
        WithoutKeeps(records[1..], omitted, r);
      }
    }
  }

  /** The numbers that compaction takes away. */
  ghost function OmittedBy(st: Rendering, start: nat, depth: nat): set<nat>
    requires start <= |st.lines|
  {
    if !Compacts(st, start, depth) then {}
    else OmittedIndexes(st.lines[TabIndexes(st.lines, start, depth)[0]..], depth, st.records)
  }

  lemma {:induction false} WithoutNothing(records: seq<Record>, omitted: set<nat>)
    requires forall r | r in records :: r.index !in omitted
    ensures Without(records, omitted) == records
  {
    if records != [] {
      WithoutNothing(records[1..], omitted);
    }
  }

  lemma CompactedRecords(st: Rendering, start: nat, depth: nat)
    requires start <= |st.lines|
    ensures Compacted(st, start, depth).records == Without(st.records, OmittedBy(st, start, depth))
  {
    if !Compacts(st, start, depth) {
      WithoutNothing(st.records, {});
    }
  }

  /** A record stands at number `k` exactly when compaction has left it there. */
  lemma LeftAt(records: seq<Record>, omitted: set<nat>, k: nat)
    requires NumberedFromZero(records)
    ensures (exists r | r in Without(records, omitted) :: r.index == k) <==> k < |records| && k !in omitted
  {
    if k < |records| && k !in omitted {
      assert records[k] in records;
      WithoutKeeps(records, omitted, records[k]);
    } else if r :| r in Without(records, omitted) && r.index == k {
      WithoutKeeps(records, omitted, r);
    }
  }

  /** Records followed by newly numbered ones clash exactly when they did before, or one of the new numbers
      was taken. */
  lemma ClashWithNumbered(kept: seq<Record>, from: nat, emits: seq<Entry>)
    ensures Clash(kept + NumberedRecords(from, emits))
       <==> Clash(kept) || exists r | r in kept :: from <= r.index < from + |emits|
  {
    var more := NumberedRecords(from, emits);
    var all := kept + more;
    NumberedFrom(from, emits);
    if Clash(all) && !Clash(kept) {
      var i, j :| 0 <= i < j < |all| && all[i].index == all[j].index;
    }
    if i, j :| 0 <= i < j < |kept| && kept[i].index == kept[j].index {
      assert all[i] == kept[i] && all[j] == kept[j];
    }
    if r :| r in kept && from <= r.index < from + |emits| {
      TakenOneClashes(kept, more, from, r);
    }
  }

  lemma TakenOneClashes(kept: seq<Record>, more: seq<Record>, from: nat, r: Record)
    requires forall k | 0 <= k < |more| :: more[k].index == from + k
    requires r in kept && from <= r.index < from + |more|
    ensures Clash(kept + more)
  {
    var i :| 0 <= i < |kept| && kept[i] == r;
    var j := |kept| + (r.index - from);
    assert (kept + more)[i] == r && (kept + more)[j] == more[r.index - from];
  }

  lemma NumberedFrom(from: nat, emits: seq<Entry>)
    ensures |NumberedRecords(from, emits)| == |emits|
    ensures forall i | 0 <= i < |emits| :: NumberedRecords(from, emits)[i].index == from + i
  {
    NumberedLength(from, emits);
    forall i | 0 <= i < |emits| ensures NumberedRecords(from, emits)[i].index == from + i {
      NumberedAt(from, emits, i);
    }
  }

  /** In any state, whatever was compacted before, the walk goes on to the siblings `rest` and compacts nothing
      there: then two records share a number if and only if two did before, or one of the numbers given out is
      still in use. Those start at the count of records, one for each node listed that there is room for. */
  lemma SegmentClashExactly(st: Rendering, rest: seq<Node>, depth: nat, path: Trail)
    requires |st.records| <= MAX_NODES
    requires WalkedKids(rest, depth, path, true, st) == WalkedKids(rest, depth, path, false, st)
    ensures var n, given := |st.records|, |KeptOf(KidEntries(rest, depth, path), st)|;
            Clash(WalkedKids(rest, depth, path, true, st).records)
            <==> Clash(st.records) || exists r | r in st.records :: n <= r.index < n + given
  {
    var emits := KeptOf(KidEntries(rest, depth, path), st);
    KidsFeed(rest, depth, path, st);
    FedState(Cut(st), KidEntries(rest, depth, path));
    NumberedLength(|st.records|, emits);
    ClashWithNumbered(st.records, |st.records|, emits);
  }

  /** When the walk goes on after its first compaction: two records then share a number if and only if one of
      the numbers given out, which start at the count of records left, was in use before and was not
      omitted. */
  lemma NumbersClashExactly(st: Rendering, start: nat, below: nat, rest: seq<Node>, depth: nat, path: Trail)
    requires start <= |st.lines| && |st.records| <= MAX_NODES && NumberedFromZero(st.records)
    requires var left := Compacted(st, start, below);
             WalkedKids(rest, depth, path, true, left) == WalkedKids(rest, depth, path, false, left)
    ensures var left := Compacted(st, start, below);
            && |left.records| <= |st.records|
            && var n, given := |left.records|, |KeptOf(KidEntries(rest, depth, path), left)|;
               Clash(WalkedKids(rest, depth, path, true, left).records)
               <==> exists k | n <= k < n + given && k < |st.records| :: k !in OmittedBy(st, start, below)
  {
    var left := Compacted(st, start, below);
    var omitted := OmittedBy(st, start, below);
    CompactedRecords(st, start, below);
    WithoutIsShorter(st.records, omitted);
    WithoutIncreases(st.records, omitted);
    SegmentClashExactly(left, rest, depth, path);
    var n := |left.records|;
    TakenNumbers(st.records, omitted, n, n + |KeptOf(KidEntries(rest, depth, path), left)|);
  }

  lemma {:induction false} WithoutIsShorter(records: seq<Record>, omitted: set<nat>)
    ensures |Without(records, omitted)| <= |records|
  {
    if records != [] {
      WithoutIsShorter(records[1..], omitted);
    }
  }

  lemma TakenNumbers(records: seq<Record>, omitted: set<nat>, from: nat, to: nat)
    requires NumberedFromZero(records)
    ensures (exists r | r in Without(records, omitted) :: from <= r.index < to)
       <==> exists k | from <= k < to && k < |records| :: k !in omitted
  {
    if r :| r in Without(records, omitted) && from <= r.index < to {
      LeftAt(records, omitted, r.index);
    }
    if k :| from <= k < to && k < |records| && k !in omitted {
      LeftAt(records, omitted, k);
    }
  }

  // ----- the whole walk -----

  function Numbers(records: seq<Record>): (numbers: seq<nat>)
    ensures |numbers| == |records| && forall i | 0 <= i < |records| :: numbers[i] == records[i].index
  {
    if records == [] then [] else [records[0].index] + Numbers(records[1..])
  }

  /** What the walk does to the numbers in use: give the next one out, or omit some. */
  datatype Move = Give | Omit(omitted: set<nat>)

  function Dropped(numbers: seq<nat>, omitted: set<nat>): seq<nat> {
    if numbers == [] then []
    else (if numbers[0] in omitted then [] else [numbers[0]]) + Dropped(numbers[1..], omitted)
  }

  function Moved(numbers: seq<nat>, move: Move): seq<nat> {
    match move
    case Give => numbers + [|numbers|]
    case Omit(omitted) => Dropped(numbers, omitted)
  }

  function AllMoved(numbers: seq<nat>, moves: seq<Move>): seq<nat>
    decreases moves
  {
    if moves == [] then numbers else AllMoved(Moved(numbers, moves[0]), moves[1..])
  }

  lemma {:induction false} AllMovedConcat(numbers: seq<nat>, a: seq<Move>, b: seq<Move>)
    ensures AllMoved(numbers, a + b) == AllMoved(AllMoved(numbers, a), b)
    decreases a
  {
    if a == [] {
      assert a + b == b;
    } else {
      assert (a + b)[1..] == a[1..] + b;
      AllMovedConcat(Moved(numbers, a[0]), a[1..], b);
    }
  }

  /** The moves of a walk with compaction, in order. */
  ghost function Moves(node: Node, depth: nat, path: Trail, st: Rendering): seq<Move>
    decreases node, 2
  {
    if |st.records| >= MAX_NODES || depth > MAX_DEPTH then []
    else if ShouldElide(node) then KidMoves(node.kids, depth, path, st)
    else ShownMoves(node, depth, path, st)
  }

  ghost function ShownMoves(node: Node, depth: nat, path: Trail, st: Rendering): seq<Move>
    decreases node, 1
  {
    var emitted := Emit(st, node, depth, path);
    if HidesKids(node) then [Give]
    else
      var below := WalkedKids(node.kids, depth + 1, path, true, emitted);
      [Give] + (KidMoves(node.kids, depth + 1, path, emitted)
                + [Omit(OmittedBy(below, |emitted.lines|, depth + 1))])
  }

  ghost function KidMoves(kids: seq<Node>, depth: nat, path: Trail, st: Rendering): seq<Move>
    decreases kids, 0
  {
    if kids == [] then []
    else
      var here := path + [kids[0].index];
      Moves(kids[0], depth, here, st) + KidMoves(kids[1..], depth, path, Walked(kids[0], depth, here, true, st))
  }

  lemma {:induction false} NumbersWithout(records: seq<Record>, omitted: set<nat>)
    ensures Numbers(Without(records, omitted)) == Dropped(Numbers(records), omitted)
  {
    if records != [] {
      NumbersWithout(records[1..], omitted);
      assert Numbers(records)[1..] == Numbers(records[1..]);
    }
  }

  lemma NumbersGiven(st: Rendering, node: Node, depth: nat, path: Trail)
    ensures Numbers(Emit(st, node, depth, path).records) == AllMoved(Numbers(st.records), [Give])
  {
    assert [Give][1..] == [];
  }

  lemma NumbersOmitted(st: Rendering, start: nat, depth: nat)
    requires start <= |st.lines|
    ensures Numbers(Compacted(st, start, depth).records)
         == AllMoved(Numbers(st.records), [Omit(OmittedBy(st, start, depth))])
  {
    CompactedRecords(st, start, depth);
    NumbersWithout(st.records, OmittedBy(st, start, depth));
    var move := Omit(OmittedBy(st, start, depth));
    assert [move][1..] == [];
  }

  lemma {:induction false} WalkMoves(node: Node, depth: nat, path: Trail, st: Rendering)
    ensures Numbers(Walked(node, depth, path, true, st).records)
         == AllMoved(Numbers(st.records), Moves(node, depth, path, st))
    decreases node, 2
  {
    if |st.records| < MAX_NODES && depth <= MAX_DEPTH {
      if ShouldElide(node) {
        KidsMove(node.kids, depth, path, st);
      } else {
        ShownMove(node, depth, path, st);
      }
    }
  }

  lemma {:induction false} ShownMove(node: Node, depth: nat, path: Trail, st: Rendering)
    ensures Numbers(WalkedShown(node, depth, path, true, st).records)
         == AllMoved(Numbers(st.records), ShownMoves(node, depth, path, st))
    decreases node, 1
  {
    var emitted := Emit(st, node, depth, path);
    NumbersGiven(st, node, depth, path);
    if !HidesKids(node) {
      var below := WalkedKids(node.kids, depth + 1, path, true, emitted);
      var kids, last := KidMoves(node.kids, depth + 1, path, emitted),
                        [Omit(OmittedBy(below, |emitted.lines|, depth + 1))];
      KidsMove(node.kids, depth + 1, path, emitted);
      NumbersOmitted(below, |emitted.lines|, depth + 1);
      AllMovedConcat(Numbers(st.records), [Give], kids + last);
      AllMovedConcat(Numbers(emitted.records), kids, last);
    }
  }

  lemma {:induction false} KidsMove(kids: seq<Node>, depth: nat, path: Trail, st: Rendering)
    ensures Numbers(WalkedKids(kids, depth, path, true, st).records)
         == AllMoved(Numbers(st.records), KidMoves(kids, depth, path, st))
    decreases kids, 0
  {
    if kids != [] {
      var here := path + [kids[0].index];
      var next := Walked(kids[0], depth, here, true, st);
      WalkMoves(kids[0], depth, here, st);
      KidsMove(kids[1..], depth, path, next);
      AllMovedConcat(Numbers(st.records), Moves(kids[0], depth, here, st), KidMoves(kids[1..], depth, path, next));
    }
  }

  /** `n` stands in the list at least twice. */
  predicate Twice(numbers: seq<nat>, n: nat) {
    numbers != [] && ((numbers[0] == n && n in numbers[1..]) || Twice(numbers[1..], n))
  }

  lemma {:induction false} TwiceMeans(numbers: seq<nat>, n: nat)
    ensures Twice(numbers, n) <==> exists i, j | 0 <= i < j < |numbers| :: numbers[i] == numbers[j] == n
  {
    if numbers != [] {
      var rest := numbers[1..];
      TwiceMeans(rest, n);
      if i, j :| 0 <= i < j < |rest| && rest[i] == rest[j] == n {
        assert numbers[i + 1] == numbers[j + 1] == n;
      }
      if i, j :| 0 <= i < j < |numbers| && numbers[i] == numbers[j] == n {
        assert rest[j - 1] == n;
        if i > 0 {
          assert rest[i - 1] == n;
        }
      }
      if numbers[0] == n && n in rest {
        var j :| 0 <= j < |rest| && rest[j] == n;
        assert numbers[0] == numbers[j + 1] == n;
      }
    }
  }

  lemma ClashIsTwice(records: seq<Record>)
    ensures Clash(records) <==> exists n :: Twice(Numbers(records), n)
  {
    if i, j :| 0 <= i < j < |records| && records[i].index == records[j].index {
      TwiceMeans(Numbers(records), records[i].index);
      assert Numbers(records)[i] == Numbers(records)[j] == records[i].index;
    }
    if n :| Twice(Numbers(records), n) {
      TwiceMeans(Numbers(records), n);
    }
  }

  lemma {:induction false} TwiceAfterGive(numbers: seq<nat>, last: nat, n: nat)
    ensures Twice(numbers + [last], n) <==> Twice(numbers, n) || (n == last && n in numbers)
  {
    if numbers == [] {
      assert numbers + [last] == [last] && [last][1..] == [];
    } else {
      assert (numbers + [last])[1..] == numbers[1..] + [last];
      TwiceAfterGive(numbers[1..], last, n);
      assert n in numbers <==> n == numbers[0] || n in numbers[1..];
    }
  }

  lemma {:induction false} InDropped(numbers: seq<nat>, omitted: set<nat>, n: nat)
    ensures n in Dropped(numbers, omitted) <==> n in numbers && n !in omitted
  {
    if numbers != [] {
      InDropped(numbers[1..], omitted, n);
    }
  }

  lemma {:induction false} TwiceAfterOmit(numbers: seq<nat>, omitted: set<nat>, n: nat)
    ensures Twice(Dropped(numbers, omitted), n) <==> Twice(numbers, n) && n !in omitted
  {
    if numbers != [] {
      var rest := Dropped(numbers[1..], omitted);
      TwiceAfterOmit(numbers[1..], omitted, n);
      InDropped(numbers[1..], omitted, n);
      if numbers[0] !in omitted {
        assert ([numbers[0]] + rest)[1..] == rest;
      } else {
        assert [] + rest == rest;
      }
    }
  }

  /** Compaction leaves two records with one number exactly when there were two and it omits neither. */
  lemma WithoutClashExactly(records: seq<Record>, omitted: set<nat>)
    ensures Clash(Without(records, omitted))
       <==> exists i, j | 0 <= i < j < |records| :: records[i].index == records[j].index && records[i].index !in omitted
  {
    NumbersWithout(records, omitted);
    ClashIsTwice(Without(records, omitted));
    if n :| Twice(Numbers(Without(records, omitted)), n) {
      TwiceAfterOmit(Numbers(records), omitted, n);
      TwiceMeans(Numbers(records), n);
    }
    if i, j :| 0 <= i < j < |records| && records[i].index == records[j].index && records[i].index !in omitted {
      assert Numbers(records)[i] == Numbers(records)[j] == records[i].index;
      TwiceMeans(Numbers(records), records[i].index);
      TwiceAfterOmit(Numbers(records), omitted, records[i].index);
    }
  }

  /** No later compaction omits `n`. */
  ghost predicate Stays(n: nat, moves: seq<Move>) {
    forall move | move in moves && move.Omit? :: n !in move.omitted
  }

  /** At some point a number is given out that is in use, and no compaction omits it from then on. */
  ghost predicate Reused(numbers: seq<nat>, moves: seq<Move>, n: nat)
    decreases moves
  {
    moves != [] &&
    ((moves[0].Give? && n == |numbers| && n in numbers && Stays(n, moves[1..]))
     || Reused(Moved(numbers, moves[0]), moves[1..], n))
  }

  lemma {:induction false} TwiceExactly(numbers: seq<nat>, moves: seq<Move>, n: nat)
    ensures Twice(AllMoved(numbers, moves), n) <==> (Twice(numbers, n) && Stays(n, moves)) || Reused(numbers, moves, n)
    decreases moves
  {
    if moves != [] {
      TwiceExactly(Moved(numbers, moves[0]), moves[1..], n);
      match moves[0] {
        case Give => TwiceAfterGive(numbers, |numbers|, n);
        case Omit(omitted) => TwiceAfterOmit(numbers, omitted, n);
      }
    }
  }

  /** Two records of a whole rendering, with any number of compactions, share a number if and only if some
      number is given out while it is in use and no compaction omits it after that. */
  lemma WholeWalkClashesExactly(root: Node, path: Trail)
    ensures Clash(Walked(root, 0, path, true, EMPTY).records)
       <==> exists n :: Reused([], Moves(root, 0, path, EMPTY), n)
  {
    var moves := Moves(root, 0, path, EMPTY);
    WalkMoves(root, 0, path, EMPTY);
    ClashIsTwice(Walked(root, 0, path, true, EMPTY).records);
    var numbers := Numbers(Walked(root, 0, path, true, EMPTY).records);
    assert numbers == AllMoved([], moves);
    if n :| Twice(numbers, n) {
      TwiceExactly([], moves, n);
    }
    if n :| Reused([], moves, n) {
      TwiceExactly([], moves, n);
    }
  }

  // ----- a tree whose records clash -----

  /** A node that only adds its own record and line. */
  predicate Leaf(node: Node) {
    node.kids == [] && !ShouldElide(node)
  }

  function LeafEntries(nodes: seq<Node>, depth: nat, path: Trail): seq<Entry> {
    if nodes == [] then []
    else [Entry(nodes[0], depth, path + [nodes[0].index], Emitted)] + LeafEntries(nodes[1..], depth, path)
  }

  lemma {:induction false} LeafEntriesAt(nodes: seq<Node>, depth: nat, path: Trail)
    ensures |LeafEntries(nodes, depth, path)| == |nodes|
    ensures forall i | 0 <= i < |nodes| ::
              && LeafEntries(nodes, depth, path)[i].node == nodes[i]
              && LeafEntries(nodes, depth, path)[i].depth == depth
              && LeafEntries(nodes, depth, path)[i].path == path + [nodes[i].index]
  {
    if nodes != [] {
      LeafEntriesAt(nodes[1..], depth, path);
    }
  }

  lemma LeafWalk(node: Node, depth: nat, path: Trail, st: Rendering)
    requires Leaf(node) && |st.records| < MAX_NODES && depth <= MAX_DEPTH
    ensures Walked(node, depth, path, true, st) == Emit(st, node, depth, path)
  {
    var emitted := Emit(st, node, depth, path);
    assert WalkedKids(node.kids, depth + 1, path, true, emitted) == emitted;
    assert TabIndexes(emitted.lines, |emitted.lines|, depth + 1) == [];
  }

  lemma {:induction false} LeavesWalk(nodes: seq<Node>, depth: nat, path: Trail, st: Rendering)
    requires forall node | node in nodes :: Leaf(node)
    requires |st.records| + |nodes| <= MAX_NODES && depth <= MAX_DEPTH
    ensures WalkedKids(nodes, depth, path, true, st) == Appended(st, LeafEntries(nodes, depth, path))
    decreases nodes
  {
    if nodes == [] {
      assert st.records + [] == st.records && st.lines + [] == st.lines;
    } else {
      var here := path + [nodes[0].index];
      LeafWalk(nodes[0], depth, here, st);
      LeavesWalk(nodes[1..], depth, path, Emit(st, nodes[0], depth, here));
    }
  }

  lemma {:induction false} NoTabs(lines: seq<Line>, start: nat, depth: nat)
    requires start <= |lines| && forall i | start <= i < |lines| :: !DirectTab(lines[i], depth)
    ensures TabIndexes(lines, start, depth) == []
    decreases |lines| - start
  {
    if start < |lines| {
      NoTabs(lines, start + 1, depth);
    }
  }

  lemma {:induction false} AllTabs(lines: seq<Line>, start: nat, depth: nat)
    requires start <= |lines| && forall i | start <= i < |lines| :: DirectTab(lines[i], depth)
    ensures |TabIndexes(lines, start, depth)| == |lines| - start
    ensures forall k | 0 <= k < |lines| - start :: TabIndexes(lines, start, depth)[k] == start + k
    decreases |lines| - start
  {
    if start < |lines| {
      AllTabs(lines, start + 1, depth);
    }
  }

  lemma {:induction false} RecordAtNumber(records: seq<Record>, k: nat)
    requires NumberedFromZero(records) && k < |records|
    ensures RecordAt(records, k) == Some(records[k])
    decreases |records|
  {
    if k < |records| - 1 {
      RecordAtNumber(records[..|records| - 1], k);
    }
  }

  /** The state in which a group of leaf tabs is compacted: two records before them, then one for each tab,
      of which only the second is active. */
  ghost predicate OneActive(st: Rendering, depth: nat) {
    && |st.records| == |st.lines| >= 12 && NumberedFromZero(st.records)
    && (forall i | 0 <= i < |st.lines| :: st.lines[i].Element? && st.lines[i].index == i)
    && (forall i | 2 <= i < |st.lines| :: DirectTab(st.lines[i], depth))
    && (forall i | 2 <= i < |st.lines| :: (st.lines[i].saysSelected || st.records[i].active) == (i == 3))
  }

  lemma OneActiveOmits(st: Rendering, depth: nat)
    requires OneActive(st, depth)
    ensures Compacts(st, 2, depth)
    ensures forall k | 0 <= k < |st.records| :: k in OmittedBy(st, 2, depth) <==> k == 2 || k > 3
  {
    AllTabs(st.lines, 2, depth);
    var tabs := TabIndexes(st.lines, 2, depth);
    forall k | 2 <= k < |st.lines| ensures ActiveTab(st.lines[k], st.records) <==> k == 3 {
      RecordAtNumber(st.records, k);
    }
    assert tabs[0] == 2 && tabs[1] == 3;
    var tail := st.lines[2..];
    forall k | 0 <= k < |st.records| ensures k in OmittedBy(st, 2, depth) <==> k == 2 || k > 3 {
      if k >= 2 {
        assert tail[k - 2] == st.lines[k] && st.lines[k] in tail;
      }
    }
  }

  lemma {:induction false} WithoutKeepsFront(front: seq<Record>, rest: seq<Record>, omitted: set<nat>)
    requires forall r | r in front :: r.index !in omitted
    ensures Without(front + rest, omitted) == front + Without(rest, omitted)
  {
    if front == [] {
      assert front + rest == rest;
    } else {
      assert (front + rest)[1..] == front[1..] + rest;
      WithoutKeepsFront(front[1..], rest, omitted);
    }
  }

  lemma {:induction false} WithoutDropsFront(front: seq<Record>, rest: seq<Record>, omitted: set<nat>)
    requires forall r | r in front :: r.index in omitted
    ensures Without(front + rest, omitted) == Without(rest, omitted)
  {
    if front == [] {
      assert front + rest == rest;
    } else {
      assert (front + rest)[1..] == front[1..] + rest;
      WithoutDropsFront(front[1..], rest, omitted);
    }
  }

  lemma WithoutParts(a: seq<Record>, b: seq<Record>, c: seq<Record>, d: seq<Record>, omitted: set<nat>)
    requires (forall r | r in a :: r.index !in omitted) && (forall r | r in b :: r.index in omitted)
    requires (forall r | r in c :: r.index !in omitted) && (forall r | r in d :: r.index in omitted)
    ensures Without(a + (b + (c + d)), omitted) == a + c
  {
    WithoutKeepsFront(a, b + (c + d), omitted);
    WithoutDropsFront(b, c + d, omitted);
    WithoutKeepsFront(c, d, omitted);
    WithoutDropsFront(d, [], omitted);
    assert d + [] == d && c + [] == c;
  }

  /** Three records are left, numbered 0, 1 and 3. */
  lemma OneActiveLeaves(st: Rendering, depth: nat)
    requires OneActive(st, depth)
    ensures Compacted(st, 2, depth).records == st.records[..2] + [st.records[3]]
  {
    OneActiveOmits(st, depth);
    CompactedRecords(st, 2, depth);
    LeavesThree(st.records, OmittedBy(st, 2, depth));
  }

  lemma LeavesThree(records: seq<Record>, omitted: set<nat>)
    requires NumberedFromZero(records) && |records| >= 4
    requires forall k | 0 <= k < |records| :: k in omitted <==> k == 2 || k > 3
    ensures Without(records, omitted) == records[..2] + [records[3]]
  {
    var a, b, c, d := records[..2], [records[2]], [records[3]], records[4..];
    assert records == a + (b + (c + d));
    forall r | r in d ensures r.index in omitted {
      var i :| 0 <= i < |d| && d[i] == r;
      assert r == records[i + 4];
    }
    WithoutParts(a, b, c, d, omitted);
  }

  lemma {:induction false} KeptIsPart(lines: seq<Line>, depth: nat, records: seq<Record>)
    ensures forall line | line in Kept(lines, depth, records) :: line in lines
  {
    if lines != [] {
      KeptIsPart(lines[1..], depth, records);
    }
  }

  /** A node with children of its own that are shown. */
  predicate Group(node: Node) {
    !ShouldElide(node) && !HidesKids(node)
  }

  /** An open tab, by the mark on its line, its state or its value. */
  predicate IsOpen(info: Info) {
    info.saysSelected || info.selected || Strip(info.value) == "1"
  }

  /** Leaf tabs of which only the second is open. */
  predicate SecondActive(tabs: seq<Node>) {
    forall i | 0 <= i < |tabs| :: Leaf(tabs[i]) && tabs[i].info.tabLine && IsOpen(tabs[i].info) == (i == 1)
  }

  ghost predicate TabsThenSibling(root: Node) {
    && Group(root) && |root.kids| == 2
    && Group(root.kids[0]) && !root.kids[0].info.tabLine
    && Leaf(root.kids[1]) && !root.kids[1].info.tabLine
    && 10 <= |root.kids[0].kids| <= 1000 && SecondActive(root.kids[0].kids)
  }

  /** The state before the tabs are compacted. */
  ghost function TabsWalked(root: Node, path: Trail): Rendering
    requires |root.kids| == 2
  {
    var group := root.kids[0];
    var here := path + [group.index];
    Appended(Emit(Emit(EMPTY, root, 0, path), group, 1, here), LeafEntries(group.kids, 2, here))
  }

  lemma NumberedTabs(tabs: seq<Node>, depth: nat, path: Trail, from: nat)
    requires SecondActive(tabs)
    ensures var emits := LeafEntries(tabs, depth, path);
            && |NumberedRecords(from, emits)| == |NumberedLines(from, emits)| == |tabs|
            && (forall i | 0 <= i < |tabs| ::
                  && NumberedLines(from, emits)[i] == Element(depth, from + i, true, tabs[i].info.saysSelected)
                  && NumberedRecords(from, emits)[i].index == from + i
                  && NumberedRecords(from, emits)[i].runtimeId == path + [tabs[i].index]
                  && (tabs[i].info.saysSelected || NumberedRecords(from, emits)[i].active) == (i == 1))
  {
    var emits := LeafEntries(tabs, depth, path);
    LeafEntriesAt(tabs, depth, path);
    forall i | 0 <= i < |tabs|
      ensures |NumberedRecords(from, emits)| == |NumberedLines(from, emits)| == |emits|
      ensures NumberedLines(from, emits)[i] == Element(depth, from + i, true, tabs[i].info.saysSelected)
      ensures NumberedRecords(from, emits)[i] == RecordOf(tabs[i], from + i, path + [tabs[i].index])
    {
      NumberedAt(from, emits, i);
    }
    if tabs == [] {
      assert emits == [];
    }
  }

  lemma TabsWalkedOneActive(root: Node, path: Trail)
    requires TabsThenSibling(root)
    ensures OneActive(TabsWalked(root, path), 2)
    ensures forall i | 0 <= i < 2 :: !DirectTab(TabsWalked(root, path).lines[i], 1)
    ensures |TabsWalked(root, path).records[3].runtimeId| == |path| + 2
  {
    var group := root.kids[0];
    var here := path + [group.index];
    NumberedTabs(group.kids, 2, here, 2);
    var st, emits := Emit(Emit(EMPTY, root, 0, path), group, 1, here), LeafEntries(group.kids, 2, here);
    assert st.records == [RecordOf(root, 0, path), RecordOf(group, 1, here)];
    assert st.lines == [LineOf(root, 0, 0), LineOf(group, 1, 1)];
    assert TabsWalked(root, path) == Appended(st, emits);
    TwoThenTabs(st, NumberedRecords(2, emits), NumberedLines(2, emits), TabsWalked(root, path));
  }

  lemma TwoThenTabs(st: Rendering, records: seq<Record>, lines: seq<Line>, whole: Rendering)
    requires |st.records| == |st.lines| == 2 && NumberedFromZero(st.records)
    requires forall i | 0 <= i < 2 :: st.lines[i].Element? && st.lines[i].index == i
    requires |records| == |lines| >= 10
    requires forall i | 0 <= i < |lines| ::
               && DirectTab(lines[i], 2) && lines[i].index == 2 + i && records[i].index == 2 + i
               && (lines[i].saysSelected || records[i].active) == (i == 1)
    requires whole.records == st.records + records && whole.lines == st.lines + lines
    ensures OneActive(whole, 2) && whole.records[3] == records[1]
  {
    assert forall i | 2 <= i < |whole.lines| :: whole.lines[i] == lines[i - 2] && whole.records[i] == records[i - 2];
  }

  lemma GroupWalked(root: Node, path: Trail)
    requires TabsThenSibling(root)
    ensures var group := root.kids[0];
            Walked(group, 1, path + [group.index], true, Emit(EMPTY, root, 0, path))
            == Compacted(TabsWalked(root, path), 2, 2)
  {
    var group := root.kids[0];
    var here := path + [group.index];
    LeavesWalk(group.kids, 2, here, Emit(Emit(EMPTY, root, 0, path), group, 1, here));
  }

  lemma CompactedLines(st: Rendering, start: nat, depth: nat, first: nat) returns (count: nat)
    requires start <= |st.lines| && Compacts(st, start, depth) && TabIndexes(st.lines, start, depth)[0] == first
    ensures Compacted(st, start, depth).lines
         == st.lines[..first] + [Omitted(depth, count)] + Kept(st.lines[first..], depth, st.records)
  {
    count := |st.lines[first..]| - |Kept(st.lines[first..], depth, st.records)|;
  }

  lemma OneActiveLines(st: Rendering, depth: nat) returns (count: nat)
    requires OneActive(st, depth)
    ensures Compacted(st, 2, depth).lines
         == st.lines[..2] + [Omitted(depth, count)] + Kept(st.lines[2..], depth, st.records)
  {
    OneActiveOmits(st, depth);
    AllTabs(st.lines, 2, depth);
    count := CompactedLines(st, 2, depth, 2);
  }

  lemma NoTabHere(front: seq<Line>, marker: Line, kept: seq<Line>, depth: nat)
    requires |front| >= 1 && (forall i | 1 <= i < |front| :: !DirectTab(front[i], depth))
    requires marker.Omitted? && forall line | line in kept :: !DirectTab(line, depth)
    ensures var lines := front + [marker] + kept;
            forall i | 1 <= i < |lines| :: !DirectTab(lines[i], depth)
  {
  }

  lemma TabsBelow(lines: seq<Line>, depth: nat)
    requires |lines| >= 2 && depth != 1 && forall i | 2 <= i < |lines| :: DirectTab(lines[i], depth)
    ensures forall line | line in lines[2..] :: !DirectTab(line, 1)
  {
    forall line | line in lines[2..] ensures !DirectTab(line, 1) {
      var i :| 0 <= i < |lines[2..]| && lines[2..][i] == line;
      assert line == lines[i + 2];
    }
  }

  lemma SiblingWalked(after: Node, path: Trail, left: Rendering)
    requires Leaf(after) && !after.info.tabLine && |left.records| < MAX_NODES
    requires |left.lines| >= 1 && forall i | 1 <= i < |left.lines| :: !DirectTab(left.lines[i], 1)
    ensures var whole := Emit(left, after, 1, path);
            Walked(after, 1, path, true, left) == whole && TabIndexes(whole.lines, 1, 1) == []
  {
    LeafWalk(after, 1, path, left);
    NoTabs(Emit(left, after, 1, path).lines, 1, 1);
  }

  /** After the group no line is a tab at depth 1. */
  lemma NoOuterTabs(lines: seq<Line>, records: seq<Record>, count: nat)
    requires |lines| >= 2 && !DirectTab(lines[1], 1) && forall i | 2 <= i < |lines| :: DirectTab(lines[i], 2)
    ensures var after := lines[..2] + [Omitted(2, count)] + Kept(lines[2..], 2, records);
            forall i | 1 <= i < |after| :: !DirectTab(after[i], 1)
  {
    KeptIsPart(lines[2..], 2, records);
    TabsBelow(lines, 2);
    NoTabHere(lines[..2], Omitted(2, count), Kept(lines[2..], 2, records), 1);
  }

  lemma ThreeLeft(st: Rendering)
    requires OneActive(st, 2) && !DirectTab(st.lines[1], 1)
    ensures var left := Compacted(st, 2, 2);
            && |left.records| == 3 && |left.lines| >= 1
            && forall i | 1 <= i < |left.lines| :: !DirectTab(left.lines[i], 1)
  {
    OneActiveLeaves(st, 2);
    var count := OneActiveLines(st, 2);
    NoOuterTabs(st.lines, st.records, count);
  }

  lemma RootWalked(root: Node, path: Trail, left: Rendering, whole: Rendering)
    requires Group(root) && |root.kids| == 2
    requires left == Walked(root.kids[0], 1, path + [root.kids[0].index], true, Emit(EMPTY, root, 0, path))
    requires whole == Walked(root.kids[1], 1, path + [root.kids[1].index], true, left)
    requires |whole.lines| >= 1 && TabIndexes(whole.lines, 1, 1) == []
    ensures Walked(root, 0, path, true, EMPTY) == whole
  {
    var emitted := Emit(EMPTY, root, 0, path);
    WalkedTwo(root.kids[0], root.kids[1], 1, path, emitted);
    assert root.kids == [root.kids[0], root.kids[1]];
    GroupShown(root, path, whole);
  }

  lemma WalkedTwo(first: Node, second: Node, depth: nat, path: Trail, st: Rendering)
    ensures WalkedKids([first, second], depth, path, true, st)
         == Walked(second, depth, path + [second.index], true,
                   Walked(first, depth, path + [first.index], true, st))
  {
    var next := Walked(first, depth, path + [first.index], true, st);
    assert [first, second][1..] == [second] && [second][1..] == [];
    assert WalkedKids([second], depth, path, true, next)
        == WalkedKids([], depth, path, true, Walked(second, depth, path + [second.index], true, next));
  }

  lemma GroupShown(root: Node, path: Trail, whole: Rendering)
    requires Group(root) && WalkedKids(root.kids, 1, path, true, Emit(EMPTY, root, 0, path)) == whole
    requires |whole.lines| >= 1 && TabIndexes(whole.lines, 1, 1) == []
    ensures Walked(root, 0, path, true, EMPTY) == whole
  {
    assert |Emit(EMPTY, root, 0, path).lines| == 1;
  }

  /** The walk of the whole tree: the tabs, their compaction, and then the sibling. */
  lemma WholeWalk(root: Node, path: Trail)
    requires TabsThenSibling(root)
    ensures var left := Compacted(TabsWalked(root, path), 2, 2);
            Walked(root, 0, path, true, EMPTY) == Emit(left, root.kids[1], 1, path + [root.kids[1].index])
  {
    var there := path + [root.kids[1].index];
    TabsWalkedOneActive(root, path);
    ThreeLeft(TabsWalked(root, path));
    GroupWalked(root, path);
    var left := Compacted(TabsWalked(root, path), 2, 2);
    SiblingWalked(root.kids[1], there, left);
    RootWalked(root, path, left, Emit(left, root.kids[1], 1, there));
  }

  /** On such a tree the node after the tabs gets number 3, which the active tab already has. */
  lemma SiblingTakesActiveNumber(root: Node, path: Trail)
    requires TabsThenSibling(root)
    ensures var records := Walked(root, 0, path, true, EMPTY).records;
            && |records| == 4 && records[2].index == 3 && records[3].index == 3
            && records[2].runtimeId != records[3].runtimeId
            && Clash(records)
  {
    WholeWalk(root, path);
    TabsLeft(root, path);
    var there := path + [root.kids[1].index];
    LastRecord(TabsWalked(root, path).records, Compacted(TabsWalked(root, path), 2, 2), root.kids[1], there);
  }

  lemma TabsLeft(root: Node, path: Trail)
    requires TabsThenSibling(root)
    ensures var before := TabsWalked(root, path).records;
            && |before| >= 4 && before[3].index == 3 && |before[3].runtimeId| == |path| + 2
            && Compacted(TabsWalked(root, path), 2, 2).records == before[..2] + [before[3]]
  {
    TabsWalkedOneActive(root, path);
    OneActiveLeaves(TabsWalked(root, path), 2);
  }

  lemma LastRecord(before: seq<Record>, left: Rendering, after: Node, there: Trail)
    requires |before| >= 4 && before[3].index == 3 && |before[3].runtimeId| != |there|
    requires left.records == before[..2] + [before[3]]
    ensures var records := Emit(left, after, 1, there).records;
            && |records| == 4 && records[2].index == 3 && records[3].index == 3
            && records[2].runtimeId != records[3].runtimeId
            && Clash(records)
  {
    FourRecords(before, RecordOf(after, 3, there), Emit(left, after, 1, there).records);
  }

  lemma FourRecords(before: seq<Record>, last: Record, records: seq<Record>)
    requires |before| >= 4 && before[3].index == 3 && last.index == 3 && |before[3].runtimeId| != |last.runtimeId|
    requires records == before[..2] + [before[3]] + [last]
    ensures |records| == 4 && records[2].index == 3 && records[3].index == 3
    ensures records[2].runtimeId != records[3].runtimeId && Clash(records)
  {
    assert records[2] == before[3] && records[3] == last;
  }

  const FRAME := "frame"
  const PAGE_TAB := "page tab"
  const TITLE := "t"

  function Frame(index: nat, kids: seq<Node>): Node {
    Node(index, Info(FRAME, TITLE, "", "", [], false, false, false, false), kids)
  }

  /** An ordinary tab: its state says whether it is open, and its line does not. */
  function Tab(index: nat, open: bool): Node {
    Node(index, Info(PAGE_TAB, TITLE, "", "", [], open, false, true, false), [])
  }

  function Tabs(count: nat): seq<Node> {
    seq(count, i requires 0 <= i < count => Tab(i, i == 1))
  }

  /** A window with ten tabs in a strip, the second one open, and one more node after the strip. */
  function TabStrip(): Node {
    Frame(0, [Frame(0, Tabs(10)), Frame(1, [])])
  }

  lemma FrameIsShown(index: nat, kids: seq<Node>)
    ensures Group(Frame(index, kids))
  {
    assert |Lower(FRAME)| == 5;
  }

  lemma TabIsLeaf(index: nat, open: bool)
    ensures Leaf(Tab(index, open)) && IsOpen(Tab(index, open).info) == open
  {
    assert TITLE != "" && Strip("") == "";
  }

  lemma {:induction false} EachWellIndexed(nodes: seq<Node>)
    requires forall i | 0 <= i < |nodes| :: WellIndexed(nodes[i])
    ensures AllWellIndexed(nodes)
  {
    if nodes != [] {
      EachWellIndexed(nodes[1..]);
    }
  }

  lemma TabsArePlain(tabs: seq<Node>)
    requires tabs == Tabs(10)
    ensures |tabs| == 10 && SecondActive(tabs) && AllWellIndexed(tabs)
    ensures forall i | 0 <= i < 10 :: tabs[i].index == i
  {
    forall i: nat | i < 10
      ensures tabs[i] == Tab(i, i == 1) && Leaf(tabs[i]) && IsOpen(tabs[i].info) == (i == 1)
    {
      TabIsLeaf(i, i == 1);
    }
    EachWellIndexed(tabs);
  }

  lemma TabStripIsPlain()
    ensures TabsThenSibling(TabStrip())
  {
    var strip, after := Frame(0, Tabs(10)), Frame(1, []);
    TabsArePlain(strip.kids);
    FrameIsShown(0, [strip, after]);
    FrameIsShown(0, strip.kids);
    FrameIsShown(1, []);
    StripThenSibling(TabStrip(), strip, after);
  }

  lemma TabStripIsWellIndexed(tabs: seq<Node>)
    requires tabs == Tabs(10)
    ensures WellIndexed(TabStrip())
  {
    TabsArePlain(tabs);
    assert WellIndexed(Frame(0, tabs));
    PairWellIndexed(TabStrip(), Frame(0, tabs), Frame(1, []));
  }

  lemma StripThenSibling(root: Node, strip: Node, after: Node)
    requires Group(root) && Group(strip) && Group(after) && root.kids == [strip, after] && after.kids == []
    requires !strip.info.tabLine && !after.info.tabLine && |strip.kids| == 10 && SecondActive(strip.kids)
    ensures TabsThenSibling(root)
  {
  }

  lemma PairWellIndexed(root: Node, first: Node, second: Node)
    requires root.kids == [first, second] && first.index < second.index
    requires WellIndexed(first) && WellIndexed(second)
    ensures WellIndexed(root)
  {
    EachWellIndexed([first, second]);
  }

  /** Numbers do clash: a concrete tree on which two records of the rendering share number 3. */
  lemma NumbersCanClash(path: Trail)
    ensures WellIndexed(TabStrip()) && Clash(Walked(TabStrip(), 0, path, true, EMPTY).records)
  {
    TabStripIsPlain();
    TabStripIsWellIndexed(Tabs(10));
    SiblingTakesActiveNumber(TabStrip(), path);
  }
}
