/** Depth-first search with an explicit stack, children pushed in reverse.

Nodes are identities of an arbitrary graph, which may be cyclic. `Preorder` is the recursive listing of
everything within a depth. On a tree the search is a preorder search cut after `maxNodes` nodes; on any
graph it calls the predicate at most `maxNodes` times, and never twice on a node.
 */
module DescendantSearch {
  import opened CliText

  type Graph = nat -> seq<nat>

  /** `node` and what is below it, down to `depth` more levels. */
  function Preorder(graph: Graph, node: nat, depth: nat): seq<nat>
    decreases depth, 0, 0
  {
    [node] + if depth == 0 then [] else PreorderAll(graph, graph(node), depth - 1)
  }

  function PreorderAll(graph: Graph, nodes: seq<nat>, depth: nat): seq<nat>
    decreases depth, 1, |nodes|
  {
    if nodes == [] then [] else Preorder(graph, nodes[0], depth) + PreorderAll(graph, nodes[1..], depth)
  }

  /** The unfolding within the depth meets no node twice. */
  ghost predicate IsTree(graph: Graph, root: nat, depth: nat) {
    Distinct(Preorder(graph, root, depth))
  }

  function FirstHit(wanted: nat -> bool, nodes: seq<nat>): Option<nat> {
    if nodes == [] then None
    else if wanted(nodes[0]) then Some(nodes[0])
    else FirstHit(wanted, nodes[1..])
  }

  // ----- the stack -----

  type Stack = seq<(nat, nat)>

  ghost predicate DepthsFit(stack: Stack, maxDepth: nat) {
    forall item | item in stack :: item.1 <= maxDepth
  }

  /** What is still to be listed, from the top of the stack down. */
  ghost function Agenda(graph: Graph, stack: Stack, maxDepth: nat): seq<nat>
    requires DepthsFit(stack, maxDepth)
  {
    if stack == [] then []
    else
      var (node, depth) := stack[|stack| - 1];
      Preorder(graph, node, maxDepth - depth) + Agenda(graph, stack[..|stack| - 1], maxDepth)
  }

  lemma PushOne(graph: Graph, stack: Stack, node: nat, depth: nat, maxDepth: nat)
    requires DepthsFit(stack, maxDepth) && depth <= maxDepth
    ensures DepthsFit(stack + [(node, depth)], maxDepth)
    ensures Agenda(graph, stack + [(node, depth)], maxDepth)
         == Preorder(graph, node, maxDepth - depth) + Agenda(graph, stack, maxDepth)
  {
    assert (stack + [(node, depth)])[..|stack|] == stack;
  }

  lemma PushAgenda(graph: Graph, stack: Stack, nodes: seq<nat>, depth: nat, maxDepth: nat, rest: seq<nat>)
    requires DepthsFit(stack, maxDepth) && depth <= maxDepth && nodes != []
    requires Agenda(graph, stack, maxDepth) == PreorderAll(graph, nodes[1..], maxDepth - depth) + rest
    ensures var pushed := stack + [(nodes[0], depth)];
            && DepthsFit(pushed, maxDepth)
            && Agenda(graph, pushed, maxDepth) == PreorderAll(graph, nodes, maxDepth - depth) + rest
  {
    PushOne(graph, stack, nodes[0], depth, maxDepth);
    Regroup(Preorder(graph, nodes[0], maxDepth - depth), PreorderAll(graph, nodes[1..], maxDepth - depth), rest);
  }

  /** `n` is somewhere on the stack. */
  ghost predicate Waits(stack: Stack, n: nat) {
    exists i | 0 <= i < |stack| :: stack[i].0 == n
  }

  /** `r` is the stack with the nodes added at that depth. */
  ghost predicate Pushed(stack: Stack, nodes: seq<nat>, depth: nat, r: Stack) {
    && (forall item | item in r :: item in stack || (item.0 in nodes && item.1 == depth))
    && (forall n :: Waits(stack, n) || n in nodes ==> Waits(r, n))
  }

  lemma PushedOne(stack: Stack, nodes: seq<nat>, depth: nat, r: Stack)
    requires nodes != [] && Pushed(stack, nodes[1..], depth, r)
    ensures Pushed(stack, nodes, depth, r + [(nodes[0], depth)])
  {
    var r' := r + [(nodes[0], depth)];
    forall n | Waits(stack, n) || n in nodes ensures Waits(r', n) {
      if n == nodes[0] {
        assert r'[|r|].0 == n;
      } else {
        assert n in nodes ==> n in nodes[1..];
        var i :| 0 <= i < |r| && r[i].0 == n;
        assert r'[i].0 == n;
      }
    }
  }

  method PushReversed(graph: Graph, stack: Stack, nodes: seq<nat>, depth: nat, ghost maxDepth: nat) returns (r: Stack)
    requires DepthsFit(stack, maxDepth) && depth <= maxDepth
    ensures DepthsFit(r, maxDepth)
    ensures Agenda(graph, r, maxDepth) == PreorderAll(graph, nodes, maxDepth - depth) + Agenda(graph, stack, maxDepth)
    ensures Pushed(stack, nodes, depth, r)
  {
    r := stack;
    ghost var rest := Agenda(graph, stack, maxDepth);
    var i := |nodes|;
    assert PreorderAll(graph, nodes[i..], maxDepth - depth) + rest == rest;
    while i > 0
      invariant 0 <= i <= |nodes|
      invariant DepthsFit(r, maxDepth)
      invariant Agenda(graph, r, maxDepth) == PreorderAll(graph, nodes[i..], maxDepth - depth) + rest
      invariant Pushed(stack, nodes[i..], depth, r)
    {
      i := i - 1;
      assert nodes[i..][1..] == nodes[i + 1..];
      PushAgenda(graph, r, nodes[i..], depth, maxDepth, rest);
      PushedOne(stack, nodes[i..], depth, r);
      r := r + [(nodes[i], depth)];
    }
    assert nodes[0..] == nodes;
  }

  /** What the search has done and has still to do: `calls` lists the nodes the predicate was asked about,
      in order, and `agenda` what the stack stands for. */
  ghost predicate Searching(wanted: nat -> bool, all: seq<nat>, calls: seq<nat>, agenda: seq<nat>) {
    && Distinct(calls)
    && (forall node | node in calls + agenda :: node in all)
    && FirstHit(wanted, calls).None?
    && (Distinct(all) ==> calls + agenda == all)
  }

  ghost predicate Distinct(nodes: seq<nat>) {
    forall i, j | 0 <= i < j < |nodes| :: nodes[i] != nodes[j]
  }

  /** A node met again is dropped; that does not happen on a tree. */
  lemma SkipSeen(wanted: nat -> bool, all: seq<nat>, calls: seq<nat>, node: nat, below: seq<nat>, rest: seq<nat>)
    requires Searching(wanted, all, calls, [node] + (below + rest)) && node in calls
    ensures Searching(wanted, all, calls, rest)
  {
    var i :| 0 <= i < |calls| && calls[i] == node;
    var whole := calls + ([node] + (below + rest));
    assert whole[i] == whole[|calls|];
  }

  lemma VisitNew(wanted: nat -> bool, all: seq<nat>, calls: seq<nat>, node: nat, agenda: seq<nat>)
    requires Searching(wanted, all, calls, [node] + agenda) && node !in calls
    ensures Distinct(calls + [node]) && forall n | n in calls + [node] :: n in all
    ensures FirstHit(wanted, calls + [node]) == if wanted(node) then Some(node) else None
    ensures Distinct(all) ==> (calls + [node]) + agenda == all
    ensures !wanted(node) ==> Searching(wanted, all, calls + [node], agenda)
  {
    FirstHitSnoc(wanted, calls, node);
    assert calls + ([node] + agenda) == (calls + [node]) + agenda;
  }

  lemma {:induction false} FirstHitSnoc(wanted: nat -> bool, nodes: seq<nat>, node: nat)
    requires FirstHit(wanted, nodes).None?
    ensures FirstHit(wanted, nodes + [node]) == if wanted(node) then Some(node) else None
  {
    if nodes == [] {
      assert nodes + [node] == [node] && [node][1..] == [];
    } else {
      assert (nodes + [node])[1..] == nodes[1..] + [node];
      FirstHitSnoc(wanted, nodes[1..], node);
    }
  }

  lemma {:induction false} FirstHitPrefix(wanted: nat -> bool, nodes: seq<nat>, rest: seq<nat>)
    ensures FirstHit(wanted, nodes).Some? ==> FirstHit(wanted, nodes + rest) == FirstHit(wanted, nodes)
  {
    if nodes != [] {
      assert (nodes + rest)[1..] == nodes[1..] + rest;
      FirstHitPrefix(wanted, nodes[1..], rest);
    }
  }

  ghost function Below(graph: Graph, node: nat, depth: nat, maxDepth: nat): seq<nat> {
    if depth >= maxDepth then [] else PreorderAll(graph, graph(node), maxDepth - depth - 1)
  }

  /** Popping the top: its node comes first on the agenda, then what is below it. */
  lemma PopAgenda(graph: Graph, stack: Stack, maxDepth: nat)
    requires stack != [] && DepthsFit(stack, maxDepth)
    ensures var (node, depth) := stack[|stack| - 1];
            var rest := stack[..|stack| - 1];
            && DepthsFit(rest, maxDepth) && depth <= maxDepth
            && Agenda(graph, stack, maxDepth)
               == [node] + (Below(graph, node, depth, maxDepth) + Agenda(graph, rest, maxDepth))
  {
    assert stack[|stack| - 1] in stack;
  }

  lemma CallsOnTree(wanted: nat -> bool, all: seq<nat>, calls: seq<nat>, rest: seq<nat>, maxNodes: nat, r: Option<nat>)
    requires calls + rest == all && |calls| <= maxNodes
    requires r == FirstHit(wanted, calls)
    requires r.Some? || rest == [] || |calls| == maxNodes
    ensures r == FirstHit(wanted, UpTo(all, maxNodes))
  {
    var kept := UpTo(all, maxNodes);
    assert kept == calls + kept[|calls|..];
    FirstHitPrefix(wanted, calls, kept[|calls|..]);
    if r.None? {
      assert kept == calls;
    }
  }

  /** The first hit is accepted, and without one nothing is. */
  lemma {:induction false} FirstHitIsHit(wanted: nat -> bool, nodes: seq<nat>)
    ensures match FirstHit(wanted, nodes)
            case None => forall node | node in nodes :: !wanted(node)
            case Some(node) => node in nodes && wanted(node)
  {
    if nodes != [] {
      FirstHitIsHit(wanted, nodes[1..]);
    }
  }

  /** A node returned is accepted and one of `all`; without one, no node asked about was accepted. */
  ghost predicate Answers(wanted: nat -> bool, calls: seq<nat>, all: seq<nat>, r: Option<nat>) {
    match r
    case None => forall node | node in calls :: !wanted(node)
    case Some(node) => node in all && wanted(node)
  }

  lemma HitAnswers(wanted: nat -> bool, calls: seq<nat>, all: seq<nat>, r: Option<nat>)
    requires r == FirstHit(wanted, calls) && forall node | node in calls :: node in all
    ensures Answers(wanted, calls, all, r)
  {
    FirstHitIsHit(wanted, calls);
  }

  // ----- what the search misses -----

  /** A node met at that depth: the root, or a child of a node met one step above. */
  ghost predicate MetAt(graph: Graph, root: nat, calls: seq<nat>, met: seq<nat>, node: nat, depth: nat)
    requires |met| == |calls|
  {
    (node == root && depth == 0) || exists i | 0 <= i < |calls| :: node in graph(calls[i]) && depth == met[i] + 1
  }

  /** `met` tells at which depth each node asked about was met. */
  ghost predicate Traced(graph: Graph, root: nat, calls: seq<nat>, met: seq<nat>) {
    && |met| == |calls|
    && forall k | 0 <= k < |calls| :: MetAt(graph, root, calls[..k], met[..k], calls[k], met[k])
  }

  /** The children of every node asked about above the depth limit have been asked about or wait. */
  ghost predicate Followed(graph: Graph, maxDepth: nat, calls: seq<nat>, met: seq<nat>, stack: Stack)
    requires |met| == |calls|
  {
    forall k, kid | 0 <= k < |calls| && met[k] < maxDepth && kid in graph(calls[k]) ::
      kid in calls || Waits(stack, kid)
  }

  ghost predicate Tracking(graph: Graph, root: nat, maxDepth: nat, calls: seq<nat>, met: seq<nat>, stack: Stack) {
    && Traced(graph, root, calls, met)
    && (forall item | item in stack :: MetAt(graph, root, calls, met, item.0, item.1))
    && (root in calls || Waits(stack, root))
    && Followed(graph, maxDepth, calls, met, stack)
  }

  lemma TrackingStarts(graph: Graph, root: nat, maxDepth: nat, stack: Stack)
    requires stack == [(root, 0)]
    ensures Tracking(graph, root, maxDepth, [], [], stack)
  {
    assert stack[0].0 == root;
  }

  lemma WaitsBelow(stack: Stack, n: nat)
    requires stack != [] && Waits(stack, n) && n != stack[|stack| - 1].0
    ensures Waits(stack[..|stack| - 1], n)
  {
    var i :| 0 <= i < |stack| && stack[i].0 == n;
    assert stack[..|stack| - 1][i].0 == n;
  }

  lemma TrackSeen(graph: Graph, root: nat, maxDepth: nat, calls: seq<nat>, met: seq<nat>, stack: Stack)
    requires Tracking(graph, root, maxDepth, calls, met, stack)
    requires stack != [] && stack[|stack| - 1].0 in calls
    ensures Tracking(graph, root, maxDepth, calls, met, stack[..|stack| - 1])
  {
    var rest := stack[..|stack| - 1];
    forall n | Waits(stack, n) ensures n in calls || Waits(rest, n) {
      if n != stack[|stack| - 1].0 {
        WaitsBelow(stack, n);
      }
    }
  }

  lemma MetStays(graph: Graph, root: nat, calls: seq<nat>, met: seq<nat>, node: nat, depth: nat, c: nat, m: nat)
    requires |met| == |calls| && MetAt(graph, root, calls, met, node, depth)
    ensures MetAt(graph, root, calls + [c], met + [m], node, depth)
  {
    if i :| 0 <= i < |calls| && node in graph(calls[i]) && depth == met[i] + 1 {
      assert (calls + [c])[i] == calls[i] && (met + [m])[i] == met[i];
    }
  }

  lemma TracedSnoc(graph: Graph, root: nat, calls: seq<nat>, met: seq<nat>, node: nat, depth: nat)
    requires Traced(graph, root, calls, met) && MetAt(graph, root, calls, met, node, depth)
    ensures Traced(graph, root, calls + [node], met + [depth])
  {
    var calls', met' := calls + [node], met + [depth];
    forall k | 0 <= k < |calls'| ensures MetAt(graph, root, calls'[..k], met'[..k], calls'[k], met'[k]) {
      if k < |calls| {
        assert calls'[..k] == calls[..k] && met'[..k] == met[..k];
      } else {
        assert calls'[..k] == calls && met'[..k] == met;
      }
    }
  }

  /** A new node is asked about, and either it is at the depth limit or its children are pushed. */
  lemma TrackNew(graph: Graph, root: nat, maxDepth: nat, calls: seq<nat>, met: seq<nat>, stack: Stack, after: Stack)
    requires Tracking(graph, root, maxDepth, calls, met, stack) && stack != []
    requires var (node, depth) := stack[|stack| - 1];
             var rest := stack[..|stack| - 1];
             if depth >= maxDepth then after == rest else Pushed(rest, graph(node), depth + 1, after)
    ensures var (node, depth) := stack[|stack| - 1];
            Tracking(graph, root, maxDepth, calls + [node], met + [depth], after)
  {
    var (node, depth) := stack[|stack| - 1];
    var rest := stack[..|stack| - 1];
    var calls', met' := calls + [node], met + [depth];
    assert stack[|stack| - 1] in stack;
    TracedSnoc(graph, root, calls, met, node, depth);
    forall item | item in after ensures MetAt(graph, root, calls', met', item.0, item.1) {
      if item in rest {
        MetStays(graph, root, calls, met, item.0, item.1, node, depth);
      } else {
        assert calls'[|calls|] == node && met'[|calls|] == depth;
      }
    }
    forall n | Waits(stack, n) ensures n in calls' || Waits(after, n) {
      if n != node {
        WaitsBelow(stack, n);
      }
    }
    forall k, kid | 0 <= k < |calls'| && met'[k] < maxDepth && kid in graph(calls'[k])
      ensures kid in calls' || Waits(after, kid)
    {
      if k < |calls| {
        assert kid in calls || Waits(stack, kid);
      }
    }
  }

  ghost predicate AllIn(nodes: seq<nat>, calls: seq<nat>) {
    forall n | n in nodes :: n in calls
  }

  /** The children of nodes met at the depth limit, as far as they are within the depth, have been asked
      about, by way of some other node. */
  ghost predicate LimitIsHarmless(graph: Graph, maxDepth: nat, calls: seq<nat>, met: seq<nat>, all: seq<nat>)
    requires |met| == |calls|
  {
    forall k, kid | 0 <= k < |calls| && met[k] >= maxDepth && kid in graph(calls[k]) && kid in all :: kid in calls
  }

  lemma KidAsked(graph: Graph, maxDepth: nat, calls: seq<nat>, met: seq<nat>, all: seq<nat>, node: nat, kid: nat)
    requires |met| == |calls| && Followed(graph, maxDepth, calls, met, [])
    requires LimitIsHarmless(graph, maxDepth, calls, met, all)
    requires node in calls && kid in graph(node) && kid in all
    ensures kid in calls
  {
    var k :| 0 <= k < |calls| && calls[k] == node;
    assert met[k] < maxDepth ==> kid in calls || Waits([], kid);
  }

  lemma AllInTail(first: nat, rest: seq<nat>, all: seq<nat>)
    requires AllIn([first] + rest, all)
    ensures AllIn(rest, all)
  {
    assert forall n | n in rest :: n in [first] + rest;
  }

  lemma {:induction false} BelowAsked(graph: Graph, maxDepth: nat, calls: seq<nat>, met: seq<nat>, all: seq<nat>,
                                      node: nat, depth: nat)
    requires |met| == |calls| && Followed(graph, maxDepth, calls, met, [])
    requires LimitIsHarmless(graph, maxDepth, calls, met, all)
    requires node in calls && AllIn(Preorder(graph, node, depth), all)
    ensures AllIn(Preorder(graph, node, depth), calls)
    decreases depth, 0, 0
  {
    if depth > 0 {
      forall kid | kid in graph(node) && kid in all ensures kid in calls {
        KidAsked(graph, maxDepth, calls, met, all, node, kid);
      }
      AllInTail(node, PreorderAll(graph, graph(node), depth - 1), all);
      KidsAsked(graph, maxDepth, calls, met, all, graph(node), depth - 1);
    }
  }

  lemma {:induction false} KidsAsked(graph: Graph, maxDepth: nat, calls: seq<nat>, met: seq<nat>, all: seq<nat>,
                                     nodes: seq<nat>, depth: nat)
    requires |met| == |calls| && Followed(graph, maxDepth, calls, met, [])
    requires LimitIsHarmless(graph, maxDepth, calls, met, all)
    requires forall kid | kid in nodes && kid in all :: kid in calls
    requires AllIn(PreorderAll(graph, nodes, depth), all)
    ensures AllIn(PreorderAll(graph, nodes, depth), calls)
    decreases depth, 1, |nodes|
  {
    if nodes != [] {
      assert nodes[0] == Preorder(graph, nodes[0], depth)[0];
      assert nodes[0] in PreorderAll(graph, nodes, depth);
      BelowAsked(graph, maxDepth, calls, met, all, nodes[0], depth);
      KidsAsked(graph, maxDepth, calls, met, all, nodes[1..], depth);
    }
  }

  /** A search that has run dry has asked about everything within the depth exactly when the depth limit cut
      nothing off that was not asked about otherwise. */
  lemma DryExactly(graph: Graph, root: nat, maxDepth: nat, calls: seq<nat>, met: seq<nat>)
    requires Tracking(graph, root, maxDepth, calls, met, [])
    ensures var all := Preorder(graph, root, maxDepth);
            AllIn(all, calls) <==> LimitIsHarmless(graph, maxDepth, calls, met, all)
  {
    if LimitIsHarmless(graph, maxDepth, calls, met, Preorder(graph, root, maxDepth)) {
      BelowAsked(graph, maxDepth, calls, met, Preorder(graph, root, maxDepth), root, maxDepth);
    }
  }

  lemma {:induction false} MetSoon(graph: Graph, root: nat, calls: seq<nat>, met: seq<nat>, k: nat)
    requires Traced(graph, root, calls, met) && k < |calls|
    ensures met[k] <= k
    decreases k
  {
    assert MetAt(graph, root, calls[..k], met[..k], calls[k], met[k]);
    if i :| 0 <= i < |calls[..k]| && calls[k] in graph(calls[..k][i]) && met[k] == met[..k][i] + 1 {
      MetSoon(graph, root, calls, met, i);
    }
  }

  /** When it has asked about no more nodes than the depth, it has asked about every node there is to reach. */
  lemma FewAreAll(graph: Graph, root: nat, maxDepth: nat, calls: seq<nat>, met: seq<nat>, depth: nat)
    requires Tracking(graph, root, maxDepth, calls, met, []) && |calls| <= maxDepth
    ensures AllIn(Preorder(graph, root, depth), calls)
  {
    forall k | 0 <= k < |calls| ensures met[k] < maxDepth {
      MetSoon(graph, root, calls, met, k);
    }
    BelowAsked(graph, maxDepth, calls, met, Preorder(graph, root, depth), root, depth);
  }

  /** No node that can be reached is accepted. */
  ghost predicate NoneReachable(graph: Graph, wanted: nat -> bool, root: nat) {
    forall depth: nat, node | node in Preorder(graph, root, depth) :: !wanted(node)
  }

  /** What an answer of `None` means when the cap was not reached: the root and the children of every node met
      above the depth limit were asked about. It rules out everything within the depth, exactly when the depth
      limit was harmless; and every node that can be reached at all, if no more nodes were asked about than the
      depth. */
  ghost predicate RulesOut(graph: Graph, wanted: nat -> bool, root: nat, maxDepth: nat, calls: seq<nat>,
                           met: seq<nat>)
    requires |met| == |calls|
  {
    var all := Preorder(graph, root, maxDepth);
    && root in calls && Followed(graph, maxDepth, calls, met, [])
    && (AllIn(all, calls) <==> LimitIsHarmless(graph, maxDepth, calls, met, all))
    && (AllIn(all, calls) ==> forall node | node in all :: !wanted(node))
    && (|calls| <= maxDepth ==> NoneReachable(graph, wanted, root))
  }

  lemma DryRulesOut(graph: Graph, wanted: nat -> bool, root: nat, maxDepth: nat, calls: seq<nat>, met: seq<nat>)
    requires Tracking(graph, root, maxDepth, calls, met, []) && forall node | node in calls :: !wanted(node)
    ensures RulesOut(graph, wanted, root, maxDepth, calls, met)
  {
    DryExactly(graph, root, maxDepth, calls, met);
    if |calls| <= maxDepth {
      forall depth: nat, node | node in Preorder(graph, root, depth) ensures !wanted(node) {
        FewAreAll(graph, root, maxDepth, calls, met, depth);
      }
    }
  }

  // ----- the search -----

  /** Between two rounds, when nothing has been accepted yet. */
  ghost predicate Underway(graph: Graph, wanted: nat -> bool, root: nat, maxDepth: nat, calls: seq<nat>,
                           met: seq<nat>, stack: Stack)
  {
    && DepthsFit(stack, maxDepth)
    && Searching(wanted, Preorder(graph, root, maxDepth), calls, Agenda(graph, stack, maxDepth))
    && Tracking(graph, root, maxDepth, calls, met, stack)
  }

  lemma Starts(graph: Graph, wanted: nat -> bool, root: nat, maxDepth: nat, stack: Stack)
    requires stack == [(root, 0)]
    ensures Underway(graph, wanted, root, maxDepth, [], [], stack)
  {
    TrackingStarts(graph, root, maxDepth, stack);
    var all := Preorder(graph, root, maxDepth);
    assert Agenda(graph, stack, maxDepth) == all + Agenda(graph, [], maxDepth) == all;
    assert [] + all == all;
  }

  lemma SkipsSeen(graph: Graph, wanted: nat -> bool, root: nat, maxDepth: nat, calls: seq<nat>, met: seq<nat>,
                  rest: Stack, node: nat, depth: nat)
    requires Underway(graph, wanted, root, maxDepth, calls, met, rest + [(node, depth)]) && node in calls
    ensures Underway(graph, wanted, root, maxDepth, calls, met, rest)
  {
    var stack := rest + [(node, depth)];
    assert stack[..|stack| - 1] == rest;
    PopAgenda(graph, stack, maxDepth);
    SkipSeen(wanted, Preorder(graph, root, maxDepth), calls, node, Below(graph, node, depth, maxDepth),
             Agenda(graph, rest, maxDepth));
    TrackSeen(graph, root, maxDepth, calls, met, stack);
  }

  /** `after` is the rest of the stack and, above the limit, the children of the node popped. */
  ghost predicate Expanded(graph: Graph, maxDepth: nat, rest: Stack, node: nat, depth: nat, after: Stack)
    requires DepthsFit(rest, maxDepth)
  {
    if depth >= maxDepth then after == rest
    else
      && Pushed(rest, graph(node), depth + 1, after) && DepthsFit(after, maxDepth)
      && Agenda(graph, after, maxDepth)
         == PreorderAll(graph, graph(node), maxDepth - (depth + 1)) + Agenda(graph, rest, maxDepth)
  }

  lemma AsksNew(graph: Graph, wanted: nat -> bool, root: nat, maxDepth: nat, calls: seq<nat>, met: seq<nat>,
                rest: Stack, node: nat, depth: nat, after: Stack)
    requires Underway(graph, wanted, root, maxDepth, calls, met, rest + [(node, depth)])
    requires node !in calls && !wanted(node)
    requires DepthsFit(rest, maxDepth) && Expanded(graph, maxDepth, rest, node, depth, after)
    ensures Underway(graph, wanted, root, maxDepth, calls + [node], met + [depth], after)
  {
    var stack := rest + [(node, depth)];
    assert stack[..|stack| - 1] == rest;
    var below, agenda := Below(graph, node, depth, maxDepth), Agenda(graph, rest, maxDepth);
    PopAgenda(graph, stack, maxDepth);
    VisitNew(wanted, Preorder(graph, root, maxDepth), calls, node, below + agenda);
    assert below == [] ==> below + agenda == agenda;
    TrackNew(graph, root, maxDepth, calls, met, stack, after);
  }

  /** The predicate was asked at most `maxNodes` times, never twice about a node, and only about nodes within
      the depth; the answer is the first of those that it accepts, and without an answer it accepted none of
      them. On a tree that is the first accepted node among the first `maxNodes` of the recursive preorder. On
      any graph `RulesOut` says what an answer of `None` below the cap means. */
  ghost predicate Finished(graph: Graph, wanted: nat -> bool, root: nat, maxNodes: nat, maxDepth: nat,
                           r: Option<nat>, calls: seq<nat>, met: seq<nat>)
  {
    var all := Preorder(graph, root, maxDepth);
    && |calls| <= maxNodes && Distinct(calls) && AllIn(calls, all)
    && r == FirstHit(wanted, calls) && Answers(wanted, calls, all, r)
    && (IsTree(graph, root, maxDepth) ==> r == FirstHit(wanted, UpTo(all, maxNodes)))
    && Traced(graph, root, calls, met)
    && (r.None? && |calls| < maxNodes ==> RulesOut(graph, wanted, root, maxDepth, calls, met))
  }

  lemma FindsNew(graph: Graph, wanted: nat -> bool, root: nat, maxNodes: nat, maxDepth: nat, calls: seq<nat>,
                 met: seq<nat>, rest: Stack, node: nat, depth: nat)
    requires Underway(graph, wanted, root, maxDepth, calls, met, rest + [(node, depth)]) && |calls| < maxNodes
    requires node !in calls && wanted(node)
    ensures Finished(graph, wanted, root, maxNodes, maxDepth, Some(node), calls + [node], met + [depth])
    ensures FinalIfEnclosed(graph, wanted, root, maxNodes, maxDepth, Some(node))
  {
    var stack := rest + [(node, depth)];
    assert stack[..|stack| - 1] == rest && stack[|stack| - 1] in stack;
    var all := Preorder(graph, root, maxDepth);
    PopAgenda(graph, stack, maxDepth);
    var agenda := Below(graph, node, depth, maxDepth) + Agenda(graph, rest, maxDepth);
    VisitNew(wanted, all, calls, node, agenda);
    TracedSnoc(graph, root, calls, met, node, depth);
    HitAnswers(wanted, calls + [node], all, Some(node));
    if Distinct(all) {
      CallsOnTree(wanted, all, calls + [node], agenda, maxNodes, Some(node));
    }
    AllEnclosedAreFinal(graph, wanted, root, maxNodes, maxDepth, Some(node), calls + [node], met + [depth]);
  }

  lemma FindsNothing(graph: Graph, wanted: nat -> bool, root: nat, maxNodes: nat, maxDepth: nat, calls: seq<nat>,
                     met: seq<nat>, stack: Stack)
    requires Underway(graph, wanted, root, maxDepth, calls, met, stack)
    requires |calls| <= maxNodes && (stack == [] || |calls| == maxNodes)
    ensures Finished(graph, wanted, root, maxNodes, maxDepth, None, calls, met)
    ensures FinalIfEnclosed(graph, wanted, root, maxNodes, maxDepth, None)
  {
    var all := Preorder(graph, root, maxDepth);
    assert forall node | node in calls :: node in calls + Agenda(graph, stack, maxDepth);
    HitAnswers(wanted, calls, all, None);
    if |calls| < maxNodes {
      DryRulesOut(graph, wanted, root, maxDepth, calls, met);
    }
    if Distinct(all) {
      CallsOnTree(wanted, all, calls, Agenda(graph, stack, maxDepth), maxNodes, None);
    }
    AllEnclosedAreFinal(graph, wanted, root, maxNodes, maxDepth, None, calls, met);
  }

  // ----- when the answer is final -----

  /** The root is in the set, and so are the children of its members. */
  ghost predicate Encloses(graph: Graph, root: nat, s: set<nat>) {
    root in s && forall n, kid | n in s && kid in graph(n) :: kid in s
  }

  lemma {:induction false} EnclosesBelow(graph: Graph, root: nat, s: set<nat>, node: nat, depth: nat)
    requires Encloses(graph, root, s) && node in s
    ensures forall n | n in Preorder(graph, node, depth) :: n in s
    decreases depth, 0, 0
  {
    if depth > 0 {
      EnclosesKids(graph, root, s, graph(node), depth - 1);
    }
  }

  lemma {:induction false} EnclosesKids(graph: Graph, root: nat, s: set<nat>, nodes: seq<nat>, depth: nat)
    requires Encloses(graph, root, s) && forall kid | kid in nodes :: kid in s
    ensures forall n | n in PreorderAll(graph, nodes, depth) :: n in s
    decreases depth, 1, |nodes|
  {
    if nodes != [] {
      EnclosesBelow(graph, root, s, nodes[0], depth);
      EnclosesKids(graph, root, s, nodes[1..], depth);
    }
  }

  lemma {:induction false} FitsInSet<T>(calls: seq<T>, s: set<T>)
    requires forall i, j | 0 <= i < j < |calls| :: calls[i] != calls[j]
    requires forall x | x in calls :: x in s
    ensures |calls| <= |s|
    decreases |calls|
  {
    if calls != [] {
      var front, last := calls[..|calls| - 1], calls[|calls| - 1];
      FitsInSet(front, s - {last});
    }
  }

  /** If no more nodes can be reached than `maxDepth` and fewer than `maxNodes`, nothing accepted is missed. */
  lemma EnclosedIsFinal(graph: Graph, wanted: nat -> bool, root: nat, maxNodes: nat, maxDepth: nat, r: Option<nat>,
                        calls: seq<nat>, met: seq<nat>, s: set<nat>)
    requires Finished(graph, wanted, root, maxNodes, maxDepth, r, calls, met)
    requires Encloses(graph, root, s) && |s| <= maxDepth && |s| < maxNodes
    ensures r.None? <==> NoneReachable(graph, wanted, root)
  {
    EnclosesBelow(graph, root, s, root, maxDepth);
    FitsInSet(calls, s);
  }

  /** With such a set the answer tells whether anything accepted can be reached at all. */
  ghost predicate FinalIfEnclosed(graph: Graph, wanted: nat -> bool, root: nat, maxNodes: nat, maxDepth: nat,
                                  r: Option<nat>)
  {
    forall s | Encloses(graph, root, s) && |s| <= maxDepth && |s| < maxNodes ::
      r.None? <==> NoneReachable(graph, wanted, root)
  }

  lemma AllEnclosedAreFinal(graph: Graph, wanted: nat -> bool, root: nat, maxNodes: nat, maxDepth: nat,
                            r: Option<nat>, calls: seq<nat>, met: seq<nat>)
    requires Finished(graph, wanted, root, maxNodes, maxDepth, r, calls, met)
    ensures FinalIfEnclosed(graph, wanted, root, maxNodes, maxDepth, r)
  {
    forall s | Encloses(graph, root, s) && |s| <= maxDepth && |s| < maxNodes
      ensures r.None? <==> NoneReachable(graph, wanted, root)
    {
      EnclosedIsFinal(graph, wanted, root, maxNodes, maxDepth, r, calls, met, s);
    }
  }

  ghost predicate SameNodes(seen: set<nat>, calls: seq<nat>) {
    forall node :: node in seen <==> node in calls
  }

  lemma SameMember(seen: set<nat>, calls: seq<nat>, node: nat)
    requires SameNodes(seen, calls)
    ensures node in seen <==> node in calls
  {
  }

  lemma SameNext(seen: set<nat>, calls: seq<nat>, node: nat)
    requires SameNodes(seen, calls)
    ensures SameNodes(seen + {node}, calls + [node])
  {
  }

  lemma RestFits(graph: Graph, wanted: nat -> bool, root: nat, maxDepth: nat, calls: seq<nat>, met: seq<nat>,
                 rest: Stack, node: nat, depth: nat)
    requires Underway(graph, wanted, root, maxDepth, calls, met, rest + [(node, depth)])
    ensures DepthsFit(rest, maxDepth)
  {
    assert forall item | item in rest :: item in rest + [(node, depth)];
  }

  /** The search, with the nodes it asked about and the depths it met them at. The answer is final if some set
      with no more members than `maxDepth` and fewer than `maxNodes` holds all that can be reached. */
  method FirstDescendant(graph: Graph, wanted: nat -> bool, root: nat, maxNodes: nat, maxDepth: nat)
    returns (r: Option<nat>, ghost calls: seq<nat>, ghost met: seq<nat>)
    ensures Finished(graph, wanted, root, maxNodes, maxDepth, r, calls, met)
    ensures FinalIfEnclosed(graph, wanted, root, maxNodes, maxDepth, r)
  {
    var visitedCount := 0;
    var stack: Stack := [(root, 0)];
    var seen: set<nat> := {};
    calls, met := [], [];
    Starts(graph, wanted, root, maxDepth, stack);
    while |stack| > 0 && visitedCount < maxNodes
      invariant visitedCount == |calls| <= maxNodes
      invariant SameNodes(seen, calls)
      invariant Underway(graph, wanted, root, maxDepth, calls, met, stack)
      decreases maxNodes - visitedCount, |stack|
    {
      var (node, depth) := stack[|stack| - 1];
      assert stack == stack[..|stack| - 1] + [(node, depth)];
      stack := stack[..|stack| - 1];
      SameMember(seen, calls, node);
      if node in seen {
        SkipsSeen(graph, wanted, root, maxDepth, calls, met, stack, node, depth);
        continue;
      }
      SameNext(seen, calls, node);
      seen := seen + {node};
      visitedCount := visitedCount + 1;
      if wanted(node) {
        FindsNew(graph, wanted, root, maxNodes, maxDepth, calls, met, stack, node, depth);
        r, calls, met := Some(node), calls + [node], met + [depth];
        return;
      }
      ghost var rest := stack;
      RestFits(graph, wanted, root, maxDepth, calls, met, rest, node, depth);
      if depth < maxDepth {
        stack := PushReversed(graph, stack, graph(node), depth + 1, maxDepth);
      }
      AsksNew(graph, wanted, root, maxDepth, calls, met, rest, node, depth, stack);
      calls, met := calls + [node], met + [depth];
    }
    FindsNothing(graph, wanted, root, maxNodes, maxDepth, calls, met, stack);
    return None, calls, met;
  }
}
