/**
 Topological sorting of the gadget dependency graph.

 The program linearises its dependency graph with an iterative depth-first search that keeps an
 explicit fringe, a `seen` dictionary and an `explored` dictionary, and that gives up with a bare
 `return` when it meets a node that is seen but not yet explored.  Nothing below depends on the
 order in which nodes and successors are visited, so the results hold for every order that sorting
 by mnemonic can produce.
 */
module TopologicalSort {
  import opened Sequences
  import opened Wrappers

  type Node = nat

  /** A directed graph: its nodes in visiting order, and the successors of each, in visiting order. */
  datatype Digraph = Digraph(nodes: seq<Node>, succ: map<Node, seq<Node>>) {

    ghost predicate Valid() {
      && NoRepeats(nodes)
      && succ.Keys == Elements(nodes)
      && (forall v, n | v in succ && n in succ[v] :: n in succ)
    }

    predicate Edge(a: Node, b: Node) {
      a in succ && b in succ[a]
    }
  }

  function Elements(s: seq<Node>): set<Node> {
    set v | v in s
  }

  /** A walk: consecutive elements are joined by edges. */
  ghost predicate IsWalk(g: Digraph, p: seq<Node>) {
    forall i | 0 <= i < |p| - 1 :: g.Edge(p[i], p[i + 1])
  }

  ghost predicate HasCycle(g: Digraph) {
    exists p :: |p| >= 2 && IsWalk(g, p) && p[0] == p[|p| - 1]
  }

  /** Every node exactly once, and every edge pointing forwards. */
  ghost predicate IsTopologicalOrder(g: Digraph, order: seq<Node>) {
    && NoRepeats(order)
    && Elements(order) == Elements(g.nodes)
    && (forall i, j | 0 <= i < |order| && 0 <= j < |order| && g.Edge(order[i], order[j]) :: i < j)
  }

  // ---------------------------------------------------------------------------------------------
  // The invariant of the search
  // ---------------------------------------------------------------------------------------------

  /** The explored nodes in `order`: all successors of an explored node come later in the list. */
  ghost predicate ExploredInOrder(g: Digraph, order: seq<Node>) {
    && NoRepeats(order)
    && (forall v | v in order :: v in g.succ)
    && (forall i, n | 0 <= i < |order| && g.Edge(order[i], n) :: Above(order, i, n))
  }

  /** Successive positions of `path` are positions of the fringe, in increasing order. */
  ghost predicate PathInFringe(fringe: seq<Node>, path: seq<nat>) {
    && (forall i | 0 <= i < |path| :: path[i] < |fringe|)
    && (forall i, j | 0 <= i < j < |path| :: path[i] < path[j])
    && (|path| == 0 ==> |fringe| <= 1)
    && (|path| != 0 ==> path[0] == 0)
  }

  /** The last fringe position pushed on behalf of the i-th path node or still below the next one. */
  ghost function SegmentEnd(fringe: seq<Node>, path: seq<nat>, i: nat): int
    requires i < |path|
  {
    if i + 1 < |path| then path[i + 1] else |fringe| - 1
  }

  /** Fringe entries above a path node, up to the next path node, were pushed as its successors. */
  ghost predicate PushedBy(g: Digraph, fringe: seq<Node>, path: seq<nat>)
    requires PathInFringe(fringe, path)
  {
    forall i: nat, p: nat {:trigger SegmentEnd(fringe, path, i), fringe[p]} |
      i < |path| && p < |fringe| && path[i] < p <= SegmentEnd(fringe, path, i) ::
      g.Edge(fringe[path[i]], fringe[p])
  }

  /** A path node does not occur above its own position. */
  ghost predicate LastOccurrence(fringe: seq<Node>, path: seq<nat>)
    requires PathInFringe(fringe, path)
  {
    forall i, p | 0 <= i < |path| && path[i] < p < |fringe| :: fringe[p] != fringe[path[i]]
  }

  /** The unexplored successors of a path node lie above it. */
  ghost predicate SuccessorsAbove(g: Digraph, fringe: seq<Node>, path: seq<nat>, explored: set<Node>)
    requires PathInFringe(fringe, path)
  {
    forall i, n | 0 <= i < |path| && g.Edge(fringe[path[i]], n) && n !in explored :: Above(fringe, path[i], n)
  }

  ghost predicate Above(fringe: seq<Node>, at: nat, n: Node) {
    exists p :: at < p < |fringe| && fringe[p] == n
  }

  /** The nodes seen but not explored are exactly those on the path. */
  ghost predicate PathIsActive(fringe: seq<Node>, path: seq<nat>, seen: set<Node>, explored: set<Node>)
    requires PathInFringe(fringe, path)
  {
    && explored <= seen
    && (forall i | 0 <= i < |path| :: fringe[path[i]] in seen && fringe[path[i]] !in explored)
    && (forall v | v in seen && v !in explored :: exists i :: 0 <= i < |path| && fringe[path[i]] == v)
  }

  ghost predicate FringeInvariant(g: Digraph, fringe: seq<Node>, path: seq<nat>, explored: set<Node>) {
    && PathInFringe(fringe, path)
    && PushedBy(g, fringe, path)
    && LastOccurrence(fringe, path)
    && SuccessorsAbove(g, fringe, path, explored)
  }

  ghost predicate SearchInvariant(g: Digraph, order: seq<Node>, seen: set<Node>, explored: set<Node>,
      fringe: seq<Node>, path: seq<nat>)
  {
    && ExploredInOrder(g, order)
    && explored == Elements(order)
    && seen <= Elements(g.nodes)
    && (forall v | v in fringe :: v in g.succ)
    && FringeInvariant(g, fringe, path, explored)
    && PathIsActive(fringe, path, seen, explored)
  }

  // ---------------------------------------------------------------------------------------------
  // The three steps of the search keep the invariant
  // ---------------------------------------------------------------------------------------------

  /** An unexplored node on top is either new, or the end of the path with all successors explored. */
  lemma {:induction false} TopOfFringe(g: Digraph, order: seq<Node>, seen: set<Node>, explored: set<Node>,
      fringe: seq<Node>, path: seq<nat>)
    requires g.Valid() && SearchInvariant(g, order, seen, explored, fringe, path)
    requires fringe != [] && fringe[|fringe| - 1] !in explored
    ensures fringe[|fringe| - 1] in seen ==>
              && path != [] && path[|path| - 1] == |fringe| - 1
              && (forall n | g.Edge(fringe[|fringe| - 1], n) :: n in explored)
    ensures fringe[|fringe| - 1] !in seen && path != [] ==>
              path[|path| - 1] < |fringe| - 1 && g.Edge(fringe[path[|path| - 1]], fringe[|fringe| - 1])
  {
    if path != [] {
      assert SegmentEnd(fringe, path, |path| - 1) == |fringe| - 1;
    }
  }

  lemma {:induction false} PopExplored(g: Digraph, order: seq<Node>, seen: set<Node>, explored: set<Node>,
      fringe: seq<Node>, path: seq<nat>)
    requires g.Valid() && SearchInvariant(g, order, seen, explored, fringe, path)
    requires fringe != [] && fringe[|fringe| - 1] in explored
    ensures SearchInvariant(g, order, seen, explored, fringe[..|fringe| - 1], path)
  {
    PopFringe(g, fringe, path, explored);
    PopActive(fringe, path, seen, explored);
  }

  lemma {:induction false} PopActive(fringe: seq<Node>, path: seq<nat>, seen: set<Node>, explored: set<Node>)
    requires PathInFringe(fringe, path) && PathIsActive(fringe, path, seen, explored)
    requires fringe != [] && PathInFringe(fringe[..|fringe| - 1], path)
    ensures PathIsActive(fringe[..|fringe| - 1], path, seen, explored)
  {
    var rest := fringe[..|fringe| - 1];
    forall v | v in seen && v !in explored
      ensures exists i :: 0 <= i < |path| && rest[path[i]] == v
    {
      var i :| 0 <= i < |path| && fringe[path[i]] == v;
      assert rest[path[i]] == v;
    }
  }

  lemma {:induction false} PopFringe(g: Digraph, fringe: seq<Node>, path: seq<nat>, explored: set<Node>)
    requires FringeInvariant(g, fringe, path, explored)
    requires fringe != [] && fringe[|fringe| - 1] in explored && (forall i | 0 <= i < |path| :: path[i] < |fringe| - 1)
    ensures FringeInvariant(g, fringe[..|fringe| - 1], path, explored)
  {
    var rest := fringe[..|fringe| - 1];
    assert forall i: nat | i < |path| :: SegmentEnd(rest, path, i) <= SegmentEnd(fringe, path, i);
    forall i, n | 0 <= i < |path| && g.Edge(rest[path[i]], n) && n !in explored
      ensures Above(rest, path[i], n)
    {
      assert g.Edge(fringe[path[i]], n);
      var p :| path[i] < p < |fringe| && fringe[p] == n;
      assert rest[p] == n;
    }
  }

  /** Entering a new node and pushing its unexplored successors. */
  lemma {:induction false} Descend(g: Digraph, order: seq<Node>, seen: set<Node>, explored: set<Node>,
      fringe: seq<Node>, path: seq<nat>, newNodes: seq<Node>)
    requires g.Valid() && SearchInvariant(g, order, seen, explored, fringe, path)
    requires fringe != [] && fringe[|fringe| - 1] !in seen
    requires forall n | n in newNodes ::
               g.Edge(fringe[|fringe| - 1], n) && n !in explored && n !in seen && n != fringe[|fringe| - 1]
    requires forall n | g.Edge(fringe[|fringe| - 1], n) :: n in explored || n in newNodes
    ensures SearchInvariant(g, order, seen + {fringe[|fringe| - 1]}, explored, fringe + newNodes, path + [|fringe| - 1])
  {
    TopOfFringe(g, order, seen, explored, fringe, path);
    DescendPushed(g, fringe, path, newNodes);
    DescendAbove(g, fringe, path, newNodes, explored);
    DescendActive(fringe, path, newNodes, seen, explored);
  }

  lemma {:induction false} DescendPushed(g: Digraph, fringe: seq<Node>, path: seq<nat>, newNodes: seq<Node>)
    requires PathInFringe(fringe, path) && PushedBy(g, fringe, path)
    requires fringe != [] && (path != [] ==> path[|path| - 1] < |fringe| - 1)
    requires forall n | n in newNodes :: g.Edge(fringe[|fringe| - 1], n)
    ensures PathInFringe(fringe + newNodes, path + [|fringe| - 1])
    ensures PushedBy(g, fringe + newNodes, path + [|fringe| - 1])
  {
    var fringe', path' := fringe + newNodes, path + [|fringe| - 1];
    assert forall i: nat | i < |path| :: SegmentEnd(fringe', path', i) == SegmentEnd(fringe, path, i);
    forall i: nat, p: nat | i < |path'| && p < |fringe'| && path'[i] < p <= SegmentEnd(fringe', path', i)
      ensures g.Edge(fringe'[path'[i]], fringe'[p])
    {
      if i == |path| {
        assert fringe'[p] in newNodes;
      }
    }
  }

  lemma {:induction false} DescendAbove(g: Digraph, fringe: seq<Node>, path: seq<nat>, newNodes: seq<Node>,
      explored: set<Node>)
    requires PathInFringe(fringe, path) && SuccessorsAbove(g, fringe, path, explored)
    requires fringe != [] && PathInFringe(fringe + newNodes, path + [|fringe| - 1])
    requires forall n | g.Edge(fringe[|fringe| - 1], n) :: n in explored || n in newNodes
    ensures SuccessorsAbove(g, fringe + newNodes, path + [|fringe| - 1], explored)
  {
    var fringe', path' := fringe + newNodes, path + [|fringe| - 1];
    forall i, n | 0 <= i < |path'| && g.Edge(fringe'[path'[i]], n) && n !in explored
      ensures Above(fringe', path'[i], n)
    {
      if i == |path| {
        var k :| 0 <= k < |newNodes| && newNodes[k] == n;
        assert fringe'[|fringe| + k] == n;
      } else {
        assert fringe'[path'[i]] == fringe[path[i]];
        var p :| path[i] < p < |fringe| && fringe[p] == n;
        assert fringe'[p] == n;
      }
    }
  }

  lemma {:induction false} DescendActive(fringe: seq<Node>, path: seq<nat>, newNodes: seq<Node>, seen: set<Node>,
      explored: set<Node>)
    requires PathInFringe(fringe, path) && LastOccurrence(fringe, path) && PathIsActive(fringe, path, seen, explored)
    requires fringe != [] && fringe[|fringe| - 1] !in seen
    requires forall n | n in newNodes :: n !in seen && n != fringe[|fringe| - 1]
    requires PathInFringe(fringe + newNodes, path + [|fringe| - 1])
    ensures LastOccurrence(fringe + newNodes, path + [|fringe| - 1])
    ensures PathIsActive(fringe + newNodes, path + [|fringe| - 1], seen + {fringe[|fringe| - 1]}, explored)
  {
    var fringe', path' := fringe + newNodes, path + [|fringe| - 1];
    forall v | v in seen + {fringe[|fringe| - 1]} && v !in explored
      ensures exists i :: 0 <= i < |path'| && fringe'[path'[i]] == v
    {
      if v in seen {
        var i :| 0 <= i < |path| && fringe[path[i]] == v;
        assert fringe'[path'[i]] == v;
      } else {
        assert fringe'[path'[|path|]] == v;
      }
    }
    forall i, p | 0 <= i < |path'| && path'[i] < p < |fringe'|
      ensures fringe'[p] != fringe'[path'[i]]
    {
      if p >= |fringe| {
        assert fringe'[p] in newNodes;
      }
    }
  }

  /** Leaving a node all of whose successors are explored. */
  lemma {:induction false} Finish(g: Digraph, order: seq<Node>, seen: set<Node>, explored: set<Node>,
      fringe: seq<Node>, path: seq<nat>)
    requires g.Valid() && SearchInvariant(g, order, seen, explored, fringe, path)
    requires fringe != [] && path != [] && path[|path| - 1] == |fringe| - 1
    requires forall n | g.Edge(fringe[|fringe| - 1], n) :: n in explored
    ensures var w := fringe[|fringe| - 1];
            SearchInvariant(g, [w] + order, seen, explored + {w}, fringe[..|fringe| - 1], path[..|path| - 1])
  {
    var w := fringe[|fringe| - 1];
    var path' := path[..|path| - 1];
    forall n | g.Edge(w, n) ensures n in order {
      assert n in explored;
    }
    FinishOrder(g, order, w);
    LeavePath(g, fringe, path, explored, w);
    PopFringe(g, fringe, path', explored + {w});
    LeaveActive(fringe, path, seen, explored);
  }

  lemma {:induction false} LeavePath(g: Digraph, fringe: seq<Node>, path: seq<nat>, explored: set<Node>, w: Node)
    requires FringeInvariant(g, fringe, path, explored)
    requires path != [] && path[|path| - 1] == |fringe| - 1
    ensures FringeInvariant(g, fringe, path[..|path| - 1], explored + {w})
    ensures forall i | 0 <= i < |path| - 1 :: path[i] < |fringe| - 1
  {
    var path' := path[..|path| - 1];
    assert forall i: nat | i < |path'| :: SegmentEnd(fringe, path', i) == SegmentEnd(fringe, path, i);
  }

  lemma {:induction false} LeaveActive(fringe: seq<Node>, path: seq<nat>, seen: set<Node>, explored: set<Node>)
    requires PathInFringe(fringe, path) && PathIsActive(fringe, path, seen, explored) && LastOccurrence(fringe, path)
    requires path != [] && path[|path| - 1] == |fringe| - 1
    requires PathInFringe(fringe[..|fringe| - 1], path[..|path| - 1])
    ensures PathIsActive(fringe[..|fringe| - 1], path[..|path| - 1], seen, explored + {fringe[|fringe| - 1]})
  {
    var w, rest, path' := fringe[|fringe| - 1], fringe[..|fringe| - 1], path[..|path| - 1];
    forall v | v in seen && v !in explored + {w}
      ensures exists i :: 0 <= i < |path'| && rest[path'[i]] == v
    {
      var i :| 0 <= i < |path| && fringe[path[i]] == v;
      assert rest[path'[i]] == v;
    }
  }

  lemma {:induction false} FinishOrder(g: Digraph, order: seq<Node>, w: Node)
    requires g.Valid() && ExploredInOrder(g, order)
    requires w in g.succ && w !in order
    requires forall n | g.Edge(w, n) :: n in order
    ensures ExploredInOrder(g, [w] + order)
  {
    var order' := [w] + order;
    forall i, n | 0 <= i < |order'| && g.Edge(order'[i], n)
      ensures Above(order', i, n)
    {
      if i == 0 {
        var k :| 0 <= k < |order| && order[k] == n;
        assert order'[k + 1] == n;
      } else {
        assert order'[i] == order[i - 1];
        var k :| i - 1 < k < |order| && order[k] == n;
        assert order'[k + 1] == n;
      }
    }
  }

  // ---------------------------------------------------------------------------------------------
  // The search
  // ---------------------------------------------------------------------------------------------

  /** Meeting a node of the path again exposes a cycle of the graph. */
  lemma {:induction false} CycleThroughPath(g: Digraph, fringe: seq<Node>, path: seq<nat>, i: nat)
    requires PathInFringe(fringe, path) && PushedBy(g, fringe, path)
    requires i < |path| && g.Edge(fringe[path[|path| - 1]], fringe[path[i]])
    ensures HasCycle(g)
  {
    var up := seq(|path| - i, k requires 0 <= k < |path| - i => fringe[path[i + k]]);
    var p := up + [fringe[path[i]]];
    forall k | 0 <= k < |p| - 1
      ensures g.Edge(p[k], p[k + 1])
    {
      if k + 1 < |up| {
        assert SegmentEnd(fringe, path, i + k) == path[i + k + 1];
      }
    }
    assert IsWalk(g, p) && |p| >= 2 && p[0] == p[|p| - 1];
  }

  lemma {:induction false} CycleFound(g: Digraph, order: seq<Node>, seen: set<Node>, explored: set<Node>,
      fringe: seq<Node>, path: seq<nat>, n: Node)
    requires g.Valid() && SearchInvariant(g, order, seen, explored, fringe, path)
    requires fringe != [] && fringe[|fringe| - 1] !in explored
    requires g.Edge(fringe[|fringe| - 1], n) && n !in explored && n in seen + {fringe[|fringe| - 1]}
    ensures HasCycle(g)
  {
    TopOfFringe(g, order, seen, explored, fringe, path);
    assert fringe[|fringe| - 1] !in seen;
    var path' := path + [|fringe| - 1];
    assert fringe + [] == fringe;
    DescendPushed(g, fringe, path, []);
    DescendActive(fringe, path, [], seen, explored);
    var i :| 0 <= i < |path'| && fringe[path'[i]] == n;
    CycleThroughPath(g, fringe, path', i);
  }

  /** No walk against the order, hence no cycle. */
  lemma {:induction false} WalksFollowOrder(g: Digraph, order: seq<Node>, p: seq<Node>, i: nat, j: nat)
    requires IsTopologicalOrder(g, order) && g.Valid()
    requires |p| >= 2 && IsWalk(g, p) && i < |order| && j < |order|
    requires order[i] == p[0] && order[j] == p[|p| - 1]
    ensures i < j
  {
    assert g.Edge(p[0], p[1]);
    if |p| > 2 {
      assert p[1] in Elements(order);
      var k :| 0 <= k < |order| && order[k] == p[1];
      WalksFollowOrder(g, order, p[1..], k, j);
    }
  }

  lemma {:induction false} OrderedGraphIsAcyclic(g: Digraph, order: seq<Node>)
    requires g.Valid() && IsTopologicalOrder(g, order)
    ensures !HasCycle(g)
  {
    forall p | |p| >= 2 && IsWalk(g, p)
      ensures p[0] != p[|p| - 1]
    {
      assert g.Edge(p[0], p[1]);
      assert g.Edge(p[|p| - 2], p[|p| - 2 + 1]);
      assert p[0] in Elements(order) && p[|p| - 1] in Elements(order);
      var i :| 0 <= i < |order| && order[i] == p[0];
      var j :| 0 <= j < |order| && order[j] == p[|p| - 1];
      WalksFollowOrder(g, order, p, i, j);
    }
  }

  lemma {:induction false} ExploredAll(g: Digraph, order: seq<Node>)
    requires g.Valid() && ExploredInOrder(g, order)
    requires forall v | v in g.nodes :: v in order
    ensures IsTopologicalOrder(g, order)
  {
    forall i, j | 0 <= i < |order| && 0 <= j < |order| && g.Edge(order[i], order[j])
      ensures i < j
    {
      assert Above(order, i, order[j]);
    }
  }

  /** The successors of `w` that are still to be explored, or nothing when one of them is active. */
  method NewNodes(g: Digraph, w: Node, seen: set<Node>, explored: set<Node>) returns (r: Option<seq<Node>>)
    requires g.Valid() && w in g.succ
    ensures r.None? <==> exists n :: g.Edge(w, n) && n !in explored && n in seen
    ensures r.Some? ==> forall n :: n in r.value <==> g.Edge(w, n) && n !in explored
  {
    var successors := g.succ[w];
    var newNodes := [];
    for k := 0 to |successors|
      invariant forall n | n in successors[..k] && n !in explored :: n !in seen
      invariant forall n :: n in newNodes <==> n in successors[..k] && n !in explored
    {
      var n := successors[k];
      assert successors[..k + 1] == successors[..k] + [n];
      if n !in explored {
        if n in seen {
          assert g.Edge(w, n);
          return None;
        }
        newNodes := newNodes + [n];
      }
    }
    assert successors[..|successors|] == successors;
    return Some(newNodes);
  }

  /** One expansion of the top node: descend when it has unexplored successors, finish it otherwise. */
  lemma {:induction false} Expand(g: Digraph, order: seq<Node>, seen: set<Node>, explored: set<Node>,
      fringe: seq<Node>, path: seq<nat>, newNodes: seq<Node>)
    returns (path': seq<nat>)
    requires g.Valid() && SearchInvariant(g, order, seen, explored, fringe, path)
    requires fringe != [] && fringe[|fringe| - 1] !in explored
    requires forall n | n in newNodes :: n !in seen + {fringe[|fringe| - 1]}
    requires forall n :: n in newNodes <==> g.Edge(fringe[|fringe| - 1], n) && n !in explored
    ensures newNodes != [] ==>
              && fringe[|fringe| - 1] !in seen
              && SearchInvariant(g, order, seen + {fringe[|fringe| - 1]}, explored, fringe + newNodes, path')
    ensures newNodes == [] ==>
              SearchInvariant(g, [fringe[|fringe| - 1]] + order, seen + {fringe[|fringe| - 1]},
                              explored + {fringe[|fringe| - 1]}, fringe[..|fringe| - 1], path')
  {
    var w := fringe[|fringe| - 1];
    TopOfFringe(g, order, seen, explored, fringe, path);
    path' := path;
    if w !in seen {
      Descend(g, order, seen, explored, fringe, path, newNodes);
      path' := path + [|fringe| - 1];
    } else {
      assert seen + {w} == seen;
    }
    if newNodes == [] {
      assert fringe + newNodes == fringe;
      Finish(g, order, seen + {w}, explored, fringe, path');
      path' := path'[..|path'| - 1];
    } else {
      assert newNodes[0] in newNodes;
    }
  }

  /** The search below one root `v`: everything reachable from it becomes explored, or a cycle turns up. */
  method Explore(g: Digraph, v: Node, seen0: set<Node>, explored0: set<Node>, order0: seq<Node>)
    returns (found: bool, seen: set<Node>, explored: set<Node>, order: seq<Node>)
    requires g.Valid() && v in g.succ && v !in explored0
    requires SearchInvariant(g, order0, seen0, explored0, [], [])
    ensures found ==> SearchInvariant(g, order, seen, explored, [], [])
    ensures found ==> v in explored && explored0 <= explored
    ensures !found ==> HasCycle(g)
  {
    ghost var all := Elements(g.nodes);
    seen, explored, order := seen0, explored0, order0;
    var fringe := [v];
    ghost var path: seq<nat> := [];
    while fringe != []
      invariant SearchInvariant(g, order, seen, explored, fringe, path)
      invariant explored0 <= explored
      invariant v in explored || (fringe != [] && fringe[0] == v)
      decreases all - explored, all - seen, |fringe|
    {
      var w := fringe[|fringe| - 1];
      if w in explored {
        PopExplored(g, order, seen, explored, fringe, path);
        fringe := fringe[..|fringe| - 1];
        continue;
      }
      ghost var seenBefore := seen;
      seen := seen + {w};
      var newNodes := NewNodes(g, w, seen, explored);
      if newNodes.None? {
        ghost var n :| g.Edge(w, n) && n !in explored && n in seen;
        CycleFound(g, order, seenBefore, explored, fringe, path, n);
        return false, seen, explored, order;
      }
      path := Expand(g, order, seenBefore, explored, fringe, path, newNodes.value);
      if newNodes.value != [] {
        fringe := fringe + newNodes.value;
      } else {
        explored := explored + {w};
        order := [w] + order;
        fringe := fringe[..|fringe| - 1];
      }
    }
    found := true;
  }

  /**
   The iterative depth-first search.  It finds an order exactly when the graph has no cycle: a
   returned list is a topological order, and the early exit is taken only on a cyclic graph.
   */
  method Sort(g: Digraph) returns (r: Option<seq<Node>>)
    requires g.Valid()
    ensures r.Some? ==> IsTopologicalOrder(g, r.value)
    ensures r.None? <==> HasCycle(g)
  {
    var seen, explored, order := {}, {}, [];
    for k := 0 to |g.nodes|
      invariant SearchInvariant(g, order, seen, explored, [], [])
      invariant forall v | v in g.nodes[..k] :: v in explored
    {
      var v := g.nodes[k];
      if v !in explored {
        var found;
        found, seen, explored, order := Explore(g, v, seen, explored, order);
        if !found {
          return None;
        }
      }
    }
    assert g.nodes[..|g.nodes|] == g.nodes;
    assert forall v | v in g.nodes :: v in explored;
    ExploredAll(g, order);
    OrderedGraphIsAcyclic(g, order);
    return Some(order);
  }
}
