/**
 * `find_deg3_cycle` and `backtrace_cycle` (feedback_vertex_set/feedback.py:119-209).
 *
 * In a graph without vertices of degree 1 and with some vertex of degree
 * greater than 2, the search grows a tree of predecessors from the
 * lowest-index vertex of degree greater than 2. It visits the branch
 * vertices (degree greater than 2) breadth first and follows each chain of
 * degree-2 vertices to its end. It stops at the first chain end that is
 * already in the tree and splices the two tree paths to the root into a cycle.
 */
module ChainSearch {
  import opened AdjacencyMatrix
  import opened Sequences
  import opened PredecessorTree
  import opened SearchInvariant
  import opened Optional

  /**
   * `for i, j in enumerate(degrees): if j > d: ... break`: the lowest index
   * whose entry exceeds `d`, or `|degrees|` when there is none.
   */
  method FirstAbove(degrees: seq<nat>, d: nat) returns (first: nat)
    ensures first <= |degrees| && forall v :: 0 <= v < first ==> degrees[v] <= d
    ensures first < |degrees| ==> degrees[first] > d
  {
    first := 0;
    while first < |degrees| && degrees[first] <= d
      invariant first <= |degrees| && forall v :: 0 <= v < first ==> degrees[v] <= d
    {
      first := first + 1;
    }
  }

  /**
   * The inner `while degrees[neighbor] < 3` loop of `find_deg3_cycle`:
   * from `current` through its neighbour `first`, follows the chain of
   * degree-2 vertices, recording each as the child of the vertex before it,
   * and stops at the first vertex of degree above 2. Returns the updated
   * predecessors, the last chain vertex `pathcurrent` (or `current` when
   * `first` is not of degree 2) and the vertex `neighbor` the chain ends at.
   */
  method FollowChain(G: array2<bool>, degrees: seq<nat>, preds: Preds, current: nat, first: nat,
                     ghost root: nat, ghost depth: map<nat, nat>, ghost closed: set<nat>,
                     ghost queue: seq<nat>, ghost done: set<nat>)
    returns (preds': Preds, pathcurrent: nat, neighbor: nat,
             ghost depth': map<nat, nat>, ghost closed': set<nat>, ghost done': set<nat>)
    requires G.Length0 == G.Length1 && IsSimpleGraph(Snap(G)) && NoLeaf(Snap(G))
    requires |degrees| == G.Length0 && forall v :: 0 <= v < |degrees| ==> degrees[v] == Degree(Snap(G), v)
    requires SearchState(Snap(G), root, preds, depth, closed, queue, current, done, {current})
    requires current in preds && Degree(Snap(G), current) > 2
    requires first < G.Length0 && G[current, first] && first != preds[current] && first !in done
    ensures ChainState(Snap(G), root, preds, done, current, first, preds', depth', closed', queue, done',
                       pathcurrent, neighbor)
    ensures Degree(Snap(G), neighbor) > 2
  {
    ghost var m := Snap(G);
    ChainStart(m, root, preds, depth, closed, queue, current, done, first);
    preds', depth', closed', done' := preds, depth, closed, done;
    pathcurrent, neighbor := current, first;
    while degrees[neighbor] < 3
      invariant ChainState(m, root, preds, done, current, first, preds', depth', closed', queue, done',
                           pathcurrent, neighbor)
      decreases Below(G.Length0) - preds'.Keys
    {
      ChainVertexIsNew(m, root, preds, done, current, first, preds', depth', closed', queue, done',
                       pathcurrent, neighbor);
      var next := FirstNeighbourExcept(G, neighbor, pathcurrent);
      ChainStep(m, root, preds, done, current, first, preds', depth', closed', queue, done',
                pathcurrent, neighbor, next);
      depth' := depth'[neighbor := depth'[pathcurrent] + 1];
      closed' := if pathcurrent == current then closed' else closed' + {pathcurrent};
      done' := if pathcurrent == current then done' + {neighbor} else done';
      preds' := preds'[neighbor := pathcurrent];
      pathcurrent := neighbor;
      neighbor := next;
    }
  }

  /**
   * `find_deg3_cycle(G)`: in a graph without vertices of degree 1, returns
   * the vertices of a cycle when some vertex has degree above 2, and `None`
   * when none has. The vertices come in the order `backtrace_cycle` collects
   * them: the cycle is the part before `split` followed by the rest read
   * backwards.
   */
  method FindDeg3Cycle(G: array2<bool>) returns (r: Option<seq<nat>>, ghost split: nat)
    requires G.Length0 == G.Length1 && IsSimpleGraph(Snap(G)) && NoLeaf(Snap(G))
    ensures r.None? <==> forall v :: 0 <= v < G.Length0 ==> Degree(Snap(G), v) <= 2
    ensures r.Some? ==> 0 < split <= |r.value| && Distinct(r.value)
    ensures r.Some? ==> IsCycle(Snap(G), r.value[..split] + Reversed(r.value[split..]))
  {
    ghost var m := Snap(G);
    var n := G.Length0;
    var degrees := Degrees(G);
    var root := FirstAbove(degrees, 2);
    if root == n {
      return None, 0;
    }
    assert Degree(m, root) > 2;
    assert !(forall v :: 0 <= v < n ==> Degree(m, v) <= 2);
    var queue := [root];
    var preds: Preds := map[root := -1];
    ghost var depth: map<nat, nat> := map[root := 0];
    ghost var closed: set<nat> := {};
    StartState(m, root);
    while queue != []
      invariant SearchState(m, root, preds, depth, closed, queue, -1, {}, {})
      invariant preds.Keys <= Below(n)
      decreases Below(n) - preds.Keys, |queue|
    {
      var found, cycle;
      found, cycle, split, preds, queue, depth, closed := ExpandVertex(G, degrees, preds, queue, root, depth, closed);
      if found {
        return Some(cycle), split;
      }
    }
    TreeHasOpenVertex(m, root, preds, depth, closed);
    assert false;
  }

  /**
   * One round of the `while queue` loop of `find_deg3_cycle`: pops a vertex
   * and follows the chain through each of its neighbours other than its
   * predecessor. Either one of them closes a cycle (`found`), or the vertex
   * is closed and the search goes on with a larger tree or a shorter queue.
   */
  method ExpandVertex(G: array2<bool>, degrees: seq<nat>, preds: Preds, queue: seq<nat>, ghost root: nat,
                      ghost depth: map<nat, nat>, ghost closed: set<nat>)
    returns (found: bool, cycle: seq<nat>, ghost split: nat, preds': Preds, queue': seq<nat>,
             ghost depth': map<nat, nat>, ghost closed': set<nat>)
    requires G.Length0 == G.Length1 && IsSimpleGraph(Snap(G)) && NoLeaf(Snap(G))
    requires |degrees| == G.Length0 && forall v :: 0 <= v < |degrees| ==> degrees[v] == Degree(Snap(G), v)
    requires queue != [] && SearchState(Snap(G), root, preds, depth, closed, queue, -1, {}, {})
    requires preds.Keys <= Below(G.Length0)
    ensures found ==> 0 < split <= |cycle| && Distinct(cycle)
    ensures found ==> IsCycle(Snap(G), cycle[..split] + Reversed(cycle[split..]))
    ensures !found ==> SearchState(Snap(G), root, preds', depth', closed', queue', -1, {}, {})
    ensures !found ==> preds'.Keys <= Below(G.Length0)
    ensures !found ==> Below(G.Length0) - preds'.Keys < Below(G.Length0) - preds.Keys
                       || (preds'.Keys == preds.Keys && |queue'| < |queue|)
  {
    ghost var m := Snap(G);
    PopKeepsState(m, root, preds, depth, closed, queue);
    var current := queue[0];
    ghost var parent := preds[current];
    var neighbors := NeighboursExcept(G, current, preds[current]);
    ghost var done;
    found, cycle, split, preds', queue', depth', closed', done :=
      FollowAllChains(G, degrees, preds, queue[1..], current, neighbors, root, depth, closed, parent, preds.Keys, queue);
    if !found {
      AllNeighboursDone(m, current, parent, neighbors, done);
      FinishKeepsState(m, root, preds', depth', closed', queue', current, done);
      SearchProgress(G.Length0, preds.Keys, preds'.Keys, queue, queue');
      closed' := closed' + {current};
    }
  }

  /**
   * `for neighbor in neighbors` in `find_deg3_cycle`: follows the chain
   * through each neighbour of `current` in turn, until one closes a cycle
   * (`found`) or all of them have been followed (`done` is all of them).
   */
  method FollowAllChains(G: array2<bool>, degrees: seq<nat>, preds: Preds, queue: seq<nat>, current: nat,
                         neighbors: seq<nat>, ghost root: nat, ghost depth: map<nat, nat>, ghost closed: set<nat>,
                         ghost parent: int, ghost keys0: set<nat>, ghost queue0: seq<nat>)
    returns (found: bool, cycle: seq<nat>, ghost split: nat, preds': Preds, queue': seq<nat>,
             ghost depth': map<nat, nat>, ghost closed': set<nat>, ghost done: set<nat>)
    requires G.Length0 == G.Length1 && IsSimpleGraph(Snap(G)) && NoLeaf(Snap(G))
    requires |degrees| == G.Length0 && forall v :: 0 <= v < |degrees| ==> degrees[v] == Degree(Snap(G), v)
    requires Expanding(Snap(G), root, preds, depth, closed, queue, current, {}, parent, keys0, queue0)
    requires forall k, l :: 0 <= k < l < |neighbors| ==> neighbors[k] < neighbors[l]
    requires forall k :: 0 <= k < |neighbors| ==> neighbors[k] < G.Length0 && G[current, neighbors[k]] && neighbors[k] != parent
    ensures found ==> 0 < split <= |cycle| && Distinct(cycle)
    ensures found ==> IsCycle(Snap(G), cycle[..split] + Reversed(cycle[split..]))
    ensures !found ==> Expanding(Snap(G), root, preds', depth', closed', queue', current, done, parent, keys0, queue0)
    ensures !found ==> Enumerated(done, neighbors, |neighbors|)
  {
    found, cycle, split := false, [], 0;
    preds', queue', depth', closed', done := preds, queue, depth, closed, {};
    for idx := 0 to |neighbors|
      invariant Expanding(Snap(G), root, preds', depth', closed', queue', current, done, parent, keys0, queue0)
      invariant Enumerated(done, neighbors, idx)
    {
      EnumerateNext(done, neighbors, idx);
      found, cycle, split, preds', queue', depth', closed' :=
        ExpandNeighbour(G, degrees, preds', queue', current, neighbors[idx], root, depth', closed', done,
                        parent, keys0, queue0);
      if found {
        return;
      }
      done := done + {neighbors[idx]};
    }
  }

  /**
   * The body of `for neighbor in neighbors` in `find_deg3_cycle`: follows
   * the chain through `first` and either returns the cycle it closes
   * (`found`) or hangs its end in the tree and queues it.
   */
  method ExpandNeighbour(G: array2<bool>, degrees: seq<nat>, preds: Preds, queue: seq<nat>, current: nat,
                         first: nat, ghost root: nat, ghost depth: map<nat, nat>, ghost closed: set<nat>,
                         ghost done: set<nat>, ghost parent: int, ghost keys0: set<nat>, ghost queue0: seq<nat>)
    returns (found: bool, cycle: seq<nat>, ghost split: nat, preds': Preds, queue': seq<nat>,
             ghost depth': map<nat, nat>, ghost closed': set<nat>)
    requires G.Length0 == G.Length1 && IsSimpleGraph(Snap(G)) && NoLeaf(Snap(G))
    requires |degrees| == G.Length0 && forall v :: 0 <= v < |degrees| ==> degrees[v] == Degree(Snap(G), v)
    requires Expanding(Snap(G), root, preds, depth, closed, queue, current, done, parent, keys0, queue0)
    requires first < G.Length0 && G[current, first] && first != parent && first !in done
    ensures found ==> 0 < split <= |cycle| && Distinct(cycle)
    ensures found ==> IsCycle(Snap(G), cycle[..split] + Reversed(cycle[split..]))
    ensures !found ==> Expanding(Snap(G), root, preds', depth', closed', queue', current, done + {first},
                                 parent, keys0, queue0)
  {
    ghost var m := Snap(G);
    var pathcurrent, neighbor;
    ghost var done';
    preds', pathcurrent, neighbor, depth', closed', done' :=
      FollowChain(G, degrees, preds, current, first, root, depth, closed, queue, done);
    if neighbor in preds' {
      split := ChainCycle(m, root, preds, done, current, first, preds', depth', closed', queue, done',
                          pathcurrent, neighbor);
      cycle := BacktraceCycle(preds', neighbor, pathcurrent, depth', root);
      found, queue' := true, queue;
      return;
    }
    PushChainEnd(m, root, preds, depth, closed, queue, current, done, parent, keys0, queue0, first,
                 preds', depth', closed', done', pathcurrent, neighbor);
    found, cycle, split := false, [], 0;
    queue' := queue + [neighbor];
    depth' := depth'[neighbor := depth'[pathcurrent] + 1];
    closed' := if pathcurrent == current then closed' else closed' + {pathcurrent};
    preds' := preds'[neighbor := pathcurrent];
  }
}
