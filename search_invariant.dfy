/**
 * What holds of the search of `find_deg3_cycle`
 * (feedback_vertex_set/feedback.py:150-176) at each step, and the lemmas
 * that carry it from step to step.
 */
module SearchInvariant {
  import opened AdjacencyMatrix
  import opened Sequences
  import opened PredecessorTree

  /** Every neighbour of a closed vertex, other than its predecessor, is its child in the tree. */
  ghost predicate ClosedPointBack(m: Matrix, preds: Preds, closed: set<nat>)
    requires IsSquare(m)
  {
    forall k, j :: k in closed && k in preds && k < |m| && 0 <= j < |m| && m[k][j] && j != preds[k] ==>
      j in preds && preds[j] == k as int
  }

  /**
   * What holds of the search whenever it looks at the next vertex.
   * `closed`: vertices whose neighbours have all been looked at; `current`:
   * the branch vertex being expanded (-1 between expansions); `done`: the
   * children of `current` recorded so far; `open`: the tree vertices being
   * worked on, `current` and the end of the chain being followed.
   */
  ghost predicate SearchState(m: Matrix, root: nat, preds: Preds, depth: map<nat, nat>, closed: set<nat>,
                              queue: seq<nat>, current: int, done: set<nat>, open: set<nat>)
    requires IsSquare(m)
  {
    && IsTree(preds, depth, root) && TreeInGraph(m, preds, root)
    && Marks(preds, closed, open)
    && ClosedPointBack(m, preds, closed)
    && Parented(preds, root, closed, current, done)
    && ChildrenOf(preds, current, done)
    && Covered(preds, closed, queue, open)
    && Waiting(m, preds, closed, queue, open)
  }

  /** Closed and open vertices are tree vertices, and none is both. */
  ghost predicate Marks(preds: Preds, closed: set<nat>, open: set<nat>)
  {
    closed <= preds.Keys && open <= preds.Keys && open !! closed
  }

  /** The predecessor of every vertex but the root is closed, or is `current` and the vertex is in `done`. */
  ghost predicate Parented(preds: Preds, root: nat, closed: set<nat>, current: int, done: set<nat>)
  {
    forall j {:trigger preds[j]} :: j in preds && j != root ==>
      (preds[j] >= 0 && preds[j] as nat in closed) || (preds[j] == current && j in done)
  }

  /** `done` holds children of `current`. */
  ghost predicate ChildrenOf(preds: Preds, current: int, done: set<nat>)
  {
    forall j :: j in done ==> j in preds && preds[j] == current
  }

  /** Every tree vertex is closed, queued or open. */
  ghost predicate Covered(preds: Preds, closed: set<nat>, queue: seq<nat>, open: set<nat>)
  {
    forall k :: k in preds ==> k in closed || k in queue || k in open
  }

  /** The queue holds distinct tree vertices of degree above 2 that are neither closed nor open. */
  ghost predicate Waiting(m: Matrix, preds: Preds, closed: set<nat>, queue: seq<nat>, open: set<nat>)
    requires IsSquare(m)
  {
    && Distinct(queue)
    && forall q :: q in queue ==> q in preds && q !in closed && q !in open && q < |m| && Degree(m, q) > 2
  }

  /** No vertex has degree 1. */
  ghost predicate NoLeaf(m: Matrix)
    requires IsSquare(m)
  {
    forall v :: 0 <= v < |m| ==> Degree(m, v) != 1
  }

  /** The state after the start vertex is queued. */
  lemma StartState(m: Matrix, root: nat)
    requires IsSimpleGraph(m) && root < |m| && Degree(m, root) > 2
    ensures SearchState(m, root, map[root := -1], map[root := 0], {}, [root], -1, {}, {})
  {
  }

  /** Membership in a queue after `popleft`. */
  lemma QueueTail(queue: seq<nat>)
    requires queue != [] && Distinct(queue)
    ensures Distinct(queue[1..]) && queue[0] !in queue[1..]
    ensures forall k :: k in queue <==> k == queue[0] || k in queue[1..]
  {
    forall k | k in queue ensures k == queue[0] || k in queue[1..] {
      var l :| 0 <= l < |queue| && queue[l] == k;
      if l > 0 {
        assert queue[1..][l - 1] == k;
      }
    }
  }

  /** Membership in a queue after `append`. */
  lemma QueueAppend(queue: seq<nat>, x: nat)
    requires Distinct(queue) && x !in queue
    ensures Distinct(queue + [x])
    ensures forall k :: k in queue + [x] <==> k in queue || k == x
  {
    var q := queue + [x];
    forall k, l | 0 <= k < l < |q| ensures q[k] != q[l] {
      assert q[k] == queue[k];
    }
    forall k | k in queue ensures k in q {
      var l :| 0 <= l < |queue| && queue[l] == k;
      assert q[l] == k;
    }
  }

  /** `current = queue.popleft()`. */
  lemma PopKeepsState(m: Matrix, root: nat, preds: Preds, depth: map<nat, nat>, closed: set<nat>, queue: seq<nat>)
    requires IsSquare(m) && SearchState(m, root, preds, depth, closed, queue, -1, {}, {}) && queue != []
    ensures SearchState(m, root, preds, depth, closed, queue[1..], queue[0], {}, {queue[0]})
    ensures queue[0] in preds && queue[0] < |m| && Degree(m, queue[0]) > 2
  {
    assert queue[0] in queue;
    QueueTail(queue);
  }

  /**
   * Following a chain never reaches a tree vertex of degree below 3: those
   * are the chain vertices already followed, and each of them already has
   * both its neighbours in the tree.
   */
  lemma ChainTargetIsNew(m: Matrix, root: nat, preds: Preds, depth: map<nat, nat>, closed: set<nat>,
                         queue: seq<nat>, current: nat, done: set<nat>, pc: nat, nb: nat)
    requires IsSimpleGraph(m) && TreeInGraph(m, preds, root) && Marks(preds, closed, {current, pc})
    requires ClosedPointBack(m, preds, closed) && Parented(preds, root, closed, current, done)
    requires Covered(preds, closed, queue, {current, pc}) && Waiting(m, preds, closed, queue, {current, pc})
    requires current in preds && Degree(m, current) > 2
    requires pc in preds && nb < |m| && m[pc][nb] && nb != preds[pc] && Degree(m, nb) < 3
    requires pc == current ==> nb !in done
    ensures nb !in preds
  {
    assert nb != current && nb != pc && nb != root && nb !in queue;
    assert m[nb][pc];
    ClosedNeighbours(m, root, preds, closed, current, done, pc);
  }

  /** A closed neighbour other than the root of a tree vertex outside `closed` is its predecessor, or its child in `done`. */
  lemma ClosedNeighbours(m: Matrix, root: nat, preds: Preds, closed: set<nat>, current: int, done: set<nat>, j: nat)
    requires IsSquare(m) && ClosedPointBack(m, preds, closed) && Parented(preds, root, closed, current, done)
    requires j in preds && j < |m| && j !in closed
    ensures forall k :: k in closed && k in preds && k != root && k < |m| && m[k][j] ==>
              preds[j] == k as int || (j == current && k in done)
  {
    forall k | k in closed && k in preds && k != root && k < |m| && m[k][j]
      ensures preds[j] == k as int || (j == current && k in done)
    {
      if preds[k] == j as int {
        assert j as nat !in closed;
      }
    }
  }

  /** A new leaf hung under a tree vertex keeps the tree. */
  lemma TreeAttach(preds: Preds, depth: map<nat, nat>, root: nat, pc: nat, nb: nat)
    requires IsTree(preds, depth, root) && pc in preds && nb !in preds
    ensures IsTree(preds[nb := pc as int], depth[nb := depth[pc] + 1], root)
  {
    var preds' := preds[nb := pc as int];
    var depth' := depth[nb := depth[pc] + 1];
    forall k | k in preds' && k != root
      ensures preds'[k] >= 0 && preds'[k] as nat in preds' && depth'[k] == depth'[preds'[k] as nat] + 1
    {
      if k != nb {
        assert preds'[k] == preds[k];
      }
    }
  }

  /** A new leaf joined to a tree vertex by an edge keeps the tree in the graph. */
  lemma TreeInGraphAttach(m: Matrix, preds: Preds, root: nat, pc: nat, nb: nat)
    requires IsSquare(m) && TreeInGraph(m, preds, root) && pc in preds && nb !in preds
    requires nb < |m| && m[pc][nb] && Degree(m, nb) >= 2
    ensures TreeInGraph(m, preds[nb := pc as int], root)
  {
    var preds' := preds[nb := pc as int];
    forall k | k in preds' && k != root ensures 0 <= preds'[k] < |m| && m[preds'[k]][k] {
      if k != nb {
        assert preds'[k] == preds[k];
      }
    }
  }

  /**
   * Closing a chain vertex of degree 2 once its second neighbour has been
   * hung under it keeps every closed vertex pointing at its children.
   */
  lemma ClosedAttach(m: Matrix, preds: Preds, root: nat, closed: set<nat>, pc: nat, nb: nat, close: bool)
    requires IsSimpleGraph(m) && TreeInGraph(m, preds, root) && ClosedPointBack(m, preds, closed)
    requires closed <= preds.Keys && pc in preds && nb !in preds && nb < |m| && m[pc][nb] && nb != preds[pc]
    requires close ==> Degree(m, pc) == 2
    ensures ClosedPointBack(m, preds[nb := pc as int], if close then closed + {pc} else closed)
  {
    var preds' := preds[nb := pc as int];
    var closed' := if close then closed + {pc} else closed;
    forall k, j | k in closed' && k in preds' && k < |m| && 0 <= j < |m| && m[k][j] && j != preds'[k]
      ensures j in preds' && preds'[j] == k as int
    {
      if k == pc && close {
        assert pc != root;
        assert 0 <= preds[pc] < |m| && m[preds[pc]][pc];
        DegreeTwoPinned(m, pc, preds[pc] as nat, nb, j);
      } else {
        assert k in closed && preds'[k] == preds[k];
        assert j in preds && preds[j] == k as int;
      }
    }
  }

  /** The marks, the queue and `done` after a new vertex is hung under the chain end `pc`. */
  lemma AttachBookkeeping(m: Matrix, root: nat, preds: Preds, closed: set<nat>, queue: seq<nat>,
                          current: nat, done: set<nat>, pc: nat, nb: nat)
    requires IsSquare(m) && Marks(preds, closed, {current, pc})
    requires Parented(preds, root, closed, current, done) && ChildrenOf(preds, current, done)
    requires Covered(preds, closed, queue, {current, pc}) && Waiting(m, preds, closed, queue, {current, pc})
    requires current in preds && pc in preds && pc < |m| && nb !in preds && (pc == current || Degree(m, pc) == 2)
    ensures var preds' := preds[nb := pc as int];
            var closed' := if pc == current then closed else closed + {pc};
            var done' := if pc == current then done + {nb} else done;
            && nb !in queue
            && Marks(preds', closed', {current, nb})
            && Parented(preds', root, closed', current, done')
            && ChildrenOf(preds', current, done')
            && Covered(preds', closed', queue, {current, nb})
            && Waiting(m, preds', closed', queue, {current, nb})
  {
    var preds' := preds[nb := pc as int];
    var closed' := if pc == current then closed else closed + {pc};
    var done' := if pc == current then done + {nb} else done;
    forall j | j in preds' && j != root
      ensures (preds'[j] >= 0 && preds'[j] as nat in closed') || (preds'[j] == current && j in done')
    {
      if j != nb {
        assert preds'[j] == preds[j];
      }
    }
  }

  /**
   * `predecessors[neighbor] = pathcurrent`, for a vertex new to the tree:
   * the chain end it came from becomes closed (unless it is `current`),
   * and the vertex becomes the chain end being worked on.
   */
  lemma AttachKeepsState(m: Matrix, root: nat, preds: Preds, depth: map<nat, nat>, closed: set<nat>,
                         queue: seq<nat>, current: nat, done: set<nat>, pc: nat, nb: nat)
    requires IsSimpleGraph(m) && NoLeaf(m)
    requires SearchState(m, root, preds, depth, closed, queue, current, done, {current, pc})
    requires current in preds && (pc == current || Degree(m, pc) == 2)
    requires pc in preds && nb < |m| && m[pc][nb] && nb != preds[pc] && nb !in preds
    ensures nb !in queue && Degree(m, nb) >= 2
    ensures SearchState(m, root, preds[nb := pc as int], depth[nb := depth[pc] + 1],
                        if pc == current then closed else closed + {pc}, queue, current,
                        if pc == current then done + {nb} else done, {current, nb})
  {
    NeighbourDegree(m, nb, pc);
    assert m[nb][pc];
    TreeAttach(preds, depth, root, pc, nb);
    TreeInGraphAttach(m, preds, root, pc, nb);
    ClosedAttach(m, preds, root, closed, pc, nb, pc != current);
    AttachBookkeeping(m, root, preds, closed, queue, current, done, pc, nb);
  }

  /** `queue.append(neighbor)`: a chain end of degree above 2 waits in the queue. */
  lemma QueueChainEnd(m: Matrix, root: nat, preds: Preds, depth: map<nat, nat>, closed: set<nat>,
                      queue: seq<nat>, current: nat, done: set<nat>, nb: nat)
    requires IsSquare(m) && SearchState(m, root, preds, depth, closed, queue, current, done, {current, nb})
    requires nb !in queue && nb != current && nb < |m| && Degree(m, nb) > 2
    ensures SearchState(m, root, preds, depth, closed, queue + [nb], current, done, {current})
  {
    QueueAppend(queue, nb);
  }

  /** A chain end already in the tree is not the child of the vertex it was reached from. */
  lemma RediscoveryIsNotParent(m: Matrix, root: nat, preds: Preds, depth: map<nat, nat>, closed: set<nat>,
                               queue: seq<nat>, current: nat, done: set<nat>, pc: nat, nb: nat)
    requires IsSquare(m) && SearchState(m, root, preds, depth, closed, queue, current, done, {current, pc})
    requires pc in preds && nb in preds
    requires pc == current ==> nb !in done
    ensures preds[nb] != pc as int
  {
    assert preds[nb] == pc as int ==> nb != root;
  }

  /** Closing `current`, whose other neighbours are all its children in `done`, keeps every closed vertex pointing back. */
  lemma FinishPointBack(m: Matrix, preds: Preds, closed: set<nat>, current: nat, done: set<nat>)
    requires IsSquare(m) && ClosedPointBack(m, preds, closed) && ChildrenOf(preds, current, done)
    requires current in preds && current < |m|
    requires forall j :: 0 <= j < |m| && m[current][j] && j != preds[current] ==> j in done
    ensures ClosedPointBack(m, preds, closed + {current})
  {
  }

  /** Once every neighbour of `current` but its predecessor is its child, `current` is closed. */
  lemma FinishKeepsState(m: Matrix, root: nat, preds: Preds, depth: map<nat, nat>, closed: set<nat>,
                         queue: seq<nat>, current: nat, done: set<nat>)
    requires IsSquare(m) && SearchState(m, root, preds, depth, closed, queue, current, done, {current})
    requires forall j :: 0 <= j < |m| && m[current][j] && j != preds[current] ==> j in done
    ensures SearchState(m, root, preds, depth, closed + {current}, queue, -1, {}, {})
  {
    assert current in preds;
    assert Marks(preds, closed + {current}, {});
    FinishPointBack(m, preds, closed, current, done);
    assert Parented(preds, root, closed + {current}, -1, {});
    assert Covered(preds, closed + {current}, queue, {});
    assert Waiting(m, preds, closed + {current}, queue, {});
  }

  /** Every non-empty finite map of ranks has a key of greatest rank. */
  lemma DeepestKey(depth: map<nat, nat>) returns (d: nat)
    requires depth != map[]
    ensures d in depth && forall k :: k in depth ==> depth[k] <= depth[d]
    decreases |depth|
  {
    var x :| x in depth;
    var rest := depth - {x};
    if depth.Keys == {x} {
      d := x;
    } else {
      assert |rest| < |depth| by {
        assert rest.Keys + {x} == depth.Keys;
      }
      var r := DeepestKey(rest);
      d := if depth[x] > depth[r] then x else r;
      forall k | k in depth ensures depth[k] <= depth[d] {
        if k != x {
          assert k in rest && rest[k] == depth[k];
        }
      }
    }
  }

  /**
   * The tree always has a vertex that is not closed: at a deepest vertex,
   * a second neighbour (it has degree at least 2) would be a deeper child.
   */
  lemma TreeHasOpenVertex(m: Matrix, root: nat, preds: Preds, depth: map<nat, nat>, closed: set<nat>)
    requires IsSimpleGraph(m) && IsTree(preds, depth, root) && TreeInGraph(m, preds, root)
    requires ClosedPointBack(m, preds, closed)
    ensures !(preds.Keys <= closed)
  {
    var d := DeepestKey(depth);
    var j := OtherNeighbour(m, d, preds[d]);
    assert j in preds ==> depth[j] <= depth[d];
    assert !(j in preds && preds[j] == d as int);
  }

  /**
   * What holds at each step of following a chain out of `current` through
   * its neighbour `first`: the search state with `pc` as the chain end being
   * worked on, the tree extended (never changed) from `preds0`, and `nb`
   * the next vertex, a neighbour of `pc` other than its predecessor.
   */
  ghost predicate ChainState(m: Matrix, root: nat, preds0: Preds, done0: set<nat>, current: nat, first: nat,
                             preds: Preds, depth: map<nat, nat>, closed: set<nat>, queue: seq<nat>,
                             done: set<nat>, pc: nat, nb: nat)
    requires IsSquare(m)
  {
    && SearchState(m, root, preds, depth, closed, queue, current, done, {current, pc})
    && ChainLinks(m, preds0, done0, current, first, preds, done, pc, nb)
  }

  /** The part of the chain state that is about the chain itself. */
  ghost predicate ChainLinks(m: Matrix, preds0: Preds, done0: set<nat>, current: nat, first: nat,
                             preds: Preds, done: set<nat>, pc: nat, nb: nat)
    requires IsSquare(m)
  {
    && preds0.Keys <= preds.Keys && (forall k :: k in preds0 ==> preds[k] == preds0[k])
    && pc in preds && pc < |m| && nb < |m|
    && m[pc][nb] && nb != preds[pc]
    && (pc == current || Degree(m, pc) == 2)
    && (pc == current ==> nb == first && done == done0)
    && (pc != current ==> done == done0 + {first})
  }

  /** The chain state at the start: `pathcurrent = current`, `neighbor = first`. */
  lemma ChainStart(m: Matrix, root: nat, preds: Preds, depth: map<nat, nat>, closed: set<nat>,
                   queue: seq<nat>, current: nat, done: set<nat>, first: nat)
    requires IsSquare(m) && SearchState(m, root, preds, depth, closed, queue, current, done, {current})
    requires current in preds && current < |m| && first < |m| && m[current][first] && first != preds[current]
    ensures ChainState(m, root, preds, done, current, first, preds, depth, closed, queue, done, current, first)
  {
    assert {current, current} == {current};
  }

  /** A vertex of degree 2 met along a chain is new to the tree, and has a second neighbour. */
  lemma ChainVertexIsNew(m: Matrix, root: nat, preds0: Preds, done0: set<nat>, current: nat, first: nat,
                         preds: Preds, depth: map<nat, nat>, closed: set<nat>, queue: seq<nat>,
                         done: set<nat>, pc: nat, nb: nat)
    requires IsSimpleGraph(m) && NoLeaf(m) && current in preds0 && current < |m| && Degree(m, current) > 2
    requires first !in done0
    requires ChainState(m, root, preds0, done0, current, first, preds, depth, closed, queue, done, pc, nb)
    requires Degree(m, nb) < 3
    ensures nb !in preds && Degree(m, nb) == 2
  {
    ChainTargetIsNew(m, root, preds, depth, closed, queue, current, done, pc, nb);
    NeighbourDegree(m, nb, pc);
    assert m[nb][pc];
  }

  /**
   * `predecessors[neighbor] = pathcurrent; pathcurrent = neighbor; neighbor = nn`:
   * one step along a chain keeps the chain state.
   */
  lemma ChainStep(m: Matrix, root: nat, preds0: Preds, done0: set<nat>, current: nat, first: nat,
                  preds: Preds, depth: map<nat, nat>, closed: set<nat>, queue: seq<nat>,
                  done: set<nat>, pc: nat, nb: nat, next: nat)
    requires IsSimpleGraph(m) && NoLeaf(m) && current in preds0
    requires ChainState(m, root, preds0, done0, current, first, preds, depth, closed, queue, done, pc, nb)
    requires nb !in preds && Degree(m, nb) == 2
    requires next < |m| && m[nb][next] && next != pc
    ensures ChainState(m, root, preds0, done0, current, first, preds[nb := pc as int],
                       depth[nb := depth[pc] + 1], if pc == current then closed else closed + {pc}, queue,
                       if pc == current then done + {nb} else done, nb, next)
  {
    AttachKeepsState(m, root, preds, depth, closed, queue, current, done, pc, nb);
    ChainLinksStep(m, preds0, done0, current, first, preds, done, pc, nb, next);
  }

  /** One step along a chain keeps the chain links. */
  lemma ChainLinksStep(m: Matrix, preds0: Preds, done0: set<nat>, current: nat, first: nat,
                       preds: Preds, done: set<nat>, pc: nat, nb: nat, next: nat)
    requires IsSquare(m) && current in preds0 && ChainLinks(m, preds0, done0, current, first, preds, done, pc, nb)
    requires nb !in preds && Degree(m, nb) == 2
    requires next < |m| && m[nb][next] && next != pc
    ensures ChainLinks(m, preds0, done0, current, first, preds[nb := pc as int],
                       if pc == current then done + {nb} else done, nb, next)
  {
  }

  /**
   * What holds while the neighbours of `current` (popped from `queue0`, with
   * the tree then holding `keys0`) are followed: the search state, and
   * either the queue is `queue0` without its head or the tree has grown.
   */
  ghost predicate Expanding(m: Matrix, root: nat, preds: Preds, depth: map<nat, nat>, closed: set<nat>,
                            queue: seq<nat>, current: nat, done: set<nat>, parent: int,
                            keys0: set<nat>, queue0: seq<nat>)
    requires IsSquare(m)
  {
    && SearchState(m, root, preds, depth, closed, queue, current, done, {current})
    && current in preds && preds[current] == parent && current < |m| && Degree(m, current) > 2
    && keys0 <= preds.Keys <= Below(|m|)
    && |queue0| >= 1 && (queue == queue0[1..] || keys0 < preds.Keys)
  }

  /**
   * `queue.append(neighbor); predecessors[neighbor] = pathcurrent`: a chain
   * ending at a new vertex of degree above 2 hangs it in the tree and queues it.
   */
  lemma PushChainEnd(m: Matrix, root: nat, preds: Preds, depth: map<nat, nat>, closed: set<nat>,
                     queue: seq<nat>, current: nat, done: set<nat>, parent: int,
                     keys0: set<nat>, queue0: seq<nat>, first: nat,
                     preds': Preds, depth': map<nat, nat>, closed': set<nat>, done': set<nat>, pc: nat, nb: nat)
    requires IsSimpleGraph(m) && NoLeaf(m)
    requires current in preds && preds[current] == parent && current < |m| && Degree(m, current) > 2
    requires keys0 <= preds.Keys && |queue0| >= 1
    requires ChainState(m, root, preds, done, current, first, preds', depth', closed', queue, done', pc, nb)
    requires nb !in preds' && Degree(m, nb) > 2
    ensures Expanding(m, root, preds'[nb := pc as int], depth'[nb := depth'[pc] + 1],
                      if pc == current then closed' else closed' + {pc}, queue + [nb], current,
                      done + {first}, parent, keys0, queue0)
  {
    AttachAndQueue(m, root, preds', depth', closed', queue, current, done', pc, nb);
    var preds'' := preds'[nb := pc as int];
    TreeKeysBelow(m, preds'', root);
    assert done + {first} == if pc == current then done' + {nb} else done';
    assert nb in preds''.Keys - keys0;
  }

  /** `AttachKeepsState` followed by `QueueChainEnd`, for a chain end of degree above 2. */
  lemma AttachAndQueue(m: Matrix, root: nat, preds: Preds, depth: map<nat, nat>, closed: set<nat>,
                       queue: seq<nat>, current: nat, done: set<nat>, pc: nat, nb: nat)
    requires IsSimpleGraph(m) && NoLeaf(m)
    requires SearchState(m, root, preds, depth, closed, queue, current, done, {current, pc})
    requires current in preds && (pc == current || Degree(m, pc) == 2)
    requires pc in preds && nb < |m| && m[pc][nb] && nb != preds[pc] && nb !in preds && Degree(m, nb) > 2
    ensures SearchState(m, root, preds[nb := pc as int], depth[nb := depth[pc] + 1],
                        if pc == current then closed else closed + {pc}, queue + [nb], current,
                        if pc == current then done + {nb} else done, {current})
  {
    AttachKeepsState(m, root, preds, depth, closed, queue, current, done, pc, nb);
    QueueChainEnd(m, root, preds[nb := pc as int], depth[nb := depth[pc] + 1],
                  if pc == current then closed else closed + {pc}, queue, current,
                  if pc == current then done + {nb} else done, nb);
  }

  /**
   * `return backtrace_cycle(predecessors, neighbor, pathcurrent)`: a chain
   * ending at a vertex already in the tree closes a cycle through the tree.
   */
  lemma ChainCycle(m: Matrix, root: nat, preds0: Preds, done0: set<nat>, current: nat, first: nat,
                   preds: Preds, depth: map<nat, nat>, closed: set<nat>, queue: seq<nat>,
                   done: set<nat>, pc: nat, nb: nat)
    returns (split: nat)
    requires IsSimpleGraph(m) && first !in done0
    requires ChainState(m, root, preds0, done0, current, first, preds, depth, closed, queue, done, pc, nb)
    requires nb in preds
    ensures var c := Splice(Ancestors(preds, depth, root, nb), Ancestors(preds, depth, root, pc));
            && 0 < split <= |c| && Distinct(c)
            && IsCycle(m, c[..split] + Reversed(c[split..]))
  {
    RediscoveryIsNotParent(m, root, preds, depth, closed, queue, current, done, pc, nb);
    TreeEdgeSplicable(m, preds, depth, root, nb, pc);
    split := SpliceIsCycle(m, Ancestors(preds, depth, root, nb), Ancestors(preds, depth, root, pc));
  }

  /** `done` holds exactly the first `idx` entries of `neighbors`. */
  ghost predicate Enumerated(done: set<nat>, neighbors: seq<nat>, idx: nat)
    requires idx <= |neighbors|
  {
    && (forall k :: 0 <= k < idx ==> neighbors[k] in done)
    && (forall j :: j in done ==> j in neighbors[..idx])
  }

  /** `for neighbor in neighbors`, over strictly increasing entries: each one is new. */
  lemma EnumerateNext(done: set<nat>, neighbors: seq<nat>, idx: nat)
    requires idx < |neighbors| && Enumerated(done, neighbors, idx)
    requires forall k, l :: 0 <= k < l < |neighbors| ==> neighbors[k] < neighbors[l]
    ensures neighbors[idx] !in done && Enumerated(done + {neighbors[idx]}, neighbors, idx + 1)
  {
    assert neighbors[..idx + 1] == neighbors[..idx] + [neighbors[idx]];
  }

  /** After the last neighbour every vertex the neighbour list was complete for is done. */
  lemma AllNeighboursDone(m: Matrix, current: nat, ex: int, neighbors: seq<nat>, done: set<nat>)
    requires IsSquare(m) && current < |m| && Enumerated(done, neighbors, |neighbors|)
    requires forall j :: 0 <= j < |m| && m[current][j] && j != ex ==> j in neighbors
    ensures forall j :: 0 <= j < |m| && m[current][j] && j != ex ==> j in done
  {
    assert neighbors[..|neighbors|] == neighbors;
  }

  /** One round of the outer loop either grows the tree or shortens the queue. */
  lemma SearchProgress(n: nat, keys0: set<nat>, keys: set<nat>, queue0: seq<nat>, queue: seq<nat>)
    requires keys0 <= keys <= Below(n) && |queue0| >= 1
    requires queue == queue0[1..] || keys0 < keys
    ensures Below(n) - keys < Below(n) - keys0 || (keys == keys0 && |queue| < |queue0|)
  {
    if keys0 < keys {
      var x :| x in keys && x !in keys0;
      assert x in Below(n) - keys0;
    }
  }
}
