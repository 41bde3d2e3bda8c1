/**
 * `feedback_vertex` (feedback_vertex_set/feedback.py:9-41): the primal-dual
 * approximation of a minimum-weight feedback vertex set. On a copy of the
 * graph it alternates pruning leaves with finding a cycle, raising the dual
 * value `x` of every cycle vertex by the smallest headroom `w - x` on the
 * cycle, and taking the first vertex that became tight into `F` and
 * disconnecting it. It stops when pruning leaves no edge.
 */
module FeedbackVertexSet {
  import opened AdjacencyMatrix
  import opened Sequences
  import opened Optional
  import opened Pruning
  import opened SearchInvariant
  import opened CycleFinder

  // ---------------------------------------------------------------------
  // Dual values

  /** `np.argmin(s)`: the first position of a smallest entry. */
  function ArgMin(s: seq<real>): (i: nat)
    requires |s| > 0
    ensures i < |s|
    ensures forall k :: 0 <= k < |s| ==> s[i] <= s[k]
    ensures forall k :: 0 <= k < i ==> s[k] > s[i]
  {
    if |s| == 1 then 0
    else
      var j := ArgMin(s[..|s| - 1]);
      if s[|s| - 1] < s[j] then |s| - 1 else j
  }

  /** `w[cycle] - x[cycle]`. */
  function Headrooms(w: seq<real>, x: seq<real>, cycle: seq<nat>): (r: seq<real>)
    requires forall k :: 0 <= k < |cycle| ==> cycle[k] < |w| && cycle[k] < |x|
  {
    seq(|cycle|, k requires 0 <= k < |cycle| => w[cycle[k]] - x[cycle[k]])
  }

  /** `x[cycle] += h`: the entries at the cycle's vertices raised by `h`. */
  function Raised(x: seq<real>, cycle: seq<nat>, h: real): (r: seq<real>)
  {
    seq(|x|, v requires 0 <= v < |x| => if v in cycle then x[v] + h else x[v])
  }

  /**
   * Raising the cycle's duals by the smallest headroom makes the argmin
   * vertex tight, changes nothing off the cycle, and, when every dual lies
   * between 0 and its weight, raises no dual and keeps them all in range.
   */
  lemma RaiseByMinHeadroom(w: seq<real>, x: seq<real>, cycle: seq<nat>)
    requires |w| == |x| && |cycle| > 0 && forall k :: 0 <= k < |cycle| ==> cycle[k] < |x|
    ensures var hs := Headrooms(w, x, cycle);
            var i := ArgMin(hs);
            var r := Raised(x, cycle, hs[i]);
            && |r| == |x|
            && r[cycle[i]] == w[cycle[i]]
            && (forall v :: 0 <= v < |x| && v !in cycle ==> r[v] == x[v])
            && ((forall v :: 0 <= v < |x| ==> 0.0 <= x[v] <= w[v]) ==>
                  forall v :: 0 <= v < |x| ==> x[v] <= r[v] <= w[v])
  {
    var hs := Headrooms(w, x, cycle);
    var i := ArgMin(hs);
    var r := Raised(x, cycle, hs[i]);
    assert cycle[i] in cycle;
    if forall v :: 0 <= v < |x| ==> 0.0 <= x[v] <= w[v] {
      forall v | 0 <= v < |x| ensures x[v] <= r[v] <= w[v] {
        if v in cycle {
          var k :| 0 <= k < |cycle| && cycle[k] == v;
          assert hs[i] <= hs[k];
        }
      }
    }
  }

  /** `x[cycle] += h`, in place. */
  method RaiseDuals(x: array<real>, cycle: seq<nat>, h: real)
    requires forall k :: 0 <= k < |cycle| ==> cycle[k] < x.Length
    requires Distinct(cycle)
    modifies x
    ensures x[..] == Raised(old(x[..]), cycle, h)
  {
    ghost var x0 := x[..];
    for k := 0 to |cycle|
      invariant forall v :: 0 <= v < x.Length ==> x[v] == if v in cycle[..k] then x0[v] + h else x0[v]
    {
      assert forall l :: 0 <= l < k ==> cycle[l] != cycle[k];
      assert cycle[..k + 1] == cycle[..k] + [cycle[k]];
      x[cycle[k]] := x[cycle[k]] + h;
    }
    assert cycle[..|cycle|] == cycle;
  }

  // ---------------------------------------------------------------------
  // Validity of the returned set

  /** No vertex of `c` is in `F`. */
  ghost predicate Avoids(c: seq<nat>, F: seq<nat>)
  {
    forall k :: 0 <= k < |c| ==> c[k] !in F
  }

  /** Every cycle of the original graph `m0` that avoids `F` is still a cycle of `m`. */
  ghost predicate CyclesSurvive(m0: Matrix, F: seq<nat>, m: Matrix)
    requires IsSquare(m0) && IsSquare(m)
  {
    forall c :: IsCycle(m0, c) && Avoids(c, F) ==> IsCycle(m, c)
  }

  /**
   * One round of the loop keeps the cycles that avoid the grown set: the
   * chosen vertex is disconnected, which keeps every cycle avoiding it, and
   * pruning leaves keeps every cycle.
   */
  lemma RoundKeepsCycles(m0: Matrix, F: seq<nat>, before: Matrix, v: nat, removed: seq<nat>)
    requires IsSquare(m0) && IsSimpleGraph(before) && v < |before| && CyclesSurvive(m0, F, before)
    requires forall k :: 0 <= k < |removed| ==> removed[k] < |before|
    requires LeafSequence(Disconnect(before, v), removed)
    ensures CyclesSurvive(m0, F + [v], DisconnectAll(Disconnect(before, v), removed))
  {
    var cut := Disconnect(before, v);
    DisconnectFacts(before, v);
    PruneKeepsCycles(cut, removed);
    forall c | IsCycle(m0, c) && Avoids(c, F + [v])
      ensures IsCycle(DisconnectAll(cut, removed), c)
    {
      assert Avoids(c, F) by {
        forall k | 0 <= k < |c| ensures c[k] !in F {
          assert c[k] !in F + [v];
        }
      }
      forall k | 0 <= k < |c| ensures c[k] != v {
        assert c[k] !in F + [v];
      }
      DisconnectKeepsCycle(before, v, c);
    }
  }

  /** Vertices without neighbours keep none in a subgraph. */
  lemma IsolatedStayIsolated(a: Matrix, b: Matrix, F: seq<nat>)
    requires IsSquare(a) && IsSquare(b) && |a| == |b| && SubgraphOf(a, b)
    requires forall k :: 0 <= k < |F| ==> F[k] < |b| && Degree(b, F[k]) == 0
    ensures forall k :: 0 <= k < |F| ==> F[k] < |a| && Degree(a, F[k]) == 0
  {
    forall k | 0 <= k < |F| ensures Degree(a, F[k]) == 0 {
      SubgraphDegree(a, b, F[k]);
    }
  }

  /** Every vertex that `find_cycle` returns lies on the cycle, so it has two neighbours. */
  lemma SplitFormVertices(m: Matrix, c: seq<nat>, split: nat)
    requires IsSimpleGraph(m) && 0 < split <= |c| && IsCycle(m, c[..split] + Reversed(c[split..]))
    ensures forall k :: 0 <= k < |c| ==> c[k] < |m| && Degree(m, c[k]) >= 2
  {
    var o := c[..split] + Reversed(c[split..]);
    forall k | 0 <= k < |c| ensures c[k] < |m| && Degree(m, c[k]) >= 2 {
      var l := if k < split then k else split + (|c| - 1 - k);
      assert o[l] == c[k];
      CycleVertexDegree(m, o, l);
    }
  }

  /** Disconnecting the vertices of `vs` leaves a simple subgraph in which they have no neighbours. */
  lemma {:induction false} DisconnectAllFacts(m: Matrix, vs: seq<nat>)
    requires IsSimpleGraph(m) && forall k :: 0 <= k < |vs| ==> vs[k] < |m|
    ensures IsSimpleGraph(DisconnectAll(m, vs)) && SubgraphOf(DisconnectAll(m, vs), m)
    ensures forall k :: 0 <= k < |vs| ==> Degree(DisconnectAll(m, vs), vs[k]) == 0
  {
    if vs != [] {
      var init := vs[..|vs| - 1];
      var v := vs[|vs| - 1];
      DisconnectAllFacts(m, init);
      var before := DisconnectAll(m, init);
      DisconnectFacts(before, v);
      var after := Disconnect(before, v);
      forall k | 0 <= k < |vs| ensures Degree(after, vs[k]) == 0 {
        if k < |vs| - 1 {
          assert vs[k] == init[k];
          SubgraphDegree(after, before, vs[k]);
        }
      }
    }
  }

  /**
   * A set of vertices that meets every cycle of a graph is a feedback vertex
   * set: deleting its vertices leaves the graph acyclic.
   */
  lemma HittingSetIsFeedback(m0: Matrix, F: seq<nat>)
    requires IsSimpleGraph(m0) && forall k :: 0 <= k < |F| ==> F[k] < |m0|
    requires forall c :: IsCycle(m0, c) ==> !Avoids(c, F)
    ensures Acyclic(DisconnectAll(m0, F))
  {
    var d := DisconnectAll(m0, F);
    DisconnectAllFacts(m0, F);
    forall c ensures !IsCycle(d, c) {
      if IsCycle(d, c) {
        assert IsCycle(m0, c);
        var k :| 0 <= k < |c| && c[k] in F;
        var l :| 0 <= l < |F| && F[l] == c[k];
        CycleVertexDegree(d, c, k);
      }
    }
  }

  // ---------------------------------------------------------------------
  // The driver

  /** `np.copy(G)`. */
  method CopyMatrix(G0: array2<bool>) returns (G: array2<bool>)
    requires G0.Length0 == G0.Length1
    ensures fresh(G) && G.Length0 == G.Length1 == G0.Length0
    ensures Snap(G) == Snap(G0)
  {
    G := new bool[G0.Length0, G0.Length1]((i, j) reads G0 =>
      if 0 <= i < G0.Length0 && 0 <= j < G0.Length1 then G0[i, j] else false);
    MatrixExt(Snap(G), Snap(G0));
  }

  /** The graph half of the loop invariant of `feedback_vertex`. */
  ghost predicate GraphInv(m0: Matrix, F: seq<nat>, m: Matrix)
  {
    && IsSquare(m0) && IsSimpleGraph(m) && |m| == |m0| && NoLeaf(m)
    && CyclesSurvive(m0, F, m)
    && Distinct(F)
    && (forall k :: 0 <= k < |F| ==> F[k] < |m| && Degree(m, F[k]) == 0)
  }

  /** The dual half: every chosen vertex is tight, and duals stay within the weights. */
  ghost predicate DualInv(w: seq<real>, F: seq<nat>, x: seq<real>)
  {
    && |w| == |x|
    && (forall k :: 0 <= k < |F| ==> F[k] < |x| && x[F[k]] == w[F[k]])
    && ((forall v :: 0 <= v < |w| ==> w[v] >= 0.0) ==> forall v :: 0 <= v < |x| ==> 0.0 <= x[v] <= w[v])
  }

  /** The vertices already chosen have no neighbours, so none lies on the found cycle. */
  lemma ChosenOffCycle(m0: Matrix, F: seq<nat>, m: Matrix, cycle: seq<nat>, split: nat)
    requires GraphInv(m0, F, m)
    requires 0 < split <= |cycle| && IsCycle(m, cycle[..split] + Reversed(cycle[split..]))
    ensures forall k :: 0 <= k < |F| ==> F[k] !in cycle
  {
    SplitFormVertices(m, cycle, split);
    forall k, l | 0 <= k < |F| && 0 <= l < |cycle| ensures cycle[l] != F[k] {
    }
  }

  /** Disconnecting a vertex that has a neighbour, then pruning, removes an edge. */
  lemma RoundShrinks(before: Matrix, v: nat, removed: seq<nat>)
    requires IsSimpleGraph(before) && v < |before| && Degree(before, v) > 0
    requires forall k :: 0 <= k < |removed| ==> removed[k] < |before|
    requires LeafSequence(Disconnect(before, v), removed)
    ensures Edges(DisconnectAll(Disconnect(before, v), removed)) < Edges(before)
  {
    DisconnectFacts(before, v);
    DisconnectShrinks(before, v);
    PruneKeepsCycles(Disconnect(before, v), removed);
    SubgraphEdges(DisconnectAll(Disconnect(before, v), removed), Disconnect(before, v));
  }

  /** A vertex with neighbours is not among the isolated chosen ones, so adding it keeps them distinct. */
  lemma GrownDistinct(m: Matrix, F: seq<nat>, v: nat)
    requires IsSquare(m) && Distinct(F) && v < |m| && Degree(m, v) > 0
    requires forall k :: 0 <= k < |F| ==> F[k] < |m| && Degree(m, F[k]) == 0
    ensures Distinct(F + [v])
  {
    assert v !in F;
  }

  /** After a round the chosen vertices, the new one included, have no neighbours. */
  lemma GrownIsolated(before: Matrix, F: seq<nat>, v: nat, removed: seq<nat>)
    requires IsSimpleGraph(before) && v < |before|
    requires forall k :: 0 <= k < |F| ==> F[k] < |before| && Degree(before, F[k]) == 0
    requires forall k :: 0 <= k < |removed| ==> removed[k] < |before|
    requires LeafSequence(Disconnect(before, v), removed)
    ensures var after := DisconnectAll(Disconnect(before, v), removed);
            forall k :: 0 <= k < |F + [v]| ==> (F + [v])[k] < |after| && Degree(after, (F + [v])[k]) == 0
  {
    var cut := Disconnect(before, v);
    var after := DisconnectAll(cut, removed);
    var grown := F + [v];
    DisconnectFacts(before, v);
    PruneKeepsCycles(cut, removed);
    IsolatedStayIsolated(cut, before, F);
    forall k | 0 <= k < |grown| ensures grown[k] < |cut| && Degree(cut, grown[k]) == 0 {
      if k < |F| {
        assert grown[k] == F[k];
      }
    }
    IsolatedStayIsolated(after, cut, grown);
  }

  /**
   * One round on the graph: disconnecting a vertex of the found cycle and
   * pruning keeps the graph invariant for the grown set.
   */
  lemma GraphRound(m0: Matrix, F: seq<nat>, before: Matrix, v: nat, removed: seq<nat>)
    requires GraphInv(m0, F, before) && v < |before| && Degree(before, v) >= 2
    requires forall k :: 0 <= k < |removed| ==> removed[k] < |before|
    requires LeafSequence(Disconnect(before, v), removed)
    requires NoLeaf(DisconnectAll(Disconnect(before, v), removed))
    ensures GraphInv(m0, F + [v], DisconnectAll(Disconnect(before, v), removed))
  {
    DisconnectFacts(before, v);
    PruneKeepsCycles(Disconnect(before, v), removed);
    RoundKeepsCycles(m0, F, before, v, removed);
    GrownDistinct(before, F, v);
    GrownIsolated(before, F, v, removed);
  }

  /** One round on the duals: the chosen vertex becomes tight and the bounds are kept. */
  lemma DualRound(w: seq<real>, F: seq<nat>, x: seq<real>, cycle: seq<nat>)
    requires DualInv(w, F, x) && |cycle| > 0
    requires forall k :: 0 <= k < |cycle| ==> cycle[k] < |x|
    requires forall k :: 0 <= k < |F| ==> F[k] !in cycle
    ensures var hs := Headrooms(w, x, cycle);
            var i := ArgMin(hs);
            DualInv(w, F + [cycle[i]], Raised(x, cycle, hs[i]))
  {
    var hs := Headrooms(w, x, cycle);
    var i := ArgMin(hs);
    RaiseByMinHeadroom(w, x, cycle);
    var r := Raised(x, cycle, hs[i]);
    forall k | 0 <= k < |F| + 1 ensures (F + [cycle[i]])[k] < |r| && r[(F + [cycle[i]])[k]] == w[(F + [cycle[i]])[k]] {
      if k < |F| {
        assert r[F[k]] == x[F[k]];
      }
    }
  }

  /**
   * The dual step of a round: `x[cycle] += min(headrooms)`, returning the
   * first cycle vertex whose headroom was smallest.
   */
  method RaiseCycle(x: array<real>, w: seq<real>, cycle: seq<nat>) returns (vertexMet: nat)
    requires |w| == x.Length && |cycle| > 0 && Distinct(cycle)
    requires forall k :: 0 <= k < |cycle| ==> cycle[k] < x.Length
    modifies x
    ensures var hs := Headrooms(w, old(x[..]), cycle);
            && vertexMet == cycle[ArgMin(hs)]
            && x[..] == Raised(old(x[..]), cycle, hs[ArgMin(hs)])
  {
    var headrooms := Headrooms(w, x[..], cycle);
    var i := ArgMin(headrooms);
    RaiseDuals(x, cycle, headrooms[i]);
    vertexMet := cycle[i];
  }

  /**
   * The graph step of a round: disconnect the chosen vertex, then prune the
   * vertices of degree 1 as the loop test `remove_vertices(G)` does.
   */
  method CutAndPrune(G: array2<bool>, v: nat) returns (remains: bool, ghost removed: seq<nat>)
    requires G.Length0 == G.Length1 && IsSimpleGraph(Snap(G)) && v < G.Length0
    modifies G
    ensures forall k :: 0 <= k < |removed| ==> removed[k] < G.Length0
    ensures LeafSequence(Disconnect(old(Snap(G)), v), removed)
    ensures Snap(G) == DisconnectAll(Disconnect(old(Snap(G)), v), removed)
    ensures NoLeaf(Snap(G)) && (remains <==> HasEdge(Snap(G)))
  {
    DisconnectFacts(Snap(G), v);
    DisconnectVertex(G, v);
    remains, removed := RemoveVertices(G);
  }

  /**
   * One iteration of the loop of `feedback_vertex` after pruning left an
   * edge: find a cycle, raise its duals by the smallest headroom, disconnect
   * the first vertex met with equality, and prune again.
   */
  method Round(G: array2<bool>, x: array<real>, w: seq<real>, ghost m0: Matrix, ghost F: seq<nat>)
    returns (vertexMet: nat, remains: bool)
    requires G.Length0 == G.Length1 && |w| == G.Length0
    requires GraphInv(m0, F, Snap(G)) && DualInv(w, F, x[..]) && HasEdge(Snap(G))
    modifies G, x
    ensures GraphInv(m0, F + [vertexMet], Snap(G)) && DualInv(w, F + [vertexMet], x[..])
    ensures remains <==> HasEdge(Snap(G))
    ensures Edges(Snap(G)) < Edges(old(Snap(G)))
  {
    ghost var before := Snap(G);
    ghost var x0 := x[..];
    var r, split := FindCycle(G);
    assert Snap(G) == before;
    var cycle := r.value;
    SplitFormVertices(before, cycle, split);
    ChosenOffCycle(m0, F, before, cycle, split);
    vertexMet := RaiseCycle(x, w, cycle);
    assert Snap(G) == before;
    ghost var x1 := x[..];
    ghost var removed;
    remains, removed := CutAndPrune(G, vertexMet);
    assert x[..] == x1;
    GraphRound(m0, F, before, vertexMet, removed);
    RoundShrinks(before, vertexMet, removed);
    DualRound(w, F, x0, cycle);
  }

  /**
   * `feedback_vertex(G, w)`. Returns distinct vertices `F` that meet every
   * cycle of the graph, so that deleting them leaves it acyclic; the caller's
   * matrix is left as it was. The final duals `x` (ghost) are tight on `F`
   * and, for non-negative weights, lie between 0 and the weights.
   */
  method FeedbackVertex(G0: array2<bool>, w: seq<real>) returns (F: seq<nat>, ghost x: seq<real>)
    requires G0.Length0 == G0.Length1 && IsSimpleGraph(Snap(G0)) && |w| == G0.Length0
    ensures Snap(G0) == old(Snap(G0))
    ensures Distinct(F) && forall k :: 0 <= k < |F| ==> F[k] < G0.Length0
    ensures forall c :: IsCycle(Snap(G0), c) ==> !Avoids(c, F)
    ensures Acyclic(DisconnectAll(Snap(G0), F))
    ensures |x| == |w| && forall k :: 0 <= k < |F| ==> x[F[k]] == w[F[k]]
    ensures (forall v :: 0 <= v < |w| ==> w[v] >= 0.0) ==> forall v :: 0 <= v < |w| ==> 0.0 <= x[v] <= w[v]
  {
    ghost var m0 := Snap(G0);
    var n := G0.Length0;
    var G := CopyMatrix(G0);
    F := [];
    var xs := new real[n](_ => 0.0);
    var remains;
    ghost var removed;
    remains, removed := RemoveVertices(G);
    PruneKeepsCycles(m0, removed);
    assert GraphInv(m0, F, Snap(G));
    while remains
      invariant fresh(G) && fresh(xs) && G.Length0 == G.Length1 == n && xs.Length == n
      invariant Snap(G0) == m0
      invariant GraphInv(m0, F, Snap(G)) && DualInv(w, F, xs[..])
      invariant remains <==> HasEdge(Snap(G))
      decreases Edges(Snap(G))
    {
      var vertexMet;
      vertexMet, remains := Round(G, xs, w, m0, F);
      F := F + [vertexMet];
    }
    HittingSetIsFeedback(m0, F);
    x := xs[..];
  }
}
