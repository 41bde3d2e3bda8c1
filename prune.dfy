/**
 * Leaf pruning, `remove_vertices` (feedback_vertex_set/feedback.py:43-63):
 * repeatedly disconnect every vertex of degree 1 until none is left, in
 * place, and report whether any edge remains.
 */
module Pruning {
  import opened AdjacencyMatrix

  /** The matrix after disconnecting the vertices of `vs`, first to last. */
  function DisconnectAll(m: Matrix, vs: seq<nat>): (r: Matrix)
    requires IsSquare(m)
    requires forall k :: 0 <= k < |vs| ==> vs[k] < |m|
    ensures IsSquare(r) && |r| == |m|
  {
    if vs == [] then m else Disconnect(DisconnectAll(m, vs[..|vs| - 1]), vs[|vs| - 1])
  }

  /**
   * Each vertex of `vs` has at most one neighbour left when its turn comes:
   * only edges at degree-1 vertices are ever removed.
   */
  ghost predicate LeafSequence(m: Matrix, vs: seq<nat>)
    requires IsSquare(m)
    requires forall k :: 0 <= k < |vs| ==> vs[k] < |m|
  {
    forall k :: 0 <= k < |vs| ==> Degree(DisconnectAll(m, vs[..k]), vs[k]) <= 1
  }

  /**
   * Pruning leaves keeps a simple graph simple, only deletes entries, and
   * destroys no cycle: every cycle of the graph before is a cycle after.
   */
  lemma {:induction false} PruneKeepsCycles(m: Matrix, vs: seq<nat>)
    requires IsSimpleGraph(m)
    requires forall k :: 0 <= k < |vs| ==> vs[k] < |m|
    requires LeafSequence(m, vs)
    ensures IsSimpleGraph(DisconnectAll(m, vs))
    ensures SubgraphOf(DisconnectAll(m, vs), m)
    ensures forall c :: IsCycle(m, c) ==> IsCycle(DisconnectAll(m, vs), c)
  {
    if vs != [] {
      var init := vs[..|vs| - 1];
      var v := vs[|vs| - 1];
      assert LeafSequence(m, init) by {
        forall k | 0 <= k < |init| ensures Degree(DisconnectAll(m, init[..k]), init[k]) <= 1 {
          assert init[..k] == vs[..k];
        }
      }
      PruneKeepsCycles(m, init);
      var before := DisconnectAll(m, init);
      assert vs[..|vs| - 1] == init;
      DisconnectFacts(before, v);
      DisconnectLeafKeepsCycles(before, v);
    }
  }

  /** `[i for i, j in enumerate(degrees) if j == 1]`. */
  method DegreeOneVertices(deg: seq<nat>) returns (ones: seq<nat>)
    ensures forall k, l :: 0 <= k < l < |ones| ==> ones[k] < ones[l]
    ensures forall k :: 0 <= k < |ones| ==> ones[k] < |deg| && deg[ones[k]] == 1
    ensures forall v :: 0 <= v < |deg| && deg[v] == 1 ==> v in ones
  {
    ones := [];
    for v := 0 to |deg|
      invariant forall k, l :: 0 <= k < l < |ones| ==> ones[k] < ones[l]
      invariant forall k :: 0 <= k < |ones| ==> ones[k] < v && deg[ones[k]] == 1
      invariant forall u :: 0 <= u < v && deg[u] == 1 ==> u in ones
    {
      if deg[v] == 1 {
        ones := ones + [v];
      }
    }
  }

  /** Appending a vertex of degree at most 1 extends a leaf sequence. */
  lemma ExtendLeafSequence(m: Matrix, vs: seq<nat>, v: nat)
    requires IsSquare(m) && v < |m|
    requires forall k :: 0 <= k < |vs| ==> vs[k] < |m|
    requires LeafSequence(m, vs)
    requires Degree(DisconnectAll(m, vs), v) <= 1
    ensures LeafSequence(m, vs + [v])
    ensures DisconnectAll(m, vs + [v]) == Disconnect(DisconnectAll(m, vs), v)
  {
    var ws := vs + [v];
    assert ws[..|vs|] == vs;
    forall l | 0 <= l < |ws| ensures Degree(DisconnectAll(m, ws[..l]), ws[l]) <= 1 {
      if l < |vs| {
        assert ws[..l] == vs[..l];
      }
    }
  }

  /** Disconnecting one more vertex that had degree 1 at the start extends the leaf sequence and shrinks the graph. */
  lemma OnesStep(m0: Matrix, removed: seq<nat>, start: Matrix, before: Matrix, i: nat, first: bool)
    requires IsSquare(m0) && |start| == |m0| && i < |m0| && IsSquare(start) && Degree(start, i) == 1
    requires forall k :: 0 <= k < |removed| ==> removed[k] < |m0|
    requires before == DisconnectAll(m0, removed) && LeafSequence(m0, removed)
    requires IsSimpleGraph(before) && SubgraphOf(before, start)
    requires first ==> before == start
    requires !first ==> Edges(before) < Edges(start)
    ensures Disconnect(before, i) == DisconnectAll(m0, removed + [i]) && LeafSequence(m0, removed + [i])
    ensures IsSimpleGraph(Disconnect(before, i)) && SubgraphOf(Disconnect(before, i), start)
    ensures Edges(Disconnect(before, i)) < Edges(start)
  {
    SubgraphDegree(before, start, i);
    DisconnectFacts(before, i);
    SubgraphEdges(Disconnect(before, i), before);
    if first {
      DisconnectShrinks(before, i);
    }
    ExtendLeafSequence(m0, removed, i);
  }

  /**
   * `for i in ones: G[i] = 0; G[:, i] = 0`: one pass over the vertices that
   * had degree 1 when the pass began. Each still has degree at most 1 at its
   * turn, since the pass only removes edges.
   */
  method DisconnectOnes(G: array2<bool>, ones: seq<nat>, ghost m0: Matrix, ghost removed0: seq<nat>)
    returns (ghost removed: seq<nat>)
    requires G.Length0 == G.Length1 && IsSimpleGraph(Snap(G)) && IsSquare(m0)
    requires forall k :: 0 <= k < |ones| ==> ones[k] < G.Length0 && Degree(Snap(G), ones[k]) == 1
    requires forall k :: 0 <= k < |removed0| ==> removed0[k] < |m0|
    requires |m0| == G.Length0 && Snap(G) == DisconnectAll(m0, removed0) && LeafSequence(m0, removed0)
    modifies G
    ensures forall k :: 0 <= k < |removed| ==> removed[k] < G.Length0
    ensures Snap(G) == DisconnectAll(m0, removed) && LeafSequence(m0, removed)
    ensures IsSimpleGraph(Snap(G)) && SubgraphOf(Snap(G), old(Snap(G)))
    ensures |ones| > 0 ==> Edges(Snap(G)) < Edges(old(Snap(G)))
  {
    ghost var start := Snap(G);
    var n := G.Length0;
    removed := removed0;
    for k := 0 to |ones|
      invariant forall k :: 0 <= k < |removed| ==> removed[k] < n
      invariant Snap(G) == DisconnectAll(m0, removed) && LeafSequence(m0, removed)
      invariant IsSimpleGraph(Snap(G)) && SubgraphOf(Snap(G), start)
      invariant k == 0 ==> Snap(G) == start
      invariant k > 0 ==> Edges(Snap(G)) < Edges(start)
    {
      var i := ones[k];
      ghost var before := Snap(G);
      DisconnectVertex(G, i);
      OnesStep(m0, removed, start, before, i, k == 0);
      removed := removed + [i];
    }
  }

  /** `G.sum() != 0`, computed from the row sums. */
  method AnyEdge(G: array2<bool>, degrees: seq<nat>) returns (remains: bool)
    requires G.Length0 == G.Length1 && |degrees| == G.Length0
    requires forall v :: 0 <= v < |degrees| ==> degrees[v] == Degree(Snap(G), v)
    ensures remains <==> HasEdge(Snap(G))
  {
    var total := 0;
    for v := 0 to |degrees|
      invariant total == 0 <==> forall u :: 0 <= u < v ==> degrees[u] == 0
    {
      total := total + degrees[v];
    }
    remains := total != 0;
    forall v | 0 <= v < |degrees| {
      DegreePositive(Snap(G), v);
    }
  }

  /**
   * `remove_vertices(G)`. On return no vertex has degree 1, the result says
   * whether an edge remains, and the new matrix is the old one with a
   * sequence of leaves disconnected (`removed`, ghost). When the graph had no
   * degree-1 vertex to begin with nothing changes, so a second call is a no-op.
   */
  method RemoveVertices(G: array2<bool>) returns (remains: bool, ghost removed: seq<nat>)
    requires G.Length0 == G.Length1 && IsSimpleGraph(Snap(G))
    modifies G
    ensures forall k :: 0 <= k < |removed| ==> removed[k] < G.Length0
    ensures Snap(G) == DisconnectAll(old(Snap(G)), removed)
    ensures LeafSequence(old(Snap(G)), removed)
    ensures IsSimpleGraph(Snap(G))
    ensures forall v :: 0 <= v < G.Length0 ==> Degree(Snap(G), v) != 1
    ensures remains <==> HasEdge(Snap(G))
    ensures (forall v :: 0 <= v < G.Length0 ==> Degree(old(Snap(G)), v) != 1) ==>
              Snap(G) == old(Snap(G))
  {
    ghost var m0 := Snap(G);
    var n := G.Length0;
    var degrees := Degrees(G);
    removed := [];
    while 1 in degrees
      invariant |degrees| == n
      invariant forall v :: 0 <= v < n ==> degrees[v] == Degree(Snap(G), v)
      invariant forall k :: 0 <= k < |removed| ==> removed[k] < n
      invariant Snap(G) == DisconnectAll(m0, removed) && LeafSequence(m0, removed)
      invariant IsSimpleGraph(Snap(G))
      invariant (forall v :: 0 <= v < n ==> Degree(m0, v) != 1) ==> removed == []
      decreases Edges(Snap(G))
    {
      var ones := DegreeOneVertices(degrees);
      removed := DisconnectOnes(G, ones, m0, removed);
      degrees := Degrees(G);
    }
    remains := AnyEdge(G, degrees);
  }
}
