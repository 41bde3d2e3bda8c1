/**
 * Undirected simple graphs given as n-by-n adjacency matrices, the input
 * form of the feedback vertex set approximation (feedback_vertex_set/feedback.py).
 * An entry is 0 or 1 in the source; it is a `bool` here. The matrix is
 * symmetric with a zero diagonal, and the degree of a vertex is its row sum,
 * that is, the number of its neighbours.
 *
 * "Removing" a vertex never renumbers anything: the vertex is disconnected by
 * zeroing its row and its column.
 */
module AdjacencyMatrix {

  type Matrix = seq<seq<bool>>

  predicate IsSquare(m: Matrix)
  {
    forall i :: 0 <= i < |m| ==> |m[i]| == |m|
  }

  /** Symmetric, loop-free 0/1 matrix: the graphs the algorithm is given. */
  predicate IsSimpleGraph(m: Matrix)
  {
    && IsSquare(m)
    && (forall i, j :: 0 <= i < |m| && 0 <= j < |m| ==> m[i][j] == m[j][i])
    && (forall i :: 0 <= i < |m| ==> !m[i][i])
  }

  /** The current contents of a matrix held in an array. */
  ghost function Snap(G: array2<bool>): (m: Matrix)
    reads G
    ensures |m| == G.Length0
    ensures forall i :: 0 <= i < G.Length0 ==> |m[i]| == G.Length1
    ensures forall i, j :: 0 <= i < G.Length0 && 0 <= j < G.Length1 ==> m[i][j] == G[i, j]
  {
    seq(G.Length0, i requires 0 <= i < G.Length0 reads G =>
      seq(G.Length1, j requires 0 <= j < G.Length1 reads G => G[i, j]))
  }

  /** Two matrices with the same shape and the same entries are equal. */
  lemma MatrixExt(a: Matrix, b: Matrix)
    requires IsSquare(a) && IsSquare(b) && |a| == |b|
    requires forall i, j :: 0 <= i < |a| && 0 <= j < |a| ==> a[i][j] == b[i][j]
    ensures a == b
  {
    forall i | 0 <= i < |a| ensures a[i] == b[i] {
      assert |a[i]| == |b[i]|;
    }
  }

  function Neighbours(m: Matrix, v: nat): set<nat>
    requires IsSquare(m) && v < |m|
  {
    set j: nat | j < |m| && m[v][j]
  }

  /** Row sum of a 0/1 row: the number of neighbours. */
  function Degree(m: Matrix, v: nat): nat
    requires IsSquare(m) && v < |m|
  {
    |Neighbours(m, v)|
  }

  /** The matrix with row `v` and column `v` zeroed. */
  function Disconnect(m: Matrix, v: nat): Matrix
    requires IsSquare(m) && v < |m|
  {
    seq(|m|, i requires 0 <= i < |m| =>
      seq(|m|, j requires 0 <= j < |m| => m[i][j] && i != v && j != v))
  }

  /** The directed edge set, i.e. the positions of the 1 entries. */
  ghost function Edges(m: Matrix): set<(nat, nat)>
    requires IsSquare(m)
  {
    set i: nat, j: nat | i < |m| && j < |m| && m[i][j] :: (i, j)
  }

  predicate HasEdge(m: Matrix)
    requires IsSquare(m)
  {
    exists i, j :: 0 <= i < |m| && 0 <= j < |m| && m[i][j]
  }

  /** Every entry of `a` is also an entry of `b`. */
  predicate SubgraphOf(a: Matrix, b: Matrix)
    requires IsSquare(a) && IsSquare(b) && |a| == |b|
  {
    forall i, j :: 0 <= i < |a| && 0 <= j < |a| && a[i][j] ==> b[i][j]
  }

  predicate Distinct(c: seq<nat>)
  {
    forall k, l :: 0 <= k < l < |c| ==> c[k] != c[l]
  }

  /**
   * A simple cycle in the given order: at least three distinct vertices, each
   * adjacent to the next and the last adjacent to the first.
   */
  predicate IsCycle(m: Matrix, c: seq<nat>)
    requires IsSquare(m)
  {
    && |c| >= 3
    && (forall k :: 0 <= k < |c| ==> c[k] < |m|)
    && Distinct(c)
    && (forall k :: 0 <= k < |c| - 1 ==> m[c[k]][c[k + 1]])
    && m[c[|c| - 1]][c[0]]
  }

  /** A simple path: distinct vertices in range, each adjacent to the next. */
  ghost predicate IsSimplePath(m: Matrix, p: seq<nat>)
    requires IsSquare(m)
  {
    && (forall k :: 0 <= k < |p| ==> p[k] < |m|)
    && Distinct(p)
    && (forall k :: 0 <= k < |p| - 1 ==> m[p[k]][p[k + 1]])
  }

  ghost predicate Acyclic(m: Matrix)
    requires IsSquare(m)
  {
    forall c :: !IsCycle(m, c)
  }

  // ---------------------------------------------------------------------
  // Counting

  lemma {:induction false} SubsetCard<T>(a: set<T>, b: set<T>)
    requires a <= b
    ensures |a| <= |b|
    decreases a
  {
    if a != {} {
      var x :| x in a;
      SubsetCard(a - {x}, b - {x});
    }
  }

  /** The vertex ids 0 .. n-1. */
  function Below(n: nat): (r: set<nat>)
    ensures forall v: nat :: v in r <==> v < n
    ensures |r| == n
  {
    if n == 0 then {} else Below(n - 1) + {n - 1}
  }

  /** Pigeonhole: distinct vertices below n number at most n. */
  lemma DistinctBound(c: seq<nat>, n: nat)
    requires Distinct(c)
    requires forall k :: 0 <= k < |c| ==> c[k] < n
    ensures |c| <= n
  {
    var elems := set k | 0 <= k < |c| :: c[k];
    SeqSetCard(c);
    assert elems <= Below(n);
    SubsetCard(elems, Below(n));
  }

  lemma {:induction false} SeqSetCard(c: seq<nat>)
    requires Distinct(c)
    ensures |set k | 0 <= k < |c| :: c[k]| == |c|
  {
    if c != [] {
      var init := c[..|c| - 1];
      SeqSetCard(init);
      var s := set k | 0 <= k < |init| :: init[k];
      assert (set k | 0 <= k < |c| :: c[k]) == s + {c[|c| - 1]};
      assert c[|c| - 1] !in s;
    }
  }

  // ---------------------------------------------------------------------
  // Degrees

  /** A vertex with degree 2 and two distinct known neighbours has no other. */
  lemma DegreeTwoPinned(m: Matrix, v: nat, a: nat, b: nat, c: nat)
    requires IsSquare(m) && v < |m| && a < |m| && b < |m| && c < |m|
    requires Degree(m, v) == 2
    requires a != b && m[v][a] && m[v][b] && m[v][c]
    ensures c == a || c == b
  {
    if c != a && c != b {
      SubsetCard({a, b, c}, Neighbours(m, v));
    }
  }

  /** A vertex of degree at least 2 has a neighbour besides any given one. */
  lemma OtherNeighbour(m: Matrix, v: nat, p: int) returns (j: nat)
    requires IsSquare(m) && v < |m|
    requires Degree(m, v) >= 2
    ensures j < |m| && m[v][j] && j != p
  {
    var ns := Neighbours(m, v);
    var others := set k | k in ns && k != p;
    if others == {} {
      assert ns <= (if p >= 0 then {p as nat} else {});
      SubsetCard(ns, if p >= 0 then {p as nat} else {});
    }
    j :| j in others;
  }

  /** A vertex with a neighbour has degree at least 1. */
  lemma NeighbourDegree(m: Matrix, v: nat, j: nat)
    requires IsSquare(m) && v < |m| && j < |m| && m[v][j]
    ensures Degree(m, v) >= 1
  {
    assert j in Neighbours(m, v);
  }

  /** Removing edges never raises a degree. */
  lemma SubgraphDegree(a: Matrix, b: Matrix, v: nat)
    requires IsSquare(a) && IsSquare(b) && |a| == |b| && v < |a|
    requires SubgraphOf(a, b)
    ensures Degree(a, v) <= Degree(b, v)
  {
    SubsetCard(Neighbours(a, v), Neighbours(b, v));
  }

  /** Every vertex on a cycle has at least two neighbours. */
  lemma CycleVertexDegree(m: Matrix, c: seq<nat>, k: nat)
    requires IsSimpleGraph(m) && IsCycle(m, c) && k < |c|
    ensures Degree(m, c[k]) >= 2
  {
    var before := if k == 0 then c[|c| - 1] else c[k - 1];
    var after := if k == |c| - 1 then c[0] else c[k + 1];
    assert m[before][c[k]];
    assert m[c[k]][after];
    assert before != after;
    SubsetCard({before, after}, Neighbours(m, c[k]));
  }

  // ---------------------------------------------------------------------
  // Disconnecting a vertex

  /**
   * Zeroing row and column `v` keeps the matrix a simple graph, leaves `v`
   * without neighbours, never adds an entry, and changes no entry outside
   * row and column `v`.
   */
  lemma DisconnectFacts(m: Matrix, v: nat)
    requires IsSimpleGraph(m) && v < |m|
    ensures IsSimpleGraph(Disconnect(m, v)) && |Disconnect(m, v)| == |m|
    ensures Degree(Disconnect(m, v), v) == 0
    ensures SubgraphOf(Disconnect(m, v), m)
    ensures forall i, j :: 0 <= i < |m| && 0 <= j < |m| && i != v && j != v ==>
              Disconnect(m, v)[i][j] == m[i][j]
  {
    var r := Disconnect(m, v);
    assert Neighbours(r, v) == {};
  }

  /** Disconnecting a vertex that has a neighbour removes at least one edge. */
  lemma DisconnectShrinks(m: Matrix, v: nat)
    requires IsSimpleGraph(m) && v < |m| && Degree(m, v) > 0
    ensures Edges(Disconnect(m, v)) < Edges(m)
  {
    var r := Disconnect(m, v);
    var j :| j in Neighbours(m, v);
    assert (v, j) in Edges(m);
    assert (v, j) !in Edges(r);
    assert Edges(r) <= Edges(m);
  }

  /** A subgraph has no more edges. */
  lemma SubgraphEdges(a: Matrix, b: Matrix)
    requires IsSquare(a) && IsSquare(b) && |a| == |b| && SubgraphOf(a, b)
    ensures Edges(a) <= Edges(b)
  {
  }

  /** A vertex has positive degree exactly when its row holds a 1. */
  lemma DegreePositive(m: Matrix, v: nat)
    requires IsSquare(m) && v < |m|
    ensures Degree(m, v) > 0 <==> exists j :: 0 <= j < |m| && m[v][j]
  {
    if Degree(m, v) > 0 {
      var j :| j in Neighbours(m, v);
    }
    if j :| 0 <= j < |m| && m[v][j] {
      NeighbourDegree(m, v, j);
    }
  }

  /** A cycle that avoids `v` survives the disconnection of `v`. */
  lemma DisconnectKeepsCycle(m: Matrix, v: nat, c: seq<nat>)
    requires IsSimpleGraph(m) && v < |m| && IsCycle(m, c)
    requires forall k :: 0 <= k < |c| ==> c[k] != v
    ensures IsCycle(Disconnect(m, v), c)
  {
  }

  /**
   * A vertex of degree at most 1 lies on no cycle, so disconnecting it keeps
   * every cycle of the graph.
   */
  lemma DisconnectLeafKeepsCycles(m: Matrix, v: nat)
    requires IsSimpleGraph(m) && v < |m| && Degree(m, v) <= 1
    ensures forall c :: IsCycle(m, c) ==> IsCycle(Disconnect(m, v), c)
  {
    forall c | IsCycle(m, c) ensures IsCycle(Disconnect(m, v), c) {
      forall k | 0 <= k < |c| ensures c[k] != v {
        CycleVertexDegree(m, c, k);
      }
      DisconnectKeepsCycle(m, v, c);
    }
  }

  /** With no entry left, no vertex has a neighbour and no cycle exists. */
  lemma EmptyAcyclic(m: Matrix)
    requires IsSquare(m) && !HasEdge(m)
    ensures Acyclic(m)
  {
  }

  // ---------------------------------------------------------------------
  // The array operations the source performs with numpy

  /** `G.sum(1)`: the degree of every vertex. */
  method Degrees(G: array2<bool>) returns (deg: seq<nat>)
    requires G.Length0 == G.Length1
    ensures |deg| == G.Length0
    ensures forall v :: 0 <= v < |deg| ==> deg[v] == Degree(Snap(G), v)
  {
    ghost var m := Snap(G);
    var n := G.Length0;
    deg := [];
    for v := 0 to n
      invariant |deg| == v
      invariant forall u :: 0 <= u < v ==> deg[u] == Degree(m, u)
    {
      var count := 0;
      for j := 0 to n
        invariant count == |set k: nat | k < j && m[v][k]|
      {
        ghost var before := set k: nat | k < j && m[v][k];
        if G[v, j] {
          assert (set k: nat | k < j + 1 && m[v][k]) == before + {j};
          count := count + 1;
        } else {
          assert (set k: nat | k < j + 1 && m[v][k]) == before;
        }
      }
      deg := deg + [count];
    }
  }

  /** `[i for i, j in enumerate(G[v]) if j == 1 and i != ex]`, in index order. */
  method NeighboursExcept(G: array2<bool>, v: nat, ex: int) returns (ns: seq<nat>)
    requires G.Length0 == G.Length1 && v < G.Length0
    ensures forall k, l :: 0 <= k < l < |ns| ==> ns[k] < ns[l]
    ensures forall k :: 0 <= k < |ns| ==> ns[k] < G.Length0 && G[v, ns[k]] && ns[k] != ex
    ensures forall j :: 0 <= j < G.Length0 && G[v, j] && j != ex ==> j in ns
    ensures forall j :: 0 <= j < G.Length0 && Snap(G)[v][j] && j != ex ==> j in ns
  {
    ns := [];
    for j := 0 to G.Length0
      invariant forall k, l :: 0 <= k < l < |ns| ==> ns[k] < ns[l]
      invariant forall k :: 0 <= k < |ns| ==> ns[k] < j && G[v, ns[k]] && ns[k] != ex
      invariant forall i :: 0 <= i < j && G[v, i] && i != ex ==> i in ns
    {
      if G[v, j] && j != ex {
        ns := ns + [j];
      }
    }
  }

  /**
   * `[i for i, j in enumerate(G[v]) if j == 1 and i != ex][0]`: the lowest
   * neighbour of `v` other than `ex`, which exists once `v` has two neighbours.
   */
  method FirstNeighbourExcept(G: array2<bool>, v: nat, ex: int) returns (next: nat)
    requires G.Length0 == G.Length1 && v < G.Length0 && Degree(Snap(G), v) >= 2
    ensures next < G.Length0 && G[v, next] && next != ex
    ensures forall j :: 0 <= j < next && G[v, j] ==> j == ex
  {
    ghost var other := OtherNeighbour(Snap(G), v, ex);
    var ns := NeighboursExcept(G, v, ex);
    assert other in ns;
    next := ns[0];
  }

  /** `G[v] = 0; G[:, v] = 0`. */
  method DisconnectVertex(G: array2<bool>, v: nat)
    requires G.Length0 == G.Length1 && v < G.Length0
    modifies G
    ensures Snap(G) == Disconnect(old(Snap(G)), v)
  {
    ghost var m := Snap(G);
    var n := G.Length0;
    for j := 0 to n
      invariant forall a, b :: 0 <= a < n && 0 <= b < n ==>
                  G[a, b] == (m[a][b] && !((a == v && b < j) || (b == v && a < j)))
    {
      G[v, j] := false;
      G[j, v] := false;
    }
    MatrixExt(Snap(G), Disconnect(m, v));
  }
}
