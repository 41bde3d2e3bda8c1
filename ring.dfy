/**
 * `find_deg2_cycle` (feedback_vertex_set/feedback.py:85-117): when every
 * vertex has degree 0 or 2, walk from the lowest-index vertex of degree 2,
 * always to the first neighbour that is not the one just left, until the
 * walk comes back to its start.
 */
module RingWalk {
  import opened AdjacencyMatrix

  /** The state of the walk: a simple path of degree-2 vertices, and the vertex it came from. */
  ghost predicate WalkState(m: Matrix, p: seq<nat>, prev: int)
    requires IsSquare(m)
  {
    && |p| >= 1
    && IsSimplePath(m, p)
    && (forall k :: 0 <= k < |p| ==> Degree(m, p[k]) == 2)
    && prev == if |p| == 1 then -1 else p[|p| - 2]
  }

  /**
   * One step of the walk never revisits a vertex other than the start: every
   * inner vertex of the path already has both of its two neighbours on it.
   */
  lemma {:induction false} WalkStepIsFresh(m: Matrix, p: seq<nat>, prev: int, next: nat)
    requires IsSimpleGraph(m) && WalkState(m, p, prev) && next < |m|
    requires m[p[|p| - 1]][next] && next != prev && next != p[0]
    ensures forall k :: 0 <= k < |p| ==> p[k] != next
  {
    var last := |p| - 1;
    forall k | 0 <= k < |p| ensures p[k] != next {
      if p[k] == next {
        assert k != last;
        assert 0 < k < last;
        assert m[next][p[last]];
        DegreeTwoPinned(m, next, p[k - 1], p[k + 1], p[last]);
      }
    }
  }

  /** A step to a vertex other than the start extends the walk. */
  lemma RingStep(m: Matrix, p: seq<nat>, prev: int, next: nat)
    requires IsSimpleGraph(m) && WalkState(m, p, prev) && next < |m|
    requires forall v :: 0 <= v < |m| ==> Degree(m, v) == 0 || Degree(m, v) == 2
    requires m[p[|p| - 1]][next] && next != prev && next != p[0]
    ensures WalkState(m, p + [next], p[|p| - 1])
    ensures |p + [next]| <= |m|
  {
    WalkStepIsFresh(m, p, prev, next);
    NeighbourDegree(m, next, p[|p| - 1]);
    var q := p + [next];
    assert q[|q| - 2] == p[|p| - 1];
    DistinctBound(q, |m|);
  }

  /** A step back to the start closes a simple cycle. */
  lemma RingClose(m: Matrix, p: seq<nat>, prev: int)
    requires IsSimpleGraph(m) && WalkState(m, p, prev)
    requires m[p[|p| - 1]][p[0]] && p[0] != prev
    ensures IsCycle(m, p)
  {
  }

  /**
   * `for i, j in enumerate(degrees): if j == d: ... break`: the lowest index
   * holding `d`, when there is one.
   */
  method FirstOfDegree(degrees: seq<nat>, d: nat) returns (first: nat)
    requires d in degrees
    ensures first < |degrees| && degrees[first] == d
    ensures forall v :: 0 <= v < first ==> degrees[v] != d
  {
    first := 0;
    while degrees[first] != d
      invariant first < |degrees| && d in degrees[first..]
      invariant forall v :: 0 <= v < first ==> degrees[v] != d
      decreases |degrees| - first
    {
      assert degrees[first..] == [degrees[first]] + degrees[first + 1..];
      first := first + 1;
    }
  }

  /** The lowest-index vertex of degree 2, in a graph that has one. */
  method FirstDegreeTwo(G: array2<bool>) returns (first: nat)
    requires G.Length0 == G.Length1
    requires exists v :: 0 <= v < G.Length0 && Degree(Snap(G), v) == 2
    ensures first < G.Length0 && Degree(Snap(G), first) == 2
    ensures forall v :: 0 <= v < first ==> Degree(Snap(G), v) != 2
  {
    var degrees := Degrees(G);
    ghost var w :| 0 <= w < G.Length0 && Degree(Snap(G), w) == 2;
    assert degrees[w] == 2;
    first := FirstOfDegree(degrees, 2);
  }

  /**
   * Given a graph whose vertices all have degree 0 or 2 and at least one of
   * degree 2, returns a simple cycle (in walk order) that starts at the
   * lowest-index vertex of degree 2.
   */
  method FindDeg2Cycle(G: array2<bool>) returns (cycle: seq<nat>)
    requires G.Length0 == G.Length1 && IsSimpleGraph(Snap(G))
    requires forall v :: 0 <= v < G.Length0 ==> Degree(Snap(G), v) == 0 || Degree(Snap(G), v) == 2
    requires exists v :: 0 <= v < G.Length0 && Degree(Snap(G), v) == 2
    ensures IsCycle(Snap(G), cycle)
    ensures Degree(Snap(G), cycle[0]) == 2
    ensures forall v :: 0 <= v < cycle[0] ==> Degree(Snap(G), v) != 2
  {
    ghost var m := Snap(G);
    var n := G.Length0;
    var first := FirstDegreeTwo(G);
    cycle := [first];
    var current := first;
    var prev: int := -1;
    while true
      invariant WalkState(m, cycle, prev) && cycle[0] == first
      invariant current == cycle[|cycle| - 1]
      decreases n - |cycle|
    {
      var neighbor := FirstNeighbourExcept(G, current, prev);
      if neighbor == first {
        RingClose(m, cycle, prev);
        break;
      }
      RingStep(m, cycle, prev, neighbor);
      prev := current;
      current := neighbor;
      cycle := cycle + [current];
    }
  }
}
