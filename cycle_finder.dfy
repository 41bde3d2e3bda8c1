/**
 * `find_cycle` (feedback_vertex_set/feedback.py:66-83): in a graph without
 * vertices of degree 1, a ring walk when the highest degree is 2 and the
 * chain search otherwise.
 */
module CycleFinder {
  import opened AdjacencyMatrix
  import opened Sequences
  import opened Optional
  import opened RingWalk
  import opened SearchInvariant
  import opened ChainSearch

  /** `max(s)`: an entry of `s` that no entry exceeds. */
  function MaxOf(s: seq<nat>): (r: nat)
    requires |s| > 0
    ensures r in s
    ensures forall k :: 0 <= k < |s| ==> s[k] <= r
  {
    if |s| == 1 then s[0]
    else
      var rest := MaxOf(s[1..]);
      if s[0] >= rest then s[0] else rest
  }

  /** A cycle, in whichever order its vertices come, uses an edge. */
  lemma CycleHasEdge(m: Matrix, c: seq<nat>, split: nat)
    requires IsSquare(m) && 0 < split <= |c| && IsCycle(m, c[..split] + Reversed(c[split..]))
    ensures HasEdge(m)
  {
    var o := c[..split] + Reversed(c[split..]);
    assert m[o[0]][o[1]];
  }

  /** The ring walk's cycle, in walk order, is its own split form. */
  lemma WholeSplit(c: seq<nat>)
    ensures c[..|c|] + Reversed(c[|c|..]) == c
  {
    assert c[|c|..] == [];
  }

  /** When the highest degree is 2 and none is 1, every degree is 0 or 2, and one is 2. */
  lemma TopTwo(m: Matrix, degrees: seq<nat>)
    requires IsSquare(m) && NoLeaf(m) && |degrees| == |m| > 0
    requires forall v :: 0 <= v < |degrees| ==> degrees[v] == Degree(m, v)
    requires MaxOf(degrees) == 2
    ensures forall v :: 0 <= v < |m| ==> Degree(m, v) == 0 || Degree(m, v) == 2
    ensures exists v :: 0 <= v < |m| && Degree(m, v) == 2
  {
    var w :| w in degrees && w == MaxOf(degrees);
    var k :| 0 <= k < |degrees| && degrees[k] == w;
    assert Degree(m, k) == 2;
  }

  /** When no degree exceeds 2 yet the highest is not 2, and none is 1, no edge is left. */
  lemma TopNotTwo(m: Matrix, degrees: seq<nat>)
    requires IsSquare(m) && NoLeaf(m) && |degrees| == |m| > 0
    requires forall v :: 0 <= v < |degrees| ==> degrees[v] == Degree(m, v)
    requires MaxOf(degrees) != 2 && forall v :: 0 <= v < |m| ==> Degree(m, v) <= 2
    ensures !HasEdge(m)
  {
    var top := MaxOf(degrees);
    var k :| 0 <= k < |degrees| && degrees[k] == top;
    assert top <= 2;
    forall v | 0 <= v < |m| ensures !(exists j :: 0 <= j < |m| && m[v][j]) {
      assert degrees[v] == 0;
      DegreePositive(m, v);
    }
  }

  /**
   * `find_cycle(G)`, for a graph without vertices of degree 1 (and at least
   * one vertex, as `max` needs). Returns `None` exactly when no edge is
   * left; otherwise the vertices of a cycle, the part before `split`
   * followed by the rest read backwards. When no vertex has degree above 2
   * the ring walk gives the cycle in order (`split` is its length).
   */
  method FindCycle(G: array2<bool>) returns (r: Option<seq<nat>>, ghost split: nat)
    requires G.Length0 == G.Length1 && G.Length0 > 0 && IsSimpleGraph(Snap(G)) && NoLeaf(Snap(G))
    ensures r.None? <==> !HasEdge(Snap(G))
    ensures r.Some? ==> 0 < split <= |r.value| && Distinct(r.value)
    ensures r.Some? ==> IsCycle(Snap(G), r.value[..split] + Reversed(r.value[split..]))
    ensures r.Some? && (forall v :: 0 <= v < G.Length0 ==> Degree(Snap(G), v) <= 2) ==> split == |r.value|
  {
    ghost var m := Snap(G);
    var degrees := Degrees(G);
    if MaxOf(degrees) == 2 {
      TopTwo(m, degrees);
      var cycle := FindDeg2Cycle(G);
      split := |cycle|;
      WholeSplit(cycle);
      CycleHasEdge(m, cycle, split);
      r := Some(cycle);
    } else {
      r, split := FindDeg3Cycle(G);
      assert Snap(G) == m;
      if r.Some? {
        CycleHasEdge(m, r.value, split);
      } else {
        TopNotTwo(m, degrees);
      }
    }
  }
}
