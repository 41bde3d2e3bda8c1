/**
 * Edge costs of the shortest s-t path problem (shortest_s-t_path/path.py):
 * `G[i][j]` is the cost of the edge from `i` to `j`, and `np.inf` marks a
 * missing edge. Walks, their costs, and the two facts the primal-dual method
 * rests on: a walk leaving a cut uses an edge that crosses it, and a
 * potential that no edge undercuts bounds the cost of every walk from below.
 */
module Costs {

  /** A matrix entry: a finite cost, or `np.inf` for no edge. */
  datatype Cost = Fin(value: real) | Inf

  /** Python's `a < b` on floats where `Inf` stands for infinity. */
  predicate CostLess(a: Cost, b: Cost)
  {
    a.Fin? && (b.Inf? || a.value < b.value)
  }

  /** `c - r` for a finite `r`: infinity stays infinity. */
  function Minus(c: Cost, r: real): Cost
  {
    match c
    case Fin(v) => Fin(v - r)
    case Inf => Inf
  }

  type CostMatrix = seq<seq<Cost>>

  predicate IsCostMatrix(G: CostMatrix)
  {
    forall i :: 0 <= i < |G| ==> |G[i]| == |G|
  }

  /** Every finite cost is non-negative. */
  predicate NonNegative(G: CostMatrix)
    requires IsCostMatrix(G)
  {
    forall i, j :: 0 <= i < |G| && 0 <= j < |G| && G[i][j].Fin? ==> G[i][j].value >= 0.0
  }

  /** `q` walks from `s` to `t` along edges of finite cost. */
  ghost predicate IsWalk(G: CostMatrix, q: seq<nat>, s: nat, t: nat)
    requires IsCostMatrix(G)
  {
    && |q| >= 1 && q[0] == s && q[|q| - 1] == t
    && (forall k :: 0 <= k < |q| ==> q[k] < |G|)
    && (forall k :: 0 <= k < |q| - 1 ==> G[q[k]][q[k + 1]].Fin?)
  }

  ghost predicate Reachable(G: CostMatrix, s: nat, t: nat)
    requires IsCostMatrix(G)
  {
    exists q :: IsWalk(G, q, s, t)
  }

  /** The sum of the edge costs along a walk. */
  ghost function WalkCost(G: CostMatrix, q: seq<nat>): real
    requires IsCostMatrix(G) && |q| >= 1 && IsWalk(G, q, q[0], q[|q| - 1])
    decreases |q|
  {
    if |q| == 1 then 0.0 else G[q[0]][q[1]].value + WalkCost(G, q[1..])
  }

  /**
   * A walk that starts inside a set of vertices and ends outside it uses an
   * edge of finite cost from a vertex inside to one outside.
   */
  lemma {:induction false} WalkLeavesCut(G: CostMatrix, q: seq<nat>, inside: set<nat>)
    requires IsCostMatrix(G) && |q| >= 1 && IsWalk(G, q, q[0], q[|q| - 1])
    requires q[0] in inside && q[|q| - 1] !in inside
    ensures exists k :: 0 <= k < |q| - 1 && q[k] in inside && q[k + 1] !in inside && G[q[k]][q[k + 1]].Fin?
  {
    if q[1] !in inside {
      assert G[q[0]][q[1]].Fin?;
    } else {
      var rest := q[1..];
      assert IsWalk(G, rest, rest[0], rest[|rest| - 1]);
      WalkLeavesCut(G, rest, inside);
      var k :| 0 <= k < |rest| - 1 && rest[k] in inside && rest[k + 1] !in inside && G[rest[k]][rest[k + 1]].Fin?;
      assert q[k + 1] == rest[k] && q[k + 2] == rest[k + 1];
    }
  }

  /** No edge of finite cost rises by more than its cost under the potential `pot`. */
  ghost predicate Feasible(G: CostMatrix, pot: seq<real>)
    requires IsCostMatrix(G)
  {
    |pot| == |G| &&
    forall i, j :: 0 <= i < |G| && 0 <= j < |G| && G[i][j].Fin? ==> pot[j] - pot[i] <= G[i][j].value
  }

  /** Under a feasible potential every walk costs at least the rise of the potential along it. */
  lemma {:induction false} PotentialBound(G: CostMatrix, pot: seq<real>, q: seq<nat>)
    requires IsCostMatrix(G) && Feasible(G, pot) && |q| >= 1 && IsWalk(G, q, q[0], q[|q| - 1])
    ensures WalkCost(G, q) >= pot[q[|q| - 1]] - pot[q[0]]
    decreases |q|
  {
    if |q| > 1 {
      var rest := q[1..];
      assert IsWalk(G, rest, rest[0], rest[|rest| - 1]);
      PotentialBound(G, pot, rest);
      assert G[q[0]][q[1]].Fin?;
    }
  }

  /** A walk along edges each costing exactly the rise of the potential costs the total rise. */
  lemma {:induction false} TightWalkCost(G: CostMatrix, pot: seq<real>, q: seq<nat>)
    requires IsCostMatrix(G) && |pot| == |G| && |q| >= 1 && IsWalk(G, q, q[0], q[|q| - 1])
    requires forall k :: 0 <= k < |q| - 1 ==> G[q[k]][q[k + 1]] == Fin(pot[q[k + 1]] - pot[q[k]])
    ensures WalkCost(G, q) == pot[q[|q| - 1]] - pot[q[0]]
    decreases |q|
  {
    if |q| > 1 {
      var rest := q[1..];
      assert IsWalk(G, rest, rest[0], rest[|rest| - 1]);
      forall k | 0 <= k < |rest| - 1 ensures G[rest[k]][rest[k + 1]] == Fin(pot[rest[k + 1]] - pot[rest[k]]) {
        assert rest[k] == q[k + 1] && rest[k + 1] == q[k + 2];
      }
      TightWalkCost(G, pot, rest);
    }
  }
}
