/**
 * `stpath` (shortest_s-t_path/path.py:7-47): Dijkstra's algorithm in
 * primal-dual form. A cut `C` grows from `s`; each round raises the dual
 * `x` on every edge leaving `C` by the smallest reduced cost `G - x` among
 * them, adds the edge that became tight to the tree `F` and its head to `C`.
 */
module PrimalDual {
  import opened AdjacencyMatrix
  import opened Sequences
  import opened Optional
  import opened Costs
  import opened TreeSearch

  // ---------------------------------------------------------------------
  // The crossing edges, in the order of the list comprehension

  /** Row-major order on vertex pairs. */
  predicate LexLess(p: Edge, q: Edge)
  {
    p.0 < q.0 || (p.0 == q.0 && p.1 < q.1)
  }

  /** The pairs `(i, j)` with `j < cols`, `i` in `C` and `j` not in `C`, by increasing `j`. */
  function Row(C: seq<nat>, i: nat, cols: nat): (r: seq<Edge>)
    ensures forall e :: e in r <==> e.0 == i && e.1 < cols && i in C && e.1 !in C
    ensures forall k :: 0 <= k < |r| ==> r[k].0 == i && r[k].1 < cols
    ensures forall a, b :: 0 <= a < b < |r| ==> r[a].1 < r[b].1
  {
    if cols == 0 then []
    else Row(C, i, cols - 1) + if i in C && cols - 1 !in C then [(i, cols - 1)] else []
  }

  /** The crossing pairs of the first `rows` rows, in row-major order. */
  function CrossingRows(n: nat, C: seq<nat>, rows: nat): (r: seq<Edge>)
    ensures forall e :: e in r <==> e.0 < rows && e.1 < n && e.0 in C && e.1 !in C
    ensures forall k :: 0 <= k < |r| ==> r[k].0 < rows
    ensures forall a, b :: 0 <= a < b < |r| ==> LexLess(r[a], r[b])
  {
    if rows == 0 then []
    else
      var top := CrossingRows(n, C, rows - 1);
      var row := Row(C, rows - 1, n);
      RowsAppend(top, row, rows - 1);
      top + row
  }

  /** Appending a row below earlier rows keeps row-major order. */
  lemma RowsAppend(top: seq<Edge>, row: seq<Edge>, i: nat)
    requires forall k :: 0 <= k < |top| ==> top[k].0 < i
    requires forall k :: 0 <= k < |row| ==> row[k].0 == i
    requires forall a, b :: 0 <= a < b < |top| ==> LexLess(top[a], top[b])
    requires forall a, b :: 0 <= a < b < |row| ==> row[a].1 < row[b].1
    ensures forall k :: 0 <= k < |top + row| ==> (top + row)[k].0 < i + 1
    ensures forall a, b :: 0 <= a < b < |top + row| ==> LexLess((top + row)[a], (top + row)[b])
  {
    var r := top + row;
    forall a, b | 0 <= a < b < |r| ensures LexLess(r[a], r[b]) {
      if b < |top| {
        assert r[a] == top[a] && r[b] == top[b];
      } else if a < |top| {
        assert r[a] == top[a] && r[b] == row[b - |top|];
      } else {
        assert r[a] == row[a - |top|] && r[b] == row[b - |top|];
      }
    }
  }

  /**
   * `[(i, j) for i in xrange(n) for j in xrange(n) if i in C and not j in C]`:
   * exactly the pairs leaving `C`, in row-major order.
   */
  function Crossing(n: nat, C: seq<nat>): (r: seq<Edge>)
    ensures forall e :: e in r <==> e.0 < n && e.1 < n && e.0 in C && e.1 !in C
    ensures forall a, b :: 0 <= a < b < |r| ==> LexLess(r[a], r[b])
  {
    CrossingRows(n, C, n)
  }

  // ---------------------------------------------------------------------
  // Reduced costs and the minimum

  /** The reduced cost `G[i, j] - x[i, j]` of every pair of `d`. */
  function Reduced(G: CostMatrix, X: seq<seq<real>>, d: seq<Edge>): (r: seq<Cost>)
    requires forall k :: 0 <= k < |d| ==> d[k].0 < |G| && d[k].1 < |G[d[k].0]| && d[k].0 < |X| && d[k].1 < |X[d[k].0]|
  {
    seq(|d|, k requires 0 <= k < |d| => Minus(G[d[k].0][d[k].1], X[d[k].0][d[k].1]))
  }

  /**
   * `min(keys)` as Python finds it: the first position whose key no later
   * key is strictly below.
   */
  function FirstMin(keys: seq<Cost>): (i: nat)
    requires |keys| > 0
    ensures i < |keys|
    ensures forall k :: 0 <= k < |keys| ==> !CostLess(keys[k], keys[i])
    ensures forall k :: 0 <= k < i ==> CostLess(keys[i], keys[k])
  {
    if |keys| == 1 then 0
    else
      var j := FirstMin(keys[..|keys| - 1]);
      if CostLess(keys[|keys| - 1], keys[j]) then |keys| - 1 else j
  }

  /** When the least key is infinite, every key is. */
  lemma MinInfAllInf(keys: seq<Cost>)
    requires |keys| > 0 && keys[FirstMin(keys)].Inf?
    ensures forall k :: 0 <= k < |keys| ==> keys[k].Inf?
  {
    var i := FirstMin(keys);
    forall k | 0 <= k < |keys| ensures keys[k].Inf? {
      assert !CostLess(keys[k], keys[i]);
    }
  }

  // ---------------------------------------------------------------------
  // Raising the duals of the crossing edges

  /** What `x[i, j] += y; x[j, i] += y` over the pairs of `d` adds to entry `(a, b)`. */
  function Bump(d: seq<Edge>, a: nat, b: nat, y: real): real
  {
    (if (a, b) in d then y else 0.0) + (if (b, a) in d then y else 0.0)
  }

  /** The duals after the raise. */
  function Raised(X: seq<seq<real>>, d: seq<Edge>, y: real): (r: seq<seq<real>>)
  {
    seq(|X|, a requires 0 <= a < |X| => seq(|X[a]|, b requires 0 <= b < |X[a]| => X[a][b] + Bump(d, a, b, y)))
  }

  /** The current values of the dual matrix. */
  function Vals(x: array2<real>): (r: seq<seq<real>>)
    reads x
  {
    seq(x.Length0, i requires 0 <= i < x.Length0 reads x => seq(x.Length1, j requires 0 <= j < x.Length1 reads x => x[i, j]))
  }

  /** One more pair of `d` adds its share to the bump. */
  lemma BumpStep(d: seq<Edge>, k: nat, a: nat, b: nat, y: real)
    requires k < |d| && d[k] !in d[..k]
    ensures Bump(d[..k + 1], a, b, y)
         == Bump(d[..k], a, b, y) + (if (a, b) == d[k] then y else 0.0) + (if (b, a) == d[k] then y else 0.0)
  {
    assert d[..k + 1] == d[..k] + [d[k]];
  }

  /** `for i, j, _ in deltaC: x[i, j] += y_C; x[j, i] += y_C`. */
  method RaiseCrossing(x: array2<real>, d: seq<Edge>, y: real)
    requires x.Length0 == x.Length1
    requires forall k :: 0 <= k < |d| ==> d[k].0 < x.Length0 && d[k].1 < x.Length0
    requires forall k, l :: 0 <= k < l < |d| ==> d[k] != d[l]
    modifies x
    ensures Vals(x) == Raised(old(Vals(x)), d, y)
  {
    ghost var X := Vals(x);
    var n := x.Length0;
    for k := 0 to |d|
      invariant forall a, b :: 0 <= a < n && 0 <= b < n ==> x[a, b] == X[a][b] + Bump(d[..k], a, b, y)
    {
      var i, j := d[k].0, d[k].1;
      assert d[k] !in d[..k];
      x[i, j] := x[i, j] + y;
      x[j, i] := x[j, i] + y;
      forall a, b | 0 <= a < n && 0 <= b < n ensures x[a, b] == X[a][b] + Bump(d[..k + 1], a, b, y) {
        BumpStep(d, k, a, b, y);
      }
    }
    assert d[..|d|] == d;
    forall a | 0 <= a < n ensures Vals(x)[a] == Raised(X, d, y)[a] {
    }
  }

  /** The precondition shared by the lemmas about one round's raise. */
  ghost predicate RoundInput(G: CostMatrix, X: seq<seq<real>>, C: seq<nat>)
  {
    IsCostMatrix(G) && |X| == |G| && (forall a :: 0 <= a < |X| ==> |X[a]| == |G|) && |Crossing(|G|, C)| > 0
  }

  /** After raising the crossing edges by the first minimum reduced cost, the chosen edge is tight. */
  lemma ChosenTight(G: CostMatrix, X: seq<seq<real>>, C: seq<nat>)
    requires RoundInput(G, X, C)
    ensures var d := Crossing(|G|, C);
            var keys := Reduced(G, X, d);
            var i := FirstMin(keys);
            keys[i].Fin? ==> G[d[i].0][d[i].1] == Fin(Raised(X, d, keys[i].value)[d[i].0][d[i].1])
  {
    var d := Crossing(|G|, C);
    var i := FirstMin(Reduced(G, X, d));
    assert d[i] in d && (d[i].1, d[i].0) !in d;
  }

  /** The first position of pair `p` in `d`. */
  function PairIndex(d: seq<Edge>, p: Edge): (k: nat)
    requires p in d
    ensures k < |d| && d[k] == p
  {
    if d[0] == p then 0 else 1 + PairIndex(d[1..], p)
  }

  /**
   * Raising the pairs of `d` by a `y` that no reduced cost among them is
   * below takes no pair of `d` of finite cost, whose reverse is not in `d`,
   * past its cost.
   */
  lemma RaiseWithinCost(G: CostMatrix, X: seq<seq<real>>, d: seq<Edge>, y: real, a: nat, b: nat)
    requires IsCostMatrix(G) && |X| == |G| && (forall v :: 0 <= v < |X| ==> |X[v]| == |G|)
    requires forall k :: 0 <= k < |d| ==> d[k].0 < |G| && d[k].1 < |G|
    requires forall k :: 0 <= k < |d| ==> !CostLess(Reduced(G, X, d)[k], Fin(y))
    requires a < |G| && b < |G| && (a, b) in d && (b, a) !in d && G[a][b].Fin?
    ensures Raised(X, d, y)[a][b] <= G[a][b].value
  {
    var k := PairIndex(d, (a, b));
    assert Reduced(G, X, d)[k] == Fin(G[a][b].value - X[a][b]);
  }

  /** Among the crossing edges of the smallest reduced cost, the chosen one is first in row-major order. */
  lemma ChosenFirst(G: CostMatrix, X: seq<seq<real>>, C: seq<nat>)
    requires RoundInput(G, X, C)
    ensures var d := Crossing(|G|, C);
            var keys := Reduced(G, X, d);
            var i := FirstMin(keys);
            forall k :: 0 <= k < |d| && keys[k] == keys[i] ==> d[k] == d[i] || LexLess(d[i], d[k])
  {
    var d := Crossing(|G|, C);
    var keys := Reduced(G, X, d);
    var i := FirstMin(keys);
    forall k | 0 <= k < |d| && keys[k] == keys[i] ensures d[k] == d[i] || LexLess(d[i], d[k]) {
      assert !CostLess(keys[i], keys[i]);
    }
  }

  /** If every crossing pair has an infinite reduced cost, every edge leaving `C` is missing. */
  lemma CutClosed(G: CostMatrix, X: seq<seq<real>>, C: seq<nat>)
    requires RoundInput(G, X, C)
    requires forall k :: 0 <= k < |Crossing(|G|, C)| ==> Reduced(G, X, Crossing(|G|, C))[k].Inf?
    ensures forall a, b :: 0 <= a < |G| && 0 <= b < |G| && a in C && b !in C ==> G[a][b].Inf?
  {
    var d := Crossing(|G|, C);
    forall a, b | 0 <= a < |G| && 0 <= b < |G| && a in C && b !in C ensures G[a][b].Inf? {
      assert (a, b) in d;
      var k :| 0 <= k < |d| && d[k] == (a, b);
      assert Reduced(G, X, d)[k] == Minus(G[a][b], X[a][b]);
    }
  }

  /** No walk leaves a set of vertices that no edge of finite cost leaves. */
  lemma ClosedCutUnreachable(G: CostMatrix, C: seq<nat>, s: nat, t: nat)
    requires IsCostMatrix(G) && s in C && t !in C
    requires forall a, b :: 0 <= a < |G| && 0 <= b < |G| && a in C && b !in C ==> G[a][b].Inf?
    ensures !Reachable(G, s, t)
  {
    var inside := set v | v in C;
    if q :| IsWalk(G, q, s, t) {
      WalkLeavesCut(G, q, inside);
    }
  }

  // ---------------------------------------------------------------------
  // The loop invariant of `stpath`, in three parts

  /** `C` lists `s` and the heads of `F` in the order they were added, and `F` is a tree grown from `s`. */
  ghost predicate TreeInv(G: CostMatrix, s: nat, C: seq<nat>, F: seq<Edge>)
  {
    && C == Vertices(s, F)
    && GrownTree(s, F)
    && (forall k :: 0 <= k < |C| ==> C[k] < |G|)
  }

  /**
   * The duals in terms of the potentials: `pi[v]` is the total raise `Y` at the
   * moment `v` joined `C`. A pair leaving `C` carries `Y - pi[a]`, a pair
   * outside `C` carries nothing, and every tree edge costs exactly the rise
   * of the potential along it.
   */
  ghost predicate DualInv(G: CostMatrix, X: seq<seq<real>>, s: nat, C: seq<nat>, F: seq<Edge>, pi: seq<real>, Y: real)
    requires IsCostMatrix(G)
  {
    && |X| == |G| && (forall a :: 0 <= a < |X| ==> |X[a]| == |G|)
    && |pi| == |G| && s < |G| && pi[s] == 0.0
    && (forall a, b :: 0 <= a < |G| && 0 <= b < |G| && a !in C && b !in C ==> X[a][b] == 0.0)
    && (forall a, b :: 0 <= a < |G| && 0 <= b < |G| && a in C && b !in C ==> X[a][b] == Y - pi[a])
    && (forall k :: 0 <= k < |F| ==> F[k].0 < |G| && F[k].1 < |G| && F[k].0 in C && F[k].1 in C)
    && (forall k :: 0 <= k < |F| ==> G[F[k].0][F[k].1] == Fin(pi[F[k].1] - pi[F[k].0]))
  }

  /**
   * With non-negative costs the potentials stay feasible: no edge inside `C`
   * rises by more than its cost, no edge leaving `C` is exceeded by its
   * dual, and every potential lies between 0 and `Y`.
   */
  ghost predicate PotInv(G: CostMatrix, C: seq<nat>, pi: seq<real>, Y: real)
    requires IsCostMatrix(G) && |pi| == |G|
  {
    NonNegative(G) ==>
      && (forall a, b :: 0 <= a < |G| && 0 <= b < |G| && a in C && b in C && G[a][b].Fin? ==> pi[b] - pi[a] <= G[a][b].value)
      && (forall a, b :: 0 <= a < |G| && 0 <= b < |G| && a in C && b !in C && G[a][b].Fin? ==> Y - pi[a] <= G[a][b].value)
      && (forall a :: 0 <= a < |G| && a in C ==> 0.0 <= pi[a] <= Y)
  }

  /** The loop invariant of `stpath`. */
  ghost predicate Inv(G: CostMatrix, X: seq<seq<real>>, s: nat, C: seq<nat>, F: seq<Edge>, pi: seq<real>, Y: real)
  {
    IsCostMatrix(G) && TreeInv(G, s, C, F) && DualInv(G, X, s, C, F, pi, Y) && PotInv(G, C, pi, Y)
  }

  /** The state before the first round: `x = 0`, `C = [s]`, `F = []`. */
  lemma StartInv(G: CostMatrix, X: seq<seq<real>>, s: nat)
    requires IsCostMatrix(G) && s < |G|
    requires |X| == |G| && forall a :: 0 <= a < |X| ==> |X[a]| == |G| && forall b :: 0 <= b < |G| ==> X[a][b] == 0.0
    ensures TreeInv(G, s, [s], [])
    ensures DualInv(G, X, s, [s], [], seq(|G|, v => 0.0), 0.0)
    ensures PotInv(G, [s], seq(|G|, v => 0.0), 0.0)
  {
    assert Vertices(s, []) == [s];
  }

  /** Adding a crossing edge to the tree and its head to `C` keeps the tree part. */
  lemma TreeStep(G: CostMatrix, s: nat, C: seq<nat>, F: seq<Edge>, e: Edge)
    requires TreeInv(G, s, C, F)
    requires e.0 in C && e.1 !in C && e.1 < |G|
    ensures TreeInv(G, s, C + [e.1], F + [e])
  {
    var F' := F + [e];
    assert Heads(F') == Heads(F) + [e.1];
    assert Vertices(s, F') == C + [e.1];
    forall k | 0 <= k < |F'| ensures TailReached(s, F', k) {
      assert Vertices(s, F')[..k + 1] == Vertices(s, F' )[..|F'|][..k + 1];
      if k < |F| {
        assert F'[k] == F[k] && TailReached(s, F, k);
        assert Vertices(s, F')[..k + 1] == Vertices(s, F)[..k + 1];
      } else {
        assert Vertices(s, F')[..k + 1] == C;
      }
    }
  }

  /** Each entry of the raised duals: `y` more on a pair leaving `C`, and on its reverse. */
  lemma RaisedEntry(G: CostMatrix, X: seq<seq<real>>, C: seq<nat>, y: real, a: nat, b: nat)
    requires |X| == |G| && (forall v :: 0 <= v < |X| ==> |X[v]| == |G|) && a < |G| && b < |G|
    ensures Raised(X, Crossing(|G|, C), y)[a][b]
         == X[a][b] + (if a in C && b !in C then y else 0.0) + (if b in C && a !in C then y else 0.0)
  {
  }

  /** The raise and the new potential keep the duals of the pairs outside and leaving the grown `C`. */
  lemma DualCutStep(G: CostMatrix, X: seq<seq<real>>, C: seq<nat>, pi: seq<real>, Y: real, y: real, j: nat)
    requires IsCostMatrix(G) && |X| == |G| && (forall v :: 0 <= v < |X| ==> |X[v]| == |G|) && |pi| == |G|
    requires j < |G| && j !in C
    requires forall a, b :: 0 <= a < |G| && 0 <= b < |G| && a !in C && b !in C ==> X[a][b] == 0.0
    requires forall a, b :: 0 <= a < |G| && 0 <= b < |G| && a in C && b !in C ==> X[a][b] == Y - pi[a]
    ensures var X' := Raised(X, Crossing(|G|, C), y);
            forall a, b :: 0 <= a < |G| && 0 <= b < |G| && a !in C + [j] && b !in C + [j] ==> X'[a][b] == 0.0
    ensures var X' := Raised(X, Crossing(|G|, C), y);
            forall a, b :: 0 <= a < |G| && 0 <= b < |G| && a in C + [j] && b !in C + [j] ==> X'[a][b] == Y + y - pi[j := Y + y][a]
  {
    var X' := Raised(X, Crossing(|G|, C), y);
    forall a, b | 0 <= a < |G| && 0 <= b < |G| && a !in C + [j] && b !in C + [j] ensures X'[a][b] == 0.0 {
      RaisedEntry(G, X, C, y, a, b);
    }
    forall a, b | 0 <= a < |G| && 0 <= b < |G| && a in C + [j] && b !in C + [j] ensures X'[a][b] == Y + y - pi[j := Y + y][a] {
      RaisedEntry(G, X, C, y, a, b);
    }
  }

  /** The new edge joins two vertices of the grown `C`, as every old edge does. */
  lemma TreeEdgesInside(G: CostMatrix, C: seq<nat>, F: seq<Edge>, e: Edge)
    requires e.0 < |G| && e.1 < |G| && e.0 in C
    requires forall k :: 0 <= k < |F| ==> F[k].0 < |G| && F[k].1 < |G| && F[k].0 in C && F[k].1 in C
    ensures var F' := F + [e];
            forall k :: 0 <= k < |F'| ==> F'[k].0 < |G| && F'[k].1 < |G| && F'[k].0 in C + [e.1] && F'[k].1 in C + [e.1]
  {
    var F' := F + [e];
    forall k | 0 <= k < |F'| ensures F'[k].0 < |G| && F'[k].1 < |G| && F'[k].0 in C + [e.1] && F'[k].1 in C + [e.1] {
      if k < |F| {
        assert F'[k] == F[k];
      }
    }
  }

  /** The new edge is tight under the new potential, and the old edges keep their potentials. */
  lemma TreeEdgesTight(G: CostMatrix, C: seq<nat>, F: seq<Edge>, pi: seq<real>, Y: real, y: real, e: Edge)
    requires IsCostMatrix(G) && |pi| == |G|
    requires e.0 < |G| && e.1 < |G| && e.0 in C && e.1 !in C
    requires G[e.0][e.1] == Fin(Y + y - pi[e.0])
    requires forall k :: 0 <= k < |F| ==> F[k].0 < |G| && F[k].1 < |G| && F[k].0 in C && F[k].1 in C
    requires forall k :: 0 <= k < |F| ==> G[F[k].0][F[k].1] == Fin(pi[F[k].1] - pi[F[k].0])
    ensures var F', pi' := F + [e], pi[e.1 := Y + y];
            forall k :: 0 <= k < |F'| ==> G[F'[k].0][F'[k].1] == Fin(pi'[F'[k].1] - pi'[F'[k].0])
  {
    var F', pi' := F + [e], pi[e.1 := Y + y];
    forall k | 0 <= k < |F'| ensures G[F'[k].0][F'[k].1] == Fin(pi'[F'[k].1] - pi'[F'[k].0]) {
      if k < |F| {
        var (u, v) := F[k];
        assert F'[k] == (u, v);
        assert pi'[u] == pi[u] && pi'[v] == pi[v];
      } else {
        assert F'[k] == e;
      }
    }
  }

  /** One round keeps the dual part, with `pi[j]` set to the new total raise `Y + y`. */
  lemma DualStep(G: CostMatrix, X: seq<seq<real>>, s: nat, C: seq<nat>, F: seq<Edge>, pi: seq<real>, Y: real, y: real, e: Edge)
    requires IsCostMatrix(G) && DualInv(G, X, s, C, F, pi, Y) && s in C
    requires e.0 < |G| && e.1 < |G| && e.0 in C && e.1 !in C
    requires G[e.0][e.1] == Fin(Raised(X, Crossing(|G|, C), y)[e.0][e.1])
    ensures DualInv(G, Raised(X, Crossing(|G|, C), y), s, C + [e.1], F + [e], pi[e.1 := Y + y], Y + y)
  {
    var X' := Raised(X, Crossing(|G|, C), y);
    assert |X'| == |G| && forall a :: 0 <= a < |X'| ==> |X'[a]| == |G|;
    assert pi[e.1 := Y + y][s] == 0.0 by { assert s != e.1; }
    DualCutStep(G, X, C, pi, Y, y, e.1);
    TreeEdgesInside(G, C, F, e);
    RaisedEntry(G, X, C, y, e.0, e.1);
    TreeEdgesTight(G, C, F, pi, Y, y, e);
  }

  /** The raise by `y` keeps every edge leaving `C` within its cost. */
  ghost predicate RaiseFits(G: CostMatrix, C: seq<nat>, pi: seq<real>, Y: real, y: real)
    requires IsCostMatrix(G) && |pi| == |G|
  {
    forall a, b :: 0 <= a < |G| && 0 <= b < |G| && a in C && b !in C && G[a][b].Fin? ==> Y + y - pi[a] <= G[a][b].value
  }

  /** Edges inside the grown `C` still rise by no more than their cost. */
  lemma PotInside(G: CostMatrix, C: seq<nat>, pi: seq<real>, Y: real, y: real, j: nat)
    requires IsCostMatrix(G) && |pi| == |G| && NonNegative(G) && PotInv(G, C, pi, Y)
    requires RaiseFits(G, C, pi, Y, y) && j < |G| && j !in C && y >= 0.0
    ensures var C', pi' := C + [j], pi[j := Y + y];
            forall a, b :: 0 <= a < |G| && 0 <= b < |G| && a in C' && b in C' && G[a][b].Fin? ==> pi'[b] - pi'[a] <= G[a][b].value
  {
    var C', pi' := C + [j], pi[j := Y + y];
    forall a, b | 0 <= a < |G| && 0 <= b < |G| && a in C' && b in C' && G[a][b].Fin? ensures pi'[b] - pi'[a] <= G[a][b].value {
      if a in C && b in C {
        assert pi'[a] == pi[a] && pi'[b] == pi[b];
      } else if a in C {
        assert pi'[a] == pi[a] && b == j;
      } else if b in C {
        assert pi'[b] == pi[b] && a == j;
      }
    }
  }

  /** Edges leaving the grown `C` are still not exceeded by their duals. */
  lemma PotLeaving(G: CostMatrix, C: seq<nat>, pi: seq<real>, Y: real, y: real, j: nat)
    requires IsCostMatrix(G) && |pi| == |G| && NonNegative(G)
    requires RaiseFits(G, C, pi, Y, y) && j < |G| && j !in C
    ensures var C', pi' := C + [j], pi[j := Y + y];
            forall a, b :: 0 <= a < |G| && 0 <= b < |G| && a in C' && b !in C' && G[a][b].Fin? ==> Y + y - pi'[a] <= G[a][b].value
  {
    var C', pi' := C + [j], pi[j := Y + y];
    forall a, b | 0 <= a < |G| && 0 <= b < |G| && a in C' && b !in C' && G[a][b].Fin? ensures Y + y - pi'[a] <= G[a][b].value {
      if a in C {
        assert pi'[a] == pi[a];
      }
    }
  }

  /** Every potential of the grown `C` still lies between 0 and the total raise. */
  lemma PotRange(G: CostMatrix, s: nat, C: seq<nat>, pi: seq<real>, Y: real, y: real, j: nat)
    requires IsCostMatrix(G) && |pi| == |G| && NonNegative(G) && PotInv(G, C, pi, Y)
    requires s < |G| && s in C && y >= 0.0 && j < |G|
    ensures var C', pi' := C + [j], pi[j := Y + y];
            forall a :: 0 <= a < |G| && a in C' ==> 0.0 <= pi'[a] <= Y + y
  {
    assert 0.0 <= pi[s] <= Y;
  }

  /** With non-negative costs one round keeps the potential part. */
  lemma PotStep(G: CostMatrix, X: seq<seq<real>>, s: nat, C: seq<nat>, F: seq<Edge>, pi: seq<real>, Y: real, y: real, e: Edge)
    requires RoundInput(G, X, C) && DualInv(G, X, s, C, F, pi, Y) && PotInv(G, C, pi, Y) && s in C
    requires forall k :: 0 <= k < |Crossing(|G|, C)| ==> !CostLess(Reduced(G, X, Crossing(|G|, C))[k], Fin(y))
    requires e.0 < |G| && e.1 < |G| && e.0 in C && e.1 !in C
    requires G[e.0][e.1] == Fin(Raised(X, Crossing(|G|, C), y)[e.0][e.1])
    ensures PotInv(G, C + [e.1], pi[e.1 := Y + y], Y + y)
  {
    if NonNegative(G) {
      forall a, b | 0 <= a < |G| && 0 <= b < |G| && a in C && b !in C && G[a][b].Fin? ensures Y + y - pi[a] <= G[a][b].value {
        var d := Crossing(|G|, C);
        assert (a, b) in d && (b, a) !in d;
        RaiseWithinCost(G, X, d, y, a, b);
        RaisedEntry(G, X, C, y, a, b);
      }
      RaisedEntry(G, X, C, y, e.0, e.1);
      assert y >= 0.0;
      PotInside(G, C, pi, Y, y, e.1);
      PotLeaving(G, C, pi, Y, y, e.1);
      PotRange(G, s, C, pi, Y, y, e.1);
    }
  }

  /**
   * A round that raises by a finite first minimum `y` and adds the chosen
   * edge `e` keeps the invariant, with `pi[e.1]` set to the new total raise.
   */
  lemma RoundStep(G: CostMatrix, X: seq<seq<real>>, s: nat, C: seq<nat>, F: seq<Edge>, pi: seq<real>, Y: real,
                  e: Edge, y: real, X': seq<seq<real>>, C': seq<nat>, F': seq<Edge>, pi': seq<real>, Y': real)
    requires Inv(G, X, s, C, F, pi, Y) && |Crossing(|G|, C)| > 0
    requires var d := Crossing(|G|, C);
             var keys := Reduced(G, X, d);
             e == d[FirstMin(keys)] && keys[FirstMin(keys)] == Fin(y) && X' == Raised(X, d, y)
    requires C' == C + [e.1] && F' == F + [e] && pi' == pi[e.1 := Y + y] && Y' == Y + y
    ensures Inv(G, X', s, C', F', pi', Y')
  {
    var d := Crossing(|G|, C);
    assert RoundInput(G, X, C);
    assert e in d && C[0] == s;
    assert TreeInv(G, s, C', F') by {
      TreeStep(G, s, C, F, e);
    }
    assert DualInv(G, X', s, C', F', pi', Y') by {
      ChosenTight(G, X, C);
      DualStep(G, X, s, C, F, pi, Y, y, e);
    }
    assert PotInv(G, C', pi', Y') by {
      ChosenTight(G, X, C);
      PotStep(G, X, s, C, F, pi, Y, y, e);
    }
  }

  // ---------------------------------------------------------------------
  // One round of the loop

  /** Pairs in strictly increasing row-major order are distinct. */
  lemma LexDistinct(d: seq<Edge>)
    requires forall a, b :: 0 <= a < b < |d| ==> LexLess(d[a], d[b])
    ensures forall k, l :: 0 <= k < l < |d| ==> d[k] != d[l]
  {
  }

  /**
   * The body of `while not t in C`: collect the crossing pairs with their
   * reduced costs and take the first minimum. If it is infinite, no edge of
   * finite cost leaves `C` (`return None`); otherwise raise the duals of the
   * crossing pairs by it and hand back the pair that became tight.
   */
  method GrowCut(G: CostMatrix, x: array2<real>, s: nat, t: nat, C: seq<nat>)
    returns (grown: bool, e: Edge, y: real)
    requires IsCostMatrix(G) && x.Length0 == |G| && x.Length1 == |G|
    requires s < |G| && s in C && t < |G| && t !in C
    modifies x
    ensures var d := Crossing(|G|, C);
            var keys := Reduced(G, old(Vals(x)), d);
            |d| > 0 && e == d[FirstMin(keys)] && (grown <==> keys[FirstMin(keys)].Fin?)
    ensures !grown ==> Vals(x) == old(Vals(x))
    ensures !grown ==> forall a, b :: 0 <= a < |G| && 0 <= b < |G| && a in C && b !in C ==> G[a][b].Inf?
    ensures grown ==> var d := Crossing(|G|, C);
                      Reduced(G, old(Vals(x)), d)[FirstMin(Reduced(G, old(Vals(x)), d))] == Fin(y)
                      && Vals(x) == Raised(old(Vals(x)), d, y)
  {
    ghost var X := Vals(x);
    var d := Crossing(|G|, C);
    assert (s, t) in d;
    var keys := Reduced(G, Vals(x), d);
    var i := FirstMin(keys);
    e := d[i];
    if keys[i].Inf? {
      MinInfAllInf(keys);
      CutClosed(G, X, C);
      grown, y := false, 0.0;
    } else {
      grown, y := true, keys[i].value;
      LexDistinct(d);
      RaiseCrossing(x, d, y);
    }
  }

  // ---------------------------------------------------------------------
  // What the potentials prove about the path found

  /** A path along tree edges, each costing the rise of `pi`, is a walk costing `pi[t] - pi[s]`. */
  lemma TreePathCost(G: CostMatrix, s: nat, t: nat, F: seq<Edge>, pi: seq<real>, path: seq<nat>)
    requires IsCostMatrix(G) && |pi| == |G| && s < |G|
    requires forall k :: 0 <= k < |F| ==> F[k].0 < |G| && F[k].1 < |G|
    requires forall k :: 0 <= k < |F| ==> G[F[k].0][F[k].1] == Fin(pi[F[k].1] - pi[F[k].0])
    requires |path| >= 1 && path[0] == s && path[|path| - 1] == t
    requires forall k :: 0 <= k < |path| - 1 ==> (path[k], path[k + 1]) in F
    ensures IsWalk(G, path, s, t)
    ensures WalkCost(G, path) == pi[t] - pi[s]
  {
    forall k | 0 <= k < |path| ensures path[k] < |G| {
      if k > 0 {
        assert (path[k - 1], path[k]) in F;
      }
    }
    forall k | 0 <= k < |path| - 1 ensures G[path[k]][path[k + 1]] == Fin(pi[path[k + 1]] - pi[path[k]]) {
      var l :| 0 <= l < |F| && F[l] == (path[k], path[k + 1]);
    }
    TightWalkCost(G, pi, path);
  }

  /** The potential of `stpath`'s final state: `pi` on `C`, the total raise `Y` off it. */
  function Potential(n: nat, C: seq<nat>, pi: seq<real>, Y: real): (pot: seq<real>)
    requires |pi| == n
    ensures |pot| == n && forall v :: 0 <= v < n ==> pot[v] == if v in C then pi[v] else Y
  {
    seq(n, v requires 0 <= v < n => if v in C then pi[v] else Y)
  }

  /** With non-negative costs that potential is feasible. */
  lemma PotentialFeasible(G: CostMatrix, C: seq<nat>, pi: seq<real>, Y: real)
    requires IsCostMatrix(G) && |pi| == |G| && NonNegative(G) && PotInv(G, C, pi, Y)
    ensures Feasible(G, Potential(|G|, C, pi, Y))
  {
  }

  /** Every walk from `s` to a vertex `t` of `C` costs at least `pi[t]`. */
  lemma CutLowerBound(G: CostMatrix, s: nat, t: nat, C: seq<nat>, pi: seq<real>, Y: real)
    requires IsCostMatrix(G) && |pi| == |G| && NonNegative(G) && PotInv(G, C, pi, Y)
    requires s < |G| && t < |G| && s in C && t in C && pi[s] == 0.0
    ensures forall q :: IsWalk(G, q, s, t) ==> pi[t] <= WalkCost(G, q)
  {
    var pot := Potential(|G|, C, pi, Y);
    PotentialFeasible(G, C, pi, Y);
    forall q | IsWalk(G, q, s, t) ensures pi[t] <= WalkCost(G, q) {
      PotentialBound(G, pot, q);
    }
  }

  // ---------------------------------------------------------------------
  // `stpath`

  /**
   * One pass of the loop of `stpath` in terms of its invariant: either no
   * edge of finite cost leaves `C`, or the cut, tree, potentials and duals
   * grow by one round and keep the invariant.
   */
  method Round(G: CostMatrix, x: array2<real>, s: nat, t: nat, C: seq<nat>, F: seq<Edge>,
               ghost pi: seq<real>, ghost Y: real, ghost X: seq<seq<real>>)
    returns (closed: bool, C': seq<nat>, F': seq<Edge>, ghost pi': seq<real>, ghost Y': real, ghost X': seq<seq<real>>)
    requires x.Length0 == |G| && x.Length1 == |G| && X == Vals(x) && Inv(G, X, s, C, F, pi, Y)
    requires t < |G| && t !in C
    modifies x
    ensures X' == Vals(x)
    ensures closed ==> forall a, b :: 0 <= a < |G| && 0 <= b < |G| && a in C && b !in C ==> G[a][b].Inf?
    ensures !closed ==> Inv(G, X', s, C', F', pi', Y') && |C'| == |C| + 1
  {
    assert C[0] == s;
    var grown, e, y := GrowCut(G, x, s, t, C);
    closed, X' := !grown, Vals(x);
    C', F', pi', Y' := C + [e.1], F + [e], pi[e.1 := Y + y], Y + y;
    if grown {
      RoundStep(G, X, s, C, F, pi, Y, e, y, X', C', F', pi', Y');
    }
  }

  /**
   * The loop of `stpath`: grow `C` from `s` until it holds `t` or no edge of
   * finite cost leaves it. Returns the final cut, tree, potentials and duals.
   */
  method Grow(G: CostMatrix, s: nat, t: nat)
    returns (closed: bool, C: seq<nat>, F: seq<Edge>, ghost pi: seq<real>, ghost Y: real, ghost X: seq<seq<real>>)
    requires IsCostMatrix(G) && s < |G| && t < |G|
    ensures Inv(G, X, s, C, F, pi, Y)
    ensures closed <==> t !in C
    ensures closed ==> forall a, b :: 0 <= a < |G| && 0 <= b < |G| && a in C && b !in C ==> G[a][b].Inf?
  {
    var n := |G|;
    var x := new real[n, n]((i, j) => 0.0);
    C, F := [s], [];
    pi, Y, X := seq(n, v => 0.0), 0.0, Vals(x);
    StartInv(G, X, s);
    while t !in C
      invariant x.Length0 == n && x.Length1 == n && X == Vals(x)
      invariant Inv(G, X, s, C, F, pi, Y)
      invariant |C| <= n
      decreases n - |C|
    {
      var stop, C', F', pi', Y', X' := Round(G, x, s, t, C, F, pi, Y, X);
      if stop {
        closed := true;
        return;
      }
      C, F, pi, Y, X := C', F', pi', Y', X';
      assert Inv(G, X, s, C, F, pi, Y) && C[0] == s;
      DistinctBound(C, n);
    }
    closed := false;
  }

  /**
   * `stpath(G, s, t)`: `None` exactly when no walk of finite-cost edges
   * leads from `s` to `t`; otherwise a walk from `s` to `t` along the tree
   * grown from `s`, and with non-negative costs no walk from `s` to `t` is
   * cheaper.
   */
  method StPath(G: CostMatrix, s: nat, t: nat) returns (r: Option<seq<nat>>, ghost tree: seq<Edge>)
    requires IsCostMatrix(G) && s < |G| && t < |G|
    ensures GrownTree(s, tree) && forall v :: v in Vertices(s, tree) ==> v < |G|
    ensures r.Some? <==> Reachable(G, s, t)
    ensures r.Some? ==> IsWalk(G, r.value, s, t)
    ensures r.Some? ==> forall k :: 0 <= k < |r.value| - 1 ==> (r.value[k], r.value[k + 1]) in tree
    ensures r.Some? && NonNegative(G) ==> forall q :: IsWalk(G, q, s, t) ==> WalkCost(G, r.value) <= WalkCost(G, q)
  {
    var closed, C, F, pi, Y, X := Grow(G, s, t);
    tree := F;
    assert C[0] == s;
    if closed {
      ClosedCutUnreachable(G, C, s, t);
      return None, tree;
    }
    var path := Search(s, t, F);
    TreePathCost(G, s, t, F, pi, path);
    r := Some(path);
    if NonNegative(G) {
      CutLowerBound(G, s, t, C, pi, Y);
    }
  }
}
