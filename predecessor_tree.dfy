/**
 * The predecessor tree of `find_deg3_cycle` and `backtrace_cycle`
 * (feedback_vertex_set/feedback.py:180-209): paths to the root, and the
 * cycle two such paths close when their ends are joined by an edge.
 */
module PredecessorTree {
  import opened AdjacencyMatrix
  import opened Sequences

  /** The `predecessors` dictionary: vertex to predecessor, -1 for the root. */
  type Preds = map<nat, int>

  /**
   * `preds` is a tree rooted at `root`, ranked by `depth`: the root's
   * predecessor is -1, and every other vertex's predecessor is a recorded
   * vertex one level closer to the root.
   */
  ghost predicate IsTree(preds: Preds, depth: map<nat, nat>, root: nat)
  {
    && root in preds && preds[root] == -1
    && depth.Keys == preds.Keys
    && forall k {:trigger preds[k]} :: k in preds && k != root ==>
         preds[k] >= 0 && preds[k] as nat in preds && depth[k] == depth[preds[k] as nat] + 1
  }

  /**
   * The tree lives in the graph: its vertices are in range and have degree
   * at least 2, the root has degree greater than 2, and each tree link is an edge.
   */
  ghost predicate TreeInGraph(m: Matrix, preds: Preds, root: nat)
    requires IsSquare(m)
  {
    && root < |m| && Degree(m, root) > 2
    && (forall k :: k in preds ==> k < |m| && Degree(m, k) >= 2)
    && (forall k :: k in preds && k != root ==> 0 <= preds[k] < |m| && m[preds[k]][k])
  }

  /** The tree's vertices are vertices of the graph. */
  lemma TreeKeysBelow(m: Matrix, preds: Preds, root: nat)
    requires IsSquare(m) && TreeInGraph(m, preds, root)
    ensures preds.Keys <= Below(|m|)
  {
  }

  /** The path from `v` up the tree to the root, `v` first. */
  ghost function Ancestors(preds: Preds, depth: map<nat, nat>, root: nat, v: nat): (a: seq<nat>)
    requires IsTree(preds, depth, root) && v in preds
    decreases depth[v]
  {
    if preds[v] < 0 then [v] else [v] + Ancestors(preds, depth, root, preds[v] as nat)
  }

  /** The path to the root starts at `v`, ends at the root, follows `preds`, and repeats no vertex. */
  lemma {:induction false} AncestorsFacts(preds: Preds, depth: map<nat, nat>, root: nat, v: nat)
    requires IsTree(preds, depth, root) && v in preds
    ensures var a := Ancestors(preds, depth, root, v);
      && |a| >= 1 && a[0] == v && a[|a| - 1] == root
      && (forall k :: 0 <= k < |a| ==> a[k] in preds && depth[a[k]] + k == depth[v])
      && (forall k {:trigger preds[a[k]]} :: 0 <= k < |a| - 1 ==> preds[a[k]] == a[k + 1] as int)
      && Distinct(a)
    decreases depth[v]
  {
    var a := Ancestors(preds, depth, root, v);
    if preds[v] >= 0 {
      var p := preds[v] as nat;
      AncestorsFacts(preds, depth, root, p);
      var b := Ancestors(preds, depth, root, p);
      assert a == [v] + b;
    }
  }

  /** Every suffix of a path to the root is the path to the root of its first vertex. */
  lemma {:induction false} AncestorsSuffix(preds: Preds, depth: map<nat, nat>, root: nat, v: nat, k: nat)
    requires IsTree(preds, depth, root) && v in preds
    requires k < |Ancestors(preds, depth, root, v)|
    ensures var a := Ancestors(preds, depth, root, v);
            a[k] in preds && a[k..] == Ancestors(preds, depth, root, a[k])
    decreases depth[v]
  {
    if k > 0 {
      var p := preds[v] as nat;
      AncestorsSuffix(preds, depth, root, p, k - 1);
      assert Ancestors(preds, depth, root, v)[k..] == Ancestors(preds, depth, root, p)[k - 1..];
    }
  }

  /** Two paths up the same tree: once they share a vertex they continue identically. */
  ghost predicate SharedSuffixes(a: seq<nat>, b: seq<nat>)
  {
    forall k, l :: 0 <= k < |a| && 0 <= l < |b| && a[k] == b[l] ==> a[k..] == b[l..]
  }

  /**
   * The path to the root of a tree vertex is a simple path of the graph
   * through tree vertices, whose second vertex is the predecessor.
   */
  lemma AncestorsArePath(m: Matrix, preds: Preds, depth: map<nat, nat>, root: nat, v: nat)
    requires IsSimpleGraph(m) && IsTree(preds, depth, root) && TreeInGraph(m, preds, root) && v in preds
    ensures var a := Ancestors(preds, depth, root, v);
      && IsSimplePath(m, a) && |a| >= 1 && a[0] == v && a[|a| - 1] == root
      && (forall k :: 0 <= k < |a| ==> a[k] in preds)
      && (|a| > 1 ==> preds[v] == a[1] as int)
  {
    var a := Ancestors(preds, depth, root, v);
    AncestorsFacts(preds, depth, root, v);
    forall k | 0 <= k < |a| - 1 ensures m[a[k]][a[k + 1]] {
      assert preds[a[k]] == a[k + 1] as int;
      assert a[k] != root;
      assert m[a[k + 1]][a[k]];
    }
  }

  /** The paths to the root of any two tree vertices share suffixes. */
  lemma AncestorsShareSuffixes(preds: Preds, depth: map<nat, nat>, root: nat, s: nat, e: nat)
    requires IsTree(preds, depth, root) && s in preds && e in preds
    ensures SharedSuffixes(Ancestors(preds, depth, root, s), Ancestors(preds, depth, root, e))
  {
    var a := Ancestors(preds, depth, root, s);
    var b := Ancestors(preds, depth, root, e);
    forall k, l | 0 <= k < |a| && 0 <= l < |b| && a[k] == b[l] ensures a[k..] == b[l..] {
      AncestorsSuffix(preds, depth, root, s, k);
      AncestorsSuffix(preds, depth, root, e, l);
    }
  }

  /**
   * Two paths with the same last vertex that share suffixes meet: the first
   * vertex of `a` lying on `b` is the first vertex of `b` lying on `a`.
   */
  lemma MeetingPoint(a: seq<nat>, b: seq<nat>)
    requires |a| >= 1 && |b| >= 1 && a[|a| - 1] == b[|b| - 1]
    requires Distinct(b) && SharedSuffixes(a, b)
    ensures var i := FirstShared(a, b);
            var j := FirstShared(b, a);
            i < |a| && j < |b| && a[i] == b[j]
  {
    assert a[|a| - 1] in b by { assert b[|b| - 1] in b; }
    assert b[|b| - 1] in a by { assert a[|a| - 1] in a; }
    var i := FirstShared(a, b);
    var j := FirstShared(b, a);
    var j' :| 0 <= j' < |b| && b[j'] == a[i];
    var i' :| 0 <= i' < |a| && a[i'] == b[j];
    assert i <= i' by { assert a[i'] in b; }
    assert j <= j' by { assert b[j'] in a; }
    assert a[i..] == b[j'..];
    assert b[j] == b[j' + (i' - i)] by {
      assert a[i'] == a[i..][i' - i];
    }
    assert j == j' + (i' - i);
  }

  /** The preconditions shared by the splice lemmas below. */
  ghost predicate Splicable(m: Matrix, a: seq<nat>, b: seq<nat>)
  {
    && IsSimpleGraph(m) && IsSimplePath(m, a) && IsSimplePath(m, b)
    && |a| >= 1 && |b| >= 1 && a[|a| - 1] == b[|b| - 1] && SharedSuffixes(a, b)
    && m[b[0]][a[0]]
    && (|a| > 1 ==> a[1] != b[0])
    && (|b| > 1 ==> b[1] != a[0])
  }

  /** The splice `a[..i+1] + b[..j]` repeats no vertex. */
  lemma SpliceDistinct(a: seq<nat>, b: seq<nat>, i: nat, j: nat)
    requires Distinct(a) && Distinct(b) && i < |a| && j <= |b|
    requires forall l :: 0 <= l < j ==> b[l] !in a
    ensures Distinct(a[..i + 1] + b[..j])
    ensures Distinct(a[..i + 1] + Reversed(b[..j]))
  {
    var c := a[..i + 1] + b[..j];
    forall p, q | 0 <= p < q < |c| ensures c[p] != c[q] {
      if q <= i {
        assert c[p] == a[p] && c[q] == a[q];
      } else if p > i {
        assert c[p] == b[p - i - 1] && c[q] == b[q - i - 1];
      } else {
        assert c[p] == a[p] && c[q] == b[q - i - 1];
      }
    }
    var o := a[..i + 1] + Reversed(b[..j]);
    forall p, q | 0 <= p < q < |o| ensures o[p] != o[q] {
      if q <= i {
        assert o[p] == a[p] && o[q] == a[q];
      } else if p > i {
        assert o[p] == b[j - 1 - (p - i - 1)] && o[q] == b[j - 1 - (q - i - 1)];
      } else {
        assert o[p] == a[p] && o[q] == b[j - 1 - (q - i - 1)];
      }
    }
  }

  /** In `a[..i+1]` followed by `b[..j]` reversed, consecutive vertices are adjacent. */
  lemma SpliceLinks(m: Matrix, a: seq<nat>, b: seq<nat>, i: nat, j: nat)
    requires IsSimpleGraph(m) && IsSimplePath(m, a) && IsSimplePath(m, b)
    requires i < |a| && j < |b| && a[i] == b[j]
    ensures var o := a[..i + 1] + Reversed(b[..j]);
            forall p :: 0 <= p < |o| - 1 ==> m[o[p]][o[p + 1]]
  {
    var o := a[..i + 1] + Reversed(b[..j]);
    forall p | 0 <= p < |o| - 1 ensures m[o[p]][o[p + 1]] {
      if p < i {
        assert o[p] == a[p] && o[p + 1] == a[p + 1];
      } else if p == i {
        assert o[p] == b[j] && o[p + 1] == b[j - 1] && m[b[j - 1]][b[j]];
      } else {
        var r := j - 1 - (p - i - 1);
        assert o[p] == b[r] && o[p + 1] == b[r - 1] && m[b[r - 1]][b[r]];
      }
    }
  }

  /** `a[..i+1]` followed by `b[..j]` reversed closes into a cycle through the edge from `b[0]` to `a[0]`. */
  lemma SpliceCloses(m: Matrix, a: seq<nat>, b: seq<nat>, i: nat, j: nat)
    requires Splicable(m, a, b)
    requires i < |a| && j < |b| && a[i] == b[j]
    requires Distinct(a[..i + 1] + Reversed(b[..j]))
    requires var o := a[..i + 1] + Reversed(b[..j]);
             forall p :: 0 <= p < |o| - 1 ==> m[o[p]][o[p + 1]]
    ensures IsCycle(m, a[..i + 1] + Reversed(b[..j]))
  {
    var o := a[..i + 1] + Reversed(b[..j]);
    if j > 0 {
      assert o[|o| - 1] == b[0];
    } else {
      assert o[|o| - 1] == a[i] == b[0];
    }
    assert a[0] != b[0];
    assert |o| >= 3;
    forall k | 0 <= k < |o| ensures o[k] < |m| {
      if k <= i {
        assert o[k] == a[k];
      } else {
        assert o[k] == b[j - 1 - (k - i - 1)];
      }
    }
  }

  /**
   * Two simple paths to a common last vertex that share suffixes, whose
   * first vertices are adjacent without either being the other's successor:
   * their splice repeats no vertex, and is a cycle once its part after
   * `split` (the part taken from `b`) is read backwards.
   */
  lemma SpliceIsCycle(m: Matrix, a: seq<nat>, b: seq<nat>) returns (split: nat)
    requires Splicable(m, a, b)
    ensures var c := Splice(a, b);
            && 0 < split <= |c| && Distinct(c)
            && IsCycle(m, c[..split] + Reversed(c[split..]))
  {
    MeetingPoint(a, b);
    var i := FirstShared(a, b);
    var j := FirstShared(b, a);
    SpliceDistinct(a, b, i, j);
    SpliceLinks(m, a, b, i, j);
    SpliceCloses(m, a, b, i, j);
    var c := Splice(a, b);
    split := i + 1;
    assert c[..split] == a[..i + 1] && c[split..] == b[..j];
  }

  /**
   * The root paths of the two ends of a non-tree edge between tree
   * vertices can be spliced into a cycle.
   */
  lemma TreeEdgeSplicable(m: Matrix, preds: Preds, depth: map<nat, nat>, root: nat, s: nat, e: nat)
    requires IsSimpleGraph(m) && IsTree(preds, depth, root) && TreeInGraph(m, preds, root)
    requires s in preds && e in preds && m[e][s]
    requires preds[s] != e as int && preds[e] != s as int
    ensures Splicable(m, Ancestors(preds, depth, root, s), Ancestors(preds, depth, root, e))
  {
    AncestorsArePath(m, preds, depth, root, s);
    AncestorsArePath(m, preds, depth, root, e);
    AncestorsShareSuffixes(preds, depth, root, s, e);
  }

  /** `FirstShared` is the index before which no element of `a` is in `b`, and at which one is. */
  lemma FirstSharedIs(a: seq<nat>, b: seq<nat>, i: nat)
    requires i <= |a| && forall l :: 0 <= l < i ==> a[l] !in b
    requires i < |a| ==> a[i] in b
    ensures FirstShared(a, b) == i
  {
  }

  /**
   * The vertices `backtrace_cycle` collects from the two root paths: `a` up
   * to and including its first vertex on `b`, then `b` before its first
   * vertex on `a`.
   */
  function Splice(a: seq<nat>, b: seq<nat>): seq<nat>
  {
    var i := FirstShared(a, b);
    (if i < |a| then a[..i + 1] else a) + b[..FirstShared(b, a)]
  }

  /**
   * `backtrace_cycle(predecessors, start, end)`: splices the paths from
   * `start` and from `end` up to the root.
   */
  method BacktraceCycle(preds: Preds, start: nat, end: nat, ghost depth: map<nat, nat>, ghost root: nat)
    returns (cycle: seq<nat>)
    requires IsTree(preds, depth, root) && start in preds && end in preds
    ensures cycle == Splice(Ancestors(preds, depth, root, start), Ancestors(preds, depth, root, end))
  {
    var startpath := RootPath(preds, start, depth, root);
    var endpath := RootPath(preds, end, depth, root);
    cycle := SplicePaths(startpath, endpath);
  }

  /** The two `for ... break` loops of `backtrace_cycle`. */
  method SplicePaths(startpath: seq<nat>, endpath: seq<nat>) returns (cycle: seq<nat>)
    ensures cycle == Splice(startpath, endpath)
  {
    cycle := [];
    ghost var i := |startpath|;
    for k := 0 to |startpath|
      invariant cycle == startpath[..k] && i == |startpath|
      invariant forall l :: 0 <= l < k ==> startpath[l] !in endpath
    {
      cycle := cycle + [startpath[k]];
      if startpath[k] in endpath {
        i := k;
        break;
      }
    }
    assert i < |startpath| ==> cycle == startpath[..i + 1];
    FirstSharedIs(startpath, endpath, i);
    ghost var left := cycle;
    ghost var j := |endpath|;
    for k := 0 to |endpath|
      invariant cycle == left + endpath[..k] && j == |endpath|
      invariant forall l :: 0 <= l < k ==> endpath[l] !in startpath
    {
      if endpath[k] in startpath {
        j := k;
        break;
      }
      cycle := cycle + [endpath[k]];
    }
    FirstSharedIs(endpath, startpath, j);
  }

  /** `while s != -1: path.append(s); s = predecessors[s]`. */
  method RootPath(preds: Preds, v: nat, ghost depth: map<nat, nat>, ghost root: nat) returns (path: seq<nat>)
    requires IsTree(preds, depth, root) && v in preds
    ensures path == Ancestors(preds, depth, root, v)
  {
    path := [];
    var s: int := v;
    while s != -1
      invariant s == -1 || (s >= 0 && s as nat in preds)
      invariant s >= 0 ==> path + Ancestors(preds, depth, root, s as nat) == Ancestors(preds, depth, root, v)
      invariant s == -1 ==> path == Ancestors(preds, depth, root, v)
      decreases if s < 0 then 0 else depth[s as nat] + 1
    {
      path := path + [s as nat];
      s := preds[s as nat];
    }
  }
}
