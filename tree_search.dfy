/**
 * `search` (shortest_s-t_path/path.py:49-82): a depth-first search over the
 * tree `F` that `stpath` grows from `s`, leaving each vertex's predecessor
 * in a dictionary, then reading the path back from the last vertex popped.
 */
module TreeSearch {
  import opened AdjacencyMatrix
  import opened Sequences

  /** An edge `(i, j)` of `F`, oriented away from the start vertex. */
  type Edge = (nat, nat)

  /** The head of every edge, in order. */
  function Heads(F: seq<Edge>): (r: seq<nat>)
  {
    seq(|F|, k requires 0 <= k < |F| => F[k].1)
  }

  /** The start vertex followed by the heads: the order in which `stpath` adds vertices to `C`. */
  function Vertices(s: nat, F: seq<Edge>): (r: seq<nat>)
  {
    [s] + Heads(F)
  }

  /**
   * `F` was grown from `s`, as `stpath` grows it: every edge leaves a vertex
   * reached before it for a vertex reached by no earlier edge.
   */
  ghost predicate GrownTree(s: nat, F: seq<Edge>)
  {
    && Distinct(Vertices(s, F))
    && forall k :: 0 <= k < |F| ==> TailReached(s, F, k)
  }

  /** The tail of edge `k` is `s` or the head of an earlier edge. */
  ghost predicate TailReached(s: nat, F: seq<Edge>, k: nat)
    requires k < |F|
  {
    F[k].0 in Vertices(s, F)[..k + 1]
  }

  /** The heads of the edges leaving `v`, in the order of `F`. */
  function Children(F: seq<Edge>, v: nat): (r: seq<nat>)
    ensures forall j :: j in r <==> exists k :: 0 <= k < |F| && F[k] == (v, j)
  {
    if F == [] then []
    else
      var init := F[..|F| - 1];
      assert forall k :: 0 <= k < |init| ==> init[k] == F[k];
      Children(init, v) + if F[|F| - 1].0 == v then [F[|F| - 1].1] else []
  }

  /** The first position of `u` in `V`. */
  function IndexIn(V: seq<nat>, u: nat): (i: nat)
    requires u in V
    ensures i < |V| && V[i] == u && u !in V[..i]
  {
    if V[0] == u then 0 else 1 + IndexIn(V[1..], u)
  }

  /** In a grown tree `s` is the head of no edge. */
  lemma RootHasNoParent(s: nat, F: seq<Edge>)
    requires GrownTree(s, F)
    ensures forall k :: 0 <= k < |F| ==> F[k].1 != s
  {
    forall k | 0 <= k < |F| ensures F[k].1 != s {
      assert Vertices(s, F)[k + 1] == Heads(F)[k] == F[k].1;
      assert Vertices(s, F)[0] == s;
    }
  }

  /** In a grown tree the head of an edge has no other parent. */
  lemma ParentOf(s: nat, F: seq<Edge>, a: nat, j: nat)
    requires GrownTree(s, F) && (a, j) in F
    ensures forall b :: (b, j) in F ==> b == a
  {
    var V := Vertices(s, F);
    var k :| 0 <= k < |F| && F[k] == (a, j);
    assert V[k + 1] == Heads(F)[k] == j;
    forall l | 0 <= l < |F| && F[l].1 == j ensures l == k {
      assert V[l + 1] == Heads(F)[l] == j;
    }
  }

  /** A parent comes before its child in the order vertices were reached. */
  lemma ParentEarlier(s: nat, F: seq<Edge>, p: nat, u: nat)
    requires GrownTree(s, F) && (p, u) in F
    ensures p in Vertices(s, F) && u in Vertices(s, F)
    ensures IndexIn(Vertices(s, F), p) < IndexIn(Vertices(s, F), u)
  {
    var V := Vertices(s, F);
    var k :| 0 <= k < |F| && F[k] == (p, u);
    assert V[k + 1] == Heads(F)[k] == u;
    var iu := IndexIn(V, u);
    assert V[iu] == V[k + 1];
    assert TailReached(s, F, k);
    var i :| 0 <= i < k + 1 && V[i] == p;
    var ip := IndexIn(V, p);
    assert V[ip] == V[i];
  }

  /** The children of a vertex are distinct, because the heads are. */
  lemma {:induction false} ChildrenDistinct(F: seq<Edge>, v: nat)
    requires Distinct(Heads(F))
    ensures Distinct(Children(F, v))
  {
    if F != [] {
      var init := F[..|F| - 1];
      assert Heads(init) == Heads(F)[..|F| - 1];
      ChildrenDistinct(init, v);
      if F[|F| - 1].0 == v {
        var j := F[|F| - 1].1;
        forall k | 0 <= k < |init| ensures init[k] != (v, j) {
          assert Heads(F)[k] != Heads(F)[|F| - 1];
        }
        assert j !in Children(init, v);
      }
    }
  }

  /**
   * The inner loop of `search`: for each edge `(i, j)` of `F` leaving `v`,
   * record `v` as the predecessor of `j` and push `j`.
   */
  method PushChildren(F: seq<Edge>, v: nat, stack: seq<nat>, preds: map<nat, int>)
    returns (stack': seq<nat>, preds': map<nat, int>)
    ensures stack' == stack + Children(F, v)
    ensures forall j :: j in preds' <==> j in preds || j in Children(F, v)
    ensures forall j :: j in preds' ==> preds'[j] == if j in Children(F, v) then v as int else preds[j]
  {
    stack', preds' := stack, preds;
    for k := 0 to |F|
      invariant stack' == stack + Children(F[..k], v)
      invariant forall j :: j in preds' <==> j in preds || j in Children(F[..k], v)
      invariant forall j :: j in preds' ==> preds'[j] == if j in Children(F[..k], v) then v as int else preds[j]
    {
      assert F[..k + 1][..k] == F[..k];
      if F[k].0 == v {
        preds' := preds'[F[k].1 := v];
        stack' := stack' + [F[k].1];
      }
    }
    assert F[..|F|] == F;
  }

  /** The vertices of the tree not yet reached by the search. */
  ghost function Unreached(s: nat, F: seq<Edge>, preds: map<nat, int>): set<nat>
  {
    set u | u in Vertices(s, F) && u !in preds
  }

  /**
   * The bookkeeping of the depth-first loop: `done` holds the vertices popped
   * and expanded, and every reached vertex is expanded or on the stack, but
   * not both.
   */
  ghost predicate DfsStack(stack: seq<nat>, preds: map<nat, int>, done: set<nat>)
  {
    && Distinct(stack)
    && (forall k :: 0 <= k < |stack| ==> stack[k] in preds && stack[k] !in done)
    && (forall j :: j in preds ==> j in done || j in stack)
  }

  /**
   * The tree the loop has built: every reached vertex other than `s` points
   * to its parent in `F`, which is expanded; expanded vertices have all their
   * children reached; and `t` is never expanded.
   */
  ghost predicate DfsTree(s: nat, t: nat, F: seq<Edge>, preds: map<nat, int>, done: set<nat>)
  {
    && s in preds && preds[s] == -1
    && (forall j :: j in done ==> j in preds)
    && (forall j :: j in preds ==> j in Vertices(s, F))
    && (forall j :: j in preds && j != s ==> preds[j] >= 0 && (preds[j] as nat, j) in F && preds[j] as nat in done)
    && t !in done
    && (forall k :: 0 <= k < |F| && F[k].0 in done ==> F[k].1 in preds)
  }

  ghost predicate DfsState(s: nat, t: nat, F: seq<Edge>, stack: seq<nat>, preds: map<nat, int>, done: set<nat>)
  {
    DfsStack(stack, preds, done) && DfsTree(s, t, F, preds, done)
  }

  lemma StartDfs(s: nat, t: nat, F: seq<Edge>)
    requires GrownTree(s, F)
    ensures DfsState(s, t, F, [s], map[s := -1], {})
  {
  }

  /** The heads of a grown tree are distinct. */
  lemma HeadsDistinct(s: nat, F: seq<Edge>)
    requires Distinct(Vertices(s, F))
    ensures Distinct(Heads(F))
  {
    forall k, l | 0 <= k < l < |F| ensures Heads(F)[k] != Heads(F)[l] {
      assert Vertices(s, F)[k + 1] == Heads(F)[k];
      assert Vertices(s, F)[l + 1] == Heads(F)[l];
    }
  }

  /** The children of a vertex not yet expanded have not been reached. */
  lemma KidsFresh(s: nat, F: seq<Edge>, preds: map<nat, int>, done: set<nat>, v: nat)
    requires GrownTree(s, F) && v !in done
    requires forall j :: j in preds && j != s ==> preds[j] >= 0 && (preds[j] as nat, j) in F && preds[j] as nat in done
    ensures forall j :: j in Children(F, v) ==> j !in preds && j != s && j in Vertices(s, F)
  {
    RootHasNoParent(s, F);
    forall j | j in preds && j != s ensures (v, j) !in F {
      ParentOf(s, F, preds[j] as nat, j);
    }
    forall j | j in Children(F, v) ensures j in Vertices(s, F) {
      var k :| 0 <= k < |F| && F[k] == (v, j);
      assert Vertices(s, F)[k + 1] == Heads(F)[k] == j;
    }
  }

  /** Two distinct sequences, the second avoiding a set that holds the first, concatenate to a distinct one. */
  lemma ConcatDistinct(a: seq<nat>, b: seq<nat>, reached: set<nat>)
    requires Distinct(a) && Distinct(b)
    requires forall k :: 0 <= k < |a| ==> a[k] in reached
    requires forall k :: 0 <= k < |b| ==> b[k] !in reached
    ensures Distinct(a + b)
  {
    var c := a + b;
    forall k, l | 0 <= k < l < |c| ensures c[k] != c[l] {
      if l < |a| {
        assert c[k] == a[k] && c[l] == a[l];
      } else if k >= |a| {
        assert c[k] == b[k - |a|] && c[l] == b[l - |a|];
      } else {
        assert c[k] == a[k] && c[l] == b[l - |a|];
      }
    }
  }

  /** Popping `v` and pushing its children, none of them reached before, keeps the bookkeeping. */
  lemma PopKeepsStack(stack: seq<nat>, preds: map<nat, int>, done: set<nat>, kids: seq<nat>, preds': map<nat, int>)
    requires DfsStack(stack, preds, done) && stack != [] && Distinct(kids)
    requires forall j :: j in done ==> j in preds
    requires forall k :: 0 <= k < |kids| ==> kids[k] !in preds
    requires forall j :: j in preds' <==> j in preds || j in kids
    ensures DfsStack(stack[..|stack| - 1] + kids, preds', done + {stack[|stack| - 1]})
  {
    var v := stack[|stack| - 1];
    var rest := stack[..|stack| - 1];
    var stack' := rest + kids;
    var done' := done + {v};
    assert forall k :: 0 <= k < |rest| ==> rest[k] == stack[k];
    ConcatDistinct(rest, kids, preds.Keys);
    forall k | 0 <= k < |stack'| ensures stack'[k] in preds' && stack'[k] !in done' {
      if k < |rest| {
        assert stack'[k] == stack[k];
        assert stack[k] != v;
      } else {
        assert stack'[k] == kids[k - |rest|];
      }
    }
    forall j | j in preds' ensures j in done' || j in stack' {
      if j !in kids && j != v && j !in done {
        var k :| 0 <= k < |stack| && stack[k] == j;
        assert k != |stack| - 1;
        assert stack'[k] == j;
      }
    }
  }

  /** Expanding `v` (not `t`, not expanded before) keeps the tree facts. */
  lemma PopKeepsTree(s: nat, t: nat, F: seq<Edge>, preds: map<nat, int>, done: set<nat>, v: nat, preds': map<nat, int>)
    requires GrownTree(s, F) && DfsTree(s, t, F, preds, done) && v in preds && v !in done && v != t
    requires forall j :: j in preds' <==> j in preds || j in Children(F, v)
    requires forall j :: j in preds' ==> preds'[j] == if j in Children(F, v) then v as int else preds[j]
    ensures DfsTree(s, t, F, preds', done + {v})
  {
    var kids := Children(F, v);
    var done' := done + {v};
    KidsFresh(s, F, preds, done, v);
    forall j | j in preds' && j != s
      ensures preds'[j] >= 0 && (preds'[j] as nat, j) in F && preds'[j] as nat in done'
    {
      if j in kids {
        var k :| 0 <= k < |F| && F[k] == (v, j);
      }
    }
    forall k | 0 <= k < |F| && F[k].0 in done' ensures F[k].1 in preds' {
      if F[k].0 == v {
        assert F[k].1 in kids;
      }
    }
  }

  /** Expanding a vertex either reaches a new vertex or shortens the stack. */
  lemma PopShrinks(s: nat, F: seq<Edge>, rest: seq<nat>, kids: seq<nat>, preds: map<nat, int>, preds': map<nat, int>)
    requires forall j :: j in preds' <==> j in preds || j in kids
    requires forall k :: 0 <= k < |kids| ==> kids[k] !in preds && kids[k] in Vertices(s, F)
    ensures Unreached(s, F, preds') < Unreached(s, F, preds)
         || (Unreached(s, F, preds') == Unreached(s, F, preds) && |rest + kids| < |rest| + 1)
  {
    if kids == [] {
      assert Unreached(s, F, preds') == Unreached(s, F, preds);
    } else {
      assert kids[0] in Unreached(s, F, preds) - Unreached(s, F, preds');
    }
  }

  /**
   * One pass of the depth-first loop that pops `v` (not `t`) and pushes its
   * children keeps the loop state, and reaches a new vertex or shortens the stack.
   */
  lemma DfsStep(s: nat, t: nat, F: seq<Edge>, stack: seq<nat>, preds: map<nat, int>, done: set<nat>,
                preds': map<nat, int>)
    requires GrownTree(s, F) && DfsState(s, t, F, stack, preds, done) && stack != []
    requires stack[|stack| - 1] != t
    requires forall j :: j in preds' <==> j in preds || j in Children(F, stack[|stack| - 1])
    requires forall j :: j in preds' ==> preds'[j] == if j in Children(F, stack[|stack| - 1]) then stack[|stack| - 1] as int else preds[j]
    ensures DfsState(s, t, F, stack[..|stack| - 1] + Children(F, stack[|stack| - 1]), preds', done + {stack[|stack| - 1]})
    ensures Unreached(s, F, preds') < Unreached(s, F, preds)
         || (Unreached(s, F, preds') == Unreached(s, F, preds) && |stack[..|stack| - 1] + Children(F, stack[|stack| - 1])| < |stack|)
  {
    var v := stack[|stack| - 1];
    HeadsDistinct(s, F);
    ChildrenDistinct(F, v);
    KidsFresh(s, F, preds, done, v);
    PopKeepsStack(stack, preds, done, Children(F, v), preds');
    PopKeepsTree(s, t, F, preds, done, v, preds');
    PopShrinks(s, F, stack[..|stack| - 1], Children(F, v), preds, preds');
  }

  /**
   * When the expanded vertices contain `s` and every child of an expanded
   * vertex is expanded, every vertex of the tree is expanded.
   */
  lemma {:induction false} ClosedCoversTree(s: nat, F: seq<Edge>, done: set<nat>, i: nat)
    requires GrownTree(s, F) && s in done && i < |Vertices(s, F)|
    requires forall k :: 0 <= k < |F| && F[k].0 in done ==> F[k].1 in done
    ensures Vertices(s, F)[i] in done
  {
    var V := Vertices(s, F);
    if i > 0 {
      var k := i - 1;
      assert TailReached(s, F, k);
      var p :| 0 <= p < k + 1 && V[p] == F[k].0;
      ClosedCoversTree(s, F, done, p);
      assert V[i] == F[k].1;
    }
  }

  /**
   * The walk back so far: `back` lists vertices from `v`, each followed by
   * its parent, and `u` is the parent of the last one (-1 once `s` is listed).
   */
  ghost predicate BackChain(s: nat, F: seq<Edge>, v: nat, back: seq<nat>, u: int)
  {
    && (|back| == 0 ==> u == v)
    && (|back| > 0 ==> back[0] == v)
    && (|back| > 0 && u == -1 ==> back[|back| - 1] == s)
    && (|back| > 0 && u != -1 ==> u >= 0 && (u as nat, back[|back| - 1]) in F)
    && (forall k :: 0 <= k < |back| - 1 ==> (back[k + 1], back[k]) in F)
  }

  lemma BackStep(s: nat, F: seq<Edge>, v: nat, back: seq<nat>, w: nat, p: int)
    requires BackChain(s, F, v, back, w)
    requires p == -1 ==> w == s
    requires p != -1 ==> p >= 0 && (p as nat, w) in F
    ensures BackChain(s, F, v, back + [w], p)
  {
    var back' := back + [w];
    forall k | 0 <= k < |back'| - 1 ensures (back'[k + 1], back'[k]) in F {
      if k < |back| - 1 {
        assert back'[k + 1] == back[k + 1] && back'[k] == back[k];
      } else {
        assert back'[k + 1] == w && back'[k] == back[|back| - 1];
      }
    }
  }

  /**
   * The walk back along the predecessors, `while v != -1`: from a reached
   * vertex `v` to `s`, listing each vertex before its parent.
   */
  method WalkBack(s: nat, F: seq<Edge>, preds: map<nat, int>, v: nat) returns (back: seq<nat>)
    requires GrownTree(s, F) && v in preds
    requires s in preds && preds[s] == -1
    requires forall j :: j in preds ==> j in Vertices(s, F)
    requires forall j :: j in preds && j != s ==> preds[j] >= 0 && (preds[j] as nat, j) in F && preds[j] as nat in preds
    ensures |back| >= 1 && back[0] == v && back[|back| - 1] == s
    ensures forall k :: 0 <= k < |back| - 1 ==> (back[k + 1], back[k]) in F
  {
    back := [];
    var u: int := v;
    while u != -1
      invariant u == -1 || (u >= 0 && u as nat in preds)
      invariant BackChain(s, F, v, back, u)
      decreases if u < 0 then 0 else 1 + IndexIn(Vertices(s, F), u as nat)
    {
      var w := u as nat;
      if w != s {
        ParentEarlier(s, F, preds[w] as nat, w);
      }
      BackStep(s, F, v, back, w, preds[w]);
      back := back + [w];
      u := preds[w];
    }
  }

  /**
   * The depth-first loop of `search`: pops vertices until it pops `t` or the
   * stack runs out. Returns the predecessors left behind and the last vertex
   * popped, which is `t` exactly when `t` is a vertex of the tree.
   */
  method Dfs(s: nat, t: nat, F: seq<Edge>) returns (preds: map<nat, int>, v: nat, ghost done: set<nat>)
    requires GrownTree(s, F)
    ensures DfsTree(s, t, F, preds, done) && v in preds
    ensures v == t <==> t in Vertices(s, F)
  {
    preds := map[s := -1];
    var stack := [s];
    v := s;
    done := {};
    StartDfs(s, t, F);
    while stack != []
      invariant DfsState(s, t, F, stack, preds, done)
      invariant v in preds
      invariant v in done || (done == {} && stack == [s])
      decreases Unreached(s, F, preds), |stack|
    {
      v := stack[|stack| - 1];
      if v == t {
        stack := stack[..|stack| - 1];
        break;
      }
      var preds';
      ghost var stack0 := stack;
      stack, preds' := PushChildren(F, v, stack[..|stack| - 1], preds);
      DfsStep(s, t, F, stack0, preds, done, preds');
      preds := preds';
      done := done + {v};
    }
    if v != t {
      assert forall k :: 0 <= k < |F| && F[k].0 in done ==> F[k].1 in done;
      if t in Vertices(s, F) {
        var i :| 0 <= i < |Vertices(s, F)| && Vertices(s, F)[i] == t;
        ClosedCoversTree(s, F, done, i);
      }
    }
  }

  /** A walk back along edges of `F`, read forwards, follows edges of `F` from its last vertex to its first. */
  lemma ReversedWalk(F: seq<Edge>, back: seq<nat>)
    requires |back| >= 1 && forall k :: 0 <= k < |back| - 1 ==> (back[k + 1], back[k]) in F
    ensures var path := Reversed(back);
            && |path| == |back| && path[0] == back[|back| - 1] && path[|path| - 1] == back[0]
            && forall k :: 0 <= k < |path| - 1 ==> (path[k], path[k + 1]) in F
  {
    var path := Reversed(back);
    forall k | 0 <= k < |path| - 1 ensures (path[k], path[k + 1]) in F {
      assert path[k] == back[|back| - 1 - k] && path[k + 1] == back[|back| - 2 - k];
    }
  }

  /**
   * `search(s, t, F)` on a tree grown from `s`. Returns a path of edges of
   * `F` that starts at `s`; it ends at `t` exactly when `t` is a vertex of
   * the tree (otherwise at the last vertex the search popped).
   */
  method Search(s: nat, t: nat, F: seq<Edge>) returns (path: seq<nat>)
    requires GrownTree(s, F)
    ensures |path| >= 1 && path[0] == s
    ensures forall k :: 0 <= k < |path| - 1 ==> (path[k], path[k + 1]) in F
    ensures path[|path| - 1] == t <==> t in Vertices(s, F)
  {
    var preds, v, done := Dfs(s, t, F);
    var back := WalkBack(s, F, preds, v);
    ReversedWalk(F, back);
    path := Reversed(back);
  }
}
