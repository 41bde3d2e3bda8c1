# Primal-dual graph algorithms, modelled in Dafny

This project models two small graph algorithms from a Python repository of
primal-dual methods and proves what they achieve. Both work on an n-by-n
adjacency matrix.

* **Feedback vertex set** (`feedback_vertex_set/feedback.py`). `feedback_vertex` approximates a
  minimum-weight feedback vertex set. It works on a copy of the graph. It repeats three steps:
  * prune vertices of degree 1 (`remove_vertices`);
  * find a cycle (`find_cycle`, which calls `find_deg2_cycle` or `find_deg3_cycle` and
    `backtrace_cycle`);
  * raise the dual value of every cycle vertex by the smallest headroom `w - x`, put the first
    vertex that became tight into `F`, and disconnect it.

  It stops when pruning leaves no edge.
* **Shortest s-t path** (`shortest_s-t_path/path.py`). `stpath` is Dijkstra's algorithm in
  primal-dual form. Each round, it:
  * takes the edges leaving a cut `C` that grows from `s`;
  * raises the dual `x` on all of them, and on their reverses, by the smallest reduced cost
    `G - x` among them;
  * adds the edge that became tight to a tree `F`, and its head to `C`.

  `search` then walks the tree depth-first from `s` and reads the path to `t` back from a
  dictionary of predecessors.

Both sources are imperative, and so is the model. The graph and dual arrays that the source
mutates in place are `array2`/`array` values, changed by methods with `modifies` clauses. The
loops become `while` loops with invariants. Every method is proved against specification
functions on sequence snapshots of the arrays (`Snap`, `Vals`, `x[..]`). Lemmas prove what the
algorithms promise about those functions:

* `FeedbackVertex` returns distinct vertices that meet every cycle of the caller's graph, whose
  deletion leaves it acyclic. The duals end tight on `F` and, for non-negative weights, stay
  between 0 and the weights. The caller's matrix is unchanged.
* `RemoveVertices` only disconnects vertices of degree at most 1, keeps every cycle, leaves no
  vertex of degree 1, reports whether an edge remains, and changes nothing when there was no
  vertex of degree 1.
* `FindDeg2Cycle` returns a simple cycle in walk order, starting at the lowest vertex of
  degree 2.
* `FindDeg3Cycle` returns `None` exactly when no vertex has degree above 2. Otherwise it returns
  a cycle as `backtrace_cycle` collects it: distinct vertices that form a cycle once the part
  taken from the second root path is read backwards. The predecessor map stays a tree, and no
  entry of it is ever overwritten.
* `StPath` returns `None` exactly when `t` cannot be reached from `s` along edges of finite
  cost. Otherwise it returns a walk from `s` to `t` along the grown tree. When all costs are
  non-negative, no walk from `s` to `t` costs less. The proof uses potentials: `pi[v]` is the
  total raise at the moment `v` joined `C`.
* `Search`, on a tree grown as `stpath` grows it, returns a path of tree edges from `s`. The path
  ends at `t` exactly when `t` is in the tree.

The docstring of `stpath` asks for `s != t`, but the code handles `s == t`: the loop does not
run and the result is `[s]`. The model follows the code.

## Model

| member | source | states |
|---|---|---|
| AdjacencyMatrix.Degrees | feedback_vertex_set/feedback.py:56 | `G.sum(1)`: entry `v` is the number of neighbours of `v` |
| AdjacencyMatrix.NeighboursExcept | feedback_vertex_set/feedback.py:152-153 | the neighbours of `v` other than `ex`, all of them, in increasing order |
| AdjacencyMatrix.FirstNeighbourExcept | feedback_vertex_set/feedback.py:108-109 | the lowest neighbour other than `ex`, which exists when the degree is at least 2 |
| AdjacencyMatrix.DisconnectVertex | feedback_vertex_set/feedback.py:38-39 | the new matrix is the old one with row and column `v` zeroed |
| AdjacencyMatrix.DisconnectFacts | feedback_vertex_set/feedback.py:38-39 | zeroing row and column `v` keeps the graph simple, isolates `v`, adds no entry and changes no entry off row and column `v` |
| AdjacencyMatrix.DisconnectShrinks | feedback_vertex_set/feedback.py:38-39 | disconnecting a vertex with a neighbour strictly shrinks the edge set |
| AdjacencyMatrix.DisconnectKeepsCycle | feedback_vertex_set/feedback.py:38-39 | a cycle avoiding the disconnected vertex remains a cycle |
| AdjacencyMatrix.DisconnectLeafKeepsCycles | feedback_vertex_set/feedback.py:59-61 | disconnecting a vertex of degree at most 1 keeps every cycle |
| AdjacencyMatrix.EmptyAcyclic | feedback_vertex_set/feedback.py:63 | a matrix with no entry left has no cycle |
| AdjacencyMatrix.SubgraphDegree | feedback_vertex_set/feedback.py:59-61 | removing edges never raises a degree |
| Pruning.PruneKeepsCycles | feedback_vertex_set/feedback.py:57-62 | disconnecting a sequence of leaves keeps the graph simple, only deletes entries, and keeps every cycle |
| Pruning.DegreeOneVertices | feedback_vertex_set/feedback.py:58 | exactly the indices of degree 1, in increasing order |
| Pruning.DisconnectOnes | feedback_vertex_set/feedback.py:59-61 | the pass disconnects a leaf sequence, keeps the graph simple, and removes at least one edge when `ones` is non-empty |
| Pruning.AnyEdge | feedback_vertex_set/feedback.py:63 | true exactly when some entry of the matrix is set |
| Pruning.RemoveVertices | feedback_vertex_set/feedback.py:43-63 | the result is the input with a leaf sequence disconnected, no vertex has degree 1, the result is true iff an edge remains, and a graph without leaves is left unchanged |
| RingWalk.WalkStepIsFresh | feedback_vertex_set/feedback.py:107-115 | a step of the ring walk to a vertex other than the start never revisits a vertex |
| RingWalk.RingStep | feedback_vertex_set/feedback.py:110-115 | such a step extends the walk, a simple path of degree-2 vertices, and stays within n vertices |
| RingWalk.RingClose | feedback_vertex_set/feedback.py:112-113 | a step back to the start closes a simple cycle |
| RingWalk.FirstOfDegree | feedback_vertex_set/feedback.py:100-103 | the lowest index holding the given degree |
| RingWalk.FirstDegreeTwo | feedback_vertex_set/feedback.py:98-103 | the lowest vertex of degree 2 |
| RingWalk.FindDeg2Cycle | feedback_vertex_set/feedback.py:85-117 | when every degree is 0 or 2, a simple cycle in walk order that starts at the lowest vertex of degree 2 |
| PredecessorTree.AncestorsFacts | feedback_vertex_set/feedback.py:195-200 | the root path of a tree vertex starts at it, ends at the root, follows the predecessors and repeats no vertex |
| PredecessorTree.AncestorsSuffix | feedback_vertex_set/feedback.py:195-200 | every suffix of a root path is the root path of its first vertex |
| PredecessorTree.AncestorsArePath | feedback_vertex_set/feedback.py:195-200 | a root path is a simple path of the graph whose second vertex is the predecessor |
| PredecessorTree.AncestorsShareSuffixes | feedback_vertex_set/feedback.py:195-200 | two root paths continue identically from any vertex they share |
| PredecessorTree.MeetingPoint | feedback_vertex_set/feedback.py:201-208 | the first vertex of one root path on the other is the first vertex of the other on the one |
| PredecessorTree.SpliceDistinct | feedback_vertex_set/feedback.py:201-208 | the two collected parts together repeat no vertex |
| PredecessorTree.SpliceLinks | feedback_vertex_set/feedback.py:201-208 | the first part followed by the second reversed is a walk of graph edges |
| PredecessorTree.SpliceCloses | feedback_vertex_set/feedback.py:201-208 | that walk closes into a cycle through the edge joining the two start vertices |
| PredecessorTree.SpliceIsCycle | feedback_vertex_set/feedback.py:201-208 | the list `backtrace_cycle` builds is distinct and is a cycle once its second part is reversed |
| PredecessorTree.TreeEdgeSplicable | feedback_vertex_set/feedback.py:172-173 | a graph edge between tree vertices that is not a tree link joins two root paths that can be spliced |
| PredecessorTree.RootPath | feedback_vertex_set/feedback.py:195-200 | the loop collects exactly the root path |
| PredecessorTree.SplicePaths | feedback_vertex_set/feedback.py:201-208 | the two `for ... break` loops collect the splice of the two paths |
| PredecessorTree.BacktraceCycle | feedback_vertex_set/feedback.py:180-209 | `backtrace_cycle` returns the splice of the root paths of `start` and `end` |
| CycleFinder.MaxOf | feedback_vertex_set/feedback.py:81 | `max`: an entry no entry exceeds |
| CycleFinder.TopTwo | feedback_vertex_set/feedback.py:81-82 | with no leaf and maximum degree 2, every degree is 0 or 2 and one is 2 |
| CycleFinder.TopNotTwo | feedback_vertex_set/feedback.py:81-83 | with no leaf and no degree above 2 but maximum not 2, no edge is left |
| CycleFinder.FindCycle | feedback_vertex_set/feedback.py:66-83 | `None` exactly when no edge is left, otherwise a distinct cycle (in order when no degree exceeds 2) |
| ChainSearch.FirstAbove | feedback_vertex_set/feedback.py:140-144 | the lowest index whose degree exceeds the bound, or n when none does |
| ChainSearch.FollowChain | feedback_vertex_set/feedback.py:160-168 | following a chain of degree-2 vertices keeps the search state and ends at a vertex of degree above 2 |
| ChainSearch.ExpandNeighbour | feedback_vertex_set/feedback.py:157-176 | one neighbour either closes a cycle or has its chain end hung in the tree and queued |
| ChainSearch.FollowAllChains | feedback_vertex_set/feedback.py:155-176 | the neighbours are followed in order until one closes a cycle or all are done |
| ChainSearch.ExpandVertex | feedback_vertex_set/feedback.py:150-176 | one pop either returns a cycle or keeps the search state and grows the tree or shortens the queue |
| ChainSearch.FindDeg3Cycle | feedback_vertex_set/feedback.py:119-178 | `None` exactly when no vertex has degree above 2, otherwise a distinct cycle in split form |
| SearchInvariant.StartState | feedback_vertex_set/feedback.py:140-144 | the start vertex, queued with predecessor -1, satisfies the search state |
| SearchInvariant.QueueTail | feedback_vertex_set/feedback.py:151 | `popleft` keeps the queue distinct and removes exactly its head |
| SearchInvariant.QueueAppend | feedback_vertex_set/feedback.py:175 | appending a new vertex keeps the queue distinct |
| SearchInvariant.PopKeepsState | feedback_vertex_set/feedback.py:151 | the popped vertex is a tree vertex of degree above 2, and the state holds with it current |
| SearchInvariant.ChainTargetIsNew | feedback_vertex_set/feedback.py:161-164 | a degree-2 vertex reached along a chain is not yet in the tree, so no predecessor is overwritten |
| SearchInvariant.ClosedNeighbours | feedback_vertex_set/feedback.py:161-164 | a closed neighbour of an open tree vertex is its predecessor or its recorded child |
| SearchInvariant.TreeAttach | feedback_vertex_set/feedback.py:164 | hanging a new vertex under a tree vertex keeps a tree |
| SearchInvariant.TreeInGraphAttach | feedback_vertex_set/feedback.py:164 | the new tree link is a graph edge |
| SearchInvariant.ClosedAttach | feedback_vertex_set/feedback.py:164 | closed vertices still point at their children |
| SearchInvariant.AttachBookkeeping | feedback_vertex_set/feedback.py:164 | the marks, the queue and the recorded children after a vertex is hung in the tree |
| SearchInvariant.AttachKeepsState | feedback_vertex_set/feedback.py:164 | `predecessors[neighbor] = pathcurrent` keeps the search state |
| SearchInvariant.QueueChainEnd | feedback_vertex_set/feedback.py:175 | queuing a chain end of degree above 2 keeps the search state |
| SearchInvariant.RediscoveryIsNotParent | feedback_vertex_set/feedback.py:172-173 | a chain end already in the tree is not the child of the vertex it was reached from |
| SearchInvariant.FinishPointBack | feedback_vertex_set/feedback.py:155-176 | closing the expanded vertex keeps every closed vertex pointing at its children |
| SearchInvariant.FinishKeepsState | feedback_vertex_set/feedback.py:155-176 | once all its neighbours are followed, the vertex is closed and the state holds |
| SearchInvariant.TreeHasOpenVertex | feedback_vertex_set/feedback.py:177-178 | some tree vertex is never closed, so the queue never runs dry and `None` is never returned |
| SearchInvariant.ChainStart | feedback_vertex_set/feedback.py:160 | the chain state holds at the start of a chain |
| SearchInvariant.ChainVertexIsNew | feedback_vertex_set/feedback.py:161-164 | a degree-2 vertex met along the chain is new and has a second neighbour |
| SearchInvariant.ChainStep | feedback_vertex_set/feedback.py:164-168 | one step along the chain keeps the chain state |
| SearchInvariant.ChainLinksStep | feedback_vertex_set/feedback.py:164-168 | one step along the chain keeps its links |
| SearchInvariant.PushChainEnd | feedback_vertex_set/feedback.py:175-176 | hanging and queueing a new chain end keeps the expansion state |
| SearchInvariant.AttachAndQueue | feedback_vertex_set/feedback.py:175-176 | hanging and queueing keeps the search state |
| SearchInvariant.ChainCycle | feedback_vertex_set/feedback.py:172-173 | a chain ending in the tree closes a cycle, the splice of the two root paths |
| SearchInvariant.EnumerateNext | feedback_vertex_set/feedback.py:155 | each neighbour of the increasing list is new to the set of those done |
| SearchInvariant.AllNeighboursDone | feedback_vertex_set/feedback.py:152-155 | after the loop every neighbour but the predecessor is done |
| SearchInvariant.SearchProgress | feedback_vertex_set/feedback.py:150 | each pop grows the tree or shortens the queue |
| FeedbackVertexSet.ArgMin | feedback_vertex_set/feedback.py:35 | `np.argmin`: a smallest entry, with no smaller-or-equal entry earlier |
| FeedbackVertexSet.RaiseByMinHeadroom | feedback_vertex_set/feedback.py:32-35 | the argmin vertex becomes tight, vertices off the cycle keep their duals, and duals in `[0, w]` rise and stay in range |
| FeedbackVertexSet.RaiseDuals | feedback_vertex_set/feedback.py:34 | `x[cycle] += h` in place |
| FeedbackVertexSet.RaiseCycle | feedback_vertex_set/feedback.py:32-35 | the duals are raised by the smallest headroom and the first vertex of smallest headroom is returned |
| FeedbackVertexSet.DualRound | feedback_vertex_set/feedback.py:32-37 | a round keeps every chosen vertex tight and, for non-negative weights, all duals in range |
| FeedbackVertexSet.CutAndPrune | feedback_vertex_set/feedback.py:30-39 | disconnecting the vertex and pruning leaves no leaf and reports whether an edge remains |
| FeedbackVertexSet.RoundKeepsCycles | feedback_vertex_set/feedback.py:30-39 | every cycle avoiding the grown `F` survives the round |
| FeedbackVertexSet.RoundShrinks | feedback_vertex_set/feedback.py:30-39 | a round strictly shrinks the edge set, so the loop terminates |
| FeedbackVertexSet.SplitFormVertices | feedback_vertex_set/feedback.py:31 | every vertex `find_cycle` returns has degree at least 2 |
| FeedbackVertexSet.ChosenOffCycle | feedback_vertex_set/feedback.py:35-37 | no vertex already in `F` lies on the new cycle |
| FeedbackVertexSet.GrownDistinct | feedback_vertex_set/feedback.py:37 | the vertex added to `F` is not already in it |
| FeedbackVertexSet.GrownIsolated | feedback_vertex_set/feedback.py:37-39 | after a round every vertex of `F` has no neighbour |
| FeedbackVertexSet.GraphRound | feedback_vertex_set/feedback.py:30-39 | a round keeps the graph invariant for the grown `F` |
| FeedbackVertexSet.Round | feedback_vertex_set/feedback.py:30-39 | one iteration keeps both invariants and strictly shrinks the edge set |
| FeedbackVertexSet.DisconnectAllFacts | feedback_vertex_set/feedback.py:37-39 | disconnecting the vertices of `F` isolates them in a simple subgraph |
| FeedbackVertexSet.HittingSetIsFeedback | feedback_vertex_set/feedback.py:10-12 | a set meeting every cycle leaves the graph acyclic once its vertices are deleted |
| FeedbackVertexSet.CopyMatrix | feedback_vertex_set/feedback.py:19 | `np.copy`: a fresh matrix with the same entries |
| FeedbackVertexSet.FeedbackVertex | feedback_vertex_set/feedback.py:9-41 | distinct vertices meeting every cycle, whose deletion leaves the graph acyclic; duals tight on `F` and within the weights; the input is unchanged |
| TreeSearch.Children | shortest_s-t_path/path.py:72-75 | exactly the heads of the edges leaving `v` |
| TreeSearch.RootHasNoParent | shortest_s-t_path/path.py:56-57 | in a grown tree `s` is the head of no edge |
| TreeSearch.ParentOf | shortest_s-t_path/path.py:56-57 | in a grown tree every head has one parent |
| TreeSearch.ParentEarlier | shortest_s-t_path/path.py:56-57 | a parent was reached before its child |
| TreeSearch.HeadsDistinct | shortest_s-t_path/path.py:42-43 | the heads of a grown tree are distinct |
| TreeSearch.ChildrenDistinct | shortest_s-t_path/path.py:72-75 | the children of a vertex are distinct |
| TreeSearch.PushChildren | shortest_s-t_path/path.py:72-75 | pushes exactly the children and records `v` as their predecessor |
| TreeSearch.StartDfs | shortest_s-t_path/path.py:64-65 | the loop state holds with `stack = [s]` and `preds[s] = -1` |
| TreeSearch.KidsFresh | shortest_s-t_path/path.py:72-75 | the children of an unexpanded vertex are not yet reached |
| TreeSearch.PopKeepsStack | shortest_s-t_path/path.py:68-75 | pop and push keep the stack bookkeeping |
| TreeSearch.PopKeepsTree | shortest_s-t_path/path.py:68-75 | pop and push keep the predecessor tree facts |
| TreeSearch.PopShrinks | shortest_s-t_path/path.py:68-75 | each pass reaches a new vertex or shortens the stack |
| TreeSearch.DfsStep | shortest_s-t_path/path.py:68-75 | one pass keeps the loop state and makes progress |
| TreeSearch.ClosedCoversTree | shortest_s-t_path/path.py:68-71 | when the stack runs out every tree vertex was expanded |
| TreeSearch.Dfs | shortest_s-t_path/path.py:60-75 | the last vertex popped is `t` exactly when `t` is in the tree |
| TreeSearch.BackStep | shortest_s-t_path/path.py:78-80 | one step of the walk back keeps each vertex followed by its parent |
| TreeSearch.WalkBack | shortest_s-t_path/path.py:78-80 | from `v` back to `s` along tree edges |
| TreeSearch.ReversedWalk | shortest_s-t_path/path.py:82 | read forwards, the walk back follows tree edges from `s` |
| TreeSearch.Search | shortest_s-t_path/path.py:49-82 | a path of tree edges from `s`, ending at `t` exactly when `t` is in the tree |
| Costs.WalkLeavesCut | shortest_s-t_path/path.py:34-36 | a walk from inside a cut to outside uses a finite edge leaving it |
| Costs.PotentialBound | shortest_s-t_path/path.py:9-10 | under a feasible potential every walk costs at least the rise of the potential |
| Costs.TightWalkCost | shortest_s-t_path/path.py:9-10 | a walk of tight edges costs exactly the rise of the potential |
| PrimalDual.Row | shortest_s-t_path/path.py:26-27 | the crossing pairs of one row, by increasing column |
| PrimalDual.CrossingRows | shortest_s-t_path/path.py:26-27 | the crossing pairs of the first rows, in row-major order |
| PrimalDual.RowsAppend | shortest_s-t_path/path.py:26-27 | appending a later row keeps row-major order |
| PrimalDual.Crossing | shortest_s-t_path/path.py:26-27 | `deltaC`: exactly the pairs leaving `C`, in row-major order |
| PrimalDual.LexDistinct | shortest_s-t_path/path.py:26-27 | `deltaC` repeats no pair |
| PrimalDual.FirstMin | shortest_s-t_path/path.py:30 | `min`: a least key, and strictly below every earlier key |
| PrimalDual.ChosenFirst | shortest_s-t_path/path.py:30 | among pairs of least reduced cost the chosen one is first in row-major order |
| PrimalDual.MinInfAllInf | shortest_s-t_path/path.py:35 | when the least key is infinite, every key is |
| PrimalDual.CutClosed | shortest_s-t_path/path.py:34-36 | if every crossing reduced cost is infinite, no finite edge leaves `C` |
| PrimalDual.ClosedCutUnreachable | shortest_s-t_path/path.py:34-36 | then `t` outside `C` cannot be reached from `s` |
| PrimalDual.BumpStep | shortest_s-t_path/path.py:37-39 | each crossing pair adds `y` to its entry and to the reverse entry |
| PrimalDual.RaiseCrossing | shortest_s-t_path/path.py:37-39 | the in-place loop computes the raised duals |
| PrimalDual.RaisedEntry | shortest_s-t_path/path.py:37-39 | a pair leaving `C`, or its reverse, rises by `y`; other entries keep their value |
| PrimalDual.ChosenTight | shortest_s-t_path/path.py:28-39 | after the raise the chosen edge's dual equals its cost |
| PrimalDual.RaiseWithinCost | shortest_s-t_path/path.py:28-39 | after the raise no crossing edge's dual exceeds its cost |
| PrimalDual.StartInv | shortest_s-t_path/path.py:20-22 | the invariant holds for `x = 0`, `C = [s]`, `F = []` |
| PrimalDual.TreeStep | shortest_s-t_path/path.py:42-43 | appending the chosen edge and its head keeps `F` a tree grown from `s` and `C` its vertices |
| PrimalDual.DualCutStep | shortest_s-t_path/path.py:37-43 | the raised duals are `Y - pi[a]` on pairs leaving the grown `C` and 0 outside it |
| PrimalDual.TreeEdgesInside | shortest_s-t_path/path.py:42-43 | every tree edge joins two vertices of `C` |
| PrimalDual.TreeEdgesTight | shortest_s-t_path/path.py:42-43 | every tree edge costs exactly the rise of the potential |
| PrimalDual.DualStep | shortest_s-t_path/path.py:37-43 | one round keeps the dual part of the invariant |
| PrimalDual.PotInside | shortest_s-t_path/path.py:37-43 | with non-negative costs no edge inside `C` rises by more than its cost |
| PrimalDual.PotLeaving | shortest_s-t_path/path.py:37-43 | with non-negative costs no edge leaving `C` is exceeded by its dual |
| PrimalDual.PotRange | shortest_s-t_path/path.py:37-43 | every potential lies between 0 and the total raise |
| PrimalDual.PotStep | shortest_s-t_path/path.py:37-43 | one round keeps the potential part of the invariant |
| PrimalDual.RoundStep | shortest_s-t_path/path.py:26-43 | a round with a finite minimum keeps the whole invariant |
| PrimalDual.GrowCut | shortest_s-t_path/path.py:26-39 | the first minimum over `deltaC`; infinite means the cut is closed and `x` unchanged, otherwise `x` is raised by it |
| PrimalDual.Round | shortest_s-t_path/path.py:24-43 | the cut is closed, or the invariant holds with `C` one vertex larger |
| PrimalDual.Grow | shortest_s-t_path/path.py:19-44 | the loop ends with `t` in `C`, or with a closed cut not holding `t` |
| PrimalDual.TreePathCost | shortest_s-t_path/path.py:46 | the path found is a walk costing `pi[t] - pi[s]` |
| PrimalDual.Potential | shortest_s-t_path/path.py:9-10 | the final potential: `pi` on `C`, the total raise off it |
| PrimalDual.PotentialFeasible | shortest_s-t_path/path.py:9-10 | with non-negative costs that potential is feasible |
| PrimalDual.CutLowerBound | shortest_s-t_path/path.py:9-10 | every walk from `s` to a vertex `t` of `C` costs at least `pi[t]` |
| PrimalDual.StPath | shortest_s-t_path/path.py:7-47 | `None` iff `t` is unreachable; otherwise a walk along the tree, and with non-negative costs a shortest one |

## Left out

- `main` in both files, and the test modules: they print examples and generate random instances with foreign libraries.
- The approximation ratio of `feedback_vertex` and the "at most 2 log n vertices of degree 3 or more" shortness claim of `find_cycle`: both are theorems about optimal solutions and logarithms, not about what the code computes.
- Floating point: weights, costs and duals are exact `real`s. `np.inf` is the `Inf` cost, and `inf - x` stays `Inf`. Rounding and NaN are not modelled.
- Matrix entries are `bool` in the feedback vertex set model. Entries other than 0 and 1, and asymmetric matrices, are excluded by `IsSimpleGraph`.
- numpy vectorised operations (`G.sum(1)`, fancy indexing, slicing, `argmin`) are loops or sequence functions. `x[cycle] += h` relies on the cycle having distinct vertices, which is proved.
- `stpath` takes the cost matrix `G` as a sequence value, since the source never changes it. The dual matrix `x` is an `array2<real>`, changed in place.
- CycleFinder.FindCycle: requires at least one vertex, because `max` of the empty degree list raises in the source. `feedback_vertex` never calls it on an empty graph.
- ChainSearch.FindDeg3Cycle: states that the result is a distinct cycle in split form. It does not state that the list begins with the rediscovered vertex and contains the discovering one. Those facts hold inside the proof (`ChainCycle`).
- TreeSearch.Search: requires `F` in the order `stpath` grows it (each edge's tail already reached). The docstring allows any tree oriented away from `s` in any order. `stpath` is the only caller, and it satisfies the stronger condition.
- PrimalDual.StPath: optimality is stated for non-negative costs only, which is Dijkstra's own premise. With negative costs only reachability and the walk along the tree are stated.
- The `while not t in C` loop of `stpath` is split into `Grow` (the loop), `Round` (one pass with its invariant) and `GrowCut` (the reduced costs, the minimum and the raise). The loop of `feedback_vertex` is split into `Round`, `RaiseCycle` and `CutAndPrune` in the same way.
- Python 2 syntax (`xrange`, the `print` statement) has no counterpart here.
