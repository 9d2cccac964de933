# TSPApproximation: the cycle-merging engine

This project models the core of a C++ approximation for the travelling salesman problem on complete
graphs whose edge weights are 1 (light) or 2 (heavy). The program starts from a cover of the vertices by
disjoint cycles. It then fuses those cycles into a single tour by breaking one edge in each cycle and
cross-linking the endpoints. The model proves facts about each piece of that engine:

- `Graphs.Graph`: the symmetric weight table. Weights are stored per vertex pair, in both directions,
  and inserts never overwrite (C++ `emplace`).
- `Cycles.Cycle`: one cycle record. It holds a successor map `edges`, its inverse `inverseEdges`, and
  `heavyEdges`, the vertices whose outgoing edge is heavy. A record can rewire one vertex's outgoing
  edge, absorb another record, and choose the edge to break.
- `DirectedGraphs.DirectedGraph`: the graph of cycles. Its two depth-first searches pick the start
  vertices of the components (`FindComponents`), one per component when every vertex has in-degree at
  most one, and recover the cycle reachable from a start vertex (`FindCycle`).
- `BipartiteGraphs.BipartiteGraph`: the matcher. A greedy pass is followed by augmenting-path searches
  in the style of Kuhn's algorithm, and every matched pair is then labelled.
- `Approximation.TSPApproximation`: the orchestrator. It owns three registries:
  - `vertexes` maps each vertex to its cycle id;
  - `cycles` maps each id to a `Cycle` object;
  - `badCycles` holds the ids of cycles that have a heavy edge.

  Its fusion primitives splice two or three cycles into one. Its constructor loads the weight table,
  registers the cycles, collapses the bad cycles into one, merges everything that is left, and reads the
  tour off the last cycle.
- `Splitting`: the leaf rule of `SplitDfs`, the tree case of `SplitComponent`, and the gap table that
  `SplitComponent` builds for the cycle of a component.

Value-level vocabulary:

- `CycleOrder.IsCycleOrder(succ, t)`: `succ` is one cycle that visits the distinct vertices `t` in order.
- `CycleOrder.IsInverse(succ, pred)`: the two maps are mutual inverses.
- `Registries.Registry`: the invariant of the three registries. Every record is sound, the vertices are
  partitioned among the live ids, and `badCycles` is a subset of the live ids that holds every cycle
  with a heavy edge.

Each `Cycle` object carries a ghost field `order`, a listing of its cycle. `TSPApproximation` keeps a
ghost map `rings` that mirrors every live `Cycle` as a `Ring` value. The registry lemmas are stated on
those values.

In two places the code does less than its comments promise, and the model follows the code:

- `bad_cycles` is documented as the "storage of cycles which has heavy edges" (TSPApproximation.h:495).
  But a join (TSPApproximation.h:383-392) only adds the surviving id when the fused cycle is bad, and it
  never removes that id when the fused cycle is good. So the invariant is "every cycle with a heavy edge
  is listed", not "exactly the bad cycles are listed".
- `FindComponents` is documented as returning start vertices from which every vertex of the component
  can be reached (DirectedGraph.h:41-44). The code erases a start vertex when an arc reaches it after it
  has finished (colour BLACK, DirectedGraph.h:85-86). It keeps more than one start for a component
  whose vertices have in-degree above one: with arcs `s -> a` and `r -> a`, searched from `s` first,
  both `s` and `r` stay.

## Model

| member | source | states |
|---|---|---|
| Graphs.Graph.constructor | Graph.h:25-29 | the table has an empty neighbour map for exactly the vertices `0 .. n - 1` |
| Graphs.Graph.AddEdge | Graph.h:31-34 | the new table is `AddedEdge` of the old one: both directions emplaced |
| Graphs.AddedEdge | Graph.h:31-34 | adding an edge keeps the vertex set |
| Graphs.AddedEdgeFresh | Graph.h:31-37 | on a pair with no weight yet, both directions carry the new weight |
| Graphs.AddedEdgeKeeps | Graph.h:32-33 | a pair that already has a weight keeps its first weight |
| Graphs.AddedEdgeOthers | Graph.h:31-34 | the neighbour map of every vertex other than the two endpoints is unchanged |
| Graphs.AddedEdgeNeighbours | Graph.h:31-34 | `b` is a neighbour of `a` afterwards iff it was before or `{a, b}` is the added pair |
| Graphs.AddedEdgeSymmetric | Graph.h:31-34 | adding an edge keeps the table symmetric |
| Graphs.Graph.GetEdgeWeight | Graph.h:36-38 | on a symmetric table the weight of `(u, v)` is the weight of `(v, u)` |
| Graphs.Graph.EdgesByVertex | Graph.h:40-42 | every neighbour `b` in the returned map has `vertex` as a neighbour, with the same weight |
| Loading.LoadedSymmetric | TSPApproximation.h:31-35 | the table loaded from the upper triangle of the matrix is symmetric |
| Loading.LoadedComplete | TSPApproximation.h:31-35 | the loaded table joins every two different vertices |
| Loading.LoadDone | TSPApproximation.h:31-35 | after the last row, the table is exactly the upper-triangle table of the matrix |
| Loading.RowTableSoFar | TSPApproximation.h:32-34 | the inner loop up to column `j` has loaded exactly the pairs before `(i, j)` |
| Loading.CoveredMember | TSPApproximation.h:36-38 | a vertex is covered iff one of the input cycles lists it |
| Loading.CoverNext | TSPApproximation.h:36-38 | the next cycle of a cover shares no vertex with those before it, and extends the covered set by its own vertices |
| Approximation.LoadGraph | TSPApproximation.h:29-35 | the table built by the nested loops is the upper-triangle table of the matrix |
| Approximation.LoadRow | TSPApproximation.h:32-34 | one run of the inner loop turns the table into `RowTable` of row `i` |
| Cycles.BuiltCycle | Cycle.h:28-41 | built from distinct vertices, the successor map is the cycle in that order, the predecessor map is its exact inverse, and the heavy set is exactly the origins of heavy edges |
| Cycles.BuiltMaps | Cycle.h:28-41 | the built maps have exactly the listed vertices as keys; each vertex goes to the next, cyclically, and back |
| Cycles.SuccPairsKeys | Cycle.h:29-39 | the successor pairs emplaced by the constructor have distinct keys, namely the listed vertices |
| Cycles.PredPairsKeys | Cycle.h:29-40 | the same for the predecessor pairs |
| Cycles.HeavyOriginsMember | Cycle.h:32-38 | a vertex is a heavy origin iff it is at a position whose edge to the next position is heavy |
| Cycles.HeavyFromNext | Cycle.h:32-38 | the heavy origins of the listing are the heavy vertices of its successor map |
| Cycles.BuildMaps | Cycle.h:29-40 | the constructor loop and closing edge produce the emplace folds of the successor and predecessor pairs, and the heavy origins |
| Cycles.Cycle.constructor | Cycle.h:28-41 | the record holds the folds above and the connected edge `(-1, -1)`, and is a valid cycle on distinct input |
| Cycles.GoodIffAllLight | Cycle.h:43-45 | the heavy set is empty iff every edge of the cycle is light |
| Cycles.Cycle.SetConnectedEdge | Cycle.h:47-53 | `GetConnectedEdge` returns the stored edge |
| Cycles.Cycle.DeleteEdge | Cycle.h:60-64 | removes `f` from the successor and heavy maps and `t` from the predecessor map, and nothing else |
| Cycles.DeleteEdgePath | Cycle.h:60-64 | deleting the edge out of `f` leaves a path ending at `f` with an exact inverse |
| Cycles.Cycle.ChangeEdge | Cycle.h:72-80 | `succ(f) = t`; the old successor of `f` loses its predecessor entry; `t` gets `f` only if it had no predecessor; `f` is heavy iff the weight is 2 |
| Cycles.ChangeEdgeHeavy | Cycle.h:76-79 | with the weight matching the table, the heavy set after the rewire is the heavy set of the new successor map |
| CycleOrder.ChangeEdgeInverse | Cycle.h:72-80 | redirecting to a vertex without a predecessor keeps the two maps mutual inverses |
| Cycles.Cycle.AddCycle | Cycle.h:86-94 | successor, predecessor and heavy sets become the unions, and existing entries are never overwritten |
| CycleOrder.AddCycleInverse | Cycle.h:86-90 | uniting two inverse pairs with disjoint keys and values gives an inverse pair over both key sets |
| Cycles.UnionHeavy | Cycle.h:91-93 | the heavy vertices of a union of disjoint maps are the union of their heavy vertices |
| Cycles.Cycle.GetEdgeOfMaximumWeight | Cycle.h:99-107 | returns `(a, succ(a))` for a vertex of the cycle, with `a` heavy whenever the heavy set is non-empty |
| Cycles.Cycle.GetSecond | Cycle.h:113-115 | the successor's predecessor is the vertex itself |
| Cycles.Cycle.GetPrev | Cycle.h:117-119 | the predecessor's successor is the vertex itself |
| Cycles.Cycle.GetCycle | Cycle.h:129-137 | the successor walk from a vertex lists the cycle, in order |
| CycleOrder.CycleDistinct | Cycle.h:28-41 | a cycle order lists no vertex twice |
| CycleOrder.InverseKeys | Cycle.h:29-40 | the keys of an exact inverse are the successor values |
| CycleOrder.RotateCycle | Cycle.h:129-137 | any rotation of a cycle's listing lists the same cycle |
| CycleOrder.RotateAfterCycle | Cycle.h:129-137 | the rotation that ends at `x` lists the same cycle and starts at the successor of `x` |
| CycleOrder.SpliceTwo | TSPApproximation.h:454-460 | cross-linking the ends of two disjoint cycle listings gives one cycle over their concatenation |
| CycleOrder.SpliceThree | TSPApproximation.h:373-382 | the same for three disjoint cycles chained first to second to third and back |
| DirectedGraphs.WithArc | DirectedGraph.h:31-39 | adding an arc makes both ends vertices |
| DirectedGraphs.WithArcOut | DirectedGraph.h:31-39 | the out-set of `a` gains `b`; no other out-set changes and no arc is removed |
| DirectedGraphs.WithArcClosed | DirectedGraph.h:31-39 | every arc still ends at a vertex |
| DirectedGraphs.DirectedGraph.AddEdge | DirectedGraph.h:31-39 | the new arcs are `WithArc` of the old ones |
| DirectedGraphs.DirectedGraph.FindComponents | DirectedGraph.h:45-55 | every vertex is finished and has an outer-loop root, a root being its own root; the result holds only roots, and a root stays in it exactly when no arc into it comes from a vertex with another root; it is non-empty on a non-empty graph |
| DirectedGraphs.DirectedGraph.ComponentDfs | DirectedGraph.h:78-90 | colours only grow, `v` is finished, and every out-neighbour of a newly coloured vertex is coloured; a start is erased only when it is finished, is not `v`, and is the head of an arc from a newly coloured vertex; every start finished before the call that such an arc reaches is erased |
| DirectedGraphs.RootKept | DirectedGraph.h:48-52 | after the search from a new root, an old root stays a start exactly when every arc into it still comes from a vertex of its own search |
| DirectedGraphs.ComponentsNext | DirectedGraph.h:48-52 | one outer pass that searches from an uncoloured vertex keeps the root table and the start rule of `FindComponents` |
| DirectedGraphs.DirectedGraph.FindCycle | DirectedGraph.h:57-71 | the set of reached vertices is exactly the set of vertices reachable from the start along arcs, and it is closed under arcs; the result is non-empty and lies in it; it is `[start]` when no back arc is met, otherwise the concatenation of back cycles; no back arc is met exactly when the finishing order ranks the reached vertices, that is, when they lie on no cycle |
| DirectedGraphs.DirectedGraph.CycleDfs | DirectedGraph.h:92-109 | the parent map only grows; every out-neighbour of a newly coloured vertex is coloured; every segment pushed is a back cycle over coloured vertices, and earlier segments are kept; each finished vertex gets a time after the clock, and if no segment is pushed, each finished after all its out-neighbours; every vertex finished other than `v` was entered along an arc from its parent, which finished later |
| DirectedGraphs.TreeWalk | DirectedGraph.h:94-98 | following the parents recorded on entry from any finished vertex gives a walk from the start to it, so every reached vertex is reachable |
| DirectedGraphs.ClosedReach | DirectedGraph.h:94-98 | a vertex set that holds the start and is closed under arcs holds the end of every walk from the start |
| DirectedGraphs.DirectedGraph.CycleArc | DirectedGraph.h:95-107 | one examined arc keeps the loop state of `CycleDfs`: colours, parents, the search tree, back cycles and finishing times; it is the body of that loop as a method of its own, mutually recursive with `CycleDfs` |
| DirectedGraphs.CycleUnranked | DirectedGraph.h:60 | no vertex of a cycle is in a ranking, so a search that ranks what it reached met no cycle there |
| DirectedGraphs.BackSegment | DirectedGraph.h:99-106 | the walk from `v` back to `u` through the parents, after `u`, is a cycle: distinct vertices, each linked by an arc to the one before, with `u` linked to the last |
| BipartiteGraphs.WithEdge | BipartiteGraph.h:33-37 | `s` is an out-neighbour of `f` afterwards |
| BipartiteGraphs.WithEdgeOut | BipartiteGraph.h:33-37 | the only new arc is `(f, s)` |
| BipartiteGraphs.WithInfoLabel | BipartiteGraph.h:39-42 | the label of `(f, s)` is set only if the pair had no label; others keep theirs |
| BipartiteGraphs.AddEdgeLabelled | BipartiteGraph.h:33-43 | every arc keeps a label |
| BipartiteGraphs.BipartiteGraph.AddEdge | BipartiteGraph.h:33-43 | the new arcs and labels are `WithEdge` and `WithInfo` of the old ones |
| BipartiteGraphs.BipartiteGraph.FindAnyMatching | BipartiteGraph.h:106-118 | the greedy matching pairs along arcs, uses each first-part vertex once, and `used` gains exactly the matched first-part vertices; each first-part vertex is matched or sees only matched vertices |
| BipartiteGraphs.GreedyMatch | BipartiteGraph.h:110-113 | one greedy pick keeps the greedy loop's invariant |
| BipartiteGraphs.AddPairInjective | BipartiteGraph.h:110-112 | matching a vertex to an unused first-part vertex keeps the matching injective |
| BipartiteGraphs.BipartiteGraph.TryFindAugmentingPath | BipartiteGraph.h:73-95 | returns false at once for a used vertex; otherwise marks it used; on true exactly one new second-part key is added; on false the matching is unchanged, and every vertex the search marked used sees only matched vertices whose partners are now used; existing pairs are never changed |
| BipartiteGraphs.BipartiteGraph.AugmentAll | BipartiteGraph.h:54-61 | the augmenting phase keeps every pair and pairs only along arcs; every first-part vertex outside `skip` ends up in the shared `used` set; if no pair was added, every used vertex sees only matched vertices whose partners are used, so every search failed exhaustively |
| BipartiteGraphs.BipartiteGraph.LabelMatching | BipartiteGraph.h:62-66 | every result entry is `(f, info[f][s])` for the matched pair, over exactly the matched vertices |
| BipartiteGraphs.LabelStep | BipartiteGraph.h:64-65 | labelling one more pair keeps the labelling invariant |
| BipartiteGraphs.BipartiteGraph.FindOptimalMatching | BipartiteGraph.h:52-69 | every result entry is a labelled arc; the greedy matching is kept inside the result, and in it every first-part vertex is matched or sees only matched vertices |
| Registries.AssignedAt | TSPApproximation.h:475-481 | after the assignment the vertices of `keys` point to the id and the others are untouched |
| Registries.AddRing | TSPApproximation.h:483-493 | registering a new cycle over unregistered vertices under a fresh id keeps the registry invariant |
| Registries.SoleRing | TSPApproximation.h:123-124 | with one live cycle, its vertices are exactly the registered ones |
| Registries.MergeInto | TSPApproximation.h:383-392 | absorbing cycles into a surviving one, erasing their ids and repointing their vertices, keeps the registry invariant |
| Registries.Splice2 | TSPApproximation.h:454-459 | the spliced successor map has the vertices of both cycles as keys |
| Registries.Splice2Ok | TSPApproximation.h:454-460 | on two disjoint sound records, swapping the successors of `l1` and `l2` gives one sound record: one cycle, exact inverse, exact heavy set |
| Registries.Splice2Order | TSPApproximation.h:454-460 | the spliced cycle visits the first cycle from `succ(l1)` round to `l1`, then the second from `succ(l2)` round to `l2` |
| Registries.Splice2Inverse | Cycle.h:72-90 | the predecessor map built by two rewires and a union is the exact inverse of the splice |
| Registries.Splice3 | TSPApproximation.h:373-382 | the three-way splice has the vertices of all three cycles as keys |
| Registries.Splice3Ok | TSPApproximation.h:373-382 | on three disjoint sound records, the three-way rewire and two unions give one sound record |
| Registries.Splice3Order | TSPApproximation.h:373-382 | the three-way splice is one cycle in the order of `SpliceOrder3` |
| Registries.Splice3Heavy | TSPApproximation.h:373-382 | the heavy set after the three rewires and two unions is that of the spliced map |
| Registries.Splice3Inverse | Cycle.h:72-90 | the predecessor map of the three-way splice is its exact inverse |
| Approximation.NewCycle | Cycle.h:28-41 | a new record built from a cycle of the cover is sound and lists that cycle |
| Approximation.LinkTo | Cycle.h:72-80 | one rewire, with the weight read from the table, gives the repointed record with the exact heavy set |
| Approximation.FuseTwo | TSPApproximation.h:452-460 | the two records of `JoinTwoCycles` fuse into one sound cycle spliced at the chosen edges, heavy ones where there are any |
| Approximation.FuseRoot2 | TSPApproximation.h:433-438 | the root and child fuse into the cycle `y, x, ..., pred(x), old succ(y), ..., y` |
| Approximation.FuseRoot3 | TSPApproximation.h:369-382 | root and two children fuse into the cycle `y1, x1, ..., pred(x1), succ(x2), ..., x2, y2, ..., y1` |
| Approximation.Unite2 | Cycle.h:86-94 | uniting the two rewired records gives the two-way splice |
| Approximation.Unite3 | Cycle.h:86-94 | uniting the three rewired records gives the three-way splice |
| Approximation.LoadedNext | TSPApproximation.h:36-38 | registering one more cycle of the cover keeps ids `0 .. k - 1`, each listing its own cycle |
| Approximation.CollapseNext | TSPApproximation.h:42-48 | one pass of the collapse loop removes exactly one bad id |
| Approximation.TSPApproximation.constructor | TSPApproximation.h:29-125 | the table is the loaded matrix; one cycle is left over exactly the covered vertices; the tour lists that cycle |
| Approximation.TSPApproximation.Approximate | TSPApproximation.h:36-124 | from the loaded cover, one valid cycle is left over the covered vertices, and the tour lists it |
| Approximation.TSPApproximation.Finish | TSPApproximation.h:42-124 | collapse, pick, merge and read leave one cycle over the same vertices, with the tour listing it |
| Approximation.TSPApproximation.AddCycles | TSPApproximation.h:36-38 | every cycle of the cover is registered under its position, with fresh records |
| Approximation.TSPApproximation.LoadOne | TSPApproximation.h:37 | registering cycle `k` extends the loaded prefix by that cycle under id `k` |
| Approximation.TSPApproximation.CollapseBad | TSPApproximation.h:42-48 | at most one bad id remains, none if there were none; only bad ids are erased; the vertex set is kept |
| Approximation.TSPApproximation.PickBad | TSPApproximation.h:105-110 | the chosen id is live, and bad whenever some cycle is bad |
| Approximation.TSPApproximation.MergeAll | TSPApproximation.h:112-121 | only `bad` remains live, over the same vertices |
| Approximation.TSPApproximation.AbsorbOther | TSPApproximation.h:113-120 | one id other than `bad` is erased and the vertex set is kept |
| Approximation.TSPApproximation.JoinKeepingKeys | TSPApproximation.h:449-469 | a join keeps the registry valid and the vertex set, erases exactly the absorbed id, and keeps a bad survivor bad |
| Approximation.TSPApproximation.ReadTour | TSPApproximation.h:123-124 | the tour lists the last cycle and holds exactly the registered vertices |
| Approximation.TSPApproximation.GetCycle | TSPApproximation.h:471-473 | a registered vertex's id is live and that cycle holds the vertex |
| Approximation.TSPApproximation.SetCycle | TSPApproximation.h:475-481 | the vertex is assigned the id, emplaced or overwritten |
| Approximation.TSPApproximation.SetCycles | TSPApproximation.h:439-441 | every vertex of the set is assigned the id, the others are untouched |
| Approximation.TSPApproximation.AddCycle | TSPApproximation.h:483-493 | the new id is the number of cycles before the call; every listed vertex maps to it; it is bad iff the cycle has a heavy edge; the registry stays valid |
| Approximation.TSPApproximation.JoinTwoCycles | TSPApproximation.h:449-469 | the second id is erased; the survivor is one cycle spliced at `a` and `c`, heavy vertices where there are any; all merged vertices map to the survivor; it is bad if the result has a heavy edge |
| Approximation.TSPApproximation.JoinTwoCyclesWithRoot | TSPApproximation.h:429-447 | the child is erased; the root becomes `y, x, ..., pred(x), old succ(y), ..., y`; the registries are updated as for a join |
| Approximation.TSPApproximation.JoinThreeCyclesWithRoot | TSPApproximation.h:364-393 | both children are erased; the root becomes `y1, x1, ..., pred(x1), succ(x2), ..., x2, y2, ..., y1`; the registries are updated as for a join |
| Approximation.TSPApproximation.Commit | TSPApproximation.h:383-392 | the absorbed ids leave `cycles` and `bad_cycles`, the merged vertices point to the survivor, and it is bad if its heavy set is non-empty |
| Splitting.SplitDfs | TSPApproximation.h:249-266 | `v` is a leaf iff none of its out-neighbours is a leaf; the leaves returned are exactly its leaf out-neighbours; a childless node is a leaf |
| Splitting.LeafRankFree | TSPApproximation.h:249-266 | the leaf rule does not depend on the ranking used to show the recursion ends |
| Splitting.SplitComponentTree | TSPApproximation.h:143-149 | the cycle search from the start gives a non-empty result; a one-vertex result is `[start]`, and then a ranking of everything below the start exists and the leaf answer of `start` and its leaf children are those of `SplitDfs` under it |
| Splitting.LongCycles | TSPApproximation.h:146 | without self-loops a non-empty list of back cycles flattens to at least two vertices, so a one-vertex result means no cycle was met |
| Splitting.Marks | TSPApproximation.h:155-160 | position `i` is marked iff its vertex has more than one out-arc |
| Splitting.GapAhead | TSPApproximation.h:163-179 | the gap of a marked position is the number of unmarked positions before the next marked one, cyclically |
| Splitting.GapsTotal | TSPApproximation.h:163-179 | the gaps of the marked positions add up to the number of unmarked positions |
| Splitting.SubtreeGaps | TSPApproximation.h:153-179 | the table's keys are exactly the cycle vertices with more than one out-arc, each holding its gap |
| Splitting.BranchTable | TSPApproximation.h:153-160 | the first loop enters exactly the branching cycle vertices |
| Splitting.FillGaps | TSPApproximation.h:163-179 | the scan and its last step store each marked position's gap, and add no key |

## Left out

- The constructor's middle phases (TSPApproximation.h:51-102) are not modelled. These are: absorbing good cycles that touch the bad cycle, building the bipartite graph, storing matched edges at line 95, building the directed graph, and `SplitDirectedGraph`. The code's own data flow does not support them: line 95 stores the connected edge on another cycle than the one the fusion primitives read it from, and line 64 can queue the same cycle twice. The model's constructor runs the load, the collapse loop, the final merge loop and the tour extraction.
- The `SubTree::JoinCycles` walk and the segment loop of `SplitComponent` (TSPApproximation.h:183-241, 312-357) are not modelled. The walk follows a root that each join mutates, its order depends on hash iteration, and after a three-way join it looks up an id that was just erased. There is no stable property to state.
- Splitting.SplitDfs: returns the set of leaf children instead of joining them through `SubTree::JoinCycles`. It takes a ghost ranking that shows the arcs below `v` are acyclic; `SplitComponentTree` supplies it from the finishing order of `FindCycle`.
- Splitting.SplitComponentTree: requires that no vertex is its own out-neighbour. On a self-loop at the start, `FindCycle` returns the one-vertex cycle `[start]` and the source's `SplitDfs(start)` would recurse without end. On a longer cycle it returns at once; the rest of `SplitComponent` is `SubtreeGaps` and the left-out segment loop.
- `JoinThreeCycles` (TSPApproximation.h:395-427) is not modelled. Line 403 overwrites the successor of `e1.first`, and line 406 reads it back. At line 412 it asks `c2` to rewire a vertex of `c3`, which on disjoint cycles is a missing key.
- DirectedGraphs.DirectedGraph.FindComponents: does not prove that the result holds exactly one vertex per weakly connected component, nor that it lies on the component's cycle. Both rest on every vertex having in-degree at most one, which only the left-out phase that builds the graph ensures. The root table is stated by the start rule, not by reachability from the root.
- Splitting.SubtreeGaps and Splitting.FillGaps: take a cycle listing without repeated vertices. DirectedGraphs.DirectedGraph.FindCycle can list a vertex twice, as with arcs `A -> B`, `B -> A`, `A -> C`, `C -> A` from `A`, and the model does not prove that it returns a single cycle. "No more than one cycle" (DirectedGraph.h:60) needs every vertex to have in-degree at most one, and the emplace at BipartiteGraph.h:90 does not ensure that.
- BipartiteGraphs.BipartiteGraph.FindOptimalMatching: does not state maximality or first-part injectivity of the final matching. The augmenting step emplaces at line 90 and never reassigns a matched vertex, so the code does not give Kuhn's guarantee.
- Lookups that abort in C++ (`.at()` misses, `find(...)->second` on `end()`) are preconditions, not error paths. The same goes for the `assert`s at TSPApproximation.h:372, 380 and 436.
- Cycles of length one are excluded (a cover needs at least two vertices per cycle). The constructor would look up the weight of a vertex to itself, which the table never stores.
- Approximation.TSPApproximation.JoinThreeCyclesWithRoot: requires `succ(y1) == y2` on the root (the `assert` at line 372) and that both connected edges are light, as the `ChangeEdge(.., 1)` calls take for granted. It does not prove what happens when those fail.
- Approximation.TSPApproximation.JoinTwoCyclesWithRoot: requires the connected edge to be light, as line 435 takes for granted.
- The fusion primitives require the weight table to be symmetric and complete. The loaded table is both (`Loading.LoadedSymmetric`, `Loading.LoadedComplete`).
- The reads of a fusion primitive (`GetPrev`, `GetSecond`, `GetEdgeWeight`) are done before its writes. Where the source interleaves them, the values read are the same.
- Iteration over hash containers is an arbitrary choice (`:|`), not the C++ order. This affects the two ids taken by the collapse loop, the `second` id of the final merge loop, the first key of `GetEdgeOfMaximumWeight`, and the order of the depth-first searches and of the matcher's loops.
- The cover is given as a vertex set (`CycleCover`) over the table's vertices; the source does not check it.
- The directed graph is passed to `SplitDfs` and `SubtreeGaps` rather than read from a `TSPApproximation` field, because the phase that builds it is left out.
- `cycle_vertexes` in `SplitComponent` (line 154-156) is only used by the left-out segment loop and is not modelled.
- The connected edge is stored as a value pair; `GetConnectedEdge` returns it.
- `Cycle::Print` (Cycle.h:129-137) is modelled only as the successor walk `GetCycle`; console output and main.cpp (a hard-coded demo input) are I/O.
