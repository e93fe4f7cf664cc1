# Shortest paths of the Wolfie2D navigation code, in Dafny

This project models the path-finding core of the Wolfie2D game engine used by
the `hw4` game. The core has four parts:

- `min_heap`: the binary min-heap of `(vertex, f_score)` records behind A\*. A
  stale record is turned into a tombstone (vertex -1) rather than removed.
- `GraphUtils.djikstra`: the parent-array search, including its defective
  choice of the next vertex, modelled as written.
- `GraphUtils.A_star`: the `g_score` / `came_from` search driven by that heap.
- `AstarStrategy.buildPath`: walks the `came_from` array back from the goal
  and pushes positions onto a stack.

Graphs are adjacency lists `seq<seq<Edge>>` in linked-list order, with
natural edge weights. Distances are `Fin(n)` or `Inf`. `Inf` stands for
JavaScript's `Infinity` and `Number.MAX_VALUE`.

The files:

- `options.dfy` (module `Options`): the `Option` type, `None` standing for a
  throw.
- `graphs.dfy` (module `Graphs`): graphs, paths, reachability and distances.
- `heaps.dfy` (module `Heaps`): the value-level meaning of every heap
  operation, as functions on `seq<Entry>`, with its order, minimum,
  error-case and one-live-record-per-vertex lemmas.
- `min_heap.dfy` (module `MinHeapClass`): the `min_heap` class. Its `heap`
  field is reassigned by `Add`, `RemoveMin` and `Update`. Each method's loop
  is proved to leave exactly the heap the matching `Heaps` function describes.
- `dijkstra.dfy` (module `Djikstra`): `djikstra` with its selection scan.
- `astar.dfy` (module `AStar`): `A_star`, split along its loops: one round,
  one vertex's expansion, one relaxation.
- `astar_strategy.dfy` (module `AstarStrategy`): `buildPath` and its walk.

Where the code and its documented intent differ, the model follows the code:

- `remove_min` does not report an empty heap when only tombstones are left.
  It reads `heap[0]` of an empty array, writes `undefined` into slot 0
  (GraphUtils.ts line 174) and dereferences it at line 192, which throws a
  TypeError. The model returns `TypeError` there.
- `A_star` therefore does not always return `came_from` once its heap runs
  out of live records. When only tombstones remain, that TypeError propagates.
  `AStar.AStar` reports it as `Thrown`, and `AStar.AStar` and
  `AstarStrategy.BuildPath` prove it only happens when the goal is unreachable.
- `djikstra` does not pick the closest unvisited vertex. Line 56 assigns the
  whole `distance` array to `dist`, so every later comparison is false. The
  scan yields the lowest-index unvisited vertex with a finite distance, or
  vertex 0 if there is none. The loop bound `i <= numVertices` reads one slot
  past the end, which has no effect.

## Model

| member | source | states |
|---|---|---|
| Graphs.Plus | src/Wolfie2D/Utils/GraphUtils.ts:42-43 | adding a weight to the sentinel gives the sentinel, adding it to a number gives a number, and the sum is never below where it started |
| Graphs.Less | src/Wolfie2D/Utils/GraphUtils.ts:42 | the comparison is strict and the sentinel is below nothing, while every reached distance is below the sentinel |
| Heaps.Swap | src/Wolfie2D/Utils/GraphUtils.ts:154 | exchanging two records keeps the length and the multiset of records |
| Heaps.SiftUp | src/Wolfie2D/Utils/GraphUtils.ts:151-159 | sifting a record up keeps the length and the multiset of records |
| Heaps.SiftDown | src/Wolfie2D/Utils/GraphUtils.ts:177-191 | sifting a record down keeps the length and the multiset of records |
| Heaps.SmallerChild | src/Wolfie2D/Utils/GraphUtils.ts:178-183 | the index chosen is one of the two children. When it exists, its f_score is no larger than any existing child's. When it does not exist, there is no left child |
| Heaps.Push | src/Wolfie2D/Utils/GraphUtils.ts:147-160 | `add` grows the heap by one and adds exactly the given record to the multiset |
| Heaps.PopRoot | src/Wolfie2D/Utils/GraphUtils.ts:169-191 | one round of the pop loop shrinks the heap by one and removes exactly the root record |
| Heaps.Drain | src/Wolfie2D/Utils/GraphUtils.ts:168-192 | the do-while pop loop always leaves a strictly shorter heap and never yields `undefined`. A record it returns is live. A TypeError leaves nothing behind |
| Heaps.RemoveMin | src/Wolfie2D/Utils/GraphUtils.ts:163-197 | `undefined` exactly for an empty heap. A returned record is live and the heap shrinks. A TypeError leaves nothing behind |
| Heaps.FirstIndex | src/Wolfie2D/Utils/GraphUtils.ts:201-202 | the scan finds the first record with the vertex, or the end exactly when there is none |
| Heaps.Tombstone | src/Wolfie2D/Utils/GraphUtils.ts:212 | the length stays, the record at the index becomes a tombstone, and every f_score stays. The multiset loses that record and gains the tombstone |
| Heaps.Update | src/Wolfie2D/Utils/GraphUtils.ts:209-218 | `update` throws exactly when no record has the vertex, and otherwise grows the heap by one |
| Heaps.RemoveMinSingle | src/Wolfie2D/Utils/GraphUtils.ts:163-196 | a heap of one live record returns it and is left empty |
| Heaps.RootIsMinimal | src/Wolfie2D/Utils/GraphUtils.ts:162-169 | in an ordered heap the root has the smallest f_score |
| Heaps.SiftUpOrders | src/Wolfie2D/Utils/GraphUtils.ts:151-159 | sifting up from the only out-of-order position yields an ordered heap |
| Heaps.SiftDownOrders | src/Wolfie2D/Utils/GraphUtils.ts:177-191 | sifting down from the only out-of-order position yields an ordered heap |
| Heaps.PushKeepsOrder | src/Wolfie2D/Utils/GraphUtils.ts:147-160 | `add` keeps the heap ordered |
| Heaps.PopRootKeepsOrder | src/Wolfie2D/Utils/GraphUtils.ts:169-191 | one pop round keeps the heap ordered |
| Heaps.TombstoneKeepsOrder | src/Wolfie2D/Utils/GraphUtils.ts:212 | marking a record as a tombstone keeps the heap ordered, because its f_score stays |
| Heaps.DrainThrowsOnlyOnTombstones | src/Wolfie2D/Utils/GraphUtils.ts:168-192 | the pop loop never yields `undefined`. It throws exactly when every record is a tombstone, and then leaves nothing |
| Heaps.DrainTakesOnlyTombstones | src/Wolfie2D/Utils/GraphUtils.ts:168-192 | besides one copy of the returned record, the pop loop takes away only tombstones |
| Heaps.DrainKeepsOrder | src/Wolfie2D/Utils/GraphUtils.ts:168-196 | on an ordered heap the pop loop returns a live record and leaves an ordered heap |
| Heaps.DrainReturnsMinimum | src/Wolfie2D/Utils/GraphUtils.ts:168-196 | the returned record's f_score is at most that of every record left and every live record before |
| Heaps.RemoveMinOutcome | src/Wolfie2D/Utils/GraphUtils.ts:163-197 | `undefined` exactly on an empty heap, a TypeError exactly when only tombstones remain. Otherwise it returns the minimum live record, removes one copy of it and otherwise only tombstones, and keeps the order, so the check of line 194 never fires |
| Heaps.AddKeepsLiveUnique | src/Wolfie2D/Utils/GraphUtils.ts:123-126 | adding a record for a vertex with no record keeps at most one live record per vertex |
| Heaps.UpdateKeepsLiveUnique | src/Wolfie2D/Utils/GraphUtils.ts:209-215 | `update` keeps at most one live record per vertex, and the new record is the vertex's only live one |
| Heaps.RemoveMinKeepsLiveUnique | src/Wolfie2D/Utils/GraphUtils.ts:163-197 | `remove_min` keeps at most one live record per vertex |
| Heaps.AddReplacesLive | src/Wolfie2D/Utils/GraphUtils.ts:126 | after `add` the live records are the old ones plus the new record |
| Heaps.UpdateReplacesLive | src/Wolfie2D/Utils/GraphUtils.ts:124 | after `update` the live records are the old ones for other vertices plus the new record |
| MinHeapClass.MinHeap.constructor | src/Wolfie2D/Utils/GraphUtils.ts:142-144 | a new heap is empty and ordered |
| MinHeapClass.MinHeap.Add | src/Wolfie2D/Utils/GraphUtils.ts:147-160 | the in-place sift-up leaves exactly `Push(old heap, item)`: ordered, with the item added to the multiset |
| MinHeapClass.MinHeap.PopRootInPlace | src/Wolfie2D/Utils/GraphUtils.ts:169-191 | the in-place round (move the last record to the root, swap down) leaves exactly `PopRoot(old heap)` |
| MinHeapClass.MinHeap.RemoveMin | src/Wolfie2D/Utils/GraphUtils.ts:163-197 | the do-while loop returns and leaves exactly what `Heaps.RemoveMin` gives, and keeps the heap ordered |
| MinHeapClass.MinHeap.Has | src/Wolfie2D/Utils/GraphUtils.ts:200-205 | true exactly when some record has the vertex |
| MinHeapClass.MinHeap.Update | src/Wolfie2D/Utils/GraphUtils.ts:209-218 | throws exactly when no record has the vertex, leaving the heap unchanged. Otherwise it leaves the heap `Heaps.Update` describes, still ordered |
| MinHeapClass.MinHeap.Length | src/Wolfie2D/Utils/GraphUtils.ts:220 | zero exactly when the array is empty, tombstones counting as records |
| Djikstra.Exceeds | src/Wolfie2D/Utils/GraphUtils.ts:55 | once `dist` holds the array the comparison is never true, and an unreached vertex never passes it |
| Djikstra.FirstFiniteFrom | src/Wolfie2D/Utils/GraphUtils.ts:54-58 | the first vertex from i on that is outside the tree with a finite distance, or the end when there is none |
| Djikstra.NextVertex | src/Wolfie2D/Utils/GraphUtils.ts:50-59 | the scan yields the lowest-index unvisited vertex with a finite distance, or 0 when there is none |
| Djikstra.NextVertexIgnoresDistance | src/Wolfie2D/Utils/GraphUtils.ts:54-58 | a concrete case where the scan picks a farther vertex (distance 5) over a closer one (distance 1) |
| Djikstra.SelectNext | src/Wolfie2D/Utils/GraphUtils.ts:50-59 | the loop as written, including `dist = distance` and the bound `i <= n`, computes `NextVertex` |
| Djikstra.CountFalseMark | src/Wolfie2D/Utils/GraphUtils.ts:35 | marking an unvisited vertex lowers the count of unvisited vertices by one |
| Djikstra.RelaxKeepsTree | src/Wolfie2D/Utils/GraphUtils.ts:42-45 | relaxing one edge keeps: parents are tree vertices linked to their children by an edge, finite distances are reachable, and reached vertices have parents |
| Djikstra.MarkKeepsTree | src/Wolfie2D/Utils/GraphUtils.ts:35 | marking a vertex keeps that search tree |
| Djikstra.InfiniteRoundIsLast | src/Wolfie2D/Utils/GraphUtils.ts:34-59 | a round on a vertex with infinite distance is followed by a scan that lands on a tree vertex, so the loop stops |
| Djikstra.RoundKeepsClosed | src/Wolfie2D/Utils/GraphUtils.ts:35-48 | after a round, tree vertices with finite distance have only finite-distance neighbours |
| Djikstra.ClosedCoversReachable | src/Wolfie2D/Utils/GraphUtils.ts:34-60 | once no candidate is left, every vertex reachable from `start` has a finite distance |
| Djikstra.RelaxEdges | src/Wolfie2D/Utils/GraphUtils.ts:36-48 | relaxing v's edges only lowers distances. A distance and its parent change only together: the parent becomes v and the distance becomes strictly smaller, equal to `distance[v]` plus the weight of an edge from v to that vertex. A vertex with infinite distance changes nothing. A finite vertex's neighbours all become finite. The search tree is kept |
| Djikstra.RelaxStep | src/Wolfie2D/Utils/GraphUtils.ts:39-47 | one edge of that loop keeps what `RelaxEdges` promises for one more edge |
| Djikstra.Djikstra | src/Wolfie2D/Utils/GraphUtils.ts:14-64 | returns one parent per vertex. `parent[start]` is -1. Every parent was in the tree and has an edge into its child. A vertex has a parent exactly when it is reachable and is not `start`. At most `numVertices` rounds |
| AStar.Score | src/Wolfie2D/Utils/GraphUtils.ts:108-109 | a live record's f_score is non-negative and at least the vertex's g_score |
| AStar.LowerScore | src/Wolfie2D/Utils/GraphUtils.ts:105-107 | lowering a g_score lowers the termination measure: one fewer infinite entry, or a smaller sum of finite ones |
| AStar.RelaxKeepsTree | src/Wolfie2D/Utils/GraphUtils.ts:105-107 | a relaxation keeps `came_from` a tree of graph edges rooted at `start`, along which (g_score, assignment order) strictly decreases |
| AStar.RelaxKeepsRecords | src/Wolfie2D/Utils/GraphUtils.ts:105-126 | live records keep carrying current f_scores, and the replaced record had a strictly larger f_score than the new one |
| AStar.RelaxKeepsCovered | src/Wolfie2D/Utils/GraphUtils.ts:105-127 | every reached vertex stays waiting in the heap or expanded |
| AStar.Relax | src/Wolfie2D/Utils/GraphUtils.ts:105-127 | `g_score` and `came_from` of the neighbour change together, to `g_score[current] + weight` and `current`. Its record is replaced or added with the new f_score. Everything the search keeps still holds |
| AStar.RelaxKeepsWaiting | src/Wolfie2D/Utils/GraphUtils.ts:105-127 | a reached goal's live record stays in the heap |
| AStar.RelaxKeepsSearching | src/Wolfie2D/Utils/GraphUtils.ts:101-127 | one relaxation keeps all of the search's invariants |
| AStar.CheckSettles | src/Wolfie2D/Utils/GraphUtils.ts:103-105 | after edge k is checked, no edge up to k can improve its target |
| AStar.SettledIsExpanded | src/Wolfie2D/Utils/GraphUtils.ts:98-131 | a vertex whose edges are all settled counts as expanded |
| AStar.LowerStep | src/Wolfie2D/Utils/GraphUtils.ts:103-124 | checking one more edge of `current` keeps every vertex either untouched, or with `current` as parent and a strictly lower g_score that an edge of `current` gives it |
| AStar.ExpandVertex | src/Wolfie2D/Utils/GraphUtils.ts:98-131 | after the edge loop no edge of `current` can improve its target, the invariants hold and the termination measure has not grown. Every vertex keeps its g_score and `came_from`, or now has `current` as parent and a strictly lower g_score, namely `g_score[current]` plus the weight of an edge from `current` |
| AStar.PopStartsExpansion | src/Wolfie2D/Utils/GraphUtils.ts:93-95 | the popped minimum names a reached vertex, and unless it is the goal its expansion can start |
| AStar.NoLiveRecordCoversReachable | src/Wolfie2D/Utils/GraphUtils.ts:91-93 | with no live record left, every vertex reachable from `start` has been reached and the goal has not |
| AStar.PopOutcome | src/Wolfie2D/Utils/GraphUtils.ts:93-95 | the `remove_min` of line 93 never gives `undefined`. It throws only when the goal is unreachable. Otherwise it gives a reached vertex. When `start == end` it gives the start record |
| AStar.SearchRound | src/Wolfie2D/Utils/GraphUtils.ts:93-131 | a round that goes on expands the record `remove_min` gives: every vertex keeps its g_score and `came_from`, or now has that vertex as parent and a strictly lower g_score through one of its edges. It keeps the invariants and strictly lowers the termination measure. A round that stops changes nothing and says why |
| AStar.SearchConcludes | src/Wolfie2D/Utils/GraphUtils.ts:91-133 | turns the final g_scores into what `came_from` says about reachability |
| AStar.StartIsSearching | src/Wolfie2D/Utils/GraphUtils.ts:77-89 | the initial state satisfies the search invariants |
| AStar.StartSearch | src/Wolfie2D/Utils/GraphUtils.ts:77-89 | the open list holds only `(start, 0)`, no vertex has a parent, and the invariants hold |
| AStar.InitialScores | src/Wolfie2D/Utils/GraphUtils.ts:80-89 | every g_score is `MAX_VALUE` except `start`'s 0, and every `came_from` is -1 |
| AStar.SearchLoop | src/Wolfie2D/Utils/GraphUtils.ts:91-133 | the loop terminates, keeping the parent tree. It stops on the goal only when it is reached; otherwise every reachable vertex is reached and the goal is not |
| AStar.AStar | src/Wolfie2D/Utils/GraphUtils.ts:73-135 | terminates. `came_from` is a tree of graph edges rooted at `start` whose vertices are all reachable. Line 95 returns only on a reachable goal, and for `start == end` every entry is -1. Otherwise the goal is unreachable and exactly the reachable vertices other than `start` have parents |
| AstarStrategy.TreeIsAcyclic | src/hw4/Pathfinding/AstarStrategy.ts:36-39 | following `came_from` strictly descends in (g_score, assignment order), so the walk cannot cycle |
| AstarStrategy.DescendsIsBelow | src/Wolfie2D/Utils/GraphUtils.ts:105-107 | the chain order `Below` extends the order in which a `came_from` parent precedes its child, and agrees with it on finite g_scores |
| AstarStrategy.Chain | src/hw4/Pathfinding/AstarStrategy.ts:35-39 | the vertices the walk visits: it starts at `end`, each next one is the previous one's parent, and only the last has parent -1 |
| AstarStrategy.ChainStops | src/hw4/Pathfinding/AstarStrategy.ts:36 | the walk stops at the first vertex without a parent, which is the chain's last |
| AstarStrategy.PositionsOf | src/hw4/Pathfinding/AstarStrategy.ts:37 | one position per vertex of the chain |
| AstarStrategy.PositionsOfAt | src/hw4/Pathfinding/AstarStrategy.ts:37 | entry j is the position of the chain's vertex j |
| AstarStrategy.WalkParents | src/hw4/Pathfinding/AstarStrategy.ts:30-39 | the stack holds `to`, then the positions of `end` and of each parent along the chain, in push order |
| AstarStrategy.TwoPushesWithoutParent | src/hw4/Pathfinding/AstarStrategy.ts:33-36 | the chain is `end` alone exactly when `parent[end] == -1` |
| AstarStrategy.ChainEndsAtStart | src/hw4/Pathfinding/AstarStrategy.ts:35-39 | from a vertex with a parent (or `start`), the walk ends at `start` |
| AstarStrategy.ChainDescends | src/hw4/Pathfinding/AstarStrategy.ts:35-39 | later vertices of the walk come strictly before earlier ones, so no vertex repeats |
| AstarStrategy.ChainFitsGraph | src/hw4/Pathfinding/AstarStrategy.ts:30-39 | the walk visits at most `numVertices` vertices, so at most `numVertices + 1` entries are pushed |
| AstarStrategy.ChainCanFillGraph | src/hw4/Pathfinding/AstarStrategy.ts:30-38 | a concrete two-vertex tree whose walk pushes three entries onto a stack created with capacity two |
| AstarStrategy.BuildPath | src/hw4/Pathfinding/AstarStrategy.ts:22-42 | see the paragraph below |

`AstarStrategy.BuildPath` states the following:

- A TypeError from A\* propagates, and only for an unreachable goal.
- Otherwise the stack is `to`, `positions[end]`, then one position per
  parent hop. It has between 2 and `numVertices + 1` entries.
- It has exactly 2 entries when `parent[end] == -1`. It is
  `[to, positions[end]]` when `start == end` and when the goal is
  unreachable.
- For a reachable goal, the last position pushed is `positions[start]`.

## Left out

- `src/hw4/AI/NPC/NPCActions/UseHealthpack.ts` is not part of this model. It
  is NPC glue over an inventory API whose definitions are not available.
- The heuristic `getNodePosition(v).distanceTo(getNodePosition(end))`
  (GraphUtils.ts line 108) is a floating-point Euclidean distance. The model
  takes it as a given natural number `h[v]` per vertex.
- Floating-point arithmetic: edge weights, g_scores and f_scores are natural
  numbers, and `Infinity` / `Number.MAX_VALUE` are `Inf`. `Inf` plus a
  weight stays `Inf`, while `MAX_VALUE + w` may round. Negative, fractional
  and NaN weights are not modelled.
- `Graph`, `EdgeNode`, `PositionGraph`, `graph.snap`, `Stack`,
  `NavigationPath` and `mesh` are not part of this model:
  - the linked edge lists are per-vertex sequences in list order;
  - the snapped `start` and `end` are parameters;
  - the stack is a sequence whose last element is its top;
  - `new NavigationPath(pathStack)` is the returned sequence itself.
- AstarStrategy.BuildPath: what `Stack.push` does beyond its capacity is not
  modelled, because `Stack` is not available. `ChainFitsGraph` and
  `ChainCanFillGraph` state how far the walk can exceed the capacity.
- AstarStrategy.BuildPath: `to.clone()` is pushed as `to` itself. Positions
  are values, so object identity is not modelled.
- Out-of-range vertices: every operation requires `start < numVertices`, and
  `BuildPath` also requires `end < numVertices`. The callers pass snapped
  vertices. `AStar.AStar` accepts any `end`.
- MinHeapClass.MinHeap.Update: line 212 mutates the record object in place.
  Records are values in the model, which matches because A\* keeps no other
  reference to a record that is still in the heap.
- MinHeapClass.MinHeap.RemoveMin: after the TypeError the source leaves
  `[undefined]` in the array, while the model leaves it empty. Nothing reads
  the heap afterwards, because the exception leaves `A_star`.
- Djikstra.Djikstra: no shortest-path optimality is claimed. The as-written
  scan is not closest-first (`NextVertexIgnoresDistance`).
- Djikstra.Djikstra: no concrete run is shown in which a vertex already in
  the tree gets a new parent. `RelaxEdges` has no `inTree[w]` check, and its
  contract allows it.
- AStar.AStar: optimality of the returned path, which needs an admissible
  heuristic, is not proved. Termination is proved.
- Commented-out code (GraphUtils.ts lines 92, 111-120 and 134) is not
  modelled.
