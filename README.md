# Dijkstra-style greedy search over mutable nodes

This project models `dijkstra.js` in Dafny. That file is a small graph engine
whose nodes carry their own search state. A `Node` has:

- an ordered list of outgoing `Path(cost, node)` edges;
- a tentative `distance`, `Infinity` before the search reaches the node;
- a `visitedFrom` back-pointer;
- a `visited` flag.

The files and what they hold:

- `paths.dfy` (module `Paths`): the `Path` record, node handles (indices), and
  the extended distances with JavaScript's `+` and `<` on `Infinity`.
- `edge_list.dfy` (module `EdgeLists`): the replacement rule of
  `addOrientedPath`. `findIndex`, `splice` and `push` are modelled on values,
  with lemmas on order, uniqueness, idempotence and "latest cost wins".
- `relaxation.dfy` (module `Relaxation`): the `filter`, the relaxation loop and
  the `map` of `calcNeighboursTentativeDistance`, as functions on the nodes'
  `distance`/`visitedFrom` values, with what relaxation does and does not
  change.
- `node.dfy` (module `Nodes`): the class `Graph`. It holds four sequence
  fields, and element `i` of each is the corresponding field of node `i`. Its
  methods are the constructor, `addOrientedPath`, `addNonOrientedPath` and
  `calcNeighboursTentativeDistance`. Each method updates the fields in place
  and is proved against the functions above.
- `search.dfy` (module `Search`): the invariant one iteration of the search
  keeps. It also holds the path properties read off the `visitedFrom` links:
  the links are acyclic, each consecutive pair is joined by an edge, and the
  end's distance is the sum of the edge costs.
- `walk.dfy` (module `Walk`): the loop of `shortestPathFirst` as a function of
  the iteration count, with `reduce` picking the minimum. It proves the
  invariant holds in every reachable state and that the number of iterations
  is bounded.
- `dijkstra.dfy` (module `Dijkstra`): `shortestPathFirst`, `generatePath` and
  `recursiveGetVisitedFromNodes` as methods on a `Graph`.

The search is not textbook Dijkstra. Each step picks the closest node only
among the current node's unvisited direct neighbours (`dijkstra.js:91`). The
model therefore proves what the code guarantees (a real path, consistent
distances, termination, an explicit failure when stuck) and not global
optimality.

## Model

| member | source | states |
|---|---|---|
| Paths.Plus | dijkstra.js:61 | JavaScript `+` of a distance and a cost, where `Infinity` absorbs the cost; its properties are in `PlusKeepsOrder` |
| Paths.PlusKeepsOrder | dijkstra.js:61-63 | adding one cost to two distances keeps their order; `Infinity` plus a cost is `Infinity`; a number plus a cost is their sum |
| Paths.Below | dijkstra.js:63 | JavaScript `<` on distances (`a > b` at line 63 is `Below(b, a)`), with `Infinity` above every number and not below itself; its properties are in `BelowIsStrictOrder` |
| Paths.BelowIsStrictOrder | dijkstra.js:91 | `<` on distances is irreflexive, transitive and total, so `reduce` has a well-defined minimum |
| EdgeLists.FindIndex | dijkstra.js:33 | -1 exactly when no entry goes to `node`; otherwise the index of an entry to `node` with none before it |
| EdgeLists.RemoveFirst | dijkstra.js:34-36 | one entry shorter when an entry to `node` exists, the list itself otherwise |
| EdgeLists.SpliceRemovesFirst | dijkstra.js:33-36 | splicing out the index `findIndex` returns is removing the first entry to `node` |
| EdgeLists.AddedPath | dijkstra.js:32-38 | the last entry is `Path(cost, node)`; the length is unchanged when `node` was a target and grows by one otherwise |
| EdgeLists.AddedKeepsOthers | dijkstra.js:32-38 | the entries to other targets are exactly those before the call, in the same relative order |
| EdgeLists.AddedUnique | dijkstra.js:32-38 | from a list with one entry per target, the result is the other entries followed by the new one, and has one entry per target |
| EdgeLists.AddedIdempotent | dijkstra.js:32-38 | from a list with one entry per target, adding the same edge twice equals adding it once |
| EdgeLists.AddedAll | dijkstra.js:32-38 | after a non-empty series of `addOrientedPath` calls to one target, the last entry goes to it with the last cost; `LatestCostWins` gives the whole list |
| EdgeLists.LatestCostWins | dijkstra.js:32-38 | after any non-empty series of additions to one target: the other original entries in order, then one entry to the target with the last cost; still one entry per target |
| Nodes.AddedClosed | dijkstra.js:32-38 | adding an edge between two nodes of the graph keeps every edge inside the graph |
| Nodes.Graph.constructor | dijkstra.js:15-26 | every node gets its given edge list, distance `Infinity`, no `visitedFrom`, not visited |
| Nodes.Graph.AddOrientedPath | dijkstra.js:32-38 | `from`'s list becomes `AddedPath` of the old one; no other list and no search state changes |
| Nodes.Graph.AddNonOrientedPath | dijkstra.js:44-47 | `from -> node` is added by the replacement rule, then `node -> from` with the same cost; the search state is unchanged |
| Relaxation.Unvisited | dijkstra.js:56 | the `filter`, keeping list order; every kept entry points into the graph, and `UnvisitedMembers` says which entries are kept |
| Relaxation.UnvisitedMembers | dijkstra.js:56 | the filter keeps exactly the entries whose target is unvisited |
| Relaxation.Targets | dijkstra.js:69 | the `map` to target nodes, one per entry; `TargetsAt` says which node each is |
| Relaxation.TargetsAt | dijkstra.js:69 | the `k`th returned node is the target of the `k`th unvisited entry |
| Relaxation.RelaxStep | dijkstra.js:60-66 | one pass of the loop body, with one entry per node in the result; what it changes is stated by `RelaxMonotone` and `RelaxIsMin` |
| Relaxation.RelaxAll | dijkstra.js:59-67 | the loop over the filtered entries in order, with one entry per node in the result; what it changes is stated by `RelaxMonotone`, `RelaxChanges`, `RelaxBound` and `RelaxIsMin` |
| Relaxation.RelaxMonotone | dijkstra.js:59-67 | no distance rises; `visitedFrom` becomes the source node wherever a distance strictly falls and stays put where the distance stays; nodes not targeted are untouched |
| Relaxation.RelaxKeepsSource | dijkstra.js:59-67 | with no negative edge back to itself, the relaxing node's own distance and `visitedFrom` stay |
| Relaxation.RelaxChanges | dijkstra.js:59-67 | every changed distance equals the source's distance plus the cost of an entry to that node |
| Relaxation.RelaxBound | dijkstra.js:59-67 | every target ends at most the source's distance plus its entry's cost |
| Relaxation.RelaxIsMin | dijkstra.js:59-67 | with one entry per target, each target's new distance is the minimum of its old one and the source's distance plus the cost |
| Relaxation.RelaxUnvisited | dijkstra.js:56-67 | relaxing the filtered list never changes a visited node, nor, with no negative self edge, the source node |
| Nodes.Graph.CalcNeighboursTentativeDistance | dijkstra.js:55-71 | returns the targets of the unvisited entries in list order, whether improved or not (never null); the new distance/`visitedFrom` state is the in-order relaxation of those entries; edges and `visited` are unchanged |
| Walk.ReduceMinimum | dijkstra.js:91 | a position in the non-empty frontier |
| Walk.ReduceIsMinimal | dijkstra.js:91 | the chosen node has a minimal distance, and every later node is strictly farther, so ties go to the last |
| Walk.Advance | dijkstra.js:89-91 | one iteration from a well-formed state yields a well-formed state, or nothing when the frontier is empty |
| Walk.Run | dijkstra.js:85-92 | the state after `k` iterations, which is well-formed, or nothing once the loop has stopped |
| Walk.FreshStart | dijkstra.js:21-85 | fresh nodes with `startNode.distance = 0` are the walk's first state |
| Walk.WalkStart | dijkstra.js:85-86 | the first state satisfies the walk invariant |
| Search.StepTargets | dijkstra.js:56-91 | from a node at a finite distance, every relaxed entry leads to an unvisited node that ends at a finite distance |
| Search.LinkNew | dijkstra.js:63-66 | a node whose distance an iteration lowers points back at the current node, along an edge whose cost accounts for the distance |
| Search.LinkKept | dijkstra.js:63-66 | a node whose distance an iteration keeps still has a fit `visitedFrom` |
| Search.StepLinks | dijkstra.js:59-90 | after an iteration every `visitedFrom` link goes to an earlier-visited node along an edge whose cost accounts for the distance |
| Search.StepVisited | dijkstra.js:59-90 | after an iteration the start keeps distance 0 and no link, and every visited node is at a finite distance |
| Search.StepReached | dijkstra.js:63-66 | after an iteration every reached node other than the start has a `visitedFrom` |
| Search.StepPreserves | dijkstra.js:89-90 | one iteration keeps the search invariant |
| Walk.TallyStep | dijkstra.js:89-91 | one iteration keeps the count of visited nodes and iterations consistent and leaves `endNode` unvisited |
| Walk.AdvanceKeeps | dijkstra.js:88-92 | an iteration that moves on keeps the walk invariant, including that the current node's distance is finite |
| Walk.RunKeeps | dijkstra.js:88-92 | every state the loop reaches keeps the walk invariant and has taken exactly `k` iterations |
| Walk.Bounded | dijkstra.js:88-92 | a reachable state has taken fewer than `2n` iterations, and fewer than `n` with no self edges |
| Walk.RunShaped | dijkstra.js:88-92 | the iteration count of a reachable state, and its bounds |
| Walk.StuckVisited | dijkstra.js:56-91 | an empty filtered list means every target of the node is visited |
| Walk.StuckTally | dijkstra.js:88-91 | the iteration that finds an empty frontier still lies within the bounds |
| Walk.RunStuck | dijkstra.js:89-91 | when the frontier is empty, every target of the current node is visited, within the iteration bounds |
| Search.SearchRanked | dijkstra.js:63-90 | the `visitedFrom` links fall in visit order, so they contain no cycle |
| Walk.RunRanked | dijkstra.js:88-94 | on reaching `endNode`, the `visitedFrom` links are ranked by visit order |
| Search.BackChainDescends | dijkstra.js:109-113 | along a followed `visitedFrom` chain the rank falls, so no node repeats |
| Search.EdgeCosts | dijkstra.js:61-66 | for a joined path, a cost per step of an edge between the two nodes that accounts for the distance growth |
| Search.CostAlong | dijkstra.js:61-66 | starting from distance 0, the last node's distance is the sum of the step costs |
| Search.RouteCost | dijkstra.js:61-113 | along a route, every step is an edge and the end's distance is the sum of their costs |
| Search.ChainIsRoute | dijkstra.js:94-113 | the reversed `visitedFrom` chain of a reached, unvisited end starts at the start node and is a route |
| Walk.RunRoute | dijkstra.js:94-113 | on reaching `endNode`, that chain is a route, every node on it but `endNode` is visited, and `endNode` is not |
| Dijkstra.Reverse | dijkstra.js:106 | same length, element `i` is element `n-1-i` of the input |
| Dijkstra.RecursiveGetVisitedFromNodes | dijkstra.js:109-113 | the result extends `listOfNodes` by the `visitedFrom` chain from `endNode` up to a node with none |
| Dijkstra.GeneratePath | dijkstra.js:104-107 | a non-empty, duplicate-free list of nodes ending at `endNode`, starting at a node without `visitedFrom`, each node the `visitedFrom` of the next |
| Dijkstra.Visit | dijkstra.js:89-91 | one iteration on the graph does what `Advance` says: nothing next exactly when the frontier is empty, and then only the current node is newly visited while distances and `visitedFrom` stay; otherwise the next node and the new state |
| Dijkstra.WalkToEnd | dijkstra.js:85-92 | the loop ends on the state `Run` reaches after `steps` iterations: either at `endNode` with the nodes in that state, or stuck at a node whose frontier is empty, with only that node newly visited |
| Dijkstra.ReadPath | dijkstra.js:94-107 | once the loop has reached `endNode`, the path read off the `visitedFrom` links is a route from `startNode`, visited but for `endNode` |
| Dijkstra.ShortestPathFirst | dijkstra.js:82-95 | `startNode = endNode` gives `[]` and changes nothing; otherwise success gives a route from start to end (joined by edges, consistent distances, visited but for `endNode`), failure names a visited node whose targets are all visited; the final state of the nodes is the state `c` that `Run` reaches after `last` iterations, at `endNode` on success, at a node with an empty frontier (plus one more, failing iteration) on failure; fewer than `2n` iterations, fewer than `n` without self edges |

## Left out

- `printPath` (`dijkstra.js:120-127`) is left out. It only formats text and writes to the console.
- Costs are integers and `Infinity` is its own value. JavaScript floating point (rounding, `NaN`, `-Infinity` costs) is not modelled.
- A node's `name` is not modelled. Nodes are compared by reference only, so an index is enough.
- The nodes of one graph are held by one `Graph` object as four sequences. Two nodes sharing one `paths` array passed to both constructors is not modelled, and neither are edges to nodes of another graph (`Valid` keeps every edge inside the graph).
- `splice`, `push` and `reverse` work in place on arrays in the source. The model assigns new sequence values to the fields or locals, so aliasing of those arrays is not captured.
- Dijkstra.ShortestPathFirst: requires fresh nodes (distance `Infinity`, no `visitedFrom`, unvisited). A second search on a used graph is not modelled.
- Dijkstra.ShortestPathFirst: requires that no node has a negative-cost edge to itself, which is stronger than the source needs. Such an edge matters only when the walk makes that node current: the relaxation then lowers the node's own distance and points its `visitedFrom` at itself. Even then `recursiveGetVisitedFromNodes` goes wrong only when the chain from `endNode` passes through that node, and it then recurses until JavaScript throws a stack-overflow `RangeError`. For example, with edges s→u (1), s→e (10), u→u (−1) and u→e (100), the source visits s, u, u, leaves `e.visitedFrom` at s and returns `[s, e]`, but the model's precondition excludes this graph. Negative costs on other edges are allowed.
- Dijkstra.ShortestPathFirst: the bound on iterations is below `2n` in general, because a self edge can make a node pick itself once more. It is below `n` only when there are no self edges.
- When `reduce` meets an empty list it throws a `TypeError`. The model returns `EmptyFrontier(node)` instead, naming the node whose frontier was empty.
- Ties in `reduce` go to the later node, because `prev` is kept only when strictly closer.
- The `return null` at `dijkstra.js:57` never fires, because an array is always truthy. The model returns the empty list there, as the code does.
- `shortestPathFirst` is split into `ShortestPathFirst`, its loop `WalkToEnd`, one iteration `Visit` and the final `generatePath` call `ReadPath`. Together they do what the one source function does.
- Dijkstra.ShortestPathFirst: there is no claim that the path is a shortest one. The selection at `dijkstra.js:91` looks only at the current node's neighbours.
