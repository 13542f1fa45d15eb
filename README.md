# Greedy dominating set of the GEMS graph editor, modelled in Dafny

The graph editor highlights a dominating set of the graph on screen: a set of
nodes such that every node is in the set or is a neighbour of a member. The set
is computed by `computeDominatingSet` in `src/algorithms/dominatingSet.ts`. This
project models that function.

The function works in two phases:

1. **Adjacency construction.** Every listed node id gets an empty neighbour set.
   Each edge `(source, target)` then adds `target` to the set of `source` if
   `source` is listed, and `source` to the set of `target` if `target` is listed.
2. **Greedy loop.** While fewer ids are dominated than there are entries in the
   node list, it scans the nodes in order. Each undominated node scores 1 plus
   the number of its undominated neighbours. It keeps the first node with the
   highest score, adds it to the result, and marks it and its neighbours
   dominated.

Files:

- `graph_adjacency.dfy` (module `GraphAdjacency`): the `Graph` value, the
  intended adjacency `AdjacencyOf` as a function of the node and edge lists,
  and `BuildAdjacency`, the two loops of lines 8-13, proved to build exactly
  that map.
- `greedy.dfy` (module `GreedyDominatingSet`): the score, the scan, and the
  greedy loop as methods with loops. Each method is proved equal to a ghost
  specification: `Choice` for the scan and `GreedyFrom`/`Greedy` for the loop.
  The properties of the result are proved as lemmas about those functions:
  listed ids only, independence, validity, and the bound on the number of
  passes.
- `greedy_examples.dfy` (module `GreedyExamples`): what the function returns
  on small graphs. These include inputs where the loop stops with a listed node
  still undominated.

Three edge cases are modelled as the code behaves:

- **Dangling edges.** Line 11 adds an unlisted `target` to the set of a listed
  `source`. That unlisted id can then be marked dominated (line 39). The loop
  test on line 19 compares the size of the dominated set with the length of the
  node list. So the loop can stop while a listed node is still undominated.
  `DanglingEdgeStopsEarly` shows this: nodes `a`, `b` with the edge `a-x`
  return `{a}`.
- **Duplicate ids.** The dominated set then cannot grow to the length of the
  node list through listed ids alone. When every edge endpoint is listed, the
  count on line 19 is never reached. Once every listed node is dominated, the
  scan finds nothing and the `break` of line 35 ends the loop, so the result is
  still valid (`DuplicateIdsBreak`). Dangling edges can make up the difference:
  unlisted ids then fill the count early and the loop stops with a listed node
  undominated (`DuplicateDanglingStopsEarly`: nodes `a`, `a`, `b` with edges
  `a-x` and `a-y` give `{a}`). With distinct ids the scan always finds a node
  while the test on line 19 passes (`DistinctIdsScanFinds`). So there only a
  chosen id `""` reaches the `break`.
- **The empty-string id.** The test on line 35 is `!bestNode`, a JavaScript
  falsiness test. The empty string is falsy, so a chosen node whose id is `""`
  stops the loop too. `SingleEmptyId` shows this.

Validity (`GreedyDominates`) is proved under two hypotheses: every edge
endpoint is listed, and no listed id is `""`. It does not need distinct ids.
Independence of the result (`GreedyIndependent`) holds for every graph.

Further behaviour of the code that the model keeps:

- An edge with one unlisted endpoint is not dropped. Lines 11 and 12 skip only
  the insertion into the unlisted end. The listed end still gets the unlisted id
  (`DanglingEdgeTouchesListedEndOnly`, in either orientation).
- The result is guaranteed to be a dominating set only under the two hypotheses
  above. Without them it can fail, as the examples show.
- The loop leaves early only through the `!bestNode` test of line 35. No score
  is compared with the initial `-1` after the scan.
- A self-loop `(u, u)` puts `u` into its own neighbour set. The score of `u`
  then counts `u` twice.

## Model

| member | source | states |
|---|---|---|
| `GraphAdjacency.AdjacencyOf` | src/algorithms/dominatingSet.ts:8-13 | the map has exactly the listed ids as keys; every edge puts its target into the set of a listed source and its source into the set of a listed target |
| `GraphAdjacency.InsertEdge` | src/algorithms/dominatingSet.ts:11-12 | one edge keeps the keys, and the set of each key gains the other endpoint exactly when the key is an endpoint (a self-loop adds the id to its own set) |
| `GraphAdjacency.BuildAdjacency` | src/algorithms/dominatingSet.ts:8-13 | the map built by the two loops is exactly `AdjacencyOf(nodes, edges)`, and its keys are exactly the listed ids |
| `GraphAdjacency.ListOneMore` | src/algorithms/dominatingSet.ts:9 | listing one more id adds exactly its entry, mapped to the empty set |
| `GraphAdjacency.AdjacencySnoc` | src/algorithms/dominatingSet.ts:10-13 | handling one more edge changes the map exactly by the two guarded insertions of lines 11 and 12 |
| `GraphAdjacency.AdjacencyDomain` | src/algorithms/dominatingSet.ts:8-13 | an id has an entry iff it is listed, so an id that occurs only in edges has none; a listed id that no edge mentions maps to the empty set; the set of a listed id holds exactly the ids that share an edge with it |
| `GraphAdjacency.AdjacencySymmetric` | src/algorithms/dominatingSet.ts:10-13 | for listed `u` and `v`, `v` is in the set of `u` iff `u` is in the set of `v` |
| `GraphAdjacency.DanglingEdgeTouchesListedEndOnly` | src/algorithms/dominatingSet.ts:11-12 | an edge with exactly one listed endpoint, as source or as target, changes only the listed endpoint's set, by adding the unlisted endpoint |
| `GraphAdjacency.ListedEdgesGiveListedNeighbours` | src/algorithms/dominatingSet.ts:10-13 | when every edge endpoint is listed, every neighbour set holds listed ids only |
| `GreedyDominatingSet.Score` | src/algorithms/dominatingSet.ts:26-29 | a score is at least 1, for the node itself, and at most 1 plus the number of its neighbours |
| `GreedyDominatingSet.ScoreMinimal` | src/algorithms/dominatingSet.ts:26-29 | a node scores 1 iff all of its neighbours are already dominated |
| `GreedyDominatingSet.CountUndominated` | src/algorithms/dominatingSet.ts:27-29 | the counting loop returns the number of neighbours not in the dominated set |
| `GreedyDominatingSet.BestExists` | src/algorithms/dominatingSet.ts:20-34 | if some node of a prefix is undominated, then some node of the prefix is the first undominated node of highest score |
| `GreedyDominatingSet.BestUnique` | src/algorithms/dominatingSet.ts:30-33 | at most one position is the first undominated node of highest score, so ties are broken deterministically |
| `GreedyDominatingSet.Choice` | src/algorithms/dominatingSet.ts:20-35 | the scan finds no node iff every listed node is dominated; otherwise it finds an undominated listed id that is the first node of highest score |
| `GreedyDominatingSet.ChoiceIs` | src/algorithms/dominatingSet.ts:20-34 | the scan selects exactly the first undominated node of highest score: the comparison is strictly greater, so the earliest node wins ties |
| `GreedyDominatingSet.SelectBest` | src/algorithms/dominatingSet.ts:20-34 | the scan loop returns `None` iff every listed node is dominated, and otherwise the id of the first undominated node of maximum score |
| `GreedyDominatingSet.GreedyFrom` | src/algorithms/dominatingSet.ts:19-40 | the loop never removes an id from the result it started with |
| `GreedyDominatingSet.Greedy` | src/algorithms/dominatingSet.ts:6-43 | the returned set holds listed ids only |
| `GreedyDominatingSet.GreedyFromStep` | src/algorithms/dominatingSet.ts:35-39 | a pass that picks `b` continues from the result plus `b` and the dominated set plus `b` and its neighbours |
| `GreedyDominatingSet.GreedyFromStops` | src/algorithms/dominatingSet.ts:19-35 | once the size test fails or every listed node is dominated, the loop returns the result unchanged |
| `GreedyDominatingSet.GreedyOnePass` | src/algorithms/dominatingSet.ts:19-40 | if the first pick, with its neighbours, reaches the count or covers every listed node, the result is that single node |
| `GreedyDominatingSet.GreedyLoop` | src/algorithms/dominatingSet.ts:15-42 | the loop returns `GreedyFrom(nodes, adj, {}, {})`; the number of passes that add a node equals the size of the result and is at most the number of distinct listed ids |
| `GreedyDominatingSet.ComputeDominatingSet` | src/algorithms/dominatingSet.ts:6-43 | the result is `Greedy(graph)`; it holds listed ids only and is independent; it dominates every listed node when every edge endpoint is listed and no id is `""` |
| `GreedyDominatingSet.GreedyFromListed` | src/algorithms/dominatingSet.ts:22-39 | everything the loop adds is a listed id that was not yet dominated |
| `GreedyDominatingSet.IndependentStep` | src/algorithms/dominatingSet.ts:24-39 | choosing an undominated node and marking its neighbours keeps the result inside the dominated set, the neighbours of every member dominated, and the result independent |
| `GreedyDominatingSet.GreedyFromIndependent` | src/algorithms/dominatingSet.ts:24-39 | a node is chosen only while undominated and its neighbours are then dominated, so the result stays independent |
| `GreedyDominatingSet.ListedAtMostLength` | src/algorithms/dominatingSet.ts:19 | there are never more distinct listed ids than entries in the node list, and exactly as many when no id repeats |
| `GreedyDominatingSet.DistinctIdsScanFinds` | src/algorithms/dominatingSet.ts:19-35 | with distinct ids, the scan finds a node whenever the size test passes, so only a chosen id `""` can reach the `break` |
| `GreedyDominatingSet.GreedyFromDominates` | src/algorithms/dominatingSet.ts:19-40 | with closed edges and no `""` id, every listed node ends up in the result or next to a member of it |
| `GreedyDominatingSet.GreedyListed` | src/algorithms/dominatingSet.ts:22-37 | every returned id is listed, so an id that occurs only in edges is never returned; the result has at most as many members as there are distinct listed ids |
| `GreedyDominatingSet.GreedyIndependent` | src/algorithms/dominatingSet.ts:24-39 | for every graph, no returned node is a neighbour of another returned node |
| `GreedyDominatingSet.GreedyDominates` | src/algorithms/dominatingSet.ts:11-40 | if every edge endpoint is listed and no listed id is `""`, the result dominates every listed node; distinct ids are not needed |
| `GreedyExamples.EmptyGraph` | src/algorithms/dominatingSet.ts:19 | an empty node list gives the empty set |
| `GreedyExamples.SingleAdjacency` | src/algorithms/dominatingSet.ts:9 | a single node without edges maps to the empty set |
| `GreedyExamples.SingleRun` | src/algorithms/dominatingSet.ts:19-40 | on that map a node with a non-empty id is picked and one pass covers it |
| `GreedyExamples.SingleNode` | src/algorithms/dominatingSet.ts:19-42 | one node without edges, with a non-empty id, gives the singleton set of that node |
| `GreedyExamples.SingleEmptyId` | src/algorithms/dominatingSet.ts:35 | one node with id `""` gives the empty set, which does not dominate it |
| `GreedyExamples.StarAdjacency` | src/algorithms/dominatingSet.ts:8-13 | in a star, the centre's set holds the three leaves and each leaf's set holds the centre |
| `GreedyExamples.StarNeighbours` | src/algorithms/dominatingSet.ts:10-13 | in a star, the centre shares an edge with every leaf and each leaf with the centre only |
| `GreedyExamples.StarBest` | src/algorithms/dominatingSet.ts:20-34 | on the star's adjacency the centre, with score 4, is the first node of highest score |
| `GreedyExamples.StarMarked` | src/algorithms/dominatingSet.ts:38-39 | the centre and its neighbours are four distinct ids, as many as the node list is long |
| `GreedyExamples.StarRun` | src/algorithms/dominatingSet.ts:19-40 | on the star's adjacency, the centre is picked and one pass covers everything |
| `GreedyExamples.StarGraph` | src/algorithms/dominatingSet.ts:6-43 | the star `a-b`, `a-c`, `a-d` gives `{a}` |
| `GreedyExamples.DanglingAdjacency` | src/algorithms/dominatingSet.ts:11-12 | for nodes `a`, `b` and edge `a-x`: `a` maps to `{x}`, `b` to the empty set, and `x` has no entry |
| `GreedyExamples.DanglingRun` | src/algorithms/dominatingSet.ts:19-39 | on that adjacency, `a` is picked; with `x` two ids are dominated, the loop stops, and `b` is not dominated |
| `GreedyExamples.DanglingEdgeStopsEarly` | src/algorithms/dominatingSet.ts:11-19 | nodes `a`, `b` with edge `a-x` give `{a}`, which leaves the listed node `b` undominated |
| `GreedyExamples.DuplicateIdsRun` | src/algorithms/dominatingSet.ts:19-35 | on the edge-free map of `a` listed twice, `a` is picked once, and then the scan finds nothing |
| `GreedyExamples.DuplicateIdsBreak` | src/algorithms/dominatingSet.ts:19-35 | node `a` listed twice gives `{a}`; after that pass the scan finds nothing, so the loop leaves through the `break`, because the count of 2 is never reached |
| `GreedyExamples.DuplicateDanglingAdjacency` | src/algorithms/dominatingSet.ts:9-12 | for nodes `a`, `a`, `b` and edges `a-x`, `a-y`: `a` maps to `{x, y}` and `b` to the empty set |
| `GreedyExamples.DuplicateDanglingBest` | src/algorithms/dominatingSet.ts:20-34 | on that adjacency the first `a`, with score 3, is the first node of highest score |
| `GreedyExamples.DuplicateDanglingRun` | src/algorithms/dominatingSet.ts:19-39 | on that adjacency `a` is picked; with `x` and `y` three ids are dominated, which is the list length, so the loop stops with `b` undominated |
| `GreedyExamples.DuplicateDanglingStopsEarly` | src/algorithms/dominatingSet.ts:9-19 | nodes `a`, `a`, `b` with edges `a-x`, `a-y` give `{a}`, which leaves the listed node `b` undominated |

## Left out

- An exact minimum-cardinality solver is not part of this model. For the same
  reason there are no minimality or approximation-ratio claims (those involve
  logarithms).
- The UI: `src/App.tsx`, `src/components/GraphEditor.tsx`,
  `src/components/Sidebar.tsx`, `src/components/ControlsPanel.tsx` and
  `src/index.tsx`. These are React state, event handlers, floating-point screen
  coordinates and DOM set-up. `handleCompute` only copies node ids and edge
  endpoints into a `Graph`, which the model takes as input.
- `src/utils/persistence.ts`: `localStorage` and JSON, which are foreign I/O.
- Node objects are reduced to their `id` field, and edges to `(source, target)`
  pairs. No other field is read by the core.
- The `forEach` on line 39 adds each neighbour to `dominated`. It is modelled
  as one set union, which gives the same set.
- Iteration order of JavaScript `Set`s: the counting loop takes neighbours in an
  arbitrary order. Only the count matters, and it does not depend on the order.
- `GreedyLoop`: the number of passes that add a node is a ghost counter. The source keeps no
  such variable, so it does not change what the function returns.
