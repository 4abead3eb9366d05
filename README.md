# MapsPathfinding route finder: a verified model of the graph, ingestion and A*

This project models the algorithmic core of the MapsPathfinding route finder.
The route finder turns an OpenStreetMap extract into a road graph and answers
shortest-route queries between two coordinates with A* search. Three parts are
modelled.

- **The road graph** (`graph.dfy`, module `Graphs`). `Graph` is a class whose
  `nodes` field maps a node id to a `Node`. A node holds its id, its position
  and its ordered list of outgoing `Edge(weight, neighbor)` entries.
  - `AddNode`, `AddConnection`, `GetNode`, `GetNeighbors` and `FindNearest`
    are the methods and functions of the same names.
  - The map-level functions `InsertNode` and `Connect` specify the two update
    methods.
  - `WellFormed` is the graph invariant. It says every node is stored under
    its own id, every edge leads to a node of the graph, and no weight is
    negative.
- **Ingestion** (`ingestion.dfy`, module `Ingestion`). A `Document` is the
  extract's node records and ways, in document order. Every attribute of a
  record arrives as `Missing`, `Unparsable` or `Parsed(value)`.
  - `ParseXml` runs the node pass and then the way pass as loops over a fresh
    `Graph`.
  - `Parse` is the same computation written as functions. Lemmas about
    `Parse` say when it fails, which nodes it creates, and which edges each
    way adds.
  - `OutEdges` is an independent definition of the edges a way adds.
- **A\* search** (`pathfinding.dfy`, module `Pathfinding`).
  - `Cmp` is the reversed `f_cost` comparison that turns the max-heap into a
    min-heap. `Pop` takes a state of least `f_cost` out of the open set.
  - `RelaxEdges` and `Expand` are the relaxation loop.
  - `ReconstructPath` is the backward walk along `came_from`.
  - `AStar` is the search loop.
  - The proofs show four things:
    - every `came_from` entry follows a graph edge;
    - the backward walk terminates;
    - a found path is a walk along graph edges from the start node to the
      goal node;
    - when the search reports no path, the goal node cannot be reached from
      the start node.

The distance function is a parameter `dist` of type `Metric`, a function from
two points to a non-negative real. It is used for both edge weights and the
heuristic. The iteration order of the node hash map is also a parameter: a
sequence `order` that lists each key once.

## Model

| member | source | states |
|---|---|---|
| Graphs.InsertNode | src/model/structs/graph.rs:8-18 | The keys gain `id`. The node under `id` has that id, position `(lat, lon)` and an empty edge list, so re-adding an id replaces the old node and drops its edges. Every other entry is unchanged. |
| Graphs.Connect | src/model/structs/graph.rs:21-32 | When either end is missing the map is unchanged. Otherwise `a`'s list grows by exactly one entry at its end, `Edge(dist(pos a, pos b), b)`, and its old entries are kept. The keys and every other node are unchanged. |
| Graphs.InsertNodeKeepsWellFormed | src/model/structs/graph.rs:8-18 | `add_node` keeps the graph invariant, even when it re-adds an existing id, because no key is ever removed. |
| Graphs.ConnectKeepsWellFormed | src/model/structs/graph.rs:21-32 | `add_connection` keeps the graph invariant: a new edge leads to an existing node and has a non-negative weight. |
| Graphs.ConnectIsDirected | src/model/structs/graph.rs:22-29 | Connecting `a` to a different node `b` leaves `b`'s node, including its edge list, unchanged. |
| Graphs.NearestIsUnique | src/model/structs/graph.rs:40-51 | For a fixed visiting order, at most one node is the first nearest one. |
| Graphs.Graph.constructor | src/model/util.rs:11-13 | A new graph is empty and satisfies the invariant. |
| Graphs.Graph.AddNode | src/model/structs/graph.rs:8-18 | The new `nodes` is `InsertNode` of the old one, and the invariant is preserved. |
| Graphs.Graph.AddConnection | src/model/structs/graph.rs:21-32 | The new `nodes` is `Connect` of the old one, and the invariant is preserved. |
| Graphs.Graph.GetNode | src/model/structs/graph.rs:35-37 | Returns `Some` exactly when the id is a key, and then returns that node. |
| Graphs.Graph.GetNeighbors | src/model/structs/graph.rs:54-56 | Returns `None` exactly when the id is absent. Otherwise it returns that node's edge list. |
| Graphs.Graph.FindNearest | src/model/structs/graph.rs:40-51 | Returns `None` (the panic) exactly when the graph is empty. Otherwise it returns the node at a position of `order` whose distance to the target is at most every node's distance, with every earlier node strictly farther (strict `<`). |
| Ingestion.Read | src/model/util.rs:18-32 | A converted attribute is read as its value. A missing one gives the "no attribute" error and an unconvertible one gives the "could not parse" error. |
| Ingestion.ReadNode | src/model/util.rs:18-33 | Succeeds exactly when `id`, `lat` and `lon` all convert, and then yields those three values. The first attribute that fails, in the order `id`, `lat`, `lon`, decides the error: the "no attribute" error when it is missing, the "could not parse" error when it does not convert. |
| Ingestion.NodesFrom | src/model/util.rs:17-34 | The node pass: `add_node` for each record in document order, stopping at the first record that does not read. It has no contract of its own. `NodesFromSucceeds`, `NodesFromKeys`, `NodesFromLastWins` and `NodesFromNoEdges` state its behaviour. |
| Ingestion.ReadRef | src/model/util.rs:42-51 | A converted `ref` gives its id. A missing one gives the "no attribute" error and an unconvertible one the "could not parse" error. |
| Ingestion.WayFrom | src/model/util.rs:46-54 | The rest of one way: each consecutive pair goes to `add_connection`, stopping at the first reference that does not read. It has no contract of its own. `WayFromSucceeds`, `WayFromKeepsNodes` and `WayFromEdges` state its behaviour. |
| Ingestion.WayPass | src/model/util.rs:38-54 | An empty way is the "Empty Iterator" error. A first reference that does not read gives that reference's error. `WayPassEdges` states what a complete way adds. |
| Ingestion.WaysFrom | src/model/util.rs:36-55 | The way pass over the ways in document order, stopping at the first error. It has no contract of its own. `WaysFromSucceeds`, `WaysFromKeepsNodes` and `WaysFromEdges` state its behaviour. |
| Ingestion.Parse | src/model/util.rs:10-57 | The node pass, then the way pass. It has no contract of its own. `ParseWellFormed`, `ParseFailsExactly` and `ParseEdges` state its behaviour, and `ParseXml` is proved equal to it. |
| Ingestion.NodesFromSucceeds | src/model/util.rs:17-34 | The node pass succeeds exactly when every record is complete. |
| Ingestion.NodesFromKeys | src/model/util.rs:17-34 | After the node pass, the keys are the old ones plus every record's id and the invariant holds. A node that no record mentions is untouched. |
| Ingestion.NodesFromLastWins | src/model/util.rs:17-34 | For each id, the last record with that id decides the node. The node has that record's position and an empty edge list. |
| Ingestion.WayFromKeepsNodes | src/model/util.rs:46-54 | The rest of a way changes no key, id or position, and keeps the invariant. |
| Ingestion.WaysFromKeepsNodes | src/model/util.rs:36-55 | The way pass changes no key, id or position, and keeps the invariant. |
| Ingestion.WayFromSucceeds | src/model/util.rs:46-54 | The rest of a way succeeds exactly when every reference converts. |
| Ingestion.WaysFromSucceeds | src/model/util.rs:36-55 | The way pass succeeds exactly when every way has a first reference and all its references convert. A dangling reference is never an error. |
| Ingestion.OutEdgesSameNodes | src/model/util.rs:46-54 | The edges a run of references adds depend only on the nodes' ids and positions, not on edges already present. |
| Ingestion.WayFromEdges | src/model/util.rs:46-54 | A complete run of references succeeds, keeps the keys, and appends to each node exactly the `OutEdges` of the run. That is one edge per consecutive pair starting at that node whose ends both exist, in order. |
| Ingestion.PairStep | src/model/util.rs:52-53 | Connecting one pair and then adding the rest of the run adds exactly the edges of the whole run. |
| Ingestion.ConnectAppendsPairEdge | src/model/structs/graph.rs:21-32 | `add_connection(cur, next)` appends to node `a` exactly the edge that the pair contributes to `a`, ahead of any edges added later. |
| Ingestion.WayPassEdges | src/model/util.rs:39-54 | A complete way keeps every key, id and position, and appends to each node exactly the `OutEdges` of all its references. |
| Ingestion.WaysOutEdgesSameNodes | src/model/util.rs:36-55 | The edges the way pass adds depend only on the nodes' ids and positions, not on edges already present. |
| Ingestion.WaysFromEdges | src/model/util.rs:36-55 | A way pass over complete ways succeeds and keeps the keys. It appends to each node exactly `WaysOutEdges`: way by way in document order, one edge per consecutive pair of references that starts at the node and whose ends both exist. A dangling reference drops only the edges of its own pairs. |
| Ingestion.WaysStep | src/model/util.rs:36-55 | The edges of the first way followed by those of the other ways are the edges of all the ways. |
| Ingestion.NodesFromNoEdges | src/model/util.rs:17-34 | After the node pass every edge list is empty: `add_node` always starts a node with no edges. |
| Ingestion.ParseEdges | src/model/util.rs:10-57 | When every record and every way is complete, the parse succeeds, and each node's edge list is exactly `WaysOutEdges` over the parsed nodes. Nothing else is ever added. |
| Ingestion.ParseWellFormed | src/model/util.rs:10-57 | A successful parse ran the whole node pass first, and every record was complete. The resulting graph satisfies the invariant, and its nodes are exactly the records' ids. |
| Ingestion.ParseFailsExactly | src/model/util.rs:17-55 | The parse fails exactly when some node record is incomplete, or some way is empty or has a reference that does not convert. |
| Ingestion.ParseXml | src/model/util.rs:10-57 | On failure, returns `Parse`'s error. Otherwise returns a fresh graph whose nodes are `Parse`'s result and which satisfies the invariant. |
| Pathfinding.CompareReals | src/model/pathfinding.rs:24-27 | `partial_cmp` on reals: `Less`, `Equal` or `Greater` exactly as the first argument is below, equal to or above the second. |
| Pathfinding.Cmp | src/model/pathfinding.rs:22-29 | The order is reversed: `Greater` exactly when `self` has the smaller `f_cost`, `Less` exactly when it has the larger one, and `Equal` on equal costs. |
| Pathfinding.StateEq | src/model/pathfinding.rs:31-35 | Equality compares ids only. Two states with the same id but different costs are equal yet not `Equal` under `Cmp`. |
| Pathfinding.Pop | src/model/pathfinding.rs:63 | Returns `None` exactly on an empty open set. Otherwise it removes one state and returns it, and that state is not `Less` than any state in the set, so it has the least `f_cost`. |
| Pathfinding.PopKeepsOthers | src/model/pathfinding.rs:63 | Removing a state for another node keeps a state for `x` in the open set. |
| Pathfinding.RelaxStep | src/model/pathfinding.rs:69-79 | One improving edge keeps all the relaxation facts: pushed states, lowered scores, explained changes and kept predecessors. |
| Pathfinding.SlottedRelax | src/model/pathfinding.rs:72-78 | Pushing the state for a newly lowered score at the end of the open set records where it is, and keeps the earlier records valid. |
| Pathfinding.RelaxEdge | src/model/pathfinding.rs:68-80 | One edge `i` of `u`, to `v` with weight `w`, relative to the state before it. If `v` has no score yet, or `g(u) + w` is strictly below its current score, four things happen: `State(v, g(u) + w + dist(v, goal), g(u) + w)` is appended to the open set, `v`'s score becomes `g(u) + w`, its predecessor becomes `u`, and `i` is logged. Otherwise the open set, the scores, the predecessors and the log are unchanged. The facts about the first `i` edges extend to the first `i + 1`. |
| Pathfinding.RelaxEdges | src/model/pathfinding.rs:67-81 | After all of `u`'s edges, the open set only grows at its end. A state is pushed only for a node whose score was lowered or newly set. Each pushed state has f = g + `dist(node, goal)` and a g no lower than the node's score. Each improved node has, past the old open set, the state `State(v, g + dist(v, goal), g)` for its final score g. The pushed states are, in order, the states of a strictly increasing list of `u`'s edges (ghost `from`). No score goes up and `u`'s score is untouched. Every edge of `u` is relaxed, every changed score comes from an edge of `u`, and unchanged nodes keep their predecessor. |
| Pathfinding.ExpandKeepsTree | src/model/pathfinding.rs:67-81 | An expansion keeps the search maps a tree: each predecessor has an edge to its successor and comes strictly `Before` it (lower score, or the same score and an earlier stamp). |
| Pathfinding.ExpandDone | src/model/pathfinding.rs:67-81 | After an expansion `u` is relaxed, and every improved node has `u` as predecessor, a score from an edge of `u`, and a pushed state `State(v, g + dist(v, goal), g)` for its new score g. |
| Pathfinding.Expand | src/model/pathfinding.rs:67-81 | An expansion keeps the tree invariant and only lowers scores, always to a strictly smaller value. An improved node records `u` in `came_from`, its new score g is `g(u)` plus the weight of an edge from `u` to it, and `State(v, g + dist(v, goal), g)` is pushed for it. States are pushed only for improved nodes, and they are, in order, the states `State(v, g(u) + w + dist(v, goal), g(u) + w)` of a strictly increasing list of `u`'s edges. Every other node keeps its predecessor. |
| Pathfinding.BelowShrinks | src/model/pathfinding.rs:41-44 | Stepping to a predecessor strictly shrinks the set of nodes that come before, which bounds the backward walk. |
| Pathfinding.Reverse | src/model/pathfinding.rs:45 | `reverse`: same length, element `i` is element `n-1-i` of the input. |
| Pathfinding.ReconstructPath | src/model/pathfinding.rs:38-47 | Terminates. The path ends with the position of `current`. Each element is the position of a node, and each node before the last is the `came_from` predecessor of the node after it. The first node has no predecessor. |
| Pathfinding.WalkStaysInClosedSet | src/model/pathfinding.rs:63-83 | A walk that starts among scored nodes, all of whose edges are relaxed, never leaves the scored nodes. |
| Pathfinding.SearchStart | src/model/pathfinding.rs:53-61 | Seeding the start node with g = 0 and a state in the open set establishes the search invariant. |
| Pathfinding.SearchExhausted | src/model/pathfinding.rs:63-83 | When the open set is empty, the goal node is not reachable from the start node. |
| Pathfinding.PopKeepsScored | src/model/pathfinding.rs:63 | After a pop, every state left in the open set names a node with a score, so `g_score[&id]` never fails. |
| Pathfinding.SearchStep | src/model/pathfinding.rs:63-81 | Popping a node other than the goal and expanding it keeps the search invariant. The invariant says every scored node is open or relaxed, the start node is the only root, and a scored goal node stays open. |
| Pathfinding.StillOpen | src/model/pathfinding.rs:63-79 | A node other than the popped one keeps a state in the open set across the pop and the pushes. |
| Pathfinding.StillRelaxed | src/model/pathfinding.rs:69-72 | Lowering other nodes' scores keeps a node with an unchanged score relaxed. |
| Pathfinding.PathIsWalk | src/model/pathfinding.rs:64-65 | The nodes collected back from the goal node form a walk along graph edges that starts at the start node. |
| Pathfinding.AStar | src/model/pathfinding.rs:50-84 | The empty graph (the panic in `find_nearest`) is reported exactly when the graph is empty. A found path is the positions of a walk along graph edges from the node nearest `start` to the node nearest `goal`. No path means that goal node is unreachable from that start node. |

## Left out

- `calculate_distance` (src/model/util.rs:60-71) is floating-point haversine trigonometry. It is the parameter `dist`, known only to be non-negative.
- The XML text handling (the `xmlns` patch and `minidom` parsing, src/model/util.rs:15-16) is a foreign library. A document arrives as node records and reference lists with attributes already converted.
- The `println!` calls and the test that reads `data3.xml` are I/O.
- src/controller/serve.rs and src/main.rs are the HTTP server and are not part of this model.
- src/model/structs/node.rs has no behaviour. It is the `Node` datatype.
- Floating point is modelled as exact reals. NaN, so the `unwrap_or(Ordering::Equal)` fallback, and rounding are not modelled.
- Graphs.Graph.FindNearest: the `f64::MAX` start value is modelled as "no node yet", so a node at distance `f64::MAX` or more, which the source would never pick, is picked here.
- Pathfinding.RelaxEdges: the `unwrap_or(&f64::MAX)` default is modelled as "absent means infinite", so a tentative score of `f64::MAX` or more improves an unscored node here.
- The iteration order of the node `HashMap` is the parameter `order`. The source leaves it unspecified, and the model follows the source rather than imposing a tie-break by id.
- Pathfinding.Pop: `BinaryHeap` internals are not modelled. The open set is a sequence and `Pop` returns some state of least `f_cost`. Which of several equal states a real heap returns is unspecified, and the contract leaves it open. No secondary tie-break key is imposed.
- Pathfinding.AStar: the search loop runs at most `fuel` iterations and reports `OutOfFuel` otherwise. The source loops until the goal node is popped or the open set is empty. Termination of that loop is not proved here: it keeps stale states in the open set, and popping one expands its node again with the current `g_score`.
- Pathfinding.RelaxEdges: each pushed state is the exact state of one edge of `u`, the edges in increasing order, and every improved node's state for its final score is among them. Each single step is exact (`Pathfinding.RelaxEdge`), but the contract of the whole loop does not fix which edges pushed. Two cases are neither required nor ruled out: a push for an edge whose improvement a later edge of `u` superseded, and a push for an edge that never improved its target. An example of the second is a second, heavier edge to an already improved node.
- Pathfinding.Expand: the same gap as `Pathfinding.RelaxEdges`.
- Pathfinding.AStar: the found path is proved to be a walk from the start node to the goal node, but not proved to be shortest. Optimality would need an admissible heuristic, and nothing is known about `dist` beyond non-negativity.
- Ingestion.ReadNode: the source's message for a missing `lon` attribute says `'lat'` (src/model/util.rs:30). The model names it `NoLonAttribute`. Messages are not modelled, only which `expect` fails.
- Ingestion.ParseXml: a panic is modelled as an `Err` result, and the partly built graph is discarded. A way whose later reference fails to convert panics after earlier connections were made. Those connections are lost with the panic, as in the source.
