# Undirected graph with depth-first lookup, in Dafny

This project models `Graph<T>` from `src/main/java/com/haedhutner/graphs/Graph.java`. It is a generic graph with a root node. Each node holds a data value and a hash set of edges, and edges are kept in both directions so the graph behaves as undirected. The model covers:

- the node operations `addLink`, `removeLink` and `containsLink`, with their one level of mutual recursion;
- the graph operations `insert` (both overloads), `remove`, `link`, `unlink` and `areLinked`;
- `findNode` with its recursive `depthFirstSearch`;
- the visit-once `forEach` traversal;
- node and edge equality by data.

Files:

- `adjacency.dfy`, module `Adjacency`: edges and per-node edge sets as values. Nodes are identified by their data, so all edge sets together form one map from a node's data to the set of `Edge(source, target)` values whose source is that node. This module also defines linking and unlinking on that map, the symmetry invariant (every edge x → y is matched by y → x), and reachability by walks. Module `Wrappers` (in the same file) holds `Option`, which stands for a nullable Java reference.
- `search.dfy`, module `Dfs`: `depthFirstSearch` and the private `forEach` as recursive functions, with lemmas about both. The search as written returns only reachable data but can miss some (`SearchAsWrittenMissesReachable`); the corrected search finds exactly the reachable data (`SearchFindsExactlyReachable`); and `forEach` hands over each reachable node exactly once (`VisitCoversReachable`).
- `graph.dfy`, module `Graphs`: class `Graph`. Its fields `root` and `links` are updated in place by methods that follow the source operation by operation. The two walks are methods with loops, each proved equal to its function in `Dfs`.
- `scenarios.dfy`, module `Scenarios`: two concrete graphs. One is the graph built by `GraphTest.insertTest`. The other shows what `remove` leaves behind as written.

Modelling choices:

- Iteration order of a `HashSet` is unspecified. Every operation that walks the graph takes a parameter `order`, where `order[x]` lists each edge of node x exactly once. Every property is proved for all such orders.
- The `checkedNodes` and `iteratedNodes` sets are shared by reference between the recursive calls in the source. Here they are passed in and returned.
- The `Consumer` of `forEach` is modelled as the sequence of data it receives.
- `IllegalArgumentException` is the `Outcome` value `Fail(IllegalArgument)`. A null `data` argument is `None`.
- `findNode` on a graph with no root dereferences null. `FindNode` and every operation that calls it therefore require a root.

Points of the code that the model follows closely:

- When the parent is not found, `insert(parent, data)` throws `IllegalArgumentException` (Graph.java:166-168), and the model returns `Fail(IllegalArgument)`.
- `remove` unlinks the node while iterating its own live edge set (Graph.java:180). See "## Findings".
- `depthFirstSearch` keeps whatever the last recursive call returns, which can be null, rather than the first match it finds (Graph.java:263-271). See "## Findings".

## Model

| member | source | states |
|---|---|---|
| Adjacency.HasEdge | src/main/java/com/haedhutner/graphs/Graph.java:35-37 | The edge lookup `links.contains(Edge.of(this, target))` used by `addLink` and `removeLink`. In well-formed edge sets, a node that has an edge to y implies that y is a known node. |
| Adjacency.ContainsLink | src/main/java/com/haedhutner/graphs/Graph.java:62-64 | `containsLink`: some edge of the node has a target equal to y. In well-formed edge sets, the answer is true only for known nodes. |
| Adjacency.ContainsLinkIsHasEdge | src/main/java/com/haedhutner/graphs/Graph.java:34-72 | The edge lookup `links.contains(Edge.of(this, target))` and the target scan in `containsLink` give the same answer, because every edge sits in its source's set and edges are equal when their data are. |
| Adjacency.Connect | src/main/java/com/haedhutner/graphs/Graph.java:34-46 | After linking, both x → y and y → x exist, the set of nodes is unchanged, and no other node's edge set changes. |
| Adjacency.Disconnect | src/main/java/com/haedhutner/graphs/Graph.java:48-60 | After unlinking, neither x → y nor y → x exists, the set of nodes is unchanged, and no other node's edge set changes. |
| Adjacency.ConnectAddsExactly | src/main/java/com/haedhutner/graphs/Graph.java:39-44 | Linking adds exactly x → y to x and y → x to y. A self-link adds the single edge x → x. |
| Adjacency.DisconnectRemovesExactly | src/main/java/com/haedhutner/graphs/Graph.java:53-57 | Unlinking removes exactly x → y from x and y → x from y. For a self-link it removes only x → x. |
| Adjacency.ConnectKeepsWellFormed | src/main/java/com/haedhutner/graphs/Graph.java:34-46 | Linking two known nodes keeps every edge in its source's set and every target a known node. |
| Adjacency.DisconnectKeepsWellFormed | src/main/java/com/haedhutner/graphs/Graph.java:48-60 | Unlinking keeps the edge sets well formed. |
| Adjacency.ConnectKeepsSymmetric | src/main/java/com/haedhutner/graphs/Graph.java:34-46 | If every edge has its reverse before linking, the same holds afterwards. |
| Adjacency.DisconnectKeepsSymmetric | src/main/java/com/haedhutner/graphs/Graph.java:48-60 | If every edge has its reverse before unlinking, the same holds afterwards. |
| Adjacency.DisconnectUndoesConnect | src/main/java/com/haedhutner/graphs/Graph.java:34-60 | In a symmetric graph, unlinking two nodes that were just linked restores every edge set. |
| Adjacency.ConnectUndoesDisconnect | src/main/java/com/haedhutner/graphs/Graph.java:34-60 | In a symmetric graph, linking two nodes that were just unlinked restores every edge set. |
| Adjacency.AddNodeKeepsSymmetric | src/main/java/com/haedhutner/graphs/Graph.java:144-146 | A new node created by `Node.of(data)` has no edges. Whether its data is new or belongs to a node that no link touches, such as a removed node, the edge sets stay well formed and symmetric. |
| Adjacency.UnusedUnreachable | src/main/java/com/haedhutner/graphs/Graph.java:174-181 | A node that no link touches, as `remove` leaves the removed node, is reachable from no other node, so no search from the root finds it. |
| Adjacency.Detach | src/main/java/com/haedhutner/graphs/Graph.java:179-181 | Unlinking a node from the targets of some of its edges removes those edges from it, and removes from each such target its edge back. |
| Adjacency.DetachStep | src/main/java/com/haedhutner/graphs/Graph.java:180 | One more `removeLink` on the node being removed extends the detached set by that edge. |
| Adjacency.Isolate | src/main/java/com/haedhutner/graphs/Graph.java:179-181 | Once the node is unlinked from every neighbour, it has no edges and the set of nodes is unchanged. |
| Adjacency.IsolateUnlinksEverything | src/main/java/com/haedhutner/graphs/Graph.java:174-181 | In a symmetric graph, after removal no node links to the removed node, every edge not touching it is kept, and symmetry still holds. |
| Adjacency.ClosedHoldsReachable | src/main/java/com/haedhutner/graphs/Graph.java:256-273 | A set that holds the start node and that no edge leaves holds every node reachable from the start. |
| Dfs.SearchAsWritten | src/main/java/com/haedhutner/graphs/Graph.java:256-273 | The search as written. It returns a node only if that node's data equals the criteria, and the checked set only grows and holds only known nodes. |
| Dfs.LoopAsWritten | src/main/java/com/haedhutner/graphs/Graph.java:263-271 | The edge loop as written: `result` takes the value of each recursive call. The loop returns only a matching node, and the checked set only grows. |
| Dfs.SearchAsWrittenFindsReachable | src/main/java/com/haedhutner/graphs/Graph.java:256-273 | Whatever the search as written returns is reachable from the node where it started, so data not reachable from the root is never found. |
| Dfs.LoopAsWrittenFindsReachable | src/main/java/com/haedhutner/graphs/Graph.java:263-271 | If the result carried into the edge loop as written is reachable from the iterated node, so is the result the loop returns. |
| Dfs.SearchAsWrittenMissesReachable | src/main/java/com/haedhutner/graphs/Graph.java:263-271 | A symmetric graph and an iteration order in which a reachable node is not found by the search as written. |
| Dfs.Search | src/main/java/com/haedhutner/graphs/Graph.java:256-273 | The corrected search. It returns only a matching node, never marks the criteria as checked, and marks the start node when it finds nothing. |
| Dfs.SearchEdges | src/main/java/com/haedhutner/graphs/Graph.java:263-271 | The corrected edge loop. It returns only a matching node, the checked set only grows, and it never marks the criteria as checked. |
| Dfs.SearchFindsReachable | src/main/java/com/haedhutner/graphs/Graph.java:256-273 | Whatever the search finds is reachable from the node where it started. |
| Dfs.SearchEdgesFindsReachable | src/main/java/com/haedhutner/graphs/Graph.java:263-271 | Whatever the edge loop finds is reachable from the node whose edges it iterates. |
| Dfs.SearchMissIsClosed | src/main/java/com/haedhutner/graphs/Graph.java:256-273 | When the search finds nothing, no edge leaves its final checked set from a node that the search added. |
| Dfs.SearchEdgesMissIsClosed | src/main/java/com/haedhutner/graphs/Graph.java:263-271 | When the edge loop finds nothing, every remaining target ends up checked, and no edge leaves the checked set from a node that the loop added. |
| Dfs.SearchFindsExactlyReachable | src/main/java/com/haedhutner/graphs/Graph.java:244-273 | From the root with nothing checked, the corrected search returns the criteria if it is reachable from the root, and empty otherwise. |
| Dfs.Visit | src/main/java/com/haedhutner/graphs/Graph.java:284-294 | The traversal hands the start node to the consumer first. The start node ends up iterated, and the iterated set only grows and holds only known nodes. |
| Dfs.VisitEdges | src/main/java/com/haedhutner/graphs/Graph.java:289-293 | The traversal's edge loop: the iterated set only grows and holds only known nodes. |
| Dfs.VisitOutput | src/main/java/com/haedhutner/graphs/Graph.java:284-294 | The consumer receives exactly the nodes that the traversal adds to the iterated set, each of them once. |
| Dfs.VisitEdgesOutput | src/main/java/com/haedhutner/graphs/Graph.java:289-293 | The edge loop hands over exactly the nodes it adds to the iterated set, each of them once. |
| Dfs.VisitReachesOnly | src/main/java/com/haedhutner/graphs/Graph.java:284-294 | Every node handed to the consumer is reachable from the start node. |
| Dfs.VisitEdgesReachesOnly | src/main/java/com/haedhutner/graphs/Graph.java:289-293 | Every node that the edge loop hands over is reachable from the node whose edges it iterates. |
| Dfs.VisitIsClosed | src/main/java/com/haedhutner/graphs/Graph.java:284-294 | No edge leaves the final iterated set from a node that the traversal added. |
| Dfs.VisitEdgesIsClosed | src/main/java/com/haedhutner/graphs/Graph.java:289-293 | Every target of the remaining edges ends up iterated, and no edge leaves the iterated set from a node that the loop added. |
| Dfs.VisitCoversReachable | src/main/java/com/haedhutner/graphs/Graph.java:275-294 | From the root, the consumer receives the root first, then every node reachable from the root, with no repeats. |
| Graphs.Graph.constructor | src/main/java/com/haedhutner/graphs/Graph.java:119-120 | A new graph has no root and no nodes. |
| Graphs.Graph.Of | src/main/java/com/haedhutner/graphs/Graph.java:122-124 | A new graph has a root that holds the first element and has no links. |
| Graphs.Graph.AddLink | src/main/java/com/haedhutner/graphs/Graph.java:34-46 | If x → y already exists, returns false and changes nothing. Otherwise returns true, and the edge sets become the old ones linked both ways. The root is unchanged. |
| Graphs.Graph.RemoveLink | src/main/java/com/haedhutner/graphs/Graph.java:48-60 | If x → y is absent, returns false and changes nothing. Otherwise returns true, and the edge sets become the old ones without x → y and y → x. The root is unchanged. |
| Graphs.Graph.DepthFirstSearchAsWritten | src/main/java/com/haedhutner/graphs/Graph.java:256-273 | The source's loop, including the overwritten `result`, computes exactly `SearchAsWritten`. |
| Graphs.Graph.DepthFirstSearch | src/main/java/com/haedhutner/graphs/Graph.java:256-273 | The loop with return on the first match computes exactly `Search`. |
| Graphs.Graph.FindNode | src/main/java/com/haedhutner/graphs/Graph.java:244-246 | Returns the data if it is reachable from the root, and empty otherwise. |
| Graphs.Graph.Insert | src/main/java/com/haedhutner/graphs/Graph.java:130-148 | Null data fails with IllegalArgument and changes nothing. With no root, the data becomes the root with no links. Otherwise the root and the new node become linked both ways. The inserted data becomes reachable, and symmetry is preserved. |
| Graphs.Graph.InsertUnder | src/main/java/com/haedhutner/graphs/Graph.java:150-172 | Null data, or a parent not reachable from the root, fails with IllegalArgument and changes nothing. Otherwise the parent and the new node become linked both ways, the new data becomes reachable, and symmetry is preserved. |
| Graphs.Graph.Link | src/main/java/com/haedhutner/graphs/Graph.java:183-200 | Returns true exactly when both data are reachable and the forward edge was absent. It then links them both ways; otherwise nothing changes. Symmetry is preserved. |
| Graphs.Graph.Unlink | src/main/java/com/haedhutner/graphs/Graph.java:202-218 | Returns true exactly when both data are reachable and the forward edge was present. It then removes both edges; otherwise nothing changes. Symmetry is preserved. |
| Graphs.Graph.AreLinked | src/main/java/com/haedhutner/graphs/Graph.java:220-236 | Returns true exactly when both data are reachable and the first has an edge to the second. In a symmetric graph the answer does not depend on the order of the arguments. |
| Graphs.Graph.RemoveAsWritten | src/main/java/com/haedhutner/graphs/Graph.java:174-181 | The removal as written. A found node loses only its link to the first target iterated, and the call fails with ConcurrentModification when the node had two edges or more. Symmetry is preserved, so the graph stays usable after the exception. |
| Graphs.Graph.Remove | src/main/java/com/haedhutner/graphs/Graph.java:174-181 | A found node is unlinked from every neighbour, and each neighbour loses its edge back. Data not found changes nothing. Symmetry is preserved. |
| Graphs.Graph.ForEachFrom | src/main/java/com/haedhutner/graphs/Graph.java:284-294 | The recursive `forEach` loop computes exactly `Visit`: the data handed to the consumer, in order, and the final iterated set. |
| Graphs.Graph.ForEach | src/main/java/com/haedhutner/graphs/Graph.java:275-282 | The consumer receives the root first, then every node reachable from the root, each exactly once. |
| Graphs.JoinReachable | src/main/java/com/haedhutner/graphs/Graph.java:159-172 | Reachability composes, which is how a node inserted under a reachable parent becomes reachable. |
| Scenarios.InsertTestLinks | src/test/java/com/haedhutner/graphs/GraphTest.java:21-27 | The graph that the insertion test's calls build: root A, with B, C and D linked under it, and E and F linked under D. It has exactly these six nodes and is well formed. |
| Scenarios.InsertTestGraph | src/test/java/com/haedhutner/graphs/GraphTest.java:19-34 | The graph built by the insertion test is symmetric and holds each link the test asserts. D and E are already linked, so linking them answers false; E and F, and B and D, are not linked. |
| Scenarios.InsertTestReachable | src/test/java/com/haedhutner/graphs/GraphTest.java:19-34 | Every node B to F of the insertion test's graph is reachable from the root A, so `areLinked` finds both ends of each link the test asserts. |
| Scenarios.InsertTestOrder | src/main/java/com/haedhutner/graphs/Graph.java:111-114 | The order in which the JDK's hash sets yield the test graph's edges, by bucket of `Objects.hash(source, target)` in 16 buckets. It enumerates every node's edge set. |
| Scenarios.InsertTestSearchMisses | src/test/java/com/haedhutner/graphs/GraphTest.java:29 | In the test's own graph and that order, the search as written does not find B from A, although B is reachable. The call into B is overwritten by the calls into C and D, so `areLinked(A, B)` answers false and the first assertion of the test fails. |
| Scenarios.RemoveAsWrittenKeepsLink | src/main/java/com/haedhutner/graphs/Graph.java:179-181 | For a node with two links, removal as written leaves one link in place, while removal over a snapshot leaves none. |

## Findings

| source | as written | input that shows it | evidently intended | confidence | as-written member | corrected member |
|---|---|---|---|---|---|---|
| src/main/java/com/haedhutner/graphs/Graph.java:263-271 | Each recursive call's result is assigned to `result`, so a later call that returns null discards a node found earlier. `findNode` can then miss a reachable node. | Root 0 linked to 1 and 2, with the edge to 1 iterated first; `findNode(1)`. Also the graph of `GraphTest.insertTest` in hash order, where `findNode("B")` fails (`Scenarios.InsertTestSearchMisses`). | `findNode` returns every node reachable from the root. | not executed; high | Dfs.SearchAsWrittenMissesReachable | Dfs.SearchFindsExactlyReachable |
| src/main/java/com/haedhutner/graphs/Graph.java:180 | `removeLink` is called while the node's live `HashSet` is iterated, so the fail-fast iterator throws `ConcurrentModificationException` after the first unlink. | Node 0 linked to 1 and 2; `remove(0)`. | The node is unlinked from every neighbour. | not executed; high | Scenarios.RemoveAsWrittenKeepsLink | Adjacency.IsolateUnlinksEverything |

`FindNode` and every operation built on it (`InsertUnder`, `Link`, `Unlink`, `AreLinked`, `Remove`, `RemoveAsWritten`) use the corrected search. `Graphs.Graph.DepthFirstSearchAsWritten` and `Graphs.Graph.RemoveAsWritten` keep the behaviour as written.

## Left out

- Graphs.Graph.FindNode: uses the search that returns on the first match. With the loop as written, `findNode`, `link`, `unlink`, `areLinked`, `insert(parent, data)` and `remove` can treat a reachable node as absent, depending on hash-set iteration order.
- Graphs.Graph.Insert and Graphs.Graph.InsertUnder require data that no linked node holds and that is not the root's. Data that is new, or that belongs to a node `remove` has detached, is accepted: the new node takes the detached node's place, since nothing links to it. In the source, inserting data that a linked node or the root already holds creates a second node object with equal data and its own edge set. Nodes identified by data cannot represent two such nodes.
- Graphs.Graph.InsertUnder takes a non-null parent. A null parent is never found, so the source throws the same `IllegalArgumentException` as for an absent parent.
- Operations that call `findNode` require a root. With no root, `findNode` throws `NullPointerException`.
- Graphs.Graph.ForEach requires a root, although `forEach` does not call `findNode`. With no root, `forEach` first hands null to the consumer (Graph.java:281, 285) and then throws `NullPointerException` at `start.getLinks()` (Graph.java:289).
- The `Consumer` is a recorder of the data it receives. A consumer that changes the graph during `forEach` is not modelled.
- Node and edge objects are not distinct from their data: aliasing between node objects, and mutation of data after insertion, are not represented.
- `hashCode` of nodes, edges and the graph, `Graph.equals`, the getters `get`, `getLinks` and `getRoot`, and the factories `Node.of` and `Edge.of` are not modelled. The factories appear only as the `Edge` constructor and as a new key with an empty edge set.
- Scenarios.InsertTestOrder is written out by hand, not derived. It follows from `Node.hashCode` (`Objects.hash(data)`), `Edge.hashCode` (`Objects.hash(source, target)`), Java's `String.hashCode`, and the bucket order of a 16-bucket `HashSet`. None of that hashing is modelled.
- `Application.java` is a command-line demonstration and is not part of this model.
