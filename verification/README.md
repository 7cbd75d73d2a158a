# AlgoStructs.ts core in Dafny

This project models three parts of the AlgoStructs.ts library and proves properties of them.

- **Graph vertices.** These are `GraphVertex` (unweighted: a value and a set of adjacent vertices) and `WeightedGraphVertex` (a value and a map from each adjacent vertex to a list of weights, so parallel edges of different weight can exist).
  - Object references become handles into an arena: a map from handle to vertex.
  - A mutator the source runs on `this` takes the arena and the handle of `this`. It returns a `Step`: the boolean the source returns, together with the arena afterwards.
  - The `undirected` flag is modelled as the source does it, by a second, directed call on the other vertex.
- **The reference Dijkstra** of the test suite (`dijkstraManual`). Each round removes, in place, the earliest entry of least distance from the priority list, which is kept in insertion order. It skips nodes already visited and relaxes edges only on strict improvement.
  - `DijkstraManual` returns the distance map. It also returns the order in which nodes were expanded.
  - It is proved to compute exactly the shortest walk weights from the start when weights are positive.
- **The doubly linked list** and its node.
  - Nodes live in an arena keyed by handle.
  - `Linked(l, ids)` is the link invariant: head, tail, `next`, `prev` and the size counter against the sequence of handles from head to tail.
  - Every operation is specified against the abstract contents `Contents(l)`, the values along that chain.
  - The comparator is a parameter `compare: (T, T) -> int`, and "equal" means `compare(a, b) == 0`.

Modules:

- `Wrappers` (`wrappers.dfy`)
- `Sequences` (`sequences.dfy`): distinctness of a sequence, shared by the weighted vertices and the list
- `GraphVertex` (`graph_vertex.dfy`)
- `WeightedGraphVertex` (`weighted_graph_vertex.dfy`)
- `WeightedVertexProperties` (`weighted_vertex_properties.dfy`)
- `DijkstraPaths` (`dijkstra_paths.dfy`): graphs, walks and what a shortest distance is
- `Dijkstra` (`dijkstra.dfy`)
- `ListNode` (`list_node.dfy`)
- `DoublyLinkedList` (`doubly_linked_list.dfy`)

## Model

| member | source | states |
|---|---|---|
| GraphVertex.NewVertex | src/DataStructures/Graphs/Vertices/Unweighted/GraphVertex.ts:21-24 | a new vertex holds the given value and has no edges |
| GraphVertex.HasEdge | src/DataStructures/Graphs/Vertices/Unweighted/GraphVertex.ts:70-72 | in an arena whose edges all lead to vertices, an edge found leads to a vertex; in a symmetric arena, `u.hasEdge(v)` holds exactly when `v` has an edge back to `u` |
| GraphVertex.GetValue | src/DataStructures/Graphs/Vertices/Unweighted/GraphVertex.ts:51-53 | `get()` returns the value that `set` of it leaves the arena unchanged with, so only the stored value satisfies this |
| GraphVertex.AddEdge | src/DataStructures/Graphs/Vertices/Unweighted/GraphVertex.ts:32-44 | succeeds exactly when `v` is not yet adjacent to `u`, and on failure changes nothing (no mirroring either); on success exactly `u -> v` is added, plus `v -> u` when undirected; every other edge and every value is unchanged |
| GraphVertex.RemoveEdge | src/DataStructures/Graphs/Vertices/Unweighted/GraphVertex.ts:80-92 | succeeds exactly when `v` is adjacent to `u`, and on failure changes nothing; on success exactly `u -> v` is deleted, plus `v -> u` when undirected |
| GraphVertex.SetEdge | src/DataStructures/Graphs/Vertices/Unweighted/GraphVertex.ts:114-128 | succeeds exactly when `oldVertex` is adjacent, and on failure changes nothing; on success `u`'s set becomes `(E - {old}) + {new}`, and when undirected `old -> u` is removed and `new -> u` added; nothing else changes |
| GraphVertex.SetEdges | src/DataStructures/Graphs/Vertices/Unweighted/GraphVertex.ts:99-105 | afterwards `u`'s adjacency set is exactly the set of listed vertices, so duplicates collapse; any other vertex gains `u` exactly when undirected and listed, and keeps the edges it had |
| GraphVertex.AddAll | src/DataStructures/Graphs/Vertices/Unweighted/GraphVertex.ts:102-104 | the loop of `setEdges` (one `addEdge` per listed vertex) keeps every vertex and every value; what it does to edges is `AddAllOwnEdges` and `AddAllMirrorEdges` |
| GraphVertex.AddAllOwnEdges | src/DataStructures/Graphs/Vertices/Unweighted/GraphVertex.ts:102-104 | the loop of `setEdges` adds exactly the listed vertices to `u`'s set, proved by induction over the list |
| GraphVertex.AddAllMirrorEdges | src/DataStructures/Graphs/Vertices/Unweighted/GraphVertex.ts:102-104 | when undirected, the loop gives each listed vertex the edge back to `u` and changes no other vertex, provided every edge `u` has is already mirrored |
| GraphVertex.SetValue | src/DataStructures/Graphs/Vertices/Unweighted/GraphVertex.ts:135-137 | `set(val)` stores `val` as `u`'s value, leaves every edge and every other value alone |
| GraphVertex.GetEdges | src/DataStructures/Graphs/Vertices/Unweighted/GraphVertex.ts:60-62 | lists each adjacent vertex exactly once, and only adjacent vertices |
| GraphVertex.AddRemoveRoundTrip | src/DataStructures/Graphs/Vertices/Unweighted/GraphVertex.ts:32-92 | a directed `addEdge` that returned true, followed by `removeEdge` of the same vertex, succeeds and restores the original arena |
| GraphVertex.UndirectedRoundTrip | src/DataStructures/Graphs/Vertices/Unweighted/GraphVertex.ts:32-92 | between two unconnected vertices, an undirected add followed by an undirected remove restores the original arena |
| GraphVertex.SelfLoopMirror | src/DataStructures/Graphs/Vertices/Unweighted/GraphVertex.ts:39-41 | on a self-loop the mirror call is a no-op: undirected and directed add (and remove) give the same result |
| GraphVertex.UndirectedAddBothWays | src/DataStructures/Graphs/Vertices/Unweighted/GraphVertex.ts:37-43 | after a successful undirected add, `u.hasEdge(v)` and `v.hasEdge(u)` both hold |
| GraphVertex.AddEdgeKeepsClosed | src/DataStructures/Graphs/Vertices/Unweighted/GraphVertex.ts:32-44 | `addEdge` keeps every edge pointing inside the arena |
| GraphVertex.RemoveEdgeKeepsClosed | src/DataStructures/Graphs/Vertices/Unweighted/GraphVertex.ts:80-92 | `removeEdge` keeps every edge pointing inside the arena |
| GraphVertex.SetEdgeKeepsClosed | src/DataStructures/Graphs/Vertices/Unweighted/GraphVertex.ts:114-128 | `setEdge` keeps every edge pointing inside the arena |
| GraphVertex.SetEdgesKeepsClosed | src/DataStructures/Graphs/Vertices/Unweighted/GraphVertex.ts:99-105 | `setEdges` keeps every edge pointing inside the arena |
| GraphVertex.UndirectedKeepsSymmetric | src/DataStructures/Graphs/Vertices/Unweighted/GraphVertex.ts:32-128 | undirected `addEdge`, `removeEdge` and `setEdge` keep every edge matched by its reverse |
| WeightedGraphVertex.NewVertex | src/DataStructures/Graphs/Vertices/WeightedGraphVertex.ts:22-25 | a new vertex holds the given value and an empty edge map |
| WeightedGraphVertex.HasEdge | src/DataStructures/Graphs/Vertices/WeightedGraphVertex.ts:74-76 | in a well-formed arena, `a.hasEdge(b)` holds exactly when some weight is recorded from `a` toward `b`, and `b` is then a vertex of the arena |
| WeightedGraphVertex.GetValue | src/DataStructures/Graphs/Vertices/WeightedGraphVertex.ts:55-57 | `get()` returns the value that `set` of it leaves the arena unchanged with, so only the stored value satisfies this |
| WeightedGraphVertex.IndexOf | src/DataStructures/Graphs/Vertices/WeightedGraphVertex.ts:90 | gives -1 exactly when the value is absent; otherwise gives its first position |
| WeightedGraphVertex.DeleteFirst | src/DataStructures/Graphs/Vertices/WeightedGraphVertex.ts:90-95 | leaves the list unchanged when the value is absent; otherwise splices out exactly its first occurrence, one shorter |
| WeightedGraphVertex.AddEdge | src/DataStructures/Graphs/Vertices/WeightedGraphVertex.ts:33-48 | fails exactly when `w` is already recorded toward `v`, and then changes nothing; otherwise `w` is appended to the end of `u`'s list toward `v` (so `hasEdge(v)` holds), and when undirected it is appended to `v`'s list toward `u` unless already there; nothing else changes |
| WeightedGraphVertex.RemoveEdge | src/DataStructures/Graphs/Vertices/WeightedGraphVertex.ts:84-104 | fails exactly when there is no entry or `w` is not in it, and then changes nothing; otherwise the first `w` is spliced out of `u -> v`, and when undirected also out of `v -> u` |
| WeightedGraphVertex.DropWeight | src/DataStructures/Graphs/Vertices/WeightedGraphVertex.ts:89-97 | the directed removal splices out one `w` and deletes the entry exactly when its list becomes empty |
| WeightedGraphVertex.SetEdge | src/DataStructures/Graphs/Vertices/WeightedGraphVertex.ts:128-142 | succeeds exactly when `oldVertex` is adjacent, and on failure changes nothing (this is the code as written) |
| WeightedGraphVertex.SetEdgeEffect | src/DataStructures/Graphs/Vertices/WeightedGraphVertex.ts:131-139 | after a successful `setEdge`, `w` is recorded toward `newVertex` (and back when undirected) even if the add was a duplicate, and no entry toward a different `oldVertex` remains |
| WeightedGraphVertex.SetEdgeDirected | src/DataStructures/Graphs/Vertices/WeightedGraphVertex.ts:131-134 | a successful directed `setEdge` drops every weight toward `oldVertex`, records `w` once toward `newVertex`, and changes no other entry |
| WeightedGraphVertex.DropEntry | src/DataStructures/Graphs/Vertices/WeightedGraphVertex.ts:133 | deleting an entry removes the edge and changes no other entry |
| WeightedGraphVertex.SetEdgeMirrored | src/DataStructures/Graphs/Vertices/WeightedGraphVertex.ts:128-142 | the corrected `setEdge`: succeeds exactly when `oldVertex` is adjacent, and on failure changes nothing |
| WeightedGraphVertex.AddWeights | src/DataStructures/Graphs/Vertices/WeightedGraphVertex.ts:114-116 | the inner loop of `setEdges` keeps every vertex and value |
| WeightedGraphVertex.AddAll | src/DataStructures/Graphs/Vertices/WeightedGraphVertex.ts:113-117 | the outer loop of `setEdges` keeps every vertex and value |
| WeightedGraphVertex.SetEdges | src/DataStructures/Graphs/Vertices/WeightedGraphVertex.ts:111-119 | `setEdges` keeps every vertex and value (its edges: `WeightedVertexProperties.SetEdgesContents`) |
| WeightedGraphVertex.SetValue | src/DataStructures/Graphs/Vertices/WeightedGraphVertex.ts:149-151 | `set(val)` stores `val` as `u`'s value and changes no edge and no other value |
| WeightedGraphVertex.GetEdges | src/DataStructures/Graphs/Vertices/WeightedGraphVertex.ts:64-66 | one `{vertex, weights}` record per adjacent vertex, each vertex once, with exactly the weights recorded toward it |
| WeightedVertexProperties.DeleteFirstDistinct | src/DataStructures/Graphs/Vertices/WeightedGraphVertex.ts:89-95 | on a duplicate-free list, the splice removes exactly that value and keeps the list duplicate-free |
| WeightedVertexProperties.AppendNewFacts | src/DataStructures/Graphs/Vertices/WeightedGraphVertex.ts:38-41 | adding values behind a duplicate check keeps the old list as a prefix, holds exactly the old and new values, and stays duplicate-free |
| WeightedVertexProperties.AppendNewConcat | src/DataStructures/Graphs/Vertices/WeightedGraphVertex.ts:113-117 | adding `xs ++ ys` one by one is adding `xs`, then `ys` |
| WeightedVertexProperties.AddKeepsWellFormed | src/DataStructures/Graphs/Vertices/WeightedGraphVertex.ts:33-48 | `addEdge` keeps every weight list non-empty, duplicate-free and pointing inside the arena |
| WeightedVertexProperties.DropKeepsWellFormed | src/DataStructures/Graphs/Vertices/WeightedGraphVertex.ts:89-97 | the directed removal keeps that invariant: an emptied list is deleted |
| WeightedVertexProperties.RemoveKeepsWellFormed | src/DataStructures/Graphs/Vertices/WeightedGraphVertex.ts:84-104 | `removeEdge` keeps the invariant |
| WeightedVertexProperties.SetEdgeKeepsWellFormed | src/DataStructures/Graphs/Vertices/WeightedGraphVertex.ts:128-142 | `setEdge` keeps the invariant |
| WeightedVertexProperties.AddWeightsKeepsWellFormed | src/DataStructures/Graphs/Vertices/WeightedGraphVertex.ts:114-116 | the inner loop of `setEdges` keeps the invariant |
| WeightedVertexProperties.AddAllKeepsWellFormed | src/DataStructures/Graphs/Vertices/WeightedGraphVertex.ts:113-117 | the outer loop of `setEdges` keeps the invariant |
| WeightedVertexProperties.SetEdgesKeepsWellFormed | src/DataStructures/Graphs/Vertices/WeightedGraphVertex.ts:111-119 | `setEdges` keeps the invariant |
| WeightedVertexProperties.AddRemoveRoundTrip | src/DataStructures/Graphs/Vertices/WeightedGraphVertex.ts:33-104 | a directed `addEdge` that succeeded, followed by `removeEdge` of the same weight, restores the original arena |
| WeightedVertexProperties.ParallelEdges | src/DataStructures/Graphs/Vertices/WeightedGraphVertex.ts:89-97 | after adding weights 3 and 7 toward `v`, removing 3 leaves exactly `[7]`, and removing 7 deletes the entry |
| WeightedVertexProperties.AddTwiceIsIdempotent | src/DataStructures/Graphs/Vertices/WeightedGraphVertex.ts:38-41 | adding the same weight again fails and changes nothing |
| WeightedVertexProperties.UndirectedAddKeepsSymmetric | src/DataStructures/Graphs/Vertices/WeightedGraphVertex.ts:44-46 | an undirected `addEdge` keeps every weighted edge matched by a reverse edge of the same weight |
| WeightedVertexProperties.UndirectedRemoveKeepsSymmetric | src/DataStructures/Graphs/Vertices/WeightedGraphVertex.ts:99-101 | an undirected `removeEdge` keeps every weighted edge matched by its reverse |
| WeightedVertexProperties.AddWeightsAt | src/DataStructures/Graphs/Vertices/WeightedGraphVertex.ts:114-116 | the inner loop's effect on each entry, proved by induction |
| WeightedVertexProperties.AddAllAt | src/DataStructures/Graphs/Vertices/WeightedGraphVertex.ts:113-117 | the outer loop's effect on each entry, proved by induction |
| WeightedVertexProperties.SetEdgesContents | src/DataStructures/Graphs/Vertices/WeightedGraphVertex.ts:111-119 | after `setEdges`, `u`'s list toward each `b` holds the listed weights for `b` de-duplicated in first-occurrence order; when undirected, each listed vertex gains the weights it was given toward `u`; nothing else changes |
| WeightedVertexProperties.AddArcs | src/DataStructures/Graphs/Vertices/WeightedGraphVertex.ts:33-48 | in terms of recorded weights, `addEdge` records `w` toward `v` (and back when undirected) and nothing else |
| WeightedVertexProperties.TwoJoined | src/DataStructures/Graphs/Vertices/WeightedGraphVertex.ts:128-142 | the arena used as a counterexample is well formed and symmetric |
| WeightedVertexProperties.SetEdgeBreaksSymmetry | src/DataStructures/Graphs/Vertices/WeightedGraphVertex.ts:131-138 | the undirected `setEdge` as written leaves weight 3 on `1 -> 0` with no weight on `0 -> 1` |
| WeightedVertexProperties.SetEdgeMirroredArcs | src/DataStructures/Graphs/Vertices/WeightedGraphVertex.ts:128-142 | the corrected undirected `setEdge` removes the edge to `oldVertex` in both directions, records `w` between `u` and `newVertex` both ways, and changes nothing else |
| WeightedVertexProperties.SetEdgeMirroredKeepsSymmetric | src/DataStructures/Graphs/Vertices/WeightedGraphVertex.ts:128-142 | the corrected undirected `setEdge` keeps symmetry |
| DijkstraPaths.CostNonNegative | test/Algorithms/Graph/Dijkstra.test.ts:53 | with weights of at least 1, every walk weighs at least 0 |
| DijkstraPaths.Neighbors | test/Algorithms/Graph/Dijkstra.test.ts:35 | a node without a key in the graph has no outgoing edges, a node with one has its recorded list, and with the generator's weights every listed edge weighs at least 1 |
| DijkstraPaths.StartAtZero | test/Algorithms/Graph/Dijkstra.test.ts:22 | with weights of at least 1, any map of shortest distances gives the start 0, the value the search records for it first, and gives no node a negative distance |
| DijkstraPaths.WalkExtend | test/Algorithms/Graph/Dijkstra.test.ts:36-40 | extending a walk by a listed edge gives a walk whose weight grows by that edge's weight |
| DijkstraPaths.ShortestDistancesUnique | test/Algorithms/Graph/Dijkstra.test.ts:66 | two maps that both give the shortest distances are equal, so any two correct implementations agree |
| DijkstraPaths.EdgelessGraph | test/Algorithms/Graph/Dijkstra.test.ts:72-94 | when no node has an outgoing edge, the shortest-distance map holds only the start, at 0 |
| Dijkstra.ExtractMin | test/Algorithms/Graph/Dijkstra.test.ts:26-27 | the stable sort then shift takes an entry of least distance, the earliest such entry in the list |
| Dijkstra.RelaxEdge | test/Algorithms/Graph/Dijkstra.test.ts:36-43 | relaxing one edge leaves a visited target alone, and otherwise leaves it recorded no farther than through the current node; a distance changes and an entry is queued only for an unvisited node, on strict improvement |
| Dijkstra.Relax | test/Algorithms/Graph/Dijkstra.test.ts:34-44 | the inner loop keeps the run invariant and relaxes every edge of the node; recorded distances only decrease, visited distances stay fixed, and queued entries are for unvisited nodes and strictly improve |
| Dijkstra.Frontier | test/Algorithms/Graph/Dijkstra.test.ts:26-44 | any walk from the start to an unvisited node passes a queued entry no heavier than the walk |
| Dijkstra.PopKeeps | test/Algorithms/Graph/Dijkstra.test.ts:26-33 | taking the least entry off the list keeps the list invariants; a node not visited before comes off at its recorded distance |
| Dijkstra.Settle | test/Algorithms/Graph/Dijkstra.test.ts:26-33 | a node taken off the list unvisited is at its final, shortest distance |
| Dijkstra.Complete | test/Algorithms/Graph/Dijkstra.test.ts:25-47 | once the list is empty, the recorded nodes are exactly the visited ones and the distances are exactly the shortest distances |
| Dijkstra.Visit | test/Algorithms/Graph/Dijkstra.test.ts:34-44 | visiting a settled node and relaxing its edges keeps the run invariant |
| Dijkstra.Round | test/Algorithms/Graph/Dijkstra.test.ts:26-44 | one round keeps the run invariant; it either visits exactly one node not visited before, or (a popped node already visited is skipped) only shortens the list |
| Dijkstra.DijkstraManual | test/Algorithms/Graph/Dijkstra.test.ts:17-48 | with positive weights: the start maps to 0, even in an empty graph; the map holds exactly the reachable nodes, each at its shortest walk weight; each node is expanded at most once, the start first, in non-decreasing distance order |
| ListNode.NewNode | src/DataStructures/Lists/Nodes/DoublyLinkedListNode.ts:16-20 | a new node holds the value, with `next` and `prev` both null |
| ListNode.Get | src/DataStructures/Lists/Nodes/DoublyLinkedListNode.ts:36-38 | `get()` returns the value that `set` of it leaves the node unchanged with: setting back what was read is a no-op |
| ListNode.GetNext | src/DataStructures/Lists/Nodes/DoublyLinkedListNode.ts:54-56 | `getNext()` returns the link that `setNext` of it leaves the node unchanged with |
| ListNode.GetPrev | src/DataStructures/Lists/Nodes/DoublyLinkedListNode.ts:72-74 | `getPrev()` returns the link that `setPrev` of it leaves the node unchanged with |
| ListNode.Set | src/DataStructures/Lists/Nodes/DoublyLinkedListNode.ts:27-29 | the value becomes the one set, and neither link changes |
| ListNode.SetNext | src/DataStructures/Lists/Nodes/DoublyLinkedListNode.ts:45-47 | the next link becomes the one set, and only `next` changes |
| ListNode.SetPrev | src/DataStructures/Lists/Nodes/DoublyLinkedListNode.ts:63-65 | the previous link becomes the one set, and only `prev` changes |
| DoublyLinkedList.LinkedIsValid | src/DataStructures/Lists/DoublyLinkedList.ts:113-137 | following `next` links from the head for `size` steps meets exactly the chain, so the chain of a linked list is determined by its links |
| DoublyLinkedList.SizeIsLength | src/DataStructures/Lists/DoublyLinkedList.ts:205-207 | the size counter equals the number of nodes reachable from the head |
| DoublyLinkedList.Empty | src/DataStructures/Lists/DoublyLinkedList.ts:49-54 | a new list satisfies the link invariant and has no contents |
| DoublyLinkedList.AppendLinked | src/DataStructures/Lists/DoublyLinkedList.ts:72-85 | linking a new node after the tail keeps the link invariant, with the chain extended by that node |
| DoublyLinkedList.AddOneAppends | src/DataStructures/Lists/DoublyLinkedList.ts:72-85 | the links one step of `add` writes, applied to a valid list, append the value to the contents and grow the size by one |
| DoublyLinkedList.AddOne | src/DataStructures/Lists/DoublyLinkedList.ts:72-85 | one iteration of `add` on a valid list keeps the link invariant, appends the value to the contents and grows the size by one |
| DoublyLinkedList.Add | src/DataStructures/Lists/DoublyLinkedList.ts:70-89 | `add(v1..vk)` keeps the link invariant, makes the contents `old + [v1..vk]`, and returns the new size |
| DoublyLinkedList.UnlinkLinked | src/DataStructures/Lists/DoublyLinkedList.ts:115-133 | unlinking the node at position `k` keeps the link invariant, with the chain minus that node; no value changes |
| DoublyLinkedList.DetachFront | src/DataStructures/Lists/DoublyLinkedList.ts:115-122 | the head moves to the matching node's successor when that node is the head, and is otherwise kept; only that node's neighbours change, no value and not the tail or size |
| DoublyLinkedList.DetachBack | src/DataStructures/Lists/DoublyLinkedList.ts:124-131 | the tail moves to the node's predecessor when that node is the tail, and is otherwise kept; only that node's neighbours change, no value and not the head or size |
| DoublyLinkedList.Unlink | src/DataStructures/Lists/DoublyLinkedList.ts:115-133 | the size drops by one; head and tail move past the node when it is at an end; for a node not linked to itself only its neighbours change; no value changes |
| DoublyLinkedList.UnlinkContents | src/DataStructures/Lists/DoublyLinkedList.ts:115-133 | unlinking the node at position `k` removes exactly element `k` from the contents and decrements the size |
| DoublyLinkedList.FirstMatch | src/DataStructures/Lists/DoublyLinkedList.ts:113-137 | the first position whose element compares equal to the value, or -1 exactly when there is none |
| DoublyLinkedList.FindFirst | src/DataStructures/Lists/DoublyLinkedList.ts:111-137 | the search loop stops at the node of the first match, or runs off the tail when there is none |
| DoublyLinkedList.Remove | src/DataStructures/Lists/DoublyLinkedList.ts:106-140 | removes and returns only the first element comparing equal, decrementing the size; with no match returns null and leaves the list unchanged; the link invariant holds after |
| DoublyLinkedList.AddThenRemove | src/DataStructures/Lists/DoublyLinkedList.ts:70-140 | add followed by remove of the same value gives the contents back, when no earlier element compares equal to it and the value compares equal to itself |
| DoublyLinkedList.Contains | src/DataStructures/Lists/DoublyLinkedList.ts:157-172 | true exactly when some element compares equal to the value |
| DoublyLinkedList.IsEmpty | src/DataStructures/Lists/DoublyLinkedList.ts:188-190 | true exactly when the contents are empty, which is exactly when the size is 0 and exactly when the tail is null |
| DoublyLinkedList.Size | src/DataStructures/Lists/DoublyLinkedList.ts:205-207 | the number of elements |
| DoublyLinkedList.Walk | src/DataStructures/Lists/DoublyLinkedList.ts:256-262 | walking `index` links from the head reaches the node at position `index` |
| DoublyLinkedList.GetAt | src/DataStructures/Lists/DoublyLinkedList.ts:251-265 | element `index` for `0 <= index < size`, null otherwise |
| DoublyLinkedList.StoreLinked | src/DataStructures/Lists/DoublyLinkedList.ts:296-297 | storing a value in a node keeps every link, so the link invariant holds |
| DoublyLinkedList.Store | src/DataStructures/Lists/DoublyLinkedList.ts:296-298 | the node holds the new value; every link, head, tail and size stays as it was, and no other node changes |
| DoublyLinkedList.StoreContents | src/DataStructures/Lists/DoublyLinkedList.ts:296-297 | storing into the node at position `k` changes only element `k` |
| DoublyLinkedList.SetAt | src/DataStructures/Lists/DoublyLinkedList.ts:284-303 | when `0 <= index < size`: replaces only position `index`, keeps the size and returns true; otherwise returns false with no change |
| DoublyLinkedList.Collect | src/DataStructures/Lists/DoublyLinkedList.ts:322-329 | the loop of `toArray` gathers the values along the chain |
| DoublyLinkedList.ToArray | src/DataStructures/Lists/DoublyLinkedList.ts:318-332 | `toArray()` (and the iterator) yields the contents head to tail |
| DoublyLinkedList.CutLinks | src/DataStructures/Lists/DoublyLinkedList.ts:224-230 | the loop of `clear` cuts both links of every node on the chain and keeps every value |
| DoublyLinkedList.Clear | src/DataStructures/Lists/DoublyLinkedList.ts:223-234 | `clear()` leaves a list satisfying the link invariant, with no contents and size 0, every former node detached |

## Left out

- JavaScript object identity is replaced by handles into an arena. `Set` and `Map` insertion order, and so the order of `getEdges()` and of the vertex iterators, is not modelled: `GraphVertex.GetEdges` and `WeightedGraphVertex.GetEdges` produce some order.
- Weights are compared only for equality. They are modelled as `int`, not as JavaScript numbers (no `NaN`, no floating point).
- `GraphVertex.SetEdges` clears only `u`'s own set and does not remove the edges other vertices hold toward `u`, as in the source. The model keeps this. Its contract states it.
- WeightedGraphVertex.SetEdge: its own contract states only when it succeeds. What it does on success is stated by `WeightedGraphVertex.SetEdgeEffect` (both modes) and `WeightedGraphVertex.SetEdgeDirected` (directed mode). The undirected result is not characterized arc by arc, because aliasing among `u`, `oldVertex` and `newVertex` splits it into many cases.
- Dijkstra: keys come from `parseInt` of arbitrary strings in the test, which can produce `NaN`. They are modelled as `int`.
- Dijkstra: the `Infinity` fallback is modelled as "no entry". The `|| Infinity` fallback is kept in the relaxation test: a recorded distance of 0 counts as unknown. With positive weights only the start is at 0, and it is visited before any relaxation.
- Dijkstra.ExtractMin: the source sorts the priority list in place at test/Algorithms/Graph/Dijkstra.test.ts:26 and then shifts its head. The model instead searches the list, kept in insertion order, for the earliest entry of least distance and removes it. The two pick the same entry only because `Array.prototype.sort` is stable, so entries of equal distance keep their order across rounds. That equivalence is not proved here, and the order the sort leaves the rest of the list in is not modelled.
- Dijkstra.DijkstraManual: requires weights of at least 1, as the generator in the test produces. Behaviour with zero or negative weights is not modelled.
- The library's own `dijkstra`, `getNeighbors` and `getWeight` are not part of this model. Their source is not available; only the reference implementation from the test suite is modelled.
- The fast-check and jest machinery and the `visit` callbacks are left out.
- The list iterator is modelled by `DoublyLinkedList.ToArray`, which yields the same values in the same order; lazy generators are not modelled.
- `DoublyLinkedList.GetAt` and `DoublyLinkedList.SetAt` take an integer index. A fractional JavaScript index (for example `1.5`, for which the source's loop runs twice) is not modelled.
- The list's `compare` is modelled as a total function; a comparator that throws is not modelled.
- A removed or cleared node stays in the arena, unreachable, as an unreferenced object does in JavaScript; garbage collection is not modelled.

## Findings

| source | as written | input that shows it | evidently intended | confidence | as-written member | corrected member |
|---|---|---|---|---|---|---|
| src/DataStructures/Graphs/Vertices/WeightedGraphVertex.ts:133-138 | An undirected `setEdge` deletes `u`'s whole entry toward `oldVertex` (every weight). It then removes only the single weight `w` from `oldVertex`'s entry toward `u`. | Start from vertices 0 and 1 joined both ways by weight 3, and run `setEdge({oldVertex: 1, newVertex: 2, weight: 5, undirected: true})` on 0. Afterwards `1 -> 0` still holds weight 3, but `0` has no edge toward `1`. | `oldVertex` drops its whole entry toward `u`, so the undirected edge is replaced in both directions and symmetry is kept. | not executed | WeightedVertexProperties.SetEdgeBreaksSymmetry | WeightedVertexProperties.SetEdgeMirroredKeepsSymmetric |
