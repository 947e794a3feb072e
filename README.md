# Weighted graph shortest paths

A model of the computational core of a small browser tool that draws a
weighted, undirected graph and highlights the shortest path between two
nodes. The model covers:

- **Edge resolution** (`graph.dfy`, module `Graphs`): the edge list typed by
  the user (`A-B 2, B-C 3`) becomes edge records. Each spec is kept only
  when both of its labels name an existing node (the first node with that
  label), and kept edges receive identifiers 0, 1, 2, … in input order.
  Walks, walk weights, reachability and shortest walks are defined here.
- **The priority queue** (`heap.dfy`, module `Heap`): a binary min-heap held
  in a sequence field of the queue object; `Enqueue`, `Dequeue`, `SiftUp`
  and `SiftDown` replace that field with its updated value, ordered by the comparator the shortest-path engine
  uses (difference of distances).
- **Dijkstra's algorithm** (`shortest_path.dfy`, module `ShortestPath`):
  label lookup of start and end, initialisation of distances to Infinity,
  the main loop (take the least entry; stop on the end node; relax every
  edge incident to the taken node, pushing improved neighbours again
  without removing stale entries), and the reconstruction of the path by
  following predecessor pointers back from the end node.
- **A worked scenario** (`triangle.dfy`, module `Triangle`): nodes A, B, C,
  D with edges A-B 2, B-C 3, A-C 10 and a spec naming a missing node; the
  search from A to C yields A, B, C.

Nodes are identified by their position in the node list. The program keys
its distance and predecessor tables by label in plain JavaScript objects;
the two coincide because every node the algorithm touches (start, end, and
every edge endpoint) is the first node carrying its label, which
`Graphs.BuildEdges` proves — except for labels that name a special
property of JavaScript objects, `__proto__` above all (see "Left out").

The main results: `ShortestPath.FindShortestPath` returns nothing when a
label names no node; otherwise `[start]` when start and end coincide, a
walk from start to end that no other walk undercuts when the end is
reachable, and `[end]` when it is not; the path never repeats a node. `Heap.PriorityQueue.Dequeue` returns
an item no larger than anything left and removes exactly one occurrence of
it. The predecessor pointers never form a cycle.

## Model

| member | source | states |
|---|---|---|
| Graphs.Find | script.js:73-74 | the index returned names a node with that label and no earlier node has it; nothing is returned exactly when no node has the label |
| Graphs.ResolvesMeaning | script.js:76 | the test on a spec holds exactly when some node carries its first label and some node carries its second |
| Graphs.EdgeFor | script.js:77-82 | the edge record built for a spec carries the given identifier and the spec's weight, and its endpoints are the first nodes carrying the spec's two labels |
| Graphs.Kept | script.js:76-83 | every surviving spec has both labels resolving, and no more specs survive than were given |
| Graphs.KeptMembers | script.js:76-83 | a spec survives resolution if and only if it was given and both of its labels resolve |
| Graphs.KeptAppend | script.js:69-84 | resolution works spec by spec in input order: resolving a concatenation is the concatenation of the resolutions |
| Graphs.BuildEdges | script.js:65-84 | exactly the resolving specs become edges, in input order, the k-th with identifier k, endpoints the first nodes carrying the labels and the spec's weight |
| Heap.Compare | script.js:128 | the comparator is negative exactly when the first entry's distance is smaller, zero exactly on equal distances, positive exactly when the second is smaller |
| Heap.SwapUp | script.js:236 | swapping a node smaller than its parent with that parent moves the only possible heap violation up to the parent |
| Heap.SwapDown | script.js:265 | swapping a node with its smaller child, when that child is smaller, moves the only possible heap violation down to the child |
| Heap.RemoveRoot | script.js:216-219 | moving the last item to the root and dropping the last slot removes exactly the old root from the items and leaves the heap property intact except between the root and its children |
| Heap.RootIsMinimal | script.js:216 | in a min-heap the item at the root is no larger than any item in the heap |
| Heap.PriorityQueue.constructor | script.js:205-208 | a new queue is empty and a valid heap |
| Heap.PriorityQueue.Enqueue | script.js:210-213 | the heap stays valid, its items gain exactly the new item, and its length grows by one |
| Heap.PriorityQueue.Dequeue | script.js:215-223 | on an empty queue nothing is returned and nothing changes; otherwise the old root is returned, it is no larger than any item, exactly one occurrence of it is removed, and the heap stays valid |
| Heap.PriorityQueue.IsEmpty | script.js:225-227 | true exactly when the queue holds no items |
| Heap.PriorityQueue.SiftUp | script.js:229-239 | with the heap property broken at most at the last slot, restores it everywhere without changing the items |
| Heap.PriorityQueue.SmallerChild | script.js:247-261 | picks nothing when no child compares less than the element, otherwise a child that compares less than it and no greater than its sibling |
| Heap.PriorityQueue.SiftDown | script.js:241-268 | with the heap property broken at most between the root and its children, restores it everywhere without changing the items |
| ShortestPath.Add | script.js:147 | JavaScript `+` of a tentative distance and a weight: Infinity stays Infinity, a finite distance grows by the weight |
| ShortestPath.Less | script.js:149 | JavaScript `<` on tentative distances: Infinity is below nothing, every finite distance is below Infinity, finite distances compare as numbers |
| ShortestPath.Incident | script.js:145 | an edge touches a node exactly when it joins that node to the edge's far end |
| ShortestPath.Other | script.js:146 | the far end is one of the edge's endpoints, and for an edge touching the node the edge joins the node to it |
| ShortestPath.ImproveLowersMeasure | script.js:149-153 | a strict improvement of one distance lowers the number of infinite distances or, failing that, the sum of finite ones, so the main loop terminates |
| ShortestPath.PopKeeps | script.js:137-138 | taking an entry out of the queue leaves every finite-distance node queued with its distance or already expanded, except the taken node |
| ShortestPath.SkipKeeps | script.js:145-149 | an edge that offers no strict improvement needs no action to count as relaxed |
| ShortestPath.RelaxKeepsState | script.js:149-152 | recording an improved distance and predecessor keeps the predecessor invariant: an edge joins a node to its predecessor and the predecessor's distance plus its weight is at most the node's distance |
| ShortestPath.RelaxKeepsCover | script.js:149-152 | pushing the improved neighbour keeps every finite-distance node queued with its distance or expanded |
| ShortestPath.RelaxKeepsQueue | script.js:149-152 | after the push every queued entry still names a finite-distance node and is no smaller than its distance |
| ShortestPath.RelaxedAfterImprove | script.js:149-152 | improving the far end of an edge leaves that edge and every earlier edge of the current node offering no further improvement |
| ShortestPath.RelaxedAfterSkip | script.js:145-149 | an edge that offers no strict improvement offers none afterwards either, so it joins the relaxed edges of the current node |
| ShortestPath.Improve | script.js:150-152 | the neighbour's distance becomes the new one, its predecessor the current node, the queue gains exactly the new entry, and every invariant of the search holds again |
| ShortestPath.TryEdge | script.js:145-154 | when the edge touches the current node and the distance through it is strictly smaller than the far end's, exactly that distance and predecessor are recorded and exactly one entry is queued; otherwise distances, predecessors and queue are unchanged; the invariants hold either way |
| ShortestPath.Expand | script.js:144-155 | after trying every edge, each node kept its distance and predecessor or was strictly improved with the expanded node as predecessor, the final distances, predecessors and added queue entries are exactly those of applying the per-edge step to every edge in order (one push per improving edge), the entries gained belong only to improved nodes and each changed node has its new distance among them, every edge of the expanded node offers no further improvement, and every finite-distance node is queued or expanded |
| ShortestPath.RelaxAllStep | script.js:144-155 | one more turn of the edge loop, taking the per-edge step exactly as the program does, extends the in-order fold of that step by one edge: distances, predecessors and pushed entries agree |
| ShortestPath.AddedStep | script.js:145-152 | one per-edge step keeps the entries added to the queue matched to the improved nodes: nothing is pushed when nothing improves, and exactly the improved neighbour with its new distance otherwise |
| ShortestPath.Frontier | script.js:137-156 | every walk from the start either ends at a node whose distance is at most its weight, or passes a queued entry at most its weight |
| ShortestPath.Settled | script.js:137-142 | once the queue is empty, or the end node is taken as the least entry, no walk from start to end is shorter than the end node's distance |
| ShortestPath.Search | script.js:126-156 | after initialisation and the main loop, no walk from start to end is shorter than the end's distance, and the predecessor invariant holds |
| ShortestPath.ChainRises | script.js:149-151 | along predecessor pointers the pair (distance, time of last improvement) strictly increases |
| ShortestPath.PrevChainAcyclic | script.js:158-163 | a chain of predecessor pointers never visits a node twice |
| ShortestPath.Reconstruct | script.js:158-163 | the unshifted nodes are the chain of predecessors back from the end node to a node without predecessor, repeat no node, and form a walk ending at the end node; it starts at the start node and weighs at most the end's distance when that is finite, and is just the end node otherwise |
| ShortestPath.PathMeaning | script.js:158-163 | with the end's distance a lower bound, the reconstructed path is a shortest walk when the end is reachable and just the end node when it is not |
| ShortestPath.FindShortestPath | script.js:119-163 | no result when either label names no node; otherwise the start alone when start and end coincide, a shortest walk from start to end when one exists, and the end alone when none does; the path never repeats a node |
| Triangle.ResolvesScenario | script.js:73-76 | over nodes A-D, the specs A-B, B-C and A-C resolve and C-X does not |
| Triangle.KeptDropsLast | script.js:69-84 | of four specs where only the last fails to resolve, exactly the first three are kept, in order |
| Triangle.KeptScenario | script.js:69-84 | of the specs A-B 2, B-C 3, A-C 10, C-X 1 over nodes A-D, the first three survive in order |
| Triangle.BuildScenario | script.js:65-84 | building the scenario's edges yields A-B 2, B-C 3, A-C 10 with identifiers 0, 1, 2 |
| Triangle.ShortestAtoC | script.js:137-163 | in the scenario the only shortest walk from A to C is A, B, C |
| Triangle.DUnreachable | script.js:158-163 | the isolated node D cannot be reached from A |
| Triangle.Run | script.js:119-163 | in the scenario the search yields A, B, C from A to C, D alone from A to D, A alone from A to A, and nothing when a label is missing |

## Left out

- Reading the text inputs, splitting and trimming them, `parseInt` on the weight text (including `NaN`), alerts, and the graph drawing and path highlighting are input/output and are not modelled: the node list, the edge specs and the two labels are parameters, and the path is returned.
- Random node coordinates and the drawing library are not part of this model.
- The program keeps nodes, edges and the last shortest path in globals; the model passes them as parameters and returns the path. When a label names no node the program returns early and leaves the global path as it was; the model returns `None` for that case.
- Heap.PriorityQueue: the comparator is fixed to the one the shortest-path engine passes (difference of distances) instead of being a constructor parameter.
- Weights are unbounded integers; JavaScript numbers (floating point, precision loss above 2^53) are not modelled.
- ShortestPath.FindShortestPath requires every edge weight to be non-negative (and every edge endpoint to be a node, which edge building guarantees). With a negative weight on an undirected edge the loop can keep improving the same two nodes, so neither termination nor the shortest-walk contract would hold.
- ShortestPath.FindShortestPath: labels that collide with properties of JavaScript's `Object.prototype` are not modelled. Assigning a number to `distances["__proto__"]` hits the prototype setter and is ignored, so for a node labelled `__proto__` the program's distance reads are not numbers and no improvement through it happens (nodes `__proto__`, `B`, edge `__proto__-B 1`, start `__proto__`, end `B` yields `[B]` in the program, while the model yields `[__proto__, B]`).
- ShortestPath.Search: node identity is the node's position; tables keyed by label are modelled as sequences indexed by position, which agrees with the program because every node it looks up is the first carrying its label (for labels other than the special properties above).
