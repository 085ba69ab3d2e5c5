# Data structures of Interactive-Graph-Algorithms, in Dafny

This project models the four small data structures of the graph-algorithms
teaching tool and proves what they promise:

- `PriorityQueues`: the binary min-heap of graph nodes ordered by `key`
  (`src/priotityQueue.ts`). The array is a `seq<Node>`. Sift-up and
  sift-down are methods whose loop invariants carry the heap order.
  `Insert` and `ExtractMin` keep the heap order, and they add or remove
  exactly one node of the multiset. `ExtractMin` returns a node of least key.
- `Queues`: the array-backed FIFO queue (`src/queue.ts`) as a value over
  `seq<T>`. Dequeuing everything yields what was enqueued, in the same order.
- `LinkedLists`: the push-front linked list of numbers (`src/linkedList.ts`).
  `next` pointers become a `Chain` datatype, and the `size` counter stays a
  separate field. The counter always equals the number of reachable nodes.
  The values are listed most recent first. The `" , "`-joined rendering can
  be parsed back into exactly those values. `Decimal` models the integer
  `toString`, and `Separated` models `join` together with a splitter.
- `Graphs`: the string-keyed adjacency map (`src/graph.ts`). A JavaScript
  `Map` iterates its keys in insertion order, so the model records that order
  next to a `map<string, seq<string>>`.

The repository holds a second, larger set of data structures that this
model does not cover. `src/Data Structures/graph.ts` has indexed, coloured
nodes and edge records. `src/Data Structures/priotityQueue.ts` has a
comparator-driven queue with `updatePriorityByKey` and `updatePriorityByD`.
`src/Data Structures/mstForest.ts` has a disjoint-set forest. Breadth-first
search, Dijkstra, Prim and the other shortest-path and spanning-tree
algorithms appear in none of the files described here. The only traversal
among them is the depth-first search inside `isConnected` in
`src/Data Structures/graph.ts`, which is left out with that file. The modelled graph is a plain map from names to neighbour
lists. The modelled heap compares `key` only and has no decrease-key.

Symmetric adjacency among present nodes (each listed as often under the
other) does not by itself survive `addNode`. `addEdge(a, b)` with `a` missing
records `a` in `b`'s list only. A later `addNode(a)` then makes `a` present
with an empty list (`Graphs.SymmetryAloneNotKept` shows this on a concrete
graph). The invariant that survives is symmetry together with closure: every
listed neighbour is present (`Graphs.Undirected`).

Every class becomes an immutable datatype, and every mutator becomes a
function or method that returns the new value. A class invariant becomes a
`Valid()` predicate. It holds for the constructor's value, and every
operation preserves it.

## Model

| member | source | states |
|---|---|---|
| PriorityQueues.LeftChildIndex | src/priotityQueue.ts:10-12 | the parent of the left child of any index is that index |
| PriorityQueues.RightChildIndex | src/priotityQueue.ts:14-16 | the parent of the right child of any index is that index |
| PriorityQueues.ParentIndex | src/priotityQueue.ts:18-20 | every index is the left or right child of its parent; for a positive index the parent is a smaller non-negative index (and the root's parent is -1) |
| PriorityQueues.Swap | src/priotityQueue.ts:22-24 | exchanges two positions, leaves the others alone and keeps the multiset of nodes |
| PriorityQueues.SmallerChildIndex | src/priotityQueue.ts:43-47 | the chosen child is a child of the index and no other child has a smaller key |
| PriorityQueues.HeapifyUp | src/priotityQueue.ts:26-35 | keeps length and multiset; restores heap order when order holds everywhere except on the link from the index to its parent, and the index's parent is no larger than the index's children; moves nothing when the node is not strictly smaller than its parent |
| PriorityQueues.SiftDownStep | src/priotityQueue.ts:53-56 | one swap with the smaller child moves the only possible order violation down to that child |
| PriorityQueues.SiftDownDone | src/priotityQueue.ts:49-51 | stopping when the node is no larger than its smaller child (equal keys stop) leaves a full heap |
| PriorityQueues.HeapifyDown | src/priotityQueue.ts:37-58 | keeps length and multiset; restores heap order when order holds everywhere except on the links from the index to its children, and the index's parent is no larger than the index's children; moves nothing when the node is no larger than its smaller child or has none |
| PriorityQueues.Empty | src/priotityQueue.ts:6-8 | a new queue is a heap and is empty |
| PriorityQueues.IsEmpty | src/priotityQueue.ts:60-62 | true exactly when the queue holds no node |
| PriorityQueues.RootIsMinimum | src/priotityQueue.ts:78 | in heap order the root's key is no larger than any key in the heap |
| PriorityQueues.Insert | src/priotityQueue.ts:64-67 | the result is a heap one longer whose multiset is the old one plus the inserted node |
| PriorityQueues.RootReplacedByLast | src/priotityQueue.ts:78-79 | moving the last node into the root removes exactly the old root and breaks order only below the root |
| PriorityQueues.ExtractMin | src/priotityQueue.ts:69-82 | on an empty heap: no node and the heap unchanged; otherwise a node of least key, taken out of the multiset, length down by one, heap order kept |
| Queues.Empty | src/queue.ts:2 | a new queue has size 0 |
| Queues.Size | src/queue.ts:25-27 | the size is 0 exactly when there are no items |
| Queues.IsEmpty | src/queue.ts:20-22 | true exactly when the size is 0 |
| Queues.Enqueue | src/queue.ts:5-7 | size up by one, the new element last, every earlier element at its old position |
| Queues.Dequeue | src/queue.ts:10-12 | nothing comes back exactly when the queue is empty, and then the queue is unchanged; otherwise the returned element followed by the remaining queue is the old queue |
| Queues.Peek | src/queue.ts:15-17 | returns what a dequeue would return, without changing the queue |
| Queues.Clear | src/queue.ts:30-32 | afterwards the size is 0 and a dequeue returns nothing |
| Queues.SizeChanges | src/queue.ts:5-12 | enqueue adds one to the size, a dequeue of a non-empty queue removes one, a dequeue of an empty queue leaves it at 0 |
| Queues.DequeueAfterEnqueue | src/queue.ts:5-12 | enqueuing behind a non-empty queue does not change what is dequeued first; on an empty queue the element comes straight back out |
| Queues.TwoInOrder | src/queue.ts:5-12 | enqueue `a` then `b` on an empty queue, and two dequeues give `a` then `b` and leave it empty |
| Queues.EnqueueAll | src/queue.ts:5-7 | enqueuing a sequence raises the size by its length |
| Queues.EnqueueAllAppends | src/queue.ts:5-7 | enqueuing a sequence appends it, in order, behind the existing items |
| Queues.DrainAllIsContents | src/queue.ts:10-12 | dequeuing until nothing comes back yields the items front first |
| Queues.FirstInFirstOut | src/queue.ts:5-12 | whatever is enqueued into an empty queue is dequeued in the same order |
| Decimal.IntToString | src/linkedList.ts:33 | the text of an integer is non-empty, starts with `-` exactly when the integer is negative, and is otherwise digits with no leading zero (so `0` is the only text starting with `0`) |
| Decimal.ParseIntToString | src/linkedList.ts:33 | the decimal text of an integer reads back as that integer |
| Separated.Join | src/linkedList.ts:36 | no parts give the empty string, one part gives itself, and otherwise the text is the parts' characters plus exactly one separator per gap between consecutive parts |
| Separated.SplitJoin | src/linkedList.ts:36 | splitting a `" , "`-join of space-free parts at the separator gives back exactly the parts, so separators stand only between consecutive parts |
| LinkedLists.Empty | src/linkedList.ts:11-12 | a new list has no nodes and its counter agrees |
| LinkedLists.AddToFront | src/linkedList.ts:15-26 | the new value heads the list in front of the old values; the counter rises by one and keeps agreeing with the node count |
| LinkedLists.GetSize | src/linkedList.ts:40-42 | for a list whose counter is maintained, the size is the number of reachable nodes |
| LinkedLists.GetListAsString | src/linkedList.ts:29-37 | the loop over `next` yields the decimal texts of the values from the head onwards, joined by `" , "` |
| Separated.JoinStartsWithFirst | src/linkedList.ts:36 | the joined text starts with the first part |
| LinkedLists.RenderParses | src/linkedList.ts:29-37 | the rendering reads back as exactly the list's values, in list order |
| Separated.JoinEdges | src/linkedList.ts:36 | a join of non-empty parts begins with the first part's first character and ends with the last part's last character |
| LinkedLists.RenderHasNoOuterSeparator | src/linkedList.ts:29-37 | a rendering is empty or begins and ends with a character of a value's text, never a space or comma of the separator |
| LinkedLists.RenderEmpty | src/linkedList.ts:29-37 | the empty list renders as the empty string |
| LinkedLists.RenderAddToFront | src/linkedList.ts:15-37 | after a push, the rendering starts with the pushed value's text; that text alone if the list was empty, else that text, one `" , "` and the old rendering |
| LinkedLists.AddAll | src/linkedList.ts:15-26 | pushing a sequence raises the counter by its length |
| LinkedLists.AddAllReverses | src/linkedList.ts:15-26 | pushed values appear most recent first, ahead of the earlier ones, and the counter keeps agreeing with the node count |
| LinkedLists.BuiltListReversed | src/linkedList.ts:15-42 | a list built from empty holds, reports the size of and renders the pushed values in reverse insertion order |
| LinkedLists.Reverse | src/linkedList.ts:15-23 | the reference order of a pushed sequence: position `i` holds the `i`-th value from the end |
| Graphs.Empty | src/graph.ts:4-6 | a new graph has no keys and a consistent key order |
| Graphs.AddNode | src/graph.ts:8-12 | the key set gains the name; a new name gets an empty list at the end of the key order, other lists unchanged; a present name leaves the graph unchanged |
| Graphs.AddEdge | src/graph.ts:14-17 | no key is added or removed, the key order is unchanged, lists other than the two ends' are unchanged |
| Graphs.GetAdjacencyList | src/graph.ts:19-21 | one entry per key in insertion order (entry `i` is the `i`-th key added), each with that key's list; no key appears twice and every key appears |
| Graphs.AddNodeIdempotent | src/graph.ts:8-12 | adding a name twice equals adding it once |
| Graphs.AddNodeEntries | src/graph.ts:8-12 | a new name appears as one extra entry, last, with an empty list, earlier entries unchanged |
| Graphs.AddEdgeBothPresent | src/graph.ts:14-17 | with two distinct present ends, each end's list gains the other end once at the back and nothing else changes |
| Graphs.AddEdgeSelfLoop | src/graph.ts:14-17 | a loop on a present name appends that name to its own list twice |
| Graphs.AddEdgeMissingEnd | src/graph.ts:14-17 | a missing end gets no list and is not created; only a present end records the edge |
| Graphs.AddEdgeRepeats | src/graph.ts:14-17 | repeating an edge records it again on both sides (no duplicate check) |
| Graphs.AddEdgeCounts | src/graph.ts:14-17 | the count of a name in a present list rises by one per append that lands there |
| Graphs.AddNodeKeepsUndirected | src/graph.ts:8-12 | adding a name keeps symmetric, closed adjacency symmetric and closed |
| Graphs.AddEdgeKeepsSymmetric | src/graph.ts:14-17 | an edge between present names keeps the lists symmetric |
| Graphs.AddEdgeKeepsClosed | src/graph.ts:14-17 | an edge between present names lists only present names |
| Graphs.AddEdgeKeepsUndirected | src/graph.ts:14-17 | on symmetric, closed adjacency, an edge whose two ends are both present keeps it symmetric and closed |
| Graphs.SymmetryAloneNotKept | src/graph.ts:8-17 | on a concrete graph, an edge to a missing name followed by adding that name breaks symmetry among present names |

## Left out

- Heap keys and list values use JavaScript `number`. The model uses unbounded integers, so floating point, `NaN` and `Infinity` are not modelled.
- Decimal.IntToString: writes every integer in plain decimal. `Number.prototype.toString` switches to exponent notation at magnitude 1e21, and the model does not.
- The heap's `Node` is imported from a module that is not part of this model. It is modelled as an index plus an integer `key`, the only field the heap reads.
- PriorityQueues.HeapifyUp and PriorityQueues.HeapifyDown state heap order only for inputs whose order holds everywhere except on the links at the given index (to its parent for the first, to its children for the second), and whose index's parent is no larger than the index's children. Without that second condition one swap is not enough: from index 1 of the keys `[10, 3, 12, 5, 6]`, `heapifyUp` swaps once and leaves key 5 under key 10. Their callers (`insert` and `extractMin`) only produce such inputs.
- Object identity and aliasing are not modelled. `getAdjacencyList` hands out the live `Map`, and callers could mutate its lists. Lists and nodes here are values.
- Queues.Dequeue: `undefined` is modelled as `None`. A queue whose element type itself includes `undefined` could not tell that element from emptiness. The model can.
- Graphs.GetAdjacencyList: returns the entries in iteration order rather than the `Map` object. It assumes the key order is consistent, and every operation keeps that consistency.
- The rendering, DOM, animation and layout code (`src/index.ts`, `src/index2.ts`, `src/renderer.ts`, `src/visualization.ts`, `src/utils.ts`, `src/algorithm.ts`, `src/algorithms.ts`) is left out: it is display and event plumbing.
- `src/Data Structures/graph.ts`, `src/Data Structures/priotityQueue.ts` and `src/Data Structures/mstForest.ts` are left out. They are a separate set of structures. Apart from the heap's `Node` type, the modelled files do not use them. `src/priotityQueue.ts:1` imports that type from a module named `graph`, and only `src/Data Structures/graph.ts` defines one.
- Breadth-first search, Dijkstra, Prim and the other shortest-path and spanning-tree algorithms appear in none of these files. The one traversal, the depth-first search of `isConnected` (`src/Data Structures/graph.ts`), is left out with that file.
