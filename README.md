# graph-priority-queue, modelled in Dafny

This project models the core of a small Java library with three parts.

- **Priority queue.** A generic indexed binary heap. It keeps an array list of (element, priority) slots and a `shortcut` hash map from each element to its slot. A caller-supplied comparator orders it, and the root is the element the comparator ranks highest.
- **Two weighted graphs.** Both have an oriented and an undirected mode.
  - The first version stores a map from each vertex to its list of outgoing edges (destination, weight).
  - The second version stores neighbour lists and an inner `WeightTable`: a nested map of cells plus a running `weight` aggregate.
- **Prim's minimum-spanning-tree algorithm** over the first graph version. It uses the priority queue with the minimizing comparator.

Each source class is a Dafny `class` with the same fields, and its methods update those fields in place:

- `PriorityQueues.PriorityQueue` has `heap` and `shortcut`.
- `GraphsV1.Graph` has `adjs`.
- `GraphsV2.Graph` has `adjs` and a `WeightTables.WeightTable` object.

Each method is proved against a value-level function that states its effect: `HeapSpec.SiftUp`, `GraphsV1.WithEdge`, `GraphsV2.WithoutVertex` and so on. The properties the source promises are then proved about those functions:

- the heap property
- the shortcut map indexing the heap exactly
- the contents as a priority map
- the well-formedness and symmetry of the graphs
- the aggregate equal to the sum of the cells
- the edge counts and weights

Prim's algorithm is a method with the source's outer and inner loops.

- **Its loop invariants** (module `Prim`) state:
  - the queue holds exactly the vertices not yet in the result
  - a queued vertex's priority is its key
  - every parent edge is an input edge whose weight is the child's key
  - the result is an undirected subgraph of the input with one edge per vertex extracted with a parent
- **Its contract:**
  - The argument checks fail in the source's order.
  - A negative edge aborts exactly when the input has one between distinct vertices.
  - Otherwise the result spans the input's vertices, uses only input edges with their weights, and has |V| - 1 edges when the input is connected.

Modules:

- `Errors` holds the exception values.
- `Ordering` holds the comparator contract and the key order with its "unreached" sentinel.
- `Sums` holds sums over maps.
- `HeapSpec` holds the heap as values.
- `PriorityQueues` holds the queue class.
- `GraphsV1` and `GraphsV2` hold the graphs.
- `WeightTables` holds the weight table.
- `MstSpec` holds subgraphs, connectivity and the unit tests' graph.
- `Prim` holds the algorithm.

Weights are `int`.
- Each Java exception becomes a constructor of `Errors.Error`, returned through `Outcome` or `Result`.
- Labels are a type parameter compared by value.

## Model

| member | source | states |
|---|---|---|
| Ordering.NaturalCompare | src/graphs/usage/MinComparator.java:20-22 | the natural key order is negative, zero or positive exactly when the first key is below, equal to or above the second |
| Ordering.MinCompare | src/graphs/usage/MinComparator.java:20-22 | the minimizing comparator ranks a strictly higher exactly when a's key is strictly below b's |
| Ordering.MinCompareIsComparator | src/graphs/usage/MinComparator.java:20-22 | the minimizing comparator is antisymmetric in sign and transitive, so it meets the comparator contract the heap relies on |
| Ordering.CompareSelf | src/priorityqueue/source/PriorityQueue.java:74 | under the comparator contract every priority compares equal to itself |
| HeapSpec.IndexedElements | src/priorityqueue/source/PriorityQueue.java:16-18 | with an exact shortcut map an element is indexed exactly when some slot holds it, and no two slots hold the same element |
| HeapSpec.AppendIndexed | src/priorityqueue/source/PriorityQueue.java:70-72 | appending an unqueued element's slot and indexing it at the end keeps the index exact and adds that element with its priority to the contents |
| HeapSpec.RemoveLastIndexed | src/priorityqueue/source/PriorityQueue.java:134-137 | dropping the last slot and unindexing its element keeps the index exact and drops only that element from the contents |
| HeapSpec.RemoveRootIndexed | src/priorityqueue/source/PriorityQueue.java:134-137 | swapping the last slot into the root and dropping the old root keeps the index exact and removes exactly the old root's element from the contents |
| HeapSpec.PriorityMapOfPermutation | src/priorityqueue/source/PriorityQueue.java:257-263 | two exactly indexed heaps holding the same multiset of slots describe the same element-to-priority contents, so swaps never change the contents |
| HeapSpec.Parent | src/priorityqueue/source/PriorityQueue.java:227-229 | for i > 0 the parent index is below i and i is its left or right child |
| HeapSpec.Left | src/priorityqueue/source/PriorityQueue.java:237-239 | the result is a valid index; it differs from i exactly when 2i+1 is within the size, and then it is a child of i |
| HeapSpec.Right | src/priorityqueue/source/PriorityQueue.java:247-249 | the result is a valid index; it differs from i exactly when 2i+2 is within the size, and then it is a child of i |
| HeapSpec.ChildIsLeftOrRight | src/priorityqueue/source/PriorityQueue.java:227-249 | every slot with a parent is that parent's left or right child |
| HeapSpec.Swap | src/priorityqueue/source/PriorityQueue.java:257-263 | exactly slots i and j are exchanged, all other slots are unchanged, and the multiset of slots is kept |
| HeapSpec.SiftUp | src/priorityqueue/source/PriorityQueue.java:73-87 | sift-up permutes the slots and keeps the length |
| HeapSpec.SwapUpStep | src/priorityqueue/source/PriorityQueue.java:74-87 | one swap with a strictly lower-ranked parent moves the only disorder one level up |
| HeapSpec.SiftUpOrders | src/priorityqueue/source/PriorityQueue.java:66-88 | sift-up from the only out-of-order slot yields a heap |
| HeapSpec.AppendOrderedExceptUp | src/priorityqueue/source/PriorityQueue.java:70-72 | a slot appended to a heap can be out of order only with its parent |
| HeapSpec.Largest | src/priorityqueue/source/PriorityQueue.java:272-280 | max picks one of the given indexes, and it is a valid slot |
| HeapSpec.LargestDominates | src/priorityqueue/source/PriorityQueue.java:272-280 | max's pick ranks at least as high as every given index |
| HeapSpec.LargestIsEarliest | src/priorityqueue/source/PriorityQueue.java:272-280 | max's pick ranks strictly higher than every index listed before it, so ties go to the earliest |
| HeapSpec.HeapifyPickIsLargest | src/priorityqueue/source/PriorityQueue.java:190-196 | heapify's choice is max over (i, left(i), right(i)) |
| HeapSpec.HeapifyPickDominates | src/priorityqueue/source/PriorityQueue.java:190-196 | heapify's choice ranks at least as high as slot i and both its children |
| HeapSpec.HeapifyDown | src/priorityqueue/source/PriorityQueue.java:190-196 | heapify permutes the slots and leaves every slot before i untouched |
| HeapSpec.StopDown | src/priorityqueue/source/PriorityQueue.java:142-143 | when slot i ranks at least as high as both children, the heap is in order |
| HeapSpec.SwapDownStep | src/priorityqueue/source/PriorityQueue.java:152-158 | swapping i with a child that ranks highest of the three moves the only disorder to that child |
| HeapSpec.HeapifyDownOrders | src/priorityqueue/source/PriorityQueue.java:190-196 | heapify from the only out-of-order slot yields a heap from the given lower bound on |
| HeapSpec.SiftDown | src/priorityqueue/source/PriorityQueue.java:141-159 | extract's sift-down permutes the slots and keeps the length |
| HeapSpec.SiftDownOrders | src/priorityqueue/source/PriorityQueue.java:141-159 | extract's sift-down, with ties going to the right child, yields a heap from the given lower bound on |
| HeapSpec.Zip | src/priorityqueue/source/PriorityQueue.java:47-51 | slot k of the bulk constructor holds (array[k], priorities[k]) |
| HeapSpec.ZipStep | src/priorityqueue/source/PriorityQueue.java:47-51 | one more loop pass appends one slot and sets one element's priority |
| HeapSpec.ZipMapLookup | src/priorityqueue/source/PriorityQueue.java:47-51 | with distinct elements the bulk contents map each array[k] to priorities[k] and hold nothing else |
| HeapSpec.BuildFrom | src/priorityqueue/source/PriorityQueue.java:52-54 | the partial bottom-up build permutes the slots |
| HeapSpec.LeavesAreOrdered | src/priorityqueue/source/PriorityQueue.java:52-54 | slots from the middle on have no children, so they are in order already |
| HeapSpec.BuildFromOrders | src/priorityqueue/source/PriorityQueue.java:52-54 | after heapifying every slot from the middle down to i, the slots are in order from i on |
| HeapSpec.BuildHeap | src/priorityqueue/source/PriorityQueue.java:52-54 | the bottom-up build permutes the slots |
| HeapSpec.BuildHeapOrders | src/priorityqueue/source/PriorityQueue.java:43-55 | the bottom-up build yields a heap |
| HeapSpec.HeapifyLeaf | src/priorityqueue/source/PriorityQueue.java:52 | heapify on a slot without children changes nothing, so starting the build at size/2 instead of size/2 - 1 is harmless |
| HeapSpec.BuildAsWritten | src/priorityqueue/source/PriorityQueue.java:52-54 | where the loop as written succeeds it permutes the slots |
| HeapSpec.BuildAsWrittenFailsOnEmpty | src/priorityqueue/source/PriorityQueue.java:52-54 | on empty input the loop as written runs heapify(0) on an empty heap and fails with an index error |
| HeapSpec.BuildAsWrittenAgrees | src/priorityqueue/source/PriorityQueue.java:52-54 | on non-empty input the loop as written gives the corrected build |
| HeapSpec.RemoveRoot | src/priorityqueue/source/PriorityQueue.java:134-137 | removing the root leaves one slot fewer and exactly the old root's slot gone from the multiset |
| HeapSpec.RemoveRootOrdered | src/priorityqueue/source/PriorityQueue.java:134-137 | once the last slot is moved into the root of a heap, only the new root can be out of order |
| HeapSpec.RootIsMax | src/priorityqueue/source/PriorityQueue.java:130-161 | the root of a heap ranks at least as high as every slot |
| HeapSpec.RootPriorityIsMax | src/priorityqueue/source/PriorityQueue.java:130-161 | the root's element is queued, and no queued element outranks its priority |
| HeapSpec.Reprioritize | src/priorityqueue/source/PriorityQueue.java:206-218 | the only change to the multiset of slots is that the slot's old priority is replaced by the new one |
| HeapSpec.RaiseOrderedExceptUp | src/priorityqueue/source/PriorityQueue.java:212-214 | raising a slot's priority in a heap leaves disorder only above that slot |
| HeapSpec.LowerOrderedExceptDown | src/priorityqueue/source/PriorityQueue.java:215-217 | lowering or keeping a slot's priority leaves disorder only below that slot |
| HeapSpec.ReprioritizeOrders | src/priorityqueue/source/PriorityQueue.java:206-218 | updatePriority's restoration yields a heap on either branch |
| HeapSpec.ReprioritizeSameIsNoOp | src/priorityqueue/source/PriorityQueue.java:206-218 | re-applying a slot's current priority leaves the heap exactly as it was |
| PriorityQueues.PriorityQueue.constructor | src/priorityqueue/source/PriorityQueue.java:26-30 | the new queue is empty, exactly indexed and a heap for the given comparator |
| PriorityQueues.PriorityQueue.Build | src/priorityqueue/source/PriorityQueue.java:43-55 | fails with an index error exactly when priorities run out; otherwise the queue is a valid heap holding exactly the pairs (array[k], priorities[k]), built bottom-up |
| PriorityQueues.PriorityQueue.AppendAll | src/priorityqueue/source/PriorityQueue.java:47-51 | the first loop leaves the pairs in order, exactly indexed, with the zipped contents |
| PriorityQueues.PriorityQueue.HeapifyAll | src/priorityqueue/source/PriorityQueue.java:52-54 | the second loop heapifies every slot that has a child, last first, and keeps the index exact |
| PriorityQueues.PriorityQueue.Swap | src/priorityqueue/source/PriorityQueue.java:257-263 | exchanges exactly two slots and repoints the shortcut map, so it still indexes the heap exactly |
| PriorityQueues.PriorityQueue.Max | src/priorityqueue/source/PriorityQueue.java:272-280 | returns the first given index whose slot no other given slot outranks |
| PriorityQueues.PriorityQueue.Heapify | src/priorityqueue/source/PriorityQueue.java:190-196 | performs heapify(i) in place: it swaps and recurses only when max picks a child, and keeps the index exact |
| PriorityQueues.PriorityQueue.SiftUpFrom | src/priorityqueue/source/PriorityQueue.java:115-121 | recursive sift-up in place, swapping while the parent ranks strictly lower |
| PriorityQueues.PriorityQueue.Append | src/priorityqueue/source/PriorityQueue.java:70-72 | appends and indexes the new pair; the contents gain it and only its slot may be out of order |
| PriorityQueues.PriorityQueue.Insert | src/priorityqueue/source/PriorityQueue.java:66-88 | fails exactly when the element is queued, and then changes nothing; otherwise the contents gain the pair, the queue stays a valid heap, and the array is the sift-up of the old array plus the new slot |
| PriorityQueues.PriorityQueue.InsertRec | src/priorityqueue/source/PriorityQueue.java:99-107 | the same outcome and the same array as the iterative insert |
| PriorityQueues.PriorityQueue.DetachRoot | src/priorityqueue/source/PriorityQueue.java:134-137 | returns the root's element and removes exactly it from the contents and the index |
| PriorityQueues.PriorityQueue.Extract | src/priorityqueue/source/PriorityQueue.java:130-161 | fails exactly on an empty queue, and then changes nothing; otherwise returns a queued element no other element outranks, removes exactly it and restores the heap |
| PriorityQueues.PriorityQueue.ExtractRec | src/priorityqueue/source/PriorityQueue.java:170-182 | the same outcome as the iterative extract, with the heap restored by heapify(0) |
| PriorityQueues.PriorityQueue.UpdatePriority | src/priorityqueue/source/PriorityQueue.java:206-218 | fails exactly when the element is not queued, and then changes nothing; otherwise only that element's priority changes and the queue stays a valid heap |
| PriorityQueues.PriorityQueue.IsEmpty | src/priorityqueue/source/PriorityQueue.java:297-299 | true exactly when the queue holds no element |
| PriorityQueues.PriorityQueue.Contains | src/priorityqueue/source/PriorityQueue.java:308-310 | true exactly when some slot holds the element |
| Sums.SumUpdate | src/graphs/secondversion/Graph.java:327-333 | overwriting one entry changes a sum by the difference |
| Sums.SumInsert | src/graphs/secondversion/Graph.java:327-333 | adding a new entry adds its value to a sum |
| Sums.SumRemoveKey | src/graphs/secondversion/Graph.java:357-362 | dropping an entry takes its value off a sum |
| GraphsV1.WeightTo | src/graphs/firstversion/Graph.java:207-220 | some weight is found exactly when an edge leads to d, and it belongs to such an edge |
| GraphsV1.WeightToFirst | src/graphs/firstversion/Graph.java:215-219 | the weight found is that of the first edge to d in list order |
| GraphsV1.WeightToAppend | src/graphs/firstversion/Graph.java:57-62 | appending an edge changes the first match only when there was none |
| GraphsV1.EdgesNotToMember | src/graphs/firstversion/Graph.java:96-104 | the filtered list holds exactly the edges not pointing at v |
| GraphsV1.WeightToFiltered | src/graphs/firstversion/Graph.java:96-104 | after filtering, no edge leads to v and every other first match is unchanged |
| GraphsV1.EdgesNotToAbsent | src/graphs/firstversion/Graph.java:96-104 | filtering out a vertex no edge leads to changes nothing |
| GraphsV1.WithVertex | src/graphs/firstversion/Graph.java:37-39 | addVertex adds v and leaves every existing list untouched |
| GraphsV1.WithEdge | src/graphs/firstversion/Graph.java:57-62 | addEdge keeps the vertex set |
| GraphsV1.WithoutEdge | src/graphs/firstversion/Graph.java:128-145 | removeEdge keeps the vertex set |
| GraphsV1.WithoutVertex | src/graphs/firstversion/Graph.java:95-104 | removeVertex removes exactly v from the vertex set |
| GraphsV1.WithVertexWellFormed | src/graphs/firstversion/Graph.java:37-39 | addVertex keeps every edge pointing at a vertex and undirected storage symmetric |
| GraphsV1.WithEdgeLookup | src/graphs/firstversion/Graph.java:57-62 | after adding an absent edge src leads to dest with weight w (and dest to src when undirected), and every other first match is unchanged |
| GraphsV1.WithEdgeWellFormed | src/graphs/firstversion/Graph.java:50-63 | addEdge keeps the graph well formed |
| GraphsV1.WithoutEdgeLookup | src/graphs/firstversion/Graph.java:128-145 | after removeEdge src no longer leads to dest (nor dest to src when undirected), and every other first match is unchanged |
| GraphsV1.WithoutEdgeWellFormed | src/graphs/firstversion/Graph.java:115-146 | removeEdge keeps the graph well formed |
| GraphsV1.WithoutVertexWellFormed | src/graphs/firstversion/Graph.java:91-105 | removeVertex leaves no dangling edge and keeps undirected storage symmetric |
| GraphsV1.AppendTotals | src/graphs/firstversion/Graph.java:236-258 | appending one entry adds one to the entry count and its weight to the entry weight |
| GraphsV1.WithVertexTotals | src/graphs/firstversion/Graph.java:37-39 | addVertex changes neither the entry count nor the weight |
| GraphsV1.WithEdgeTotals | src/graphs/firstversion/Graph.java:57-62 | a new edge adds one entry of weight w when oriented and two when undirected |
| GraphsV1.WithEdgeForced | src/graphs/firstversion/Graph.java:73-82 | addEdgeForced's vertex set is the old one plus both endpoints |
| GraphsV1.WithEdgeForcedTotals | src/graphs/firstversion/Graph.java:73-82 | a new forced edge adds one entry of weight w when oriented and two when undirected |
| GraphsV1.WithEdgeForcedWellFormed | src/graphs/firstversion/Graph.java:73-82 | addEdgeForced keeps the graph well formed |
| GraphsV1.TestEdges | src/graphs/firstversion/GraphTests.java:49-55 | the unit tests force seven edges |
| GraphsV1.ForcedRunWellFormed | src/graphs/firstversion/Graph.java:73-82 | every graph along a run of addEdgeForced calls from the empty graph is well formed |
| GraphsV1.ForcedRunLinks | src/graphs/firstversion/Graph.java:73-82 | in such a run a leads to b only if some forced edge joins them |
| GraphsV1.NewEdgeAbsent | src/graphs/firstversion/Graph.java:57-58 | a forced edge new to the run is not yet present when it is forced |
| GraphsV1.ForcedRunTotals | src/graphs/firstversion/Graph.java:236-258 | forcing n pairwise new edges stores n entries (2n when undirected) whose weights add up to once (twice) the edges' total |
| GraphsV1.ForcedStepTotals | src/graphs/firstversion/Graph.java:73-82 | one addEdgeForced of a new edge in a run adds one entry of its weight, two when undirected |
| GraphsV1.TestEdgesWeight | src/graphs/firstversion/GraphTests.java:49-55 | the seven test edges weigh 36 together |
| GraphsV1.TestEdgesAreNew | src/graphs/firstversion/GraphTests.java:49-55 | over seven distinct labels no test edge repeats an earlier one in either direction |
| GraphsV1.TestGraphTotals | src/graphs/firstversion/GraphTests.java:153-158 | the undirected test graph holds 7 edges, and its weight is 36 as testGraphWeight expects |
| GraphsV1.Graph.constructor | src/graphs/firstversion/Graph.java:26-29 | an empty well-formed graph of the given orientation |
| GraphsV1.Graph.ContainsVertex | src/graphs/firstversion/Graph.java:286-288 | true exactly for the graph's vertices |
| GraphsV1.Graph.VertexCount | src/graphs/firstversion/Graph.java:227-229 | the number of vertices |
| GraphsV1.Graph.IsEmpty | src/graphs/firstversion/Graph.java:266-268 | true exactly when there is no vertex |
| GraphsV1.Graph.IsOriented | src/graphs/firstversion/Graph.java:275-277 | the graph's orientation |
| GraphsV1.Graph.AddVertex | src/graphs/firstversion/Graph.java:37-39 | idempotent: an existing vertex keeps its list, and the count grows by one only for a new vertex |
| GraphsV1.Graph.FindEdge | src/graphs/firstversion/Graph.java:189-194 | true exactly when some edge of src leads to dest |
| GraphsV1.Graph.ContainsEdge | src/graphs/firstversion/Graph.java:182-195 | fails, with a vertex error only, exactly on a missing endpoint; otherwise succeeds, true exactly when some edge of src leads to dest |
| GraphsV1.Graph.GetEdgeWeight | src/graphs/firstversion/Graph.java:207-220 | fails with a vertex error exactly on a missing endpoint and with an edge error exactly on a missing edge; otherwise the weight of the first edge from src to dest |
| GraphsV1.Graph.Link | src/graphs/firstversion/Graph.java:58-60 | appends one entry to one list and changes nothing else |
| GraphsV1.Graph.Connect | src/graphs/firstversion/Graph.java:57-62 | performs the addEdge transition in place |
| GraphsV1.Graph.AddEdge | src/graphs/firstversion/Graph.java:50-63 | fails, with a vertex error only, exactly on a missing endpoint, and then changes nothing; otherwise it succeeds: an existing edge is kept and a new one is added, both ways when undirected; the graph stays well formed |
| GraphsV1.Graph.AddEdgeForced | src/graphs/firstversion/Graph.java:73-82 | never fails: it adds the missing endpoints and then behaves as addEdge; the graph stays well formed |
| GraphsV1.Graph.DropEdgesTo | src/graphs/firstversion/Graph.java:97-103 | the list-iterator pass removes exactly the edges to v and keeps the others in order |
| GraphsV1.Graph.DropAllEdgesTo | src/graphs/firstversion/Graph.java:96-104 | every remaining list loses exactly its edges to v |
| GraphsV1.Graph.RemoveVertex | src/graphs/firstversion/Graph.java:91-105 | fails, with a vertex error only, exactly on a missing vertex, and then changes nothing; otherwise it succeeds: the vertex and every edge to it are gone, all other edges remain, and the graph stays well formed |
| GraphsV1.Graph.RemoveEdge | src/graphs/firstversion/Graph.java:115-146 | fails with a vertex error exactly on a missing endpoint, then with an edge error exactly on a missing edge, with no other failure, and then changes nothing; otherwise it succeeds: the edge is removed, both ways when undirected |
| GraphsV1.Graph.GetAllVertex | src/graphs/firstversion/Graph.java:153-155 | every vertex exactly once |
| GraphsV1.Graph.GetVertexAdjs | src/graphs/firstversion/Graph.java:163-169 | succeeds on a present vertex with the destinations of its edges in list order; a missing vertex dereferences null, and nothing else fails |
| GraphsV1.Graph.EdgeCount | src/graphs/firstversion/Graph.java:236-242 | the number of stored entries, halved when undirected |
| GraphsV1.Graph.ListTotal | src/graphs/firstversion/Graph.java:253-255 | the inner loop adds up the weights of one list |
| GraphsV1.Graph.Weight | src/graphs/firstversion/Graph.java:250-258 | the sum of the entry weights, halved when undirected |
| WeightTables.RowSums | src/graphs/secondversion/Graph.java:305-308 | one row sum per row of the table |
| WeightTables.SetCell | src/graphs/secondversion/Graph.java:327-333 | set creates the row when it is missing and then holds val in cell (r, c) |
| WeightTables.SetCellLookup | src/graphs/secondversion/Graph.java:327-333 | set changes cell (r, c) only |
| WeightTables.RemoveCell | src/graphs/secondversion/Graph.java:357-362 | the corrected remove keeps the rows and leaves cell (r, c) absent |
| WeightTables.RemoveCellLookup | src/graphs/secondversion/Graph.java:357-362 | the corrected remove changes cell (r, c) only |
| WeightTables.TableGet | src/graphs/secondversion/Graph.java:342-349 | get returns the cell when its column is also a row label, and nothing otherwise |
| WeightTables.SetCellSum | src/graphs/secondversion/Graph.java:327-333 | storing a cell adds its value to the sum of cells, minus the value it overwrites |
| WeightTables.RemoveCellSum | src/graphs/secondversion/Graph.java:357-362 | dropping a cell takes its value off the sum of cells |
| WeightTables.RemoveAsWritten | src/graphs/secondversion/Graph.java:357-362 | remove as written fails with a null dereference exactly when row r exists and either cell (r, c) is absent or column c is not a row label |
| WeightTables.RemoveAsWrittenFailsOnSinkColumn | src/graphs/secondversion/Graph.java:342-362 | remove as written also fails on a present cell whose column is not a row label |
| WeightTables.RemoveAsWrittenFailsOnOrientedSink | src/graphs/secondversion/Graph.java:96-108 | in an oriented graph holding only the edge a -> v, removeVertex(v)'s call remove(a, v) fails as written although the cell exists |
| WeightTables.RemoveAsWrittenFailsOnAbsentCell | src/graphs/secondversion/Graph.java:357-362 | remove as written fails on an existing row whose cell is absent |
| WeightTables.RemoveAsWrittenAgrees | src/graphs/secondversion/Graph.java:357-362 | wherever remove as written succeeds, it does what the corrected remove does |
| WeightTables.WeightTable.constructor | src/graphs/secondversion/Graph.java:314-317 | an empty table with a zero aggregate, which is consistent |
| WeightTables.WeightTable.Set | src/graphs/secondversion/Graph.java:327-333 | stores the cell and adds val to the aggregate; the aggregate stays the sum of the cells when the cell was absent |
| WeightTables.WeightTable.Get | src/graphs/secondversion/Graph.java:342-349 | the cell when its column is a row label, nothing otherwise |
| WeightTables.WeightTable.Remove | src/graphs/secondversion/Graph.java:357-362 | drops the cell and subtracts its value when present, changes nothing otherwise, and keeps the aggregate equal to the sum of the cells |
| WeightTables.WeightTable.GetWeight | src/graphs/secondversion/Graph.java:369-371 | the aggregate, which is the sum of the cells while the table is consistent |
| GraphsV2.RemoveFirst | src/graphs/secondversion/Graph.java:101-103 | LinkedList.remove(Object) shortens the list by one when x occurs and changes nothing otherwise |
| GraphsV2.RemoveFirstMultiset | src/graphs/secondversion/Graph.java:101-103 | it takes exactly one x out of the list's multiset |
| GraphsV2.RemoveFirstAt | src/graphs/secondversion/Graph.java:101-103 | it cuts the list at the first occurrence of x |
| GraphsV2.DistinctAppend | src/graphs/secondversion/Graph.java:61-64 | appending a label the list lacks keeps it free of repetitions |
| GraphsV2.RemoveFirstDistinct | src/graphs/secondversion/Graph.java:101-103 | from a list without repetitions it leaves exactly the other labels, still without repetitions |
| GraphsV2.MirroredCells | src/graphs/secondversion/Graph.java:61-64 | mirroring row by row is the same as every cell equal to its mirror image |
| GraphsV2.UndirectedToCells | src/graphs/secondversion/Graph.java:51-66 | the undirected invariant gives mirrored cells between distinct vertices, each listed exactly when its cell is present |
| GraphsV2.CellsToUndirected | src/graphs/secondversion/Graph.java:51-66 | the cell-by-cell facts give back the undirected invariant |
| GraphsV2.CellsLinked | src/graphs/secondversion/Graph.java:51-66 | every stored cell joins two distinct listed vertices, and every listed neighbour has its cell |
| GraphsV2.GetIsCell | src/graphs/secondversion/Graph.java:342-349 | in a mirrored table get sees exactly the stored cells |
| GraphsV2.GetMissesSinkColumn | src/graphs/secondversion/Graph.java:342-349 | in an unmirrored table a cell whose column is not a row label is invisible to get |
| GraphsV2.WithVertex | src/graphs/secondversion/Graph.java:38-40 | addVertex adds v and leaves the table and the aggregate alone |
| GraphsV2.Cleared | src/graphs/secondversion/Graph.java:104-107 | clearing v's cells keeps the table's rows |
| GraphsV2.ClearedLookup | src/graphs/secondversion/Graph.java:104-107 | clearing removes exactly the cells between v and the given vertices |
| GraphsV2.ClearedNothing | src/graphs/secondversion/Graph.java:104-107 | clearing against no vertex changes nothing |
| GraphsV2.ClearedStep | src/graphs/secondversion/Graph.java:104-107 | one more pass of the loop is two corrected removals |
| GraphsV2.WithVertexUndirected | src/graphs/secondversion/Graph.java:38-40 | addVertex keeps an undirected graph well formed |
| GraphsV2.WithEdgeLookup | src/graphs/secondversion/Graph.java:58-64 | the undirected addEdge of an absent edge stores w in both cells and changes no other cell |
| GraphsV2.WithEdgeLists | src/graphs/secondversion/Graph.java:58-64 | it lists each endpoint in the other's list once and changes no other list |
| GraphsV2.WithEdgeUndirected | src/graphs/secondversion/Graph.java:51-66 | the undirected addEdge between distinct vertices keeps the graph well formed |
| GraphsV2.WithoutEdgeLookup | src/graphs/secondversion/Graph.java:130-135 | the undirected removeEdge drops both cells and no other |
| GraphsV2.WithoutEdgeLists | src/graphs/secondversion/Graph.java:130-135 | it unlists each endpoint from the other's list and changes no other list |
| GraphsV2.WithoutEdgeUndirected | src/graphs/secondversion/Graph.java:118-136 | the undirected removeEdge of a present edge keeps the graph well formed |
| GraphsV2.WithoutVertexUndirected | src/graphs/secondversion/Graph.java:96-108 | removeVertex keeps an undirected graph well formed |
| GraphsV2.Degrees | src/graphs/secondversion/Graph.java:217-223 | one list length per vertex |
| GraphsV2.Graph.constructor | src/graphs/secondversion/Graph.java:26-30 | an empty graph of the given orientation with a fresh, empty, consistent table |
| GraphsV2.Graph.ContainsVertex | src/graphs/secondversion/Graph.java:261-263 | true exactly for the graph's vertices |
| GraphsV2.Graph.VertexCount | src/graphs/secondversion/Graph.java:208-210 | the number of vertices |
| GraphsV2.Graph.IsEmpty | src/graphs/secondversion/Graph.java:241-243 | true exactly when there is no vertex |
| GraphsV2.Graph.IsOriented | src/graphs/secondversion/Graph.java:250-252 | the graph's orientation |
| GraphsV2.Graph.AddVertex | src/graphs/secondversion/Graph.java:38-40 | idempotent: an existing vertex keeps its list; the undirected invariant is kept |
| GraphsV2.Graph.Connect | src/graphs/secondversion/Graph.java:58-64 | performs the addEdge transition in place |
| GraphsV2.Graph.AddEdge | src/graphs/secondversion/Graph.java:51-66 | fails, with a vertex error only, exactly on a missing endpoint, and then changes nothing; otherwise it succeeds: an edge get already sees is kept and a new one is listed and stored, mirrored when undirected |
| GraphsV2.Graph.AddEdgeForced | src/graphs/secondversion/Graph.java:76-87 | adds the missing endpoints, then behaves as addEdge |
| GraphsV2.Graph.RemoveFirstOf | src/graphs/secondversion/Graph.java:102 | LinkedList.remove(Object) on one list |
| GraphsV2.Graph.UnlistEverywhere | src/graphs/secondversion/Graph.java:101-103 | every remaining list loses the first occurrence of v |
| GraphsV2.Graph.ClearCells | src/graphs/secondversion/Graph.java:104-107 | cells (k, v) and (v, k) are cleared for every remaining k, and the aggregate loses exactly their values |
| GraphsV2.Graph.RemoveVertex | src/graphs/secondversion/Graph.java:96-108 | fails, with a vertex error only, exactly on a missing vertex, and then changes nothing; otherwise it succeeds: the vertex's list goes, it is unlisted everywhere and its cells are cleared; the undirected invariant is kept |
| GraphsV2.Graph.RemoveEdge | src/graphs/secondversion/Graph.java:118-136 | fails with a vertex error exactly on a missing endpoint, then with an edge error exactly on an edge get does not see, with no other failure, and then changes nothing; otherwise it succeeds: the edge is unlisted and its cell removed, mirrored when undirected |
| GraphsV2.Graph.GetAllVertex | src/graphs/secondversion/Graph.java:144-146 | every vertex exactly once |
| GraphsV2.Graph.GetVertexAdjs | src/graphs/secondversion/Graph.java:155-161 | succeeds on a present vertex with a copy of its neighbour list; a missing vertex dereferences null, and nothing else fails |
| GraphsV2.Graph.GetEdgeWeight | src/graphs/secondversion/Graph.java:173-178 | endpoints are not checked: the stored weight when get sees the cell, an edge error otherwise; undirected, exactly when the cell is stored |
| GraphsV2.Graph.ContainsEdge | src/graphs/secondversion/Graph.java:191-201 | fails exactly on a missing endpoint; true only for a stored cell, and undirected exactly for one |
| GraphsV2.Graph.EdgeCount | src/graphs/secondversion/Graph.java:217-223 | the total list length, halved when undirected |
| GraphsV2.Graph.Weight | src/graphs/secondversion/Graph.java:231-233 | the aggregate; undirected, half the sum of the cells |
| GraphsV2.ContainsEdgeSymmetric | src/graphs/secondversion/Graph.java:173-201 | in an undirected graph containsEdge and getEdgeWeight give the same answer both ways |
| MstSpec.LinkedIsVertex | src/graphs/firstversion/Graph.java:50-56 | in a well-formed graph every destination is a vertex |
| MstSpec.NoEdgeTo | src/graphs/firstversion/Graph.java:50-56 | no edge leads to a vertex outside the graph |
| MstSpec.WithEdgeForcedLinks | src/graphs/firstversion/Graph.java:73-82 | undirected addEdgeForced keeps every link and links both endpoints both ways |
| MstSpec.ForcedStepLinks | src/graphs/firstversion/Graph.java:73-82 | one step of a run keeps every link and links the forced edge's endpoints |
| MstSpec.ForcedRunHas | src/graphs/firstversion/GraphTests.java:49-55 | every forced edge links its endpoints both ways in the final graph |
| MstSpec.ForcedRunKeys | src/graphs/firstversion/GraphTests.java:49-55 | the vertices of a run are the endpoints of its edges |
| MstSpec.TestEndpoints | src/graphs/firstversion/GraphTests.java:49-55 | the test edges join the seven labels |
| MstSpec.TestLinksConnect | src/graphs/firstversion/GraphTests.java:49-55 | a graph on the seven labels holding the test edges is connected |
| MstSpec.CrossedBy | src/graphs/firstversion/Prim.java:72-83 | an edge with one end in a set crosses that set |
| MstSpec.SevenLabels | src/graphs/firstversion/GraphTests.java:244-277 | seven distinct labels make a set of seven |
| MstSpec.TestGraphConnected | src/graphs/firstversion/GraphTests.java:244-277 | the tests' undirected graph is well formed, connected and has seven vertices, so Prim's tree on it has 6 edges |
| Prim.InitialCore | src/graphs/firstversion/Prim.java:38-57 | after initialisation the bookkeeping holds with nothing extracted |
| Prim.AloneSubgraph | src/graphs/firstversion/Prim.java:63-65 | adding a vertex alone keeps the result a subgraph of the input |
| Prim.AttachAlone | src/graphs/firstversion/Prim.java:63-65 | a parentless vertex is added alone and the result stays a well-formed subgraph |
| Prim.EdgeSubgraph | src/graphs/firstversion/Prim.java:66-67 | forcing an input edge both ways keeps the result a subgraph of the input |
| Prim.AttachEdge | src/graphs/firstversion/Prim.java:66-67 | a vertex with a parent is added with exactly the input edge to its parent, weighted by its key |
| Prim.AttachNonNegative | src/graphs/firstversion/Prim.java:72-76 | edges from a newly extracted vertex to extracted ones were scanned, so none is negative |
| Prim.AttachStep | src/graphs/firstversion/Prim.java:63-68 | after one extraction the result is one vertex larger, with one more edge or one more root |
| Prim.SecondRoot | src/graphs/firstversion/Prim.java:59-68 | a second vertex extracted without a parent proves the input disconnected |
| Prim.PhaseFirst | src/graphs/firstversion/Prim.java:56-61 | the first extraction takes the start vertex, the only one with a finite key |
| Prim.StartLeast | src/graphs/firstversion/Prim.java:56-61 | only a finite key ranks at least as high as a finite key |
| Prim.PhaseLater | src/graphs/firstversion/Prim.java:59-68 | every later extraction keeps the phase, and a second root means the input is disconnected |
| Prim.ExtractStep | src/graphs/firstversion/Prim.java:59-68 | one extraction of a least-key vertex keeps the bookkeeping, except that its own neighbours are still to be scanned |
| Prim.FrameStep | src/graphs/firstversion/Prim.java:61-68 | extraction moves a vertex from the queue to the result |
| Prim.ParentsStep | src/graphs/firstversion/Prim.java:63-68 | extraction changes no recorded parent edge |
| Prim.ScannedStep | src/graphs/firstversion/Prim.java:61-68 | earlier scans stay valid when the queue shrinks |
| Prim.RelaxStep | src/graphs/firstversion/Prim.java:77-81 | relaxing a queued neighbour along a lighter non-negative edge keeps the bookkeeping |
| Prim.RelaxFrame | src/graphs/firstversion/Prim.java:77-81 | the key map and the queue stay in step when a key is lowered |
| Prim.RelaxParents | src/graphs/firstversion/Prim.java:77-81 | the new parent edge is an input edge whose weight is the child's key |
| Prim.RelaxPhase | src/graphs/firstversion/Prim.java:77-81 | a vertex given a finite key is given a parent with it |
| Prim.RelaxScanned | src/graphs/firstversion/Prim.java:72-81 | relaxing keeps every scan done so far and completes this neighbour's |
| Prim.SkipStep | src/graphs/firstversion/Prim.java:73 | a neighbour no longer queued needs no scanning |
| Prim.ScanDone | src/graphs/firstversion/Prim.java:72-83 | once every destination in the list is scanned, every neighbour is |
| Prim.Finished | src/graphs/firstversion/Prim.java:59-85 | with an empty queue the result spans the input, the input has no negative edge, and a connected input gives |V| - 1 edges |
| Prim.SentinelMap | src/graphs/firstversion/Prim.java:42-51 | the queue's contents and the key map both hold the sentinel for every vertex |
| Prim.Initialize | src/graphs/firstversion/Prim.java:38-57 | queues every vertex with the sentinel key, sets every key to the sentinel, then gives the start vertex key 0 in both |
| Prim.ScanNeighbour | src/graphs/firstversion/Prim.java:73-81 | only queued neighbours are touched; a negative edge to one fails, and otherwise its key, priority and parent change together exactly when the edge is strictly lighter than its key |
| Prim.RelaxNeighbours | src/graphs/firstversion/Prim.java:70-83 | the inner loop keeps the queued set, fails only on a negative edge of the input, and otherwise restores the bookkeeping with every neighbour scanned |
| Prim.ExtractAndAttach | src/graphs/firstversion/Prim.java:61-68 | extracts a least-key vertex, removes exactly it from the queue, and adds it alone or with exactly the edge to its parent |
| Prim.Round | src/graphs/firstversion/Prim.java:59-84 | one round moves exactly one vertex from the queue to the result and keeps the bookkeeping unless a negative edge aborts |
| Prim.RunRounds | src/graphs/firstversion/Prim.java:59-85 | fails exactly when the input has a negative edge between distinct vertices; otherwise, after |V| rounds, the result is an undirected subgraph on all the vertices, with |V| - 1 edges when the input is connected |
| Prim.MstPrim | src/graphs/firstversion/Prim.java:28-89 | a null graph, an oriented graph and a missing start vertex fail in that order; otherwise it fails exactly on a negative edge, and a result is a freshly allocated undirected subgraph of the input on all its vertices, using input edges with their weights, with |V| - 1 edges when the input is connected |
| Prim.MstFrom | src/graphs/firstversion/Prim.java:38-88 | after the checks: fails exactly on a negative edge between distinct vertices, and otherwise returns the freshly allocated spanning subgraph described for MstPrim |

## Left out

- Printing: every `toString` method is left out, because it only formats text.
- Weights: the source's `double` weights are integers here, with no IEEE rounding. `weight()` is therefore an exact sum halved as a real.
- The `Double.MAX_VALUE` sentinel is the explicit key `Key.Infinite`, which ranks above every finite key.
- Vertex labels: the first version compares labels with `==` (reference identity); the model compares them by value.
- Prim.MstPrim: the comparator parameter is fixed to the minimizing comparator; other comparators are not modelled.
- Prim.MstPrim: it does not prove that the tree has minimum total weight. It proves a spanning subgraph of input edges, with |V| - 1 edges when the input is connected.
- Prim.MstPrim: it requires the input graph to satisfy the first version's invariant, which every graph built by the graph's own operations satisfies.
- Prim.MstPrim: the exact adjacency sets of the unit test's tree are not derived. The model proves that the test graph is connected, so the tree has all seven vertices and 6 edges.
- Iteration order: HashMap and key-set iteration order is not modelled. `getAllVertex` promises every vertex once in some order, and loops over a map's entries pick the next key arbitrarily.
- PriorityQueues.PriorityQueue.Build: it requires distinct elements. As written, a duplicate element leaves the shortcut map pointing at one slot only, which the model does not represent.
- PriorityQueues.PriorityQueue.Build: on empty input it builds the empty queue, which is the corrected behaviour; the behaviour as written is under Findings.
- Unit tests: the priority queue tests that poke into the heap array directly, and the JUnit runners, are not modelled.
- WeightTables.WeightTable.Remove: it models the corrected `remove`, which leaves an absent cell alone and removes a present one. As written, `remove` fails whenever row r exists and `get(r, c)` is null: when the cell is absent, and also when the cell is present but column c is not a row label; see Findings.
- GraphsV2.Graph.RemoveVertex: it uses the corrected `remove`, so it always succeeds on a present vertex. As written it fails when, for some remaining vertex k, row k exists and `get(k, v)` is null, or row v exists and `get(v, k)` is null; `get` is null when the cell is absent or its column is not a row label. A vertex without a row is skipped, so two vertices that never had an edge do not make it fail. Examples are an undirected graph in which some other vertex with edges is not adjacent to v, and an oriented graph with an edge a -> v where v has no outgoing edge; see Findings.
- GraphsV2.Graph.AddEdge: an undirected self-loop leaves the graph's invariant. Its vertex is listed twice in its own list and the aggregate counts its weight twice, so `Valid()` is promised only for oriented graphs or distinct endpoints.
- GraphsV2.Graph.AddEdgeForced: an undirected self-loop leaves the invariant, as for AddEdge.
- GraphsV2.Graph.Valid: no invariant is promised for oriented second-version graphs. There `get` hides cells whose column is not a row label, so the lists and the aggregate can drift from the cells.
- WeightTables.WeightTable.Set: the aggregate stays the sum of the cells only when the stored cell was absent, as in the source.
- GraphsV2.Graph.GetEdgeWeight: it is a function over the table; the null `Double` the source could return is never produced, because `get` returns a value or nothing.
- The second version's Prim, which the second usage class imports, is not part of this model.
- The usage programs are not part of this model: file reading, CSV parsing and printing of results.

## Findings

| source | as written | input that shows it | evidently intended | confidence | as-written member | corrected member |
|---|---|---|---|---|---|---|
| src/priorityqueue/source/PriorityQueue.java:52-54 | the bulk constructor's heapify loop starts with heapify(size/2), which reads slot 0 of an empty heap | two empty arrays: heapify(0) on an empty heap throws IndexOutOfBoundsException | an empty queue | not executed | HeapSpec.BuildAsWrittenFailsOnEmpty | PriorityQueues.PriorityQueue.Build |
| src/graphs/secondversion/Graph.java:357-362 | `remove` subtracts the result of `get(r, c)` from the aggregate, and that result is null when row r exists but cell (r, c) is absent, or when the cell is present but column c is not a row label | undirected graph with edges a-b and c-d: removeVertex(a) calls remove(c, a); oriented graph with vertices a, v and the edge a -> v: removeVertex(v) calls remove(a, v); in both, unboxing the null throws NullPointerException | removing an absent cell changes nothing, and removing a present cell subtracts its value | not executed | WeightTables.RemoveAsWrittenFailsOnAbsentCell | WeightTables.WeightTable.Remove |
