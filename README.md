# Shortest paths over a binary min-heap, bidirectionally, and contraction hierarchies

This project models AD-Homework-Batch-III, a small Python library of graph
algorithms, and proves properties of the model in Dafny.

- **Graphs.** A graph is a list of named nodes. Every node owns a list of
  edges with non-negative costs.
- **Heaps.** A `BinaryMinHeap` is kept in an array under a caller-supplied
  order. A `DijkstraBinaryMinHeap` stores `(node, distance, predecessor)`
  triplets in such a heap. It can look up a node's triplet, lower its
  distance with a sift-up, and set its predecessor.
- **Dijkstra.** `binary_heap_dijkstra` repeatedly takes the root of that
  heap and relaxes the root's edges. It returns the triplets in the order
  they were settled.
- **Bidirectional Dijkstra.** `bidirectional_dijkstra` runs two
  dictionary-based searches. One goes forward from the source. The other
  goes backward from the target over the reversed graph. The two take turns
  until one settles a node the other has already settled. Each is then
  continued up to a distance bound. The result is a meeting node whose two
  distances add up least, and the `Path` that joins the two predecessor
  chains through it. The model proves that a path is returned exactly when
  the target is reachable. It also shows a graph on which that path is not
  a shortest one, and proves a corrected bound under which it is.
- **Contraction.** A graph can also contract its least important node (the
  one with the fewest edges). It then adds shortcuts between the neighbours
  of that node. Repeating this gives a contraction hierarchy. The cheapest
  edges of all levels can be merged back into one graph. Each level is
  determined by the one before, and the merged graph has the same cheapest
  walk costs as the original.

Each Python class whose fields change in place is a Dafny `class` with
`modifies` frames: `Node`, `Path`, `Graph`, both heaps. The expressions the
algorithms compute over are datatypes and functions: edges, node values,
triplets, distances and search dictionaries.

- Every method is specified against a specification function or predicate.
- A costed walk, `ShortestPaths.WalkCost`, is the independent reference
  that distances are measured against.
- `ShortestPaths.ShortestDistances` proves that the certificate returned by
  `binary_heap_dijkstra` gives shortest-path distances.
- Every algorithm that raises a `RuntimeError`, `ValueError`, `KeyError`,
  `IndexError` or `TypeError` in the source returns a `Result` or `Outcome`
  failure instead. Each contract says exactly when that happens, except
  for the `TypeError` of a one-element heap build, which the Dijkstra
  model replaces by the corrected build (see "## Left out" and
  "## Findings").

The files:

| file | module | models |
|---|---|---|
| wrappers.dfy | Wrappers | `Option`, `Result`, `Outcome` |
| distance.dfy | Distance | non-negative costs and distances extended with `inf` |
| seqs.dfy | Seqs | list facts: distinctness, first occurrence |
| binary_min_heap.dfy | Heaps | code/BinaryMinHeap.py |
| node.dfy | Nodes | code/Node.py (`Node`, `Edge`) |
| reversal.dfy | Reversal | the value of the reversed graph |
| dijkstra_heap.dfy | DijkstraHeaps | code/DijkstraBinaryMinHeap.py |
| shortest_paths.dfy | ShortestPaths | what a Dijkstra result certifies |
| path.dfy | Paths | code/Path.py |
| contraction.dfy | Contraction | the edge facts of node contraction |
| merge.dfy | Merging | the edge merge of `add_shortcuts` |
| graph.dfy | Graphs | code/Graph.py |
| dijkstra.dfy | Dijkstra | `binary_heap_dijkstra` |
| search.dfy | Searches | the dictionary helpers of code/Dijkstra.py |
| continuation.dfy | Continuation | the continued searches |
| walks.dfy, trails.dfy | Walks, Trails | walks, and the two predecessor chains |
| answers.dfy | Answers | what `bidirectional_dijkstra` returns |
| frontier.dfy | Frontiers | the relaxation invariant of a direction, and what a direction with nothing left to reach has settled |
| bidirectional.dfy | Bidirectional | `bidirectional_dijkstra` |
| shortcut_walks.dfy | ShortcutWalks | the shortcuts of a contraction hierarchy, measured by walks of the original graph |
| parallel.dfy | ParallelEdges | the edge `add_connection` takes when there are parallel edges, and the cheapest one |
| radius.dfy | Radius | a graph on which `bidirectional_dijkstra` returns a path that is not the shortest |
| meeting.dfy | Meeting | `bidirectional_dijkstra` with a continuation bound that makes the path a shortest one |
| fixture.dfy | Fixture | the demo graph of code/Main.py and its Dijkstra result |

I/O: none of the modelled code reads input. Printing and the `__repr__`
methods are left out (see below).

## Model

| member | source | states |
|---|---|---|
| Heaps.Parent | code/BinaryMinHeap.py:29-33 | `None` exactly for node 0; otherwise `(node - 1) // 2`, which is below the node |
| Heaps.Left | code/BinaryMinHeap.py:39-41 | the parent of the left child is the node |
| Heaps.Right | code/BinaryMinHeap.py:43-45 | the parent of the right child is the node, and the right child is one past the left |
| Heaps.Swapped | code/BinaryMinHeap.py:50-53 | the two positions exchange their keys |
| Heaps.SwapPreservesAll | code/BinaryMinHeap.py:50-53 | a swap permutes the whole array |
| Heaps.SwapPreservesPrefix | code/BinaryMinHeap.py:50-53 | a swap within the heap part permutes the heap part |
| Heaps.BinaryMinHeap.SwapKeys | code/BinaryMinHeap.py:50-53 | the array becomes the swapped array, a permutation of the old one |
| Heaps.SwapChildUp | code/BinaryMinHeap.py:59-69 | swapping the smaller child up moves the single order violation down to that child |
| Heaps.SiftStep | code/BinaryMinHeap.py:59-69 | one loop step of `_heapify` keeps its invariant at the new position |
| Heaps.SiftDone | code/BinaryMinHeap.py:67-71 | when no child is smaller, the subtree is a heap and the array a permutation of the old one |
| Heaps.BinaryMinHeap.Heapify | code/BinaryMinHeap.py:55-71 | if the heap order holds below `node`, afterwards it holds from `node` on; the keys are permuted within the heap part, and positions before `node` or past the heap part are unchanged |
| Heaps.RootIsMinimum | code/BinaryMinHeap.py:73-80 | in a heap the root is below every key of the heap part |
| Heaps.SwapRootToEnd | code/BinaryMinHeap.py:76-78 | after the root goes to the end, everything below position 0 is still a heap, and the rest plus the old root is the old heap part |
| Heaps.RootBelowRest | code/BinaryMinHeap.py:73-80 | the removed root is below every key that stays |
| Heaps.RootTakenOut | code/BinaryMinHeap.py:76-80 | the key left behind the shrunk heap is the old root, and it is below the rest |
| Heaps.RootRemoved | code/BinaryMinHeap.py:73-80 | root swap plus sift-down leaves a heap of the other keys with the old root just past it |
| Heaps.BinaryMinHeap.RemoveRoot | code/BinaryMinHeap.py:73-80 | fails exactly on an empty heap and then changes nothing; otherwise returns the minimum, the heap shrinks by one and stays a heap of the remaining keys |
| Heaps.BinaryMinHeap.Len | code/BinaryMinHeap.py:47-48 | the number of keys in the heap part |
| Heaps.BinaryMinHeap.IsEmpty | code/BinaryMinHeap.py:105-106 | true exactly when the heap holds no key |
| Heaps.BinaryMinHeap.HeapifyDownFrom | code/BinaryMinHeap.py:83-84 | heapifying every position from `start` down to 0 yields a heap permuting the array |
| Heaps.BinaryMinHeap.BuildHeap | code/BinaryMinHeap.py:82-84 | as written: fails exactly for one element, leaving it untouched; otherwise yields a valid heap that permutes the array |
| Heaps.BinaryMinHeap.BuildHeapCorrected | code/BinaryMinHeap.py:82-84 | as intended: always yields a valid heap that permutes the array |
| Heaps.BinaryMinHeap.Init | code/BinaryMinHeap.py:18-25 | stores the array and the order; the size is the array length |
| Heaps.NewBinaryMinHeap | code/BinaryMinHeap.py:18-27 | the constructor: fails exactly for a one-element list, as `_build_heap` does; otherwise a valid heap over the same array and order, holding a permutation of the list |
| DijkstraHeaps.LowerDistanceOrder | code/DijkstraBinaryMinHeap.py:23-24 | comparing triplets by distance is a total preorder, so the heap lemmas apply |
| DijkstraHeaps.TNames | code/DijkstraBinaryMinHeap.py:69-73 | the node names of a triplet list, position by position |
| DijkstraHeaps.NamesSnoc | code/Dijkstra.py:26 | appending a triplet appends its name |
| DijkstraHeaps.Zip | code/DijkstraBinaryMinHeap.py:52 | as many triplets as the shortest list, each taking the entries of that position |
| DijkstraHeaps.SizeCheckMissesMismatch | code/DijkstraBinaryMinHeap.py:54 | lists of sizes 2, 2 and 1 pass the size test as written, and the zip drops one node |
| DijkstraHeaps.NewDijkstraBinaryMinHeap | code/DijkstraBinaryMinHeap.py:51-56 | with the corrected build: fails exactly when the three lists do not all have one size; otherwise a fresh valid heap of all the zipped triplets |
| DijkstraHeaps.DijkstraBinaryMinHeap.Init | code/DijkstraBinaryMinHeap.py:51-53 | wraps the heap built from the zipped triplets |
| DijkstraHeaps.NameMoves | code/DijkstraBinaryMinHeap.py:69-73 | a name stays findable when the heap permutes its triplets |
| DijkstraHeaps.TripletMoves | code/DijkstraBinaryMinHeap.py:69-73 | the triplet found for a name is unchanged by a permutation with distinct names |
| DijkstraHeaps.SameTable | code/DijkstraBinaryMinHeap.py:69-73 | the name-to-triplet table is unchanged by a permutation |
| DijkstraHeaps.TableEq | code/DijkstraBinaryMinHeap.py:69-73 | two lists with the same names and the same triplet per name have the same table |
| DijkstraHeaps.ReplacedTable | code/DijkstraBinaryMinHeap.py:99 | replacing the triplet at a name's index changes the table at that name only |
| DijkstraHeaps.DijkstraBinaryMinHeap.FindIndex | code/DijkstraBinaryMinHeap.py:69-73 | None exactly when no stored triplet has the node's name; otherwise the first index of that name in the whole array |
| DijkstraHeaps.DijkstraBinaryMinHeap.GetDistanceOfANode | code/DijkstraBinaryMinHeap.py:117-122 | fails exactly for an unknown node; otherwise that node's distance |
| DijkstraHeaps.DijkstraBinaryMinHeap.SetPredecessorOfANode | code/DijkstraBinaryMinHeap.py:137-142 | fails exactly for an unknown node, changing nothing; otherwise only that triplet's predecessor changes; the heap stays valid |
| DijkstraHeaps.SiftUpStart | code/DijkstraBinaryMinHeap.py:99-101 | lowering one key of a heap leaves one order violation, between that key and its parent |
| DijkstraHeaps.SiftUpSwap | code/DijkstraBinaryMinHeap.py:101-104 | swapping with the parent moves that violation up one level |
| DijkstraHeaps.SiftUpDone | code/DijkstraBinaryMinHeap.py:101 | at the root, or below a parent that is not larger, the array is a heap again |
| DijkstraHeaps.DijkstraBinaryMinHeap.SiftUp | code/DijkstraBinaryMinHeap.py:100-104 | the triplets are permuted, positions past the start are untouched, and a single violation is repaired into a heap |
| DijkstraHeaps.DijkstraBinaryMinHeap.DecreaseDistance | code/DijkstraBinaryMinHeap.py:90-104 | fails exactly for an unknown node (`NotStored`) or a larger distance (`NotSmaller`), changing nothing; otherwise the triplets are those with that distance lowered, still a heap |
| Distance.Add | code/Dijkstra.py:32 | `d + c` with `inf + c == inf` |
| Distance.Min | code/Dijkstra.py:50-52 | the smaller of two distances, which is one of them |
| Distance.LeFacts | code/Dijkstra.py:33 | `<=` on distances is a total order, compatible with `<`, and adding a cost never lowers a distance |
| Distance.AddCheaper | code/Dijkstra.py:32-33 | a cheaper edge gives a distance no larger |
| Seqs.FirstOf | code/Graph.py:41-45 | the first index of an element, or the length when it is absent |
| Seqs.DistinctFirstOf | code/Graph.py:14-20 | in a list without repetitions, the first index of the element at `i` is `i` |
| Seqs.SetOfSeqSize | code/Graph.py:15-16 | the set of a list is no larger than the list, and is as large exactly when the list has no repetitions |
| Seqs.DistinctSnoc | code/Dijkstra.py:69-70 | appending a new element keeps a list free of repetitions |
| Seqs.FirstOfSnoc | code/Dijkstra.py:103-104 | where an element is first found after one more is appended |
| Seqs.PrefixPop | code/Dijkstra.py:252-255 | popping the last element of a prefix leaves the shorter prefix |
| Seqs.PrefixTrans | code/Dijkstra.py:158-192 | a prefix of a prefix is a prefix |
| Nodes.NewEdge | code/Node.py:71-75 | fails exactly for a negative cost; otherwise an edge with that destination and cost |
| Nodes.MinCost | code/Graph.py:153-156 | the cheapest edge to a destination: `inf` exactly when there is none, no edge cheaper, and attained by some edge |
| Nodes.MinCostUnique | code/Graph.py:153-156 | those three properties determine the cheapest cost |
| Nodes.CoversMinCost | code/Node.py:37-47 | some edge reaches `d` at cost at most `c` exactly when the cheapest cost is at most `c` |
| Nodes.LoweredTransitive | code/Node.py:37-47 | lowering costs twice is a lowering |
| Nodes.LoweredCovers | code/Node.py:37-47 | a lowering keeps every edge available at its cost or less |
| Nodes.ShortcutLowers | code/Node.py:37-49 | `add_shortcut`: one more edge exactly when none led there; edges elsewhere unchanged; the destination reached at the shortcut cost or less |
| Nodes.ShortcutMinCost | code/Node.py:37-49 | after `add_shortcut`, the cheapest cost to its destination is the minimum of the old one and the shortcut cost; other destinations are unchanged |
| Nodes.ShortcutMinCostAt | code/Node.py:37-49 | the case of the shortcut's destination |
| Nodes.ShortcutAtBelow | code/Node.py:39-47 | after `add_shortcut`, no edge to the destination costs less than the old cheapest or the shortcut |
| Nodes.ShortcutAtAttained | code/Node.py:39-49 | after `add_shortcut`, some edge to the destination costs exactly the minimum of the old cheapest and the shortcut |
| Nodes.ShortcutMinCostOther | code/Node.py:37-49 | the case of the other destinations |
| Nodes.ShortcutCovered | code/Node.py:37-49 | a shortcut no cheaper than some edge to its destination changes no cheapest cost |
| Nodes.FirstIndex | code/Node.py:51-55 | the first edge to a destination; the length exactly when there is none |
| Nodes.RemoveFirstFacts | code/Node.py:51-55 | `remove_edge` drops exactly that first edge, if any, and keeps the order of the others |
| Nodes.RemoveAtFacts | code/Node.py:51-55 | removing position `k` shifts the later edges down by one |
| Nodes.RemoveFirstMinCost | code/Node.py:51-55 | removing an edge to `d` leaves the cheapest cost to every other destination |
| Nodes.RemoveFirstRaises | code/Node.py:51-55 | `remove_edge` never lowers a cheapest cost |
| Nodes.RemoveFirstCovers | code/Node.py:51-55 | removing an edge to `d` keeps every other destination reachable at its cost |
| Nodes.ReplaceMinCost | code/Graph.py:157-159 | replacing the first edge to `d` by a no more expensive one makes its cost the cheapest to `d`, others unchanged |
| Nodes.MinBelow | code/Graph.py:153-159 | a cost below every edge to `d` is the new minimum |
| Nodes.MinCostSnoc | code/Node.py:23-24 | appending an edge lowers the cheapest cost of its destination to the minimum of the two |
| Nodes.Node.constructor | code/Node.py:13-15 | a node with its name and no edges |
| Nodes.Node.Value | code/Node.py:17-21 | the node's name and edges as a value |
| Nodes.Node.AddEdge | code/Node.py:23-24 | fails exactly for a negative cost, changing nothing; otherwise appends the edge |
| Nodes.Node.AddShortcut | code/Node.py:37-49 | the edges become the shortcut function of the old edges: every cheaper edge lowered in place, or the shortcut appended |
| Nodes.Node.RemoveEdge | code/Node.py:51-55 | the edges lose their first edge to the destination |
| Reversal.NamesOf | code/Graph.py:15 | the node names, in order |
| Reversal.Reverse | code/Graph.py:53-70 | the reversed graph has the same names in the same order |
| Reversal.TurnedStep | code/Graph.py:60-64 | turning one more edge appends it reversed exactly when it leads to the node |
| Reversal.TurnedCount | code/Graph.py:60-64 | a node's turned edges hold each reversed edge as often as the original holds the edge |
| Reversal.IncomingCount | code/Graph.py:53-70 | the reversed node of `v` holds `w -> c` as often as node `w` holds `v -> c` |
| Reversal.ReverseTwiceCount | code/Graph.py:53-70 | reversing twice gives each node its own edges, counted with multiplicity |
| Reversal.ReverseTwice | code/Graph.py:53-70 | reversing a graph twice restores its names and each node's edges up to order |
| Paths.SumCosts | code/Path.py:28 | the total cost of an edge list, never negative |
| Paths.SumCostsAppend | code/Path.py:28 | total costs add over concatenation |
| Paths.Skip | code/Path.py:48-50 | the nodes that `__add__` connects: only nodes of the list, never the skipped one |
| Paths.ConnectedSnoc | code/Path.py:23-35 | appending a linked node keeps a path connected |
| Paths.ConnectedUnique | code/Path.py:23-30 | the nodes of a connected path determine its edges |
| Paths.ConnectedAppend | code/Path.py:47-51 | two connected paths sharing an end node join into one |
| Paths.Path.constructor | code/Path.py:16-21 | a path at its source: one node, no edges, total cost 0 |
| Paths.Path.AddConnection | code/Path.py:23-35 | fails exactly when the target has no edge to the next node and changes nothing; otherwise appends that node and the first edge to it, adding its cost |
| Paths.Path.Add | code/Path.py:47-51 | connects the other path's nodes other than its source, in order, keeping the path valid with its old edges as a prefix; on success every kept node is added; it fails (the `RuntimeError` of `add_connection`) only at a kept node the current target has no edge to, with the nodes before it already added; appends the whole other path, edges and cost included, when it starts at this path's target |
| Paths.Path.AddEach | code/Path.py:48-50 | the loop of `__add__`: one `add_connection` per kept node, the old edges kept as a prefix; on success every node handled, on failure the node it stopped at is a kept one the target has no edge to |
| Paths.LinkedNext | code/Path.py:48-50 | along a connected other path, each next node is connected to the current target |
| Paths.LinkedResult | code/Path.py:47-51 | when every connection succeeds, the nodes and edges are the two paths joined |
| Paths.SkipSnoc | code/Path.py:48-50 | skipping over one more node |
| Paths.LinkedJoin | code/Path.py:47-51 | joining the two paths adds their total costs |
| Paths.SkipOnlyFirst | code/Path.py:48-50 | when only the first node is the source, skipping it drops just that node |
| Contraction.LeastImportantUnique | code/Graph.py:78-86 | the node `find_a_not_important_node` picks, the last with fewest edges, is unique |
| Contraction.ShortcutThroughMinCost | code/Graph.py:110-113 | one `add_shortcut(w, c1 + c)` lowers the cheapest cost to `w` to the way through that edge, unless `w` is the node handled, and changes no other cheapest cost |
| Contraction.MinCostPrefix | code/Graph.py:109-110 | the cheapest cost over one more edge of the removed node's list |
| Contraction.ViaMinCost | code/Graph.py:109-113 | after the inner loop over the first `j` edges of the removed node, for an edge into it of cost `c1`: the cheapest cost to the node handled is unchanged, to every other destination it is the smaller of the old one and `c1` plus the cheapest of those edges |
| Contraction.ViaLowered | code/Graph.py:109-113 | the inner loop only lowers edges in place or appends them, and every edge it lowers costs at least `c1` |
| Contraction.ThroughLowered | code/Graph.py:102-113 | the outer loop only lowers edges in place or appends them |
| Contraction.ThroughCosts | code/Graph.py:102-107 | an edge to the removed node that the loop has not reached yet costs at least the cheaper of its own cost and the cheapest earlier edge to that node |
| Contraction.ThroughPrefixMin | code/Graph.py:105-107 | when the loop reaches an edge to the removed node, its current cost is the cheapest to that node so far |
| Contraction.ThroughStepOther | code/Graph.py:105 | an edge to another node adds no shortcut |
| Contraction.ThroughViaStep | code/Graph.py:105-113 | an edge to the removed node adds the shortcuts through it at its current cost |
| Contraction.ThroughStepVia | code/Graph.py:105-113 | the outer loop's cheapest-cost invariant across an edge to the removed node |
| Contraction.ThroughMinCostStep | code/Graph.py:102-113 | the outer loop's cheapest-cost invariant, one more edge |
| Contraction.ThroughMinCost | code/Graph.py:102-113 | after the outer loop over the first `i` original edges of `u` (the removed node another node): the cheapest costs to `u` and to the removed node are unchanged, and to every other destination it is the smaller of the old one and the cheapest of those `i` edges into the removed node plus its cheapest edge onwards |
| Contraction.ContractEdgesMinCost | code/Graph.py:101-116 | a node other than the removed one after its pass: the cheapest cost to itself unchanged, to every destination other than the removed node the smaller of the old one and the cheapest way through the removed node, to the removed node no lower than before |
| Contraction.ViaSelfMinCost | code/Graph.py:109-113 | the shortcuts the removed node adds to its own list change none of its cheapest costs |
| Contraction.ShortcutThroughOwn | code/Graph.py:110-113 | a shortcut extending one of the list's own edges changes no cheapest cost |
| Contraction.SelfPassMinCost | code/Graph.py:105-113 | one edge of the removed node to itself changes none of its cheapest costs |
| Contraction.ThroughSelfMinCost | code/Graph.py:102-113 | the removed node's own outer loop changes none of its cheapest costs |
| Contraction.SelfContractMinCost | code/Graph.py:101-116 | the removed node after its pass keeps its cheapest cost to every other node, and the one to itself does not drop |
| Contraction.NextLevel | code/Graph.py:100-118 | the next level has one node fewer and keeps the names of the others, in order |
| Contraction.NextLevelEdges | code/Graph.py:101-118 | each node of the next level is its old node after its pass against the removed node as that node is at that moment |
| Contraction.SeenMinCost | code/Graph.py:101-116 | the removed node's edges, before or after its own pass, have the same cheapest cost to every other node |
| Contraction.NextLevelMinCost | code/Graph.py:100-118 | each node of the next level: the cheapest cost to itself unchanged, to every node but the removed one the smaller of the old one and the cheapest way through the removed node, and nowhere below that |
| Contraction.ShortcutsVia | code/Graph.py:109-113 | the new edges exactly: for another node, the removed node unchanged and the node's edges `Via` of its old ones over every edge the removed node had; for the removed node itself, `ViaSelf` of its old edges |
| Contraction.ContractInto | code/Graph.py:101-116 | the new edges exactly: for another node `u`, the removed node unchanged and `u` its `ContractedNode`, every `add_shortcut` through each edge it had into the removed node and then its first edge to that node removed; for the removed node itself, its `SelfContracted` value |
| Contraction.ContractedStart | code/Graph.py:101 | before the loop nothing is contracted |
| Contraction.ContractedNext | code/Graph.py:101-116 | one more node handled keeps the loop invariant |
| Contraction.ContractedRemoved | code/Graph.py:118 | dropping the removed node after the loop gives the graph without it, with all its shortcuts |
| Contraction.ContractionStepSize | code/Graph.py:118 | a contraction step loses exactly one node |
| Contraction.ContractionStepUnique | code/Graph.py:94-119 | the contraction step of a graph is determined by it |
| Contraction.HierarchyAppend | code/Graph.py:133-135 | appending a contraction of the last level extends a hierarchy |
| Contraction.HierarchyUnique | code/Graph.py:129-136 | two hierarchies of the same length from the same graph are equal |
| Merging.MergedMinCost | code/Graph.py:150-159 | merging one edge makes the cheapest cost to its destination the minimum of the two; others unchanged |
| Merging.MergedLength | code/Graph.py:157-159 | merging an edge to a destination already present keeps the number of edges |
| Merging.MergedOwnMinCost | code/Graph.py:150-159 | merging an edge a node already covers changes no cheapest cost |
| Merging.LevelsMinStep | code/Graph.py:146-159 | the minimum over one more level |
| Merging.MergedNext | code/Graph.py:145-159 | one more node merged keeps the loop invariant |
| Merging.NoCheaperEdge | code/Graph.py:153-156 | `add_edge` is true exactly when no edge to that destination is strictly cheaper |
| Merging.MergeEdges | code/Graph.py:150-159 | every cheapest cost becomes the minimum of the node's own and the other node's; a node merged with itself keeps its cheapest costs |
| Graphs.NodeNames | code/Graph.py:15 | the node names, in order |
| Graphs.ValuesOf | code/Graph.py:38-39 | the nodes as values, with the same names |
| Graphs.UniqueNames | code/Graph.py:15-16 | the name check holds exactly when no name repeats |
| Graphs.NewGraph | code/Graph.py:14-20 | fails exactly on a repeated name; otherwise a valid graph over exactly those nodes |
| Graphs.Graph.Init | code/Graph.py:18 | stores the node list |
| Graphs.Graph.GetNodes | code/Graph.py:38-39 | the nodes |
| Graphs.Graph.GetNode | code/Graph.py:41-45 | None exactly when no node has the name; otherwise the first node with it |
| Graphs.Graph.Copy | code/Graph.py:97 | `deepcopy`: a fresh graph of fresh nodes with the same names and edges |
| Graphs.Graph.FindNotImportantNode | code/Graph.py:78-86 | the last node with fewest edges |
| Graphs.NewNodes | code/Graph.py:56-58 | a fresh node without edges for every name |
| Graphs.IncomingAll | code/Graph.py:60-64 | every node's incoming edges turned around |
| Graphs.IncomingAllStep | code/Graph.py:60-64 | the outer loop's invariant, one more node |
| Graphs.AddTurnedEdges | code/Graph.py:61-64 | succeeds exactly when every edge leads to a node of the graph, appending each edge turned to its destination |
| Graphs.ReversedValues | code/Graph.py:66-70 | the built nodes are the reversed graph |
| Graphs.AllLeadIntoStep | code/Graph.py:60-64 | the outer loop's closedness invariant, one more node |
| Graphs.LeadsIntoStep | code/Graph.py:61-64 | the inner loop's closedness invariant, one more edge |
| Graphs.LeadsOutOpen | code/Graph.py:64 | an edge leading outside the graph means the graph is not closed |
| Graphs.AllLeadIntoClosed | code/Graph.py:60-64 | all edges leading into the graph means the graph is closed |
| Graphs.TurnedAllStep | code/Graph.py:61-64 | one edge turned in the inner loop |
| Graphs.EdgesOf | code/Graph.py:60-64 | every node's edges |
| Graphs.Graph.GetReversedGraph | code/Graph.py:53-70 | fails exactly when some edge leads outside the graph (the `None.add_edge` error); otherwise a fresh valid graph of fresh nodes whose value is the reversal |
| Graphs.Graph.TurnEdges | code/Graph.py:56-64 | fresh nodes named as the graph's; the loop completes exactly when every edge leads into the graph, and then each new node holds the turned edges of all nodes into it, in order |
| Graphs.Without | code/Graph.py:118 | dropping a node drops its value and keeps names distinct |
| Graphs.DistinctWithout | code/Graph.py:118 | dropping an element keeps a list free of repetitions |
| Graphs.ContractEveryNode | code/Graph.py:101-116 | after the loop over all nodes, every node is exactly its pass against the removed node (`AfterPass`): the nodes before it against its original edges, those after it against its edges after its own pass |
| Graphs.Graph.ContractAway | code/Graph.py:101-118 | the node values become exactly `NextLevel` of the old ones at the least important node, which leaves the list: the contraction step |
| Graphs.Graph.RemoveOneNodeAndAddHisShortcuts | code/Graph.py:94-119 | fails exactly for a graph of at most one node; otherwise a fresh valid graph of fresh nodes that is the contraction step of the original, which `Contraction.ContractionStepUnique` shows is determined by it |
| Graphs.MirrorsAppend | code/Graph.py:132-135 | the ghost values still mirror the levels after one more |
| Graphs.Graph.GetContractionHierarchies | code/Graph.py:129-136 | one level per node (one for an empty graph), the first the graph itself, each the contraction step of the one before, so the levels are determined by the graph (`Contraction.HierarchyUnique`) |
| Graphs.MergeLevel | code/Graph.py:147-159 | one level merged into a node: every cheapest cost becomes the minimum of the node's and that level's |
| Graphs.MergeLevels | code/Graph.py:146-159 | every cheapest cost of the node becomes the minimum over all levels |
| Graphs.MergeAll | code/Graph.py:145-159 | every node merged |
| Graphs.Graph.AddShortcuts | code/Graph.py:141-160 | a fresh valid graph with the same names over the graph's contraction hierarchy, in which every node's cheapest cost to every destination is the minimum over all levels (`MergedGraph`); by `ShortcutWalks.MergedNoDearer` and `MergedRealized` its cheapest walks cost what the original's do |
| ShortcutWalks.ChooseWalk | code/Graph.py:121-127 | a realized bound comes with a walk between the two nodes that costs no more |
| ShortcutWalks.RealizesJoin | code/Graph.py:109-113 | a walk to the removed node and one from it realize the sum of their bounds, the cost of a shortcut |
| ShortcutWalks.EdgeWalk | code/Graph.py:105-113 | the walk over one cheapest edge costs that edge |
| ShortcutWalks.RealizedBase | code/Graph.py:129-132 | the first level realizes its own edges |
| ShortcutWalks.RealizedStepAt | code/Graph.py:101-118 | every cheapest cost of the next level is realized by a walk of the original graph |
| ShortcutWalks.RealizedStep | code/Graph.py:94-119 | a contraction step adds no edge cheaper than some walk of the original graph |
| ShortcutWalks.NextLevelDistinct | code/Graph.py:118 | contracting a node keeps the names distinct |
| ShortcutWalks.HierarchyRealized | code/Graph.py:129-136 | every level of the hierarchy has distinct names and is realized by the original graph |
| ShortcutWalks.LevelCostRealized | code/Graph.py:147-152 | the cheapest cost of a realized level from a node is realized |
| ShortcutWalks.LevelsMinRealized | code/Graph.py:145-159 | the cheapest cost over all levels is realized |
| ShortcutWalks.LevelsMinBelowFirst | code/Graph.py:145-159 | the cheapest cost over all levels is at most the first level's |
| ShortcutWalks.MergedStepNoDearer | code/Graph.py:145-159 | a step costs no more in the graph `add_shortcuts` returns than in the original |
| ShortcutWalks.MergedNoDearer | code/Graph.py:141-160 | no walk costs more in the graph `add_shortcuts` returns than in the original |
| ShortcutWalks.MergedStepRealized | code/Graph.py:141-160 | every step of the returned graph is realized by a walk of the original |
| ShortcutWalks.MergedRealized | code/Graph.py:141-160 | every walk of the returned graph is matched by a walk of the original between the same nodes that costs no more: shortcuts never undercut a shortest walk |
| ShortestPaths.AtSettled | code/Dijkstra.py:26 | with distinct names, a settled triplet is the one found by its name |
| ShortestPaths.SettledNode | code/Dijkstra.py:24-26 | every node of the graph is settled, with its own node value |
| ShortestPaths.RelaxedEdge | code/Dijkstra.py:30-35 | every edge of a settled node leads to a settled node whose distance it does not improve |
| ShortestPaths.WalkStep | code/Dijkstra.py:30-35 | a walk costs its prefix plus the cheapest last step |
| ShortestPaths.ExtendWalk | code/Dijkstra.py:30-35 | extending a walk by one node adds the cheapest step to it |
| ShortestPaths.LowerBoundStep | code/Dijkstra.py:30-35 | the lower bound carries over one step |
| ShortestPaths.LowerBound | code/Dijkstra.py:16-36 | no walk from the source to a settled node costs less than its distance |
| ShortestPaths.Predecessor | code/Dijkstra.py:34-35 | a predecessor was settled earlier and its edge accounts exactly for the distance |
| ShortestPaths.AttainedSource | code/Dijkstra.py:22 | the finite distance of a node without predecessor is the source's 0 |
| ShortestPaths.AttainedStep | code/Dijkstra.py:34-35 | a walk to the predecessor, plus the edge, attains the distance |
| ShortestPaths.Attained | code/Dijkstra.py:16-36 | every finite distance is the cost of a walk from the source |
| ShortestPaths.ShortestDistances | code/Dijkstra.py:16-36 | for a Dijkstra outcome: no walk is cheaper than the distance, every finite distance is attained by a walk, and unreached nodes have no predecessor |
| ShortestPaths.OutcomeClosed | code/Dijkstra.py:30-33 | the source returns an outcome only when every edge leads into the graph |
| Dijkstra.InitialTable | code/Dijkstra.py:17-19 | the initial heap holds each node of the graph once, at `inf`, without predecessor |
| Dijkstra.InitialProgress | code/Dijkstra.py:17-22 | after lowering the source to 0, the run invariant holds with nothing settled |
| Dijkstra.InitialRun | code/Dijkstra.py:17-22 | the heap after `decrease_distance(source, 0)` starts a run |
| Dijkstra.SettledSnoc | code/Dijkstra.py:25-26 | settling a new triplet keeps the settled part consistent with the heap |
| Dijkstra.SortedSnoc | code/Dijkstra.py:25-26 | the extracted root is no closer than any node settled before |
| Dijkstra.JustifiedGrow | code/Dijkstra.py:25-26 | a justification survives settling more triplets |
| Dijkstra.JustifiedSnoc | code/Dijkstra.py:25-26 | settling a triplet keeps every justification |
| Dijkstra.RelaxedSnoc | code/Dijkstra.py:25-30 | a newly settled node starts with no edge relaxed |
| Dijkstra.ExtractStep | code/Dijkstra.py:25-26 | settling the nearest unsettled node keeps the run invariant |
| Dijkstra.InHeap | code/Dijkstra.py:24-33 | a node that is not settled is still in the heap part |
| Dijkstra.LinkedTail | code/Dijkstra.py:24-26 | everything past the heap part is settled |
| Dijkstra.LinkedExtractShape | code/Dijkstra.py:25-26 | removing the root moves it just past the heap part and keeps the table |
| Dijkstra.LinkedExtractRoot | code/Dijkstra.py:25 | the root is an unsettled node of the table |
| Dijkstra.LinkedExtractNearest | code/Dijkstra.py:25 | the root is nearest among the unsettled nodes |
| Dijkstra.RelaxUnsettled | code/Dijkstra.py:33-35 | an edge that improves a distance leads to an unsettled node |
| Dijkstra.RelabelTabled | code/Dijkstra.py:34-35 | relabelling a node keeps its graph node |
| Dijkstra.RelabelSettled | code/Dijkstra.py:34-35 | relabelling an unsettled node keeps the settled part |
| Dijkstra.RelabelFrontier | code/Dijkstra.py:34-35 | a new distance at least the current one keeps the frontier |
| Dijkstra.RelabelNonNegative | code/Dijkstra.py:32-35 | distances stay non-negative |
| Dijkstra.RelabelSourceZero | code/Dijkstra.py:22 | relabelling another node keeps the source at 0 |
| Dijkstra.RelaxedLowered | code/Dijkstra.py:34 | lowering distances keeps relaxed edges relaxed |
| Dijkstra.RelabelRelaxed | code/Dijkstra.py:33-35 | after the improvement, one more edge is relaxed |
| Dijkstra.RelabelJustified | code/Dijkstra.py:34-35 | the new predecessor justifies the new distance |
| Dijkstra.RelaxStep | code/Dijkstra.py:33-35 | an improving edge keeps the run invariant with one more edge done |
| Dijkstra.SkipStep | code/Dijkstra.py:33 | a non-improving edge keeps the run invariant with one more edge done |
| Dijkstra.SkipRelaxed | code/Dijkstra.py:33 | a non-improving edge is relaxed |
| Dijkstra.RelaxRun | code/Dijkstra.py:33-35 | the heap after an improvement continues the run |
| Dijkstra.EdgeRun | code/Dijkstra.py:30-35 | either branch of one edge continues the run |
| Dijkstra.LinkedDecrease | code/Dijkstra.py:34 | `decrease_distance` changes the table at that name only |
| Dijkstra.LinkedSameTail | code/Dijkstra.py:34-35 | the settled part past the heap is unchanged |
| Dijkstra.LinkedPrecede | code/Dijkstra.py:35 | `set_predecessor_of_a_node` changes the table at that name only |
| Dijkstra.LeavesGraph | code/Dijkstra.py:33 | an edge to a node outside the heap means the graph is not closed |
| Dijkstra.FinalNames | code/Dijkstra.py:24-36 | at the end every node of the heap is settled with its table entry |
| Dijkstra.FinalTable | code/Dijkstra.py:24-36 | at the end the result's table is the heap's |
| Dijkstra.MapEq | code/Dijkstra.py:24-36 | two tables equal key by key are equal |
| Dijkstra.FinalSettles | code/Dijkstra.py:24-36 | at the end every node is settled once |
| Dijkstra.FinalJustified | code/Dijkstra.py:24-36 | at the end every predecessor is justified |
| Dijkstra.FinalOutcome | code/Dijkstra.py:24-36 | an empty heap ends the run with a Dijkstra outcome |
| Dijkstra.ExtractRun | code/Dijkstra.py:25-26 | extracting the root continues the run with one more settled triplet |
| Dijkstra.RelabelInTwo | code/Dijkstra.py:34-35 | lowering and then setting the predecessor is one relabelling |
| Dijkstra.TakeRoot | code/Dijkstra.py:25 | removes the minimum; the heap shrinks by one, stays valid over the same triplets, and the root sits just past it |
| Dijkstra.SettleRoot | code/Dijkstra.py:25-26 | the root taken out is the next settled triplet of the run |
| Dijkstra.Improve | code/Dijkstra.py:34-35 | lower a distance and set the predecessor: the table is relabelled at that name, and the heap stays valid |
| Dijkstra.ExploreEdge | code/Dijkstra.py:31-35 | one edge: fails exactly when it leads to an unknown node; otherwise the run continues with one more edge done |
| Dijkstra.ExploreEdges | code/Dijkstra.py:30-35 | all edges of the settled node: fails exactly when one leads outside the graph; otherwise every edge is relaxed |
| Dijkstra.StartHeap | code/Dijkstra.py:17-22 | with the corrected build: fails exactly when the source is not a node (`decrease_distance` raises); otherwise a valid heap starting a run |
| Dijkstra.SettleAll | code/Dijkstra.py:17-36 | with the corrected build: fails exactly when the source is not a node or an edge leads outside the graph; otherwise the result is a Dijkstra outcome |
| Dijkstra.BinaryHeapDijkstra | code/Dijkstra.py:16-36 | the same on a `Graph`, with the corrected build: failure exactly on a missing source or an edge out of the graph, otherwise a Dijkstra outcome, hence shortest distances |
| Searches.Keys | code/Dijkstra.py:48 | the keys of a dictionary in insertion order |
| Searches.Put | code/Dijkstra.py:103-104 | `d[v] = x`: an existing key keeps its place and node and changes its value, a new key goes last; nothing else changes |
| Searches.PopKey | code/Dijkstra.py:72 | `pop`: the entry of that key leaves, the others keep their order |
| Searches.PopKeyKeys | code/Dijkstra.py:72 | after `pop`, the keys are the others, still distinct |
| Searches.PopKeyMember | code/Dijkstra.py:72 | a key survives `pop` exactly when it is another key |
| Searches.Unreached | code/Dijkstra.py:39-41 | all the graph's nodes as keys, in order |
| Searches.Unpreceded | code/Dijkstra.py:39-42 | every node of the graph without predecessor |
| Searches.InitializeSearch | code/Dijkstra.py:39-42 | the two dictionaries: every node at `inf`, every predecessor None |
| Searches.StartSearching | code/Dijkstra.py:100-104 | a direction starting at a node of the graph satisfies its invariant |
| Searches.StartKeys | code/Dijkstra.py:100-104 | the start dictionary has distinct keys, including the start |
| Searches.StartNearest | code/Dijkstra.py:45-55 | the nearest key at the start is the start node, at 0 |
| Searches.NearestUnique | code/Dijkstra.py:45-55 | the nearest key is determined: the first of the least distance, or the first key when all are `inf` |
| Searches.NearestAmong | code/Dijkstra.py:45-55 | the index the scan of `__find_nearest_node` keeps after the first `n` keys is a nearest among them |
| Searches.NearestIsAmong | code/Dijkstra.py:45-55 | the nearest key is the one the whole scan keeps |
| Searches.FindNearestNode | code/Dijkstra.py:45-55 | None exactly for an empty dictionary; otherwise that nearest key's node |
| Searches.Relax | code/Dijkstra.py:59-66 | one edge relaxed leaves the keys and the result as they were |
| Searches.RelaxAll | code/Dijkstra.py:59-66 | the whole loop leaves the keys and the result as they were |
| Searches.RelaxAllKeepsOwn | code/Dijkstra.py:59-66 | the explored node's own distance and predecessor are unchanged |
| Searches.RelaxEntry | code/Dijkstra.py:60-66 | what one relaxation does to each entry |
| Searches.PlusMinLower | code/Dijkstra.py:63 | an improvement is the new cheapest step |
| Searches.PlusMinKeep | code/Dijkstra.py:63 | a non-improvement keeps the bound |
| Searches.ImprovedStep | code/Dijkstra.py:59-66 | the loop invariant, one more edge |
| Searches.RelaxAllImproves | code/Dijkstra.py:59-66 | after the loop every key's distance is at most the explored distance plus the cheapest edge, and exactly that when improved, with the explored node as predecessor |
| Searches.AccountsGrow | code/Dijkstra.py:69-70 | an account stays valid as more is settled |
| Searches.ImprovedAccounts | code/Dijkstra.py:62-66 | an improved distance is accounted for by the explored node |
| Searches.SettleSearched | code/Dijkstra.py:69-70 | appending an accounted triplet keeps the result a search result |
| Searches.SettlePending | code/Dijkstra.py:58-72 | after exploring and popping, the dictionaries satisfy their invariant |
| Searches.ExploreKeeps | code/Dijkstra.py:58-72 | exploring the nearest reached key succeeds, appends its triplet, pops it, and keeps the invariant |
| Searches.ExploredKeys | code/Dijkstra.py:58-72 | exploring pops the key: one key fewer, keys still distinct, finite results kept finite |
| Searches.SettledFirst | code/Dijkstra.py:103-104 | a search that settled anything settled its start first |
| Searches.SettledAt | code/Dijkstra.py:69-70 | a settled node is the graph's node at a finite distance, accounted for by its predecessor, and at 0 when it is the start |
| Searches.ExploreNodeNeighbors | code/Dijkstra.py:58-72 | fails exactly when the explored node has no predecessor entry (the `KeyError`) |
| Continuation.NearestBeyond | code/Dijkstra.py:168 | when the nearest key is beyond the terminator, every key is |
| Continuation.ContinueStep | code/Dijkstra.py:159-174 | one step: either stops with every key beyond the terminator, or settles one more node within it, keeping the invariant |
| Continuation.WithinTerminator | code/Dijkstra.py:168-174 | settling one more node within the bound keeps every node settled since the start of the loop within it |
| Continuation.ContinueSearch | code/Dijkstra.py:159-192 | the continued search keeps the invariant and every settled node's edges relaxed, only appends to the result, settles only nodes within the terminator, leaves every key beyond it, and is the value `Continued` |
| Frontiers.StartFrontier | code/Dijkstra.py:100-104 | a direction that has settled nothing satisfies the relaxation invariant |
| Frontiers.AtSnoc | code/Dijkstra.py:69-70 | a settled node keeps its triplet when another is settled after it |
| Frontiers.AtLast | code/Dijkstra.py:69-70 | the node just settled is found with its triplet at the end |
| Frontiers.PopKeyDistOf | code/Dijkstra.py:72 | `pop` leaves the distance of every other key |
| Frontiers.ImprovedBounds | code/Dijkstra.py:59-66 | relaxing never raises a key and never lowers it below the explored node |
| Frontiers.PlusMinCostEdge | code/Dijkstra.py:60-63 | the cheapest edge to a node is no dearer than any edge to it |
| Frontiers.StepKey | code/Dijkstra.py:58-72 | a key other than the settled one stays a key, no further than before, no nearer than the settled node, and within the settled node plus its cheapest edge |
| Frontiers.StepKeyAt | code/Dijkstra.py:58-72 | every key after the step is no nearer than the settled node |
| Frontiers.StepKeysAbove | code/Dijkstra.py:58-72 | after the step no key is nearer than a settled node |
| Frontiers.StepOldEdge | code/Dijkstra.py:58-72 | an edge of a node settled before the step stays relaxed |
| Frontiers.StepNewEdge | code/Dijkstra.py:58-72 | every edge of the node the step settles is relaxed |
| Frontiers.ExploreFrontier | code/Dijkstra.py:58-72 | exploring the nearest key at a finite distance succeeds and keeps the relaxation invariant |
| Frontiers.NearestUnreached | code/Dijkstra.py:117-119 | when the nearest key is unreached, every key is |
| Frontiers.UnreachedKey | code/Dijkstra.py:117-119 | a key of an all-unreached dictionary is unreached |
| Frontiers.ExhaustiveSearch | code/Dijkstra.py:117-119 | a direction whose keys are all unreached has settled its start at 0, and every edge of a settled node lands on a settled node within it |
| Frontiers.ExhaustedStep | code/Dijkstra.py:58-66 | one cheapest edge from a settled node of an exhaustive direction lands on a settled node no further than the two together |
| Frontiers.Exhausted | code/Dijkstra.py:110-146 | a walk of finite cost from the start of an exhaustive direction ends at a settled node no further than the walk costs |
| Bidirectional.TakeTurn | code/Dijkstra.py:114-123 | one turn: fails exactly on the first turn from a start outside the graph; otherwise either all keys are unreached or one more node is settled, keeping the invariant |
| Bidirectional.AlternateSearch | code/Dijkstra.py:108-146 | fails exactly on a source outside the graph, or a target outside one with two nodes or more; otherwise both directions are consistent and the loop stopped for one of its reasons |
| Bidirectional.TurnOf | code/Dijkstra.py:114-123 | a turn that settles a node leaves one key fewer, without the settled name, keys distinct, and finite results finite |
| Bidirectional.NextTurn | code/Dijkstra.py:110-146 | a pass that goes on strictly shrinks the two dictionaries and keeps keys distinct and results finite; a pass that is done keeps them too |
| Bidirectional.Alternation | code/Dijkstra.py:108-146 | what the loop leaves keeps keys distinct and results finite |
| Bidirectional.TraceGrows | code/Dijkstra.py:110-146 | a pass that goes on extends the trace of the loop |
| Bidirectional.TraceEnds | code/Dijkstra.py:110-146 | a pass that is done completes the trace |
| Bidirectional.TraceAlternation | code/Dijkstra.py:108-146 | every trace of the loop ends where `Alternation` from the first pass does |
| Bidirectional.AlternationContinues | code/Dijkstra.py:110-146 | a pass that goes on leaves the rest of the loop to the next pass |
| Bidirectional.AlternationDone | code/Dijkstra.py:110-146 | a pass that is done ends the loop with its result |
| Bidirectional.Pass | code/Dijkstra.py:110-146 | one pass is `NextTurn`: it keeps the loop invariant or ends the loop as `Ended` describes |
| Bidirectional.ForwardPass | code/Dijkstra.py:111-128 | the same for an even pass, the forward turn |
| Bidirectional.BackwardPass | code/Dijkstra.py:129-146 | the same for an odd pass, the backward turn |
| Bidirectional.EvenPass | code/Dijkstra.py:109-128 | on the first pass both directions are their starts; on a later even pass both have settled their starts |
| Bidirectional.OddPass | code/Dijkstra.py:129-146 | on an odd pass the forward direction has settled the source and the graph has a second node |
| Bidirectional.SettledElsewhere | code/Dijkstra.py:125-127 | a node of the graph that is no longer a key of a direction was settled by it |
| Bidirectional.MetAt | code/Dijkstra.py:125-127 | a node settled by both directions makes them meet |
| Bidirectional.BothEnded | code/Dijkstra.py:110-146 | directions that have settled their starts and stopped as the loop stops end it as `Alternated` describes |
| Bidirectional.StartAlternating | code/Dijkstra.py:100-109 | before the first pass the loop invariant holds |
| Bidirectional.EmptyEnds | code/Dijkstra.py:110 | a loop that stops on an empty dictionary ends as `Alternated` describes |
| Bidirectional.AlternatedMeets | code/Dijkstra.py:110-146 | when a walk of finite cost leads from the source to the target, the loop stops with a node settled by both |
| Bidirectional.MetGrows | code/Dijkstra.py:158-192 | a node settled by both stays so as each direction settles more |
| Bidirectional.Turns | code/Dijkstra.py:94-156 | on success both result lists are non-empty and finite and the keys distinct |
| Bidirectional.BothContinued | code/Dijkstra.py:150-192 | continuing each direction up to its terminator gives `BothDirections` |
| Bidirectional.SearchTurns | code/Dijkstra.py:94-146 | fails exactly when the source or target is not a node or the graph has a single node (the `IndexError` of lines 151-153), with the right error; otherwise both directions have settled their start, keep every edge of a settled node relaxed (`Frontier`), have settled a common node when a walk of finite cost leads from source to target, and are the value `Turns` of the alternating loop |
| Bidirectional.BeforeLast | code/Dijkstra.py:151-156 | `R[len(R) - 2]`: the triplet before the last, or the last itself for one triplet |
| Bidirectional.SearchBoth | code/Dijkstra.py:94-192 | the same failures; otherwise both continued directions keep their invariant, have settled a common node when the target is reachable, and are the value `BothDirections` |
| Bidirectional.ResultDictionary | code/Dijkstra.py:199-203 | the settled names, each with its last triplet; the table of the result when names are distinct |
| Bidirectional.MetThrough | code/Dijkstra.py:206-214 | some common name has a finite sum exactly when the two directions met |
| Bidirectional.ChooseMeet | code/Dijkstra.py:205-222 | None exactly when every common sum is unreached; otherwise the graph's node of a common name with the least sum |
| Bidirectional.BackwardStep | code/Dijkstra.py:234-236 | a backward predecessor was settled earlier and is reached over an edge that accounts for the distance |
| Bidirectional.ForwardStep | code/Dijkstra.py:246-247 | a forward predecessor was settled earlier and its edge accounts for the distance |
| Bidirectional.BackwardLink | code/Dijkstra.py:234-236 | the backward chain extends by the predecessor found in the dictionary |
| Bidirectional.Connect | code/Dijkstra.py:236 | `add_connection` along an existing edge appends the node |
| Bidirectional.BackwardHop | code/Dijkstra.py:233-239 | one step of the backward loop goes to an earlier-settled node and extends the chain |
| Bidirectional.BackwardNext | code/Dijkstra.py:234-235 | the node looked up by the backward predecessor's name: the chain's last node has an edge to it, the backward direction settled it earlier, and it extends the chain |
| Bidirectional.NamedValue | code/Dijkstra.py:235 | `get_node` of a name of the graph: the node of that name |
| Bidirectional.BackwardPath | code/Dijkstra.py:229-239 | a path from the meeting node to the target whose walk costs the meeting node's backward distance |
| Bidirectional.ForwardLink | code/Dijkstra.py:246-248 | the forward chain extends by its predecessor |
| Bidirectional.ForwardQueue | code/Dijkstra.py:241-250 | the queue from the meeting node back to the source, along forward predecessors |
| Bidirectional.ForwardHop | code/Dijkstra.py:254-255 | one node popped and connected keeps the forward invariant |
| Bidirectional.ForwardPath | code/Dijkstra.py:252-255 | a path from the source to the meeting node along the queue, whose walk costs the meeting node's forward distance |
| Bidirectional.Append | code/Dijkstra.py:258 | `forward_path + backward_path` appends the second path after its first node |
| Bidirectional.JoinPaths | code/Dijkstra.py:224-258 | a fresh valid path from source to target through the meeting node, whose walk costs the two distances together |
| Bidirectional.MeetValue | code/Dijkstra.py:222 | the graph's node of the meeting name |
| Bidirectional.Conclude | code/Dijkstra.py:194-260 | the answer: no path exactly when no node was settled by both; otherwise a joined path through a best meeting node |
| Bidirectional.Concluded | code/Dijkstra.py:196-260 | an answer carrying the result lists of `BothDirections` is the outcome of both searches (`FromBoth`) |
| Bidirectional.JoinSides | code/Dijkstra.py:194-260 | the answer is `Found` and `FromBoth`, with no path exactly when the target is unreachable |
| Answers.FoundReaches | code/Dijkstra.py:205-226 | given that the directions meet when the target is reachable, an answer has no path exactly when it is unreachable |
| Bidirectional.ReversedNodes | code/Dijkstra.py:92 | fails exactly when an edge leads outside the graph; otherwise the reversed graph |
| Bidirectional.SearchAndJoin | code/Dijkstra.py:94-260 | fails exactly on a missing source or target or a single node, with the error the source raises; otherwise the promised answer (`Found`) over the result lists `BothDirections` computes, with no path exactly when no walk of finite cost leads from the source to the target |
| Bidirectional.JoinOrFail | code/Dijkstra.py:194-260 | a failure of the searches is passed on unchanged; otherwise the answer is `Found` over the result lists `BothDirections` computes, with no path exactly when the target is unreachable |
| Bidirectional.BidirectionalDijkstra | code/Dijkstra.py:90-260 | fails exactly when the graph cannot be reversed, the source or target is missing, or there is a single node; otherwise the result lists `BothDirections` computes, and a path exactly when a walk of finite cost leads from the source to the target, through a node whose forward plus backward distance is least among those both settled, along a walk of that cost |
| Radius.LopsidedReversed | code/Graph.py:53-70 | the reversed lopsided graph turns every edge around, keeping the order of the nodes |
| Radius.LopsidedAlternation | code/Dijkstra.py:108-146 | on the lopsided graph the alternating loop stops after six passes, with `m` settled by both directions |
| Radius.LopsidedTurns | code/Dijkstra.py:94-146 | the searches after the alternating loop on the lopsided graph |
| Radius.LopsidedTerminators | code/Dijkstra.py:151-156 | both terminators are `6 + 6 - 5 = 7` |
| Radius.ForwardStays | code/Dijkstra.py:159-174 | the nearest forward key, `t` at 10, is beyond 7: the forward continuation settles nothing |
| Radius.BackwardStays | code/Dijkstra.py:177-192 | the nearest backward key, `s` at 10, is beyond 7: the backward continuation settles nothing |
| Radius.LopsidedBoth | code/Dijkstra.py:94-192 | what both directions settle on the lopsided graph |
| Radius.LopsidedRuns | code/Dijkstra.py:90-104 | the lopsided graph is closed and holds the source, the target and more than one node, so an answer is returned |
| Radius.DirectCost | code/Dijkstra.py:85-86 | the walk over the direct edge costs 10 |
| Radius.MidSum | code/Dijkstra.py:205-222 | `m` is settled by both directions, at 6 from each end |
| Radius.MeetsAtMid | code/Dijkstra.py:205-222 | `m` is the only name both directions settle |
| Radius.DetourReturned | code/Dijkstra.py:151-260 | whatever `bidirectional_dijkstra` returns on the lopsided graph routes through `m` and costs 12, while the direct walk costs 10 |
| Meeting.CoveredSearch | code/Dijkstra.py:159-170 | a direction whose keys are all beyond `r` has covered everything within `r` |
| Meeting.CoveredStep | code/Dijkstra.py:58-66 | a cheapest edge from a settled node that ends within `r` lands on a settled node no further than the two together |
| Meeting.CoveredWalk | code/Dijkstra.py:159-192 | a walk from the start costing at most `r` ends at a node settled no further than the walk costs |
| Meeting.MeetFromWitness | code/Dijkstra.py:205-222 | a finite meeting bound is the sum of the two distances of a name settled by both |
| Meeting.MeetFromFinite | code/Dijkstra.py:205-222 | with finite distances, a name settled by both makes the bound finite |
| Meeting.MeetSumInf | code/Dijkstra.py:205-222 | with finite distances, the meeting bound is `inf` exactly when no name is settled by both |
| Meeting.MeetFromIndex | code/Dijkstra.py:205-222 | a finite bound comes from a forward triplet whose name the backward direction settled |
| Meeting.AtPrefix | code/Dijkstra.py:158-192 | a growing settled list keeps the triplet of every name it had |
| Meeting.Unmatched | code/Dijkstra.py:205-226 | without a walk from source to target there is no walk to match |
| Meeting.MeetingMatched | code/Dijkstra.py:148-192 | with both directions continued up to the cost of the walk through a node settled by both, every walk from source to target is matched by a common node whose two distances add up to no more |
| Meeting.RouteShortest | code/Dijkstra.py:205-258 | a route through the best meeting node of matched directions costs no more than any walk from source to target |
| Meeting.SearchMeeting | code/Dijkstra.py:94-192 | the corrected searches fail as the original does; otherwise they keep their invariant, meet when the target is reachable, match every walk from source to target, and are `MeetingDirections` |
| Meeting.JoinMeeting | code/Dijkstra.py:194-260 | after the corrected searches, the answer is `Found`, has no path exactly when the target is unreachable, and its path is a shortest walk |
| Meeting.MeetingDijkstra | code/Dijkstra.py:90-260 | with the corrected continuation bound: fails exactly as the original; otherwise a path exactly when the target is reachable, and that path is a shortest walk from source to target |
| Meeting.MeetOnNodes | code/Dijkstra.py:94-260 | with the corrected continuation bound, on the graph's nodes and their reverse: fails exactly as the original; otherwise a path exactly when the target is reachable, and that path is a shortest walk |
| Meeting.MeetingSides | code/Dijkstra.py:94-192 | the corrected searches fail exactly on a missing source or target or a graph of fewer than two nodes; otherwise they keep their invariant, meet when the target is reachable and match every walk from source to target |
| Meeting.MeetOrFail | code/Dijkstra.py:194-260 | a failure of the corrected searches is passed on; otherwise the answer is `Found`, has a path exactly when the target is reachable, and that path is a shortest walk |
| Walks.MinCostCounted | code/Graph.py:60-64 | equal edge counts give equal cheapest costs |
| Walks.MinCostReversed | code/Graph.py:53-70 | the cheapest edge `y -> x` of the reversed graph costs what the cheapest `x -> y` of the graph costs |
| Walks.ReversedWalk | code/Graph.py:53-70 | a walk of finite cost, read backwards, is a walk of finite cost of the reversed graph |
| Walks.WalkCostJoin | code/Dijkstra.py:258 | joining two walks adds their costs |
| Walks.LinkCost | code/Path.py:23-30 | the edge `add_connection` takes costs at least the cheapest, and exactly that without parallel edges |
| Walks.PathCost | code/Path.py:23-35 | a connected path costs at least the cheapest walk through its nodes, and exactly that without parallel edges |
| Walks.JoinCost | code/Path.py:47-51 | the joined path is a walk costing the two walks together, and its edges cost at least that |
| ParallelEdges.ParallelLink | code/Path.py:23-30 | on a node with edges `a -> b` of cost 5 then 1, the only connected path from `a` to `b` takes the edge of cost 5 while the cheapest walk costs 1 |
| ParallelEdges.CheapestEdge | code/Path.py:25-30 | an edge of the list to the destination whose cost is the cheapest |
| ParallelEdges.CheapestPathCost | code/Path.py:23-35 | a path linked by cheapest edges costs exactly the cheapest walk through its nodes, parallel edges or not |
| ParallelEdges.FirstIsCheapest | code/Path.py:25-30 | without parallel edges, the first edge `add_connection` takes is the cheapest one |
| Trails.BackwardStart | code/Dijkstra.py:230 | the backward path starts at the meeting node |
| Trails.BackwardExtend | code/Dijkstra.py:233-239 | an earlier-settled backward predecessor extends the backward chain |
| Trails.BackwardDone | code/Dijkstra.py:238-239 | at the target, the backward walk costs the meeting node's backward distance |
| Trails.BackwardOnce | code/Dijkstra.py:233-239 | the meeting node appears only at the start of the backward path |
| Trails.ChainExtend | code/Dijkstra.py:245-250 | a forward predecessor extends the chain |
| Trails.ForwardStart | code/Dijkstra.py:253 | the forward path starts at the source |
| Trails.ForwardExtend | code/Dijkstra.py:254-255 | the next node of the queue is connected to the path's last node and extends it |
| Trails.JoinWalks | code/Dijkstra.py:258 | the joined walk runs from source to target through the meeting node and costs its two distances together |
| Trails.JoinedReaches | code/Dijkstra.py:224-258 | a joined walk shows the target reachable from the source |
| Trails.WalkReaches | code/Dijkstra.py:224-258 | a walk of finite cost from `s` to `t` makes `t` reachable |
| Fixture.SampleShape | code/Main.py:6-37 | the demo graph has distinct names and every edge leads into it |
| Fixture.WalkBound | code/Main.py:6-37 | no walk from A is cheaper than the expected distance of where it ends |
| Fixture.CheapestSteps | code/Main.py:6-37 | the settlement order is connected by tight edges |
| Fixture.RouteAt | code/Main.py:6-37 | the first `r + 1` nodes of the settlement order form a walk from A costing at most the `r`-th distance |
| Fixture.Route | code/Main.py:6-37 | every node has a walk from A costing at most its expected distance |
| Fixture.SampleTight | code/Main.py:6-37 | the only edges that attain a distance lead to the next node in the settlement order |
| Fixture.Determined | code/Main.py:48-52 | in a graph shaped like the demo, a Dijkstra outcome from A is fully determined |
| Fixture.SampleOutcome | code/Main.py:6-52 | Dijkstra from A on the demo graph settles A, D, B, C, E, F at 0, 1, 3.2, 4.2, 6.2, 7.2, with predecessors None, A, D, B, C, E |

## Left out

- Floating point: costs and distances are exact reals. `float('inf')` is the `Inf` case of a distance. Rounding is not modelled, so `3.2` is exactly 3.2.
- Python `int` and `float` costs are both reals. The source's `Number` annotations mean nothing more.
- Printing and string forms: every `__repr__`, `DijkstraResult` (a wrapper whose only behaviour is printing) and the `__main__` blocks of code/Graph.py and code/Dijkstra.py are not modelled. For code/Main.py only the first demo is modelled: the graph and the `binary_heap_dijkstra` call. The rest, which only prints, is not.
- Node identity: in the source, nodes compare and hash by name (code/Node.py:26-30). The model keys nodes by name and carries each node's edges as a value snapshot. Node objects are kept only where a method changes edges in place.
- `Edge.set_cost`: the model replaces the edge in the list rather than updating a shared `Edge` object in place. No other holder of that object is modelled, so the aliasing effect is not captured.
- `deepcopy` is `Graph.Copy`: fresh nodes with the same names and edges. Edges in the copy are values, so no sharing with the original is modelled.
- Python dictionaries are modelled as insertion-ordered sequences of entries, or as maps when order does not matter. Exceptions are modelled as `Result`/`Outcome` failures.
- `BinaryMinHeap.child`, `get`, the `LEFT`/`RIGHT` constants, the unused `selector` parameter and the `min_order` default are not modelled. No core code calls them; the model always passes an order.
- `find_a_not_important_node`'s global `node_to_delete` is a local result. It is only read after it is set, because the method is only called on graphs with at least two nodes.
- The `if current_triplet[1] == positive_infinity: pass` of code/Dijkstra.py:27-28 does nothing and is not modelled.
- `remove_one_node_and_add_his_shortcuts(node_to_remove)`: only the default argument (None, so the least important node is removed) is modelled, because no core caller passes a node.
- Graphs.Graph.RemoveOneNodeAndAddHisShortcuts: `new_graph._nodes.remove(node_to_remove)` compares by name, which is the first node of that name. The model removes the position of the chosen node, which is the same node because names are distinct.
- DijkstraHeaps.NewDijkstraBinaryMinHeap: builds its heap with the corrected `_build_heap` (`BuildHeapCorrected`), so one zipped triplet gives a heap. The source raises `TypeError` there (code/BinaryMinHeap.py:83), and it does so before the size test of code/DijkstraBinaryMinHeap.py:54, so one zipped triplet beside lists of other sizes also raises `TypeError`, not `ValueError`.
- Dijkstra.StartHeap: through `NewDijkstraBinaryMinHeap`, a graph of one node gives a heap of one triplet where the source raises `TypeError`.
- Dijkstra.SettleAll: a graph of one node succeeds with the source settled at 0, where the source raises `TypeError` while building the heap.
- Dijkstra.BinaryHeapDijkstra: a graph of one node, e.g. `binary_heap_dijkstra(Graph([A]), A)`, returns `[(A, 0, None)]` where the source raises `TypeError`; the failure cases of the contract are the others.
- Bidirectional.ChooseMeet: the source loops over a `set` in hash order. The model visits the common names in an order it leaves open, and proves the result for every such order. With a tie in the least sum, the node kept depends on that order.
- Bidirectional.BidirectionalDijkstra: the returned path is not promised to be a shortest one, because the terminators of lines 151-156 do not guarantee it (see "## Findings"). Its walk costs the forward plus the backward distance of the meeting node, and its edges cost at least that: exactly that only when no node has two edges to the same destination (`Walks.SingleEdges`), because `add_connection` takes the first edge (see "## Findings").
- ParallelEdges.CheapestEdge: the corrected edge choice is stated on values. The `Path` class keeps the first-edge choice of `add_connection`, so `Meeting.MeetingDijkstra` promises a shortest walk through the path's nodes, and the path's own total cost equals it only without parallel edges.
- Meeting.MeetingDijkstra: the corrected continuation bound is one fix among several. Each direction is continued up to the cost of the walk through the first node that the alternating loop left settled by both, which is enough for a shortest path; the source's own bound is kept in `Bidirectional.BidirectionalDijkstra`.
- Paths.Path.Add: `node is not other._source` is object identity. The model compares node values, and within one path the same node value is the same node object.
- The `while True ... break` loops of code/Dijkstra.py:233-250 are written as condition loops. The condition is the loop's own exit test.
- Continuation.ContinueStep: the terminators are real numbers. When a distance is `inf`, the loop stops before comparing with the terminator, as the source does.

## Findings

| source | as written | input that shows it | evidently intended | confidence | as-written member | corrected member |
|---|---|---|---|---|---|---|
| code/BinaryMinHeap.py:83 | `range(BinaryMinHeap.parent(self._size - 1), -1, -1)`, and `parent(0)` is `None` | a one-element list, e.g. `BinaryMinHeap([7])`: `range(None, -1, -1)` raises `TypeError`, so a graph of one node cannot run `binary_heap_dijkstra` | a heap of at most one element is already built and the loop is skipped | not executed | Heaps.BinaryMinHeap.BuildHeap | Heaps.BinaryMinHeap.BuildHeapCorrected |
| code/DijkstraBinaryMinHeap.py:54 | `len(nodes) != len(distances) and len(nodes) != len(predecessors)` | lists of sizes 2, 2 and 1 pass the test, and `zip` silently drops the second node | refuse the lists whenever the three sizes are not all equal (`or`), as the error message says | not executed | DijkstraHeaps.SizeCheckMissesMismatch | DijkstraHeaps.NewDijkstraBinaryMinHeap |
| code/Dijkstra.py:151-156 | each terminator is the direction's own last distance plus the other direction's last step, `backward_result[-1][1] - backward_result[-2][1]` | nodes s, t, m, f, b with edges s→t 10, s→m 6, m→t 6, s→f 5, b→t 5, from s to t: both terminators are 6 + 6 - 5 = 7, neither continuation settles anything, m is the only node both directions settle, and the path s, m, t costs 12 while s→t costs 10 | continue both directions until no path through an unsettled node can beat the best meeting found, so the path returned is the shortest one the docstring (line 86) promises | not executed | Radius.DetourReturned | Meeting.MeetingDijkstra |
| code/Path.py:25-30 | `add_connection` appends the first edge from the current target to the next node | a node a with edges a→b of cost 5, then a→b of cost 1: the searches reach b at 1, but the path from a to b takes the edge of cost 5 and its total cost is 5 | take the cheapest edge to the next node, the one the searches relaxed | not executed | ParallelEdges.ParallelLink | ParallelEdges.CheapestPathCost |
