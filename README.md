# goit-algo-fp in Dafny

A Dafny model of the algorithmic core of the `goit-algo-fp` scripts, with proofs:

- **Weighted graph and Dijkstra** (`task_3.py`, modules `ShortestPaths` and `GraphDemos`):
  - `Graph.add_edge` appends to adjacency lists.
  - `dijkstra` uses a lazily pruned frontier. Its results are proved against walks: a distance is finite exactly when the node is reachable, and each finite distance is the least walk weight. The predecessor links are tight edges.
  - `shortest_path` rebuilds a shortest walk, or fails with `KeyError` at the lookup of `start` exactly when the source does (on graphs whose every edge leads to a key or to `start`).
  - The sample graph of `GraphDemo` is loaded. The distances `run` reports are derived, and so is the route `shortest_path("A", "D")` would rebuild.
- **Singly linked list** (`task_1.py`, module `LinkedLists`): `Node` and `LinkedList` are classes whose `next` and `head` fields are relinked in place.
  - Each chain is described by the ghost sequence of its nodes.
  - `append`, `to_list`, `reverse`, `_split`, `_merge`, `_merge_sort`, `sort` and `merge_sorted` are proved against functions on that sequence.
- **Food optimiser** (`task_6.py`, module `Food`):
  - `greedy_algorithm`: sorted by calories per cost, then a single pass.
  - `dynamic_programming`: an `array2` knapsack table filled row by row, then backtracked.
  - Both are proved against functions. The knapsack result is proved optimal over every subset and never worse than the greedy one.
- **Heap array as a tree and traversals** (`task_4.py`, `task_5.py`, modules `HeapTrees`, `Traversals`, `Palette`):
  - `to_tree` links node `i` to nodes `2i+1` and `2i+2`.
  - `TreeBuilder.build` rejects an empty array.
  - `dfs` and `bfs` are proved to give the preorder and the level order of the tree's shape. On a heap-built tree, BFS gives back the array order.
  - `_to_hex` is Python's `02x` formatting, with a parser proved to be its inverse on byte-range components.

Shared: `Wrappers` (Option, Result) and `Seqs` (last/front, reversal).

## Model

| member | source | states |
|---|---|---|
| ShortestPaths.Graph.constructor | task_3.py:13-15 | a new graph has no adjacency lists |
| ShortestPaths.Graph.AddEdge | task_3.py:17-21 | appends `(target, weight)` to the end of `source`'s list, creating the list if missing. With `bidirectional` it also appends `(source, weight)` to `target`'s list. Every other list is unchanged |
| ShortestPaths.PopMin | task_3.py:6-9 | `heappop` orders entries by distance alone: it removes one entry of least distance, and the rest of the frontier is the old one without it |
| ShortestPaths.RelaxNeighbors | task_3.py:38-43 | the inner loop equals relaxing the current node's edges in list order. Each one improves a target only on a strictly smaller distance, sets its predecessor and pushes a new entry |
| ShortestPaths.RelaxEdgesMonotone | task_3.py:39-43 | relaxing never raises a distance and never adds a node to the table. A predecessor changes only with a strictly smaller distance, and the frontier only grows |
| ShortestPaths.Graph.Dijkstra | task_3.py:23-45 | distances are defined on the keys and `start`, predecessors on the keys, and `start` has distance 0. A distance is finite exactly when the node is reachable, and then it is the least weight of any walk. `start` has no predecessor. Any other node has one exactly when its distance is finite, and that predecessor is joined to it by an edge with `d[u] + w == d[v]` and was expanded earlier |
| ShortestPaths.PotentialIsShortest | task_3.py:23-45 | a feasible potential that is 0 at the start and is met by a walk is the shortest distance. This is the certificate the optimality proof of `dijkstra` rests on |
| ShortestPaths.ShortestUnique | task_3.py:23-45 | the shortest distance between two nodes is unique |
| ShortestPaths.TracePath | task_3.py:52-58 | walking the predecessor links back from a reached `end` gives the nodes of a walk from `start` to `end` whose weight is `end`'s distance. It fails with `KeyError(start)` exactly when `start` is not in the predecessor table |
| ShortestPaths.Graph.ShortestPath | task_3.py:47-58 | `KeyError(start)` exactly when `start` has no adjacency list and `end == start`. `[]` exactly when `end` is unreachable. Otherwise the nodes of a walk from `start` to `end` that no walk beats |
| GraphDemos.LoadedBothClosed | task_3.py:78-79 | adding only bidirectional edges keeps every edge target a key, so `dijkstra` on the demo never looks up a missing node |
| GraphDemos.GraphDemo.LoadEdges | task_3.py:67-79 | the sample rows are added in order, each with `bidirectional=True` |
| GraphDemos.DemoLoaded | task_3.py:69-79 | loading the seven sample rows gives the six adjacency lists of A to F |
| GraphDemos.GraphDemo.constructor | task_3.py:62-65 | the demo graph holds exactly those adjacency lists |
| GraphDemos.DemoShortest | task_3.py:69-79 | from A, the shortest distances are A=0, B=4, C=2, D=9, E=5, F=20 |
| GraphDemos.DemoTable | task_3.py:69-83 | any table with the properties proved of `dijkstra` is exactly that table on the demo graph |
| GraphDemos.GraphDemo.Run | task_3.py:81-86 | `dijkstra("A")` on the demo graph returns A=0, B=4, C=2, D=9, E=5, F=20 |
| GraphDemos.DemoRouteUnique | task_3.py:69-79 | the only walk of weight 9 from A to D goes A, C, E, D |
| GraphDemos.DemoPath | task_3.py:47-79 | on the demo, any walk from A to D that no walk beats (which is what `shortest_path` returns) visits A, C, E, D |
| GraphDemos.GraphDemo.RunPath | task_3.py:47-79 | `shortest_path("A", "D")` on the demo graph returns `[A, C, E, D]` |
| LinkedLists.LinkedList.constructor | task_1.py:12-17 | a list built from values holds exactly those values in order, and is empty for `None` |
| LinkedLists.LinkedList.Append | task_1.py:19-28 | the contents become the old contents followed by the value. The old nodes stay in front and the new node is fresh |
| LinkedLists.LastNode | task_1.py:25-27 | the walk from the head stops at the last node of the chain |
| LinkedLists.LinkLast | task_1.py:28 | linking the new node after the last node gives the chain one node longer |
| LinkedLists.LinkedList.ToList | task_1.py:30-37 | returns the values along the chain from the head |
| LinkedLists.ReverseChain | task_1.py:41-48 | relinking walks the chain once and leaves the reversed chain, headed by the old last node |
| LinkedLists.ReverseRound | task_1.py:44-47 | one round links the current node back to the previous one and extends the reversed prefix by one node |
| LinkedLists.LinkedList.Reverse | task_1.py:39-48 | the chain becomes the reversed chain of the same nodes, and the contents become the reversed contents |
| LinkedLists.ValuesReverse | task_1.py:39-48 | the values of the reversed nodes are the reversed values |
| LinkedLists.Split | task_1.py:70-81 | cuts the chain after its first `ceil(n/2)` nodes into two chains whose concatenation is the original |
| LinkedLists.Merge | task_1.py:83-98 | relinks two disjoint chains into the chain of their merge by value, taking the left node on ties |
| LinkedLists.MergeRound | task_1.py:89-96 | one round places the smaller head, the left one on ties, after the tail |
| LinkedLists.MergeFinish | task_1.py:97-98 | when one side is used up, linking the tail to the other side's remainder completes the merge |
| LinkedLists.MergeNodesPermutes | task_1.py:83-98 | a merge uses every node of both inputs exactly as often as they hold it |
| LinkedLists.MergeValuesPermute | task_1.py:83-98 | a merge keeps the values of both inputs, each as often |
| LinkedLists.MergeNodesSorted | task_1.py:83-98 | merging two ascending chains gives an ascending chain |
| LinkedLists.MergeSort | task_1.py:61-68 | a chain of fewer than two nodes is returned as is. A longer one is split, both halves are sorted, and the halves are merged. The result is the merge sort of the nodes |
| LinkedLists.SortHalves | task_1.py:66-67 | sorting one half relinks only its own nodes, so the other half survives and stays sortable |
| LinkedLists.MergeSortNodesPermutes | task_1.py:61-68 | merge sort returns exactly the nodes it was given |
| LinkedLists.MergeSortNodesSorted | task_1.py:61-68 | merge sort leaves the values ascending |
| LinkedLists.MergeSortValuesPermute | task_1.py:61-68 | merge sort keeps every value as often as it occurs |
| LinkedLists.LinkedList.Sort | task_1.py:50-52 | after `sort` the contents are ascending and a permutation of the old contents |
| LinkedLists.SortedUnique | task_1.py:50-52 | two ascending sequences with the same values are equal, so the sorted contents are determined by the old contents |
| LinkedLists.LinkedList.MergeSorted | task_1.py:54-59 | the new list is the merge of both chains, made of their own nodes. It holds the values of both. It is ascending when both inputs are |
| Food.FoodOptimizer.constructor | task_6.py:13-18 | one food per dictionary entry, in entry order, with that entry's name, `cost` and `calories`. Names are distinct |
| Food.RatioTransitive | task_6.py:24 | the exact comparison of `calories / cost` is transitive for non-zero costs |
| Food.InsertByRatioOrdered | task_6.py:22-26 | inserting a food into a list ordered by ratio keeps it ordered |
| Food.SortByRatioOrdered | task_6.py:22-26 | the greedy order puts higher ratios first and holds every food exactly as often |
| Food.InsertByRatioTied | task_6.py:22-26 | inserting a food puts it before every food of equal ratio and keeps the order of the others with that ratio |
| Food.SortByRatioStable | task_6.py:22-26 | the greedy order is stable: foods with equal ratios keep their relative order from the input, as `sorted` guarantees |
| Food.SortByRatioMultiset | task_6.py:22-26 | the greedy order is a permutation of the foods |
| Food.GreedyScan | task_6.py:27-35 | the loop returns the names, total cost and total calories of the foods the greedy rule takes in that order |
| Food.GreedyWithinBudget | task_6.py:30-34 | once a food is taken, the total spent stays within the budget |
| Food.GreedyPicksFrom | task_6.py:30-34 | the greedy rule takes only offered foods, each at most as often as offered |
| Food.GreedyMaximal | task_6.py:30-34 | with no negative prices, every food left out would take the total over the budget |
| Food.FoodOptimizer.GreedyAlgorithm | task_6.py:20-35 | fails with `ZeroDivisionError` exactly when some cost is 0. Otherwise it returns the greedy selection, whose cost is within the budget when anything is taken |
| Food.FillRow | task_6.py:43-51 | a row is filled from the row above by the knapsack recurrence, and the other rows are unchanged |
| Food.FillTable | task_6.py:39-51 | entry `[i][c]` of the table is the knapsack recurrence over the first `i` foods and capacity `c` |
| Food.BestIsUpperBound | task_6.py:42-51 | no subset of the foods that costs at most `c` has more calories than the table entry |
| Food.TraceAchievesBest | task_6.py:53-60 | the backtracked subset costs at most the budget and has exactly the table's calories |
| Food.BacktrackTable | task_6.py:53-60 | the backtracking loop collects, from the last row up, each food whose row differs from the one above |
| Food.BacktrackNames | task_6.py:53-61 | the collected names, reversed, are the names of the backtracked subset in food order |
| Food.CostOfSelected | task_6.py:62 | sums the costs of the foods whose names were selected |
| Food.CostOfChosenNames | task_6.py:62 | with distinct names, that sum is the cost of the backtracked subset |
| Food.FoodOptimizer.DynamicProgramming | task_6.py:37-64 | fails with `IndexError` exactly when the budget or some cost is negative. Otherwise it returns the backtracked names in food order, their cost and the table's last entry |
| Food.KnapsackSelects | task_6.py:37-64 | the knapsack result is a subset of the foods within the budget, whose names, cost and calories are those reported |
| Food.KnapsackOptimal | task_6.py:37-64 | no affordable subset has more calories than the knapsack result |
| Food.KnapsackBeatsGreedy | task_6.py:20-64 | when both succeed, the knapsack result has at least the greedy result's calories |
| HeapTrees.BinaryHeap.ToTree | task_5.py:28-40 | `None` for an empty array. Otherwise one fresh node per slot carries that slot's value, node `i` links to nodes `2i+1` and `2i+2` where they exist, and the root is node 0. `task_4.py:27-39` is the same code |
| HeapTrees.ParentIsUnique | task_4.py:33-39 | every slot `j >= 1` hangs under exactly one node, that of slot `(j-1)/2`, and slot 0 under none, so the links form a tree |
| HeapTrees.TreeBuilder.Build | task_5.py:48-53 | `ValueError("Heap is empty.")` exactly when there are no values. Otherwise the root of the heap-linked nodes |
| Traversals.TreeTraversal.Dfs | task_5.py:129-140 | the order is the preorder of the tree's shape: root, left subtree, right subtree |
| Traversals.DfsVisit | task_5.py:134-139 | one round pops the top node and pushes its right and then its left child. The output so far plus what the stack still owes stays the preorder |
| Traversals.TreeTraversal.Bfs | task_5.py:142-153 | the order is the level order of the tree's shape, left child before right |
| Traversals.BfsVisit | task_5.py:147-152 | one round takes the front node and queues its left and then its right child. The output so far plus the level order of the queue stays the level order of the tree |
| Traversals.LevelOrderNodes | task_5.py:142-153 | the level order of a queue visits exactly the nodes of its trees |
| Traversals.DfsBfsSameNodes | task_5.py:129-153 | DFS and BFS visit the same nodes, each equally often, as many as the tree has |
| Traversals.HeapTreeRepresents | task_5.py:28-40 | the heap-linked nodes have the shape of the complete tree over the slots |
| Traversals.HeapLevelOrder | task_5.py:142-153 | on that shape the level order runs through the slots in index order |
| Traversals.BfsOfHeap | task_5.py:28-153 | BFS of a heap-built tree gives the nodes in array order, so their values are the input values |
| Traversals.DfsOfHeap | task_5.py:28-140 | DFS of a heap-built tree visits every node once, `len(values)` in all |
| Palette.DigitChar | task_5.py:79 | the digit written for `d < 16` is a lowercase hex digit that reads back as `d` |
| Palette.HexDigits | task_5.py:79 | a numeral is a non-empty run of lowercase hex digits. It has one digit exactly below 16 and two from 16 to 255 |
| Palette.HexDigitsValue | task_5.py:79 | the hex numeral of `n` denotes `n` |
| Palette.Hex2OfByte | task_5.py:79 | `02x` of a value in 0..255 is two lowercase hex digits denoting it |
| Palette.Hex2OfNegative | task_5.py:79 | `02x` of a negative value starts with a minus sign |
| Palette.ToHexFormat | task_5.py:77-79 | for components in 0..255, `_to_hex` is `#` and six lowercase hex digits, two each for red, green and blue in that order |
| Palette.FromToHex | task_5.py:77-79 | reading an in-range colour code back gives the original triple |
| Palette.ToFromHex | task_5.py:77-79 | every `#rrggbb` string of lowercase hex digits is the colour code of the triple it reads as, so the code is a bijection onto such strings |
| Palette.ToHexOutOfRange | task_5.py:77-79 | a component outside 0..255 gives no colour code: a negative one brings a minus sign, a larger one more than two digits |

## Left out

- Negative edge weights: weights are natural numbers. The distances are meant for non-negative weights, and a negative weight can make `dijkstra` report non-shortest distances.
- `float("inf")` is the explicit `Inf` distance. `heapq`'s internal array layout is not modelled: the frontier is a sequence, and `PopMin` picks one entry of least distance. Among entries of equal distance `heapq` picks a specific one; the model picks an arbitrary one, and every result is proved for any such choice.
- ShortestPaths.Graph.Dijkstra, ShortestPaths.Graph.ShortestPath: require that every edge, reachable from `start` or not, leads to a key or to `start`. The source raises `KeyError` at `task_3.py:40` only when a node reached from `start` has an edge to a node that is neither a key nor `start`; that failure is not modelled. Graphs whose unknown edge targets cannot be reached from `start` run normally in the source and are excluded here as well.
- ShortestPaths.Graph.Dijkstra: the bound of at most (edges + 1) frontier pushes is not proved. Termination is proved from the number of nodes not yet expanded and the frontier size.
- The printing in `GraphDemo.run` (only the `dijkstra("A")` call is modelled), every other `print`, the `__main__` blocks, and `FoodDemo`: console output and sample runs.
- `build_demo_lists` in `task_1.py`: sample data only.
- LinkedLists.LinkedList.MergeSorted: requires the two lists to share no node. Merging a list with itself or with a list sharing its nodes would relink them into a cycle. The inputs are consumed, and the contract says nothing about them afterwards.
- Food.FoodOptimizer.constructor: requires each entry to have `cost` and `calories`. The `KeyError` of a missing key is not modelled. The dictionary is given as a sequence of (name, fields) entries in iteration order.
- Food ratios: `calories / cost` is a float, and the model compares ratios exactly by cross-multiplication. Two ratios that differ by less than float precision may sort differently in the source.
- Food.FoodOptimizer.GreedyAlgorithm: the `OverflowError` that Python's `int / int` raises when a ratio `calories / cost` is beyond the float range (about 1.8e308) is not modelled. For such foods the model returns a selection where the source raises.
- Node identifiers (`uuid`), the `color` field, `HeapVisualizer`, `TreeVisualizer`, `TraversalDemo` and all drawing: random identifiers and graphics with no effect on the algorithms.
- `ColorPalette.generate` and the palette's stored endpoints: float division and `round`. Only `_to_hex` is modelled, as the function `Palette.ToHex`.
- Traversals.TreeTraversal.Dfs, Traversals.TreeTraversal.Bfs: require that the nodes below the root have a finite tree shape. On linked nodes that contain a cycle, the source loops forever. Shared subtrees are allowed and are visited once per occurrence, as in the source.
- `task_2.py` and `task_7.py` are not part of this model: drawing with recursion and random dice simulation.
