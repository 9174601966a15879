# Verified models of the Code365 algorithms

Code365 collects C, C++ and Java programs. This project models the ones whose correctness is a
theorem in its own right and proves those theorems in Dafny: a concurrent queue, two greedy
optimisers, three shortest-path programs, a threaded tree walk, balanced trees, a lazy segment tree,
Mo's window, a skyline merge, a sudoku solver, string matching, increasing subsequences,
well-formed brackets and the enumeration of rearrangements.

Each source file has its own module, and proofs shared or set apart have further ones. Where the
source changes memory step by step the model does too: arrays stay arrays, linked nodes stay objects,
the lists and ordered sets that the Java programs mutate are fields of classes, loops stay loops.
Each such method is proved against a definition of the result that does not mention the program: all
walks of a graph, all trees over the same leaves, all rearrangements, all completions of a board.

`dafny verify dfyconfig.toml` checks everything.

| file | what it holds |
|---|---|
| `QueueProtocol.dfy`, `QueueCalls.dfy`, `SpuriousWakeup.dfy` | the two-mutex queue as a step system over all interleavings; where the items come from; runs that return NULL |
| `HuffmanTree.dfy`, `Huffman.dfy` | the exchange argument on tree values; the program on nodes and a list |
| `SpanningForest.dfy`, `Kruskal.dfy` | forests as edge sets and why greedy is cheapest; union-find and the loop |
| `InorderGeometry.dfy`, `MorrisInorder.dfy` | the inorder numbering of a tree; the traversal that writes threads |
| `Walks.dfy`, `BellmanFord.dfy`, `FloydWarshall.dfy` | walks, weights and cycle removal; the two programs |
| `Names.dfy`, `DijkstraLabels.dfy`, `Dijkstra.dfy` | dictionary order; what polls and relaxations keep; vertices, ordered set and both methods |
| `SegmentTree.dfy`, `Mo.dfy` | range queries against a plain array |
| `AvlTree.dfy`, `Avl.dfy` | insertion and deletion on tree values; the program on linked nodes |
| `Rearrangements.dfy`, `Multinomial.dfy`, `Permutations.dfy` | words and their order; how many rearrangements there are; the enumeration |
| `SkylineMerge.dfy`, `Skyline.dfy` | which points a merge puts out; the program |
| `Sudoku.dfy`, `Kmp.dfy`, `LongestIncreasing.dfy`, `LongestValidParentheses.dfy` | one program each |
| `Wrappers.dfy` | what several modules use |

Conventions: integers are unbounded. `INT_MAX` and `Integer.MAX_VALUE`, where the source uses them
as "not reached", are a separate value `Inf`. Printed output is a returned sequence. Parameters
marked `ghost` carry the mathematical object the memory stands for and do not influence the run.

Where a comment and its code differ the model follows the code: `join` announces union by rank but
always hangs the first root below the second (algorithms/cpp/Graph/Kruskal.cpp:52); the shortest-path
passes are V, not V - 1 (algorithms/cpp/Dynamic Programming/Bellman-Ford.cpp:65-66); "balanced
deletion" does not rebalance (algorithms/cpp/Datastructures/AVLtree.cpp:94-124).

Main results:

- Queue: over every interleaving of any number of adders and getters, items leave in the order they
  were pushed, none is lost, duplicated or made up (every item given to a call was pushed, is on its
  way or was dropped for want of memory), no wakeup is lost, and when every call is blocked the
  queue is drained. A getter may return NULL, once anything was pushed fewer times than items were
  pushed; for any items some run meets the bound.
- Huffman: the tree built is no longer, weighted, than any binary tree with the same leaves; it is
  exactly the tree of the rounds on values with a stable sort, and the documented example comes out.
- Kruskal: the accepted edges are exactly those whose ends the edges before do not connect; they are a
  spanning forest, on sorted edges no costlier than any other. Path halving links every second element
  on the way to its grandparent and never changes a representative.
- Morris: the output is the inorder sequence and every pointer ends as it began.
- Bellman-Ford: a negative cycle is reported exactly when one can be reached from the source, and
  otherwise every entry is the least weight over all walks. Floyd-Warshall: the final diagonal has a
  negative entry exactly when the graph has a negative cycle, and otherwise every entry is the least
  weight over all walks of at least one arc; that is the distance over all walks except on the
  diagonal at vertices without a closed walk of weight 0, where a self-loop has replaced the zero.
  Dijkstra: the distances for non-negative weights, with the `previous` links spelling a walk of
  exactly that weight; of several such walks, the one on which every previous vertex is the first
  polled of those possible, which for positive weights is the closest and then the first by name.
- Skyline: the merge reads the higher of both skylines everywhere, drops what lies inside a taller
  building, and repeats a height exactly where a stated condition on the two inputs says so.
- Segment tree, both increasing-subsequence programs, KMP: each agrees with its plain
  definition on every input the source accepts; KMP falls back less often than there are characters.
  Mo: the same, and sorting bounds how often the window moves.
- Sudoku: `solve` succeeds exactly when a completion exists, then finds the first one row by row, and
  leaves the board untouched otherwise.
- Permutations: every distinct rearrangement is printed exactly once, in lexicographic order, and
  their number is the multinomial coefficient.
- AVL: over every run of insertions and deletions the linked nodes spell an ordered tree that holds
  exactly the right values; insertions keep it in balance and bring a root with balanced subtrees back
  into balance however far out it is, and deletion keeps balance exactly under a stated condition.

## Model

| member | source | states |
|---|---|---|
| QueueProtocol.LinkedIsList | os_lesson/exp_2/queue.c:62-67 | the pointwise reading of the memory cells is the chain reached by following `next` to NULL, both ways |
| QueueProtocol.ListIsUnique | os_lesson/exp_2/queue.c:62-67 | the memory determines the list |
| QueueProtocol.StepKeepsInv | os_lesson/exp_2/queue.c:27-81 | every statement of every thread keeps the joint invariant: list shape, `numitems`, mutex ownership, announced non-emptiness, FIFO account, drains |
| QueueProtocol.ReachableInv | os_lesson/exp_2/queue.c:4-81 | the invariant holds after every trace from the initialised queue |
| QueueProtocol.FifoConservation | os_lesson/exp_2/queue.c:27-81 | whenever `modify_mutex` is free, items pushed are items returned followed by the list read from its tail, and `numitems` is the list's length |
| QueueProtocol.ReturnedInPushOrder | os_lesson/exp_2/queue.c:27-81 | at every moment the items returned are a prefix of the items pushed |
| QueueProtocol.NoLostWakeup | os_lesson/exp_2/queue.c:40-78 | while the list is not empty, `read_mutex` is free, or an adder has pushed and will unlock it, or a getter holding the token has not yet decided |
| QueueProtocol.MutualExclusion | os_lesson/exp_2/queue.c:40-78 | at most one thread is inside a critical section of `modify_mutex` |
| QueueProtocol.NullOnlyWhenEmpty | os_lesson/exp_2/queue.c:54-60 | NULL is returned only from a critical section in which the list is empty and everything pushed was returned |
| QueueProtocol.HolderCanStep | os_lesson/exp_2/queue.c:42-78 | the holder of `modify_mutex` never blocks and never follows a bad pointer |
| QueueProtocol.HeldIsNotStuck | os_lesson/exp_2/queue.c:40-78 | while `modify_mutex` is held some call can go on |
| QueueProtocol.BlockedMeansDrained | os_lesson/exp_2/queue.c:27-81 | when no call can go on, the blocked ones are getters on an empty queue from which every item was returned |
| QueueProtocol.BudgetKept | os_lesson/exp_2/queue.c:47-76 | every step keeps the account of tokens issued, in flight, wasted and used up by a drain against items pushed |
| QueueProtocol.BudgetHolds | os_lesson/exp_2/queue.c:47-76 | the account holds after every trace |
| QueueProtocol.NullsNeedDrains | os_lesson/exp_2/queue.c:57-76 | a run with a NULL has a getter that emptied the list before |
| QueueProtocol.NullsAreBounded | os_lesson/exp_2/queue.c:47-76 | over every run NULLs and drains together are at most the items pushed; so there are fewer NULLs than pushes, and none before the first push |
| QueueCalls.CarriedIsCalled | os_lesson/exp_2/queue.c:27-38 | an item on its way through an add, in the argument or in the cell written, is the one given to the thread's latest call |
| QueueCalls.PushedIsCalled | os_lesson/exp_2/queue.c:27-44 | over every interleaving a step that lengthens the items pushed appends exactly the argument of that thread's latest call |
| QueueCalls.EveryCallAccounted | os_lesson/exp_2/queue.c:27-44 | for every item, the calls given it are as many as its occurrences pushed, on their way, or dropped when `calloc` failed |
| QueueCalls.OnlyCalledItems | os_lesson/exp_2/queue.c:27-81 | as multisets, the items pushed and the items returned are contained in the items given to calls |
| SpuriousWakeup.NullsHappen | os_lesson/exp_2/queue.c:27-81 | for every non-empty sequence of items there is a run whose calls are given exactly these items, that pushes and returns them all and, because all signals but one come late, returns NULL one time less than there are items, as often as the bound allows |
| SpuriousWakeup.GetItem | os_lesson/exp_2/queue.c:50-81 | a get run alone on a non-empty list of any length takes one item and hands `read_mutex` on iff one is left |
| SpuriousWakeup.GetNull | os_lesson/exp_2/queue.c:54-60 | a get run alone on an empty list returns NULL and keeps `read_mutex` locked |
| HuffmanTree.DeepestPair | algorithms/java/Others/Huffman.java:91-95 | every tree with two leaves has two sibling leaves at its greatest depth |
| HuffmanTree.BringDown | algorithms/java/Others/Huffman.java:91-95 | exchanging a deeper leaf for a smaller one never costs |
| HuffmanTree.FillDeepest | algorithms/java/Others/Huffman.java:91-95 | the two least frequencies can fill the deepest pair at no cost |
| HuffmanTree.MergeLeast | algorithms/java/Others/Huffman.java:91-99 | for any tree, some tree over the leaves with the two least merged is cheaper by at least their sum |
| HuffmanTree.OneDeeper | algorithms/java/Others/Huffman.java:94-95 | hanging a tree one level lower adds its weight once |
| HuffmanTree.LengthIsWeighted | algorithms/java/Others/Huffman.java:72-107 | the path length used in the proofs is the sum of frequency times depth over the leaves |
| HuffmanTree.CountsAreFreqs | algorithms/java/Others/Huffman.java:72-107 | equal leaf counts are equal multisets of frequencies, both ways |
| HuffmanTree.SortIsStable | algorithms/java/Others/Huffman.java:52-58 | for every weight, sorting leaves the trees of that weight in their order |
| HuffmanTree.AppendedGoes | algorithms/java/Others/Huffman.java:99-103 | a tree appended to a sorted list goes behind all trees that weigh no more and before all others |
| HuffmanTree.DocumentedExample | algorithms/java/Others/Huffman.java:12-41 | the six letters of the comment give the tree whose codes, left 0 and right 1, are the ones printed there |
| Huffman.SortSorts | algorithms/java/Others/Huffman.java:54-58 | sorting the forest orders it by weight |
| Huffman.SortKeeps | algorithms/java/Others/Huffman.java:103 | sorting keeps path length, weights and leaves |
| Huffman.SortRoots | algorithms/java/Others/Huffman.java:103 | sorting the nodes by their `freq` fields is sorting the forest by weight |
| Huffman.SortNodesIsStable | algorithms/java/Others/Huffman.java:52-58 | for every frequency, sorting leaves the nodes of that frequency in their order |
| Huffman.TreesOfSort | algorithms/java/Others/Huffman.java:103 | sorting the forest is the stable sort of its trees |
| Huffman.JoinKeepsBound | algorithms/java/Others/Huffman.java:91-99 | joining the two least trees keeps every competing tree an upper bound |
| Huffman.JoinOnTrack | algorithms/java/Others/Huffman.java:79-106 | one round keeps the leaves, the letters and optimality against every competitor |
| Huffman.OnTrackAtTheEnd | algorithms/java/Others/Huffman.java:105 | the single tree left has exactly the given leaves and least weighted path length |
| Huffman.RoundsAreBest | algorithms/java/Others/Huffman.java:79-106 | from a sorted forest on track the rounds make an optimal tree with the given leaves |
| Huffman.TreeForIsBest | algorithms/java/Others/Huffman.java:72-107 | for every list of leaves the tree of the rounds has these leaves and least path length among all trees with these frequencies |
| Huffman.Parent | algorithms/java/Others/Huffman.java:80-95 | the new node has no letter, the bit 0, the sum as frequency and both nodes as children, which get the bits 0 and 1; nothing else changes |
| Huffman.SetBits | algorithms/java/Others/Huffman.java:94 | the two nodes get the bits 0 and 1 and nothing else changes |
| Huffman.Combine | algorithms/java/Others/Huffman.java:87-99 | the first two nodes leave the list and their parent joins it at the end |
| Huffman.Sort | algorithms/java/Others/Huffman.java:103 | the list is sorted, nodes of equal frequency keep their order, and its trees stay what they were |
| Huffman.JoinRound | algorithms/java/Others/Huffman.java:87-104 | one round leaves one tree less, and the rounds still to come make the same tree as before |
| Huffman.Round | algorithms/java/Others/Huffman.java:87-104 | the same, also for a list of one node |
| Huffman.Rounds | algorithms/java/Others/Huffman.java:79-106 | the loop ends with one root, whose tree is the one the rounds make of the list |
| Huffman.MakeHuffmanTree | algorithms/java/Others/Huffman.java:72-107 | the tree at the returned root is the one that stable sorting and joining the first two make of the given leaves; it has the given letters and, among all binary trees whose leaf frequencies are the multiset of the given ones, the least sum of frequency times depth; of the given nodes only the bits change |
| SpanningForest.AddedEdge | algorithms/cpp/Graph/Kruskal.cpp:63-67 | adding an edge connects exactly what was connected or can be joined across it |
| SpanningForest.JoinLosesLeader | algorithms/cpp/Graph/Kruskal.cpp:63-67 | an edge between two components leaves one component less |
| SpanningForest.ForestCount | algorithms/cpp/Graph/Kruskal.cpp:56-70 | a forest has one component less for every edge |
| SpanningForest.GreedyIsAhead | algorithms/cpp/Graph/Kruskal.cpp:56-70 | among the first k edges no forest has more than the greedy one |
| SpanningForest.AheadCosts | algorithms/cpp/Graph/Kruskal.cpp:56-70 | being ahead costs at most the price of the last edge looked at, each |
| SpanningForest.GreedyIsCheapest | algorithms/cpp/Graph/Kruskal.cpp:56-70 | on edges sorted by cost the greedy forest costs no more than any spanning forest |
| Kruskal.RepIsUnique | algorithms/cpp/Graph/Kruskal.cpp:41-49 | the parent array alone determines the representatives |
| Kruskal.HalvingKeepsRep | algorithms/cpp/Graph/Kruskal.cpp:45 | one path-halving write changes no representative and keeps the forest acyclic |
| Kruskal.LinkMerges | algorithms/cpp/Graph/Kruskal.cpp:52-54 | hanging one root below the other merges the two classes and no others |
| Kruskal.HalvingOneMore | algorithms/cpp/Graph/Kruskal.cpp:43-47 | one round of the loop reads what the array held at the start and changes one element more of the way |
| Kruskal.Initial | algorithms/cpp/Graph/Kruskal.cpp:35-40 | every element represents itself |
| Kruskal.Root | algorithms/cpp/Graph/Kruskal.cpp:41-49 | terminates, returns the representative, changes nobody's, and leaves exactly every second element on the way pointing to its former grandparent |
| Kruskal.Join | algorithms/cpp/Graph/Kruskal.cpp:50-55 | the classes of x and y become one, represented by y's representative, which is the new parent of x's |
| Kruskal.AcceptPartition | algorithms/cpp/Graph/Kruskal.cpp:63-67 | after a join the classes are the components of the edges seen |
| Kruskal.AcceptGreedy | algorithms/cpp/Graph/Kruskal.cpp:63-67 | taking an edge across two components keeps the chosen set greedy |
| Kruskal.RejectGreedy | algorithms/cpp/Graph/Kruskal.cpp:63-67 | skipping an edge inside a component keeps the chosen set greedy |
| Kruskal.GreedySpans | algorithms/cpp/Graph/Kruskal.cpp:56-70 | the greedy set is a spanning forest, and a cheapest one on sorted edges |
| Kruskal.Kruskal | algorithms/cpp/Graph/Kruskal.cpp:56-70 | the accepted edges are exactly those whose ends are not connected by the edges before; `mincost` is the cost of these, an acyclic spanning forest, and on edges sorted by cost the least cost of any; the classes of the parent array are the components |
| InorderGeometry.SpansAreGeometric | algorithms/cpp/Datastructures/MorrisInorder.cpp:53-83 | in the inorder numbering of every tree each subtree is an interval, intervals nest or are apart, and neighbours are related by child links |
| MorrisInorder.LinksOf | algorithms/cpp/Datastructures/MorrisInorder.cpp:10-14 | the pointers of a standing tree are those of its numbering |
| MorrisInorder.ThreadNeedsNull | algorithms/cpp/Datastructures/MorrisInorder.cpp:66-70 | a thread is only ever written where the tree has a null right pointer |
| MorrisInorder.ThreadsGoingLeft | algorithms/cpp/Datastructures/MorrisInorder.cpp:69-73 | going left adds exactly the thread just written |
| MorrisInorder.ThreadsGoingRight | algorithms/cpp/Datastructures/MorrisInorder.cpp:60 | moving to a right child keeps the set of threads |
| MorrisInorder.ThreadsGoingBack | algorithms/cpp/Datastructures/MorrisInorder.cpp:60 | following a thread arrives at the second visit of the next node |
| MorrisInorder.Leaving | algorithms/cpp/Datastructures/MorrisInorder.cpp:60-79 | after a node is printed its right pointer leads to the node to visit next |
| MorrisInorder.Predecessor | algorithms/cpp/Datastructures/MorrisInorder.cpp:64-67 | the inner loop ends at the inorder predecessor, whose right pointer tells the first visit from the second |
| MorrisInorder.Descend | algorithms/cpp/Datastructures/MorrisInorder.cpp:69-73 | writing the thread and going left keeps the account of threads |
| MorrisInorder.Unthread | algorithms/cpp/Datastructures/MorrisInorder.cpp:75-79 | the thread is taken out and nothing else changes |
| MorrisInorder.Emit | algorithms/cpp/Datastructures/MorrisInorder.cpp:57-61 | prints the next value of the inorder sequence and moves on |
| MorrisInorder.Round | algorithms/cpp/Datastructures/MorrisInorder.cpp:62-81 | one round on a node with a left subtree keeps the account and makes progress |
| MorrisInorder.Loop | algorithms/cpp/Datastructures/MorrisInorder.cpp:56-82 | the loop terminates with the whole sequence printed and no thread left |
| MorrisInorder.Traverse | algorithms/cpp/Datastructures/MorrisInorder.cpp:56-82 | the loop terminates with the whole sequence printed and every pointer restored |
| MorrisInorder.MorrisInorder | algorithms/cpp/Datastructures/MorrisInorder.cpp:53-83 | on every finite tree the output is the recursive inorder sequence and every field of every node is as on entry |
| Walks.Shorten | algorithms/cpp/Dynamic Programming/Bellman-Ford.cpp:64-66 | without reachable negative cycles some walk of fewer than V arcs is at least as short |
| BellmanFord.PassCoversMore | algorithms/cpp/Dynamic Programming/Bellman-Ford.cpp:67-74 | pass i makes every distance at most the weight of every walk of i + 1 arcs |
| BellmanFord.SettledHasNoNegativeCycle | algorithms/cpp/Dynamic Programming/Bellman-Ford.cpp:77-86 | if no edge improves a distance, no negative cycle is reachable |
| BellmanFord.SettledIsShortest | algorithms/cpp/Dynamic Programming/Bellman-Ford.cpp:77-88 | if no edge improves a distance, all distances are shortest |
| BellmanFord.CoveredIsSettled | algorithms/cpp/Dynamic Programming/Bellman-Ford.cpp:66-86 | without a reachable negative cycle the passes leave no edge that improves |
| BellmanFord.Pass | algorithms/cpp/Dynamic Programming/Bellman-Ford.cpp:67-74 | every edge is relaxed and every finite distance stays the weight of a walk |
| BellmanFord.Check | algorithms/cpp/Dynamic Programming/Bellman-Ford.cpp:77-86 | reports exactly whether some edge still improves a distance |
| BellmanFord.BellmanFord | algorithms/cpp/Dynamic Programming/Bellman-Ford.cpp:53-91 | reports a negative cycle iff one is reachable from `src`; otherwise `dist[v]` is the least weight over all walks, infinite iff there is none |
| FloydWarshall.OwnRowAndColumnStay | algorithms/cpp/Dynamic Programming/Floyd-Warshall.cpp:62-73 | in round k the layered recurrence leaves row and column k alone whenever entry (k, k) is non-negative |
| FloydWarshall.TightenedCoversMore | algorithms/cpp/Dynamic Programming/Floyd-Warshall.cpp:62-73 | after round k every entry is at most every simple walk through vertices up to k |
| FloydWarshall.Simplify | algorithms/cpp/Dynamic Programming/Floyd-Warshall.cpp:61-73 | without negative cycles some simple walk is at least as short |
| FloydWarshall.SimpleNegative | algorithms/cpp/Dynamic Programming/Floyd-Warshall.cpp:61-73 | a negative cycle contains a simple one |
| FloydWarshall.DiagonalTells | algorithms/cpp/Dynamic Programming/Floyd-Warshall.cpp:61-73 | the final diagonal is non-negative iff there is no negative cycle |
| FloydWarshall.RightIsDistance | algorithms/cpp/Dynamic Programming/Floyd-Warshall.cpp:61-73 | without negative cycles every entry is the least weight over walks of at least one arc |
| FloydWarshall.StepDistanceIsDistance | algorithms/cpp/Dynamic Programming/Floyd-Warshall.cpp:14-28 | that is the distance over all walks iff the vertices differ or the entry is zero, and a diagonal entry is zero iff some closed walk has weight 0 |
| FloydWarshall.ZeroLoop | algorithms/cpp/Dynamic Programming/Floyd-Warshall.cpp:21 | the zero the constructor puts on the diagonal is such a closed walk |
| FloydWarshall.SelfLoopReplacesZero | algorithms/cpp/Dynamic Programming/Floyd-Warshall.cpp:26-28 | one vertex with a self-loop of weight 5: no negative cycle, the entry is 5, and the distance is 0 |
| FloydWarshall.OneVertex | algorithms/cpp/Dynamic Programming/Floyd-Warshall.cpp:61-73 | on one vertex a negative self-loop is doubled and any other entry stays |
| FloydWarshall.Relax | algorithms/cpp/Dynamic Programming/Floyd-Warshall.cpp:71-73 | one in-place update changes only its entry, and is right whether or not what it reads was already updated |
| FloydWarshall.Round | algorithms/cpp/Dynamic Programming/Floyd-Warshall.cpp:65-73 | round k in place equals the layered recurrence whenever entry (k, k) is non-negative, and tightens the matrix in any case |
| FloydWarshall.FloydWarshall | algorithms/cpp/Dynamic Programming/Floyd-Warshall.cpp:51-73 | the matrix is the one the updates make one after the other, also with negative cycles; the diagonal has a negative entry iff there is a negative cycle; otherwise every entry is the least weight over walks of at least one arc, and the distance over all walks iff it is off the diagonal or its vertex has a closed walk of weight 0 |
| SegmentTree.SiblingsDisjoint | algorithms/cpp/Range queries/segTree.cpp:13-14 | the subtrees at 2pos+1 and 2pos+2 share no slot |
| SegmentTree.FourTimesFits | algorithms/cpp/Range queries/segTree.cpp:72-74 | four slots per element are enough for the whole recursion |
| SegmentTree.HoldsShift | algorithms/cpp/Range queries/segTree.cpp:54-63 | an addition pending above is as good as an addition to every element |
| SegmentTree.HoldsAbsorb | algorithms/cpp/Range queries/segTree.cpp:28-29 | a pending addition may move into a node's own lazy slot |
| SegmentTree.Settle | algorithms/cpp/Range queries/segTree.cpp:23-32 | a node with the right sum hands its pending addition to both children |
| SegmentTree.Push | algorithms/cpp/Range queries/segTree.cpp:42-51 | pushing down changes what the tree describes by nothing and touches only the subtree |
| SegmentTree.ConsTree | algorithms/cpp/Range queries/segTree.cpp:5-16 | the tree describes the array |
| SegmentTree.Query | algorithms/cpp/Range queries/segTree.cpp:17-37 | returns the sum over the common range and describes the same array afterwards |
| SegmentTree.QueryHalves | algorithms/cpp/Range queries/segTree.cpp:35-36 | the two recursive calls add up to the sum over the common range and leave the node right |
| SegmentTree.AddToNode | algorithms/cpp/Range queries/segTree.cpp:54-63 | a fully covered node describes its range with delta added |
| SegmentTree.Update | algorithms/cpp/Range queries/segTree.cpp:38-68 | the tree describes the array with delta added at start to end |
| SegmentTree.Recompute | algorithms/cpp/Range queries/segTree.cpp:64-67 | after both children were updated the node is their sum and the whole subtree is right |
| SegmentTree.RangeIsAsked | algorithms/cpp/Range queries/segTree.cpp:77-87 | the sum over a range of the plain array after some commands is the sum over the positions from 1 of the element given and all that was added there |
| SegmentTree.AnswerAt | algorithms/cpp/Range queries/segTree.cpp:77-87 | the number printed for the question at place i is that sum for the commands before it |
| SegmentTree.AddsWhereAsked | algorithms/cpp/Range queries/segTree.cpp:77-87 | after adding at 1 to 2 in three zeros, asking for 1, 2 and 3 gives the addend, the addend and zero |
| SegmentTree.Execute | algorithms/cpp/Range queries/segTree.cpp:77-87 | one command does to the tree what it does to a plain array: an addition adds at the positions p to q counted from 1 and prints nothing, a question prints the sum over the positions p to q and changes nothing |
| SegmentTree.RunCommands | algorithms/cpp/Range queries/segTree.cpp:69-90 | for every sequence of commands one number is printed for each question, in order: the sum over the positions asked of the element given there and of everything added there before |
| DijkstraLabels.PollInv | algorithms/java/Others/Dijkstra.java:136-137 | polling the vertex of the least key keeps the invariant: polled distances ascend and are final, open ones are attained, and ties are broken by name and by order of polling |
| DijkstraLabels.OnlyOpenImproves | algorithms/java/Others/Dijkstra.java:144 | only a vertex still in the set can be improved, so no key of a polled vertex changes |
| DijkstraLabels.ArcInv | algorithms/java/Others/Dijkstra.java:140-150 | looking at one arc keeps the invariant |
| DijkstraLabels.NoShorterWalk | algorithms/java/Others/Dijkstra.java:132-152 | at the end no walk is shorter than the label of its end |
| DijkstraLabels.ChainTo | algorithms/java/Others/Dijkstra.java:146-147 | the `previous` links of a reached vertex lead back to the source in poll order along a walk of exactly its distance |
| DijkstraLabels.PreviousIsFirst | algorithms/java/Others/Dijkstra.java:136-147 | a vertex is the previous one of a reached vertex iff it is the first one polled of those over which the distance is reached |
| DijkstraLabels.PolledByKey | algorithms/java/Others/Dijkstra.java:83-88 | with positive weights vertices are polled in order of distance and, where that is equal, of name, both ways |
| DijkstraLabels.PreviousIsNearest | algorithms/java/Others/Dijkstra.java:136-147 | with positive weights a vertex is the previous one iff it is the closest, and then the first by name, of those over which the distance is reached |
| DijkstraLabels.ChainOverFirst | algorithms/java/Others/Dijkstra.java:136-147 | both hold at every step of a chain of previous vertices |
| DijkstraLabels.FinishedIsShortest | algorithms/java/Others/Dijkstra.java:132-152 | `dist` is the least weight over all walks, infinite iff there is none, and `previous` spells a walk attaining it |
| Names.CompareNamesLaws | algorithms/java/Others/Dijkstra.java:83-88 | comparing names is antisymmetric and zero only for equal names |
| Names.CompareNamesIsDictionary | algorithms/java/Others/Dijkstra.java:83-88 | the comparison is negative iff at the first difference the first name has the smaller character or has ended |
| Dijkstra.CompareIsByKey | algorithms/java/Others/Dijkstra.java:83-88 | comparing vertices is negative iff the distance is smaller, or equal and the name earlier in dictionary order |
| Dijkstra.CompareLaws | algorithms/java/Others/Dijkstra.java:83-88 | the comparison is antisymmetric and zero only for equal distance and name |
| Dijkstra.CompareTransitive | algorithms/java/Others/Dijkstra.java:83-88 | the comparison is transitive |
| Dijkstra.TreeSet.Add | algorithms/java/Others/Dijkstra.java:148 | adds the vertex and keeps the order |
| Dijkstra.TreeSet.Remove | algorithms/java/Others/Dijkstra.java:145 | finds the vertex by its key and removes exactly it |
| Dijkstra.TreeSet.PollFirst | algorithms/java/Others/Dijkstra.java:136 | removes and returns the vertex of least distance and, of several, the earliest name in dictionary order |
| Dijkstra.Rekey | algorithms/java/Others/Dijkstra.java:145-148 | the key changes only while the vertex is out of the set |
| Dijkstra.LookAt | algorithms/java/Others/Dijkstra.java:141-149 | the fields change exactly as the relaxation of the arc demands |
| Dijkstra.RelaxOne | algorithms/java/Others/Dijkstra.java:140-150 | one neighbour keeps fields, set and invariant in step |
| Dijkstra.RelaxAll | algorithms/java/Others/Dijkstra.java:140-150 | all neighbours, in any order, leave no arc of the polled vertex to relax |
| Dijkstra.Poll | algorithms/java/Others/Dijkstra.java:136 | the polled vertex is closest among those not yet polled and, of several, the one with the earliest name |
| Dijkstra.Settle | algorithms/java/Others/Dijkstra.java:136-151 | one round of the loop for a reached vertex keeps fields, set and invariant in step |
| Dijkstra.Loop | algorithms/java/Others/Dijkstra.java:132-152 | the loop terminates with finished labels, also when it breaks off at an unreachable vertex |
| Dijkstra.SetUp | algorithms/java/Others/Dijkstra.java:118-126 | labels the source 0 and all others infinite, and fills the set |
| Dijkstra.Search | algorithms/java/Others/Dijkstra.java:118-128 | from a vertex of the graph every `dist` becomes the least weight of a walk |
| Dijkstra.LastEdgeCounts | algorithms/java/Others/Dijkstra.java:106-109 | of several edges between the same vertices the last one in the list counts |
| Dijkstra.EndsAreEnds | algorithms/java/Others/Dijkstra.java:99-103 | a name is a vertex iff it is an end of some edge |
| Dijkstra.ArcsAreLastEdges | algorithms/java/Others/Dijkstra.java:106-109 | an arc of the graph built is an edge from its first name to its second, with the weight of the last edge between them, both ways |
| Dijkstra.MakeVertices | algorithms/java/Others/Dijkstra.java:99-103 | one fresh vertex for every name in the edges, without distance, previous vertex or neighbours |
| Dijkstra.EnterArc | algorithms/java/Others/Dijkstra.java:107 | one edge is entered at its first vertex and nothing else changes |
| Dijkstra.MakeArcs | algorithms/java/Others/Dijkstra.java:105-109 | the neighbour maps are the arcs of the edge list |
| Dijkstra.PathTo | algorithms/java/Others/Dijkstra.java:70-81 | all three branches, before or after a search: a vertex without distance is named unreached; otherwise the recursion over `previous` terminates and lists a walk from the source of exactly the vertex's distance, each name with its distance |
| Dijkstra.Graph.constructor | algorithms/java/Others/Dijkstra.java:96-110 | the graph object holds exactly the ends of the edges as vertices and the arcs of the edge list, and its vertices are unlabelled |
| Dijkstra.Graph.Dijkstra | algorithms/java/Others/Dijkstra.java:113-129 | every `dist` becomes the least weight of a walk from the start, and every `previous` the first one polled of the vertices over which it is reached, with positive weights the closest and then the first by name; an unknown start changes nothing |
| Dijkstra.Graph.PrintPath | algorithms/java/Others/Dijkstra.java:155-163 | before any search every vertex is unreached; after one a path is printed iff the vertex is reachable, it is a shortest one, the number beside each name is that vertex's distance, and each name before another is the first one polled of those possible, with positive weights the closest and then the first by name; unknown names are told apart |
| Skyline.TallestIsTallest | algorithms/java/SkylineProblem/SkylineProblem.java:48-63 | the reference height at x is attained by a covering building and exceeded by none |
| Skyline.TallestSplits | algorithms/java/SkylineProblem/SkylineProblem.java:57-62 | the reference height of a range is the maximum over its halves |
| SkylineMerge.EnclosedLeavesNothing | algorithms/java/SkylineProblem/SkylineProblem.java:65-109 | a skyline inside a taller building leaves no point in the merge, whichever of the two lists it is |
| SkylineMerge.MergedIsPrinted | algorithms/java/SkylineProblem/SkylineProblem.java:65-109 | without the variable `maxH`: a point of the visible height is put out for every point taken, except under the other skyline before and after with no drop since the last crest; then the rest of the list that is left |
| SkylineMerge.StaleIsDrop | algorithms/java/SkylineProblem/SkylineProblem.java:75-93 | the condition in terms of the points taken: a drop below the other skyline and no point since that is the higher one |
| SkylineMerge.RepeatsExactly | algorithms/java/SkylineProblem/SkylineProblem.java:65-109 | for all skylines without repeated heights the merged one has none iff no point taken comes up exactly to the visible height or stays under the other skyline after a drop |
| SkylineMerge.RepeatsAtEqualHeight | algorithms/java/SkylineProblem/SkylineProblem.java:78-82 | two overlapping buildings of equal height, with their point in the middle |
| SkylineMerge.RepeatsAfterDrop | algorithms/java/SkylineProblem/SkylineProblem.java:76-77 | two skylines whose merge repeats a height after a drop |
| SkylineMerge.SecondFirstAtSamePlace | algorithms/java/SkylineProblem/SkylineProblem.java:71 | of two points at the same place that of the second list is taken first: the higher building first in the list leaves both, second only its own |
| Skyline.TakeFirst | algorithms/java/SkylineProblem/SkylineProblem.java:71-82 | taking one point keeps the output reading the maximum; a point skipped because of `maxH` is redundant |
| Skyline.StepLeft | algorithms/java/SkylineProblem/SkylineProblem.java:71-82 | the first branch keeps the merge invariant |
| Skyline.StepRight | algorithms/java/SkylineProblem/SkylineProblem.java:83-95 | the second branch keeps the merge invariant |
| Skyline.TakeRest | algorithms/java/SkylineProblem/SkylineProblem.java:98-106 | when one part is used up the rest of the other can be copied |
| Skyline.Take | algorithms/java/SkylineProblem/SkylineProblem.java:71-95 | either branch moves the first point of one list and adds the higher of the two heights there, except when it is lower than the other skyline and `maxH` is that height; `maxH` becomes its height unless it is lower |
| Skyline.MoveAll | algorithms/java/SkylineProblem/SkylineProblem.java:98-106 | the rest of a list moves over in order and the list is left empty |
| Skyline.MergeLoop | algorithms/java/SkylineProblem/SkylineProblem.java:66-96 | the loop ends with exactly one part used up and the output that of the merge on values so far |
| Skyline.MergeSkyline | algorithms/java/SkylineProblem/SkylineProblem.java:65-109 | the merged skyline reads, at every x, the higher of the two, has no more points than both, drops a skyline inside a taller building, repeats a height exactly under the stated condition, and leaves both lists given empty |
| Skyline.FindSkyline | algorithms/java/SkylineProblem/SkylineProblem.java:48-63 | the skyline reads, at every x, the height of the tallest building of the range over x, with at most two points a building, and its points are those of merging the halves |
| Skyline.InnerBuildingHidden | algorithms/java/SkylineProblem/SkylineProblem.java:48-63 | a building inside a taller one leaves no point, in either order |
| Sudoku.OkRow | algorithms/c/misc/sudokusolver.c:14-20 | true iff v is nowhere in the row |
| Sudoku.OkCol | algorithms/c/misc/sudokusolver.c:21-27 | true iff v is nowhere in the column |
| Sudoku.OkBox | algorithms/c/misc/sudokusolver.c:28-35 | true iff v is nowhere in the box |
| Sudoku.IsBoard | algorithms/c/misc/sudokusolver.c:11-17 | N * N cells are enough for every row and column the program indexes |
| Sudoku.UnitsAre | algorithms/c/misc/sudokusolver.c:28-35 | two cells share a unit iff they share a row, a column or one of the boxes of R rows and C columns |
| Sudoku.UnitsCovered | algorithms/c/misc/sudokusolver.c:14-38 | row, column and box scans together look at exactly the cells that share a unit |
| Sudoku.Ok | algorithms/c/misc/sudokusolver.c:36-38 | true iff v clashes with no cell that shares a unit |
| Sudoku.PutSound | algorithms/c/misc/sudokusolver.c:54-56 | a completion after a fitting number is a completion before it |
| Sudoku.PutComplete | algorithms/c/misc/sudokusolver.c:53-56 | the number a completion has in an empty cell fits there and stays possible |
| Sudoku.LeastOfCell | algorithms/c/misc/sudokusolver.c:51-60 | the smallest number for the first empty cell that leads to a completion, with the least completion after it, gives the least completion of all |
| Sudoku.TryCell | algorithms/c/misc/sudokusolver.c:51-60 | leaves a completion and the cells past N * N, the first completion row by row if no cell before is empty; or the board as it was and then there is none |
| Sudoku.Solve | algorithms/c/misc/sudokusolver.c:47-65 | on every board: true iff a completion exists, then with that completion on it which at its first difference from any other, row by row, has the smaller number; otherwise false with the board unchanged; cells past N * N never change |
| Sudoku.ConsistentGivesSudoku | algorithms/c/misc/sudokusolver.c:47-65 | from consistent givens a completion is a sudoku that keeps them |
| Sudoku.SudokuNeedsConsistent | algorithms/c/misc/sudokusolver.c:47-65 | only consistent givens lead to a sudoku |
| Sudoku.SudokuCompletes | algorithms/c/misc/sudokusolver.c:47-65 | every sudoku that keeps the givens is a completion |
| Sudoku.SolvableMeansSudoku | algorithms/c/misc/sudokusolver.c:47-65 | for consistent givens, success means that a sudoku with these givens exists |
| Kmp.FallBack | algorithms/java/Others/KMP.java:19-21 | falling back to the longest border skips no candidate match |
| Kmp.Advance | algorithms/java/Others/KMP.java:23-25 | one more character extends the longest partial match or leaves none |
| Kmp.Shrink | algorithms/java/Others/KMP.java:40-42 | the inner loop ends at the longest partial match the next character continues, or at none, with no more fall-backs than it gives up characters |
| Kmp.ComputePrefixFunction | algorithms/java/Others/KMP.java:34-52 | pi[i] is the length of the longest proper border of the first i + 1 characters; fewer fall-backs than characters |
| Kmp.NextBorder | algorithms/java/Others/KMP.java:40-48 | one round finds the longest border of one character more |
| Kmp.Finish | algorithms/java/Others/KMP.java:27-30 | a full match is recognised exactly, and the restart at its longest border is right |
| Kmp.Feed | algorithms/java/Others/KMP.java:19-30 | after each character q is the longest partial match, and a hit is reported iff the needle ends there; fall-backs are paid for by characters matched |
| Kmp.Scan | algorithms/java/Others/KMP.java:17-31 | the loop prints the occurrences from left to right with at most one fall-back per character read |
| Kmp.KmpMatcher | algorithms/java/Others/KMP.java:13-32 | the starts printed are every occurrence once, ascending, overlaps included, with fewer fall-backs than characters in both strings |
| Kmp.MatcherIsNaive | algorithms/java/Others/KMP.java:13-32 | every position at which the needle occurs is printed once, ascending, overlaps included |
| LongestIncreasing.TailsAscend | algorithms/java/Dynamic Programming/LongestIncreasingSubsequence.java:39-57 | the tails are strictly ascending, as the binary search needs |
| LongestIncreasing.Step | algorithms/java/Dynamic Programming/LongestIncreasingSubsequence.java:45-57 | writing the new element at its place keeps tail[k] the least last element of a subsequence of length k + 1 |
| LongestIncreasing.UpperBound | algorithms/java/Dynamic Programming/LongestIncreasingSubsequence.java:22-32 | returns the place where elements stop being smaller than the key |
| LongestIncreasing.Insert | algorithms/java/Dynamic Programming/LongestIncreasingSubsequence.java:45-57 | whichever of the three cases applies, the tails are right for one element more |
| LongestIncreasing.LisByTails | algorithms/java/Dynamic Programming/LongestIncreasingSubsequence.java:34-61 | returns the greatest length of a strictly increasing subsequence, 0 for the empty array |
| LongestIncreasing.RowDone | algorithms/cpp/Dynamic Programming/Longest Increasing Subsequence.cpp:12-16 | once all earlier elements were looked at, lis[i] is the greatest length ending at i |
| LongestIncreasing.FillRow | algorithms/cpp/Dynamic Programming/Longest Increasing Subsequence.cpp:12-16 | the inner loop makes lis[i] that length and changes no other entry |
| LongestIncreasing.LisQuadratic | algorithms/cpp/Dynamic Programming/Longest Increasing Subsequence.cpp:4-24 | returns the greatest length of a strictly increasing subsequence |
| LongestIncreasing.Largest | algorithms/cpp/Dynamic Programming/Longest Increasing Subsequence.cpp:18-23 | the maximum of the entries is the greatest length |
| LongestIncreasing.BothWays | algorithms/cpp/Dynamic Programming/Longest Increasing Subsequence.cpp:4-24 | the tail-array program and the quadratic one agree on every array |
| LongestValidParentheses.DepthTells | algorithms/java/Dynamic Programming/LongestValidParentheses.java:15-44 | a stretch is well-formed by the bracket grammar iff its depth never falls below the start and returns to it |
| LongestValidParentheses.Opening | algorithms/java/Dynamic Programming/LongestValidParentheses.java:32-36 | in a well-formed stretch the last bracket has a matching one with well-formed parts around it |
| LongestValidParentheses.Enclosed | algorithms/java/Dynamic Programming/LongestValidParentheses.java:29-36 | a balanced stretch followed by a bracketed balanced one is balanced |
| LongestValidParentheses.Closed | algorithms/java/Dynamic Programming/LongestValidParentheses.java:29-36 | a closing bracket with a partner extends the longest stretch by the one before the partner |
| LongestValidParentheses.NotClosed | algorithms/java/Dynamic Programming/LongestValidParentheses.java:28-38 | without a partner no well-formed stretch ends there |
| LongestValidParentheses.Close | algorithms/java/Dynamic Programming/LongestValidParentheses.java:28-38 | both branches give the length of the longest well-formed stretch ending at the bracket |
| LongestValidParentheses.Fill | algorithms/java/Dynamic Programming/LongestValidParentheses.java:27-39 | one round makes res[i] that length, 0 for any other character |
| LongestValidParentheses.GetLongestValidParentheses | algorithms/java/Dynamic Programming/LongestValidParentheses.java:15-44 | for every string, the length of a longest well-formed stretch |
| Rearrangements.RearrangesIsMultiset | algorithms/c/misc/lexicographicPermutations.c:15-44 | rearrangement by letter counts is equality of multisets |
| Rearrangements.LessTotal | algorithms/c/misc/lexicographicPermutations.c:11-13 | the lexicographic order is total on words of one length |
| Permutations.AscendingIsLeast | algorithms/c/misc/lexicographicPermutations.c:40 | an ascending suffix is the least arrangement of its letters |
| Permutations.DescendingIsGreatest | algorithms/c/misc/lexicographicPermutations.c:26-28 | a descending suffix is the greatest arrangement of its letters |
| Permutations.NothingBetween | algorithms/c/misc/lexicographicPermutations.c:24-41 | no rearrangement lies between a word and the next one |
| Permutations.FewerLater | algorithms/c/misc/lexicographicPermutations.c:20-43 | the set of rearrangements still to come shrinks in every round |
| Permutations.SortFrom | algorithms/c/misc/lexicographicPermutations.c:18-40 | the suffix becomes ascending with the same letters and the rest stays |
| Permutations.Ascent | algorithms/c/misc/lexicographicPermutations.c:25-26 | finds the rightmost letter smaller than its successor, or that the word descends |
| Permutations.Replacement | algorithms/c/misc/lexicographicPermutations.c:31-35 | finds the smallest greater letter to the right |
| Permutations.Next | algorithms/c/misc/lexicographicPermutations.c:24-42 | the word becomes its immediate lexicographic successor among the rearrangements, or is reported to be the last |
| Permutations.PrintNext | algorithms/c/misc/lexicographicPermutations.c:20-43 | printing a word extends the list of all rearrangements before the next |
| Permutations.PrintedOnce | algorithms/c/misc/lexicographicPermutations.c:20-43 | no word is printed twice |
| Multinomial.AlphabetExists | algorithms/c/misc/lexicographicPermutations.c:15-44 | every word has a list of its letters without repetition |
| Multinomial.StartingCount | algorithms/c/misc/lexicographicPermutations.c:15-44 | how many rearrangements start with a given letter |
| Multinomial.ArrangementCount | algorithms/c/misc/lexicographicPermutations.c:15-44 | the number of rearrangements times the factorials of the letter counts is the factorial of the length |
| Permutations.PrintedNumber | algorithms/c/misc/lexicographicPermutations.c:20-43 | the list of all rearrangements in order has that many words |
| Permutations.PrintSortedPermutations | algorithms/c/misc/lexicographicPermutations.c:15-44 | terminates having printed exactly the rearrangements of the input, in strictly ascending order, as many as the multinomial coefficient of its letter counts |
| AvlTree.OrderedIsSorted | algorithms/cpp/Datastructures/AVLtree.cpp:72-92 | a tree is in search order iff its inorder sequence is sorted |
| AvlTree.RebalancingKeeps | algorithms/cpp/Datastructures/AVLtree.cpp:80-90 | all four rotation cases keep the inorder sequence |
| AvlTree.InsertRefines | algorithms/cpp/Datastructures/AVLtree.cpp:72-92 | insertion into a search tree is insertion into its sorted list |
| AvlTree.InsertKeepsOrder | algorithms/cpp/Datastructures/AVLtree.cpp:72-92 | insertion keeps the search order and adds exactly one occurrence |
| AvlTree.LeftCaseBalanced | algorithms/cpp/Datastructures/AVLtree.cpp:81-85 | the left cases bring a tree two levels out back into balance |
| AvlTree.RightCaseBalanced | algorithms/cpp/Datastructures/AVLtree.cpp:86-90 | the right cases do too |
| AvlTree.RotationCases | algorithms/cpp/Datastructures/AVLtree.cpp:80-91 | for every tree: in balance nothing changes; otherwise which value comes to the root and what stays below it, for one rotation and for two |
| AvlTree.RootRepaired | algorithms/cpp/Datastructures/AVLtree.cpp:80-91 | however far out of balance the root is, with balanced subtrees it ends in balance |
| AvlTree.InsertRepairsRoot | algorithms/cpp/Datastructures/AVLtree.cpp:72-92 | insertion brings such a root back into balance, also where deletions left it outside |
| AvlTree.WhereItemsGo | algorithms/cpp/Datastructures/AVLtree.cpp:74-79 | a smaller item goes left, any other right, and without a rotation the rest stays |
| AvlTree.GrownLeft | algorithms/cpp/Datastructures/AVLtree.cpp:76-91 | a left subtree one level higher at most is rebalanced to a balanced tree one level higher at most |
| AvlTree.GrownRight | algorithms/cpp/Datastructures/AVLtree.cpp:78-91 | the same for the right subtree |
| AvlTree.InsertKeepsBalance | algorithms/cpp/Datastructures/AVLtree.cpp:72-92 | insertion keeps every balance in -1..1 and adds at most one level |
| AvlTree.BalancedIsFull | algorithms/cpp/Datastructures/AVLtree.cpp:30-40 | a balanced tree of height h has at least Fib(h + 2) - 1 nodes |
| AvlTree.LeastIsFirst | algorithms/cpp/Datastructures/AVLtree.cpp:64-68 | the leftmost value is the first of the inorder sequence |
| AvlTree.DeleteRefines | algorithms/cpp/Datastructures/AVLtree.cpp:96-125 | deletion from a search tree takes one occurrence out of its sorted list, if there is one |
| AvlTree.DeleteKeepsOrder | algorithms/cpp/Datastructures/AVLtree.cpp:96-125 | deletion keeps the search order and removes exactly one occurrence, or nothing |
| AvlTree.WhatDeletionLeaves | algorithms/cpp/Datastructures/AVLtree.cpp:96-125 | deletion leaves the side the key is not on; at the key, the other side, or the left side under the first value of the right one |
| AvlTree.DeletedHeight | algorithms/cpp/Datastructures/AVLtree.cpp:96-125 | exactly when deletion lowers the tree by a level |
| AvlTree.DeleteKeepsBalanceIff | algorithms/cpp/Datastructures/AVLtree.cpp:96-125 | deletion does not rebalance: it keeps the balance iff no subtree on its way that is already the lower one loses a level |
| AvlTree.DeleteMayUnbalance | algorithms/cpp/Datastructures/AVLtree.cpp:94-125 | four insertions and one deletion after which a balance is out of -1..1 |
| AvlTree.InsertAfterDelete | algorithms/cpp/Datastructures/AVLtree.cpp:72-125 | five insertions, a deletion that leaves the root out of balance, and an insertion that repairs it, with the tree they leave |
| AvlTree.EveryRun | algorithms/cpp/Datastructures/AVLtree.cpp:72-125 | after every run of insertions and deletions the tree is ordered and holds exactly what a bag would hold |
| AvlTree.EveryInsertOnlyRun | algorithms/cpp/Datastructures/AVLtree.cpp:72-92 | after every run of insertions the tree is in balance and full for its height |
| AvlTree.InsertKeeps | algorithms/cpp/Datastructures/AVLtree.cpp:72-92 | order, contents and balance of an insertion in one statement |
| AvlTree.DeleteKeeps | algorithms/cpp/Datastructures/AVLtree.cpp:96-125 | order, contents and exact balance condition of a deletion in one statement |
| AvlTree.RunKeeps | algorithms/cpp/Datastructures/AVLtree.cpp:72-125 | order, contents, balance and fullness of a run in one statement |
| Avl.HeightOf | algorithms/cpp/Datastructures/AVLtree.cpp:30-34 | the height of the tree the nodes spell |
| Avl.GetBalance | algorithms/cpp/Datastructures/AVLtree.cpp:38-40 | left height minus right height of that tree |
| Avl.RightRotate | algorithms/cpp/Datastructures/AVLtree.cpp:44-50 | relinking the same nodes spells the rotated tree |
| Avl.LeftRotate | algorithms/cpp/Datastructures/AVLtree.cpp:54-60 | relinking the same nodes spells the rotated tree |
| Avl.FixLeft | algorithms/cpp/Datastructures/AVLtree.cpp:81-85 | one or two rotations as the left child leans |
| Avl.FixRight | algorithms/cpp/Datastructures/AVLtree.cpp:86-90 | one or two rotations as the right child leans |
| Avl.Rebalance | algorithms/cpp/Datastructures/AVLtree.cpp:80-91 | the nodes spell the rebalanced tree: unchanged if in balance, and with balanced subtrees always in balance at the root |
| Avl.Insert | algorithms/cpp/Datastructures/AVLtree.cpp:72-92 | the nodes spell the tree with the item inserted: ordered if it was, one occurrence more, in balance if it was, in balance at the root if the subtrees were; every node stands at one place, and they are the old nodes and one new one |
| Avl.InsertBelow | algorithms/cpp/Datastructures/AVLtree.cpp:76-79 | only the side where the item belongs changes |
| Avl.MinValue | algorithms/cpp/Datastructures/AVLtree.cpp:64-68 | a node of the tree with its least value |
| Avl.DeleteNode | algorithms/cpp/Datastructures/AVLtree.cpp:96-125 | the nodes spell the tree with the key deleted: ordered if it was, one occurrence less or nothing, in balance iff the condition holds; no node is used that was not there |
| Avl.DeleteRoot | algorithms/cpp/Datastructures/AVLtree.cpp:104-122 | a found key: the node is bypassed or takes over the least value on its right |
| Avl.Operate | algorithms/cpp/Datastructures/AVLtree.cpp:72-125 | one operation takes the nodes from the tree of a run to the tree of the longer run |
| Avl.Replay | algorithms/cpp/Datastructures/AVLtree.cpp:144-158 | after any run the nodes spell the tree of the run |
| Avl.Perform | algorithms/cpp/Datastructures/AVLtree.cpp:144-158 | after any run of insertions and deletions the nodes spell an ordered tree with exactly the values left, in balance and full if nothing was deleted |
| Mo.BeforeIsStrictWeak | algorithms/cpp/Range queries/MO.cpp:25-30 | the comparison is a strict order whose ties are an equivalence, as the library sort demands |
| Mo.CountTells | algorithms/cpp/Range queries/MO.cpp:11-22 | a signed prefix-count difference is at least one iff the value occurs in the range, also when the range is inverted |
| Mo.LeftIsShort | algorithms/cpp/Range queries/MO.cpp:25-59 | on sorted queries the left end moves at most one block per query and once along the array |
| Mo.RightIsShort | algorithms/cpp/Range queries/MO.cpp:25-69 | on sorted queries the right end goes back at most once per block |
| Mo.SortedMovesLittle | algorithms/cpp/Range queries/MO.cpp:25-71 | on sorted queries the calls of `add` and `remove` are at most 2n + t(B - 1) + 2n(n / B) |
| Mo.RootBlocks | algorithms/cpp/Range queries/MO.cpp:37 | with B * B at least n that is at most 2n + (2n + t)B |
| Mo.SortQueries | algorithms/cpp/Range queries/MO.cpp:45 | the same queries, sorted by the comparison |
| Mo.Window.constructor | algorithms/cpp/Range queries/MO.cpp:5-9 | all counters zero stand for the empty window |
| Mo.Window.Add | algorithms/cpp/Range queries/MO.cpp:11-16 | one counter grows, `ans` stays the number of counters of at least one, and the call is counted |
| Mo.Window.Remove | algorithms/cpp/Range queries/MO.cpp:17-22 | one counter falls, `ans` stays the number of counters of at least one, and the call is counted |
| Mo.Window.MoveLeft | algorithms/cpp/Range queries/MO.cpp:50-59 | the counters are those of the window with the new left end, inverted windows included |
| Mo.Window.MoveRight | algorithms/cpp/Range queries/MO.cpp:60-69 | the counters are those of the window with the new right end |
| Mo.Window.AnsIsDistinct | algorithms/cpp/Range queries/MO.cpp:70 | `ans` is the number of distinct values in the window |
| Mo.Window.AnswerAll | algorithms/cpp/Range queries/MO.cpp:46-71 | in whatever order the queries are processed, each answer is the distinct count of its range, stored at its number; the calls of `add` and `remove` are exactly the distances the ends travel |
| Mo.Window.Solve | algorithms/cpp/Range queries/MO.cpp:45-71 | sort and answer: all answers right, within both bounds on moves |

## Left out

- The device, codec, user-interface, kernel and network parts of the repository: thin layers over libraries that are not in it.
- Machine-integer overflow everywhere; in particular `INT_MAX + w` cannot occur in the model because "not reached" is a value of its own.
- QueueProtocol: the fixed size of the `action` buffer, `Free_Queue_Item`, `Print_Queue_Items` and `is_Queue_empty`; unlocking a mutex from a thread that does not hold it is undefined in POSIX and is read here as releasing a binary semaphore.
- QueueProtocol: no fairness is assumed, so nothing says that a waiting thread is ever scheduled.
- Huffman.MakeHuffmanTree: an empty list, on which the source throws `NoSuchElementException`, gives null; the printing of codes, which finds the root by its frequency, is not modelled.
- Huffman.MakeHuffmanTree: the sort the source repeats on a list that already holds one node is skipped.
- Kruskal.Kruskal: reading and sorting the edges; the result is stated for any order and the minimum for sorted edges.
- BellmanFord.BellmanFord: `addEdge`, whose insertion index is shared by all graphs; the edges are a given list.
- SegmentTree.RunCommands: the fixed array size, for which the model takes four slots per element, and n = 0, on which the source recurses without end; the tests for low > high, which no call from there meets.
- Dijkstra.Graph.Dijkstra: negative weights, for which the source promises nothing; hash iteration order is any order.
- Names.CompareNamesIsDictionary: characters are compared as code points, in Java as UTF-16 units.
- Skyline.FindSkyline: no building at all, on which the source reads outside its array; buildings have left <= right and height >= 0.
- Kmp.KmpMatcher: the empty needle, on which the source writes outside its array.
- LongestValidParentheses.GetLongestValidParentheses: the null string, for which the source returns 0.
- Permutations.SortFrom: `qsort` is a library routine; a selection sort stands for it, and only that it sorts is used.
- Avl.Insert: the node's own `height` field, which the source sets to 0 and never reads.
- Avl.DeleteNode: freeing memory; a deleted node is merely no longer reachable.
- Mo.Window.Solve: reading the input and computing the bucket size, which is a parameter; an insertion sort stands for the library sort, and only that it sorts is used.
- The other programs under `algorithms/` (other sorts, searches, trees, ciphers, numerical methods and the like) are not modelled.
