# Search trees and a weighted graph, modelled in Dafny

This project models the algorithmic core of a small Python teaching
repository that indexes cities by integer key and gives each city a map of
neighbourhoods. The core has three parts:

- **the unbalanced binary search tree** (`arvore_binaria.py`): insertion
  that ignores a duplicate key, search, and the in-order, pre-order and
  post-order traversals;
- **the AVL tree** (`arvore_avl.py`): nodes that store their height, the
  height and balance-factor helpers, the two single rotations, and the
  recursive insertion that recomputes heights on the way back up and
  rebalances with the RR, LL, LR or RL case (in that order);
- **the weighted graph** (`grafo.py`): adjacency lists of
  `(neighbour, weight)` pairs, vertex and edge insertion, breadth-first
  and depth-first traversal, and Dijkstra's least-cost path with a
  priority queue, a stale-entry skip, an early stop at the target and path
  reconstruction from predecessors.

Modules:

| file | module | contents |
|---|---|---|
| `tree.dfy` | `Trees` | the node shape shared by both trees, search, the three traversals and their properties |
| `bst.dfy` | `Bst` | the recursive insertion and the `BinarySearchTree` object |
| `avl.dfy` | `Avl` | heights, balance factor, rotations, rebalancing, insertion and the `AvlTree` object |
| `walks.dfy` | `Walks` | adjacency lists, walks, reachability, weighted walks and optimal distances |
| `shortest.dfy` | `ShortestPaths` | the distance type, the priority-queue vocabulary and the invariant of the search with its lemmas |
| `graph.dfy` | `Graphs` | the `Graph` object with its edge insertion, traversals and the search itself |

Both trees share one node datatype, `Tree<V, X>`. The extra field `X` is
`()` for a plain node and the stored height for an AVL node, as the AVL
node extends the plain node in the source. Search and the traversals are
defined once, on this shared shape, and serve both trees. In the source only
the plain tree class has them: the AVL tree class (`arvore_avl.py` line 10)
has no base class and no search or traversal methods, although `main.py`
calls `buscar`, `preorder`, `inorder` and `postorder` on it (lines 23 and
42-44). The model applies the plain tree's definitions to the AVL tree, as
the comment at `arvore_avl.py` line 121 says was meant.
The tree objects are classes whose `Insert` replaces `root`. Their
invariants are: the root is a search tree; for the AVL tree, it is also
height-correct and balanced.

The graph is a class whose `adj` field maps each vertex to its edge list.
`Valid()` says that every edge leads to a vertex of the map. The edge
insertion creates both endpoints, so it always keeps `Valid()`. The three
queries are read-only methods with the source's loops:

- **Breadth-first and depth-first traversal** return the missing-start
  result when the start is absent. Otherwise they return a duplicate-free
  order that begins at the start and contains exactly the vertices
  reachable from it.
- **The least-cost search** returns infinity and an empty path when an
  endpoint is absent. Otherwise it returns the least cost over all walks,
  and a path that is a walk of exactly that cost. When the target cannot
  be reached it returns infinity and the one-vertex path `[start]`.

Distances are `Dist = Inf | Fin(n)`, so the float infinity of the source
is an explicit case. The priority queue is a multiset of `(cost, vertex)`
entries, and a pop takes any entry of least cost. Every property is proved
for every choice of least entry.

An unreachable target does not give an empty path. The reconstruction
appends the start vertex after an empty predecessor walk (`grafo.py`
lines 118-124), so the path is `[start]`; the model keeps that behaviour,
which also lets a caller tell it apart from a missing endpoint.

## Model

| member | source | states |
|---|---|---|
| Trees.Search | arvore_binaria.py:41-55 | a node that search returns holds the searched key, is a subtree of the tree, and its key is one of the tree's keys, whatever the tree's shape |
| Trees.SearchComplete | arvore_binaria.py:46-53 | on a search tree, search returns a node exactly when the key is stored (both directions) |
| Trees.Inorder | arvore_binaria.py:58-65 | the in-order traversal has one entry per node |
| Trees.Preorder | arvore_binaria.py:67-74 | the pre-order traversal has one entry per node and starts with the root's key |
| Trees.Postorder | arvore_binaria.py:76-83 | the post-order traversal has one entry per node and ends with the root's key |
| Trees.TraversalBags | arvore_binaria.py:58-83 | each traversal lists every key of the tree as often as it occurs in the tree (multiset equality) |
| Trees.Entries | arvore_binaria.py:58-65 | the in-order list of key-value pairs has one entry per node |
| Trees.EntryKeys | arvore_binaria.py:58-65 | every key in the in-order key-value list is a key of the tree |
| Trees.FindsIffEntry | arvore_binaria.py:41-55 | on a search tree, search for a key finds a node holding a value exactly when that key-value pair is in the in-order list (both directions) |
| Trees.TraversalKeys | arvore_binaria.py:58-83 | each traversal lists exactly the set of keys of the tree |
| Trees.BstIffInorderIncreasing | arvore_binaria.py:58-65 | a tree has the search-tree ordering if and only if its in-order traversal is strictly increasing |
| Trees.InorderSorted | arvore_binaria.py:58-65 | on a search tree, the in-order traversal is strictly increasing |
| Trees.TraversalsArePermutations | arvore_binaria.py:58-83 | on a search tree, the three traversals have no duplicates, are permutations of one another, and have as many entries as there are nodes and keys |
| Bst.Leaf | arvore_binaria.py:1-7 | a new node holds just its key, is a search tree, and traverses in order to that one key |
| Bst.InsertNode | arvore_binaria.py:26-37 | insertion yields a non-empty tree whose keys are the old keys plus the new one, and keeps the search-tree ordering |
| Bst.InsertDuplicate | arvore_binaria.py:26-37 | on a search tree, inserting a key that is already stored returns the tree unchanged, so the stored value is not overwritten |
| Bst.InsertSize | arvore_binaria.py:26-37 | on a search tree, insertion adds one node when the key is new and none otherwise |
| Bst.SearchAfterInsert | arvore_binaria.py:17-55 | after inserting into a search tree, search finds the key: the new leaf with the new value if the key was new, the old node otherwise |
| Bst.SearchOtherAfterInsert | arvore_binaria.py:17-55 | inserting one key does not change whether search finds another key, nor the value it finds |
| Bst.BinarySearchTree.constructor | arvore_binaria.py:14-15 | a new tree is empty and satisfies the search-tree invariant |
| Bst.BinarySearchTree.Insert | arvore_binaria.py:17-39 | an empty tree gets the new leaf as its root; otherwise the root becomes the recursive insertion's result; the key set grows by the key; a duplicate key leaves the tree as it was; the search-tree invariant is kept |
| Avl.NewLeaf | arvore_avl.py:4-8 | a new AVL node holds just its key with its value, has height 1 and is an AVL tree |
| Avl.Height | arvore_avl.py:19-21 | the height of the empty tree is 0 |
| Avl.StoredHeightIsTrue | arvore_avl.py:27-29 | when every node stores one more than its higher child's height, the stored height is the length of the longest branch |
| Avl.BalanceFactor | arvore_avl.py:23-25 | the balance factor is 0 for the empty tree, and for a height-correct node it is the left child's true height minus the right child's |
| Avl.UpdateHeight | arvore_avl.py:27-29 | recomputing a node's height changes only the height (the in-order key-value entries stay the same), makes it correct when the children's heights are correct, and changes nothing when it was correct already |
| Avl.RotateRight | arvore_avl.py:32-52 | the right rotation makes the left child the root with the old root as its right child, keeps the in-order sequence of keys and of key-value entries, keeps the search-tree ordering, and leaves correct heights when the three moved subtrees have them |
| Avl.RotateLeft | arvore_avl.py:54-74 | the mirror image of the right rotation, with the same guarantees |
| Avl.Rebalance | arvore_avl.py:93-119 | rebalancing keeps the in-order sequence of keys and of key-value entries, and keeps the search-tree ordering |
| Avl.InsertRec | arvore_avl.py:81-119 | inserting into an AVL tree yields an AVL tree whose keys are the old keys plus the new one; for a new key the key-value entries are the old ones plus the new key with its value, so no other value changes; a duplicate key returns the tree unchanged; the height grows by at most one, and when it grows the root is kept and leans toward the side of the insertion |
| Avl.InsertRecFinds | arvore_avl.py:81-119 | after inserting a new key, searching for it finds the inserted value; a duplicate key leaves the tree unchanged; searching for any other key gives the same outcome and the same value as before |
| Avl.AddedEntrySearches | arvore_avl.py:81-119 | when a search tree's entries are another's plus one new key-value pair, search finds that value for the new key and agrees with the old tree on every other key |
| Avl.OtherEntriesKept | arvore_avl.py:81-119 | adding one entry for key k changes no entry of any other key |
| Avl.LeftInsertRebalances | arvore_avl.py:86-119 | after inserting into the left child of an AVL node, the rotations the rebalancing chooses are defined and the rebalanced node satisfies the insertion guarantees, including that its entries are the old ones plus the new key with its value |
| Avl.LeftHeavyShape | arvore_avl.py:97-112 | when the left child grew two higher than the right, the key was new, the left child is an AVL tree whose balance factor is 1 (key went left of its root) or -1 (key went right) |
| Avl.LeftHeavyFixed | arvore_avl.py:105-112 | in the LL and LR cases the rebalanced node is an AVL tree of the original height with the new key added |
| Avl.LeftNotHeavy | arvore_avl.py:94-119 | when the left side is not two higher, no rotation happens and the node with its height recomputed satisfies the insertion guarantees |
| Avl.RightInsertRebalances | arvore_avl.py:88-119 | the mirror image of the left case for an insertion into the right child |
| Avl.RightHeavyShape | arvore_avl.py:97-117 | the mirror image of the left-heavy shape |
| Avl.RightHeavyFixed | arvore_avl.py:101-117 | in the RR and RL cases the rebalanced node is an AVL tree of the original height with the new key added |
| Avl.RightNotHeavy | arvore_avl.py:94-119 | the mirror image of the left no-rotation case |
| Avl.SingleRightFixes | arvore_avl.py:105-107 | a right rotation of a node whose left child is two higher and leans left gives correct heights, balance, and height two more than the old right child |
| Avl.SingleLeftFixes | arvore_avl.py:101-103 | the mirror image: a left rotation fixes the RR case |
| Avl.DoubleLeftRightFixes | arvore_avl.py:109-112 | a left rotation of the left child followed by a right rotation fixes the LR case: the needed grandchild exists, and heights, balance and the resulting height are right |
| Avl.DoubleRightLeftFixes | arvore_avl.py:114-117 | the mirror image for the RL case |
| Avl.AvlTree.constructor | arvore_avl.py:15-16 | a new tree is empty and satisfies the AVL invariant |
| Avl.AvlTree.Insert | arvore_avl.py:77-79 | the root becomes the recursive insertion's result, stays an AVL tree, gains the key, is unchanged for a duplicate key, and grows in height by at most one; a new key is then found with its value, and every other key's search gives the same outcome and value as before |
| Walks.ClosedSetHoldsReachable | grafo.py:43-51 | a set containing the start that no edge leaves holds every vertex reachable from the start |
| Walks.ReachableIffWeightedWalk | grafo.py:79-126 | a vertex is reachable exactly when some weighted walk over the stored edges leads to it |
| Walks.AppendKeepsClosed | grafo.py:21-26 | appending an edge between two existing vertices keeps every edge pointing at a vertex |
| Graphs.Graph.constructor | grafo.py:8-9 | a new graph has no vertices |
| Graphs.Graph.AddVertex | grafo.py:11-14 | a new vertex gets an empty edge list; an existing vertex is left as it is |
| Graphs.Graph.AddEdge | grafo.py:16-26 | both endpoints exist afterwards; `from` gains `(to, weight)` at the end of its list; unless directed, `to` gains `(from, weight)` after it (so a self-loop gets both entries); every other list is unchanged; every edge still leads to a vertex |
| Graphs.Graph.Bfs | grafo.py:29-53 | the missing-start result exactly when the start is absent; otherwise a duplicate-free order beginning at the start that contains exactly the reachable vertices |
| Graphs.Graph.EnqueueNeighbours | grafo.py:48-51 | every neighbour is marked afterwards; the queue only grows at its end, and only when something new was marked; marked vertices are exactly those recorded or queued, all reachable and with no duplicates |
| Graphs.Graph.Dfs | grafo.py:56-76 | the missing-start result exactly when the start is absent; otherwise a duplicate-free order beginning at the start that contains exactly the reachable vertices |
| Graphs.Graph.DfsVisit | grafo.py:67-73 | the visit extends the recorded order (the visited vertex comes right after what was recorded before), marks exactly what it records, and leaves every marked vertex outside the call stack with all its neighbours marked |
| Graphs.Graph.Dijkstra | grafo.py:79-126 | infinity and an empty path when an endpoint is absent; otherwise the path starts at the start; the cost is infinite exactly when the target is unreachable, and then the path is `[start]`; otherwise the path is a walk to the target whose weight is the cost, and no walk is cheaper |
| Graphs.Graph.ShortestDistances | grafo.py:87-115 | on exit the distances cover every vertex with the start at 0; the target's finite distance is optimal, and an infinite one means the target is unreachable; the start has no predecessor, every other finite vertex has one, and each predecessor is settled earlier, is finite and has an edge that accounts for its successor's distance |
| Graphs.Graph.SettleAndRelax | grafo.py:104-115 | after a fresh pop of a vertex other than the target, relaxing its edges keeps the search invariant; a vertex popped for the first time joins the settled set |
| Graphs.Graph.RelaxEdges | grafo.py:109-115 | relaxing every edge of a settled vertex in list order restores the search invariant, and changes nothing when its edges were already relaxed |
| Graphs.Graph.RebuildPath | grafo.py:117-124 | the rebuilt path is the target's predecessor chain back to a vertex with no predecessor, with the start in front |
| Graphs.Reversed | grafo.py:124 | the reversal has the same length and holds the elements in the opposite order |
| Graphs.ReverseInPlace | grafo.py:124 | the array afterwards holds its old contents reversed |
| ShortestPaths.MinExists | grafo.py:98 | a non-empty priority queue has an entry of least cost to pop |
| ShortestPaths.InitialInv | grafo.py:87-95 | the initial queue, distances and empty predecessor map satisfy the search invariant |
| ShortestPaths.Popped | grafo.py:98-101 | a queued entry names a vertex of the graph whose finite distance is no dearer than the entry |
| ShortestPaths.PopOptimal | grafo.py:98-106 | a popped least entry that is not stale carries its vertex's distance, and no walk to that vertex is cheaper |
| ShortestPaths.DropEntry | grafo.py:101-102 | dropping a stale entry, or one for a settled vertex, keeps the search invariant |
| ShortestPaths.Settle | grafo.py:98-106 | settling a fresh least entry keeps the invariant, with the new vertex's edges still to relax |
| ShortestPaths.SettleAcyclic | grafo.py:114 | numbering a newly settled vertex after all others keeps the predecessor chains free of cycles |
| ShortestPaths.Rebuilt | grafo.py:118-123 | the path spelled by predecessors starts at the start vertex; it ends at the target when the target has a predecessor, and is `[start]` when it has none |
| ShortestPaths.PredWalk | grafo.py:117-124 | for a vertex of finite distance, the predecessor path is a weighted walk from the start to it costing no more than its distance |
| ShortestPaths.WalkBound | grafo.py:97-115 | every weighted walk from the start costs at least some queued entry, or ends at a settled vertex whose distance is no more than its cost |
| ShortestPaths.RelaxSkips | grafo.py:110-112 | an edge that offers nothing cheaper changes nothing, and counts as relaxed |
| ShortestPaths.ImprovedNotDone | grafo.py:110-115 | an edge that improves its target's distance never leads to a settled vertex |
| ShortestPaths.RelaxImproves | grafo.py:110-115 | an improving edge gives its target the new distance, the current vertex as predecessor and a queue entry, and the invariant still holds |
| ShortestPaths.RelaxStep | grafo.py:109-115 | one step of the relaxation loop keeps the loop invariant, for either outcome of the comparison |
| ShortestPaths.EmptyQueueDecides | grafo.py:97 | when the queue runs dry, a finite distance is optimal and an infinite one means unreachable |
| ShortestPaths.Conclude | grafo.py:117-126 | once the target's distance is decided, that distance and the path its predecessors spell meet the search's promise |

## Left out

- Nodes are values, not shared objects. The source re-links nodes in place (`esquerda`, `direita` and `altura` are reassigned during insertion and rotation). The model rebuilds the subtree instead, so it does not capture aliasing of nodes held outside the tree.
- The source's AVL tree class has no `buscar`, `inorder`, `preorder` or `postorder` methods, so the calls in `main.py` lines 23 and 42-44 would fail there. The model gives the AVL tree the plain tree's search and traversals instead (the `Trees` definitions), as the comment at `arvore_avl.py` line 121 intends.
- Keys are integers. The source compares any ordered Python values.
- Node removal is not modelled: the source only announces it in comments (`arvore_binaria.py` lines 85-86, `arvore_avl.py` line 121).
- Avl.InsertRec requires an AVL tree. The source only ever applies the insertion to the root of its own tree, which the class invariant keeps AVL. On an arbitrary unbalanced tree the source's LR and RL cases could reach a missing grandchild.
- Edge weights are natural numbers. The source accepts any Python number; negative or fractional weights and the float infinity are not modelled beyond `Dist.Inf`. Optimality needs non-negative weights.
- The priority queue is a multiset, and a pop takes any least-cost entry. The binary-heap layout of `heapq` and its tie-break on the vertex label are not modelled, so the order in which equal-cost vertices are settled is left open. Every contract holds for every such order.
- The missing-start string of the traversals is the `StartNotFound` result.
- Graphs.Graph.Bfs and Graphs.Graph.Dfs state which vertices are visited, that each appears once, and that the start comes first. They do not state the exact level order or depth-first order beyond that. `DfsVisit` does state that each visit appends its vertex right after what was recorded before.
- The `main.py` menu, printing and the city records are not part of this model, nor are the complexity figures in the docstrings.
- Recursion depth limits of Python are not modelled.
