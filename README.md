# Verified model of two AVL trees: a key/value map and an interval multi-tree

This project is a Dafny model of the two header-only containers of the `intervaltree`
repository:

- `AvlTree<TKey, TValue>` (`AvlTree.h`), an ordered map with unique keys kept as a
  height-balanced binary search tree of pointer-linked nodes;
- `IntervalMultiTree<TInterval, TValue>` (`IntervalMultiTree.h`), the same AVL engine keyed on
  the `begin` of each node's interval, where every node also stores its interval's `end`,
  `subtreeEnd` (the largest `end` in its subtree) and a vector of values, and where
  `CollectQueryValues(point, out)` appends to `out` every value stored at a node whose begin
  and stored end contain `point`. A value inserted under a begin that is already stored is filed
  under the end stored first, so the query can miss it when its own interval contains the point
  and the stored one does not (SecondEndDropped shows such a case).

Each container is modelled at two levels.

- **Specification modules** (`avl_tree_spec.dfy`, module `AvlTreeSpec`;
  `interval_tree_spec.dfy`, module `IntervalTreeSpec`). They hold the node-level algorithms as
  functions on subtree values. A `Tree` records, at every node, the key, the value and the
  stored `height` field, so the functions follow the C++ code step by step:
  - which heights are recomputed, and in what order;
  - where `AdjustSubtreeMax` runs;
  - which of the four rebalancing cases applies.

  The lemmas prove what the algorithms promise:
  - strict search-tree order;
  - correct stored heights (a leaf has height 1, an absent child 0);
  - the AVL balance condition;
  - the `subtreeEnd` invariant;
  - the exact effect of insertion and removal on the stored keys, values and entries;
  - that the pruned stabbing query reports the same values as a linear scan over the stored
    (interval, value) entries, which is the brute-force oracle of the benchmarks.
- **Implementation modules** (`avl_tree_impl.dfy`, module `AvlTreeImpl`;
  `interval_tree_impl.dfy`, module `IntervalTreeImpl`). They hold the pointer programs as
  classes.
  - Nodes live in a heap `nodes: map<nat, Node>` from addresses to nodes, and a `NodePtr` is
    `Null` or an address.
  - `NewNode` allocates a fresh address and increments `nodesCount`; `DeleteNode` frees the
    address and decrements the counter.
  - The recursive `SubtreeInsert` and `SubtreeRemove` rewrite child links, heights and
    `subtreeEnd` in place and return the new subtree root, as the C++ code does.
  - `Find`, `GetLeftermost` and the query's copy of a node's values are `while` loops.
  - Each heap method is proved to build exactly the subtree the corresponding specification
    function computes, and to touch only the nodes of the subtree it was given
    (`Realizes`/`Replaced` in `AvlTreeImpl`).
  - The class invariant `Valid()` ties the heap to a ghost `tree`:
    - the live nodes are exactly that tree's nodes;
    - `nodesCount` counts them;
    - the tree is an AVL search tree (and, for the interval tree, every `subtreeEnd` is correct).
  - The constructor establishes `Valid()`, and every public operation preserves it.

Keys and interval edges are `int`. Values are generic. The data model:

- `AvlTreeSpec.Tree` is a subtree as a value: a node's left child, key, value, stored `height`
  and right child (the fields of `struct Node`, `AvlTree.h:11-17`).
- `AvlTreeImpl.NodePtr` is `Null` or an address, the `NodePtr`/`kNullNode` of `AvlTree.h:8-9`
  and `IntervalMultiTree.h:9-11`. `AvlTreeImpl.Node` is the heap cell with the fields of
  `AvlTree.h:11-17`.
- `IntervalTreeSpec.Payload` holds what an interval node stores besides its links, its height
  and its begin: the end, `subtreeEnd` and the values (`IntervalMultiTree.h:13-20`).
- `IntervalTreeSpec.Interval` and `IntervalTreeSpec.Contains` are the tests' `Interval` struct
  with its half-open `Contains` (`IntervalMultiTreeTests.cpp:12-21`). The header calls
  `TInterval::Contains` (`IntervalMultiTree.h:294`).
- `AvlTreeSpec.Option` is the `std::optional` that `Find` returns (`AvlTree.h:257-269`).

## Model

| member | source | states |
|---|---|---|
| AvlTreeSpec.Max | AvlTree.h:20 | the larger of two integers, the `max` the height updates call (also `IntervalMultiTree.h:23`) |
| AvlTreeSpec.Height | AvlTree.h:83-89 | the stored height of a subtree, and 0 for an absent one, as `GetHeight(NodePtr)` returns it |
| AvlTreeSpec.Balance | AvlTree.h:78-81 | a node's right stored height minus its left stored height, as `GetBalance` computes it; negative means left-heavy |
| AvlTreeSpec.Fix | AvlTree.h:152-154 | rewrites a node's height as 1 plus the larger of its children's stored heights and keeps everything else |
| AvlTreeSpec.RotateLeft | AvlTree.h:101-115 | the right child becomes the root, the old root its left child, and the old root takes the right child's left subtree; the demoted node's height is recomputed before the new root's; RotationsKeepPairs, RotateLeftKeepsBst and SingleLeftOk state its effect. An unrotatable tree (no child on the rotating side) is returned as it is, where the source would dereference null; InsertLeftRotationsPossible, InsertRightRotationsPossible and RemoveRotationsPossible show the callers never pass one |
| AvlTreeSpec.RotateRight | AvlTree.h:117-131 | the mirror image: the left child becomes the root and the old root takes its right subtree; the demoted node's height is recomputed first; RotationsKeepPairs, RotateRightKeepsBst and SingleRightOk state its effect. An unrotatable tree (no child on the rotating side) is returned as it is, where the source would dereference null; InsertLeftRotationsPossible, InsertRightRotationsPossible and RemoveRotationsPossible show the callers never pass one |
| AvlTreeSpec.RebalanceInsert | AvlTree.h:156-180 | the first of the source's four cases, in its order, chosen by the node's balance and by comparing the inserted key with the heavy child's key: a single right rotation, a single left rotation, a left-right or a right-left double rotation; otherwise the node as it is; RebalanceInsertOk and RebalanceInsertKeeps state its effect |
| AvlTreeSpec.Insert | AvlTree.h:133-181 | an empty subtree becomes a leaf of height 1; otherwise the key descends left or right and the node is fixed and rebalanced on the way back up; an equal key returns the subtree unchanged; InsertPairs, InsertBalanced and InsertAvl state its effect |
| AvlTreeSpec.RebalanceRemove | AvlTree.h:210-236 | the first of the source's four cases, in its order, chosen by the node's balance and the heavy child's balance; otherwise the node as it is; RebalanceRemoveOk and RebalanceRemoveKeeps state its effect |
| AvlTreeSpec.Unlink | AvlTree.h:194-208 | the subtree that replaces the matched node: its right child when it has no left one, its left child when it has no right one, and otherwise a new node holding the in-order successor's key and value above the left subtree and the right subtree with the successor removed; UnlinkKeys, UnlinkPairs and UnlinkBalanced state its effect |
| AvlTreeSpec.Remove | AvlTree.h:183-239 | the key descends left or right; the matched node is unlinked; a non-empty new root is fixed and rebalanced on the way back up; an absent key leaves the subtree as it is; RemoveKeys, RemovePairs and RemoveAvl state its effect |
| AvlTreeSpec.Lookup | AvlTree.h:256-269 | the descent of `Find`: left below a larger key, right below a smaller one, the stored value at an equal key, and nothing at an empty subtree; LookupPairs, LookupAfterInsert and LookupAfterRemove state what it finds |
| AvlTreeSpec.Leftmost | AvlTree.h:91-99 | following left children from a non-empty subtree ends at a node without a left child, which is where the `GetLeftermost` loop stops |
| AvlTreeSpec.LeftmostIsMinimum | AvlTree.h:91-99 | in a search tree, the leftmost node holds the smallest key, and its key/value pair is one of the subtree's pairs |
| AvlTreeSpec.PairsUnique | AvlTree.h:144-150 | in a search tree, a key is paired with one value only |
| AvlTreeSpec.SizeIsKeyCount | AvlTree.h:51-60 | a search tree has as many nodes as distinct keys |
| AvlTreeSpec.RotationsKeepInOrder | AvlTree.h:101-131 | both rotations keep the in-order key/value sequence |
| AvlTreeSpec.RotationsKeepPairs | AvlTree.h:101-131 | both rotations keep the key set, the key/value pairs and the node count |
| AvlTreeSpec.RotateLeftKeepsBst | AvlTree.h:101-115 | a left rotation of a search tree is a search tree |
| AvlTreeSpec.RotateRightKeepsBst | AvlTree.h:117-131 | a right rotation of a search tree is a search tree |
| AvlTreeSpec.RotationsFixHeights | AvlTree.h:101-131 | recomputing the demoted node's height before the new root's leaves every stored height correct, given correct heights in the three moved subtrees |
| AvlTreeSpec.SingleRightOk | AvlTree.h:215-218 | a right rotation of a node two levels left-heavy, whose left child is not right-heavy, yields a balanced tree with correct heights, and its height is as predicted by the child's balance |
| AvlTreeSpec.SingleLeftOk | AvlTree.h:220-223 | the mirror case: a left rotation of a node two levels right-heavy, whose right child is not left-heavy, yields a balanced tree with correct heights, of the predicted height |
| AvlTreeSpec.DoubleLeftRightOk | AvlTree.h:225-229 | when the left child leans right, rotating it left and then the node right yields a balanced tree one level lower than the unbalanced node |
| AvlTreeSpec.DoubleRightLeftOk | AvlTree.h:231-235 | the mirror case: a right-left double rotation yields a balanced tree one level lower than the unbalanced node |
| AvlTreeSpec.DoubleRotationsKeep | AvlTree.h:168-178 | both double rotations keep search-tree order, keys, pairs and size |
| AvlTreeSpec.RebalanceInsertKeeps | AvlTree.h:156-180 | the insertion rebalancing step keeps search-tree order, keys, pairs and size |
| AvlTreeSpec.RebalanceRemoveKeeps | AvlTree.h:213-235 | the removal rebalancing step keeps search-tree order, keys, pairs and size |
| AvlTreeSpec.RebalanceKeepsContents | AvlTree.h:152-180 | recomputing a height, and either rebalancing step, keeps the pairs and the size of any subtree |
| AvlTreeSpec.RebalanceInsertOk | AvlTree.h:156-180 | after an insertion below it, a node out of balance by 2 is restored to balance with correct heights, one level lower; a node within balance is left as it is |
| AvlTreeSpec.InsertPairs | AvlTree.h:133-181 | insertion keeps a search tree, adds the key, and adds the pair `(k, v)` exactly when `k` was absent; otherwise the pairs are unchanged |
| AvlTreeSpec.InsertBalanced | AvlTree.h:133-181 | insertion keeps heights correct and the tree balanced, and grows the height by at most 1; when a non-empty tree grows, its root key stays and the root leans towards the side the new key went to |
| AvlTreeSpec.InsertLeftRotationsPossible | AvlTree.h:168-172 | after inserting into the left subtree, the node is never right-heavy beyond 1, and the left-right case always finds the grandchild it rotates |
| AvlTreeSpec.InsertRightRotationsPossible | AvlTree.h:174-178 | after inserting into the right subtree, the node is never left-heavy beyond 1, and the right-left case always finds the grandchild it rotates |
| AvlTreeSpec.InsertPresentUnchanged | AvlTree.h:148-150 | inserting a key already present returns the tree unchanged, so the old value is kept |
| AvlTreeSpec.InsertAvl | AvlTree.h:133-181 | insertion preserves the AVL invariant, and the node count grows by 1 exactly when the key is new |
| AvlTreeSpec.RemoveKeys | AvlTree.h:183-239 | removal keeps a search tree, and its keys are the old keys minus `k` |
| AvlTreeSpec.UnlinkKeys | AvlTree.h:194-208 | replacing the matched node (by its only child, or by a fresh copy of the in-order successor) keeps a search tree without that key |
| AvlTreeSpec.RemovePairs | AvlTree.h:183-239 | removal drops exactly the pairs with key `k`, so every other key keeps its value |
| AvlTreeSpec.UnlinkPairs | AvlTree.h:194-208 | replacing the matched node drops exactly its own pair |
| AvlTreeSpec.RebalanceRemoveOk | AvlTree.h:210-236 | after a removal, a node out of balance by at most 2 is restored to balance with correct heights, losing at most one level; a node within balance is left as it is |
| AvlTreeSpec.RemoveBalanced | AvlTree.h:183-239 | removal keeps heights correct and the tree balanced, and lowers the height by at most 1 |
| AvlTreeSpec.UnlinkBalanced | AvlTree.h:194-209 | replacing the matched node leaves balanced children, a balance of at most 2 either way, and a height within one of the old one |
| AvlTreeSpec.RemoveAvl | AvlTree.h:183-239 | removal preserves the AVL invariant, and the node count drops by 1 exactly when the key was present |
| AvlTreeSpec.RemoveRotationsPossible | AvlTree.h:215-235 | every rotation the removal cases perform finds the children it moves |
| AvlTreeSpec.RemoveAbsentUnchanged | AvlTree.h:186-193 | removing an absent key from an AVL tree returns it unchanged |
| AvlTreeSpec.LookupPairs | AvlTree.h:256-269 | in a search tree, the descent finds a value exactly for the keys present, and the value it finds is the one paired with the key |
| AvlTreeSpec.LookupAfterInsert | AvlTree.h:246-249 | after `Insert(k, v)`, a lookup of a new `k` finds `v`; a lookup of a key already present, or of any other key, finds what it found before |
| AvlTreeSpec.LookupAfterRemove | AvlTree.h:251-254 | after `Remove(k)`, a lookup of `k` finds nothing, and a lookup of any other key finds what it found before |
| AvlTreeSpec.SizeAtLeastMinSize | AvlTreeTests.cpp:157-178 | a balanced tree of height h has at least as many nodes as the smallest AVL tree of height h |
| AvlTreeSpec.HeightBound64 | AvlTreeTests.cpp:157-178 | a balanced tree with correct heights and at most 64 nodes has height at most 8 |
| AvlTreeSpec.HeightBound53 | AvlTreeTests.cpp:157-178 | a balanced tree with correct heights and fewer than 54 nodes has height at most 7 |
| AvlTreeSpec.HeightBound1000 | AvlTreeTests.cpp:181-200 | a balanced tree with correct heights and at most 1000 nodes has height at most 14 |
| AvlTreeSpec.LeftLeftTree | AvlTreeTests.cpp:89-104 | inserting 4, 2, 5, 3, 1, 0 builds a particular tree, whose left-left rebalancing happens at the root |
| AvlTreeSpec.LeftLeftScenario | AvlTreeTests.cpp:89-104 | inserting 4, 2, 5, 3, 1, 0 yields a tree of height 3 that holds each key with itself as value |
| AvlTreeImpl.LayoutCount | AvlTree.h:51-60 | the nodes of a realized subtree are as many as the subtree's size |
| AvlTreeImpl.RotateLeftLayout | AvlTree.h:101-115 | a left rotation uses the same nodes it was given, and no new ones |
| AvlTreeImpl.RotateRightLayout | AvlTree.h:117-131 | a right rotation uses the same nodes it was given, and no new ones |
| AvlTreeImpl.AvlTree.constructor | AvlTree.h:18-23 | a new tree has no nodes, a zero counter and the empty tree, and is valid |
| AvlTreeImpl.AvlTree.NewNode | AvlTree.h:50-54 | allocates a node that was not live before, with null children and height 0, increments the counter, and leaves every other node alone |
| AvlTreeImpl.AvlTree.DeleteNode | AvlTree.h:56-60 | frees exactly the given node and decrements the counter |
| AvlTreeImpl.AvlTree.GetNodesCount | AvlTree.h:73-76 | the counter equals the number of live nodes, the tree's size and its number of keys |
| AvlTreeImpl.AvlTree.NodeHeight | AvlTree.h:83-89 | the stored height of the node a pointer names, and 0 for a null pointer; NodeBalance and GetHeight relate it to the realized subtree |
| AvlTreeImpl.AvlTree.NodeBalance | AvlTree.h:78-89 | right minus left stored height of a node, with 0 for a null child, is the subtree's balance |
| AvlTreeImpl.AvlTree.GetLeftermost | AvlTree.h:91-99 | the loop returns a live node holding the leftmost node's key and value, which LeftmostIsMinimum shows to be the smallest key |
| AvlTreeImpl.AvlTree.LeftRotate | AvlTree.h:101-115 | relinks the two nodes and rewrites their heights in the order given, so that the nodes spell the left-rotated subtree; only those two nodes change |
| AvlTreeImpl.AvlTree.RightRotate | AvlTree.h:117-131 | the mirror: the nodes spell the right-rotated subtree, and only the two rotated nodes change |
| AvlTreeImpl.AvlTree.LeftRightRotate | AvlTree.h:168-172 | rotating the left child left, linking it, and rotating the node right builds the double-rotated subtree, and only its nodes change |
| AvlTreeImpl.AvlTree.RightLeftRotate | AvlTree.h:174-178 | the mirror double rotation builds the right-left rotated subtree, and only its nodes change |
| AvlTreeImpl.AvlTree.RebalanceAfterInsert | AvlTree.h:156-180 | the case analysis on the balance and the key comparison builds the rebalanced subtree, and no node is allocated or freed |
| AvlTreeImpl.AvlTree.RebalanceAfterRemove | AvlTree.h:213-235 | the case analysis on the child's balance builds the rebalanced subtree, and no node is allocated or freed |
| AvlTreeImpl.AvlTree.UpdateHeight | AvlTree.h:152-154 | rewrites a node's height as 1 plus the larger child height, changing nothing else |
| AvlTreeImpl.AvlTree.SubtreeInsert | AvlTree.h:133-181 | the recursive insertion builds exactly the inserted subtree in place; the counter rises by the number of nodes added; only the subtree's nodes and a fresh leaf are touched |
| AvlTreeImpl.AvlTree.RetraceInsert | AvlTree.h:152-180 | recomputing the height and rebalancing on the way up builds the rebalanced subtree with the same node count |
| AvlTreeImpl.AvlTree.SubtreeRemove | AvlTree.h:183-239 | the recursive removal builds exactly the subtree without the key in place; the counter changes by the net number of nodes removed (one `NewNode` and two `DeleteNode`s in the two-child case) |
| AvlTreeImpl.AvlTree.RetraceRemove | AvlTree.h:210-236 | recomputing the height and rebalancing on the way up builds the rebalanced subtree with the same node count |
| AvlTreeImpl.AvlTree.RemoveRootNode | AvlTree.h:194-208 | deleting the matched node builds its replacement subtree, and the counter follows the number of nodes |
| AvlTreeImpl.AvlTree.NewSuccessorRoot | AvlTree.h:199-207 | allocates a copy of the in-order successor, gives it the left subtree and the right subtree without the successor, and counts the new node |
| AvlTreeImpl.AvlTree.GetHeight | AvlTree.h:241-244 | the root's stored height, 0 for an empty tree, is the tree's height |
| AvlTreeImpl.AvlTree.Insert | AvlTree.h:246-249 | the tree becomes the inserted tree and stays valid: an AVL search tree whose counter counts its nodes |
| AvlTreeImpl.AvlTree.Remove | AvlTree.h:251-254 | the tree becomes the tree without the key and stays valid |
| AvlTreeImpl.AvlTree.Find | AvlTree.h:256-269 | the loop returns what the search-tree lookup specifies: a value exactly when the key is present, and then the value stored with it |
| IntervalTreeSpec.Contains | IntervalMultiTreeTests.cpp:20 | half-open containment: the begin is inside and the end is not, as the tests' `Interval::Contains`, which the query calls at `IntervalMultiTree.h:294` |
| IntervalTreeSpec.CoverEnd | IntervalMultiTree.h:49-55 | the larger of an end and the stored `subtreeEnd` of each child that is present |
| IntervalTreeSpec.AdjustSubtreeMax | IntervalMultiTree.h:48-57 | writes into a node's `subtreeEnd` the larger of its own end and its present children's `subtreeEnd`s, and keeps everything else; SubtreeEndIsMax states what it maintains |
| IntervalTreeSpec.RotateLeft | IntervalMultiTree.h:106-124 | the left rotation of the key/value tree, with the demoted node's `subtreeEnd` and height recomputed before the new root's (the source recomputes both `subtreeEnd`s and then both heights; neither computation reads the other field); ShapeRotations, RotationsKeepEnds and RotationsKeepEntries state its effect. An unrotatable tree (no child on the rotating side) is returned as it is, where the source would dereference null; InsertLeftRotationsPossible, InsertRightRotationsPossible and RemoveRotationsPossible show the callers never pass one |
| IntervalTreeSpec.RotateRight | IntervalMultiTree.h:126-144 | the mirror image of RotateLeft, in the same order of recomputation. An unrotatable tree (no child on the rotating side) is returned as it is, where the source would dereference null; InsertLeftRotationsPossible, InsertRightRotationsPossible and RemoveRotationsPossible show the callers never pass one |
| IntervalTreeSpec.RebalanceInsert | IntervalMultiTree.h:175-197 | the source's four cases, in its order, chosen by the node's balance and by comparing the inserted begin with the heavy child's begin; otherwise the node as it is; ShapeRebalance and RebalanceKeepsEnds state its effect |
| IntervalTreeSpec.Insert | IntervalMultiTree.h:146-200 | a new begin gets a leaf of height 1 holding the interval, `subtreeEnd = end` and one value; a begin already stored only gets the value appended; on the way back up a node's height, then its `subtreeEnd`, are recomputed before it is rebalanced; InsertEntries and InsertValid state its effect |
| IntervalTreeSpec.RebalanceRemove | IntervalMultiTree.h:232-255 | the source's four cases, in its order, chosen by the node's balance and the heavy child's balance (read before `AdjustSubtreeMax`, which does not change heights); otherwise the node as it is |
| IntervalTreeSpec.Unlink | IntervalMultiTree.h:214-226 | the subtree that replaces the matched node: its right child, its left child, or a new node holding the in-order successor's interval and values above the left subtree and the right subtree with the successor removed; UnlinkEntries states its effect |
| IntervalTreeSpec.Remove | IntervalMultiTree.h:202-259 | only the begin is compared; the matched node, with all its values, is unlinked; a non-empty new root gets its height, then its `subtreeEnd`, recomputed and is rebalanced; RemoveEntries and RemoveValid state its effect |
| IntervalTreeSpec.QueryValues | IntervalMultiTree.h:287-308 | the values the stabbing query appends, in its order: the node's own values when its interval contains the point, then the left subtree when the point is below `subtreeEnd`, then the right subtree when the point is also past the begin; QueryIsScan states what it reports |
| IntervalTreeSpec.Scan | IntervalMultiTreeBenchmarks.cpp:34-40 | the brute-force query: the values of the entries whose interval contains the point, in list order; ScanMembers states which values it reports |
| IntervalTreeSpec.ShapeRotations | IntervalMultiTree.h:106-144 | apart from the payload, each rotation of the interval tree is the key/value tree's rotation |
| IntervalTreeSpec.ShapeRebalance | IntervalMultiTree.h:175-197 | the rebalancing steps of the interval tree choose and perform the same rotations as those of the key/value tree |
| IntervalTreeSpec.ShapeInsert | IntervalMultiTree.h:146-200 | apart from the values, interval insertion is key/value insertion of `(begin, end)`, which ignores an existing begin |
| IntervalTreeSpec.ShapeRemove | IntervalMultiTree.h:202-259 | apart from the values, interval removal is key/value removal of the begin |
| IntervalTreeSpec.InsertAvl | IntervalMultiTree.h:146-200 | insertion preserves search-tree order on begins, correct heights and AVL balance; it adds the begin; it adds a node, with the pair (begin, end), exactly when the begin is new |
| IntervalTreeSpec.RemoveAvl | IntervalMultiTree.h:202-259 | removal preserves the AVL invariant, drops the begin and its end, and removes one node exactly when the begin was present |
| IntervalTreeSpec.SubtreeEndIsMax | IntervalMultiTree.h:48-57 | where every `subtreeEnd` is as `AdjustSubtreeMax` computes it, a node's `subtreeEnd` is the largest end in its subtree |
| IntervalTreeSpec.RotationsKeepEnds | IntervalMultiTree.h:106-144 | adjusting the demoted node before the new root keeps every `subtreeEnd` correct, and the subtree's `subtreeEnd` is unchanged |
| IntervalTreeSpec.RebalanceKeepsEnds | IntervalMultiTree.h:175-197 | both rebalancing steps keep every `subtreeEnd` correct |
| IntervalTreeSpec.InsertKeepsEnds | IntervalMultiTree.h:146-200 | insertion, with `AdjustSubtreeMax` at line 173 on the way up, keeps every `subtreeEnd` correct |
| IntervalTreeSpec.RemoveKeepsEnds | IntervalMultiTree.h:202-259 | removal, with `AdjustSubtreeMax` at line 233 on the way up, keeps every `subtreeEnd` correct |
| IntervalTreeSpec.RotationsKeepEntries | IntervalMultiTree.h:106-144 | rotations keep the stored (interval, value) entries in order |
| IntervalTreeSpec.RebalanceKeepsEntries | IntervalMultiTree.h:169-197 | height and `subtreeEnd` updates and both rebalancing steps keep the entries in order |
| IntervalTreeSpec.InsertEntries | IntervalMultiTree.h:146-200 | insertion adds exactly one entry, `v` filed under the stored interval with `i`'s begin (or under `i` when the begin is new), and keeps every other entry |
| IntervalTreeSpec.StoredIntervalFacts | IntervalMultiTree.h:159-166 | the interval a value is filed under has `i`'s begin; it is `i` itself when the begin is new, and otherwise the interval already stored |
| IntervalTreeSpec.RemoveEntries | IntervalMultiTree.h:202-259 | removal drops exactly the entries whose begin is `i`'s begin, all values and any end included, and keeps the rest in order |
| IntervalTreeSpec.UnlinkEntries | IntervalMultiTree.h:214-226 | replacing the matched node (by a child or by a fresh copy of the successor with its values) leaves exactly the entries of its two subtrees |
| IntervalTreeSpec.InsertValid | IntervalMultiTree.h:277-280 | insertion keeps the whole invariant (AVL order on begins, heights, balance and `subtreeEnd`); adds a node exactly when the begin is new; adds exactly the entry for `v` |
| IntervalTreeSpec.RemoveValid | IntervalMultiTree.h:282-285 | removal keeps the whole invariant; removes a node exactly when the begin was present; drops exactly the entries with that begin |
| IntervalTreeSpec.SkippedSubtree | IntervalMultiTree.h:300-306 | in a valid tree, a subtree the query skips (left when the point is at or past `subtreeEnd`, right also when it is not past the begin) contains no interval holding the point |
| IntervalTreeSpec.QueryIsScan | IntervalMultiTree.h:287-308 | in a search tree with correct `subtreeEnd`s, the pruned query reports the same values, with multiplicity, as a linear scan over all stored entries |
| IntervalTreeSpec.ScanPerm | IntervalMultiTreeBenchmarks.cpp:34-40 | the reference scan's multiset of values depends only on the multiset of entries it scans |
| IntervalTreeSpec.ScanMembers | IntervalMultiTreeBenchmarks.cpp:34-40 | a value is reported by the reference scan exactly when some entry holding it has an interval containing the point |
| IntervalTreeSpec.InsertAllFacts | IntervalMultiTree.h:277-280 | any sequence of insertions builds a valid tree that stores only inserted intervals; when no begin comes with two different ends, its entries are exactly the inserted pairs |
| IntervalTreeSpec.QueryMatchesReference | IntervalMultiTreeBenchmarks.cpp:20-41 | when no begin is inserted with two different ends, the query on the tree built by the insertions reports the same values, with multiplicity, as the brute-force container's query |
| IntervalTreeSpec.InsertPresentKeepsFrame | IntervalMultiTree.h:163-166 | inserting under a begin already stored leaves shape, keys, heights, ends and `subtreeEnd`s unchanged |
| IntervalTreeSpec.RemoveAbsentUnchanged | IntervalMultiTree.h:204-212 | removing an absent begin from a valid tree returns it unchanged |
| IntervalTreeSpec.LeftSubtreeScenario | IntervalMultiTreeTests.cpp:43-63 | after inserting [0,4)→0 and [-2,-1)→-1: 0 reports only 0; -2 reports only -1; -1, the second interval's end, reports nothing |
| IntervalTreeSpec.RightSubtreeTree | IntervalMultiTreeTests.cpp:65-69 | the three insertions of the right-subtree test build a root whose `subtreeEnd` covers the new right child's end |
| IntervalTreeSpec.RightSubtreeQueries | IntervalMultiTreeTests.cpp:71-94 | on that tree, 0 reports [0], 2 reports [0, 1], and 4 and 6 report [1] |
| IntervalTreeSpec.RightSubtreeScenario | IntervalMultiTreeTests.cpp:65-95 | after inserting [0,4)→0, [-2,-1)→-1 and [2,8)→1: 0 reports {0}; 2 reports {0, 1}; 4 and 6 report {1} |
| IntervalTreeSpec.RightRotateScenario | IntervalMultiTreeTests.cpp:97-103 | inserting [4,6), [2,4), [0,2) triggers a right rotation whose new root's `subtreeEnd` is recomputed to 6, so 5 still reports the first value |
| IntervalTreeSpec.NestedScenario | IntervalMultiTreeTests.cpp:105-120 | after inserting [j, n)→j for every j below n, a query at p reports exactly the values j ≤ p, and nothing when p ≥ n |
| IntervalTreeSpec.DisjointScenario | IntervalMultiTreeTests.cpp:122-139 | after inserting [j, j+1)→j for every j below n, a query at p reports exactly p when 0 ≤ p < n, and nothing otherwise |
| IntervalTreeSpec.SecondEndDropped | IntervalMultiTree.h:163-166 | inserting [0,4)→0 then [0,1)→1 files 1 under [0,4), so 2 reports both values while the scan over the inserted pairs reports only 0 |
| IntervalTreeImpl.ValueVector.constructor | IntervalMultiTreeTests.cpp:36 | the output vector a caller declares before querying starts empty |
| IntervalTreeImpl.ValueVector.PushBack | IntervalMultiTree.h:296 | appending puts exactly one value at the back |
| IntervalTreeImpl.AdjustRealized | IntervalMultiTree.h:48-57 | the `subtreeEnd` computed from the heap node and its live children is the one the specification recomputes, and writing it changes only that field |
| IntervalTreeImpl.NewLeaf | IntervalMultiTree.h:150-157 | a fresh node given the interval, `subtreeEnd = end`, height 1 and one appended value is the leaf insertion specifies, and only it is new |
| IntervalTreeImpl.InsertRotationsPossible | IntervalMultiTree.h:187-197 | after inserting into a balanced child, every double-rotation case finds the grandchild it rotates |
| IntervalTreeImpl.IntervalMultiTree.constructor | IntervalMultiTree.h:21-26 | a new tree has no nodes, a zero counter and the empty tree, and is valid |
| IntervalTreeImpl.IntervalMultiTree.NewNode | IntervalMultiTree.h:76-81 | allocates a node that was not live before, with null children, height 0 and no values, increments the counter, and leaves every other node alone |
| IntervalTreeImpl.IntervalMultiTree.DeleteNode | IntervalMultiTree.h:83-87 | frees exactly the given node and decrements the counter |
| IntervalTreeImpl.IntervalMultiTree.GetNodesCount | IntervalMultiTree.h:101-104 | the counter equals the number of live nodes, the tree's size and its number of distinct begins |
| IntervalTreeImpl.IntervalMultiTree.NodeHeight | IntervalMultiTree.h:32-37 | the stored height of the node a pointer names, and 0 for a null pointer; NodeBalance relates it to the realized subtree |
| IntervalTreeImpl.IntervalMultiTree.NodeBalance | IntervalMultiTree.h:32-40 | right minus left stored height of a node, with 0 for a null child, is the subtree's balance |
| IntervalTreeImpl.IntervalMultiTree.GetLeftermost | IntervalMultiTree.h:41-47 | the loop returns a live node holding the leftmost node's begin and payload |
| IntervalTreeImpl.IntervalMultiTree.AdjustSubtreeMax | IntervalMultiTree.h:48-57 | writes into the node's `subtreeEnd` the larger of its own end and its present children's `subtreeEnd`, and changes nothing else |
| IntervalTreeImpl.IntervalMultiTree.LeftRotate | IntervalMultiTree.h:106-124 | relinks, adjusts `subtreeEnd`s and rewrites heights in the source's order, so that the nodes spell the left-rotated subtree; only the two rotated nodes change |
| IntervalTreeImpl.IntervalMultiTree.RightRotate | IntervalMultiTree.h:126-144 | the mirror: the nodes spell the right-rotated subtree, and only the two rotated nodes change |
| IntervalTreeImpl.IntervalMultiTree.LeftRightRotate | IntervalMultiTree.h:187-191 | a left rotation of the left child, then a right rotation of the node, build the double-rotated subtree |
| IntervalTreeImpl.IntervalMultiTree.RightLeftRotate | IntervalMultiTree.h:193-197 | a right rotation of the right child, then a left rotation of the node, build the double-rotated subtree |
| IntervalTreeImpl.IntervalMultiTree.RebalanceAfterInsert | IntervalMultiTree.h:175-197 | the case analysis on the balance and the begin comparison builds the rebalanced subtree; no node is allocated or freed |
| IntervalTreeImpl.IntervalMultiTree.RebalanceAfterRemove | IntervalMultiTree.h:232-255 | the case analysis on the balance taken before `AdjustSubtreeMax` builds the rebalanced subtree; no node is allocated or freed |
| IntervalTreeImpl.IntervalMultiTree.UpdateHeight | IntervalMultiTree.h:169-171 | rewrites a node's height as 1 plus the larger child height, changing nothing else |
| IntervalTreeImpl.IntervalMultiTree.SubtreeInsert | IntervalMultiTree.h:146-200 | the recursive insertion builds exactly the inserted subtree in place: a new leaf for a new begin, and otherwise `v` appended to the existing node's values; the counter rises by the number of nodes added |
| IntervalTreeImpl.IntervalMultiTree.RetraceInsert | IntervalMultiTree.h:169-197 | height, then `subtreeEnd`, then rebalancing on the way up build the rebalanced subtree, with the same node count |
| IntervalTreeImpl.IntervalMultiTree.SubtreeRemove | IntervalMultiTree.h:202-259 | the recursive removal builds exactly the subtree without the begin's node in place; the counter changes by the net number of nodes removed |
| IntervalTreeImpl.IntervalMultiTree.RetraceRemove | IntervalMultiTree.h:229-256 | height, balance, `subtreeEnd`, then rebalancing on the way up build the rebalanced subtree, with the same node count |
| IntervalTreeImpl.IntervalMultiTree.RemoveRootNode | IntervalMultiTree.h:214-228 | deleting the matched node builds its replacement subtree, and the counter follows the number of nodes |
| IntervalTreeImpl.IntervalMultiTree.NewSuccessorRoot | IntervalMultiTree.h:218-226 | allocates a copy of the in-order successor's interval and values, gives it the left subtree and the right subtree without the successor, and counts the new node |
| IntervalTreeImpl.IntervalMultiTree.Insert | IntervalMultiTree.h:277-280 | the tree becomes the inserted tree and stays valid, and its entries gain exactly the entry for `v` |
| IntervalTreeImpl.IntervalMultiTree.Remove | IntervalMultiTree.h:282-285 | the tree becomes the tree without the begin's node and stays valid, and exactly the entries with that begin are dropped |
| IntervalTreeImpl.IntervalMultiTree.SubtreeCollectQueryValues | IntervalMultiTree.h:287-308 | appends to the caller's vector exactly the values the pruned descent specifies, in the order the source appends them |
| IntervalTreeImpl.IntervalMultiTree.CollectQueryValues | IntervalMultiTree.h:310-314 | appends the query's values to the caller's vector; as a multiset they are the values of the stored entries whose interval contains the point |

## Left out

- Raw `new`/`delete` and the destructor the TODO at `AvlTree.h:5` mentions. Memory is an arena
  map from addresses to nodes: `NewNode` picks an unused address and `DeleteNode` removes one.
  Dangling pointers and leaks are therefore not modelled.
- `i32` widths. Heights, balances and `nodesCount_` are unbounded integers, because the heights
  of a balanced tree stay tiny and the counter never exceeds the number of nodes.
- The generic `TInterval`. It is fixed to the tests' `Interval` with half-open `Contains`
  (`IntervalMultiTreeTests.cpp:12-21`). The header itself only requires `begin`, `end` and a
  `Contains` member.
- Generic key and edge types. Keys and interval edges are `int`. The tests' `f32` edges are
  scaled to integers in the scenarios, and floating point is not modelled.
- `NewNode` takes the key and value (for the interval tree, the begin and end) as arguments.
  It then writes the fields the C++ code assigns just after allocation. No other code runs in
  between, so nothing can observe the default-constructed fields.
- The `subtreeEnd` of the successor copy that the interval tree's `SubtreeRemove` allocates
  (`IntervalMultiTree.h:220`). The source leaves it default-initialised. The model sets it to
  the successor's end. `AdjustSubtreeMax` at line 233 overwrites it before anything reads it.
- Copy versus move of the values vector (the TODO at `IntervalMultiTree.h:222`). Values are an
  immutable sequence, so the copy and the move are the same value.
- `IntervalMultiTree::Find` (`IntervalMultiTree.h:262-275`) is not modelled. It is never
  instantiated and would not compile: it compares against `i.end` and returns a `value` field
  that `Node` does not have.
- `IntervalMultiTree::GetHeight()` (`IntervalMultiTree.h:69`) is not modelled. It is declared
  but never defined.
- The unused `NodeWithParent` struct (`AvlTree.h:33-36`), because no code uses it.
- The two-argument `Remove(interval, value)` and the per-end buckets that
  `IntervalMultiTreeTests.cpp:141-211` expect, because the header implements neither. `Remove`
  deletes the whole node for the interval's begin, with all its values.
- The height expectations in `test.cpp`, because they contradict the header's convention that
  a leaf has height 1.
- The test and benchmark drivers: shuffles, timings and `shared_ptr` reference counting.
  They serve only as evidence.
- HeightBound64: proves height at most 8 for every AVL tree of at most 64 nodes. That bound is
  tight for arbitrary insertion orders. `AvlTreeTests.cpp:176` expects at most 7, which only
  holds for the particular `mt19937` shuffles, and those are not modelled (HeightBound53 gives 7 for
  fewer than 54 nodes).
- HeightBound1000: proves height at most 14 for every AVL tree of at most 1000 nodes.
  `AvlTreeTests.cpp:199` expects at most 12, which only holds for the particular `mt19937`
  shuffles. The balance condition alone allows more: `MinSize(14)` is 986.
- QueryMatchesReference: requires that no begin be inserted with two different ends. Without
  that, the tree files a later value under the end stored first, and SecondEndDropped shows
  the query then differing from the brute-force scan.
- The public methods require `Valid()`, the class invariant. The constructor establishes it
  and every public method preserves it. The private recursive methods require the subtree they
  are given to have correct heights and balance, which is what the public callers pass them.
- The tests look at the query's results only as sets of values. The model also fixes their
  order, which `QueryValues` specifies exactly.
