# Binary search tree (`tree.js`)

A Dafny model of the `Tree` class of `tree.js`. It is a binary search tree over numeric keys with these operations:

- construction from an array (deduplicate, sort, then build by midpoint split);
- recursive insert, in which equal keys go right;
- recursive delete, in which a node with two children takes its in-order successor's key;
- iterative `find`;
- two level-order traversals, plus pre-, in- and post-order;
- `height`, and `depth` in an iterative and a recursive form;
- `isBalanced` and `rebalance`.

The project has five modules:

- `Bst` (`bst.dfy`):
  - the `Node` objects as a value datatype `Tree = Empty | Node(left, data, right)`, where `Empty` is the `null` link;
  - the key multiset and the search-tree ordering;
  - the pre-, in- and post-order traversals, each given as the sequence of keys handed to the visitor;
  - the search path of `find`, the successor walk of `getSuccessor`, `#calculateHeight` and the balance condition.
- `Construction` (`construction.dfy`): the constructor's deduplicate-and-sort step and `buildTree`. `buildTree` appears both as written and with its key-0 defect corrected; see Findings.
- `Updates` (`updates.dfy`): `insertRec` and `deleteRec` as functions returning the subtree that replaces the old one in its parent's link.
- `Queries` (`queries.dfy`): `depthRecursive`, `checkBalance` (as written and corrected), and the queue recursion of `levelOrderRecursiveForEach`.
- `TreeObject` (`tree.dfy`): the `Tree` class.
  - It has the fields `sortedAndUniqueArray` and `root`.
  - `insert`, `deleteItem` and `rebalance` are methods that replace `root`.
  - `find`, `getSuccessor`, `depth` and `levelOrderForEach` are `while` loops proved against the recursive specification functions.

## The ordering invariant

Two orderings are used:

- **Ordered** (left ≤ node ≤ right at every node) is the object invariant `Valid()`. The constructor establishes it, and `insert`, `deleteItem` and `rebalance` keep it.
- **Strictly-left ordered** (left < node ≤ right) is what construction produces, and insert and delete keep it.

`rebalance` does not keep the strict form once `insert` has let a duplicate in. Three inserts of 3 rebuild into a node with a 3 on each side; `RebalanceMayPutEqualKeyLeft` proves this.

## Model

| member | source | states |
|---|---|---|
| Bst.InOrder | tree.js:117-126 | the in-order visit hands every key of the tree to the visitor exactly once (as a multiset) |
| Bst.PreOrder | tree.js:106-115 | pre-order visits every key once, and the root's key first |
| Bst.PostOrder | tree.js:128-137 | post-order visits every key once, and the root's key last |
| Bst.CalculateHeight | tree.js:145-152 | the height is -1 exactly for the empty link and is always below the node count |
| Bst.SizeBelowPow2 | tree.js:145-152 | a tree of height h holds fewer than 2^(h+1) nodes |
| Bst.Search | tree.js:66-74 | the node `find`'s search path stops at holds the sought key, which is a key of the tree, and is no higher than the tree |
| Bst.SearchFindsPresentKeys | tree.js:66-74 | on an ordered tree, `find` reaches a node exactly when the key is present |
| Bst.Leftmost | tree.js:37-43 | the successor walk ends at a node that has no left child and holds a key of the subtree |
| Bst.LeftmostIsMinimum | tree.js:37-43 | on an ordered subtree the node reached holds the smallest key |
| Bst.InOrderLength | tree.js:117-126 | in-order visits as many keys as there are nodes |
| Bst.OrderedIffInOrderSorted | tree.js:117-126 | a tree is ordered exactly when its in-order key sequence is non-decreasing |
| Construction.InsertUnique | tree.js:11 | inserting into a strictly increasing sequence keeps it strictly increasing and adds exactly the new key |
| Construction.SortUnique | tree.js:11 | the deduplicated, sorted array is strictly increasing and holds exactly the input's keys |
| Construction.BuildTreeKeys | tree.js:15-24 | `buildTree` as written never invents a key and keeps every key other than 0 with its multiplicity |
| Construction.ZeroKeyIsDropped | tree.js:16 | as written, the one-element array [0] builds the empty tree; the corrected build keeps the 0 |
| Construction.BuildTreeFixedInOrder | tree.js:15-24 | the corrected build's in-order sequence is exactly its input array |
| Construction.BuildTreeFixedKeys | tree.js:15-24 | the corrected build holds exactly the input's keys |
| Construction.BuildTreeAgreesWithoutZero | tree.js:15-24 | without the key 0 the written and corrected builds give the same tree |
| Construction.BuildTreeInOrder | tree.js:15-24 | without the key 0 the written build's in-order sequence is its input array |
| Construction.BuildTreeRoot | tree.js:17-22 | for a non-empty input without the key 0, the root holds the element at index floor((L-1)/2); the subtrees hold the slices on either side |
| Construction.BuildTreeOrdered | tree.js:15-24 | a sorted array builds an ordered tree, and a strictly sorted one a strictly-left ordered tree |
| Construction.BuildTreeFixedOrdered | tree.js:15-24 | the same for the corrected build |
| Construction.HeightLowerBound | tree.js:145-152 | no tree with n nodes is lower than floor(log2 n) |
| Construction.BuildTreeFixedShape | tree.js:15-24 | the corrected build has height floor(log2 L) and is balanced at every node |
| Construction.BuildTreeFixedBalancedAndMinimal | tree.js:15-24 | the corrected build is balanced, and no tree with as many nodes is lower |
| Construction.BuildTreeBalancedAndMinimal | tree.js:15-24 | without the key 0 the written build is balanced and of least height |
| Construction.RebuildIsIdempotent | tree.js:203-207 | for an input without the key 0, rebuilding from the in-order keys of a built tree gives the same tree back |
| Construction.RebuildKeepsOrder | tree.js:203-207 | rebuilding an ordered tree from its in-order keys with the written `buildTree` gives an ordered tree with no new key and every key other than 0 as often as before |
| Construction.RebuildKeepsKeysInOrder | tree.js:203-207 | without the key 0 the written rebuild keeps the in-order sequence and the keys |
| Construction.RebuildIsBalancedAndMinimal | tree.js:203-207 | without the key 0 the written rebuild has the same size, is balanced and is as low as any tree of its size |
| Construction.RebuildFacts | tree.js:203-207 | for an ordered tree and its rebuild: ordered, no new key, every non-zero key kept; without the key 0 also the same in-order sequence, balanced and of least height |
| Construction.RebuildMayDropZero | tree.js:16 | the ordered tree holding -1 and 0 (in-order `[-1, 0]`) rebuilds to in-order `[-1]`: the written rebuild loses the 0 |
| Updates.InsertRec | tree.js:27-32 | insertion adds exactly one occurrence of the key and never returns the empty link |
| Updates.InsertKeepsOrder | tree.js:26-35 | insertion keeps both orderings, because an equal key goes right |
| Updates.InsertHeight | tree.js:26-35 | insertion grows the height by at most one |
| Updates.InsertThenFind | tree.js:26-35 | after insertion into any tree, ordered or not, `find` reaches the key, because both walk the same path until an equal key |
| Updates.DeleteAbsentKey | tree.js:45-64 | deleting an absent key, from the empty tree in particular, changes nothing |
| Updates.DeleteRemovesOne | tree.js:45-64 | on an ordered tree deletion removes exactly one occurrence of the key and nothing else |
| Updates.DeleteKeepsOrder | tree.js:45-64 | deletion, successor replacement included, keeps both orderings |
| Updates.InsertThenDelete | tree.js:26-64 | deleting a key just inserted into a tree without it restores the original tree exactly |
| Queries.DepthPlusHeight | tree.js:168-185 | the recursive depth is defined exactly when `find` reaches a node; that node's depth plus its height is at most the tree's height |
| Queries.DepthDefinedForPresentKeys | tree.js:168-185 | on an ordered tree the depth is defined exactly for the keys present |
| Queries.CheckBalanceAlwaysFails | tree.js:187-201 | as written the balance check returns -1 for every tree, so `isBalanced` is always false |
| Queries.CheckBalanceFixed | tree.js:187-201 | with a distinct failure signal the check succeeds exactly on balanced trees and then returns the height |
| Queries.NextQueue | tree.js:95-99 | one dequeue-and-enqueue step keeps only node links in the queue and lowers the nodes waiting by one |
| Queries.LevelOrderRound | tree.js:80-85 | one round of the iterative loop (visit head, push children, shift) is one step of the queue recursion |
| Queries.LevelOrderVisitsEachNodeOnce | tree.js:92-101 | the queue recursion visits every node under the queue exactly once |
| Queries.LevelOrderOfTree | tree.js:89-104 | from the root, level order visits every key once, the root's first |
| TreeObject.Tree.constructor | tree.js:10-13 | the root is the written `buildTree` of the deduplicated, strictly sorted input; it is strictly-left ordered, holds no key outside the input and every non-zero input key; without the key 0 its in-order sequence is the sorted array and it is balanced and of least height |
| TreeObject.Tree.Insert | tree.js:26-35 | the new root is `insertRec`'s result; keys gain one occurrence, both orderings are kept, `find` reaches the key and the height grows by at most one |
| TreeObject.Tree.GetSuccessor | tree.js:37-43 | the loop returns the leftmost node of the right subtree, or `null` when there is none; on an ordered node it holds the smallest key at or above the node's |
| TreeObject.Tree.DeleteItem | tree.js:45-64 | the new root is `deleteRec`'s result; one occurrence leaves the keys, both orderings are kept, and an absent key leaves the tree unchanged |
| TreeObject.Tree.Find | tree.js:66-74 | the loop returns the node the search path stops at, which on an ordered tree exists exactly when the key is present, after at most height + 1 iterations |
| TreeObject.Tree.LevelOrderForEach | tree.js:76-87 | the queue loop visits the same keys in the same order as the recursive version, every key once; it fails on the empty tree |
| TreeObject.Tree.LevelOrderRecursiveForEach | tree.js:89-104 | the visit order is the queue recursion from the root, the same sequence the iterative `LevelOrderForEach` returns; every key once, the root's first; fails on the empty tree |
| TreeObject.Tree.Height | tree.js:139-143 | `null` exactly when `find` gives `null`; otherwise the found node's height, between 0 and the tree's height |
| TreeObject.Tree.Depth | tree.js:154-166 | the loop agrees with `depthRecursive` on every tree; on an ordered tree it is defined exactly for present keys |
| TreeObject.Tree.IsBalanced | tree.js:187-201 | compares the written `checkBalance` with -1 and so answers false for every tree, the empty one included |
| TreeObject.Tree.Rebalance | tree.js:203-207 | the root is the written `buildTree` of the old in-order keys; it stays ordered, gains no key and keeps every key but 0; without the key 0 the in-order sequence and keys are unchanged and it becomes balanced and as low as any tree of its size |
| TreeObject.RebalanceMayPutEqualKeyLeft | tree.js:203-207 | three inserts of 3 give a strictly-left ordered chain whose rebuild by `rebalance` puts a 3 left of a 3 |

## Left out

- Node identity and aliasing. Nodes are values, so in-place re-linking (`node.left = …`, `node.data = successor.data`) is modelled as building the replacement subtree. A node reference held by a caller after a mutation is not modelled.
- The visitor callbacks. Each traversal yields the sequence of keys handed to the visitor. Callbacks that mutate nodes or throw are not modelled.
- The "Callback required" errors: a visitor is always supplied.
- Keys are mathematical integers. `NaN`, non-numeric keys, floating point and JavaScript's `Set` equality are not modelled. With `NaN`, `find` could loop forever and `depthRecursive` could return `undefined`.
- `Array.prototype.sort` and `Set` are modelled by `SortUnique`. Only its result is modelled (strictly increasing, same keys), not the sorting algorithm.
- `sortedAndUniqueArray` is set by the constructor and kept unchanged by every method. Nothing reads it.
- `createRandomAarray`, `prettyPrint` and the driver after line 208: randomness, console output and demonstration code.
- The level-order traversals on an empty tree hand `null` to the visitor and then throw on `.left`. Both methods return `None` in that case; the exception itself is not modelled.
- TreeObject.Tree.LevelOrderForEach: proved equal to the queue recursion, to visit every key once and to visit the root first. That keys come out level by level is not stated.
- TreeObject.Tree.constructor: balance, least height and the in-order sequence are promised only for inputs without the key 0, because the written `buildTree` drops a 0 that lands in a one-element slice (`new Tree([0, 1, 2, 3])` becomes the unbalanced chain 1, 2, 3).
- TreeObject.Tree.Rebalance: keeping the in-order sequence, balance and least height are promised only when the tree holds no 0, for the same reason (`RebuildMayDropZero`).
- `Valid()` is required by `Insert`, `DeleteItem` and `Rebalance` as the object invariant. The constructor establishes it and each of them keeps it. The JavaScript methods themselves run on any tree.

## Findings

| source | as written | input that shows it | evidently intended | confidence | as-written member | corrected member |
|---|---|---|---|---|---|---|
| tree.js:16 | a slice of length at most one is tested with `array[0] ?`, so a lone key 0 builds `null` | `new Tree([0])` has an empty root; `new Tree([-1, 0])` and `rebalance()` of a tree holding -1 and 0 lose the 0 | every element of the slice becomes a node (`array.length === 1`) | not executed | Construction.ZeroKeyIsDropped | Construction.BuildTreeFixedInOrder |
| tree.js:189-200 | -1 is both the height of the empty link and the failure signal | any tree, the empty one and a single leaf included: `isBalanced()` is false | a failure signal distinct from every height, so that only an actual imbalance fails | not executed | Queries.CheckBalanceAlwaysFails | Queries.CheckBalanceFixed |

The `Tree` class models the program as written: the constructor and `Rebalance` build with `BuildTree`, and `IsBalanced` compares `CheckBalance` with -1, so it is always false. The corrected halves, `BuildTreeFixed` and `CheckBalanceFixed`, state the evidently intended behaviour, and `BuildTreeAgreesWithoutZero` shows that the written build already behaves as intended on every input without the key 0. `BuildTreeOrdered` holds for every sorted input; the balance and in-order lemmas about `BuildTree` hold for inputs without the key 0.
