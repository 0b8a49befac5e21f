# RAVL tree: a verified model of a rank-augmented AVL map

RAVL (Rank AVL) is an ordered map from `int` keys to opaque payloads. It is
an AVL tree whose nodes cache two values: the height and the size (node count)
of the subtree they root. The cached size answers rank queries in logarithmic
time:

- `rank(key)` is the position of a key among the sorted keys;
- `findRank(rank)` is the node at a given position.

Every mutating operation takes a subtree root and returns the new subtree
root. The caller splices that root into the parent's child slot.

This project models that engine as Dafny code:

- A tree is the recursive datatype `Ravl.Tree<V>`. `Nil` stands for the NULL
  pointer. A `Node` carries key, value, cached height, cached size, left and
  right.
- Children are owned exclusively, so rewiring pointers becomes building the
  new subtree value.
- Five ghost views say what a tree stands for:
  - `Keys`, its key set;
  - `InOrder`, its in-order key sequence;
  - `Content`, the key/value map it represents;
  - `Depth`, its true height;
  - `Count`, its true node count.
- Three invariants hold of every tree a public operation returns:
  - `Ordered`: BST order;
  - `MetricsOK`: every cached height and size is exact;
  - `Balanced`: child heights differ by at most one.
  - `Valid` is the conjunction of the three.

Modules follow the source:

- `Ravl`: the node record and the invariants.
- `Metrics`: the O(1) helpers.
- `Rotations`: the four rotations.
- `Balancer`: `balanceTree`.
- `Queries`: search, successor, rank, findRank and the deleteTree order.
- `Updates`: createNode, insert and delete.

The C source is unfinished starter code. Where it stops short of its own
header, the model follows the header and the design of a rank AVL tree:

- `delete` (RAVL_tree.c:264-270) looks the key up and calls `successor` on the
  node found, discarding the result. It then ends without a return statement,
  so its result is undefined in C.
- `rank` always answers NOTIN (RAVL_tree.c:272).
- `findRank` always answers NULL (RAVL_tree.c:274).
- `Updates.Delete`, `Queries.Rank` and `Queries.FindRank` implement the
  contracts of RAVL_tree.h:39-53:
  - Delete removes a leaf directly and replaces a one-child node by its child.
  - With two children, Delete copies the in-order successor into the node,
    deletes the successor from the right subtree, and rebalances every node on
    the path.
  - Rank is 0-indexed.
- `balanceFactor` is defined twice. The first definition (RAVL_tree.c:66-75)
  returns no value for NULL. The model uses the second one
  (RAVL_tree.c:167-169), which answers 0.
- `successor` is documented as returning "the parent" of the successor. The
  code (RAVL_tree.c:135-146) returns `node->right` itself when that node has no
  left child; in that case the result is the successor, not its parent.
  `Queries.Successor` states both cases, and answers Nil when there is no
  right subtree.
- `insert` and `balanceTree` are modelled twice: as written, and corrected.
  See "## Findings".

## Model

| member | source | states |
|---|---|---|
| `Ravl.OrderedIffSorted` | RAVL_tree.h:19-26 | The BST invariant holds exactly when the in-order key sequence is strictly increasing. |
| `Ravl.OrderedCountsKeys` | RAVL_tree.h:23 | In a BST the node count equals the number of distinct keys. |
| `Ravl.BalancedDepthLogarithmic` | RAVL_tree.c:223-227 | An AVL-balanced tree of n nodes has height at most about 2·log2(n+1): 2^(height/2) ≤ n+1. This is the basis of the required O(log n) bound. |
| `Metrics.Height` | RAVL_tree.c:17-22 | 0 for NULL; with correct metrics, the cached field is the true height of the subtree. |
| `Metrics.Size` | RAVL_tree.c:27-32 | 0 for NULL; with correct metrics, the cached field is the node count, which is the length of the in-order sequence. |
| `Metrics.UpdateHeight` | RAVL_tree.c:37-46 | NULL is left alone. Only the height field changes, and over children with correct metrics it becomes the subtree's true height. |
| `Metrics.UpdateSize` | RAVL_tree.c:51-60 | NULL is left alone. Only the size field changes, and over children with correct metrics it becomes the subtree's node count. |
| `Metrics.BalanceFactor` | RAVL_tree.c:167-169 | 0 for NULL; over children with correct metrics, the true left-minus-right height difference. |
| `Metrics.Refreshed` | RAVL_tree.c:173-174 | Refreshing height, then size, over correct children gives correct metrics. It keeps keys, values, order and balance, and is a no-op on a node whose metrics were already correct. |
| `Rotations.RightRotation` | RAVL_tree.c:81-96 | Unchanged when node or node->left is NULL. Otherwise the left child is promoted and the demoted node takes its right subtree. In-order keys, key set and key/value map are preserved, and so is BST order. When the three untouched subtrees had correct metrics, both refreshed nodes do. |
| `Rotations.LeftRotation` | RAVL_tree.c:99-114 | The mirror image of the right rotation, with the same preservation and metrics guarantees. |
| `Rotations.RightLeftRotation` | RAVL_tree.c:117-123 | Unchanged when node or node->right is NULL. When node->right->left exists, that grandchild ends on top, with the four subtrees in order. Keys, order, values and BST order are preserved, and metrics are correct when the four subtrees' were. |
| `Rotations.LeftRightRotation` | RAVL_tree.c:126-132 | The mirror image of the right-left double rotation, with the same guarantees. |
| `Balancer.BalanceTree` | RAVL_tree.c:172-201 | NULL stays NULL, and in-order keys, key set, key/value map and BST order are preserved. The thresholds on the heavy child are `>= 0` / `<= 0`. |
| `Balancer.BalanceTreeRestoresAvl` | RAVL_tree.c:172-201 | Given balanced children with correct metrics whose heights differ by at most two, the result is balanced with correct metrics. When the heights differ by at most one, only the metrics are refreshed. Otherwise the height drops by at most one. |
| `Balancer.LeftLeftCase` | RAVL_tree.c:186-188 | Left-heavy by two with the left child not leaning right: one right rotation restores balance, and the height stays or drops by one. |
| `Balancer.LeftRightCase` | RAVL_tree.c:190-192 | Left-heavy by two with the left child leaning right: the left-right double rotation restores balance and lowers the height by one. |
| `Balancer.RightRightCase` | RAVL_tree.c:194-196 | The mirror image of the left-left case. |
| `Balancer.RightLeftCase` | RAVL_tree.c:197-199 | The mirror image of the left-right case. |
| `Balancer.BalanceTreeIdleOnValid` | RAVL_tree.c:172-201 | On a node that is already balanced with correct metrics, balanceTree changes nothing. |
| `Balancer.BalanceTreeAsWritten` | RAVL_tree.c:186-199 | The strict `> 0` / `< 0` thresholds as written. It still preserves in-order keys and the key/value map. |
| `Balancer.StrictThresholdsMissZeroBalance` | RAVL_tree.c:186 | A concrete node has balance factor 2 and a left child with balance factor 0. The as-written rebalancer leaves it unbalanced; the corrected one balances it. |
| `Queries.Search` | RAVL_tree.c:229-242 | Any node returned is a node of the input tree and holds `key`. On a BST the result is NULL exactly when `key` is absent, and the node found carries the value the map associates with `key`. |
| `Queries.Leftmost` | RAVL_tree.c:139-142 | The leftmost node has no left child and holds the first in-order key. On a BST that key is the minimum and carries its mapped value. |
| `Queries.Successor` | RAVL_tree.c:135-146 | NULL when there is no right subtree. It returns `node->right` when that node has no left child. Otherwise it returns the node on the left spine of `node->right` whose left child is the leftmost node. |
| `Queries.Rank` | RAVL_tree.h:45-48 | On a BST with correct metrics the result is NOTIN exactly when `key` is absent. Otherwise it is an index into the in-order sequence at which `key` stands. |
| `Queries.RankCountsSmallerKeys` | RAVL_tree.h:45-48 | The rank of a present key is the number of smaller keys: exactly the in-order positions below it hold smaller keys. |
| `Queries.FindRank` | RAVL_tree.h:50-53 | Any node returned is a node of the input tree. With correct metrics the result is NULL exactly when `rank` is outside [0, size); otherwise it is the node whose key stands at position `rank` in order. On a BST with correct metrics that node carries its key's mapped value. |
| `Queries.SearchReportsTrueMetrics` | RAVL_tree.h:28-31 | With correct metrics, the node search returns reports the true height and size of its subtree. |
| `Queries.FindRankReportsTrueMetrics` | RAVL_tree.h:50-53 | With correct metrics, the node findRank returns reports the true height and size of its subtree. |
| `Queries.RankThenFindRank` | RAVL_tree.h:45-53 | For a present key k, `findRank(root, rank(root, k))` is the node holding k. |
| `Queries.FindRankThenRank` | RAVL_tree.h:45-53 | For a rank in range, the key found at that rank has that rank. |
| `Queries.DeleteTree` | RAVL_tree.c:216-221 | The post-order release sequence releases each key as often as it occurs in the tree (one entry per node), and the root last. |
| `Updates.CreateNode` | RAVL_tree.c:151-164 | A leaf with height and size 1 and no children. It is valid and maps `key` to `value` alone. |
| `Updates.Insert` | RAVL_tree.h:33-37 | Never NULL, and its key set is the old set plus `key`. On a BST the result is a BST whose map is the old map with `key` set to `value`. |
| `Updates.InsertKeepsValid` | RAVL_tree.c:244-262 | Insertion into a valid tree gives a valid tree whose height grows by at most one. |
| `Updates.InsertCount` | RAVL_tree.h:33-37 | On a BST, the node count grows by one exactly when `key` was absent; on a present key the size is unchanged. |
| `Updates.InsertPresentKeepsShape` | RAVL_tree.h:33-35 | Re-inserting a present key keeps the in-order keys and the height. Search then finds the new value. |
| `Updates.Delete` | RAVL_tree.h:39-43 | The key set never grows. On a BST the result is a BST whose key set is the old one without `key`, and whose map is the old map without `key`. |
| `Updates.DeleteKeepsValid` | RAVL_tree.h:39-43 | Deletion from a valid tree gives a valid tree whose height shrinks by at most one. |
| `Updates.DeleteCount` | RAVL_tree.h:39-43 | On a BST, the node count drops by one exactly when `key` was present. |
| `Updates.InsertPresentOnlySetsValue` | RAVL_tree.h:33-35 | On a valid tree holding `key`, insert rotates nothing and refreshes no metric: the result is the tree with only that node's value replaced. |
| `Updates.DeleteAbsentUnchanged` | RAVL_tree.h:39-41 | Deleting an absent key from a valid tree returns the very same tree. |
| `Updates.InsertAsWritten` | RAVL_tree.c:244-262 | Insert as written is never NULL and its keys are the old ones plus `key`. Either the in-order key sequence is unchanged, or exactly one node was added. |
| `Updates.InsertAsWrittenDropsValue` | RAVL_tree.c:259-261 | As written, inserting a present key returns the tree unchanged, so the new value is dropped. |
| `Updates.InsertAsWrittenNeverRebalances` | RAVL_tree.c:251-257 | As written, inserting 1, 2, 3 yields an unbalanced chain with stale metrics. The corrected insert yields a valid tree. |

## Left out

- Node identity, in-place update and aliasing. The C code rewires pointers and
  writes `height`/`size` fields in place. Because children are owned
  exclusively, the model builds new subtree values instead. It does not state
  which nodes are reused or that a caller's other pointers into the tree see
  the change.
- `malloc` failure in `createNode` (RAVL_tree.c:152-155) is not modelled,
  because allocation is not modelled; `Updates.CreateNode` always succeeds.
- `free` in `deleteTree` is not modelled. `Queries.DeleteTree` gives only the
  release order.
- The payload is the type parameter `V`. Its lifetime and ownership are the
  caller's and are not modelled.
- Keys, heights and sizes are mathematical integers, so C `int` overflow is
  not modelled. With unbounded integers the arithmetic is exact.
- `printTreeInorder_` and `printTreeInorder` (RAVL_tree.c:207-214) are output
  only. They visit the right subtree, then the node, then the left subtree, so
  they list the keys in the reverse of `InOrder` (descending on a BST), although
  RAVL_tree.h:55-57 calls the order in-order.
- The command-line tester (RAVL_tree_tester.c) is input parsing and output;
  it is not part of this model.
- The first `balanceFactor` definition (RAVL_tree.c:66-75) has no return value
  for NULL. It is not modelled; the second definition is.
- The running-time bounds ("O(1)", "O(log n)") are not proved as costs.
  `Ravl.BalancedDepthLogarithmic` bounds the height that every descent
  follows.
- Updates.InsertAsWritten: the `<` and `>` paths of `insert` fall off the end
  without a return, which C leaves undefined; the model takes them to return
  `node`, so it is a best reading of that path rather than the code's meaning.
- `Queries.Successor` is not used by `Updates.Delete`. Delete reads the
  successor through `Queries.Leftmost`, the function the method is proved
  against, because a function cannot call a method.

## Findings

| source | as written | input that shows it | evidently intended | confidence | as-written member | corrected member |
|---|---|---|---|---|---|---|
| RAVL_tree.c:186-199 | The single rotation fires only when the heavy child's balance factor is strictly `> 0` (left-heavy) or `< 0` (right-heavy). A heavy child with balance factor 0 triggers no rotation. | The node 4 with left child 2(1, 3) and no right child, which is what deleting 5 from 4(2(1, 3), 5) leaves: its balance factor is 2, its left child's is 0, and it stays unbalanced. | `>= 0` / `<= 0` thresholds, so a single rotation repairs the balance-0 case | not executed | `Balancer.StrictThresholdsMissZeroBalance` | `Balancer.BalanceTreeRestoresAvl` |
| RAVL_tree.c:259-261 | On an equal key, `insert` returns the node unchanged. | Any tree that already holds `key`, inserted with a different value: the old value stays. | Replace the value, as RAVL_tree.h:33-35 requires | not executed | `Updates.InsertAsWrittenDropsValue` | `Updates.InsertPresentKeepsShape` |
| RAVL_tree.c:251-257 | After recursing, `insert` neither refreshes height and size nor rebalances. The `<` and `>` paths also end without a return statement. | Inserting 1, 2, 3 into the empty tree: the right chain of height 3 is unbalanced, and its root still records height 1 and size 1. | Splice the child back, then return `balanceTree(node)` | not executed | `Updates.InsertAsWrittenNeverRebalances` | `Updates.InsertKeepsValid` |
