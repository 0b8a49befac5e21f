/** The read-only operations of RAVL_tree.c: search by key, the successor
    helper, rank and select-by-rank through the cached sizes, and the
    post-order teardown. None of them changes the tree. */
module Queries {
  import opened Ravl
  import opened Metrics

  /** Binary search: goes left when the node's key is larger than `key`.
      Returns the subtree rooted at the node holding `key`, or Nil (NULL)
      exactly when `key` is not in the tree. */
  function Search<V>(node: Tree<V>, key: int): (r: Tree<V>)
    ensures r.Node? ==> r.key == key && key in Keys(node) && SubtreeOf(r, node)
    ensures Ordered(node) ==> (r.Nil? <==> key !in Keys(node))
    ensures Ordered(node) && r.Node? ==> r.value == Content(node)[key]
  {
    if node.Nil? then Nil
    else if node.key == key then node
    else if node.key > key then Search(node.left, key)
    else Search(node.right, key)
  }

  /** The node holding the smallest key of a non-empty subtree: its leftmost
      node, the first in in-order. */
  function Leftmost<V>(node: Tree<V>): (m: Tree<V>)
    requires node.Node?
    ensures m.Node? && m.left.Nil? && m.key in Keys(node)
    ensures InOrder(node)[0] == m.key
    ensures Ordered(node) ==> (forall x :: x in Keys(node) ==> m.key <= x)
    ensures Ordered(node) ==> Content(node)[m.key] == m.value
  {
    if node.left.Nil? then node else Leftmost(node.left)
  }

  /** Walks down the left spine of `node.right`. Returns the node of that
      spine that is the parent of the leftmost node of `node.right`, or `node.right` itself when that node
      has no left child (then it is the leftmost node), or Nil when there is
      no right subtree. */
  method Successor<V>(node: Tree<V>) returns (pNode: Tree<V>)
    requires node.Node?
    ensures node.right.Nil? ==> pNode.Nil?
    ensures node.right.Node? && node.right.left.Nil? ==> pNode == node.right
    ensures node.right.Node? && node.right.left.Node? ==>
      pNode.Node? && OnLeftSpine(pNode, node.right) && pNode.left == Leftmost(node.right)
  {
    var rTree := node.right;
    pNode := node.right;
    if rTree.Node? {
      while rTree.left.Node?
        invariant rTree.Node? && Leftmost(rTree) == Leftmost(node.right)
        invariant pNode == rTree ==> rTree == node.right
        invariant pNode != rTree ==> pNode.Node? && pNode.left == rTree && node.right.left.Node?
        invariant OnLeftSpine(rTree, node.right) && OnLeftSpine(pNode, node.right)
        decreases rTree
      {
        LeftSpineStep(rTree, node.right);
        pNode := rTree;
        rTree := rTree.left;
      }
    }
  }

  /** 0-indexed rank: NOTIN when `key` is absent; otherwise the position of
      `key` in the in-order key sequence, computed from the cached sizes. */
  function Rank<V>(node: Tree<V>, key: int): (r: int)
    ensures Ordered(node) && MetricsOK(node) ==> (r == NOTIN <==> key !in Keys(node))
    ensures MetricsOK(node) && r != NOTIN ==>
      0 <= r < |InOrder(node)| && InOrder(node)[r] == key
  {
    if node.Nil? then NOTIN
    else if key < node.key then Rank(node.left, key)
    else if key > node.key then
      var rightRank := Rank(node.right, key);
      if rightRank == NOTIN then NOTIN else Size(node.left) + 1 + rightRank
    else Size(node.left)
  }

  /** Select by rank: Nil (NULL) exactly when `rank` is outside [0, size);
      otherwise the node at in-order position `rank`, found by comparing
      `rank` with the cached size of the left subtree. */
  function FindRank<V>(node: Tree<V>, rank: int): (r: Tree<V>)
    ensures MetricsOK(node) ==> (r.Nil? <==> !(0 <= rank < Count(node)))
    ensures MetricsOK(node) && r.Node? ==>
      0 <= rank < |InOrder(node)| && r.key == InOrder(node)[rank] && r.key in Keys(node)
    ensures r.Node? ==> SubtreeOf(r, node)
    ensures Ordered(node) && MetricsOK(node) && r.Node? ==> r.value == Content(node)[r.key]
  {
    if node.Nil? || rank < 0 || rank >= Size(node) then Nil
    else
      var leftSize := Size(node.left);
      if rank == leftSize then node
      else if rank < leftSize then FindRank(node.left, rank)
      else FindRank(node.right, rank - leftSize - 1)
  }

  /** The node search hands back is a node of the tree, so on a tree with
      correct metrics its height and size fields are those of its subtree. */
  lemma SearchReportsTrueMetrics<V>(node: Tree<V>, key: int)
    requires MetricsOK(node) && Search(node, key).Node?
    ensures Search(node, key).height == Depth(Search(node, key))
    ensures Search(node, key).size == Count(Search(node, key))
  {
    SubtreeMetricsOK(Search(node, key), node);
  }

  /** Likewise for the node findRank hands back. */
  lemma FindRankReportsTrueMetrics<V>(node: Tree<V>, rank: int)
    requires MetricsOK(node) && FindRank(node, rank).Node?
    ensures FindRank(node, rank).height == Depth(FindRank(node, rank))
    ensures FindRank(node, rank).size == Count(FindRank(node, rank))
  {
    SubtreeMetricsOK(FindRank(node, rank), node);
  }

  /** FindRank undoes Rank: the node of rank `Rank(node, key)` holds `key`. */
  lemma {:induction false} RankThenFindRank<V>(node: Tree<V>, key: int)
    requires Ordered(node) && MetricsOK(node) && key in Keys(node)
    ensures Rank(node, key) != NOTIN
    ensures FindRank(node, Rank(node, key)).Node? && FindRank(node, Rank(node, key)).key == key
  {
    if key < node.key {
      RankThenFindRank(node.left, key);
    } else if key > node.key {
      RankThenFindRank(node.right, key);
    }
  }

  /** Rank undoes FindRank: the key found at rank `rank` has rank `rank`. */
  lemma {:induction false} FindRankThenRank<V>(node: Tree<V>, rank: int)
    requires Ordered(node) && MetricsOK(node) && 0 <= rank < Count(node)
    ensures FindRank(node, rank).Node? && Rank(node, FindRank(node, rank).key) == rank
  {
    var leftSize := Size(node.left);
    if rank < leftSize {
      FindRankThenRank(node.left, rank);
    } else if rank > leftSize {
      FindRankThenRank(node.right, rank - leftSize - 1);
    }
  }

  /** The rank of a present key counts the smaller keys: exactly the first
      `Rank(node, key)` keys in sorted order are smaller than `key`. */
  lemma RankCountsSmallerKeys<V>(node: Tree<V>, key: int)
    requires Ordered(node) && MetricsOK(node) && key in Keys(node)
    ensures forall j :: 0 <= j < |InOrder(node)| ==> (InOrder(node)[j] < key <==> j < Rank(node, key))
  {
    OrderedIffSorted(node);
  }

  /** The teardown order of deleteTree: left subtree, right subtree, then the
      node itself. Every key is released as often as it occurs in the tree,
      and the root is released last. */
  ghost function DeleteTree<V>(node: Tree<V>): (released: seq<int>)
    ensures |released| == Count(node)
    ensures multiset(released) == multiset(InOrder(node))
    ensures node.Node? ==> released[|released| - 1] == node.key
  {
    if node.Nil? then [] else DeleteTree(node.left) + DeleteTree(node.right) + [node.key]
  }
}
