/** The O(1) metric helpers of RAVL_tree.c: reading and recomputing a node's
    cached height and size from its two children, and its balance factor. */
module Metrics {
  import opened Ravl

  /** The cached height: 0 for the empty tree, the stored field otherwise. */
  function Height<V>(node: Tree<V>): (h: int)
    ensures node.Nil? ==> h == 0
    ensures MetricsOK(node) ==> h == Depth(node)
  {
    if node.Nil? then 0 else node.height
  }

  /** The cached size: 0 for the empty tree, the stored field otherwise. */
  function Size<V>(node: Tree<V>): (s: int)
    ensures node.Nil? ==> s == 0
    ensures MetricsOK(node) ==> s == Count(node) && s == |InOrder(node)|
  {
    if node.Nil? then 0 else node.size
  }

  /** Recomputes the height field from the children's cached heights; no
      other field changes. With children whose metrics are correct, the new
      field is the true height of the subtree. */
  function UpdateHeight<V>(node: Tree<V>): (r: Tree<V>)
    ensures node.Nil? ==> r == node
    ensures node.Node? ==> r.Node? && r == node.(height := r.height)
    ensures node.Node? && MetricsOK(node.left) && MetricsOK(node.right) ==> r.height == Depth(node)
  {
    if node.Nil? then node
    else
      var leftHeight := Height(node.left);
      var rightHeight := Height(node.right);
      node.(height := 1 + (if leftHeight > rightHeight then leftHeight else rightHeight))
  }

  /** Recomputes the size field from the children's cached sizes; no other
      field changes. With children whose metrics are correct, the new field
      is the node count of the subtree. */
  function UpdateSize<V>(node: Tree<V>): (r: Tree<V>)
    ensures node.Nil? ==> r == node
    ensures node.Node? ==> r.Node? && r == node.(size := r.size)
    ensures node.Node? && MetricsOK(node.left) && MetricsOK(node.right) ==> r.size == Count(node)
  {
    if node.Nil? then node
    else
      var leftSize := if node.left.Node? then node.left.size else 0;
      var rightSize := if node.right.Node? then node.right.size else 0;
      node.(size := 1 + leftSize + rightSize)
  }

  /** Height of the left subtree minus height of the right one (0 for the
      empty tree). With correct child metrics it is the true height difference,
      so a node is AVL-balanced exactly when it lies in [-1, 1]. */
  function BalanceFactor<V>(node: Tree<V>): (b: int)
    ensures node.Nil? ==> b == 0
    ensures node.Node? && MetricsOK(node.left) && MetricsOK(node.right) ==>
      b == Depth(node.left) - Depth(node.right)
  {
    if node.Nil? then 0 else Height(node.left) - Height(node.right)
  }

  /** Refreshing a node bottom-up (height, then size) over children with
      correct metrics gives a node with correct metrics and leaves its keys,
      values and shape alone. */
  lemma Refreshed<V>(node: Tree<V>)
    requires node.Node? && MetricsOK(node.left) && MetricsOK(node.right)
    ensures MetricsOK(UpdateSize(UpdateHeight(node)))
    ensures InOrder(UpdateSize(UpdateHeight(node))) == InOrder(node)
    ensures Content(UpdateSize(UpdateHeight(node))) == Content(node)
    ensures Ordered(node) ==> Ordered(UpdateSize(UpdateHeight(node)))
    ensures Balanced(node) ==> Balanced(UpdateSize(UpdateHeight(node)))
    ensures MetricsOK(node) ==> UpdateSize(UpdateHeight(node)) == node
  {
  }
}
