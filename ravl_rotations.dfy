/** The four rotation primitives of RAVL_tree.c. Each takes a subtree root and
    returns the new subtree root; the node that moves down is refreshed before
    the node that moves up. */
module Rotations {
  import opened Ravl
  import opened Metrics

  /** `y` is `x` turned clockwise at its root (equivalently, `x` is `y` turned
      counter-clockwise): both stand for the same keys in the same order, with
      the same values, and one is a BST exactly when the other is. */
  lemma Rotated<V>(x: Tree<V>, y: Tree<V>)
    requires x.Node? && x.left.Node? && y.Node? && y.right.Node?
    requires y.key == x.left.key && y.value == x.left.value && y.left == x.left.left
    requires y.right.key == x.key && y.right.value == x.value
    requires y.right.left == x.left.right && y.right.right == x.right
    ensures InOrder(y) == InOrder(x) && Keys(y) == Keys(x) && Content(y) == Content(x)
    ensures Ordered(x) <==> Ordered(y)
  {
    RotatedInOrder(x, y);
    RotatedContent(x, y);
    RotatedOrdered(x, y);
  }

  lemma RotatedInOrder<V>(x: Tree<V>, y: Tree<V>)
    requires x.Node? && x.left.Node? && y.Node? && y.right.Node?
    requires y.key == x.left.key && y.left == x.left.left
    requires y.right.key == x.key
    requires y.right.left == x.left.right && y.right.right == x.right
    ensures InOrder(y) == InOrder(x) && Keys(y) == Keys(x)
  {
    var a, b, c := InOrder(x.left.left), InOrder(x.left.right), InOrder(x.right);
    assert InOrder(y) == a + [y.key] + (b + [x.key] + c);
    assert InOrder(x) == (a + [y.key] + b) + [x.key] + c;
  }

  lemma RotatedContent<V>(x: Tree<V>, y: Tree<V>)
    requires x.Node? && x.left.Node? && y.Node? && y.right.Node?
    requires y.key == x.left.key && y.value == x.left.value && y.left == x.left.left
    requires y.right.key == x.key && y.right.value == x.value
    requires y.right.left == x.left.right && y.right.right == x.right
    ensures Content(y) == Content(x)
  {
    var ma, mb, mc := Content(x.left.left), Content(x.left.right), Content(x.right);
    var mk, ml := map[x.key := x.value], map[y.key := y.value];
    assert Content(y) == ma + ml + (mb + mk + mc);
    assert Content(x) == (ma + ml + mb) + mk + mc;
    UnionAssociative(ma + ml, mb, mk);
    UnionAssociative(ma + ml, mb + mk, mc);
  }

  lemma UnionAssociative<K, V>(m1: map<K, V>, m2: map<K, V>, m3: map<K, V>)
    ensures m1 + (m2 + m3) == (m1 + m2) + m3
  {
  }

  lemma RotatedOrdered<V>(x: Tree<V>, y: Tree<V>)
    requires x.Node? && x.left.Node? && y.Node? && y.right.Node?
    requires y.key == x.left.key && y.left == x.left.left
    requires y.right.key == x.key
    requires y.right.left == x.left.right && y.right.right == x.right
    ensures Ordered(x) <==> Ordered(y)
  {
    var a, b, c := x.left.left, x.left.right, x.right;
    var k, lk := x.key, y.key;
    assert Keys(x.left) == Keys(a) + {lk} + Keys(b);
    assert Keys(y.right) == Keys(b) + {k} + Keys(c);
    if Ordered(x) {
      assert lk < k;
      assert Ordered(x.left);
      assert Ordered(y.right);
    }
    if Ordered(y) {
      assert lk < k;
      assert Ordered(y.right);
      assert Ordered(x.left);
    }
  }

  /** Replacing a child by a subtree with the same keys, order and values
      changes neither the keys, the order nor the values of the parent. */
  lemma ChildReplaced<V>(x: Tree<V>, y: Tree<V>)
    requires x.Node? && y.Node? && y.key == x.key && y.value == x.value
    requires InOrder(y.left) == InOrder(x.left) && Content(y.left) == Content(x.left)
    requires InOrder(y.right) == InOrder(x.right) && Content(y.right) == Content(x.right)
    requires Ordered(x.left) ==> Ordered(y.left)
    requires Ordered(x.right) ==> Ordered(y.right)
    ensures InOrder(y) == InOrder(x) && Keys(y) == Keys(x) && Content(y) == Content(x)
    ensures Ordered(x) ==> Ordered(y)
  {
    SameKeys(x.left, y.left);
    SameKeys(x.right, y.right);
    SameKeysOrdered(x, y);
  }

  lemma SameKeys<V>(x: Tree<V>, y: Tree<V>)
    requires Content(y) == Content(x)
    ensures Keys(y) == Keys(x)
  {
  }

  lemma SameKeysOrdered<V>(x: Tree<V>, y: Tree<V>)
    requires x.Node? && y.Node? && y.key == x.key
    requires Keys(y.left) == Keys(x.left) && Keys(y.right) == Keys(x.right)
    requires Ordered(x.left) ==> Ordered(y.left)
    requires Ordered(x.right) ==> Ordered(y.right)
    ensures Ordered(x) ==> Ordered(y)
  {
  }

  /** Single right (clockwise) rotation: promotes `node.left`. The demoted
      node takes the promoted node's right subtree as its new left subtree. */
  function RightRotation<V>(node: Tree<V>): (r: Tree<V>)
    ensures node.Nil? || node.left.Nil? ==> r == node
    ensures r.Nil? <==> node.Nil?
    ensures node.Node? && node.left.Node? ==>
      r.key == node.left.key && r.left == node.left.left && r.right.Node? &&
      r.right.key == node.key && r.right.left == node.left.right && r.right.right == node.right
    ensures InOrder(r) == InOrder(node) && Keys(r) == Keys(node) && Content(r) == Content(node)
    ensures Ordered(node) ==> Ordered(r)
    ensures (node.Node? && node.left.Node? &&
             MetricsOK(node.left.left) && MetricsOK(node.left.right) && MetricsOK(node.right)) ==>
      MetricsOK(r)
  {
    if node.Nil? || node.left.Nil? then node
    else
      var t := node.left;
      var demoted := UpdateSize(UpdateHeight(node.(left := t.right)));
      var promoted := UpdateSize(UpdateHeight(t.(right := demoted)));
      Rotated(node, promoted);
      promoted
  }

  /** Single left (counter-clockwise) rotation: the mirror image, promoting
      `node.right`. */
  function LeftRotation<V>(node: Tree<V>): (r: Tree<V>)
    ensures node.Nil? || node.right.Nil? ==> r == node
    ensures r.Nil? <==> node.Nil?
    ensures node.Node? && node.right.Node? ==>
      r.key == node.right.key && r.right == node.right.right && r.left.Node? &&
      r.left.key == node.key && r.left.right == node.right.left && r.left.left == node.left
    ensures InOrder(r) == InOrder(node) && Keys(r) == Keys(node) && Content(r) == Content(node)
    ensures Ordered(node) ==> Ordered(r)
    ensures (node.Node? && node.right.Node? &&
             MetricsOK(node.right.right) && MetricsOK(node.right.left) && MetricsOK(node.left)) ==>
      MetricsOK(r)
  {
    if node.Nil? || node.right.Nil? then node
    else
      var t := node.right;
      var demoted := UpdateSize(UpdateHeight(node.(right := t.left)));
      var promoted := UpdateSize(UpdateHeight(t.(left := demoted)));
      Rotated(promoted, node);
      promoted
  }

  /** Double rotation for a right-heavy node whose right child leans left:
      a right rotation of `node.right`, then a left rotation of `node`. The
      grandchild `node.right.left` ends on top. */
  function RightLeftRotation<V>(node: Tree<V>): (r: Tree<V>)
    ensures node.Nil? || node.right.Nil? ==> r == node
    ensures r.Nil? <==> node.Nil?
    ensures node.Node? && node.right.Node? && node.right.left.Node? ==>
      r.key == node.right.left.key && r.left.Node? && r.right.Node? &&
      r.left.key == node.key && r.left.left == node.left && r.left.right == node.right.left.left &&
      r.right.key == node.right.key && r.right.left == node.right.left.right &&
      r.right.right == node.right.right
    ensures InOrder(r) == InOrder(node) && Keys(r) == Keys(node) && Content(r) == Content(node)
    ensures Ordered(node) ==> Ordered(r)
    ensures (node.Node? && node.right.Node? && node.right.left.Node? &&
             MetricsOK(node.left) && MetricsOK(node.right.left.left) &&
             MetricsOK(node.right.left.right) && MetricsOK(node.right.right)) ==>
      MetricsOK(r)
  {
    if node.Nil? || node.right.Nil? then node
    else
      var raised := RightRotation(node.right);
      var mid := node.(right := raised);
      ChildReplaced(node, mid);
      LeftRotation(mid)
  }

  /** Double rotation for a left-heavy node whose left child leans right:
      a left rotation of `node.left`, then a right rotation of `node`. The
      grandchild `node.left.right` ends on top. */
  function LeftRightRotation<V>(node: Tree<V>): (r: Tree<V>)
    ensures node.Nil? || node.left.Nil? ==> r == node
    ensures r.Nil? <==> node.Nil?
    ensures node.Node? && node.left.Node? && node.left.right.Node? ==>
      r.key == node.left.right.key && r.left.Node? && r.right.Node? &&
      r.left.key == node.left.key && r.left.left == node.left.left &&
      r.left.right == node.left.right.left &&
      r.right.key == node.key && r.right.left == node.left.right.right && r.right.right == node.right
    ensures InOrder(r) == InOrder(node) && Keys(r) == Keys(node) && Content(r) == Content(node)
    ensures Ordered(node) ==> Ordered(r)
    ensures (node.Node? && node.left.Node? && node.left.right.Node? &&
             MetricsOK(node.left.left) && MetricsOK(node.left.right.left) &&
             MetricsOK(node.left.right.right) && MetricsOK(node.right)) ==>
      MetricsOK(r)
  {
    if node.Nil? || node.left.Nil? then node
    else
      var raised := LeftRotation(node.left);
      var mid := node.(left := raised);
      ChildReplaced(node, mid);
      RightRotation(mid)
  }
}
