/** The rebalancer of RAVL_tree.c: refresh a node's metrics, then pick the
    rotation (if any) that restores the AVL invariant at that node. */
module Balancer {
  import opened Ravl
  import opened Metrics
  import opened Rotations

  /** Refreshes the node, then rotates when its balance factor is outside
      [-1, 1]: a single rotation when the heavy child leans the same way or
      not at all (balance factor 0), a double rotation when it leans the
      other way. The thresholds on the heavy child are `>= 0` / `<= 0`. */
  function BalanceTree<V>(node: Tree<V>): (r: Tree<V>)
    ensures r.Nil? <==> node.Nil?
    ensures InOrder(r) == InOrder(node) && Keys(r) == Keys(node) && Content(r) == Content(node)
    ensures Ordered(node) ==> Ordered(r)
  {
    var n := UpdateSize(UpdateHeight(node));
    if n.Nil? then n
    else
      ChildReplaced(node, n);
      var balance := BalanceFactor(n);
      var balanceL := BalanceFactor(n.left);
      var balanceR := BalanceFactor(n.right);
      if balance > 1 && balanceL >= 0 then RightRotation(n)
      else if balance > 1 && balanceL < 0 then LeftRightRotation(n)
      else if balance < -1 && balanceR <= 0 then LeftRotation(n)
      else if balance < -1 && balanceR > 0 then RightLeftRotation(n)
      else n
  }

  /** Left-heavy by two, left child not leaning right: one right rotation
      gives a balanced subtree one level lower, or as high when the left
      child had balance factor 0. */
  lemma LeftLeftCase<V>(n: Tree<V>)
    requires n.Node? && n.left.Node? && MetricsOK(n) && Balanced(n.left) && Balanced(n.right)
    requires Depth(n.left) - Depth(n.right) == 2
    requires Depth(n.left.left) >= Depth(n.left.right)
    ensures MetricsOK(RightRotation(n)) && Balanced(RightRotation(n))
    ensures Depth(RightRotation(n)) == Depth(n) || Depth(RightRotation(n)) == Depth(n) - 1
  {
    var r := RightRotation(n);
    assert Balanced(r.right);
  }

  /** Left-heavy by two, left child leaning right: the double rotation gives
      a balanced subtree one level lower. */
  lemma LeftRightCase<V>(n: Tree<V>)
    requires n.Node? && n.left.Node? && MetricsOK(n) && Balanced(n.left) && Balanced(n.right)
    requires Depth(n.left) - Depth(n.right) == 2
    requires Depth(n.left.left) < Depth(n.left.right)
    ensures MetricsOK(LeftRightRotation(n)) && Balanced(LeftRightRotation(n))
    ensures Depth(LeftRightRotation(n)) == Depth(n) - 1
  {
    var l := n.left;
    var a, b, c := l.left, l.right, n.right;
    assert MetricsOK(b.left) && MetricsOK(b.right) by {
      assert MetricsOK(l) && MetricsOK(b);
    }
    var h := Depth(c);
    assert Depth(a) == h && Depth(b) == h + 1;
    assert Balanced(b);
    JoinedBalanced(LeftRightRotation(n), h);
  }

  /** A node over two children of height h + 1 whose outer grandchildren have
      height h and inner grandchildren height h - 1 or h is balanced, of
      height h + 2: the shape a double rotation produces. */
  lemma JoinedBalanced<V>(r: Tree<V>, h: int)
    requires r.Node? && r.left.Node? && r.right.Node?
    requires Balanced(r.left.left) && Balanced(r.left.right)
    requires Balanced(r.right.left) && Balanced(r.right.right)
    requires Depth(r.left.left) == h && Depth(r.right.right) == h
    requires h - 1 <= Depth(r.left.right) <= h && h - 1 <= Depth(r.right.left) <= h
    ensures Balanced(r) && Depth(r) == h + 2
  {
    assert Depth(r.left) == h + 1 && Depth(r.right) == h + 1;
  }

  /** Mirror image of LeftLeftCase. */
  lemma RightRightCase<V>(n: Tree<V>)
    requires n.Node? && n.right.Node? && MetricsOK(n) && Balanced(n.left) && Balanced(n.right)
    requires Depth(n.right) - Depth(n.left) == 2
    requires Depth(n.right.right) >= Depth(n.right.left)
    ensures MetricsOK(LeftRotation(n)) && Balanced(LeftRotation(n))
    ensures Depth(LeftRotation(n)) == Depth(n) || Depth(LeftRotation(n)) == Depth(n) - 1
  {
    var r := LeftRotation(n);
    assert Balanced(r.left);
  }

  /** Mirror image of LeftRightCase. */
  lemma RightLeftCase<V>(n: Tree<V>)
    requires n.Node? && n.right.Node? && MetricsOK(n) && Balanced(n.left) && Balanced(n.right)
    requires Depth(n.right) - Depth(n.left) == 2
    requires Depth(n.right.right) < Depth(n.right.left)
    ensures MetricsOK(RightLeftRotation(n)) && Balanced(RightLeftRotation(n))
    ensures Depth(RightLeftRotation(n)) == Depth(n) - 1
  {
    var rt := n.right;
    var a, b, c := rt.right, rt.left, n.left;
    assert MetricsOK(b.left) && MetricsOK(b.right) by {
      assert MetricsOK(rt) && MetricsOK(b);
    }
    var h := Depth(c);
    assert Depth(a) == h && Depth(b) == h + 1;
    assert Balanced(b);
    JoinedBalanced(RightLeftRotation(n), h);
  }

  /** Given AVL-balanced children with correct metrics whose heights differ by
      at most two, BalanceTree yields an AVL-balanced subtree with correct
      metrics. It rotates only when the heights differ by two, and then the
      subtree is at most one level lower than before. */
  lemma BalanceTreeRestoresAvl<V>(node: Tree<V>)
    requires node.Node?
    requires MetricsOK(node.left) && MetricsOK(node.right)
    requires Balanced(node.left) && Balanced(node.right)
    requires -2 <= Depth(node.left) - Depth(node.right) <= 2
    ensures MetricsOK(BalanceTree(node)) && Balanced(BalanceTree(node))
    ensures -1 <= Depth(node.left) - Depth(node.right) <= 1 ==>
      BalanceTree(node) == UpdateSize(UpdateHeight(node))
    ensures Depth(BalanceTree(node)) == Depth(node) ||
      (Depth(BalanceTree(node)) == Depth(node) - 1 &&
       (Depth(node.left) - Depth(node.right) == 2 || Depth(node.right) - Depth(node.left) == 2))
  {
    var d := Depth(node.left) - Depth(node.right);
    if d == 2 {
      LeftHeavyRestored(node);
    } else if d == -2 {
      RightHeavyRestored(node);
    } else {
      NearlyBalancedKept(node);
    }
  }

  lemma NearlyBalancedKept<V>(node: Tree<V>)
    requires node.Node?
    requires MetricsOK(node.left) && MetricsOK(node.right)
    requires Balanced(node.left) && Balanced(node.right)
    requires -1 <= Depth(node.left) - Depth(node.right) <= 1
    ensures BalanceTree(node) == UpdateSize(UpdateHeight(node))
    ensures MetricsOK(BalanceTree(node)) && Balanced(BalanceTree(node))
    ensures Depth(BalanceTree(node)) == Depth(node)
  {
    Refreshed(node);
    var n := UpdateSize(UpdateHeight(node));
    assert BalanceFactor(n) == Depth(node.left) - Depth(node.right);
  }

  lemma LeftHeavyRestored<V>(node: Tree<V>)
    requires node.Node?
    requires MetricsOK(node.left) && MetricsOK(node.right)
    requires Balanced(node.left) && Balanced(node.right)
    requires Depth(node.left) - Depth(node.right) == 2
    ensures MetricsOK(BalanceTree(node)) && Balanced(BalanceTree(node))
    ensures Depth(BalanceTree(node)) == Depth(node) || Depth(BalanceTree(node)) == Depth(node) - 1
  {
    var n := UpdateSize(UpdateHeight(node));
    assert MetricsOK(n) && n.left == node.left && n.right == node.right && Depth(n) == Depth(node) by {
      Refreshed(node);
    }
    assert BalanceFactor(n) == 2;
    assert MetricsOK(n.left.left) && MetricsOK(n.left.right);
    if Depth(n.left.left) >= Depth(n.left.right) {
      assert BalanceTree(node) == RightRotation(n);
      LeftLeftCase(n);
    } else {
      assert BalanceTree(node) == LeftRightRotation(n);
      LeftRightCase(n);
    }
  }

  lemma RightHeavyRestored<V>(node: Tree<V>)
    requires node.Node?
    requires MetricsOK(node.left) && MetricsOK(node.right)
    requires Balanced(node.left) && Balanced(node.right)
    requires Depth(node.right) - Depth(node.left) == 2
    ensures MetricsOK(BalanceTree(node)) && Balanced(BalanceTree(node))
    ensures Depth(BalanceTree(node)) == Depth(node) || Depth(BalanceTree(node)) == Depth(node) - 1
  {
    var n := UpdateSize(UpdateHeight(node));
    assert MetricsOK(n) && n.left == node.left && n.right == node.right && Depth(n) == Depth(node) by {
      Refreshed(node);
    }
    assert BalanceFactor(n) == -2;
    assert MetricsOK(n.right.left) && MetricsOK(n.right.right);
    if Depth(n.right.right) >= Depth(n.right.left) {
      assert BalanceTree(node) == LeftRotation(n);
      RightRightCase(n);
    } else {
      assert BalanceTree(node) == RightLeftRotation(n);
      RightLeftCase(n);
    }
  }

  /** On a node that already satisfies every invariant, BalanceTree changes
      nothing. */
  lemma BalanceTreeIdleOnValid<V>(node: Tree<V>)
    requires node.Node? && MetricsOK(node) && Balanced(node)
    ensures BalanceTree(node) == node
  {
    BalanceTreeRestoresAvl(node);
    Refreshed(node);
  }

  /** The rebalancer as RAVL_tree.c writes it: the heavy child's balance
      factor is tested with strict `> 0` / `< 0`, so a heavy child with
      balance factor 0 triggers no rotation at all. */
  function BalanceTreeAsWritten<V>(node: Tree<V>): (r: Tree<V>)
    ensures InOrder(r) == InOrder(node) && Content(r) == Content(node)
  {
    var n := UpdateSize(UpdateHeight(node));
    if n.Nil? then n
    else
      ChildReplaced(node, n);
      var balance := BalanceFactor(n);
      var balanceL := BalanceFactor(n.left);
      var balanceR := BalanceFactor(n.right);
      if balance > 1 && balanceL > 0 then RightRotation(n)
      else if balance > 1 && balanceL < 0 then LeftRightRotation(n)
      else if balance < -1 && balanceR < 0 then LeftRotation(n)
      else if balance < -1 && balanceR > 0 then RightLeftRotation(n)
      else n
  }

  function Leaf(key: int): Tree<int> {
    Node(key, 0, 1, 1, Nil, Nil)
  }

  /** Node 4 over a left child 2 with two leaf children and no right child:
      what deleting key 5 from the AVL tree 4(2(1, 3), 5) leaves at the root
      before rebalancing. */
  function ZeroBalanceNode(): Tree<int> {
    Node(4, 0, 3, 4, Node(2, 0, 2, 3, Leaf(1), Leaf(3)), Nil)
  }

  /** The strict thresholds leave this node unbalanced although its children
      are balanced with correct metrics and differ in height by two; the
      `>= 0` threshold repairs it with a single right rotation. */
  lemma StrictThresholdsMissZeroBalance()
    ensures MetricsOK(ZeroBalanceNode()) && Balanced(ZeroBalanceNode().left)
    ensures Depth(ZeroBalanceNode().left) - Depth(ZeroBalanceNode().right) == 2
    ensures !Balanced(BalanceTreeAsWritten(ZeroBalanceNode()))
    ensures Balanced(BalanceTree(ZeroBalanceNode()))
  {
    var t := ZeroBalanceNode();
    ZeroBalanceNodeShape();
    assert BalanceTreeAsWritten(t) == t by {
      Refreshed(t);
    }
    BalanceTreeRestoresAvl(t);
  }

  lemma ZeroBalanceNodeShape()
    ensures MetricsOK(ZeroBalanceNode()) && Balanced(ZeroBalanceNode().left)
    ensures Depth(ZeroBalanceNode().left) - Depth(ZeroBalanceNode().right) == 2
    ensures BalanceFactor(ZeroBalanceNode()) == 2 && BalanceFactor(ZeroBalanceNode().left) == 0
  {
    var t := ZeroBalanceNode();
    assert Depth(t.left.left) == 1 && Depth(t.left.right) == 1;
    assert Depth(t.left) == 2 && Depth(t) == 3;
    assert MetricsOK(t.left.left) && MetricsOK(t.left.right);
    assert MetricsOK(t.left) && MetricsOK(t);
  }

}
