/** The mutating operations of RAVL_tree.c: node creation, insertion and
    deletion. Each returns the root of the resulting subtree, which the caller
    splices into the parent's child slot; every level of the descent is
    refreshed and rebalanced on the way back up. */
module Updates {
  import opened Ravl
  import opened Metrics
  import opened Balancer
  import opened Queries

  /** A single node holding `key` and `value`, with height and size 1 and
      no children. */
  function CreateNode<V>(key: int, value: V): (r: Tree<V>)
    ensures r.Node? && r.left.Nil? && r.right.Nil? && r.height == 1 && r.size == 1
    ensures Valid(r) && InOrder(r) == [key] && Content(r) == map[key := value]
  {
    var r := Node(key, value, 1, 1, Nil, Nil);
    assert Count(r.left) == 0 && Depth(r.left) == 0 && MetricsOK(r.left) && Balanced(r.left);
    assert Count(r.right) == 0 && Depth(r.right) == 0 && MetricsOK(r.right) && Balanced(r.right);
    assert InOrder(r) == [] + [key] + [] && Depth(r) == 1 && Count(r) == 1;
    assert Content(r) == map[] + map[key := value] + map[];
    assert MetricsOK(r) && Ordered(r) && Balanced(r);
    r
  }

  /** Insert or update. Descends by key, splices the rebuilt child back and
      rebalances the node; on an equal key only the value is replaced. The
      result is never empty, its keys are the old keys plus `key`, and on a
      BST its key/value association is the old one updated at `key`. */
  function Insert<V>(node: Tree<V>, key: int, value: V): (r: Tree<V>)
    ensures r.Node?
    ensures Keys(r) == Keys(node) + {key}
    ensures Ordered(node) ==> Ordered(r) && Content(r) == Content(node)[key := value]
  {
    if node.Nil? then CreateNode(key, value)
    else if node.key < key then
      var right := Insert(node.right, key, value);
      InsertedRight(node, node.(right := right), key, value);
      BalanceTree(node.(right := right))
    else if node.key > key then
      var left := Insert(node.left, key, value);
      InsertedLeft(node, node.(left := left), key, value);
      BalanceTree(node.(left := left))
    else
      node.(value := value)
  }

  lemma InsertedRight<V>(node: Tree<V>, n: Tree<V>, key: int, value: V)
    requires node.Node? && n.Node? && node.key < key
    requires n == node.(right := n.right)
    requires Keys(n.right) == Keys(node.right) + {key}
    requires Ordered(node.right) ==> Ordered(n.right) && Content(n.right) == Content(node.right)[key := value]
    ensures Keys(n) == Keys(node) + {key}
    ensures Ordered(node) ==> Ordered(n) && Content(n) == Content(node)[key := value]
  {
    if Ordered(node) {
      SameLeftOrdered(node, n);
      UpdateRight(Content(node.left), map[node.key := node.value], Content(node.right), key, value);
    }
  }

  lemma InsertedLeft<V>(node: Tree<V>, n: Tree<V>, key: int, value: V)
    requires node.Node? && n.Node? && key < node.key
    requires n == node.(left := n.left)
    requires Keys(n.left) == Keys(node.left) + {key}
    requires Ordered(node.left) ==> Ordered(n.left) && Content(n.left) == Content(node.left)[key := value]
    ensures Keys(n) == Keys(node) + {key}
    ensures Ordered(node) ==> Ordered(n) && Content(n) == Content(node)[key := value]
  {
    if Ordered(node) {
      SameRightOrdered(node, n);
      UpdateLeft(Content(node.left), map[node.key := node.value], Content(node.right), key, value);
    }
  }

  /** A node whose right subtree is replaced by an ordered one with no key at
      or below the node's key is still ordered. */
  lemma SameLeftOrdered<V>(node: Tree<V>, n: Tree<V>)
    requires node.Node? && n.Node? && n.key == node.key && n.left == node.left
    requires Ordered(node) && Ordered(n.right)
    requires forall x :: x in Keys(n.right) ==> node.key < x
    ensures Ordered(n)
  {
  }

  /** Mirror image of SameLeftOrdered. */
  lemma SameRightOrdered<V>(node: Tree<V>, n: Tree<V>)
    requires node.Node? && n.Node? && n.key == node.key && n.right == node.right
    requires Ordered(node) && Ordered(n.left)
    requires forall x :: x in Keys(n.left) ==> x < node.key
    ensures Ordered(n)
  {
  }

  lemma UpdateRight<V>(ml: map<int, V>, mk: map<int, V>, mr: map<int, V>, key: int, value: V)
    requires key !in ml && key !in mk
    ensures ml + mk + mr[key := value] == (ml + mk + mr)[key := value]
  {
  }

  lemma UpdateLeft<V>(ml: map<int, V>, mk: map<int, V>, mr: map<int, V>, key: int, value: V)
    requires key !in mk && key !in mr
    ensures ml[key := value] + mk + mr == (ml + mk + mr)[key := value]
  {
  }

  lemma RemoveLeft<V>(ml: map<int, V>, mk: map<int, V>, mr: map<int, V>, key: int)
    requires key !in mk && key !in mr
    ensures (ml - {key}) + mk + mr == (ml + mk + mr) - {key}
  {
  }

  lemma RemoveRight<V>(ml: map<int, V>, mk: map<int, V>, mr: map<int, V>, key: int)
    requires key !in mk && key !in ml
    ensures ml + mk + (mr - {key}) == (ml + mk + mr) - {key}
  {
  }

  lemma ReplaceBySuccessor<V>(ml: map<int, V>, k: int, v: V, mr: map<int, V>, s: int)
    requires k !in ml && k !in mr && s in mr
    ensures ml + map[s := mr[s]] + (mr - {s}) == (ml + map[k := v] + mr) - {k}
  {
  }

  /** Rebalancing a valid node whose one child was replaced by a valid subtree
      as high or one level higher gives a valid subtree as high or one level
      higher than the node. */
  lemma RebalanceAfterGrowth<V>(node: Tree<V>, n: Tree<V>)
    requires node.Node? && n.Node? && Valid(node) && Ordered(n)
    requires Valid(n.left) && Valid(n.right)
    requires (n.left == node.left && Depth(node.right) <= Depth(n.right) <= Depth(node.right) + 1) ||
             (n.right == node.right && Depth(node.left) <= Depth(n.left) <= Depth(node.left) + 1)
    ensures Valid(BalanceTree(n))
    ensures Depth(node) <= Depth(BalanceTree(n)) <= Depth(node) + 1
  {
    assert Depth(n) == 1 + Max(Depth(n.left), Depth(n.right));
    assert Depth(node) == 1 + Max(Depth(node.left), Depth(node.right));
    BalanceTreeRestoresAvl(n);
  }

  /** Rebalancing a valid node whose one child was replaced by a valid subtree
      as high or one level lower gives a valid subtree as high or one level
      lower than the node. */
  lemma RebalanceAfterShrink<V>(node: Tree<V>, n: Tree<V>)
    requires node.Node? && n.Node? && Valid(node) && Ordered(n)
    requires Valid(n.left) && Valid(n.right)
    requires (n.left == node.left && Depth(node.right) - 1 <= Depth(n.right) <= Depth(node.right)) ||
             (n.right == node.right && Depth(node.left) - 1 <= Depth(n.left) <= Depth(node.left))
    ensures Valid(BalanceTree(n))
    ensures Depth(node) - 1 <= Depth(BalanceTree(n)) <= Depth(node)
  {
    assert Depth(n) == 1 + Max(Depth(n.left), Depth(n.right));
    assert Depth(node) == 1 + Max(Depth(node.left), Depth(node.right));
    BalanceTreeRestoresAvl(n);
  }

  /** Insert keeps every RAVL invariant, and the height grows by at most one. */
  lemma {:induction false} InsertKeepsValid<V>(node: Tree<V>, key: int, value: V)
    requires Valid(node)
    ensures Valid(Insert(node, key, value))
    ensures Depth(node) <= Depth(Insert(node, key, value)) <= Depth(node) + 1
  {
    if node.Nil? {
    } else if node.key < key {
      InsertKeepsValid(node.right, key, value);
      InsertedRightValid(node, key, value);
    } else if node.key > key {
      InsertKeepsValid(node.left, key, value);
      InsertedLeftValid(node, key, value);
    } else {
      ValueReplacedValid(node, value);
    }
  }

  lemma InsertedRightValid<V>(node: Tree<V>, key: int, value: V)
    requires node.Node? && Valid(node) && node.key < key
    requires Valid(Insert(node.right, key, value))
    requires Depth(node.right) <= Depth(Insert(node.right, key, value)) <= Depth(node.right) + 1
    ensures Valid(Insert(node, key, value))
    ensures Depth(node) <= Depth(Insert(node, key, value)) <= Depth(node) + 1
  {
    var n := node.(right := Insert(node.right, key, value));
    InsertedRight(node, n, key, value);
    assert Insert(node, key, value) == BalanceTree(n);
    RebalanceAfterGrowth(node, n);
  }

  lemma InsertedLeftValid<V>(node: Tree<V>, key: int, value: V)
    requires node.Node? && Valid(node) && key < node.key
    requires Valid(Insert(node.left, key, value))
    requires Depth(node.left) <= Depth(Insert(node.left, key, value)) <= Depth(node.left) + 1
    ensures Valid(Insert(node, key, value))
    ensures Depth(node) <= Depth(Insert(node, key, value)) <= Depth(node) + 1
  {
    var n := node.(left := Insert(node.left, key, value));
    InsertedLeft(node, n, key, value);
    assert Insert(node, key, value) == BalanceTree(n);
    RebalanceAfterGrowth(node, n);
  }

  lemma ValueReplacedValid<V>(node: Tree<V>, value: V)
    requires node.Node? && Valid(node)
    ensures Valid(Insert(node, node.key, value))
    ensures Depth(Insert(node, node.key, value)) == Depth(node)
  {
    var r := Insert(node, node.key, value);
    assert r == node.(value := value);
    assert Keys(r.left) == Keys(node.left) && Keys(r.right) == Keys(node.right);
  }

  /** Re-inserting a present key keeps the in-order keys and the height, and
      the key then maps to `value`. */
  lemma {:induction false} InsertPresentKeepsShape<V>(node: Tree<V>, key: int, value: V)
    requires Valid(node) && key in Keys(node)
    ensures InOrder(Insert(node, key, value)) == InOrder(node)
    ensures Depth(Insert(node, key, value)) == Depth(node)
    ensures Search(Insert(node, key, value), key).value == value
  {
    if node.key < key {
      InsertPresentKeepsShape(node.right, key, value);
      InsertKeepsValid(node.right, key, value);
      BalanceTreeRestoresAvl(node.(right := Insert(node.right, key, value)));
    } else if node.key > key {
      InsertPresentKeepsShape(node.left, key, value);
      InsertKeepsValid(node.left, key, value);
      BalanceTreeRestoresAvl(node.(left := Insert(node.left, key, value)));
    }
    InsertKeepsValid(node, key, value);
  }

  /** The tree with the value at `key` replaced and nothing else changed:
      same shape, same keys, same stored metrics. */
  function SetValue<V>(t: Tree<V>, key: int, value: V): (r: Tree<V>)
    ensures InOrder(r) == InOrder(t)
  {
    if t.Nil? then t
    else if t.key == key then t.(value := value)
    else if t.key < key then t.(right := SetValue(t.right, key, value))
    else t.(left := SetValue(t.left, key, value))
  }

  /** On a valid tree holding `key`, insertion rotates nothing and refreshes
      no metric: the result is the tree with only that node's value replaced. */
  lemma {:induction false} InsertPresentOnlySetsValue<V>(node: Tree<V>, key: int, value: V)
    requires Valid(node) && key in Keys(node)
    ensures Insert(node, key, value) == SetValue(node, key, value)
  {
    if node.key < key {
      assert key in Keys(node.right);
      InsertPresentOnlySetsValue(node.right, key, value);
      RightPathIdle(node, key, value);
    } else if node.key > key {
      assert key in Keys(node.left);
      InsertPresentOnlySetsValue(node.left, key, value);
      LeftPathIdle(node, key, value);
    }
  }

  lemma RightPathIdle<V>(node: Tree<V>, key: int, value: V)
    requires node.Node? && Valid(node) && node.key < key && key in Keys(node.right)
    ensures Insert(node, key, value) == node.(right := Insert(node.right, key, value))
  {
    var n := node.(right := Insert(node.right, key, value));
    InsertPresentKeepsShape(node.right, key, value);
    InsertKeepsValid(node.right, key, value);
    assert Count(n.right) == Count(node.right);
    assert MetricsOK(n) && Balanced(n);
    BalanceTreeIdleOnValid(n);
    assert Insert(node, key, value) == BalanceTree(n);
  }

  lemma LeftPathIdle<V>(node: Tree<V>, key: int, value: V)
    requires node.Node? && Valid(node) && key < node.key && key in Keys(node.left)
    ensures Insert(node, key, value) == node.(left := Insert(node.left, key, value))
  {
    var n := node.(left := Insert(node.left, key, value));
    InsertPresentKeepsShape(node.left, key, value);
    InsertKeepsValid(node.left, key, value);
    assert Count(n.left) == Count(node.left);
    assert MetricsOK(n) && Balanced(n);
    BalanceTreeIdleOnValid(n);
    assert Insert(node, key, value) == BalanceTree(n);
  }

  /** On a BST, insertion adds one node exactly when the key was absent. */
  lemma InsertCount<V>(node: Tree<V>, key: int, value: V)
    requires Ordered(node)
    ensures Count(Insert(node, key, value)) == Count(node) + (if key in Keys(node) then 0 else 1)
  {
    OrderedCountsKeys(node);
    OrderedCountsKeys(Insert(node, key, value));
  }

  /** Delete. Descends by key; at the node holding `key`, a leaf is removed, a
      node with one child is replaced by that child, and a node with two
      children takes the key and value of its in-order successor (the leftmost
      node of its right subtree), which is then deleted from the right
      subtree. Every node left on the path is rebalanced. An absent key
      removes nothing. */
  function Delete<V>(node: Tree<V>, key: int): (r: Tree<V>)
    ensures Keys(r) <= Keys(node)
    ensures Ordered(node) ==>
      Ordered(r) && Keys(r) == Keys(node) - {key} && Content(r) == Content(node) - {key}
  {
    if node.Nil? then node
    else if key < node.key then
      var left := Delete(node.left, key);
      DeletedLeft(node, node.(left := left), key);
      BalanceTree(node.(left := left))
    else if key > node.key then
      var right := Delete(node.right, key);
      DeletedRight(node, node.(right := right), key);
      BalanceTree(node.(right := right))
    else if node.left.Nil? && node.right.Nil? then Nil
    else if node.right.Nil? then node.left
    else if node.left.Nil? then node.right
    else
      var s := Leftmost(node.right);
      var right := Delete(node.right, s.key);
      var n := node.(key := s.key, value := s.value, right := right);
      SuccessorCopied(node, n);
      BalanceTree(n)
  }

  lemma DeletedLeft<V>(node: Tree<V>, n: Tree<V>, key: int)
    requires node.Node? && n.Node? && key < node.key
    requires n == node.(left := n.left)
    requires Keys(n.left) <= Keys(node.left)
    requires Ordered(node.left) ==>
      Ordered(n.left) && Keys(n.left) == Keys(node.left) - {key} && Content(n.left) == Content(node.left) - {key}
    ensures Keys(n) <= Keys(node)
    ensures Ordered(node) ==> Ordered(n) && Keys(n) == Keys(node) - {key} && Content(n) == Content(node) - {key}
  {
    if Ordered(node) {
      SameRightOrdered(node, n);
      RemoveLeft(Content(node.left), map[node.key := node.value], Content(node.right), key);
    }
  }

  lemma DeletedRight<V>(node: Tree<V>, n: Tree<V>, key: int)
    requires node.Node? && n.Node? && node.key < key
    requires n == node.(right := n.right)
    requires Keys(n.right) <= Keys(node.right)
    requires Ordered(node.right) ==>
      Ordered(n.right) && Keys(n.right) == Keys(node.right) - {key} && Content(n.right) == Content(node.right) - {key}
    ensures Keys(n) <= Keys(node)
    ensures Ordered(node) ==> Ordered(n) && Keys(n) == Keys(node) - {key} && Content(n) == Content(node) - {key}
  {
    if Ordered(node) {
      SameLeftOrdered(node, n);
      RemoveRight(Content(node.left), map[node.key := node.value], Content(node.right), key);
    }
  }

  /** Two-child removal: copying the successor's key and value into the node
      and deleting the successor from the right subtree removes exactly the
      node's old key. */
  lemma SuccessorCopied<V>(node: Tree<V>, n: Tree<V>)
    requires node.Node? && node.right.Node? && n.Node?
    requires n.key == Leftmost(node.right).key && n.value == Leftmost(node.right).value
    requires n.left == node.left
    requires Keys(n.right) <= Keys(node.right)
    requires Ordered(node.right) ==>
      Ordered(n.right) && Keys(n.right) == Keys(node.right) - {n.key} &&
      Content(n.right) == Content(node.right) - {n.key}
    ensures Keys(n) <= Keys(node)
    ensures Ordered(node) ==>
      Ordered(n) && Keys(n) == Keys(node) - {node.key} && Content(n) == Content(node) - {node.key}
  {
    if Ordered(node) {
      SuccessorOrdered(node, n);
      ReplaceBySuccessor(Content(node.left), node.key, node.value, Content(node.right), n.key);
    }
  }

  lemma SuccessorOrdered<V>(node: Tree<V>, n: Tree<V>)
    requires node.Node? && node.right.Node? && n.Node? && Ordered(node)
    requires n.key == Leftmost(node.right).key && n.left == node.left
    requires Ordered(n.right) && Keys(n.right) == Keys(node.right) - {n.key}
    ensures Ordered(n) && Keys(n) == Keys(node) - {node.key}
  {
    var s, k := n.key, node.key;
    var L, R := Keys(node.left), Keys(node.right);
    assert Ordered(node.right) && Ordered(node.left);
    assert s in R && forall x :: x in R ==> s <= x;
    assert k < s;
    assert forall x :: x in L ==> x < s;
    SuccessorKeys(L, k, R, s);
    forall x | x in Keys(n.right) ensures s < x {
      assert x in R && x != s;
    }
    assert Ordered(n.left);
  }

  lemma SuccessorKeys(left: set<int>, k: int, right: set<int>, s: int)
    requires k !in left && k !in right && s in right
    ensures left + {s} + (right - {s}) == (left + {k} + right) - {k}
  {
  }

  /** Delete keeps every RAVL invariant, and the height shrinks by at most one. */
  lemma {:induction false} DeleteKeepsValid<V>(node: Tree<V>, key: int)
    requires Valid(node)
    ensures Valid(Delete(node, key))
    ensures Depth(node) - 1 <= Depth(Delete(node, key)) <= Depth(node)
  {
    if node.Nil? {
    } else if key < node.key {
      DeleteKeepsValid(node.left, key);
      RebalanceAfterShrink(node, node.(left := Delete(node.left, key)));
    } else if key > node.key {
      DeleteKeepsValid(node.right, key);
      RebalanceAfterShrink(node, node.(right := Delete(node.right, key)));
    } else if node.left.Node? && node.right.Node? {
      var s := Leftmost(node.right);
      var right := Delete(node.right, s.key);
      DeleteKeepsValid(node.right, s.key);
      var n := node.(key := s.key, value := s.value, right := right);
      SuccessorCopied(node, n);
      assert Delete(node, key) == BalanceTree(n);
      RebalanceAfterShrink(node, n);
    }
  }

  /** On a BST, deletion removes one node exactly when the key was present. */
  lemma DeleteCount<V>(node: Tree<V>, key: int)
    requires Ordered(node)
    ensures Count(Delete(node, key)) == Count(node) - (if key in Keys(node) then 1 else 0)
  {
    OrderedCountsKeys(node);
    OrderedCountsKeys(Delete(node, key));
  }

  /** Deleting an absent key returns the very same tree. */
  lemma {:induction false} DeleteAbsentUnchanged<V>(node: Tree<V>, key: int)
    requires Valid(node) && key !in Keys(node)
    ensures Delete(node, key) == node
  {
    if node.Node? {
      if key < node.key {
        DeleteAbsentUnchanged(node.left, key);
        UntouchedChildIdle(node, key);
      } else {
        DeleteAbsentUnchanged(node.right, key);
        UntouchedChildIdle(node, key);
      }
    }
  }

  lemma UntouchedChildIdle<V>(node: Tree<V>, key: int)
    requires node.Node? && Valid(node) && key != node.key
    requires key < node.key ==> Delete(node.left, key) == node.left
    requires key > node.key ==> Delete(node.right, key) == node.right
    ensures Delete(node, key) == node
  {
    BalanceTreeIdleOnValid(node);
    if key < node.key {
      assert Delete(node, key) == BalanceTree(node);
    } else {
      assert Delete(node, key) == BalanceTree(node);
    }
  }


  /** insert as RAVL_tree.c writes it: no metric refresh and no rebalancing on
      the way back, and an equal key returns the node without storing the new
      value. The `<` and `>` paths end without a return statement; they are
      taken here to return `node`. */
  function InsertAsWritten<V>(node: Tree<V>, key: int, value: V): (r: Tree<V>)
    ensures r.Node? && Keys(r) == Keys(node) + {key}
    ensures InOrder(r) == InOrder(node) || Count(r) == Count(node) + 1
  {
    if node.Nil? then CreateNode(key, value)
    else if node.key < key then node.(right := InsertAsWritten(node.right, key, value))
    else if node.key > key then node.(left := InsertAsWritten(node.left, key, value))
    else node
  }

  /** As written, inserting a present key returns the tree unchanged: the new
      value is dropped, against the header's promise to update it. */
  lemma {:induction false} InsertAsWrittenDropsValue<V>(node: Tree<V>, key: int, value: V)
    requires Ordered(node) && key in Keys(node)
    ensures InsertAsWritten(node, key, value) == node
  {
    if node.key < key {
      InsertAsWrittenDropsValue(node.right, key, value);
    } else if node.key > key {
      InsertAsWrittenDropsValue(node.left, key, value);
    }
  }

  /** As written, inserting 1, 2, 3 into the empty tree yields a chain of
      height 3 whose root still claims height 1 and size 1; the corrected
      Insert yields a balanced tree with correct metrics. */
  lemma InsertAsWrittenNeverRebalances()
    ensures var t := InsertAsWritten(InsertAsWritten(InsertAsWritten(Nil, 1, 0), 2, 0), 3, 0);
      !Balanced(t) && !MetricsOK(t)
    ensures Valid(Insert(Insert(Insert(Nil, 1, 0), 2, 0), 3, 0))
  {
    var t := InsertAsWritten(InsertAsWritten(InsertAsWritten(Nil, 1, 0), 2, 0), 3, 0);
    assert t == Node(1, 0, 1, 1, Nil, Node(2, 0, 1, 1, Nil, Node(3, 0, 1, 1, Nil, Nil)));
    assert Depth(t.right) == 2;
    InsertKeepsValid(Nil, 1, 0);
    InsertKeepsValid(Insert(Nil, 1, 0), 2, 0);
    InsertKeepsValid(Insert(Insert(Nil, 1, 0), 2, 0), 3, 0);
  }
}
