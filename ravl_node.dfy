/** The node record of RAVL_tree.h and the invariants that every tree handed
    back by a public operation keeps: BST order, correct cached height and
    size, and AVL balance. */
module Ravl {

  /** The answer of Rank for a key that is not in the tree. */
  const NOTIN: int := -1

  /** A (sub)tree. `Nil` stands for the NULL pointer; a `Node` carries its key,
      its opaque payload, and the cached height and size of the subtree it
      roots. Ownership of the children is exclusive, so a subtree is a value. */
  datatype Tree<V> =
    | Nil
    | Node(key: int, value: V, height: int, size: int, left: Tree<V>, right: Tree<V>)

  function Max(a: int, b: int): int {
    if a > b then a else b
  }

  /** Number of nodes on the longest root-to-leaf path (0 for the empty tree). */
  ghost function Depth<V>(t: Tree<V>): nat {
    if t.Nil? then 0 else 1 + Max(Depth(t.left), Depth(t.right))
  }

  /** Number of nodes. */
  ghost function Count<V>(t: Tree<V>): nat {
    if t.Nil? then 0 else Count(t.left) + 1 + Count(t.right)
  }

  ghost function Keys<V>(t: Tree<V>): set<int> {
    if t.Nil? then {} else Keys(t.left) + {t.key} + Keys(t.right)
  }

  /** The keys in in-order (left, node, right) order. */
  ghost function InOrder<V>(t: Tree<V>): (s: seq<int>)
    ensures |s| == Count(t)
  {
    if t.Nil? then [] else InOrder(t.left) + [t.key] + InOrder(t.right)
  }

  /** The in-order sequence lists exactly the keys of the tree. */
  lemma {:induction false} InOrderHasKeys<V>(t: Tree<V>)
    ensures forall x :: x in InOrder(t) <==> x in Keys(t)
  {
    if t.Node? {
      InOrderHasKeys(t.left);
      InOrderHasKeys(t.right);
    }
  }

  /** The key/value association the tree stands for. */
  ghost function Content<V>(t: Tree<V>): (m: map<int, V>)
    ensures m.Keys == Keys(t)
  {
    if t.Nil? then map[] else Content(t.left) + map[t.key := t.value] + Content(t.right)
  }

  /** BST order: every key in `left` is smaller, every key in `right` larger. */
  ghost predicate Ordered<V>(t: Tree<V>) {
    t.Node? ==>
      (forall x :: x in Keys(t.left) ==> x < t.key) &&
      (forall x :: x in Keys(t.right) ==> t.key < x) &&
      Ordered(t.left) && Ordered(t.right)
  }

  /** In a BST no key occurs twice, so the node count is the number of
      distinct keys. */
  lemma {:induction false} OrderedCountsKeys<V>(t: Tree<V>)
    requires Ordered(t)
    ensures Count(t) == |Keys(t)|
  {
    if t.Node? {
      OrderedCountsKeys(t.left);
      OrderedCountsKeys(t.right);
      var l, r := Keys(t.left), Keys(t.right);
      forall x | x in r ensures x !in l + {t.key} {
        assert t.key < x;
      }
      assert l !! {t.key} && (l + {t.key}) !! r;
      assert |l + {t.key}| == |l| + 1;
    }
  }

  /** Correct cached metrics: each node's `height` and `size` fields are the height
      and the node count of its subtree. */
  ghost predicate MetricsOK<V>(t: Tree<V>) {
    t.Node? ==>
      t.height == Depth(t) && t.size == Count(t) &&
      MetricsOK(t.left) && MetricsOK(t.right)
  }

  /** AVL balance: the heights of the two children of every node differ by at most one. */
  ghost predicate Balanced<V>(t: Tree<V>) {
    t.Node? ==>
      -1 <= Depth(t.left) - Depth(t.right) <= 1 &&
      Balanced(t.left) && Balanced(t.right)
  }

  /** A well-formed RAVL tree. */
  ghost predicate Valid<V>(t: Tree<V>) {
    Ordered(t) && MetricsOK(t) && Balanced(t)
  }

  /** `s` is a node of `t` together with everything below it: the subtree a
      pointer into `t` designates. */
  ghost predicate SubtreeOf<V>(s: Tree<V>, t: Tree<V>) {
    s == t || (t.Node? && (SubtreeOf(s, t.left) || SubtreeOf(s, t.right)))
  }

  /** Correct metrics hold of every subtree, so a node handed out of a tree
      reports its true height and size. */
  lemma {:induction false} SubtreeMetricsOK<V>(s: Tree<V>, t: Tree<V>)
    requires SubtreeOf(s, t) && MetricsOK(t)
    ensures MetricsOK(s)
  {
    if s != t {
      if SubtreeOf(s, t.left) {
        SubtreeMetricsOK(s, t.left);
      } else {
        SubtreeMetricsOK(s, t.right);
      }
    }
  }

  /** `p` is `t` or a node reached from `t` by following left children only. */
  ghost predicate OnLeftSpine<V>(p: Tree<V>, t: Tree<V>) {
    t.Node? && (p == t || OnLeftSpine(p, t.left))
  }

  /** Taking one more left step from a node of the left spine stays on it. */
  lemma {:induction false} LeftSpineStep<V>(p: Tree<V>, t: Tree<V>)
    requires OnLeftSpine(p, t) && p.Node? && p.left.Node?
    ensures OnLeftSpine(p.left, t)
  {
    if p != t {
      LeftSpineStep(p, t.left);
    }
  }

  ghost predicate StrictlyIncreasing(s: seq<int>) {
    forall i, j :: 0 <= i < j < |s| ==> s[i] < s[j]
  }

  /** A sequence `a + [k] + b` is strictly increasing exactly when both sides
      are and `k` lies strictly between them. */
  lemma SortedAround(a: seq<int>, k: int, b: seq<int>)
    ensures StrictlyIncreasing(a + [k] + b) <==>
      StrictlyIncreasing(a) && StrictlyIncreasing(b) &&
      (forall x :: x in a ==> x < k) && (forall x :: x in b ==> k < x)
  {
    var s := a + [k] + b;
    if StrictlyIncreasing(s) {
      assert s[|a|] == k;
      forall x | x in a ensures x < k {
        var i :| 0 <= i < |a| && a[i] == x;
        assert s[i] == x;
      }
      forall x | x in b ensures k < x {
        var i :| 0 <= i < |b| && b[i] == x;
        assert s[|a| + 1 + i] == x;
      }
      forall i, j | 0 <= i < j < |a| ensures a[i] < a[j] {
        assert s[i] == a[i] && s[j] == a[j];
      }
      forall i, j | 0 <= i < j < |b| ensures b[i] < b[j] {
        assert s[|a| + 1 + i] == b[i] && s[|a| + 1 + j] == b[j];
      }
    }
    if StrictlyIncreasing(a) && StrictlyIncreasing(b) &&
       (forall x :: x in a ==> x < k) && (forall x :: x in b ==> k < x)
    {
      forall i, j | 0 <= i < j < |s| ensures s[i] < s[j] {
        if j < |a| {
          assert s[i] == a[i] && s[j] == a[j];
        } else if i < |a| {
          assert s[i] == a[i] && a[i] in a;
          if j > |a| { assert s[j] == b[j - |a| - 1] && s[j] in b; }
        } else if i == |a| {
          assert s[j] == b[j - |a| - 1] && s[j] in b;
        } else {
          assert s[i] == b[i - |a| - 1] && s[j] == b[j - |a| - 1];
        }
      }
    }
  }

  /** BST order is exactly "the in-order key sequence is strictly increasing". */
  lemma {:induction false} OrderedIffSorted<V>(t: Tree<V>)
    ensures Ordered(t) <==> StrictlyIncreasing(InOrder(t))
  {
    if t.Node? {
      OrderedIffSorted(t.left);
      OrderedIffSorted(t.right);
      InOrderHasKeys(t.left);
      InOrderHasKeys(t.right);
      SortedAround(InOrder(t.left), t.key, InOrder(t.right));
    }
  }

  function Pow2(n: nat): nat {
    if n == 0 then 1 else 2 * Pow2(n - 1)
  }

  lemma {:induction false} Pow2Monotone(a: nat, b: nat)
    requires a <= b
    ensures Pow2(a) <= Pow2(b)
  {
    if a < b {
      Pow2Monotone(a, b - 1);
    }
  }

  /** The AVL invariant keeps the height logarithmic in the number of nodes:
      a balanced tree of height h holds at least 2^(h/2) - 1 nodes, which is
      what makes every descent O(log n). */
  lemma {:induction false} BalancedDepthLogarithmic<V>(t: Tree<V>)
    requires Balanced(t)
    ensures Pow2(Depth(t) / 2) <= Count(t) + 1
  {
    if t.Node? {
      BalancedDepthLogarithmic(t.left);
      BalancedDepthLogarithmic(t.right);
      var h := Depth(t);
      if h >= 2 {
        Pow2Monotone((h - 2) / 2, Depth(t.left) / 2);
        Pow2Monotone((h - 2) / 2, Depth(t.right) / 2);
        assert h / 2 == (h - 2) / 2 + 1;
      }
    }
  }
}
