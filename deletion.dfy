/** `delete_node`: recursive descent matching on strict equality, the
    in-order-predecessor copy for a node with two children, and the
    rebalancing whose single/double choice compares grandchild heights. */
module Deletion {
  import opened Bytes
  import opened Seqs
  import opened Trees
  import opened Rotations
  import Insertion

  /** The rebalancing tail of `delete_node`: refresh `balance`, then rotate
      when it is out of [-1, 1], doing the extra inner rotation only when the
      inner grandchild is strictly taller than the outer one. Every pivot it
      dereferences is non-NULL on any tree. */
  function RebalanceAfterDelete(t: Tree): (r: Tree)
    requires t.Node?
    ensures Inorder(r) == Inorder(t)
    ensures r.Node? && r.balance == Height(r.left) - Height(r.right)
  {
    var b := Height(t.left) - Height(t.right);
    var root := t.(balance := b);
    if b > 1 then
      var root' := if Height(root.left.left) < Height(root.left.right)
                   then root.(left := RotateLeft(root.left)) else root;
      RotateRight(root')
    else if b < -1 then
      var root' := if Height(root.right.right) < Height(root.right.left)
                   then root.(right := RotateRight(root.right)) else root;
      RotateLeft(root')
    else
      root
  }

  /** `delete_node(root, key)`. */
  function Delete(t: Tree, k: int32): (r: Tree)
    ensures t.Node? && k == t.key && (t.left == Nil || t.right == Nil) ==>
              r == (if t.left.Node? then t.left else t.right)
    ensures t == Nil ==> r == Nil
  {
    match t
    case Nil => Nil
    case Node(key, b, l, rt) =>
      if k < key then
        RebalanceAfterDelete(t.(left := Delete(l, k)))
      else if k > key then
        RebalanceAfterDelete(t.(right := Delete(rt, k)))
      else if l == Nil || rt == Nil then
        if l.Node? then l else rt
      else
        var p := RightmostKey(l);
        RebalanceAfterDelete(Node(p, b, Delete(l, p), rt))
  }

  /** The predecessor search `while (pred->right) pred = pred->right;`
      finds the last key of the in-order sequence. */
  method FindPredecessor(t: Tree) returns (k: int32)
    requires t.Node?
    ensures k == RightmostKey(t)
    ensures k == Inorder(t)[|Inorder(t)| - 1]
  {
    var pred := t;
    while pred.right != Nil
      invariant pred.Node? && RightmostKey(pred) == RightmostKey(t)
      decreases pred
    {
      pred := pred.right;
    }
    k := pred.key;
  }

  /** Rebalancing a node whose subtrees are AVL trees with heights at most
      two apart gives an AVL tree at most one level lower; when the heights
      are at most one apart it only refreshes the root's `balance`. */
  lemma RebalanceAfterDeleteBalances(t: Tree)
    requires t.Node? && Balanced(t.left) && Balanced(t.right)
    requires -2 <= Height(t.left) - Height(t.right) <= 2
    ensures Balanced(RebalanceAfterDelete(t))
    ensures Height(t) - 1 <= Height(RebalanceAfterDelete(t)) <= Height(t)
    ensures -1 <= Height(t.left) - Height(t.right) <= 1 ==>
              RebalanceAfterDelete(t) == t.(balance := Height(t.left) - Height(t.right))
  {
    var hl: int, hr: int := Height(t.left), Height(t.right);
    if hl - hr > 1 {
      LeftHeavyAfterDelete(t);
    } else if hl - hr < -1 {
      RightHeavyAfterDelete(t);
    } else {
      assert RebalanceAfterDelete(t) == t.(balance := hl - hr);
    }
  }

  lemma LeftHeavyAfterDelete(t: Tree)
    requires t.Node? && Balanced(t.left) && Balanced(t.right)
    requires Height(t.left) == Height(t.right) + 2
    ensures Balanced(RebalanceAfterDelete(t))
    ensures Height(t) - 1 <= Height(RebalanceAfterDelete(t)) <= Height(t)
  {
    var x := t.left;
    assert Balanced(x.left) && Balanced(x.right) && -1 <= Height(x.left) - Height(x.right) <= 1;
    assert Height(x) == Max(Height(x.left), Height(x.right)) + 1;
    if Height(x.left) < Height(x.right) {
      LeftHeavyInnerTaller(t);
    } else {
      LeftHeavyOuterTaller(t);
    }
  }

  /** The rotations `delete_node` picks on a left-heavy node, unfolded. */
  lemma LeftHeavyRotations(t: Tree)
    requires t.Node? && t.left.Node? && Height(t.left) - Height(t.right) > 1
    ensures var root := t.(balance := Height(t.left) - Height(t.right));
      RebalanceAfterDelete(t) ==
        if Height(t.left.left) < Height(t.left.right)
        then RotateRight(root.(left := RotateLeft(t.left))) else RotateRight(root)
  {
  }

  /** The double rotation of the left-heavy case. */
  lemma LeftHeavyInnerTaller(t: Tree)
    requires t.Node? && t.left.Node? && t.left.right.Node?
    requires Balanced(t.left.left) && Balanced(t.left.right) && Balanced(t.right)
    requires Height(t.left.left) == Height(t.right)
    requires Height(t.left.right) == Height(t.right) + 1
    ensures Balanced(RebalanceAfterDelete(t))
    ensures Height(RebalanceAfterDelete(t)) == Height(t) - 1
  {
    var root := t.(balance := 2);
    assert Height(t.left) == Height(t.right) + 2;
    LeftHeavyRotations(t);
    DoubleRightBalances(root);
  }

  /** The single rotation of the left-heavy case. */
  lemma LeftHeavyOuterTaller(t: Tree)
    requires t.Node? && t.left.Node?
    requires Balanced(t.left.left) && Balanced(t.left.right) && Balanced(t.right)
    requires Height(t.left.left) == Height(t.right) + 1
    requires Height(t.right) <= Height(t.left.right) <= Height(t.right) + 1
    ensures Balanced(RebalanceAfterDelete(t))
    ensures Height(RebalanceAfterDelete(t)) == Height(t.left.right) + 2
  {
    var root := t.(balance := 2);
    assert Height(t.left) == Height(t.right) + 2;
    LeftHeavyRotations(t);
    SingleRightBalances(root);
  }

  lemma RightHeavyAfterDelete(t: Tree)
    requires t.Node? && Balanced(t.left) && Balanced(t.right)
    requires Height(t.right) == Height(t.left) + 2
    ensures Balanced(RebalanceAfterDelete(t))
    ensures Height(t) - 1 <= Height(RebalanceAfterDelete(t)) <= Height(t)
  {
    var y := t.right;
    assert Balanced(y.left) && Balanced(y.right) && -1 <= Height(y.left) - Height(y.right) <= 1;
    assert Height(y) == Max(Height(y.left), Height(y.right)) + 1;
    if Height(y.right) < Height(y.left) {
      RightHeavyInnerTaller(t);
    } else {
      RightHeavyOuterTaller(t);
    }
  }

  /** The rotations `delete_node` picks on a right-heavy node, unfolded. */
  lemma RightHeavyRotations(t: Tree)
    requires t.Node? && t.right.Node? && Height(t.left) - Height(t.right) < -1
    ensures var root := t.(balance := Height(t.left) - Height(t.right));
      RebalanceAfterDelete(t) ==
        if Height(t.right.right) < Height(t.right.left)
        then RotateLeft(root.(right := RotateRight(t.right))) else RotateLeft(root)
  {
  }

  /** The double rotation of the right-heavy case. */
  lemma RightHeavyInnerTaller(t: Tree)
    requires t.Node? && t.right.Node? && t.right.left.Node?
    requires Balanced(t.right.right) && Balanced(t.right.left) && Balanced(t.left)
    requires Height(t.right.right) == Height(t.left)
    requires Height(t.right.left) == Height(t.left) + 1
    ensures Balanced(RebalanceAfterDelete(t))
    ensures Height(RebalanceAfterDelete(t)) == Height(t) - 1
  {
    var root := t.(balance := -2);
    assert Height(t.right) == Height(t.left) + 2;
    RightHeavyRotations(t);
    DoubleLeftBalances(root);
  }

  /** The single rotation of the right-heavy case. */
  lemma RightHeavyOuterTaller(t: Tree)
    requires t.Node? && t.right.Node?
    requires Balanced(t.right.right) && Balanced(t.right.left) && Balanced(t.left)
    requires Height(t.right.right) == Height(t.left) + 1
    requires Height(t.left) <= Height(t.right.left) <= Height(t.left) + 1
    ensures Balanced(RebalanceAfterDelete(t))
    ensures Height(RebalanceAfterDelete(t)) == Height(t.right.left) + 2
  {
    var root := t.(balance := -2);
    assert Height(t.right) == Height(t.left) + 2;
    RightHeavyRotations(t);
    SingleLeftBalances(root);
  }

  /** The three shapes `delete_node` takes at a node, one lemma each, so
      that the proofs below unfold one case at a time. */
  lemma DeleteGoesLeft(t: Tree, k: int32)
    requires t.Node? && k < t.key
    ensures Delete(t, k) == RebalanceAfterDelete(t.(left := Delete(t.left, k)))
  {
  }

  lemma DeleteGoesRight(t: Tree, k: int32)
    requires t.Node? && k > t.key
    ensures Delete(t, k) == RebalanceAfterDelete(t.(right := Delete(t.right, k)))
  {
  }

  lemma DeleteReplacesByPredecessor(t: Tree)
    requires t.Node? && t.left.Node? && t.right.Node?
    ensures var p := RightmostKey(t.left);
      Delete(t, t.key) == RebalanceAfterDelete(Node(p, t.balance, Delete(t.left, p), t.right))
  {
  }

  /** Deletion keeps an AVL tree balanced and lowers it by at most one. */
  lemma {:induction false} DeleteBalanced(t: Tree, k: int32)
    requires Balanced(t)
    ensures Balanced(Delete(t, k))
    ensures Height(t) - 1 <= Height(Delete(t, k)) <= Height(t)
    decreases t
  {
    if t.Node? {
      if k < t.key {
        DeleteBalanced(t.left, k);
        DescentLeftBalanced(t, k);
      } else if k > t.key {
        DeleteBalanced(t.right, k);
        DescentRightBalanced(t, k);
      } else if t.left.Node? && t.right.Node? {
        var p := RightmostKey(t.left);
        DeleteBalanced(t.left, p);
        PredecessorBalanced(t);
      }
    }
  }

  /** One step of `DeleteBalanced`: the descent to the left. */
  lemma DescentLeftBalanced(t: Tree, k: int32)
    requires t.Node? && Balanced(t) && k < t.key
    requires Balanced(Delete(t.left, k))
    requires Height(t.left) - 1 <= Height(Delete(t.left, k)) <= Height(t.left)
    ensures Balanced(Delete(t, k))
    ensures Height(t) - 1 <= Height(Delete(t, k)) <= Height(t)
  {
    DeleteGoesLeft(t, k);
    RebalanceAfterDeleteBalances(t.(left := Delete(t.left, k)));
  }

  /** One step of `DeleteBalanced`: the descent to the right. */
  lemma DescentRightBalanced(t: Tree, k: int32)
    requires t.Node? && Balanced(t) && k > t.key
    requires Balanced(Delete(t.right, k))
    requires Height(t.right) - 1 <= Height(Delete(t.right, k)) <= Height(t.right)
    ensures Balanced(Delete(t, k))
    ensures Height(t) - 1 <= Height(Delete(t, k)) <= Height(t)
  {
    DeleteGoesRight(t, k);
    RebalanceAfterDeleteBalances(t.(right := Delete(t.right, k)));
  }

  /** One step of `DeleteBalanced`: a node with two children takes its
      predecessor's key. */
  lemma PredecessorBalanced(t: Tree)
    requires t.Node? && t.left.Node? && t.right.Node? && Balanced(t)
    requires Balanced(Delete(t.left, RightmostKey(t.left)))
    requires Height(t.left) - 1 <= Height(Delete(t.left, RightmostKey(t.left))) <= Height(t.left)
    ensures Balanced(Delete(t, t.key))
    ensures Height(t) - 1 <= Height(Delete(t, t.key)) <= Height(t)
  {
    var p := RightmostKey(t.left);
    DeleteReplacesByPredecessor(t);
    RebalanceAfterDeleteBalances(Node(p, t.balance, Delete(t.left, p), t.right));
  }

  /** The in-order sequence after each of the three shapes. */
  lemma InorderAfterDeleteLeft(t: Tree, k: int32)
    requires t.Node? && k < t.key
    ensures Inorder(Delete(t, k)) == Inorder(Delete(t.left, k)) + [t.key] + Inorder(t.right)
  {
    DeleteGoesLeft(t, k);
  }

  lemma InorderAfterDeleteRight(t: Tree, k: int32)
    requires t.Node? && k > t.key
    ensures Inorder(Delete(t, k)) == Inorder(t.left) + [t.key] + Inorder(Delete(t.right, k))
  {
    DeleteGoesRight(t, k);
  }

  lemma InorderAfterPredecessor(t: Tree)
    requires t.Node? && t.left.Node? && t.right.Node?
    ensures var p := RightmostKey(t.left);
      Inorder(Delete(t, t.key)) == Inorder(Delete(t.left, p)) + [p] + Inorder(t.right)
  {
    DeleteReplacesByPredecessor(t);
  }

  /** On a tree with nondecreasing in-order keys, deletion removes exactly
      one occurrence of the key, or nothing when it is absent. */
  lemma {:induction false} DeleteKeys(t: Tree, k: int32)
    requires Sorted(Inorder(t))
    ensures multiset(Inorder(Delete(t, k))) == multiset(Inorder(t)) - multiset{k}
    decreases t
  {
    if t.Node? {
      SortedParts(t);
      if k < t.key {
        DeleteKeys(t.left, k);
        KeysAfterDescentLeft(t, k);
      } else if k > t.key {
        DeleteKeys(t.right, k);
        KeysAfterDescentRight(t, k);
      } else if t.left.Node? && t.right.Node? {
        DeleteKeys(t.left, RightmostKey(t.left));
        KeysAfterPredecessor(t);
      } else {
        KeysAfterUnlink(t);
      }
    }
  }

  lemma KeysAfterDescentLeft(t: Tree, k: int32)
    requires t.Node? && Sorted(Inorder(t)) && k < t.key
    requires multiset(Inorder(Delete(t.left, k))) == multiset(Inorder(t.left)) - multiset{k}
    ensures multiset(Inorder(Delete(t, k))) == multiset(Inorder(t)) - multiset{k}
  {
    var kl, kr := multiset(Inorder(t.left)), multiset(Inorder(t.right));
    assert multiset(Inorder(t)) == kl + multiset{t.key} + kr by { KeysOfNode(t); }
    InorderAfterDeleteLeft(t, k);
    assert k !in kr by {
      SortedParts(t);
      AboveIsAbsent(Inorder(t.right), t.key, k);
    }
    RemoveFromFirst(kl, multiset{t.key}, kr, k);
  }

  lemma KeysAfterDescentRight(t: Tree, k: int32)
    requires t.Node? && Sorted(Inorder(t)) && k > t.key
    requires multiset(Inorder(Delete(t.right, k))) == multiset(Inorder(t.right)) - multiset{k}
    ensures multiset(Inorder(Delete(t, k))) == multiset(Inorder(t)) - multiset{k}
  {
    var kl, kr := multiset(Inorder(t.left)), multiset(Inorder(t.right));
    assert multiset(Inorder(t)) == kl + multiset{t.key} + kr by { KeysOfNode(t); }
    InorderAfterDeleteRight(t, k);
    assert k !in kl by {
      SortedParts(t);
      BelowIsAbsent(Inorder(t.left), t.key, k);
    }
    RemoveFromLast(kl, multiset{t.key}, kr, k);
  }

  lemma KeysAfterPredecessor(t: Tree)
    requires t.Node? && t.left.Node? && t.right.Node?
    requires var p := RightmostKey(t.left);
      multiset(Inorder(Delete(t.left, p))) == multiset(Inorder(t.left)) - multiset{p}
    ensures multiset(Inorder(Delete(t, t.key))) == multiset(Inorder(t)) - multiset{t.key}
  {
    var kl, kr := multiset(Inorder(t.left)), multiset(Inorder(t.right));
    assert multiset(Inorder(t)) == kl + multiset{t.key} + kr by { KeysOfNode(t); }
    var p := RightmostKey(t.left);
    InorderAfterPredecessor(t);
    assert multiset(Inorder(Delete(t, t.key))) == (kl - multiset{p}) + multiset{p} + kr;
    ReplaceRoot(kl, p, kr, t.key);
  }

  lemma KeysAfterUnlink(t: Tree)
    requires t.Node? && (t.left == Nil || t.right == Nil)
    ensures multiset(Inorder(Delete(t, t.key))) == multiset(Inorder(t)) - multiset{t.key}
  {
    KeysOfNode(t);
  }

  lemma AboveIsAbsent(s: seq<int>, x: int, k: int)
    requires AllAtLeast(s, x) && k < x
    ensures k !in multiset(s)
  {
  }

  lemma BelowIsAbsent(s: seq<int>, x: int, k: int)
    requires AllAtMost(s, x) && x < k
    ensures k !in multiset(s)
  {
  }

  /** Deletion keeps a nondecreasing in-order sequence nondecreasing. */
  lemma {:induction false} DeleteSorted(t: Tree, k: int32)
    requires Sorted(Inorder(t))
    ensures Sorted(Inorder(Delete(t, k)))
    decreases t
  {
    if t.Node? {
      SortedParts(t);
      if k < t.key {
        DeleteSorted(t.left, k);
        DeleteKeys(t.left, k);
        SortedAfterDescentLeft(t, k);
      } else if k > t.key {
        DeleteSorted(t.right, k);
        DeleteKeys(t.right, k);
        SortedAfterDescentRight(t, k);
      } else if t.left.Node? && t.right.Node? {
        DeleteSorted(t.left, RightmostKey(t.left));
        DeleteKeys(t.left, RightmostKey(t.left));
        SortedAfterPredecessor(t);
      }
    }
  }

  lemma SortedAfterDescentLeft(t: Tree, k: int32)
    requires t.Node? && Sorted(Inorder(t)) && k < t.key
    requires Sorted(Inorder(Delete(t.left, k)))
    requires multiset(Inorder(Delete(t.left, k))) == multiset(Inorder(t.left)) - multiset{k}
    ensures Sorted(Inorder(Delete(t, k)))
  {
    InorderAfterDeleteLeft(t, k);
    SortedShrinkLeft(Inorder(t.left), Inorder(Delete(t.left, k)), t.key, Inorder(t.right));
  }

  lemma SortedAfterDescentRight(t: Tree, k: int32)
    requires t.Node? && Sorted(Inorder(t)) && k > t.key
    requires Sorted(Inorder(Delete(t.right, k)))
    requires multiset(Inorder(Delete(t.right, k))) == multiset(Inorder(t.right)) - multiset{k}
    ensures Sorted(Inorder(Delete(t, k)))
  {
    InorderAfterDeleteRight(t, k);
    SortedShrinkRight(Inorder(t.left), t.key, Inorder(t.right), Inorder(Delete(t.right, k)));
  }

  lemma SortedAfterPredecessor(t: Tree)
    requires t.Node? && t.left.Node? && t.right.Node? && Sorted(Inorder(t))
    requires var p := RightmostKey(t.left);
      Sorted(Inorder(Delete(t.left, p))) &&
      multiset(Inorder(Delete(t.left, p))) == multiset(Inorder(t.left)) - multiset{p}
    ensures Sorted(Inorder(Delete(t, t.key)))
  {
    var a, b := Inorder(t.left), Inorder(t.right);
    var p := RightmostKey(t.left);
    var a' := Inorder(Delete(t.left, p));
    assert Inorder(t) == a + [t.key] + b;
    assert p == a[|a| - 1];
    assert Sorted(a' + [p] + b) by {
      SortedPromoteLast(a, a', t.key, b);
    }
    InorderAfterPredecessor(t);
  }

  /** Hence, with SortedUnique, the in-order sequence is unchanged exactly
      when the key is absent, and loses one occurrence otherwise. */
  lemma DeleteAbsentKeepsInorder(t: Tree, k: int32)
    requires Sorted(Inorder(t)) && k !in Inorder(t)
    ensures Inorder(Delete(t, k)) == Inorder(t)
  {
    DeleteKeys(t, k);
    DeleteSorted(t, k);
    assert multiset(Inorder(t)) - multiset{k} == multiset(Inorder(t));
    SortedUnique(Inorder(Delete(t, k)), Inorder(t));
  }

  lemma DeletePresentShrinks(t: Tree, k: int32)
    requires Sorted(Inorder(t)) && k in Inorder(t)
    ensures |Inorder(Delete(t, k))| == |Inorder(t)| - 1
    ensures multiset(Inorder(Delete(t, k))) + multiset{k} == multiset(Inorder(t))
  {
    var m := multiset(Inorder(t));
    var m' := multiset(Inorder(Delete(t, k)));
    assert m' == m - multiset{k} by { DeleteKeys(t, k); }
    assert k in m;
    assert m' + multiset{k} == m;
    assert |m'| + 1 == |m|;
  }

  /** Deleting an absent key from an AVL tree changes no key, no child
      pointer and, when the `balance` fields were accurate, nothing at all:
      every rebalance on the search path finds its node level. */
  lemma {:induction false} DeleteAbsentKeepsShape(t: Tree, k: int32)
    requires Balanced(t) && k !in Inorder(t)
    ensures ZeroBalance(Delete(t, k)) == ZeroBalance(t)
    ensures Accurate(t) ==> Delete(t, k) == t
    decreases t
  {
    if t.Node? {
      assert k != t.key && k !in Inorder(t.left) && k !in Inorder(t.right);
      if k < t.key {
        DeleteAbsentKeepsShape(t.left, k);
        AbsentLeftStep(t, k);
      } else {
        DeleteAbsentKeepsShape(t.right, k);
        AbsentRightStep(t, k);
      }
    }
  }

  lemma AbsentLeftStep(t: Tree, k: int32)
    requires t.Node? && Balanced(t) && k < t.key
    requires ZeroBalance(Delete(t.left, k)) == ZeroBalance(t.left)
    requires Accurate(t.left) ==> Delete(t.left, k) == t.left
    ensures ZeroBalance(Delete(t, k)) == ZeroBalance(t)
    ensures Accurate(t) ==> Delete(t, k) == t
  {
    var l' := Delete(t.left, k);
    SameShapeSameHeight(l', t.left);
    ZeroBalanceKeeps(l');
    ZeroBalanceKeeps(t.left);
    DeleteGoesLeft(t, k);
    RebalanceAfterDeleteBalances(t.(left := l'));
  }

  lemma AbsentRightStep(t: Tree, k: int32)
    requires t.Node? && Balanced(t) && k > t.key
    requires ZeroBalance(Delete(t.right, k)) == ZeroBalance(t.right)
    requires Accurate(t.right) ==> Delete(t.right, k) == t.right
    ensures ZeroBalance(Delete(t, k)) == ZeroBalance(t)
    ensures Accurate(t) ==> Delete(t, k) == t
  {
    var r' := Delete(t.right, k);
    SameShapeSameHeight(r', t.right);
    ZeroBalanceKeeps(r');
    ZeroBalanceKeeps(t.right);
    DeleteGoesRight(t, k);
    RebalanceAfterDeleteBalances(t.(right := r'));
  }

  /** Off the search path nothing moves while no rotation is due:
      descending left from an AVL node whose left subtree, after the delete,
      is at most one level below its right subtree keeps the node's key and
      its right subtree, and only the `balance` field is refreshed. */
  lemma DeleteKeepsOtherSubtreeLeft(t: Tree, k: int32)
    requires Balanced(t) && t.Node? && k < t.key
    requires Height(t.right) <= Height(Delete(t.left, k)) + 1
    ensures Delete(t, k) == Node(t.key, Height(Delete(t.left, k)) - Height(t.right),
                                 Delete(t.left, k), t.right)
  {
    DeleteBalanced(t.left, k);
    DeleteGoesLeft(t, k);
    RebalanceAfterDeleteBalances(t.(left := Delete(t.left, k)));
  }

  /** The mirror image, descending right. */
  lemma DeleteKeepsOtherSubtreeRight(t: Tree, k: int32)
    requires Balanced(t) && t.Node? && k > t.key
    requires Height(t.left) <= Height(Delete(t.right, k)) + 1
    ensures Delete(t, k) == Node(t.key, Height(t.left) - Height(Delete(t.right, k)),
                                 t.left, Delete(t.right, k))
  {
    DeleteBalanced(t.right, k);
    DeleteGoesRight(t, k);
    RebalanceAfterDeleteBalances(t.(right := Delete(t.right, k)));
  }

  /** On the two-child branch the right subtree is off the search path too:
      when no rotation is due, the node takes the predecessor's key, its left
      subtree loses the predecessor, and its right subtree is untouched. */
  lemma DeleteKeepsRightOnPredecessor(t: Tree)
    requires Balanced(t) && t.Node? && t.left.Node? && t.right.Node?
    requires Height(t.right) <= Height(Delete(t.left, RightmostKey(t.left))) + 1
    ensures var p := RightmostKey(t.left);
      var l' := Delete(t.left, p);
      Delete(t, t.key) == Node(p, Height(l') - Height(t.right), l', t.right)
  {
    var p := RightmostKey(t.left);
    DeleteBalanced(t.left, p);
    DeleteReplacesByPredecessor(t);
    RebalanceAfterDeleteBalances(Node(p, t.balance, Delete(t.left, p), t.right));
  }

  /** Deleting a present key from a sorted tree takes one of its occurrences
      out of the in-order sequence and leaves the rest in place. */
  lemma DeletePresentRemovesOne(t: Tree, k: int32)
    requires Sorted(Inorder(t)) && k in Inorder(t)
    ensures var s := Inorder(t);
      exists i :: 0 <= i < |s| && s[i] == k && Inorder(Delete(t, k)) == s[..i] + s[i + 1..]
  {
    var s := Inorder(t);
    var i :| 0 <= i < |s| && s[i] == k;
    SortedRemoveAt(s, i);
    DeleteKeys(t, k);
    DeleteSorted(t, k);
    SortedUnique(Inorder(Delete(t, k)), s[..i] + s[i + 1..]);
  }

  /** Inserting a key into a sorted AVL tree and deleting it again gives back
      the same in-order sequence. */
  lemma InsertThenDeleteKeepsInorder(t: Tree, k: int32)
    requires Balanced(t) && Sorted(Inorder(t))
    ensures Inorder(Delete(Insertion.Insert(t, k), k)) == Inorder(t)
  {
    var t' := Insertion.Insert(t, k);
    Insertion.InsertKeys(t, k);
    Insertion.InsertSorted(t, k);
    DeleteKeys(t', k);
    DeleteSorted(t', k);
    assert multiset(Inorder(t')) - multiset{k} == multiset(Inorder(t));
    SortedUnique(Inorder(Delete(t', k)), Inorder(t));
  }

  /** The shape, however, need not come back: inserting 3 into 1 with a
      right child 2 rotates left at 1, and deleting 3 leaves 2 with a left
      child 1. */
  lemma InsertThenDeleteMovesNodes()
    ensures var t := Node(1, -1, Nil, Node(2, 0, Nil, Nil));
      Balanced(t) && Accurate(t) &&
      Delete(Insertion.Insert(t, 3), 3) == Node(2, 1, Node(1, 0, Nil, Nil), Nil) &&
      ZeroBalance(Delete(Insertion.Insert(t, 3), 3)) != ZeroBalance(t)
  {
    var t := Node(1, -1, Nil, Node(2, 0, Nil, Nil));
    assert Balanced(t) && Accurate(t);
    ExampleInsert(t);
    ExampleDelete(Node(2, 0, Node(1, 0, Nil, Nil), Node(3, 0, Nil, Nil)));
  }

  lemma ExampleInsert(t: Tree)
    requires t == Node(1, -1, Nil, Node(2, 0, Nil, Nil))
    ensures Balanced(t) && Insertion.Insert(t, 3) == Node(2, 0, Node(1, 0, Nil, Nil), Node(3, 0, Nil, Nil))
  {
    var r := Node(2, -1, Nil, Node(3, 0, Nil, Nil));
    ExampleInsertBelow();
    assert Insertion.Insert(t, 3) == Insertion.RebalanceAfterInsert(Node(1, -1, Nil, r), 3);
    ExampleRebalance();
  }

  lemma ExampleInsertBelow()
    ensures Insertion.Insert(Node(2, 0, Nil, Nil), 3) == Node(2, -1, Nil, Node(3, 0, Nil, Nil))
  {
    var l3 := Node(3, 0, Nil, Nil);
    assert Insertion.Insert(Nil, 3) == l3;
    assert Insertion.Insert(Node(2, 0, Nil, Nil), 3) == Insertion.RebalanceAfterInsert(Node(2, 0, Nil, l3), 3);
  }

  lemma ExampleRebalance()
    ensures var r := Node(2, -1, Nil, Node(3, 0, Nil, Nil));
      Insertion.RebalanceAfterInsert(Node(1, -1, Nil, r), 3) == Node(2, 0, Node(1, 0, Nil, Nil), Node(3, 0, Nil, Nil))
  {
    var r := Node(2, -1, Nil, Node(3, 0, Nil, Nil));
    assert Insertion.RebalanceAfterInsert(Node(1, -1, Nil, r), 3) == RotateLeft(Node(1, -2, Nil, r));
    ExampleRotation();
  }

  lemma ExampleRotation()
    ensures var l1, l3 := Node(1, 0, Nil, Nil), Node(3, 0, Nil, Nil);
      RotateLeft(Node(1, -2, Nil, Node(2, -1, Nil, l3))) == Node(2, 0, l1, l3)
  {
  }

  lemma ExampleDelete(up: Tree)
    requires up == Node(2, 0, Node(1, 0, Nil, Nil), Node(3, 0, Nil, Nil))
    ensures Delete(up, 3) == Node(2, 1, Node(1, 0, Nil, Nil), Nil)
  {
    assert Delete(up.right, 3) == Nil;
    assert Delete(up, 3) == RebalanceAfterDelete(Node(2, 0, up.left, Nil));
  }
}
