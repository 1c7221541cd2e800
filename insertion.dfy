/** `insert_node`: recursive descent with duplicates sent left, then the
    balance refresh and the four AVL cases, chosen by comparing the
    inserted key with the child's key. */
module Insertion {
  import opened Bytes
  import opened Seqs
  import opened Trees
  import opened Rotations

  /** After an insertion made `r` one level taller than the original node
      with key `nodeKey`: the root is the same node, and the side the key
      descended into is the taller one, by exactly one. */
  predicate GrewOnKeySide(r: Tree, nodeKey: int32, k: int32)
  {
    r.Node? && r.key == nodeKey &&
    if k <= nodeKey then Height(r.left) == Height(r.right) + 1
    else Height(r.right) == Height(r.left) + 1
  }

  /** The rebalancing tail of `insert_node` on a node whose child has just
      been replaced: refresh `balance`, then rotate when it is out of
      [-1, 1]. The requires clauses are the non-NULL pivots the rotations
      dereference. */
  function RebalanceAfterInsert(t: Tree, k: int32): (r: Tree)
    requires t.Node?
    requires Height(t.left) - Height(t.right) > 1 && k > t.left.key ==> t.left.right.Node?
    requires Height(t.left) - Height(t.right) < -1 && k <= t.right.key ==> t.right.left.Node?
    ensures Inorder(r) == Inorder(t)
    ensures r.Node? && r.balance == Height(r.left) - Height(r.right)
  {
    var b := Height(t.left) - Height(t.right);
    var root := t.(balance := b);
    if b > 1 then
      var root' := if k > root.left.key then root.(left := RotateLeft(root.left)) else root;
      RotateRight(root')
    else if b < -1 then
      var root' := if k <= root.right.key then root.(right := RotateRight(root.right)) else root;
      RotateLeft(root')
    else
      root
  }

  /** The key went into the left subtree of the balanced node `t`, which
      became `l'`: rebalancing restores the AVL invariant. */
  lemma InsertedLeft(t: Tree, l': Tree, k: int32)
    requires t.Node? && Balanced(t) && k <= t.key
    requires Balanced(l') && Height(t.left) <= Height(l') <= Height(t.left) + 1
    requires Height(l') == Height(t.left) + 1 && t.left.Node? ==> GrewOnKeySide(l', t.left.key, k)
    ensures Height(l') - Height(t.right) > 1 && k > l'.key ==> l'.right.Node?
    ensures var r := RebalanceAfterInsert(t.(left := l'), k);
      Balanced(r) && Height(t) <= Height(r) <= Height(t) + 1 &&
      (Height(r) == Height(t) + 1 ==> GrewOnKeySide(r, t.key, k))
  {
    var hr := Height(t.right);
    var root := Node(t.key, Height(l') - hr, l', t.right);
    assert t.(left := l').(balance := Height(l') - hr) == root;
    if Height(l') - hr > 1 {
      assert Height(l') == hr + 2 && Height(t.left) == hr + 1;
      assert Height(t) == hr + 2;
      if k > l'.key {
        assert Height(l'.right) == hr + 1 && Height(l'.left) == hr;
        DoubleRightBalances(root);
        assert RebalanceAfterInsert(t.(left := l'), k) == RotateRight(root.(left := RotateLeft(l')));
      } else {
        assert Height(l'.left) == hr + 1 && Height(l'.right) == hr;
        SingleRightBalances(root);
        assert RebalanceAfterInsert(t.(left := l'), k) == RotateRight(root);
      }
    } else {
      assert RebalanceAfterInsert(t.(left := l'), k) == root;
      assert Balanced(root);
    }
  }

  /** The mirror image of InsertedLeft. */
  lemma InsertedRight(t: Tree, r': Tree, k: int32)
    requires t.Node? && Balanced(t) && k > t.key
    requires Balanced(r') && Height(t.right) <= Height(r') <= Height(t.right) + 1
    requires Height(r') == Height(t.right) + 1 && t.right.Node? ==> GrewOnKeySide(r', t.right.key, k)
    ensures Height(t.left) - Height(r') < -1 && k <= r'.key ==> r'.left.Node?
    ensures var r := RebalanceAfterInsert(t.(right := r'), k);
      Balanced(r) && Height(t) <= Height(r) <= Height(t) + 1 &&
      (Height(r) == Height(t) + 1 ==> GrewOnKeySide(r, t.key, k))
  {
    var hl := Height(t.left);
    var root := Node(t.key, hl - Height(r'), t.left, r');
    assert t.(right := r').(balance := hl - Height(r')) == root;
    if hl - Height(r') < -1 {
      assert Height(r') == hl + 2 && Height(t.right) == hl + 1;
      assert Height(t) == hl + 2;
      if k <= r'.key {
        assert Height(r'.left) == hl + 1 && Height(r'.right) == hl;
        DoubleLeftBalances(root);
        assert RebalanceAfterInsert(t.(right := r'), k) == RotateLeft(root.(right := RotateRight(r')));
      } else {
        assert Height(r'.right) == hl + 1 && Height(r'.left) == hl;
        SingleLeftBalances(root);
        assert RebalanceAfterInsert(t.(right := r'), k) == RotateLeft(root);
      }
    } else {
      assert RebalanceAfterInsert(t.(right := r'), k) == root;
      assert Balanced(root);
    }
  }

  /** `insert_node(root, key)`. The source dereferences the rotation pivots
      without a NULL check; they are non-NULL on every AVL-balanced input,
      which is what the build path always passes. */
  function Insert(t: Tree, k: int32): (r: Tree)
    requires Balanced(t)
    ensures r.Node? && r.balance == Height(r.left) - Height(r.right)
    ensures Balanced(r)
    ensures Height(t) <= Height(r) <= Height(t) + 1
    ensures Height(r) == Height(t) + 1 && t.Node? ==> GrewOnKeySide(r, t.key, k)
    decreases t
  {
    match t
    case Nil => Node(k, 0, Nil, Nil)
    case Node(key, b, l, rt) =>
      if k <= key then
        var l' := Insert(l, k);
        var t1 := Node(key, b, l', rt);
        InsertedLeft(t, l', k);
        RebalanceAfterInsert(t1, k)
      else
        var r' := Insert(rt, k);
        var t1 := Node(key, b, l, r');
        InsertedRight(t, r', k);
        RebalanceAfterInsert(t1, k)
  }

  /** One step of the descent, seen through the in-order sequence: the
      rotations at this node do not reorder anything. */
  lemma InorderAfterInsertLeft(t: Tree, k: int32)
    requires t.Node? && Balanced(t) && k <= t.key
    ensures Inorder(Insert(t, k)) == Inorder(Insert(t.left, k)) + [t.key] + Inorder(t.right)
  {
    assert Insert(t, k) == RebalanceAfterInsert(t.(left := Insert(t.left, k)), k);
  }

  lemma InorderAfterInsertRight(t: Tree, k: int32)
    requires t.Node? && Balanced(t) && k > t.key
    ensures Inorder(Insert(t, k)) == Inorder(t.left) + [t.key] + Inorder(Insert(t.right, k))
  {
    assert Insert(t, k) == RebalanceAfterInsert(t.(right := Insert(t.right, k)), k);
  }

  /** Insertion adds exactly one occurrence of the key to the tree's keys. */
  lemma {:induction false} InsertKeys(t: Tree, k: int32)
    requires Balanced(t)
    ensures multiset(Inorder(Insert(t, k))) == multiset(Inorder(t)) + multiset{k}
  {
    if t.Node? {
      var kl, kr := multiset(Inorder(t.left)), multiset(Inorder(t.right));
      assert multiset(Inorder(t)) == kl + multiset{t.key} + kr by { KeysOfNode(t); }
      if k <= t.key {
        InorderAfterInsertLeft(t, k);
        InsertKeys(t.left, k);
        AddToFirst(kl, multiset{t.key}, kr, k);
      } else {
        InorderAfterInsertRight(t, k);
        InsertKeys(t.right, k);
        AddToLast(kl, multiset{t.key}, kr, k);
      }
    }
  }

  /** Insertion keeps a nondecreasing in-order sequence nondecreasing. With
      InsertKeys (and SortedUnique) this fixes the in-order sequence of the
      result exactly: the old one with the key added in its place. */
  lemma {:induction false} InsertSorted(t: Tree, k: int32)
    requires Balanced(t) && Sorted(Inorder(t))
    ensures Sorted(Inorder(Insert(t, k)))
  {
    if t.Node? {
      SortedParts(t);
      if k <= t.key {
        var l' := Insert(t.left, k);
        InorderAfterInsertLeft(t, k);
        assert Sorted(Inorder(l')) && AllAtMost(Inorder(l'), t.key) by {
          InsertSorted(t.left, k);
          InsertKeys(t.left, k);
          AtMostWithOneMore(Inorder(l'), Inorder(t.left), k, t.key);
        }
        SortedAround(Inorder(l'), t.key, Inorder(t.right));
      } else {
        var r' := Insert(t.right, k);
        InorderAfterInsertRight(t, k);
        assert Sorted(Inorder(r')) && AllAtLeast(Inorder(r'), t.key) by {
          InsertSorted(t.right, k);
          InsertKeys(t.right, k);
          AtLeastWithOneMore(Inorder(r'), Inorder(t.right), k, t.key);
        }
        SortedAround(Inorder(t.left), t.key, Inorder(r'));
      }
    }
  }
}
