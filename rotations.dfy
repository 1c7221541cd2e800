/** `rotate_right` and `rotate_left`: re-parent three subtrees and refresh
    the `balance` field of the two nodes involved. */
module Rotations {
  import opened Trees

  /** `rotate_right(y)`: the left child x is promoted; x's right subtree
      becomes y's left subtree and y becomes x's right child. y's balance is
      refreshed first, then x's. */
  function RotateRight(y: Tree): (r: Tree)
    requires y.Node? && y.left.Node?
    ensures Inorder(r) == Inorder(y)
    ensures r.Node? && r.right.Node?
    ensures r.key == y.left.key && r.right.key == y.key
    ensures r.left == y.left.left && r.right.left == y.left.right && r.right.right == y.right
    ensures r.balance == Height(r.left) - Height(r.right)
    ensures r.right.balance == Height(r.right.left) - Height(r.right.right)
  {
    var x := y.left;
    var t2 := x.right;
    var y' := Node(y.key, Height(t2) - Height(y.right), t2, y.right);
    Node(x.key, Height(x.left) - Height(y'), x.left, y')
  }

  /** `rotate_left(x)`: the mirror image of RotateRight. */
  function RotateLeft(x: Tree): (r: Tree)
    requires x.Node? && x.right.Node?
    ensures Inorder(r) == Inorder(x)
    ensures r.Node? && r.left.Node?
    ensures r.key == x.right.key && r.left.key == x.key
    ensures r.left.left == x.left && r.left.right == x.right.left && r.right == x.right.right
    ensures r.balance == Height(r.left) - Height(r.right)
    ensures r.left.balance == Height(r.left.left) - Height(r.left.right)
  {
    var y := x.right;
    var t2 := y.left;
    var x' := Node(x.key, Height(x.left) - Height(t2), x.left, t2);
    Node(y.key, Height(x') - Height(y.right), x', y.right)
  }

  /** The two rotations undo each other, up to the `balance` snapshots. */
  lemma RotationsInverse(t: Tree)
    requires t.Node? && t.left.Node?
    ensures ZeroBalance(RotateLeft(RotateRight(t))) == ZeroBalance(t)
  {
  }

  /** A single right rotation of a left-heavy node whose left child leans
      left or is level gives a balanced tree. */
  lemma SingleRightBalances(t: Tree)
    requires t.Node? && t.left.Node?
    requires Balanced(t.left.left) && Balanced(t.left.right) && Balanced(t.right)
    requires Height(t.left.left) == Height(t.right) + 1
    requires Height(t.right) <= Height(t.left.right) <= Height(t.right) + 1
    ensures Balanced(RotateRight(t))
    ensures Height(RotateRight(t)) == Height(t.left.right) + 2
  {
  }

  /** The mirror image of SingleRightBalances. */
  lemma SingleLeftBalances(t: Tree)
    requires t.Node? && t.right.Node?
    requires Balanced(t.right.right) && Balanced(t.right.left) && Balanced(t.left)
    requires Height(t.right.right) == Height(t.left) + 1
    requires Height(t.left) <= Height(t.right.left) <= Height(t.left) + 1
    ensures Balanced(RotateLeft(t))
    ensures Height(RotateLeft(t)) == Height(t.right.left) + 2
  {
  }

  /** Left-right case: rotating the left child left and then the node right
      balances a node whose left child leans right by one. */
  lemma DoubleRightBalances(t: Tree)
    requires t.Node? && t.left.Node? && t.left.right.Node?
    requires Balanced(t.left.left) && Balanced(t.left.right) && Balanced(t.right)
    requires Height(t.left.left) == Height(t.right)
    requires Height(t.left.right) == Height(t.right) + 1
    ensures Balanced(RotateRight(t.(left := RotateLeft(t.left))))
    ensures Height(RotateRight(t.(left := RotateLeft(t.left)))) == Height(t.right) + 2
  {
    var z := t.left.right;
    assert Height(z.left) <= Height(t.right) && Height(z.right) <= Height(t.right);
  }

  /** The mirror image of DoubleRightBalances (right-left case). */
  lemma DoubleLeftBalances(t: Tree)
    requires t.Node? && t.right.Node? && t.right.left.Node?
    requires Balanced(t.right.right) && Balanced(t.right.left) && Balanced(t.left)
    requires Height(t.right.right) == Height(t.left)
    requires Height(t.right.left) == Height(t.left) + 1
    ensures Balanced(RotateLeft(t.(right := RotateRight(t.right))))
    ensures Height(RotateLeft(t.(right := RotateRight(t.right)))) == Height(t.left) + 2
  {
    var z := t.right.left;
    assert Height(z.left) <= Height(t.left) && Height(z.right) <= Height(t.left);
  }
}
