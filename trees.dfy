/** The node type `Tnode` (fields key, balance, left, right) and the
    recursive measures the engine computes on demand. */
module Trees {
  import opened Bytes
  import opened Seqs

  /** A pointer to a node or NULL. Every node exclusively owns its children,
      so a value tree is the whole heap structure. `balance` is the stored
      snapshot of height(left) - height(right); no algorithm reads it. */
  datatype Tree = Nil | Node(key: int32, balance: int, left: Tree, right: Tree)

  function Max(a: int, b: int): int
  {
    if a > b then a else b
  }

  function Size(t: Tree): nat
  {
    match t
    case Nil => 0
    case Node(_, _, l, r) => Size(l) + 1 + Size(r)
  }

  /** `get_height`: recomputed by a walk over the whole subtree. */
  function Height(t: Tree): nat
  {
    match t
    case Nil => 0
    case Node(_, _, l, r) => Max(Height(l), Height(r)) + 1
  }

  function Inorder(t: Tree): seq<int32>
  {
    match t
    case Nil => []
    case Node(k, _, l, r) => Inorder(l) + [k] + Inorder(r)
  }

  /** The AVL invariant: at every node the heights of the two subtrees
      differ by at most one. */
  predicate Balanced(t: Tree)
  {
    match t
    case Nil => true
    case Node(_, _, l, r) => -1 <= Height(l) - Height(r) <= 1 && Balanced(l) && Balanced(r)
  }

  /** Every stored `balance` field equals the current height difference. */
  predicate Accurate(t: Tree)
  {
    match t
    case Nil => true
    case Node(_, b, l, r) => b == Height(l) - Height(r) && Accurate(l) && Accurate(r)
  }

  /** The same shape and keys with every `balance` field 0, as `create_node`
      leaves a node. */
  function ZeroBalance(t: Tree): Tree
  {
    match t
    case Nil => Nil
    case Node(k, _, l, r) => Node(k, 0, ZeroBalance(l), ZeroBalance(r))
  }

  /** The search-tree order the engine intends: at every node all keys on the
      left are at most the key and all keys on the right are greater. */
  predicate Ordered(t: Tree)
  {
    match t
    case Nil => true
    case Node(k, _, l, r) =>
      AllAtMost(Inorder(l), k) && AllAbove(Inorder(r), k) && Ordered(l) && Ordered(r)
  }

  /** The key of the rightmost node (follow `right` until it is NULL). */
  function RightmostKey(t: Tree): (k: int32)
    requires t.Node?
    ensures k == Inorder(t)[|Inorder(t)| - 1]
  {
    if t.right == Nil then t.key else RightmostKey(t.right)
  }

  /** The key of the leftmost node (follow `left` until it is NULL). */
  function LeftmostKey(t: Tree): (k: int32)
    requires t.Node?
    ensures k == Inorder(t)[0]
  {
    if t.left == Nil then t.key else LeftmostKey(t.left)
  }

  /** The keys of a node are its own and its subtrees'. */
  lemma KeysOfNode(t: Tree)
    requires t.Node?
    ensures multiset(Inorder(t)) == multiset(Inorder(t.left)) + multiset{t.key} + multiset(Inorder(t.right))
  {
    assert Inorder(t) == Inorder(t.left) + [t.key] + Inorder(t.right);
  }

  /** The `balance` fields are invisible to every measure of the tree. */
  lemma {:induction false} ZeroBalanceKeeps(t: Tree)
    ensures Height(ZeroBalance(t)) == Height(t)
    ensures Inorder(ZeroBalance(t)) == Inorder(t)
    ensures Balanced(ZeroBalance(t)) == Balanced(t)
    ensures ZeroBalance(ZeroBalance(t)) == ZeroBalance(t)
  {
    if t.Node? {
      ZeroBalanceKeeps(t.left);
      ZeroBalanceKeeps(t.right);
    }
  }

  /** Two trees that differ only in `balance` fields have the same height. */
  lemma SameShapeSameHeight(s: Tree, t: Tree)
    requires ZeroBalance(s) == ZeroBalance(t)
    ensures Height(s) == Height(t) && Inorder(s) == Inorder(t)
  {
    ZeroBalanceKeeps(s);
    ZeroBalanceKeeps(t);
  }

  /** An ordered tree is sorted in order. */
  lemma {:induction false} OrderedIsSorted(t: Tree)
    requires Ordered(t)
    ensures Sorted(Inorder(t))
  {
    if t.Node? {
      OrderedIsSorted(t.left);
      OrderedIsSorted(t.right);
      SortedAround(Inorder(t.left), t.key, Inorder(t.right));
    }
  }

  /** The parts of a sorted in-order sequence are sorted and lie on the
      right side of the node's key. */
  lemma SortedParts(t: Tree)
    requires t.Node? && Sorted(Inorder(t))
    ensures Sorted(Inorder(t.left)) && Sorted(Inorder(t.right))
    ensures AllAtMost(Inorder(t.left), t.key) && AllAtLeast(Inorder(t.right), t.key)
  {
    SortedAround(Inorder(t.left), t.key, Inorder(t.right));
  }
}
