/** The three checkers: `is_bst_util` (an in-order walk threading `*last`
    and `*ok`), `is_balanced` (height or -1) and `strict_bst` (a local check
    against the two extreme nodes of the subtrees). */
module Validators {
  import opened Bytes
  import opened Seqs
  import opened Trees

  /** A sorted sequence ending in `x`'s predecessor extends through `x` and
      on into `b` exactly when each of the two joins is in order. */
  lemma SortedSplit(p: seq<int>, x: int, b: seq<int>)
    requires |p| > 0
    ensures Sorted(p + [x] + b) <==> Sorted(p) && p[|p| - 1] <= x && Sorted([x] + b)
  {
    SortedAround(p, x, b);
    SortedAround([], x, b);
    assert [] + [x] + b == [x] + b;
    if Sorted(p) {
      SortedBounds(p);
    }
  }

  /** `is_bst_util(root, last, ok)`: returns `(ret, *last, *ok)` after the
      call. Starting from a set `ok` it clears `ok` exactly when `last`
      followed by the in-order keys is not nondecreasing; while `ok` stays
      set, `last` ends as the last key visited. */
  method IsBstUtil(t: Tree, last: int32, ok: bool) returns (ret: int, last': int32, ok': bool)
    ensures ok' == (ok && Sorted([last] + Inorder(t)))
    ensures ok' ==> last' == ([last] + Inorder(t))[|Inorder(t)|]
    ensures ret == (if t.Node? && ok' then 1 else 0)
    decreases t
  {
    if t == Nil || !ok {
      return 0, last, ok;
    }
    var _, last1, ok1 := IsBstUtil(t.left, last, ok);
    if last1 > t.key {
      ok1 := false;
    }
    last1 := t.key;
    var _, last2, ok2 := IsBstUtil(t.right, last1, ok1);
    var p := [last] + Inorder(t.left);
    assert [last] + Inorder(t) == p + [t.key] + Inorder(t.right);
    SortedSplit(p, t.key, Inorder(t.right));
    assert ([t.key] + Inorder(t.right))[|Inorder(t.right)|] ==
           ([last] + Inorder(t))[|Inorder(t)|];
    return (if ok2 then 1 else 0), last2, ok2;
  }

  /** `is_balanced(root)`: the height of an AVL tree, -1 for any other. */
  function IsBalanced(t: Tree): (h: int)
    ensures h == if Balanced(t) then Height(t) else -1
  {
    match t
    case Nil => 0
    case Node(_, _, l, r) =>
      var lh := IsBalanced(l);
      if lh < 0 then -1
      else
        var rh := IsBalanced(r);
        if rh < 0 then -1
        else if lh - rh > 1 || rh - lh > 1 then -1
        else Max(lh, rh) + 1
  }

  /** `strict_bst(root)`: at each node, walk to the rightmost node of the
      left subtree and the leftmost node of the right subtree and compare
      their keys with the node's, then check both subtrees. The local test
      suffices: it returns true exactly when every left key is at most the
      node's key and every right key is greater, at every node. */
  method StrictBstCheck(t: Tree) returns (ok: bool)
    ensures ok <==> Ordered(t)
    decreases t
  {
    if t == Nil {
      return true;
    }
    if t.left != Nil {
      var m := t.left;
      while m.right != Nil
        invariant m.Node? && RightmostKey(m) == RightmostKey(t.left)
        decreases m
      {
        m := m.right;
      }
      if m.key > t.key {
        return false;
      }
    }
    if t.right != Nil {
      var m := t.right;
      while m.left != Nil
        invariant m.Node? && LeftmostKey(m) == LeftmostKey(t.right)
        decreases m
      {
        m := m.left;
      }
      if m.key <= t.key {
        return false;
      }
    }
    var okLeft := StrictBstCheck(t.left);
    if !okLeft {
      return false;
    }
    ok := StrictBstCheck(t.right);
    if ok {
      OrderedBelow(t.left, t.key);
      OrderedAbove(t.right, t.key);
    }
  }

  /** Below an ordered subtree's rightmost key lie all of its keys. */
  lemma OrderedBelow(l: Tree, k: int)
    requires Ordered(l) && (l.Node? ==> RightmostKey(l) <= k)
    ensures AllAtMost(Inorder(l), k)
  {
    if l.Node? {
      OrderedIsSorted(l);
      SortedBounds(Inorder(l));
    }
  }

  /** Above an ordered subtree's leftmost key lie all of its keys. */
  lemma OrderedAbove(r: Tree, k: int)
    requires Ordered(r) && (r.Node? ==> LeftmostKey(r) > k)
    ensures AllAbove(Inorder(r), k)
  {
    if r.Node? {
      OrderedIsSorted(r);
      SortedBounds(Inorder(r));
    }
  }
}
