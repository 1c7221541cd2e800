/** The pre-order tree file: `write_preorder` and `read_preorder`. Each node
    is a 5-byte record, its key (see Bytes) followed by a mask byte with the
    0x02 bit set when a left child follows and the 0x01 bit when a right
    child follows. */
module Serial {
  import opened Bytes
  import opened Trees

  /** The mask byte of a node: 2 for a left child, 1 for a right child. */
  function MaskOf(t: Tree): (m: byte)
    requires t.Node?
    ensures HasLeft(m) <==> t.left.Node?
    ensures HasRight(m) <==> t.right.Node?
  {
    (if t.left.Node? then 2 else 0) + (if t.right.Node? then 1 else 0)
  }

  /** `mask & 2` and `mask & 1`; the other six bits are never looked at. */
  predicate HasLeft(m: byte)
  {
    (m / 2) % 2 == 1
  }

  predicate HasRight(m: byte)
  {
    m % 2 == 1
  }

  function Record(k: int32, m: byte): (bs: seq<byte>)
    ensures |bs| == 5 && bs[..4] == EncodeInt32(k) && bs[4] == m
  {
    EncodeInt32(k) + [m]
  }

  /** The reference pre-order encoding of a tree as it stands: the node's
      record, then its left subtree, then its right subtree. */
  function Encode(t: Tree): seq<byte>
  {
    match t
    case Nil => []
    case Node(k, _, l, r) => Record(k, MaskOf(t)) + Encode(l) + Encode(r)
  }

  lemma {:induction false} EncodeLength(t: Tree)
    ensures |Encode(t)| == 5 * Size(t)
  {
    if t.Node? {
      EncodeLength(t.left);
      EncodeLength(t.right);
    }
  }

  /** The shape `write_preorder` repairs: an empty left slot beside a right
      child holding the node's own key. */
  predicate Anomalous(t: Tree)
  {
    t.Node? && t.left == Nil && t.right.Node? && t.right.key == t.key
  }

  predicate NoAnomaly(t: Tree)
  {
    match t
    case Nil => true
    case Node(_, _, l, r) => !Anomalous(t) && NoAnomaly(l) && NoAnomaly(r)
  }

  /** What `write_preorder` leaves behind: the tree after its rewiring and
      the bytes it appended to the stream. */
  datatype Written = Written(tree: Tree, bytes: seq<byte>)

  /** The rewiring `write_preorder` does at one node before writing it. */
  function Rewire(t: Tree): (u: Tree)
    requires t.Node?
    ensures u.Node? && u.key == t.key && u.balance == t.balance && !Anomalous(u)
    ensures if Anomalous(t) then u.left == t.right && u.right == Nil else u == t
  {
    if Anomalous(t) then t.(left := t.right, right := Nil) else t
  }

  /** `write_preorder(root, fp)`: at each node, first move an equal-key right
      child into an empty left slot, then emit the record and recurse. */
  function WritePreorder(t: Tree): (w: Written)
    ensures w.bytes == Encode(w.tree)
    ensures NoAnomaly(w.tree)
    ensures (w.tree == Nil) <==> (t == Nil)
    decreases Size(t)
  {
    match t
    case Nil => Written(Nil, [])
    case Node(k, b, _, _) =>
      var t1 := Rewire(t);
      var wl := WritePreorder(t1.left);
      var wr := WritePreorder(t1.right);
      var w := Node(k, b, wl.tree, wr.tree);
      assert MaskOf(w) == MaskOf(t1);
      Written(w, Record(k, MaskOf(t1)) + wl.bytes + wr.bytes)
  }

  /** One step of `write_preorder`, unfolded. */
  lemma WriteStep(t: Tree)
    requires t.Node?
    ensures var t1 := Rewire(t);
      WritePreorder(t).tree ==
        Node(t.key, t.balance, WritePreorder(t1.left).tree, WritePreorder(t1.right).tree)
  {
  }

  /** The rewiring moves subtrees but keeps the node count, the height, the
      AVL property, the key multiset and the root key. */
  lemma RewireKeeps(t: Tree)
    requires t.Node?
    ensures var u := Rewire(t);
      Size(u) == Size(t) && Height(u) == Height(t) && Balanced(u) == Balanced(t) &&
      multiset(Inorder(u)) == multiset(Inorder(t))
  {
    KeysOfNode(t);
    KeysOfNode(Rewire(t));
  }

  lemma {:induction false} WriteKeepsMeasures(t: Tree)
    ensures var u := WritePreorder(t).tree;
      Size(u) == Size(t) && Height(u) == Height(t) && Balanced(u) == Balanced(t)
    decreases Size(t)
  {
    if t.Node? {
      var t1 := Rewire(t);
      WriteKeepsMeasures(t1.left);
      WriteKeepsMeasures(t1.right);
      WriteStep(t);
      RewireKeeps(t);
    }
  }

  lemma {:induction false} WriteKeepsKeys(t: Tree)
    ensures var u := WritePreorder(t).tree;
      multiset(Inorder(u)) == multiset(Inorder(t)) && (u.Node? ==> u.key == t.key)
    decreases Size(t)
  {
    if t.Node? {
      var t1 := Rewire(t);
      var u := WritePreorder(t).tree;
      WriteKeepsKeys(t1.left);
      WriteKeepsKeys(t1.right);
      WriteStep(t);
      RewireKeeps(t);
      KeysOfNode(u);
      KeysOfNode(t1);
    }
  }

  /** Every record is five bytes: nothing for an empty tree, 5 per node. */
  lemma WriteLength(t: Tree)
    ensures |WritePreorder(t).bytes| == 5 * Size(t)
    ensures t == Nil ==> WritePreorder(t).bytes == []
  {
    EncodeLength(WritePreorder(t).tree);
  }

  /** On an AVL tree the rewiring only ever moves a leaf that holds the
      node's own key, so the in-order sequence is kept as well. */
  lemma {:induction false} WriteKeepsInorder(t: Tree)
    requires Balanced(t)
    ensures Inorder(WritePreorder(t).tree) == Inorder(t)
    decreases Size(t)
  {
    if t.Node? {
      var t1 := Rewire(t);
      WriteKeepsInorder(t1.left);
      WriteKeepsInorder(t1.right);
      WriteStepInorder(t);
    }
  }

  lemma WriteStepInorder(t: Tree)
    requires t.Node? && Balanced(t)
    requires Inorder(WritePreorder(Rewire(t).left).tree) == Inorder(Rewire(t).left)
    requires Inorder(WritePreorder(Rewire(t).right).tree) == Inorder(Rewire(t).right)
    ensures Inorder(WritePreorder(t).tree) == Inorder(t)
  {
    var t1 := Rewire(t);
    assert Inorder(WritePreorder(t).tree) == Inorder(t1.left) + [t.key] + Inorder(t1.right) by {
      WriteStep(t);
    }
    if Anomalous(t) {
      assert Inorder(t1.left) == [t.key] by {
        assert Height(t.right) == 1;
        assert t.right.left == Nil && t.right.right == Nil;
      }
      assert Inorder(t) == [t.key] + [t.key];
    }
  }

  /** The rewiring does reorder keys in a tree that is not AVL. */
  lemma WriteCanReorder()
    ensures var t := Node(3, 0, Nil, Node(3, 0, Nil, Node(5, 0, Nil, Nil)));
      Inorder(t) == [3, 3, 5] && Inorder(WritePreorder(t).tree) == [3, 5, 3]
  {
    var t := Node(3, 0, Nil, Node(3, 0, Nil, Node(5, 0, Nil, Nil)));
    var c := Node(3, 0, Nil, Node(5, 0, Nil, Nil));
    WriteStep(t);
    assert Rewire(t) == Node(3, 0, c, Nil);
    WriteStep(c);
    assert Rewire(c) == c;
    WriteStep(c.right);
    assert WritePreorder(t).tree == Node(3, 0, c, Nil);
  }

  /** What `read_preorder` returns: the tree it built, the stream after the
      cursor, and the `*valid` flag. */
  datatype ReadResult = ReadResult(tree: Tree, rest: seq<byte>, valid: bool)

  /** `read_preorder(fp, valid)`. A record that cannot be read in full moves
      the cursor to the end of the stream (`fread` consumes what is there),
      clears `valid` and yields NULL; the caller goes on with its siblings. */
  function ReadPreorder(s: seq<byte>, valid: bool): (r: ReadResult)
    ensures |r.rest| <= |s|
    decreases |s|
  {
    if |s| < 5 then
      ReadResult(Nil, [], false)
    else
      var k := DecodeInt32(s[..4]);
      var m := s[4];
      var left := if HasLeft(m) then ReadPreorder(s[5..], valid)
                  else ReadResult(Nil, s[5..], valid);
      var right := if HasRight(m) then ReadPreorder(left.rest, left.valid)
                   else ReadResult(Nil, left.rest, left.valid);
      ReadResult(Node(k, 0, left.tree, right.tree), right.rest, right.valid)
  }

  predicate IsSuffix(u: seq<byte>, s: seq<byte>)
  {
    |u| <= |s| && u == s[|s| - |u|..]
  }

  lemma SuffixTrans(w: seq<byte>, u: seq<byte>, s: seq<byte>)
    requires IsSuffix(w, u) && IsSuffix(u, s)
    ensures IsSuffix(w, s)
  {
    assert u[|u| - |w|..] == s[|s| - |w|..];
  }

  /** The reader only ever moves forward: what it leaves is a suffix. */
  lemma {:induction false} ReadRestIsSuffix(s: seq<byte>, valid: bool)
    ensures IsSuffix(ReadPreorder(s, valid).rest, s)
    decreases |s|
  {
    if |s| >= 5 {
      var m := s[4];
      var left := if HasLeft(m) then ReadPreorder(s[5..], valid) else ReadResult(Nil, s[5..], valid);
      var right := if HasRight(m) then ReadPreorder(left.rest, left.valid)
                   else ReadResult(Nil, left.rest, left.valid);
      assert IsSuffix(left.rest, s) by {
        if HasLeft(m) {
          ReadRestIsSuffix(s[5..], valid);
          SuffixTrans(left.rest, s[5..], s);
        }
      }
      assert IsSuffix(right.rest, left.rest) by {
        if HasRight(m) {
          ReadRestIsSuffix(left.rest, left.valid);
        }
      }
      SuffixTrans(right.rest, left.rest, s);
      ReadStep(s, valid, left, right);
    }
  }

  /** A cleared flag is never set again, and a read that keeps the flag set
      consumed exactly five bytes per node it built. */
  lemma {:induction false} ReadValidFacts(s: seq<byte>, valid: bool)
    ensures var r := ReadPreorder(s, valid);
      (r.valid ==> valid) && (r.valid ==> |s| == |r.rest| + 5 * Size(r.tree))
    decreases |s|
  {
    if |s| >= 5 {
      var m := s[4];
      var left := if HasLeft(m) then ReadPreorder(s[5..], valid) else ReadResult(Nil, s[5..], valid);
      var right := if HasRight(m) then ReadPreorder(left.rest, left.valid)
                   else ReadResult(Nil, left.rest, left.valid);
      if HasLeft(m) {
        ReadValidFacts(s[5..], valid);
      }
      if HasRight(m) {
        ReadValidFacts(left.rest, left.valid);
      }
      ReadStep(s, valid, left, right);
    }
  }

  /** Nodes are built as `create_node` builds them, with `balance` 0. */
  lemma {:induction false} ReadZeroBalance(s: seq<byte>, valid: bool)
    ensures var r := ReadPreorder(s, valid); ZeroBalance(r.tree) == r.tree
    decreases |s|
  {
    if |s| >= 5 {
      var m := s[4];
      var left := if HasLeft(m) then ReadPreorder(s[5..], valid) else ReadResult(Nil, s[5..], valid);
      var right := if HasRight(m) then ReadPreorder(left.rest, left.valid)
                   else ReadResult(Nil, left.rest, left.valid);
      if HasLeft(m) {
        ReadZeroBalance(s[5..], valid);
      }
      if HasRight(m) {
        ReadZeroBalance(left.rest, left.valid);
      }
      ReadStep(s, valid, left, right);
    }
  }

  /** One record of `read_preorder`, unfolded: the key, then the left
      child if the mask announces one, then the right child likewise. */
  lemma ReadStep(s: seq<byte>, valid: bool, left: ReadResult, right: ReadResult)
    requires |s| >= 5
    requires left == if HasLeft(s[4]) then ReadPreorder(s[5..], valid)
                     else ReadResult(Nil, s[5..], valid)
    requires right == if HasRight(s[4]) then ReadPreorder(left.rest, left.valid)
                      else ReadResult(Nil, left.rest, left.valid)
    ensures ReadPreorder(s, valid) ==
              ReadResult(Node(DecodeInt32(s[..4]), 0, left.tree, right.tree), right.rest, right.valid)
  {
  }

  /** Round trip: reading the encoding of a non-empty tree, whatever follows
      it, rebuilds the same keys and shape with every `balance` 0, consumes
      exactly the encoding and leaves the flag as it was. */
  lemma {:induction false} ReadEncode(t: Tree, suffix: seq<byte>, valid: bool)
    requires t.Node?
    ensures ReadPreorder(Encode(t) + suffix, valid) == ReadResult(ZeroBalance(t), suffix, valid)
    decreases t
  {
    var s := Encode(t) + suffix;
    var rs := Encode(t.right) + suffix;
    var m := MaskOf(t);
    assert s == Record(t.key, m) + (Encode(t.left) + rs);
    assert s[..4] == EncodeInt32(t.key) && s[4] == m;
    assert s[5..] == Encode(t.left) + rs;
    var left := ReadResult(ZeroBalance(t.left), rs, valid);
    assert left == if HasLeft(m) then ReadPreorder(s[5..], valid) else ReadResult(Nil, s[5..], valid) by {
      if t.left.Node? {
        ReadEncode(t.left, rs, valid);
      }
    }
    var right := ReadResult(ZeroBalance(t.right), suffix, valid);
    assert right == if HasRight(m) then ReadPreorder(rs, valid) else ReadResult(Nil, rs, valid) by {
      if t.right.Node? {
        ReadEncode(t.right, suffix, valid);
      }
    }
    ReadStep(s, valid, left, right);
    DecodeEncode(t.key);
  }

  /** Writing a non-empty tree and reading the bytes back gives the tree as
      the write left it, with `valid` still set. */
  lemma WriteThenRead(t: Tree, suffix: seq<byte>)
    requires t.Node?
    ensures var w := WritePreorder(t);
      ReadPreorder(w.bytes + suffix, true) == ReadResult(ZeroBalance(w.tree), suffix, true)
  {
    ReadEncode(WritePreorder(t).tree, suffix, true);
  }

  /** Fewer than five bytes where a record is due: NULL, the cursor at the
      end, the flag cleared. The empty stream, which is what the empty tree
      writes, is one such input. */
  lemma ReadShort(s: seq<byte>, valid: bool)
    requires |s| < 5
    ensures ReadPreorder(s, valid) == ReadResult(Nil, [], false)
  {
  }

  /** A cleared flag is never set again. */
  lemma ReadKeepsInvalid(s: seq<byte>)
    ensures !ReadPreorder(s, false).valid
  {
    ReadValidFacts(s, false);
  }

  /** One record announcing a left child that is missing: the node is built,
      the flag is cleared. */
  lemma ReadTruncated()
    ensures ReadPreorder([1, 0, 0, 0, 2], true) == ReadResult(Node(1, 0, Nil, Nil), [], false)
  {
    assert DecodeInt32([1, 0, 0, 0]) == 1;
  }

  /** Only the two low bits of a mask byte matter. */
  lemma MaskHighBitsIgnored(s: seq<byte>, s': seq<byte>, valid: bool)
    requires |s| == |s'| >= 5 && s[..4] == s'[..4] && s[5..] == s'[5..]
    requires s[4] % 4 == s'[4] % 4
    ensures ReadPreorder(s, valid) == ReadPreorder(s', valid)
  {
    assert HasLeft(s[4]) == HasLeft(s'[4]) && HasRight(s[4]) == HasRight(s'[4]);
  }
}
