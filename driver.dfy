/** The two drivers with their files replaced by byte sequences.
    `build_from_file` folds 5-byte operation records (a key, then the byte
    'i' or 'd') over an empty tree and writes the result in pre-order;
    `evaluate_tree` reads a tree back and reports three flags. */
module Driver {
  import opened Bytes
  import opened Seqs
  import opened Trees
  import opened Rotations
  import opened Insertion
  import opened Deletion
  import opened Serial
  import opened Validators

  datatype Option<T> = None | Some(value: T)

  const OpInsert: byte := 0x69  // 'i'
  const OpDelete: byte := 0x64  // 'd'

  predicate IsOpcode(b: byte)
  {
    b == OpInsert || b == OpDelete
  }

  /** The operation byte of the `j`-th complete record. */
  function OpAt(ops: seq<byte>, j: int): byte
    requires 0 <= j < |ops| / 5
  {
    ops[5 * j + 4]
  }

  /** The fold of the loop at main.c:216-227 from a given root: `None` when
      it meets an operation byte other than 'i' and 'd'. A trailing record of
      fewer than five bytes ends the fold. Every intermediate tree is AVL,
      which is what `insert_node` needs of its input. */
  function Apply(root: Tree, ops: seq<byte>): (r: Option<Tree>)
    requires Balanced(root)
    ensures r.Some? ==> Balanced(r.value)
    decreases |ops|
  {
    if |ops| < 5 then Some(root)
    else
      var k := DecodeInt32(ops[..4]);
      var op := ops[4];
      if op == OpInsert then Apply(Insert(root, k), ops[5..])
      else if op == OpDelete then
        DeleteBalanced(root, k);
        Apply(Delete(root, k), ops[5..])
      else None
  }

  datatype BuildOutcome = BadOpcode | Built(bytes: seq<byte>)

  /** `build_from_file` with its files as byte sequences: -1 on a bad
      operation byte, otherwise the bytes `write_preorder` emits. */
  function Build(ops: seq<byte>): BuildOutcome
  {
    match Apply(Nil, ops)
    case None => BadOpcode
    case Some(t) => Built(WritePreorder(t).bytes)
  }

  /** The loop of `build_from_file`, record by record. */
  method BuildFromOps(ops: seq<byte>) returns (out: BuildOutcome)
    ensures out == Build(ops)
  {
    var root := Nil;
    var i := 0;
    while i + 5 <= |ops|
      invariant 0 <= i <= |ops| && Balanced(root)
      invariant Apply(root, ops[i..]) == Apply(Nil, ops)
      decreases |ops| - i
    {
      var key := DecodeInt32(ops[i..i + 4]);
      var op := ops[i + 4];
      assert ops[i..][..4] == ops[i..i + 4] && ops[i..][4] == op;
      assert ops[i..][5..] == ops[i + 5..];
      if op == OpInsert {
        root := Insert(root, key);
      } else if op == OpDelete {
        DeleteBalanced(root, key);
        root := Delete(root, key);
      } else {
        return BadOpcode;
      }
      i := i + 5;
    }
    out := Built(WritePreorder(root).bytes);
  }

  /** The fold fails exactly when some complete record carries an operation
      byte other than 'i' and 'd'; which tree it starts from is irrelevant. */
  lemma {:induction false} ApplyFailsIff(root: Tree, ops: seq<byte>)
    requires Balanced(root)
    ensures Apply(root, ops).None? <==> exists j :: 0 <= j < |ops| / 5 && !IsOpcode(OpAt(ops, j))
    decreases |ops|
  {
    if |ops| >= 5 {
      var k := DecodeInt32(ops[..4]);
      var rest := ops[5..];
      assert |rest| / 5 == |ops| / 5 - 1;
      assert forall j :: 0 <= j < |rest| / 5 ==> OpAt(rest, j) == OpAt(ops, j + 1);
      assert OpAt(ops, 0) == ops[4];
      if ops[4] == OpInsert {
        ApplyFailsIff(Insert(root, k), rest);
        assert (exists j :: 0 <= j < |ops| / 5 && !IsOpcode(OpAt(ops, j))) ==>
               (exists j :: 0 <= j < |rest| / 5 && !IsOpcode(OpAt(rest, j))) by {
          if j :| 0 <= j < |ops| / 5 && !IsOpcode(OpAt(ops, j)) {
            assert j != 0 && !IsOpcode(OpAt(rest, j - 1));
          }
        }
      } else if ops[4] == OpDelete {
        DeleteBalanced(root, k);
        ApplyFailsIff(Delete(root, k), rest);
        assert (exists j :: 0 <= j < |ops| / 5 && !IsOpcode(OpAt(ops, j))) ==>
               (exists j :: 0 <= j < |rest| / 5 && !IsOpcode(OpAt(rest, j))) by {
          if j :| 0 <= j < |ops| / 5 && !IsOpcode(OpAt(ops, j)) {
            assert j != 0 && !IsOpcode(OpAt(rest, j - 1));
          }
        }
      }
    }
  }

  lemma BuildFailsIff(ops: seq<byte>)
    ensures Build(ops) == BadOpcode <==> exists j :: 0 <= j < |ops| / 5 && !IsOpcode(OpAt(ops, j))
  {
    ApplyFailsIff(Nil, ops);
  }

  /** Bytes after the last complete record are never looked at. */
  lemma {:induction false} ApplyIgnoresTail(root: Tree, ops: seq<byte>, tail: seq<byte>)
    requires Balanced(root) && |ops| % 5 == 0 && |tail| < 5
    ensures Apply(root, ops + tail) == Apply(root, ops)
    decreases |ops|
  {
    if |ops| >= 5 {
      var s := ops + tail;
      assert s[..4] == ops[..4] && s[4] == ops[4] && s[5..] == ops[5..] + tail;
      var k := DecodeInt32(ops[..4]);
      if ops[4] == OpInsert {
        ApplyIgnoresTail(Insert(root, k), ops[5..], tail);
      } else if ops[4] == OpDelete {
        DeleteBalanced(root, k);
        ApplyIgnoresTail(Delete(root, k), ops[5..], tail);
      }
    } else {
      assert ops == [];
      assert ops + tail == tail;
    }
  }

  lemma BuildIgnoresTail(ops: seq<byte>, tail: seq<byte>)
    requires |ops| % 5 == 0 && |tail| < 5
    ensures Build(ops + tail) == Build(ops)
  {
    ApplyIgnoresTail(Nil, ops, tail);
  }

  /** Every tree the fold produces has nondecreasing in-order keys. */
  lemma {:induction false} ApplySorted(root: Tree, ops: seq<byte>)
    requires Balanced(root) && Sorted(Inorder(root))
    ensures Apply(root, ops).Some? ==> Sorted(Inorder(Apply(root, ops).value))
    decreases |ops|
  {
    if |ops| >= 5 {
      var k := DecodeInt32(ops[..4]);
      if ops[4] == OpInsert {
        InsertSorted(root, k);
        ApplySorted(Insert(root, k), ops[5..]);
      } else if ops[4] == OpDelete {
        DeleteBalanced(root, k);
        DeleteSorted(root, k);
        ApplySorted(Delete(root, k), ops[5..]);
      }
    }
  }

  /** The three numbers `evaluate_tree` prints. When parsing fails the two
      checks are skipped and keep their initial 1. */
  datatype Report = Report(valid: bool, strictBst: bool, balanced: bool)

  /** What `evaluate_tree` reports, stated through the properties the two
      checks decide: the search-tree order and the AVL property. */
  function Evaluate(bytes: seq<byte>): Report
  {
    var r := ReadPreorder(bytes, true);
    if r.valid then Report(true, Ordered(r.tree), Balanced(r.tree))
    else Report(false, true, true)
  }

  /** `evaluate_tree` with the file as a byte sequence. */
  method EvaluateTree(bytes: seq<byte>) returns (rep: Report)
    ensures rep == Evaluate(bytes)
  {
    var r := ReadPreorder(bytes, true);
    var valid := r.valid;
    var bstCheck := true;
    if valid {
      bstCheck := StrictBstCheck(r.tree);
    }
    var balCheck := true;
    if valid {
      balCheck := IsBalanced(r.tree) >= 0;
    }
    rep := Report(valid, bstCheck, balCheck);
  }

  /** What `build_from_file` writes for a non-empty tree evaluates as a
      valid, AVL-balanced tree whose in-order keys are nondecreasing. A
      build that ends with the empty tree writes nothing, which evaluates
      as invalid with both checks skipped. */
  lemma BuildThenEvaluate(ops: seq<byte>)
    requires Build(ops).Built?
    ensures var bs := Build(ops).bytes;
      var e := Evaluate(bs);
      (bs == [] ==> e == Report(false, true, true)) &&
      (bs != [] ==> e.valid && e.balanced && Sorted(Inorder(ReadPreorder(bs, true).tree)))
  {
    var t := Apply(Nil, ops).value;
    var w := WritePreorder(t);
    if t.Node? {
      WriteThenRead(t, []);
      assert w.bytes + [] == w.bytes;
      WriteKeepsMeasures(t);
      ZeroBalanceKeeps(w.tree);
      ApplySorted(Nil, ops);
      WriteKeepsInorder(t);
    } else {
      assert w.bytes == [];
    }
  }

  /** Inserting 3 three times: the rotation puts an equal key on the right,
      so the tree is AVL but not a strict search tree. */
  lemma ThreeEqualInserts()
    ensures Evaluate(Build([3, 0, 0, 0, 0x69, 3, 0, 0, 0, 0x69, 3, 0, 0, 0, 0x69]).bytes) ==
            Report(true, false, true)
  {
    var leaf := Node(3, 0, Nil, Nil);
    var t := Node(3, 0, leaf, leaf);
    ThreeEqualFold();
    assert WritePreorder(t).tree == t by {
      WriteStep(t);
      WriteStep(leaf);
    }
    ReadEncode(t, [], true);
    assert Encode(t) + [] == Encode(t);
    assert Inorder(leaf) == [3];
    assert !Ordered(t);
  }

  lemma ThreeEqualFold()
    ensures var leaf := Node(3, 0, Nil, Nil);
      Apply(Nil, [3, 0, 0, 0, 0x69, 3, 0, 0, 0, 0x69, 3, 0, 0, 0, 0x69]) == Some(Node(3, 0, leaf, leaf))
  {
    var ops: seq<byte> := [3, 0, 0, 0, 0x69, 3, 0, 0, 0, 0x69, 3, 0, 0, 0, 0x69];
    var leaf := Node(3, 0, Nil, Nil);
    var two := Node(3, 1, leaf, Nil);
    var r: seq<byte> := [3, 0, 0, 0, 0x69];
    var o1, o2 := r + r, r;
    assert ops == r + o1 && o1 == r + o2;
    assert ops[5..] == o1 && o1[5..] == o2 && o2[5..] == [];
    assert ops[..4] == o1[..4] == o2[..4] == [3, 0, 0, 0];
    assert ops[4] == o1[4] == o2[4] == OpInsert;
    assert DecodeInt32([3, 0, 0, 0]) == 3;
    assert Balanced(leaf) && Balanced(two);
    assert Insert(Nil, 3) == leaf;
    SecondEqualInsert();
    ThirdEqualInsert();
    ApplyInsertStep(Nil, ops);
    ApplyInsertStep(leaf, o1);
    ApplyInsertStep(two, o2);
  }

  /** One 'i' record of the fold. */
  lemma ApplyInsertStep(root: Tree, ops: seq<byte>)
    requires Balanced(root) && |ops| >= 5 && ops[4] == OpInsert
    ensures Apply(root, ops) == Apply(Insert(root, DecodeInt32(ops[..4])), ops[5..])
  {
  }

  lemma SecondEqualInsert()
    ensures Insert(Node(3, 0, Nil, Nil), 3) == Node(3, 1, Node(3, 0, Nil, Nil), Nil)
  {
    var leaf := Node(3, 0, Nil, Nil);
    assert Insert(Nil, 3) == leaf;
    assert Insert(leaf, 3) == RebalanceAfterInsert(Node(3, 0, leaf, Nil), 3);
  }

  lemma ThirdEqualInsert()
    ensures var leaf := Node(3, 0, Nil, Nil);
      Insert(Node(3, 1, leaf, Nil), 3) == Node(3, 0, leaf, leaf)
  {
    var leaf := Node(3, 0, Nil, Nil);
    var two := Node(3, 1, leaf, Nil);
    SecondEqualInsert();
    assert Insert(two, 3) == RebalanceAfterInsert(Node(3, 1, two, Nil), 3);
    assert Height(two) == 2;
    assert RebalanceAfterInsert(Node(3, 1, two, Nil), 3) == RotateRight(Node(3, 2, two, Nil));
    assert RotateRight(Node(3, 2, two, Nil)) == Node(3, 0, leaf, leaf) by {
      var y := Node(3, 2, two, Nil);
      assert y.left == two && two.right == Nil && two.left == leaf;
      assert Height(leaf) == 1;
      var y' := Node(3, Height(Nil) - Height(Nil), Nil, Nil);
      assert y' == leaf;
      assert RotateRight(y) == Node(3, Height(leaf) - Height(y'), leaf, y');
    }
  }

  /** Inserting 5, 3, 8 and 3: the second 3 goes left of the first, and the
      tree read back is valid, a strict search tree and AVL. */
  lemma MixedInserts()
    ensures Evaluate(Build([5, 0, 0, 0, 0x69, 3, 0, 0, 0, 0x69, 8, 0, 0, 0, 0x69, 3, 0, 0, 0, 0x69]).bytes) ==
            Report(true, true, true)
  {
    var l3, l8 := Node(3, 0, Nil, Nil), Node(8, 0, Nil, Nil);
    var t := Node(5, 1, Node(3, 1, l3, Nil), l8);
    MixedFold();
    MixedEvaluate(t);
  }

  lemma MixedEvaluate(t: Tree)
    requires t == Node(5, 1, Node(3, 1, Node(3, 0, Nil, Nil), Nil), Node(8, 0, Nil, Nil))
    ensures Evaluate(WritePreorder(t).bytes) == Report(true, true, true)
  {
    var w := WritePreorder(t);
    MixedWrite(t);
    WriteThenRead(t, []);
    assert w.bytes + [] == w.bytes;
    MixedReadBack(t);
  }

  /** The tree read back, balances zeroed, is ordered and AVL. */
  lemma MixedReadBack(t: Tree)
    requires t == Node(5, 1, Node(3, 1, Node(3, 0, Nil, Nil), Nil), Node(8, 0, Nil, Nil))
    ensures Ordered(ZeroBalance(t)) && Balanced(ZeroBalance(t))
  {
    var l3, l8 := Node(3, 0, Nil, Nil), Node(8, 0, Nil, Nil);
    var z := Node(5, 0, Node(3, 0, l3, Nil), l8);
    assert ZeroBalance(t) == z;
    assert Ordered(z) by {
      assert Inorder(Node(3, 0, l3, Nil)) == [3, 3];
    }
    assert Balanced(z) by {
      assert Height(Node(3, 0, l3, Nil)) == 2 && Height(l8) == 1;
    }
  }

  /** Every node of the example tree keeps its place when written. */
  lemma MixedWrite(t: Tree)
    requires t == Node(5, 1, Node(3, 1, Node(3, 0, Nil, Nil), Nil), Node(8, 0, Nil, Nil))
    ensures WritePreorder(t).tree == t
  {
    var l3, l8 := Node(3, 0, Nil, Nil), Node(8, 0, Nil, Nil);
    WriteStep(l3);
    WriteStep(l8);
    WriteStep(t.left);
    WriteStep(t);
  }

  lemma MixedFold()
    ensures var l3, l8 := Node(3, 0, Nil, Nil), Node(8, 0, Nil, Nil);
      Apply(Nil, [5, 0, 0, 0, 0x69, 3, 0, 0, 0, 0x69, 8, 0, 0, 0, 0x69, 3, 0, 0, 0, 0x69]) ==
        Some(Node(5, 1, Node(3, 1, l3, Nil), l8))
  {
    var ops: seq<byte> := [5, 0, 0, 0, 0x69, 3, 0, 0, 0, 0x69, 8, 0, 0, 0, 0x69, 3, 0, 0, 0, 0x69];
    var rest: seq<byte> := [3, 0, 0, 0, 0x69, 8, 0, 0, 0, 0x69, 3, 0, 0, 0, 0x69];
    assert ops[..4] == [5, 0, 0, 0] && ops[5..] == rest;
    assert DecodeInt32([5, 0, 0, 0]) == 5;
    var l5 := Node(5, 0, Nil, Nil);
    assert Insert(Nil, 5) == l5;
    ApplyInsertStep(Nil, ops);
    MixedFoldSecond();
  }

  lemma MixedFoldSecond()
    ensures var l3, l8 := Node(3, 0, Nil, Nil), Node(8, 0, Nil, Nil);
      Apply(Node(5, 0, Nil, Nil), [3, 0, 0, 0, 0x69, 8, 0, 0, 0, 0x69, 3, 0, 0, 0, 0x69]) ==
        Some(Node(5, 1, Node(3, 1, l3, Nil), l8))
  {
    var ops: seq<byte> := [3, 0, 0, 0, 0x69, 8, 0, 0, 0, 0x69, 3, 0, 0, 0, 0x69];
    var rest: seq<byte> := [8, 0, 0, 0, 0x69, 3, 0, 0, 0, 0x69];
    assert ops[..4] == [3, 0, 0, 0] && ops[5..] == rest;
    assert DecodeInt32([3, 0, 0, 0]) == 3;
    var l5 := Node(5, 0, Nil, Nil);
    assert Balanced(l5);
    MixedSecond();
    ApplyInsertStep(l5, ops);
    MixedFoldThird();
  }

  lemma MixedFoldThird()
    ensures var l3, l8 := Node(3, 0, Nil, Nil), Node(8, 0, Nil, Nil);
      Apply(Node(5, 1, l3, Nil), [8, 0, 0, 0, 0x69, 3, 0, 0, 0, 0x69]) ==
        Some(Node(5, 1, Node(3, 1, l3, Nil), l8))
  {
    var ops: seq<byte> := [8, 0, 0, 0, 0x69, 3, 0, 0, 0, 0x69];
    var rest: seq<byte> := [3, 0, 0, 0, 0x69];
    assert ops[..4] == [8, 0, 0, 0] && ops[5..] == rest;
    assert DecodeInt32([8, 0, 0, 0]) == 8;
    var l3 := Node(3, 0, Nil, Nil);
    var t2 := Node(5, 1, l3, Nil);
    assert Balanced(t2);
    MixedThird();
    ApplyInsertStep(t2, ops);
    MixedFoldFourth();
  }

  lemma MixedFoldFourth()
    ensures var l3, l8 := Node(3, 0, Nil, Nil), Node(8, 0, Nil, Nil);
      Apply(Node(5, 0, l3, l8), [3, 0, 0, 0, 0x69]) == Some(Node(5, 1, Node(3, 1, l3, Nil), l8))
  {
    var ops: seq<byte> := [3, 0, 0, 0, 0x69];
    assert ops[..4] == [3, 0, 0, 0] && ops[5..] == [];
    assert DecodeInt32([3, 0, 0, 0]) == 3;
    var l3, l8 := Node(3, 0, Nil, Nil), Node(8, 0, Nil, Nil);
    var t3 := Node(5, 0, l3, l8);
    assert Balanced(t3);
    MixedFourth();
    ApplyInsertStep(t3, ops);
  }

  lemma MixedSecond()
    ensures Insert(Node(5, 0, Nil, Nil), 3) == Node(5, 1, Node(3, 0, Nil, Nil), Nil)
  {
    var l3 := Node(3, 0, Nil, Nil);
    assert Insert(Nil, 3) == l3;
    assert Insert(Node(5, 0, Nil, Nil), 3) == RebalanceAfterInsert(Node(5, 0, l3, Nil), 3);
  }

  lemma MixedThird()
    ensures var l3, l8 := Node(3, 0, Nil, Nil), Node(8, 0, Nil, Nil);
      Insert(Node(5, 1, l3, Nil), 8) == Node(5, 0, l3, l8)
  {
    var l3, l8 := Node(3, 0, Nil, Nil), Node(8, 0, Nil, Nil);
    assert Insert(Nil, 8) == l8;
    assert Insert(Node(5, 1, l3, Nil), 8) == RebalanceAfterInsert(Node(5, 1, l3, l8), 8);
  }

  lemma MixedFourth()
    ensures var l3, l8 := Node(3, 0, Nil, Nil), Node(8, 0, Nil, Nil);
      Insert(Node(5, 0, l3, l8), 3) == Node(5, 1, Node(3, 1, l3, Nil), l8)
  {
    var l3, l8 := Node(3, 0, Nil, Nil), Node(8, 0, Nil, Nil);
    var two := Node(3, 1, l3, Nil);
    SecondEqualInsert();
    assert Insert(Node(5, 0, l3, l8), 3) == RebalanceAfterInsert(Node(5, 0, two, l8), 3);
    assert Height(two) == 2 && Height(l8) == 1;
  }
}
