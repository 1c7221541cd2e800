# AVL tree engine of `main.c`, modelled in Dafny

`main.c` keeps an AVL tree of C `int` keys. It builds the tree from a log of
5-byte operation records (a key, then `'i'` to insert or `'d'` to delete),
writes it as pre-order 5-byte records (the key, then a mask byte with 2 for
"left child follows" and 1 for "right child follows"), and reads such a file
back to report three flags: whether the file parsed, whether the tree is a
strict search tree, and whether it is AVL-balanced. Duplicates go left on
insert; delete removes the first node on the search path whose key is equal,
replacing a two-child node's key by its in-order predecessor.

The model follows the program's structure, one module per part:

- `bytes.dfy` (`Bytes`): bytes, 32-bit keys and their 4-byte encoding.
- `seqs.dfy` (`Seqs`): nondecreasing sequences and multiset bookkeeping.
- `trees.dfy` (`Trees`): the node type (`key`, `balance`, `left`, `right`),
  `get_height` as `Height` (0 for NULL, one more than the taller child), the
  AVL property, the search-tree order, the extreme keys.
- `rotations.dfy` (`Rotations`): `rotate_right`, `rotate_left`.
- `insertion.dfy` (`Insertion`): `insert_node`.
- `deletion.dfy` (`Deletion`): `delete_node`, with its predecessor loop.
- `serial.dfy` (`Serial`): `write_preorder`, `read_preorder`.
- `validators.dfy` (`Validators`): `is_bst_util`, `is_balanced`, `strict_bst`.
- `driver.dfy` (`Driver`): the record fold of `build_from_file` and the flag
  logic of `evaluate_tree`, on byte sequences.

The tree is a datatype. Each pointer update becomes a function that returns
the updated tree. This is faithful because the tree has no sharing. The
source's loops are methods with loop invariants, proved against the
functions the rest of the model uses: the predecessor walk
(`Deletion.FindPredecessor`), the extreme-node walks of `strict_bst`
(`Validators.StrictBstCheck`) and the record loop of `build_from_file`
(`Driver.BuildFromOps`). `is_bst_util` threads `*last` and `*ok`, so it is a
recursive method with those as out-parameters.

## Model

| member | source | states |
|---|---|---|
| `Bytes.DecodeEncode` | main.c:133-135 | reading back the four bytes written for a key gives the key |
| `Bytes.EncodeDecode` | main.c:146 | writing the key read from four bytes gives those bytes again |
| `Trees.RightmostKey` | main.c:193-195 | following `right` to NULL reaches the last key of the in-order sequence |
| `Trees.LeftmostKey` | main.c:199-200 | following `left` to NULL reaches the first key of the in-order sequence |
| `Trees.OrderedIsSorted` | main.c:188 | a tree with left ≤ key < right at every node has a nondecreasing in-order sequence |
| `Rotations.RotateRight` | main.c:27-37 | needs a non-NULL left child; keeps the in-order sequence; promotes the left child; re-parents exactly the three subtrees, with no other node changed; both touched nodes get `balance` = h(left) − h(right) |
| `Rotations.RotateLeft` | main.c:42-52 | the mirror image of `RotateRight` |
| `Rotations.RotationsInverse` | main.c:27-52 | a left rotation undoes a right rotation, up to the `balance` fields |
| `Rotations.SingleRightBalances` | main.c:27-37 | a right rotation of a node that is two too heavy on its outer left side yields an AVL tree of the stated height |
| `Rotations.SingleLeftBalances` | main.c:42-52 | the mirror image of `SingleRightBalances` |
| `Rotations.DoubleRightBalances` | main.c:27-52 | the left-then-right rotation of a node two too heavy on its inner left side yields an AVL tree one level lower |
| `Rotations.DoubleLeftBalances` | main.c:27-52 | the mirror image of `DoubleRightBalances` |
| `Insertion.RebalanceAfterInsert` | main.c:62-76 | the rebalancing tail of `insert_node` keeps the in-order sequence and leaves an accurate root `balance` |
| `Insertion.Insert` | main.c:54-77 | on an AVL tree: returns a non-empty AVL tree with an accurate root `balance`, at most one level taller |
| `Insertion.InsertKeys` | main.c:54-61 | the key multiset gains exactly one copy of the key |
| `Insertion.InsertSorted` | main.c:54-77 | a nondecreasing in-order sequence stays nondecreasing |
| `Deletion.RebalanceAfterDelete` | main.c:102-116 | the rebalancing tail of `delete_node` keeps the in-order sequence and leaves an accurate root `balance` on any tree |
| `Deletion.Delete` | main.c:79-117 | NULL stays NULL; a matched node with at most one child is replaced by that child, or by NULL |
| `Deletion.FindPredecessor` | main.c:96-98 | the predecessor walk ends at the last key of the left subtree's in-order sequence |
| `Deletion.RebalanceAfterDeleteBalances` | main.c:102-116 | with AVL subtrees at most two apart, the rebalance yields an AVL tree at most one level lower; with subtrees at most one apart it only refreshes `balance` |
| `Deletion.DeleteBalanced` | main.c:79-117 | deletion keeps an AVL tree AVL and lowers it by at most one level |
| `Deletion.DeleteKeys` | main.c:79-117 | on nondecreasing in-order keys, the key multiset loses exactly one copy of the key, or nothing if absent |
| `Deletion.DeleteSorted` | main.c:79-117 | a nondecreasing in-order sequence stays nondecreasing |
| `Deletion.DeleteAbsentKeepsInorder` | main.c:82-87 | deleting an absent key leaves the in-order sequence unchanged |
| `Deletion.DeletePresentShrinks` | main.c:88-101 | deleting a present key removes exactly one occurrence, and the sequence is one shorter |
| `Deletion.DeleteAbsentKeepsShape` | main.c:79-117 | on an AVL tree, deleting an absent key changes no key or child; with accurate `balance` fields it changes nothing |
| `Deletion.DeleteKeepsOtherSubtreeLeft` | main.c:84-116 | descending left from an AVL node where no rotation is due (the new left subtree at most one level below the right) keeps its key and right subtree untouched and refreshes only its balance |
| `Deletion.DeleteKeepsOtherSubtreeRight` | main.c:86-116 | descending right from an AVL node where no rotation is due (the new right subtree at most one level below the left) keeps its key and left subtree untouched and refreshes only its balance |
| `Deletion.DeleteKeepsRightOnPredecessor` | main.c:96-116 | deleting a node with two children where no rotation is due puts the predecessor's key at the node, removes the predecessor from the left subtree, keeps the right subtree untouched and refreshes only the balance |
| `Deletion.DeletePresentRemovesOne` | main.c:80-117 | on nondecreasing in-order keys, deleting a present key yields the in-order sequence with one occurrence of that key taken out and the rest in order |
| `Deletion.InsertThenDeleteKeepsInorder` | main.c:55-117 | inserting a key into a sorted AVL tree and then deleting it gives back the same in-order sequence |
| `Deletion.InsertThenDeleteMovesNodes` | main.c:71-74 | inserting 3 into the accurate AVL tree 1 → right 2 rotates at 1, and deleting 3 then leaves 2 → left 1: the shape is not restored |
| `Serial.MaskOf` | main.c:129-131 | the mask has the 0x02 bit exactly when a left child exists and the 0x01 bit exactly when a right child exists |
| `Serial.Rewire` | main.c:123-127 | an empty left beside an equal-key right child is moved to the left; any other node is untouched |
| `Serial.WritePreorder` | main.c:120-139 | the bytes are the pre-order encoding of the tree as rewired; afterwards no node needs rewiring; NULL exactly for NULL |
| `Serial.WriteLength` | main.c:121-139 | nothing for an empty tree, exactly 5 bytes per node |
| `Serial.WriteKeepsMeasures` | main.c:123-127 | the rewire keeps node count, height and the AVL property |
| `Serial.WriteKeepsKeys` | main.c:123-127 | the rewire keeps the key multiset and the root key |
| `Serial.WriteKeepsInorder` | main.c:123-127 | on an AVL tree the rewire also keeps the in-order sequence |
| `Serial.WriteCanReorder` | main.c:123-127 | on a non-AVL tree the rewire can reorder keys: [3, 3, 5] is written as [3, 5, 3] |
| `Serial.ReadPreorder` | main.c:141-157 | never moves the cursor backwards |
| `Serial.ReadRestIsSuffix` | main.c:146-155 | what is left unread is a suffix of the input |
| `Serial.ReadValidFacts` | main.c:146-150 | a cleared flag is never set again; a read that keeps the flag set used exactly 5 bytes per node |
| `Serial.ReadZeroBalance` | main.c:7-14 | every node read has `balance` 0, as `create_node` sets it |
| `Serial.ReadEncode` | main.c:121-157 | reading the encoding of a non-empty tree, then any suffix, rebuilds the same shape and keys, consumes exactly the encoding and keeps the flag |
| `Serial.WriteThenRead` | main.c:121-157 | what `write_preorder` emits for a non-empty tree reads back as the rewired tree, valid |
| `Serial.ReadShort` | main.c:146-150 | fewer than five bytes where a record is due read as NULL, consume the rest and clear the flag; the empty stream is one case |
| `Serial.ReadKeepsInvalid` | main.c:146-150 | a read that starts with the flag cleared ends with it cleared |
| `Serial.ReadTruncated` | main.c:146-155 | the lone record {key 1, mask 0x02} reads as a single node with the flag cleared |
| `Serial.MaskHighBitsIgnored` | main.c:154-155 | only the two low bits of a mask byte affect the result |
| `Validators.IsBstUtil` | main.c:167-175 | starting with `ok` set, `ok` stays set exactly when `last` followed by the in-order keys is nondecreasing; `last` then ends on the last key; the return value is 0 for NULL and `ok` otherwise |
| `Validators.IsBalanced` | main.c:177-186 | returns the height of an AVL tree, and -1 exactly when some node's children differ in height by more than one |
| `Validators.StrictBstCheck` | main.c:188-204 | returns true exactly when every node's left keys are ≤ its key and its right keys are > its key, the claim of main.c:188 |
| `Driver.Apply` | main.c:216-227 | folding the records from an AVL tree keeps every intermediate tree AVL |
| `Driver.BuildFromOps` | main.c:212-231 | the loop computes `Build`: the fold, then the pre-order bytes of the result, or the bad-opcode outcome |
| `Driver.ApplyFailsIff` | main.c:218-226 | the fold fails exactly when some complete record has an operation byte other than `'i'` and `'d'` |
| `Driver.BuildFailsIff` | main.c:216-227 | the build returns -1 exactly when some complete record has a bad operation byte |
| `Driver.BuildIgnoresTail` | main.c:216-217 | bytes after the last complete record do not change the outcome |
| `Driver.ApplySorted` | main.c:216-227 | every tree the fold builds has nondecreasing in-order keys |
| `Driver.EvaluateTree` | main.c:239-250 | the report holds the parse flag, and when the parse succeeded the strict-order and AVL verdicts; otherwise both checks stay 1 |
| `Driver.BuildThenEvaluate` | main.c:207-255 | a non-empty build output evaluates as valid and balanced, with nondecreasing in-order keys; an empty one as (0, 1, 1) |
| `Driver.ThreeEqualInserts` | main.c:58-68 | inserting 3 three times gives a root 3 with a 3 on each side, reported as (1, 0, 1) |
| `Driver.MixedInserts` | main.c:58-68 | inserting 5, 3, 8, 3 puts the second 3 to the left of the first and is reported as (1, 1, 1) |

## Left out

- File I/O, `printf`, argument dispatch in `main`, and exit codes (main.c:209-211, 228-233, 238-243, 253-273). The drivers take and return byte sequences instead. A file that cannot be opened is therefore not modelled.
- Allocation failure in `create_node` and `read_preorder` (main.c:9, 153). The allocator is foreign code; allocation is assumed to succeed.
- `free` and `free_tree` (main.c:92, 160-165). Releasing memory has no observable result here.
- Native byte order and `sizeof(int)`. Keys are fixed at 32 bits, two's complement, little-endian.
- The cost of recomputing heights and the recursion depth. These affect performance, not behaviour.
- `hbt.h` is not part of this model. Only the four node fields used in `main.c` are assumed.
- In-place pointer updates are modelled as functions on values. With no sharing in the tree, nothing observable is lost.
- `write_preorder` updates the caller's tree in place. Here that is the `tree` field of the returned `Written`.
- `Insertion.Insert`: requires an AVL input tree. On other inputs `insert_node` can dereference a NULL pivot. Example: the left chain 4 → 3 → 2 → 1 with 7 inserted. At node 4 the balance is 3 − 1 = 2 and 7 is greater than 3, so `rotate_left` is called on node 3 (main.c:66-67), whose right child is NULL, and main.c:44 dereferences it. `build_from_file` only ever inserts into AVL trees.
- `Deletion.DeleteKeys`: requires nondecreasing in-order keys. On other trees the search can miss a key that is present.
- Insert followed by delete of the same key restores the in-order sequence (`Deletion.InsertThenDeleteKeepsInorder`) but not, in general, the shape: a rotation during the insert is not undone (`Deletion.InsertThenDeleteMovesNodes`).
- `Deletion.DeleteKeepsOtherSubtreeLeft`: covers only the case where the node does not rotate. When it does (main.c:111-114), the right child, or its left child, is rotated up and the subtrees below are redistributed; no lemma states which parts stay intact there.
- `Deletion.DeleteKeepsOtherSubtreeRight`: the same gap in the mirror image, the rotation of main.c:104-107.
- `Deletion.DeleteKeepsRightOnPredecessor`: covers only the case where the node does not rotate. When it does (main.c:111-114), the right subtree is rotated as in the left-descent case; no lemma states which parts stay intact there.
- No member proves `Accurate` (every `balance` field correct) for a whole tree after insert or delete. Only the nodes these operations touch are stated to have accurate fields.
- `Driver.Evaluate` states the two checks as the properties they decide (order, AVL). `Driver.EvaluateTree` runs `StrictBstCheck` and `IsBalanced`, and is proved equal to it.
- Three behaviours of the code worth noting; the model follows them:
  - `strict_bst` is exact. Because both subtrees are checked recursively, the local test against the two extreme keys accepts exactly the trees with left ≤ key < right everywhere. It accepts nothing more.
  - `evaluate_tree` skips both checks when parsing fails and prints 1 for them (main.c:246-250). It does not validate the partial tree.
  - After a truncated record, `read_preorder` still tries to read the pending right child. The cursor is already at the end of the stream, so that read fails too and builds nothing.
