# Red-black tree of red-blackTrees.cpp, modelled and verified in Dafny

The program is a red-black tree of `int` values. Nodes are heap records
with a value, a colour and left, right and parent pointers. One black
sentinel record `NIL` stands for every missing child and for the root's
parent. The tree supports `insert` (a binary-search descent, then the
`insertRebalance` fix-up loop), `search`, and `remove`. `remove`
transplants nodes with `replaceSubtree`, replaces a node that has two
children by its in-order successor, then runs the `removeRebalance`
fix-up loop. `rotateLeft` and `rotateRight` do the pointer surgery.

The model has two layers.

* **The arena** (`Arena`, `Rotation`, `Transplant`, `Search`, `Insertion`,
  `Removal`). The heap is a sequence of `Node` records indexed by `Ref`,
  and record 0 is the sentinel. Each procedure of the source is a pure
  function that makes the same reads and writes in the same order. This
  includes what the source does when a pointer names the sentinel, such as
  recolouring the sentinel or rotating at it. Each `while` loop is a
  recursive function that takes the arena size as fuel. Lemmas show the
  fuel never runs out for search, the insert descent, the successor loop
  and the corrected insert fix-up loop under `FixInv`. No lemma bounds the
  fuel of the as-written insert fix-up loop or of the deficit cases of the
  `removeRebalance` loop (see Left out).
* **Algebraic trees** (`Shape`, `InsertShape`, `RemoveShape`).
  * `Tree` is a binary tree whose nodes remember their record index.
  * `Ctx` is a zipper that names one position in a tree.
  * The red-black rules of the header comment (lines 2-7) are stated on
    `Tree`: `Balanced` is rule 4, `RedRule` is rule 3, and `IsRedBlack`
    adds rule 2.
  * Insertion and removal are defined as steps between zipper states.

`Represent` connects the two layers. `Represents(t, tr)` says that the
records of arena `t` spell out tree `tr` through their child and parent
links, that `t.root` names `tr`'s root, and that the sentinel still has its
constructor values. Each arena procedure is proved to perform its
algebraic counterpart at the position it works on, with two exceptions
(see Left out): the inner case of `insertRebalance` as written, which
colours the stale parent and has no algebraic counterpart, and the
deficit cases of `removeRebalance`. From that, the properties
proved on trees carry over to the arena.

`Usage` chains the theorems the way the program uses the tree: the
constructor, any sequence of `insert` calls (the `Corrected` variant),
then `remove`.

The fix-up loop of `insert` colours the wrong node black in its
inner-child cases, and can then destroy the tree (see Findings).
`Insertion.Insert` therefore takes a `Variant`. `AsWritten` follows the
code. `Corrected` re-reads the parent as the textbook algorithm does, and
it is the one the insertion theorems are about.

## Model

| member | source | states |
|---|---|---|
| Arena.Empty | red-blackTrees.cpp:104-110 | A new tree holds only the sentinel record, which is black with key 0 and all links pointing at itself. The root is the sentinel. |
| Represent.EmptyIsEmptyTree | red-blackTrees.cpp:104-110 | The constructor's arena is valid and holds the empty tree, which is a red-black tree with no keys. |
| Rotation.RotateLeftFrame | red-blackTrees.cpp:129-150 | Left rotation writes only `x`, its right child `y`, `y`'s left child and `x`'s parent. It keeps every key and colour, and it leaves the sentinel alone when `x` and `y` are real nodes. |
| Rotation.RotateRightFrame | red-blackTrees.cpp:152-173 | The mirror of `RotateLeftFrame`. |
| Rotation.RotateLeftWrites | red-blackTrees.cpp:129-150 | When the four records involved are distinct, gives the exact new links of each. `x` gets `y`'s inner child and parent `y`; `y` gets left child `x` and `x`'s old parent; the inner child's parent becomes `x`; and `y` takes `x`'s slot in the parent, or becomes the root. |
| Rotation.RotateRightWrites | red-blackTrees.cpp:152-173 | The mirror of `RotateLeftWrites`. |
| Rotation.RotLKeepsOrder | red-blackTrees.cpp:129-150 | The algebraic left rotation keeps the in-order key sequence, the node set, and distinctness of nodes. |
| Rotation.RotRKeepsOrder | red-blackTrees.cpp:152-173 | The same for the right rotation. |
| Rotation.RotateLeftPlug | red-blackTrees.cpp:129-150 | On an arena representing `Plug(c, s)` where `s` has a right child, `rotateLeft` at `s`'s root gives an arena representing `Plug(c, RotL(s))`. |
| Rotation.RotateRightPlug | red-blackTrees.cpp:152-173 | The mirror of `RotateLeftPlug`. |
| Transplant.ReplaceSubtree | red-blackTrees.cpp:407-417 | `x`'s parent takes `y` in `x`'s slot, or the root becomes `y` when that parent is the sentinel. The side is chosen by comparing `x` with the parent's left link. `y`, unless it is the sentinel, takes `x`'s parent. No other record, key or colour changes. |
| Transplant.ReplaceSubtreePlug | red-blackTrees.cpp:407-417 | Transplanting one child subtree of `s` into `s`'s slot turns the represented tree `Plug(c, s)` into `Plug(c, child)`. |
| Search.Search | red-blackTrees.cpp:391-405 | Whatever the arena, a node that `search` returns is a real node holding the value. |
| Search.SearchFuel | red-blackTrees.cpp:394-399 | On a represented subtree, the search loop with enough fuel stops where the algebraic descent `Find` stops. |
| Search.FindComplete | red-blackTrees.cpp:391-405 | On a tree with sorted keys, the descent finds a node exactly when the value is stored, and that node belongs to the tree. |
| Search.SearchCorrect | red-blackTrees.cpp:391-405 | `search(v)` on a valid arena with sorted keys returns a node if and only if `v` is stored, and the node is one of the tree's. |
| InsertShape.PathPlug | red-blackTrees.cpp:366-376 | The descent of `insert` ends at a leaf position of the tree: plugging a leaf there gives back the tree. |
| InsertShape.PathLast | red-blackTrees.cpp:379-386 | In a non-empty tree the descent ends below a real node, as its left child exactly when the new value is below that node's value. |
| InsertShape.PathKeys | red-blackTrees.cpp:369-376 | In a sorted tree the new node lands after every key not above the value and before every key above it. |
| InsertShape.FixStepInv | red-blackTrees.cpp:176-219 | One iteration of the corrected fix-up loop (parent re-read after the inner rotation), run while the parent is red, keeps the loop invariant `FixInv` and the in-order keys. `FixInv` says: the current node is red; the red-black rules hold everywhere except between the current node and its parent; the root is black unless it is the current node. |
| InsertShape.FixLoopInv | red-blackTrees.cpp:175-220 | The whole corrected loop (parent re-read after the inner rotation) keeps `FixInv` and the keys, and it stops with a black parent or at the root. |
| InsertShape.FixDone | red-blackTrees.cpp:176 | When the loop stops under `FixInv`, the whole tree obeys rules 3 and 4. |
| InsertShape.BlackenRoot | red-blackTrees.cpp:222 | Blackening the root of a tree that obeys rules 3 and 4 gives a red-black tree with the same keys. |
| InsertShape.FixInvInitial | red-blackTrees.cpp:361-388 | Attaching the new red node where the descent ends establishes `FixInv`. |
| InsertShape.InsertTreeCorrect | red-blackTrees.cpp:361-389 | Corrected algebraic insertion (parent re-read after the inner rotation) into a red-black tree yields a red-black tree whose keys are the old ones plus `v`. On sorted keys, `v` is inserted after any equal keys. |
| Insertion.InsertStepPlug | red-blackTrees.cpp:176-219 | The arena loop body, with the parent re-read, performs one `FixStep` on the represented tree and returns the new current node. |
| Insertion.StepRecolorLeft | red-blackTrees.cpp:180-188 | Red uncle, parent on the left: the three recolourings represent the algebraic recolouring step. |
| Insertion.StepRecolorRight | red-blackTrees.cpp:200-208 | The mirror of `StepRecolorLeft`. |
| Insertion.StepOuterLeft | red-blackTrees.cpp:189-198 | Black uncle, outer child on the left: recolouring and a right rotation at the grandparent represent the algebraic step. |
| Insertion.StepOuterRight | red-blackTrees.cpp:209-218 | The mirror of `StepOuterLeft`. |
| Insertion.StepInnerLeft | red-blackTrees.cpp:189-198 | Black uncle, inner child: the left rotation at the parent, then the outer-case tail on the re-read parent, represent the algebraic double rotation. |
| Insertion.StepInnerRight | red-blackTrees.cpp:209-218 | The mirror of `StepInnerLeft`. |
| Insertion.OuterTailLeft | red-blackTrees.cpp:195-197 | Colouring the parent black and the grandparent red, then rotating right at the grandparent, represents the rotated and recoloured subtree. |
| Insertion.OuterTailRight | red-blackTrees.cpp:215-217 | The mirror of `OuterTailLeft`. |
| Insertion.StepFacts | red-blackTrees.cpp:177-181 | On a represented tree the parent, grandparent and uncle read by the loop body are the context's nodes, and the branch tests agree with the zipper's shape. |
| Insertion.GuardFacts | red-blackTrees.cpp:176 | The loop guard "parent is red" agrees with `ParentRed`, and is false at the root because the sentinel is black. |
| Insertion.LoopStops | red-blackTrees.cpp:176 | When the parent is black, the arena loop and the algebraic loop both stop at once and leave the tree as it is. |
| Insertion.LoopAdvance | red-blackTrees.cpp:176-219 | One iteration of the corrected loop (parent re-read after the inner rotation) from a represented tree that keeps `FixInv` leads to a represented tree that keeps it, one level closer to the root, from which the corrected loop reaches the same final tree. |
| Insertion.InsertLoopPlug | red-blackTrees.cpp:176-220 | Under `FixInv` and with enough fuel, the corrected arena loop performs the algebraic loop `FixLoop`. |
| Insertion.DescendPath | red-blackTrees.cpp:366-376 | The arena descent returns the record that owns the hole of the algebraic descent position. |
| Insertion.AttachPlug | red-blackTrees.cpp:361-386 | Allocating the red node and linking it under the descent's last node represents the tree with `NewLeaf` plugged at the descent position. |
| Insertion.InsertPlug | red-blackTrees.cpp:361-389 | The corrected `insert` on a red-black tree represents the algebraic `InsertTree`. |
| Insertion.InsertCorrect | red-blackTrees.cpp:361-389 | The corrected `insert` on a valid red-black arena gives a valid red-black arena with the sentinel intact. Its keys are the old ones plus `v`. When the keys are sorted, `v` is placed after equal keys and the keys stay sorted. |
| Scenarios.TwoKeysBuilt | red-blackTrees.cpp:361-389 | `insert(1); insert(3)` on a new tree, with the code as written, gives a black 1 with a red right child 3, a valid red-black tree. |
| Scenarios.AttachTwoKeys | red-blackTrees.cpp:361-386 | Attaching 2 to that tree makes it the red left child of 3. |
| Scenarios.FirstPassAsWritten | red-blackTrees.cpp:209-217 | The first loop iteration as written rotates at 3, then recolours the stale `parent` (record 2, now the lower node) and leaves a red root over a red child. |
| Scenarios.SecondPassAsWritten | red-blackTrees.cpp:209-217 | The second iteration has the sentinel as grandparent: it colours the sentinel red and rotates at it, which makes the sentinel the root. |
| Scenarios.AsWrittenInsertLosesTree | red-blackTrees.cpp:190-197 | `insert(2)` as written on the red-black tree {1, 3} ends with the root pointer on the sentinel, so the resulting tree holds no keys. |
| Scenarios.CorrectedInsertKeepsTree | red-blackTrees.cpp:361-389 | The corrected `insert(2)` on the same tree gives a valid tree holding 1, 2, 3 in order. |
| RemoveShape.LocateFind | red-blackTrees.cpp:420-422 | The position `remove` works on is the node `search` finds, and that node holds the value. When there is no such node the position is a leaf. |
| RemoveShape.LeftSpinePlug | red-blackTrees.cpp:439-440 | The successor loop ends at the leftmost node of the right subtree. That node has no left child, and it is the right child itself exactly when the right child has no left child. |
| RemoveShape.SplicedIds | red-blackTrees.cpp:424-464 | Unlinking drops exactly the removed node's record from the tree, and keeps nodes distinct. |
| RemoveShape.XTreeRedOrLeaf | red-blackTrees.cpp:424-443 | In a tree obeying rule 4, the subtree `x` that moves up is the sentinel or a red node. |
| RemoveShape.UnlinkInOrder | red-blackTrees.cpp:424-462 | On sorted keys, unlinking a node deletes the first occurrence of its key from the in-order sequence. |
| RemoveShape.RemoveTreeInOrder | red-blackTrees.cpp:419-468 | On sorted keys, algebraic removal deletes the first occurrence of `v`, and changes nothing when `v` is absent. |
| Removal.FindSuccessor | red-blackTrees.cpp:437-440 | For a node with two children, the successor loop started at its right link stops at the algebraic successor `Succ`, the leftmost node of the right subtree. |
| RemoveShape.SuccessorInOrder | red-blackTrees.cpp:437-440 | The keys of the right subtree are the successor's key followed by the keys of what remains once the successor is cut out. |
| Removal.SuccessorSpine | red-blackTrees.cpp:439-440 | With enough fuel, the arena successor loop ends at the algebraic leftmost node. |
| Removal.PromotePlug | red-blackTrees.cpp:456-461 | A successor without a left child, moved into `z`'s slot, takes `z`'s left subtree and colour and keeps its right subtree. The arena then represents the tree with that node in `z`'s place. |
| Removal.AdoptRight | red-blackTrees.cpp:451-453 | The successor takes `z`'s right subtree as its right child and becomes that subtree's parent, and nothing around `z` changes. |
| Removal.DetachSuccessor | red-blackTrees.cpp:437-450 | A successor deeper than `z`'s right child is found by the loop. `replaceSubtree(y, y->right)` then takes it out of the tree. |
| Removal.UnlinkOneChild | red-blackTrees.cpp:428-435 | A node with a missing child is replaced by its other subtree. `x` is that subtree and `colorY` is the node's colour. |
| Removal.UnlinkNearSuccessor | red-blackTrees.cpp:445-448 | When the successor is `z`'s right child, setting `x`'s parent changes nothing. The successor then takes `z`'s place with `z`'s left subtree and colour. |
| Removal.UnlinkDeepSuccessor | red-blackTrees.cpp:449-461 | When the successor lies deeper, its right subtree takes its place and it takes `z`'s place and both of `z`'s subtrees. |
| Removal.UnlinkPlug | red-blackTrees.cpp:424-462 | The unlinking part of `remove` represents `Spliced(z)` in `z`'s place. `x` is the subtree that moved up and `colorY` is the colour of the node that left. |
| Removal.RebalanceRedOrLeaf | red-blackTrees.cpp:225-306 | When `x` is the sentinel or red, `removeRebalance` skips its loop and only blackens `x`. |
| Removal.RemovePlug | red-blackTrees.cpp:419-468 | On an arena whose tree obeys rule 4, `remove(v)` represents the algebraic removal `RemoveTree`. |
| Removal.RemoveCorrect | red-blackTrees.cpp:419-468 | `remove(v)` on a valid arena with sorted keys whose tree obeys rule 4 gives a valid arena with the sentinel intact. Exactly one copy of `v` leaves the keys, which stay sorted, and removing an absent value changes nothing. |
| Usage.InsertAllCorrect | red-blackTrees.cpp:361-389 | Inserting a sequence of values with the corrected `insert` into a valid red-black arena with sorted keys gives a valid red-black arena with sorted keys, holding the old keys plus exactly those values. |
| Usage.Built | red-blackTrees.cpp:104-110 | A tree built by the constructor and any sequence of corrected inserts is a valid red-black tree whose sorted keys are exactly the inserted values. |
| Usage.BuiltThenRemoved | red-blackTrees.cpp:419-468 | Removing `v` (with `remove` as written) from such a tree gives a valid arena whose sorted keys are the inserted values less one copy of `v`. |
| RemoveScenarios.AsWrittenRemoveBreaksBlackHeight | red-blackTrees.cpp:226 | Removing the black leaf 1 from the red-black tree 2(1, 3(-, 4)) leaves a valid tree holding 2, 3, 4 that breaks rule 4: the loop guard stops on the sentinel. |
| RemoveScenarios.NearRedLeftRereadsOldSibling | red-blackTrees.cpp:245-252 | After the right rotation at the sibling, `sibling->getParent()->getRightNode()` is the old sibling again, not the parent's new right child. |

## Left out

- Printing (`printTreeHelper`, `printTree`), `main`, and the destructor
  with `deleteTree` are left out: they do only output and memory
  release. `delete z` in `remove` is modelled by leaving the record in the
  arena, unreachable.
- The getters and setters of `Node` are record field reads and updates:
  `SetLeft`, `SetRight`, `SetParent` and `SetColor`.
- Loops take the number of records as fuel. `SearchFuel`, `SuccessorSpine`
  and `DescendPath` show that the fuel is never exhausted on a represented
  tree, and `InsertLoopPlug` shows it for the corrected insert fix-up loop
  under `FixInv`. No lemma bounds the fuel of the as-written insert fix-up
  loop (`Insertion.InsertLoop` with `AsWritten`), nor of `Removal.RemoveLoop`
  on an arena whose tree breaks rule 4, which `remove` as written can
  produce (`RemoveScenarios.AsWrittenRemoveBreaksBlackHeight`). On a malformed arena (a cycle of links) the source
  would loop forever; the model stops instead.
- Insertion.Insert: the proofs are about the `Corrected` variant. The
  `AsWritten` variant is only evaluated, inside lemmas, on the concrete
  input of the Findings row.
- Rotation.RotateLeft and Rotation.RotateRight: their contracts state only
  closure and size. What they write is stated by `RotateLeftFrame`,
  `RotateLeftWrites` and their mirrors.
- Insertion.Attach: its contract states only closure and the new size. What
  it builds is stated by `Insertion.AttachPlug`.
- Removal.RemoveCorrect: requires the tree to obey rule 4, as every
  red-black tree does. It promises the keys and well-formedness, not the
  red-black rules afterwards. As written, `remove` can break rule 4
  (`RemoveScenarios.AsWrittenRemoveBreaksBlackHeight`).
- Removal.RemoveStep: the deficit cases of `removeRebalance` are modelled
  but carry no proof. From a tree obeying rule 4 the subtree `x` that moves
  up is always the sentinel or red (`RemoveShape.XTreeRedOrLeaf`), so the
  loop body never runs there.
- Values are unbounded integers; the source's `int` is 32-bit, but no
  arithmetic is done on values, only comparisons.

## Findings

| source | as written | input that shows it | evidently intended | confidence | as-written member | corrected member |
|---|---|---|---|---|---|---|
| red-blackTrees.cpp:190-197 and 210-217 | After `node = parent; rotateLeft(node);` the code colours the local `parent` black. That is the old parent, which the rotation has just moved below the current node. | `insert(1); insert(3); insert(2);`. The first iteration leaves a red root over a red child. The next iteration finds the sentinel as grandparent, colours it red and rotates at it, and the root becomes the sentinel. | Re-read `parent = node->getParent()` after the rotation, so the node that rose is coloured black. | not executed | Scenarios.AsWrittenInsertLosesTree | Insertion.InsertCorrect |
