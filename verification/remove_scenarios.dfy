/** What `remove` and `removeRebalance` of red-blackTrees.cpp do where they
    depart from the textbook deletion. */
module RemoveScenarios {
  import opened Arena
  import opened Shape
  import opened Represent
  import opened Rotation
  import opened RemoveShape
  import opened Removal

  /** A red-black tree with keys 1..4: black 2 at the root, a black leaf 1 on
      its left, a black 3 with a red right child 4 on its right. */
  const FourKeys: RedBlackTree :=
    RedBlackTree([Sentinel, Node(2, Black, 2, 3, NIL), Node(1, Black, NIL, NIL, 1),
                  Node(3, Black, NIL, 4, 1), Node(4, Red, NIL, NIL, 3)], 1)

  const FourKeysTree: Tree :=
    Branch(Branch(Leaf, 2, 1, Black, Leaf), 1, 2, Black,
           Branch(Leaf, 3, 3, Black, Branch(Leaf, 4, 4, Red, Leaf)))

  /** The four-key arena holds a red-black tree. */
  lemma FourKeysRedBlack()
    ensures Represents(FourKeys, FourKeysTree) && IsRedBlack(FourKeysTree)
  {
  }

  /** Removing the black leaf 1 unlinks it with `x` the sentinel; the loop
      guard of `removeRebalance` (line 226) stops at once on the sentinel, so
      nothing makes up for the black node that left: the paths through the
      root's left link now meet one black node fewer than those on its right. */
  lemma AsWrittenRemoveBreaksBlackHeight()
    ensures Represents(FourKeys, FourKeysTree) && IsRedBlack(FourKeysTree)
    ensures Valid(Remove(FourKeys, 1)) && InOrder(Abs(Remove(FourKeys, 1))) == [2, 3, 4]
    ensures !Balanced(Abs(Remove(FourKeys, 1)))
  {
    FourKeysRedBlack();
    var after := FourKeysWithoutOne();
    assert InOrder(after) == [2, 3, 4];
    assert !Balanced(after);
  }

  /** The algebraic removal of 1 from the four-key tree, which the arena
      removal follows. */
  lemma FourKeysWithoutOne() returns (after: Tree)
    ensures after == Branch(Leaf, 1, 2, Black, Branch(Leaf, 3, 3, Black, Branch(Leaf, 4, 4, Red, Leaf)))
    ensures Valid(Remove(FourKeys, 1)) && Abs(Remove(FourKeys, 1)) == after
  {
    FourKeysRedBlack();
    RemovePlug(FourKeys, FourKeysTree, 1);
    after := Branch(Leaf, 1, 2, Black, Branch(Leaf, 3, 3, Black, Branch(Leaf, 4, 4, Red, Leaf)));
    assert RemoveTree(FourKeysTree, 1) == after;
    AbsIs(Remove(FourKeys, 1), after);
  }

  /** Line 252 re-reads the sibling as `sibling->getParent()->getRightNode()`
      after the right rotation at the sibling. Whenever that branch runs on a
      well-formed arena, the rotation has made the sibling the right child
      of its former left child, so the expression names the old sibling
      again, not the parent's new right child. */
  lemma NearRedLeftRereadsOldSibling(t: RedBlackTree, c: Ctx, N: Tree, p: Ref, kp: int, pc: Color, S: Tree)
    requires Represents(t, Plug(c, Branch(N, p, kp, pc, S))) && S.Branch? && S.left.Branch?
    ensures S.id < |t.nodes| && p < |t.nodes|
    ensures NearRedLeft(t, S.id).1 == S.id
    ensures NearRedLeft(t, S.id).0.nodes[p].right == S.left.id != S.id
  {
    var up := RightChildOf(N, p, kp, pc, c);
    assert Plug(up, S) == Plug(c, Branch(N, p, kp, pc, S));
    var below := LeftChildOf(up, S.id, S.key, S.color, S.right);
    assert Plug(below, S.left) == Plug(up, S);
    RecolorPlug(t, below, S.left, Black);
    assert S.left.id != NIL by {
      ReprPlug(t.nodes, below, S.left, t.root);
    }
    var t1 := SetColor(t, S.left.id, Black);
    var S1 := S.(left := Recolor(S.left, Black));
    assert Represents(t1, Plug(up, S1));
    RecolorPlug(t1, up, S1, Red);
    var S2 := Recolor(S1, Red);
    var t2 := SetColor(t1, S.id, Red);
    RotateRightPlug(t2, up, S2);
    var r := RotateRight(t2, S.id);
    ReprPlug(r.nodes, up, RotR(S2), r.root);
    assert r.nodes[S.id].parent == S.left.id;
    assert r.nodes[S.left.id].right == S.id;
    assert Parent(up) == p;
    PlugDistinct(c, Branch(N, p, kp, pc, S));
    assert S.left.id in Ids(S.left);
  }
}
