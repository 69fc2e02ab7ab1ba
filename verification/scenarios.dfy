/** Lemmas that evaluate the model on small inputs and pin down what the
    code of red-blackTrees.cpp does there, where it departs from the
    textbook algorithm. */
module Scenarios {
  import opened Arena
  import opened Shape
  import opened Represent
  import opened Keys
  import opened Rotation
  import opened Insertion

  /** The arena after `insert(1); insert(3);` on a new tree: a black 1 with
      a red right child 3. */
  const TwoKeys: RedBlackTree :=
    RedBlackTree([Sentinel, Node(1, Black, NIL, 2, NIL), Node(3, Red, NIL, NIL, 1)], 1)

  const TwoKeysTree: Tree := Branch(Leaf, 1, 1, Black, Branch(Leaf, 2, 3, Red, Leaf))

  lemma TwoKeysBuilt()
    ensures Insert(Insert(Empty(), 1, AsWritten), 3, AsWritten) == TwoKeys
    ensures Represents(TwoKeys, TwoKeysTree) && IsRedBlack(TwoKeysTree)
  {
  }

  /** `insert(2)` on `TwoKeys` before rebalancing: the new record 3 (key 2)
      is the red left child of record 2 (key 3). */
  const Attached: RedBlackTree :=
    RedBlackTree([Sentinel, Node(1, Black, NIL, 2, NIL), Node(3, Red, 3, NIL, 1),
                  Node(2, Red, NIL, NIL, 2)], 1)

  /** After the first loop iteration as written: record 3 (key 2) is a red
      root whose left child, record 1, is red as well. */
  const FirstPass: RedBlackTree :=
    RedBlackTree([Sentinel, Node(1, Red, NIL, NIL, 3), Node(3, Black, NIL, NIL, 3),
                  Node(2, Red, 1, 2, NIL)], 3)

  /** After the second iteration as written: the grandparent was the
      sentinel; it has been recoloured red and rotated into the root. */
  const SecondPass: RedBlackTree :=
    RedBlackTree([Node(0, Red, NIL, NIL, NIL), Node(1, Red, NIL, NIL, 3),
                  Node(3, Black, NIL, NIL, 3), Node(2, Black, 1, 2, NIL)], NIL)

  lemma AttachTwoKeys()
    ensures Attach(TwoKeys, 2) == Attached
  {
    var t0 := TwoKeys.(nodes := TwoKeys.nodes + [Node(2, Red, NIL, NIL, NIL)]);
    assert Descend(t0, 2, NIL, 2, 2) == 2;
    assert Descend(t0, 2, NIL, 1, 4) == 2;
  }

  /** The inner case with the stale `parent`: after the right rotation at
      record 2 it is record 2, now the lower node, that turns black. */
  lemma FirstPassAsWritten()
    ensures InsertStep(Attached, 3, AsWritten) == (FirstPass, 2)
  {
    var r1 := RedBlackTree([Sentinel, Node(1, Black, NIL, 3, NIL), Node(3, Red, NIL, NIL, 3),
                            Node(2, Red, NIL, 2, 1)], 1);
    assert RotateRight(Attached, 2) == r1;
    var r2 := RedBlackTree([Sentinel, Node(1, Red, NIL, 3, NIL), Node(3, Black, NIL, NIL, 3),
                            Node(2, Red, NIL, 2, 1)], 1);
    assert Recolor2(r1, 2, 1) == r2;
    assert RotateLeft(r2, 1) == FirstPass;
    assert StepRight(Attached, 3, 2, 1, AsWritten) == (FirstPass, 2);
  }

  lemma SecondPassAsWritten()
    ensures InsertStep(FirstPass, 2, AsWritten) == (SecondPass, 2)
  {
    var q := SecondPass.(root := 3);
    assert Recolor2(FirstPass, 3, NIL) == q;
    assert RotateLeft(q, NIL) == SecondPass;
    assert StepRight(FirstPass, 2, 3, NIL, AsWritten) == (SecondPass, 2);
  }

  /** The two-key arena is valid and holds the red-black tree 1, 3. */
  lemma TwoKeysValid()
    ensures Valid(TwoKeys) && Abs(TwoKeys) == TwoKeysTree
    ensures IsRedBlack(Abs(TwoKeys)) && InOrder(Abs(TwoKeys)) == [1, 3]
  {
    TwoKeysBuilt();
    AbsIs(TwoKeys, TwoKeysTree);
  }

  /** The whole as-written `insert(2)`: the final blackening of the root
      paints the sentinel, which the second pass made the root. */
  lemma InsertTwoAsWritten()
    ensures Insert(TwoKeys, 2, AsWritten) == SetColor(SecondPass, NIL, Black)
    ensures Insert(TwoKeys, 2, AsWritten).root == NIL
  {
    AttachTwoKeys();
    FirstPassAsWritten();
    SecondPassAsWritten();
    assert InsertLoop(SecondPass, 2, AsWritten, 2) == SecondPass;
    assert InsertLoop(Attached, 3, AsWritten, 4) == SecondPass;
  }

  /** `insert(2)` as written takes the black-uncle, inner-child branch,
      recolours the stale `parent`, and on the next iteration rotates at the
      sentinel, which makes the sentinel the root: the tree loses all three
      keys, where a correct insert would hold 1, 2, 3. */
  lemma AsWrittenInsertLosesTree()
    ensures Valid(TwoKeys) && IsRedBlack(Abs(TwoKeys)) && InOrder(Abs(TwoKeys)) == [1, 3]
    ensures Insert(TwoKeys, 2, AsWritten).root == NIL
    ensures Valid(Insert(TwoKeys, 2, AsWritten)) ==> InOrder(Abs(Insert(TwoKeys, 2, AsWritten))) == []
  {
    TwoKeysValid();
    InsertTwoAsWritten();
    RootlessEmpty(Insert(TwoKeys, 2, AsWritten));
  }

  /** An arena whose root is the sentinel represents, if anything, the
      empty tree. */
  lemma RootlessEmpty(t: RedBlackTree)
    requires t.root == NIL
    ensures Valid(t) ==> InOrder(Abs(t)) == []
  {
    if Valid(t) {
      assert RootRef(Abs(t)) == NIL;
    }
  }

  /** Inserting 2 with the corrected loop into any valid red-black tree
      holding 1, 3 gives 1, 2, 3. */
  lemma InsertBetween(t: RedBlackTree)
    requires Valid(t) && IsRedBlack(Abs(t)) && InOrder(Abs(t)) == [1, 3]
    ensures Valid(Insert(t, 2, Corrected))
    ensures InOrder(Abs(Insert(t, 2, Corrected))) == [1, 2, 3]
  {
    BetweenKeys();
    InsertCorrect(t, 2);
  }

  lemma BetweenKeys()
    ensures Sorted([1, 3]) && UpperInsert([1, 3], 2) == [1, 2, 3]
  {
    assert [1, 3][1..] == [3];
  }

  /** The corrected insert on the same input keeps all three keys in order. */
  lemma CorrectedInsertKeepsTree()
    ensures Valid(Insert(TwoKeys, 2, Corrected))
    ensures InOrder(Abs(Insert(TwoKeys, 2, Corrected))) == [1, 2, 3]
  {
    TwoKeysValid();
    InsertBetween(TwoKeys);
  }
}
