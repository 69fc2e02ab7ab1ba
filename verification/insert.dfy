/** `insert` and `insertRebalance` (red-blackTrees.cpp:175-223, 361-389) on
    the arena, statement by statement, and the proof that they carry out the
    algebraic insertion of `InsertTree`. */
module Insertion {
  import opened Arena
  import opened Shape
  import opened Represent
  import opened Rotation
  import opened Keys
  import opened InsertShape

  /** Which reading of the black-uncle, inner-child case to run. After
      `node = parent; rotateLeft(node);` the local `parent` still names the
      old parent, which the rotation has moved below `node`'s old position.
      `AsWritten` recolours and rotates with that stale pointer, as
      red-blackTrees.cpp:190-197 and 210-217 do; `Corrected` re-reads
      `parent` as the parent of the new `node`, as the textbook algorithm
      does. */
  datatype Variant = AsWritten | Corrected

  /** One iteration of the `insertRebalance` loop body, returning the arena
      and the new value of `node`. */
  function InsertStep(t: RedBlackTree, node: Ref, variant: Variant): (r: (RedBlackTree, Ref))
    requires t.Closed() && node < |t.nodes|
    ensures r.0.Closed() && |r.0.nodes| == |t.nodes| && r.1 < |t.nodes|
  {
    var parent := t.nodes[node].parent;
    var grandparent := t.nodes[parent].parent;
    if parent == t.nodes[grandparent].left then StepLeft(t, node, parent, grandparent, variant)
    else StepRight(t, node, parent, grandparent, variant)
  }

  /** The loop body when the parent is a left child (lines 180-199). */
  function StepLeft(t: RedBlackTree, node: Ref, parent: Ref, grandparent: Ref, variant: Variant): (r: (RedBlackTree, Ref))
    requires t.Closed() && node < |t.nodes| && parent < |t.nodes| && grandparent < |t.nodes|
    ensures r.0.Closed() && |r.0.nodes| == |t.nodes| && r.1 < |t.nodes|
  {
    var uncle := t.nodes[grandparent].right;
    if t.nodes[uncle].color == Red then
      (Recolor3(t, parent, uncle, grandparent), grandparent)
    else
      var inner := node == t.nodes[parent].right;
      var node1 := if inner then parent else node;
      var t1 := if inner then RotateLeft(t, node1) else t;
      var parent1 := if inner && variant == Corrected then t1.nodes[node1].parent else parent;
      (RotateRight(Recolor2(t1, parent1, grandparent), grandparent), node1)
  }

  /** The loop body when the parent is a right child (lines 200-219). */
  function StepRight(t: RedBlackTree, node: Ref, parent: Ref, grandparent: Ref, variant: Variant): (r: (RedBlackTree, Ref))
    requires t.Closed() && node < |t.nodes| && parent < |t.nodes| && grandparent < |t.nodes|
    ensures r.0.Closed() && |r.0.nodes| == |t.nodes| && r.1 < |t.nodes|
  {
    var uncle := t.nodes[grandparent].left;
    if t.nodes[uncle].color == Red then
      (Recolor3(t, parent, uncle, grandparent), grandparent)
    else
      var inner := node == t.nodes[parent].left;
      var node1 := if inner then parent else node;
      var t1 := if inner then RotateRight(t, node1) else t;
      var parent1 := if inner && variant == Corrected then t1.nodes[node1].parent else parent;
      (RotateLeft(Recolor2(t1, parent1, grandparent), grandparent), node1)
  }

  /** Red uncle: parent and uncle turn black, grandparent red. */
  function Recolor3(t: RedBlackTree, parent: Ref, uncle: Ref, grandparent: Ref): (r: RedBlackTree)
    requires t.Closed() && parent < |t.nodes| && uncle < |t.nodes| && grandparent < |t.nodes|
    ensures r.Closed() && |r.nodes| == |t.nodes|
  {
    SetColor(SetColor(SetColor(t, parent, Black), uncle, Black), grandparent, Red)
  }

  /** Black uncle, before the rotation at the grandparent: parent black,
      grandparent red. */
  function Recolor2(t: RedBlackTree, parent: Ref, grandparent: Ref): (r: RedBlackTree)
    requires t.Closed() && parent < |t.nodes| && grandparent < |t.nodes|
    ensures r.Closed() && |r.nodes| == |t.nodes|
  {
    SetColor(SetColor(t, parent, Black), grandparent, Red)
  }

  /** The loop `while (node->getParent()->getColor() == Red)`, cut off after
      `fuel` iterations. */
  function InsertLoop(t: RedBlackTree, node: Ref, variant: Variant, fuel: nat): (r: RedBlackTree)
    requires t.Closed() && node < |t.nodes|
    ensures r.Closed() && |r.nodes| == |t.nodes|
    decreases fuel
  {
    if t.nodes[t.nodes[node].parent].color != Red || fuel == 0 then t
    else
      var (t', node') := InsertStep(t, node, variant);
      InsertLoop(t', node', variant, fuel - 1)
  }

  /** `insertRebalance(node)`: the loop, then `root->setColor(Black)`. The
      fuel is the number of records, enough for any represented tree
      (`InsertLoopPlug`). */
  function InsertRebalance(t: RedBlackTree, node: Ref, variant: Variant): (r: RedBlackTree)
    requires t.Closed() && node < |t.nodes|
    ensures r.Closed() && |r.nodes| == |t.nodes|
  {
    var t1 := InsertLoop(t, node, variant, |t.nodes|);
    SetColor(t1, t1.root, Black)
  }

  /** The descent loop of `insert`: from `x` (whose parent is `y`) go left
      below keys greater than `v`, right otherwise, until the sentinel;
      the result is the last real node passed, the new node's parent. */
  function Descend(t: RedBlackTree, v: int, y: Ref, x: Ref, fuel: nat): (r: Ref)
    requires t.Closed() && y < |t.nodes| && x < |t.nodes|
    ensures r < |t.nodes|
    decreases fuel
  {
    if x == NIL || fuel == 0 then y
    else if v < t.nodes[x].key then Descend(t, v, x, t.nodes[x].left, fuel - 1)
    else Descend(t, v, x, t.nodes[x].right, fuel - 1)
  }

  /** `insert(v)` up to the rebalancing call: allocate a red node with
      sentinel children at the next free index, find its parent, and link it
      in as the root or as the left or right child. */
  function Attach(t: RedBlackTree, v: int): (r: RedBlackTree)
    requires t.Closed()
    ensures r.Closed() && |r.nodes| == |t.nodes| + 1
  {
    var n := |t.nodes|;
    var t0 := t.(nodes := t.nodes + [Node(v, Red, NIL, NIL, NIL)]);
    var y := Descend(t0, v, NIL, t0.root, |t0.nodes|);
    var t1 := SetParent(t0, n, y);
    if y == NIL then t1.(root := n)
    else if v < t1.nodes[y].key then SetLeft(t1, y, n)
    else SetRight(t1, y, n)
  }

  /** `insert(v)`. */
  function Insert(t: RedBlackTree, v: int, variant: Variant): (r: RedBlackTree)
    requires t.Closed()
    ensures r.Closed() && |r.nodes| == |t.nodes| + 1
  {
    InsertRebalance(Attach(t, v), |t.nodes|, variant)
  }

  // ---------------------------------------------------------------------------
  // Reading the tree off the records.

  /** The record a subtree's root pointer names has the subtree's colour;
      for a leaf it is the black sentinel. */
  lemma ColorAt(a: seq<Node>, q: Ref, u: Tree)
    requires Repr(a, q, u) && |a| > 0 && a[NIL] == Sentinel
    ensures RootRef(u) < |a| && a[RootRef(u)].color == ColorOf(u)
  {
  }

  /** The links the loop body follows, read off a represented tree whose
      current node `z` has a parent and a grandparent. */
  lemma StepFacts(t: RedBlackTree, c: Ctx, z: Tree)
    requires Represents(t, Plug(c, z)) && z.Branch? && !c.Top? && !c.up.Top?
    ensures z.id < |t.nodes| && c.id < |t.nodes| && c.up.id < |t.nodes|
    ensures t.nodes[z.id].parent == c.id && t.nodes[c.id].parent == c.up.id
    ensures t.nodes[c.up.id].left == c.id <==> c.up.LeftChildOf?
    ensures c.up.LeftChildOf? ==> t.nodes[c.up.id].right == RootRef(c.up.sibling)
    ensures c.up.RightChildOf? ==> t.nodes[c.up.id].left == RootRef(c.up.sibling)
    ensures RootRef(c.up.sibling) < |t.nodes|
    ensures t.nodes[RootRef(c.up.sibling)].color == ColorOf(c.up.sibling)
    ensures t.nodes[c.id].right == z.id <==> c.RightChildOf?
    ensures t.nodes[c.id].left == z.id <==> c.LeftChildOf?
  {
    var a := t.nodes;
    ReprPlug(a, c, z, t.root);
    PlugDistinct(c, z);
    assert CtxRepr(a, c.up, c.id, t.root);
    assert c.id !in Ids(c.up.sibling) && z.id !in Ids(c.sibling);
    ColorAt(a, c.up.id, c.up.sibling);
  }

  /** The loop guard agrees with `ParentRed`. */
  lemma GuardFacts(t: RedBlackTree, c: Ctx, z: Tree)
    requires Represents(t, Plug(c, z)) && z.Branch?
    ensures z.id < |t.nodes| && t.nodes[z.id].parent < |t.nodes|
    ensures t.nodes[t.nodes[z.id].parent].color == Red <==> ParentRed(c)
  {
    ReprPlug(t.nodes, c, z, t.root);
  }

  // ---------------------------------------------------------------------------
  // Each case of the corrected loop body performs `FixStep`.

  lemma StepRecolorLeft(t: RedBlackTree, c: Ctx, z: Tree)
    requires Represents(t, Plug(c, z)) && z.Branch? && !c.Top? && !c.up.Top?
    requires c.up.LeftChildOf? && ColorOf(c.up.sibling) == Red
    ensures z.id < |t.nodes|
    ensures InsertStep(t, z.id, Corrected).1 == FixStep(c, z).1.id
    ensures Represents(InsertStep(t, z.id, Corrected).0, Plug(FixStep(c, z).0, FixStep(c, z).1))
  {
    StepFacts(t, c, z);
    var LeftChildOf(cg, g, kg, gc, u) := c.up;
    var P := Up(c, z);
    UpPlug(c, z);
    RecolorPlug(t, c.up, P, Black);
    var t1 := SetColor(t, c.id, Black);
    var cu := RightChildOf(Blacken(P), g, kg, gc, cg);
    assert Plug(c.up, Recolor(P, Black)) == Plug(cu, u);
    RecolorPlug(t1, cu, u, Black);
    var t2 := SetColor(t1, u.id, Black);
    var G := Branch(Blacken(P), g, kg, gc, Blacken(u));
    assert Plug(cu, Recolor(u, Black)) == Plug(cg, G);
    RecolorPlug(t2, cg, G, Red);
    assert InsertStep(t, z.id, Corrected) == (SetColor(t2, g, Red), g);
  }

  lemma StepRecolorRight(t: RedBlackTree, c: Ctx, z: Tree)
    requires Represents(t, Plug(c, z)) && z.Branch? && !c.Top? && !c.up.Top?
    requires c.up.RightChildOf? && ColorOf(c.up.sibling) == Red
    ensures z.id < |t.nodes|
    ensures InsertStep(t, z.id, Corrected).1 == FixStep(c, z).1.id
    ensures Represents(InsertStep(t, z.id, Corrected).0, Plug(FixStep(c, z).0, FixStep(c, z).1))
  {
    StepFacts(t, c, z);
    var RightChildOf(u, g, kg, gc, cg) := c.up;
    var P := Up(c, z);
    UpPlug(c, z);
    RecolorPlug(t, c.up, P, Black);
    var t1 := SetColor(t, c.id, Black);
    var cu := LeftChildOf(cg, g, kg, gc, Blacken(P));
    assert Plug(c.up, Recolor(P, Black)) == Plug(cu, u);
    RecolorPlug(t1, cu, u, Black);
    var t2 := SetColor(t1, u.id, Black);
    var G := Branch(Blacken(u), g, kg, gc, Blacken(P));
    assert Plug(cu, Recolor(u, Black)) == Plug(cg, G);
    RecolorPlug(t2, cg, G, Red);
    assert InsertStep(t, z.id, Corrected) == (SetColor(t2, g, Red), g);
  }

  /** The outer case on the left, and the tail of the inner case once its
      first rotation has made it an outer case: recolour the parent and the
      grandparent, rotate right at the grandparent. */
  lemma OuterTailLeft(t: RedBlackTree, cg: Ctx, P: Tree, g: Ref, kg: int, gc: Color, u: Tree)
    requires Represents(t, Plug(cg, Branch(P, g, kg, gc, u))) && P.Branch?
    ensures P.id < |t.nodes| && g < |t.nodes|
    ensures Represents(RotateRight(Recolor2(t, P.id, g), g),
                       Plug(cg, Branch(P.left, P.id, P.key, Black, Branch(P.right, g, kg, Red, u))))
  {
    var cp := LeftChildOf(cg, g, kg, gc, u);
    assert Plug(cg, Branch(P, g, kg, gc, u)) == Plug(cp, P);
    RecolorPlug(t, cp, P, Black);
    var t1 := SetColor(t, P.id, Black);
    var G := Branch(Recolor(P, Black), g, kg, gc, u);
    assert Plug(cp, Recolor(P, Black)) == Plug(cg, G);
    RecolorPlug(t1, cg, G, Red);
    var t2 := SetColor(t1, g, Red);
    RotateRightPlug(t2, cg, Recolor(G, Red));
  }

  lemma OuterTailRight(t: RedBlackTree, cg: Ctx, u: Tree, g: Ref, kg: int, gc: Color, P: Tree)
    requires Represents(t, Plug(cg, Branch(u, g, kg, gc, P))) && P.Branch?
    ensures P.id < |t.nodes| && g < |t.nodes|
    ensures Represents(RotateLeft(Recolor2(t, P.id, g), g),
                       Plug(cg, Branch(Branch(u, g, kg, Red, P.left), P.id, P.key, Black, P.right)))
  {
    var cp := RightChildOf(u, g, kg, gc, cg);
    assert Plug(cg, Branch(u, g, kg, gc, P)) == Plug(cp, P);
    RecolorPlug(t, cp, P, Black);
    var t1 := SetColor(t, P.id, Black);
    var G := Branch(u, g, kg, gc, Recolor(P, Black));
    assert Plug(cp, Recolor(P, Black)) == Plug(cg, G);
    RecolorPlug(t1, cg, G, Red);
    var t2 := SetColor(t1, g, Red);
    RotateLeftPlug(t2, cg, Recolor(G, Red));
  }

  /** Black uncle, parent on the left, node on the left. */
  lemma StepOuterLeft(t: RedBlackTree, c: Ctx, z: Tree)
    requires Represents(t, Plug(c, z)) && z.Branch? && !c.Top? && !c.up.Top?
    requires c.up.LeftChildOf? && ColorOf(c.up.sibling) == Black && c.LeftChildOf?
    ensures z.id < |t.nodes|
    ensures InsertStep(t, z.id, Corrected).1 == FixStep(c, z).1.id
    ensures Represents(InsertStep(t, z.id, Corrected).0, Plug(FixStep(c, z).0, FixStep(c, z).1))
  {
    StepFacts(t, c, z);
    var LeftChildOf(cg, g, kg, gc, u) := c.up;
    var LeftChildOf(_, p, kp, pc, s) := c;
    var P := Branch(z, p, kp, pc, s);
    assert Plug(c, z) == Plug(cg, Branch(P, g, kg, gc, u));
    OuterTailLeft(t, cg, P, g, kg, gc, u);
    assert InsertStep(t, z.id, Corrected) == StepLeft(t, z.id, p, g, Corrected);
    assert StepLeft(t, z.id, p, g, Corrected) == (RotateRight(Recolor2(t, p, g), g), z.id);
    var c' := LeftChildOf(cg, p, kp, Black, Branch(s, g, kg, Red, u));
    assert FixStep(c, z) == (c', z);
    assert Plug(c', z) == Plug(cg, Branch(z, p, kp, Black, Branch(s, g, kg, Red, u)));
  }

  /** The inner case of the corrected loop body, parent on the left. */
  lemma UnfoldInnerLeft(t: RedBlackTree, node: Ref, parent: Ref, g: Ref)
    requires t.Closed() && node < |t.nodes| && parent < |t.nodes| && g < |t.nodes|
    requires t.nodes[t.nodes[g].right].color != Red && node == t.nodes[parent].right
    ensures var t1 := RotateLeft(t, parent);
            StepLeft(t, node, parent, g, Corrected) == (RotateRight(Recolor2(t1, t1.nodes[parent].parent, g), g), parent)
  {
  }

  /** The inner case of the corrected loop body, parent on the right. */
  lemma UnfoldInnerRight(t: RedBlackTree, node: Ref, parent: Ref, g: Ref)
    requires t.Closed() && node < |t.nodes| && parent < |t.nodes| && g < |t.nodes|
    requires t.nodes[t.nodes[g].left].color != Red && node == t.nodes[parent].left
    ensures var t1 := RotateRight(t, parent);
            StepRight(t, node, parent, g, Corrected) == (RotateLeft(Recolor2(t1, t1.nodes[parent].parent, g), g), parent)
  {
  }

  /** Black uncle, parent on the left, node on the right: the left rotation
      at the parent turns it into the outer case. */
  lemma StepInnerLeft(t: RedBlackTree, c: Ctx, z: Tree)
    requires Represents(t, Plug(c, z)) && z.Branch? && !c.Top? && !c.up.Top?
    requires c.up.LeftChildOf? && ColorOf(c.up.sibling) == Black && c.RightChildOf?
    ensures z.id < |t.nodes|
    ensures InsertStep(t, z.id, Corrected).1 == FixStep(c, z).1.id
    ensures Represents(InsertStep(t, z.id, Corrected).0, Plug(FixStep(c, z).0, FixStep(c, z).1))
  {
    StepFacts(t, c, z);
    var LeftChildOf(cg, g, kg, gc, u) := c.up;
    var RightChildOf(s, p, kp, pc, _) := c;
    var Branch(zl, zid, kz, zc, zr) := z;
    var P := Branch(s, p, kp, pc, z);
    assert Plug(c, z) == Plug(c.up, P);
    RotateLeftPlug(t, c.up, P);
    var t1 := RotateLeft(t, p);
    var Q := Branch(Branch(s, p, kp, pc, zl), zid, kz, zc, zr);
    assert RotL(P) == Q;
    assert t1.nodes[p].parent == zid by {
      ReprPlug(t1.nodes, c.up, Q, t1.root);
    }
    assert Plug(c.up, Q) == Plug(cg, Branch(Q, g, kg, gc, u));
    OuterTailLeft(t1, cg, Q, g, kg, gc, u);
    assert InsertStep(t, zid, Corrected) == StepLeft(t, zid, p, g, Corrected);
    UnfoldInnerLeft(t, zid, p, g);
    var z' := Branch(s, p, kp, pc, zl);
    var c' := LeftChildOf(cg, zid, kz, Black, Branch(zr, g, kg, Red, u));
    assert FixStep(c, z) == (c', z');
    assert Plug(c', z') == Plug(cg, Branch(z', zid, kz, Black, Branch(zr, g, kg, Red, u)));
  }

  /** Black uncle, parent on the right, node on the right. */
  lemma StepOuterRight(t: RedBlackTree, c: Ctx, z: Tree)
    requires Represents(t, Plug(c, z)) && z.Branch? && !c.Top? && !c.up.Top?
    requires c.up.RightChildOf? && ColorOf(c.up.sibling) == Black && c.RightChildOf?
    ensures z.id < |t.nodes|
    ensures InsertStep(t, z.id, Corrected).1 == FixStep(c, z).1.id
    ensures Represents(InsertStep(t, z.id, Corrected).0, Plug(FixStep(c, z).0, FixStep(c, z).1))
  {
    StepFacts(t, c, z);
    var RightChildOf(u, g, kg, gc, cg) := c.up;
    var RightChildOf(s, p, kp, pc, _) := c;
    var P := Branch(s, p, kp, pc, z);
    assert Plug(c, z) == Plug(cg, Branch(u, g, kg, gc, P));
    OuterTailRight(t, cg, u, g, kg, gc, P);
    assert InsertStep(t, z.id, Corrected) == StepRight(t, z.id, p, g, Corrected);
    assert StepRight(t, z.id, p, g, Corrected) == (RotateLeft(Recolor2(t, p, g), g), z.id);
    var c' := RightChildOf(Branch(u, g, kg, Red, s), p, kp, Black, cg);
    assert FixStep(c, z) == (c', z);
    assert Plug(c', z) == Plug(cg, Branch(Branch(u, g, kg, Red, s), p, kp, Black, z));
  }

  /** Black uncle, parent on the right, node on the left: the right rotation
      at the parent turns it into the outer case. */
  lemma StepInnerRight(t: RedBlackTree, c: Ctx, z: Tree)
    requires Represents(t, Plug(c, z)) && z.Branch? && !c.Top? && !c.up.Top?
    requires c.up.RightChildOf? && ColorOf(c.up.sibling) == Black && c.LeftChildOf?
    ensures z.id < |t.nodes|
    ensures InsertStep(t, z.id, Corrected).1 == FixStep(c, z).1.id
    ensures Represents(InsertStep(t, z.id, Corrected).0, Plug(FixStep(c, z).0, FixStep(c, z).1))
  {
    StepFacts(t, c, z);
    var RightChildOf(u, g, kg, gc, cg) := c.up;
    var LeftChildOf(_, p, kp, pc, s) := c;
    var Branch(zl, zid, kz, zc, zr) := z;
    var P := Branch(z, p, kp, pc, s);
    assert Plug(c, z) == Plug(c.up, P);
    RotateRightPlug(t, c.up, P);
    var t1 := RotateRight(t, p);
    var Q := Branch(zl, zid, kz, zc, Branch(zr, p, kp, pc, s));
    assert RotR(P) == Q;
    assert t1.nodes[p].parent == zid by {
      ReprPlug(t1.nodes, c.up, Q, t1.root);
    }
    assert Plug(c.up, Q) == Plug(cg, Branch(u, g, kg, gc, Q));
    OuterTailRight(t1, cg, u, g, kg, gc, Q);
    assert InsertStep(t, zid, Corrected) == StepRight(t, zid, p, g, Corrected);
    UnfoldInnerRight(t, zid, p, g);
    var z' := Branch(zr, p, kp, pc, s);
    var c' := RightChildOf(Branch(u, g, kg, Red, zl), zid, kz, Black, cg);
    assert FixStep(c, z) == (c', z');
    assert Plug(c', z') == Plug(cg, Branch(Branch(u, g, kg, Red, zl), zid, kz, Black, z'));
  }

  /** The corrected loop body performs one `FixStep` on the represented tree. */
  lemma InsertStepPlug(t: RedBlackTree, c: Ctx, z: Tree)
    requires Represents(t, Plug(c, z)) && z.Branch? && !c.Top? && !c.up.Top?
    ensures z.id < |t.nodes|
    ensures InsertStep(t, z.id, Corrected).1 == FixStep(c, z).1.id
    ensures Represents(InsertStep(t, z.id, Corrected).0, Plug(FixStep(c, z).0, FixStep(c, z).1))
  {
    if c.up.LeftChildOf? {
      if ColorOf(c.up.sibling) == Red {
        StepRecolorLeft(t, c, z);
      } else if c.RightChildOf? {
        StepInnerLeft(t, c, z);
      } else {
        StepOuterLeft(t, c, z);
      }
    } else {
      if ColorOf(c.up.sibling) == Red {
        StepRecolorRight(t, c, z);
      } else if c.LeftChildOf? {
        StepInnerRight(t, c, z);
      } else {
        StepOuterRight(t, c, z);
      }
    }
  }

  /** The corrected loop, run with `fuel` from `z`'s record, ends in the
      tree that `FixLoop` builds from position `(c, z)`. */
  ghost predicate LoopReaches(t: RedBlackTree, c: Ctx, z: Tree, fuel: nat)
    requires t.Closed() && z.Branch? && z.id < |t.nodes|
  {
    Represents(InsertLoop(t, z.id, Corrected, fuel), Plug(FixLoop(c, z).0, FixLoop(c, z).1))
  }

  /** One iteration of the corrected loop from a represented tree that keeps
      the loop invariant: it leads to another such tree, one level higher,
      from which the loop reaches the same tree. */
  lemma LoopAdvance(t: RedBlackTree, c: Ctx, z: Tree, fuel: nat) returns (t': RedBlackTree, c': Ctx, z': Tree)
    requires Represents(t, Plug(c, z)) && FixInv(c, z) && fuel >= Depth(c) && ParentRed(c)
    ensures z.id < |t.nodes| && fuel > 0
    ensures Represents(t', Plug(c', z')) && FixInv(c', z') && fuel - 1 >= Depth(c')
    ensures z'.Branch? && z'.id < |t'.nodes|
    ensures LoopReaches(t', c', z', fuel - 1) ==> LoopReaches(t, c, z, fuel)
  {
    GuardFacts(t, c, z);
    FixStepInv(c, z);
    InsertStepPlug(t, c, z);
    t' := InsertStep(t, z.id, Corrected).0;
    c', z' := FixStep(c, z).0, FixStep(c, z).1;
    GuardFacts(t', c', z');
    assert InsertLoop(t, z.id, Corrected, fuel) == InsertLoop(t', z'.id, Corrected, fuel - 1);
    assert FixLoop(c, z) == FixLoop(c', z');
  }

  /** When the parent is black, the loop and `FixLoop` both stop at once. */
  lemma LoopStops(t: RedBlackTree, c: Ctx, z: Tree, fuel: nat)
    requires Represents(t, Plug(c, z)) && FixInv(c, z) && !ParentRed(c)
    ensures z.id < |t.nodes|
    ensures LoopReaches(t, c, z, fuel)
  {
    GuardFacts(t, c, z);
    assert InsertLoop(t, z.id, Corrected, fuel) == t;
    assert FixLoop(c, z) == (c, z);
  }

  /** With enough fuel the corrected loop performs `FixLoop`. */
  lemma {:induction false} InsertLoopPlug(t: RedBlackTree, c: Ctx, z: Tree, fuel: nat)
    requires Represents(t, Plug(c, z)) && FixInv(c, z) && fuel >= Depth(c)
    ensures z.id < |t.nodes|
    ensures LoopReaches(t, c, z, fuel)
    decreases fuel
  {
    if !ParentRed(c) {
      LoopStops(t, c, z, fuel);
    } else {
      var t', c', z' := LoopAdvance(t, c, z, fuel);
      InsertLoopPlug(t', c', z', fuel - 1);
    }
  }

  // ---------------------------------------------------------------------------
  // Attaching the new node.

  /** The descent over a represented subtree `s` hanging from `y` stops at
      the record that owns the hole of `Path`. */
  lemma {:induction false} DescendPath(t: RedBlackTree, v: int, c: Ctx, s: Tree, fuel: nat)
    requires t.Closed() && Repr(t.nodes, Parent(c), s) && Parent(c) < |t.nodes|
    requires fuel >= Height(s)
    ensures RootRef(s) < |t.nodes|
    ensures Descend(t, v, Parent(c), RootRef(s), fuel) == Parent(Path(s, v, c))
    decreases s
  {
    match s
    case Leaf =>
    case Branch(l, id, k, col, r) =>
      if v < k {
        DescendPath(t, v, LeftChildOf(c, id, k, col, r), l, fuel - 1);
      } else {
        DescendPath(t, v, RightChildOf(l, id, k, col, c), r, fuel - 1);
      }
  }

  /** On the arena extended by the new record, the descent of `insert`
      stops at the owner of the hole of `Path`. */
  lemma AttachParent(t: RedBlackTree, tr: Tree, v: int)
    requires Represents(t, tr)
    ensures Parent(Path(tr, v, Top)) < |t.nodes|
    ensures var t0 := t.(nodes := t.nodes + [Node(v, Red, NIL, NIL, NIL)]);
            Descend(t0, v, NIL, t0.root, |t0.nodes|) == Parent(Path(tr, v, Top))
  {
    var a := t.nodes;
    var t0 := t.(nodes := a + [Node(v, Red, NIL, NIL, NIL)]);
    ReprIds(a, NIL, tr);
    ReprFrame(a, t0.nodes, NIL, tr);
    ReprHeight(a, NIL, tr);
    DescendPath(t0, v, Top, tr, |t0.nodes|);
    PathPlug(tr, v, Top);
    ReprPlug(a, Path(tr, v, Top), Leaf, t.root);
    CtxReprIds(a, Path(tr, v, Top), NIL, t.root);
  }

  /** The records `Attach` writes, given the record `y` the descent stops
      at: the new record `n` hangs below `y` on the side the key comparison
      picks (or becomes the root when `y` is the sentinel), and no other
      record changes. */
  lemma AttachWrites(t: RedBlackTree, v: int, y: Ref)
    requires t.Closed() && y < |t.nodes|
    requires y == Descend(t.(nodes := t.nodes + [Node(v, Red, NIL, NIL, NIL)]), v, NIL, t.root, |t.nodes| + 1)
    ensures Attach(t, v).nodes[|t.nodes|] == Node(v, Red, NIL, NIL, y)
    ensures forall i :: 0 <= i < |t.nodes| && i != y ==> Attach(t, v).nodes[i] == t.nodes[i]
    ensures y == NIL ==> Attach(t, v).nodes[NIL] == t.nodes[NIL] && Attach(t, v).root == |t.nodes|
    ensures y != NIL ==> Attach(t, v).root == t.root
    ensures y != NIL && v < t.nodes[y].key ==> Attach(t, v).nodes[y] == t.nodes[y].(left := |t.nodes|)
    ensures y != NIL && t.nodes[y].key <= v ==> Attach(t, v).nodes[y] == t.nodes[y].(right := |t.nodes|)
  {
    var n := |t.nodes|;
    var t0 := t.(nodes := t.nodes + [Node(v, Red, NIL, NIL, NIL)]);
    var t1 := SetParent(t0, n, y);
    assert Attach(t, v) == if y == NIL then t1.(root := n)
                           else if v < t1.nodes[y].key then SetLeft(t1, y, n)
                           else SetRight(t1, y, n);
  }

  /** `Attach`'s writes, record by record: the new record `n` hangs in the
      hole of `P`. */
  lemma AttachRelink(a: seq<Node>, b: seq<Node>, P: Ctx, n: Ref, v: int, root: Ref, root': Ref)
    requires CtxRepr(a, P, NIL, root) && CtxDistinct(P)
    requires NIL < n == |a| && |b| == |a| + 1
    requires b[n] == Node(v, Red, NIL, NIL, Parent(P))
    requires forall i :: 0 <= i < |a| && i != Parent(P) ==> b[i] == a[i]
    requires P.LeftChildOf? ==> P.id < |a| && b[P.id] == a[P.id].(left := n)
    requires P.RightChildOf? ==> P.id < |a| && b[P.id] == a[P.id].(right := n)
    requires root' == if P.Top? then n else root
    ensures CtxRepr(b, P, n, root') && Repr(b, Parent(P), NewLeaf(n, v))
  {
    CtxReprIds(a, P, NIL, root);
    forall i | i in CtxIds(P) && i != Parent(P)
      ensures i < |a| && i < |b| && b[i] == a[i]
    {
    }
    CtxRehole(a, b, P, NIL, n, root, root');
  }

  /** The records of the new arena spell out the new node in the hole the
      descent found. */
  lemma AttachPlug(t: RedBlackTree, tr: Tree, v: int)
    requires Represents(t, tr)
    ensures Represents(Attach(t, v), Plug(Path(tr, v, Top), NewLeaf(|t.nodes|, v)))
  {
    var a := t.nodes;
    var n := |a|;
    var P := Path(tr, v, Top);
    var leaf := NewLeaf(n, v);
    PathPlug(tr, v, Top);
    ReprPlug(a, P, Leaf, t.root);
    PlugDistinct(P, Leaf);
    AttachParent(t, tr, v);
    var y := Parent(P);
    if tr.Branch? {
      PathLast(tr, v, Top);
      assert P.id == y && a[y].key == P.key && y != n;
      assert P.LeftChildOf? <==> v < P.key;
    }
    var t2 := Attach(t, v);
    AttachWrites(t, v, y);
    AttachRelink(a, t2.nodes, P, n, v, t.root, t2.root);
    ReprPlug(t2.nodes, P, leaf, t2.root);
    assert n !in CtxIds(P) by {
      CtxReprIds(a, P, NIL, t.root);
    }
    PlugDistinct(P, leaf);
  }

  // ---------------------------------------------------------------------------
  // The whole operation.

  /** The corrected `insert` carries out the algebraic insertion, with the
      new node in the record just past the old arena. */
  lemma InsertPlug(t: RedBlackTree, tr: Tree, v: int)
    requires Represents(t, tr) && IsRedBlack(tr)
    ensures Represents(Insert(t, v, Corrected), InsertTree(tr, v, |t.nodes|))
  {
    var n := |t.nodes|;
    var P := Path(tr, v, Top);
    var leaf := NewLeaf(n, v);
    AttachPlug(t, tr, v);
    var t1 := Attach(t, v);
    FixInvInitial(tr, v, n);
    ReprPlug(t1.nodes, P, leaf, t1.root);
    PlugDistinct(P, leaf);
    CtxReprDepth(t1.nodes, P, n, t1.root);
    InsertLoopPlug(t1, P, leaf, |t1.nodes|);
    var t2 := InsertLoop(t1, n, Corrected, |t1.nodes|);
    var (c, z) := FixLoop(P, leaf);
    PlugRoot(c, z);
    RecolorPlug(t2, Top, Plug(c, z), Black);
  }

  /** `insert` (corrected) on a red-black tree: the result is again a valid
      red-black tree, holds one more `v`, keeps the sentinel, and on sorted
      keys places `v` behind every key not greater than it. */
  lemma InsertCorrect(t: RedBlackTree, v: int)
    requires Valid(t) && IsRedBlack(Abs(t))
    ensures Valid(Insert(t, v, Corrected))
    ensures IsRedBlack(Abs(Insert(t, v, Corrected)))
    ensures Insert(t, v, Corrected).SentinelIntact()
    ensures multiset(InOrder(Abs(Insert(t, v, Corrected)))) == multiset(InOrder(Abs(t))) + multiset{v}
    ensures Sorted(InOrder(Abs(t))) ==> InOrder(Abs(Insert(t, v, Corrected))) == UpperInsert(InOrder(Abs(t)), v)
    ensures Sorted(InOrder(Abs(t))) ==> Sorted(InOrder(Abs(Insert(t, v, Corrected))))
  {
    var tr := Abs(t);
    InsertPlug(t, tr, v);
    AbsIs(Insert(t, v, Corrected), InsertTree(tr, v, |t.nodes|));
    InsertTreeCorrect(tr, v, |t.nodes|);
    if Sorted(InOrder(tr)) {
      UpperInsertSorted(InOrder(tr), v);
    }
  }
}
