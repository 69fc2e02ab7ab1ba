/** `remove` and `removeRebalance` (red-blackTrees.cpp:225-306, 419-468) on
    the arena, statement by statement, and the proof that on a tree obeying
    the black-height rule they carry out the algebraic removal of
    `RemoveShape`. */
module Removal {
  import opened Arena
  import opened Shape
  import opened Represent
  import opened Rotation
  import opened Transplant
  import opened Keys
  import opened Search
  import opened RemoveShape

  // ---------------------------------------------------------------------------
  // removeRebalance

  /** Lines 232-237: a red sibling turns black, the parent red, and a left
      rotation at the parent gives the node a black sibling. */
  function RedSiblingLeft(t: RedBlackTree, p: Ref): (r: (RedBlackTree, Ref))
    requires t.Closed() && p < |t.nodes|
    ensures r.0.Closed() && |r.0.nodes| == |t.nodes| && r.1 < |t.nodes|
  {
    var sibling := t.nodes[p].right;
    if t.nodes[sibling].color == Red then
      var t1 := RotateLeft(SetColor(SetColor(t, sibling, Black), p, Red), p);
      (t1, t1.nodes[p].right)
    else (t, sibling)
  }

  /** Lines 270-275, the mirror of `RedSiblingLeft`. */
  function RedSiblingRight(t: RedBlackTree, p: Ref): (r: (RedBlackTree, Ref))
    requires t.Closed() && p < |t.nodes|
    ensures r.0.Closed() && |r.0.nodes| == |t.nodes| && r.1 < |t.nodes|
  {
    var sibling := t.nodes[p].left;
    if t.nodes[sibling].color == Red then
      var t1 := RotateRight(SetColor(SetColor(t, sibling, Black), p, Red), p);
      (t1, t1.nodes[p].left)
    else (t, sibling)
  }

  /** A link counts as black when it is the sentinel or names a black node. */
  predicate BlackLink(t: RedBlackTree, i: Ref)
    requires t.Closed() && i < |t.nodes|
  {
    i == NIL || t.nodes[i].color == Black
  }

  /** Lines 245-252: the sibling's near child is red and its far child
      black; rotate right at the sibling. The sibling is then re-read as
      `sibling->getParent()->getRightNode()`, exactly as line 252 does. */
  function NearRedLeft(t: RedBlackTree, s: Ref): (r: (RedBlackTree, Ref))
    requires t.Closed() && s < |t.nodes|
    ensures r.0.Closed() && |r.0.nodes| == |t.nodes| && r.1 < |t.nodes|
  {
    var sl := t.nodes[s].left;
    var t1 := if sl != NIL then SetColor(t, sl, Black) else t;
    var t2 := RotateRight(SetColor(t1, s, Red), s);
    (t2, t2.nodes[t2.nodes[s].parent].right)
  }

  /** Lines 283-290, the mirror; line 289 re-reads `nodeParent->getLeftNode()`. */
  function NearRedRight(t: RedBlackTree, p: Ref, s: Ref): (r: (RedBlackTree, Ref))
    requires t.Closed() && p < |t.nodes| && s < |t.nodes|
    ensures r.0.Closed() && |r.0.nodes| == |t.nodes| && r.1 < |t.nodes|
  {
    var sr := t.nodes[s].right;
    var t1 := if sr != NIL then SetColor(t, sr, Black) else t;
    var t2 := RotateLeft(SetColor(t1, s, Red), s);
    (t2, t2.nodes[p].left)
  }

  /** Lines 255-264: the sibling takes the parent's colour, the parent and
      the sibling's far child turn black, a left rotation at the parent,
      and `node` becomes the root. */
  function FarRedLeft(t: RedBlackTree, p: Ref, s: Ref): (r: (RedBlackTree, Ref))
    requires t.Closed() && p < |t.nodes| && s < |t.nodes|
    ensures r.0.Closed() && |r.0.nodes| == |t.nodes| && r.1 < |t.nodes|
  {
    var t1 := SetColor(SetColor(t, s, t.nodes[p].color), p, Black);
    var sr := t1.nodes[s].right;
    var t2 := if sr != NIL then SetColor(t1, sr, Black) else t1;
    var t3 := RotateLeft(t2, p);
    (t3, t3.root)
  }

  /** Lines 292-299, the mirror. */
  function FarRedRight(t: RedBlackTree, p: Ref, s: Ref): (r: (RedBlackTree, Ref))
    requires t.Closed() && p < |t.nodes| && s < |t.nodes|
    ensures r.0.Closed() && |r.0.nodes| == |t.nodes| && r.1 < |t.nodes|
  {
    var t1 := SetColor(SetColor(t, s, t.nodes[p].color), p, Black);
    var sl := t1.nodes[s].left;
    var t2 := if sl != NIL then SetColor(t1, sl, Black) else t1;
    var t3 := RotateRight(t2, p);
    (t3, t3.root)
  }

  /** One iteration of the `removeRebalance` loop body (lines 227-301),
      returning the arena and the new value of `node`. */
  function RemoveStep(t: RedBlackTree, node: Ref): (r: (RedBlackTree, Ref))
    requires t.Closed() && node < |t.nodes|
    ensures r.0.Closed() && |r.0.nodes| == |t.nodes| && r.1 < |t.nodes|
  {
    var p := t.nodes[node].parent;
    if node == t.nodes[p].left then
      var (t1, s) := RedSiblingLeft(t, p);
      if BlackLink(t1, t1.nodes[s].left) && BlackLink(t1, t1.nodes[s].right) then
        (SetColor(t1, s, Red), p)
      else
        var (t2, s2) := if BlackLink(t1, t1.nodes[s].right) then NearRedLeft(t1, s) else (t1, s);
        FarRedLeft(t2, p, s2)
    else
      var (t1, s) := RedSiblingRight(t, p);
      if BlackLink(t1, t1.nodes[s].right) && BlackLink(t1, t1.nodes[s].left) then
        (SetColor(t1, s, Red), p)
      else
        var (t2, s2) := if BlackLink(t1, t1.nodes[s].left) then NearRedRight(t1, p, s) else (t1, s);
        FarRedRight(t2, p, s2)
  }

  /** The loop guard of line 226: `node` is not the root, is black, and is
      not the sentinel. */
  predicate Deficit(t: RedBlackTree, node: Ref)
    requires t.Closed() && node < |t.nodes|
  {
    node != t.root && t.nodes[node].color == Black && node != NIL
  }

  /** The loop of `removeRebalance`, cut off after `fuel` iterations. */
  function RemoveLoop(t: RedBlackTree, node: Ref, fuel: nat): (r: (RedBlackTree, Ref))
    requires t.Closed() && node < |t.nodes|
    ensures r.0.Closed() && |r.0.nodes| == |t.nodes| && r.1 < |t.nodes|
    decreases fuel
  {
    if !Deficit(t, node) || fuel == 0 then (t, node)
    else
      var (t', node') := RemoveStep(t, node);
      RemoveLoop(t', node', fuel - 1)
  }

  /** `removeRebalance(node)`: the loop, then `node` turns black unless it
      is the sentinel. */
  function RemoveRebalance(t: RedBlackTree, node: Ref): (r: RedBlackTree)
    requires t.Closed() && node < |t.nodes|
    ensures r.Closed() && |r.nodes| == |t.nodes|
  {
    var (t1, n) := RemoveLoop(t, node, |t.nodes|);
    if n != NIL then SetColor(t1, n, Black) else t1
  }

  // ---------------------------------------------------------------------------
  // remove

  /** The successor loop of lines 439-440: follow left links to the sentinel. */
  function Successor(t: RedBlackTree, y: Ref, fuel: nat): (r: Ref)
    requires t.Closed() && y < |t.nodes|
    ensures r < |t.nodes|
    decreases fuel
  {
    if t.nodes[y].left == NIL || fuel == 0 then y
    else Successor(t, t.nodes[y].left, fuel - 1)
  }

  /** Lines 449-454: a successor deeper than `z`'s right child leaves its
      place to its right subtree and takes `z`'s right subtree. */
  function Lift(t: RedBlackTree, z: Ref, y: Ref): (r: RedBlackTree)
    requires t.Closed() && z < |t.nodes| && y < |t.nodes|
    ensures r.Closed() && |r.nodes| == |t.nodes|
  {
    var t1 := ReplaceSubtree(t, y, t.nodes[y].right);
    var t2 := SetRight(t1, y, t1.nodes[z].right);
    if t2.nodes[y].right != NIL then SetParent(t2, t2.nodes[y].right, y) else t2
  }

  /** Lines 456-461: `y` takes `z`'s place, `z`'s left subtree and `z`'s colour. */
  function Promote(t: RedBlackTree, z: Ref, y: Ref): (r: RedBlackTree)
    requires t.Closed() && z < |t.nodes| && y < |t.nodes|
    ensures r.Closed() && |r.nodes| == |t.nodes|
  {
    var t1 := ReplaceSubtree(t, z, y);
    var t2 := SetLeft(t1, y, t1.nodes[z].left);
    var t3 := if t2.nodes[y].left != NIL then SetParent(t2, t2.nodes[y].left, y) else t2;
    SetColor(t3, y, t3.nodes[z].color)
  }

  /** Lines 424-462: unlink node `z`, returning the arena, `x` and `colorY`. */
  function Unlink(t: RedBlackTree, z: Ref): (r: (RedBlackTree, Ref, Color))
    requires t.Closed() && z < |t.nodes|
    ensures r.0.Closed() && |r.0.nodes| == |t.nodes| && r.1 < |t.nodes|
  {
    if t.nodes[z].left == NIL then
      (ReplaceSubtree(t, z, t.nodes[z].right), t.nodes[z].right, t.nodes[z].color)
    else if t.nodes[z].right == NIL then
      (ReplaceSubtree(t, z, t.nodes[z].left), t.nodes[z].left, t.nodes[z].color)
    else
      var y := Successor(t, t.nodes[z].right, |t.nodes|);
      var x := t.nodes[y].right;
      var t1 := if t.nodes[y].parent == z then (if x != NIL then SetParent(t, x, y) else t)
                else Lift(t, z, y);
      (Promote(t1, z, y), x, t.nodes[y].color)
  }

  /** `remove(v)`: nothing when the search finds no node; otherwise unlink
      it and rebalance when the node that left was black. The unlinked record
      stays in the arena, unreachable. */
  function Remove(t: RedBlackTree, v: int): (r: RedBlackTree)
    requires t.Closed()
    ensures r.Closed() && |r.nodes| == |t.nodes|
  {
    match Search.Search(t, v)
    case None => t
    case Some(z) =>
      var (t1, x, colorY) := Unlink(t, z);
      if colorY == Black then RemoveRebalance(t1, x) else t1
  }

  // ---------------------------------------------------------------------------
  // The successor and the promotion of the successor.

  /** With enough fuel the successor loop ends at the leftmost node of the
      subtree it starts from. */
  lemma {:induction false} SuccessorSpine(t: RedBlackTree, p: Ref, s: Tree, d: Ctx, fuel: nat)
    requires t.Closed() && Repr(t.nodes, p, s) && s.Branch? && fuel >= Height(s)
    ensures s.id < |t.nodes|
    ensures Successor(t, s.id, fuel) == LeftSpine(s, d).1.id
    decreases s
  {
    if s.left.Branch? {
      SuccessorSpine(t, s.id, s.left, LeftChildOf(d, s.id, s.key, s.color, s.right), fuel - 1);
    }
  }

  /** The records `Promote` writes: `y` gets `z`'s colour, left link and
      parent, `z`'s left child hangs from `y`, `z`'s parent (or the root
      pointer) is written as by `replaceSubtree(z, y)`, and no other record
      changes. */
  lemma PromoteWrites(t: RedBlackTree, z: Ref, y: Ref)
    requires t.Closed() && NIL < z < |t.nodes| && NIL < y < |t.nodes| && z != y
    requires t.nodes[z].parent != y && t.nodes[z].parent != z && t.nodes[z].left != NIL
    requires t.nodes[z].left != y && t.nodes[z].left != z && t.nodes[z].left != t.nodes[z].parent
    ensures Promote(t, z, y).nodes[y] ==
              t.nodes[y].(color := t.nodes[z].color, left := t.nodes[z].left, parent := t.nodes[z].parent)
    ensures Promote(t, z, y).nodes[t.nodes[z].left] == t.nodes[t.nodes[z].left].(parent := y)
    ensures forall i :: 0 <= i < |t.nodes| && i != t.nodes[z].parent && i != y && i != t.nodes[z].left ==>
              Promote(t, z, y).nodes[i] == t.nodes[i]
    ensures t.nodes[z].parent != NIL ==>
              Promote(t, z, y).nodes[t.nodes[z].parent] == ReplaceSubtree(t, z, y).nodes[t.nodes[z].parent]
    ensures Promote(t, z, y).root == ReplaceSubtree(t, z, y).root
    ensures Promote(t, z, y).nodes[NIL] == t.nodes[NIL]
  {
    var a := t.nodes;
    var t1 := ReplaceSubtree(t, z, y);
    assert t1.nodes[z] == a[z];
    var t2 := SetLeft(t1, y, a[z].left);
    var t3 := SetParent(t2, a[z].left, y);
    assert Promote(t, z, y) == SetColor(t3, y, a[z].color);
  }

  /** `Promote`'s writes, record by record: `y` takes `z`'s place below the
      context with `A` on its left and `R` on its right. */
  lemma PromoteRelink(a: seq<Node>, b: seq<Node>, c: Ctx, A: Tree, z: Ref, y: Ref, R: Tree,
                      col: Color, root: Ref, root': Ref)
    requires CtxRepr(a, c, z, root) && CtxDistinct(c)
    requires A.Branch? && Repr(a, z, A) && Distinct(A) && Repr(a, y, R) && Distinct(R)
    requires Ids(A) !! Ids(R) && Ids(A) !! CtxIds(c) && Ids(R) !! CtxIds(c)
    requires z != y && z !in Ids(A) + Ids(R) + CtxIds(c) && y !in Ids(A) + Ids(R) + CtxIds(c)
    requires NIL < y < |a| == |b| && A.id < |a|
    requires b[y] == Node(a[y].key, col, A.id, RootRef(R), Parent(c))
    requires b[A.id] == a[A.id].(parent := y)
    requires forall i :: 0 <= i < |a| && i != Parent(c) && i != y && i != A.id ==> b[i] == a[i]
    requires c.LeftChildOf? ==> b[c.id] == a[c.id].(left := y)
    requires c.RightChildOf? ==> b[c.id] == a[c.id].(right := y)
    requires root' == if c.Top? then y else root
    ensures CtxRepr(b, c, y, root') && Repr(b, Parent(c), Branch(A, y, a[y].key, col, R))
  {
    var px := Parent(c);
    CtxReprIds(a, c, z, root);
    ReprIds(a, z, A);
    ReprIds(a, y, R);
    assert px == NIL || px in CtxIds(c);
    assert A.id in Ids(A);
    forall i | i in Ids(A) && i != RootRef(A)
      ensures i < |a| && i < |b| && b[i] == a[i]
    {
      assert i != px;
    }
    ReprReparent(a, b, z, y, A);
    forall i | i in Ids(R)
      ensures i < |a| && i < |b| && b[i] == a[i]
    {
      assert i != px;
    }
    ReprFrame(a, b, y, R);
    forall i | i in CtxIds(c) && i != px
      ensures i < |a| && i < |b| && b[i] == a[i]
    {
      assert i != A.id;
    }
    CtxRehole(a, b, c, z, y, root, root');
  }

  /** The record-level half of `PromotePlug`. */
  lemma PromoteLinks(t: RedBlackTree, c: Ctx, A: Tree, z: Ref, y: Ref, R: Tree)
    requires t.Closed() && t.SentinelIntact()
    requires CtxRepr(t.nodes, c, z, t.root) && CtxDistinct(c)
    requires NIL < z < |t.nodes| && t.nodes[z].left == RootRef(A) && t.nodes[z].parent == Parent(c)
    requires A.Branch? && Repr(t.nodes, z, A) && Distinct(A)
    requires NIL < y < |t.nodes| && t.nodes[y].left == NIL && t.nodes[y].right == RootRef(R)
    requires Repr(t.nodes, y, R) && Distinct(R)
    requires Ids(A) !! Ids(R) && Ids(A) !! CtxIds(c) && Ids(R) !! CtxIds(c)
    requires z != y && z !in Ids(A) + Ids(R) + CtxIds(c) && y !in Ids(A) + Ids(R) + CtxIds(c)
    ensures var r := Promote(t, z, y);
            var w := Branch(A, y, t.nodes[y].key, t.nodes[z].color, R);
            CtxRepr(r.nodes, c, y, r.root) && Repr(r.nodes, Parent(c), w) && r.SentinelIntact()
  {
    var a := t.nodes;
    var px := Parent(c);
    assert px != y && px != z && px != A.id && A.id != z && A.id != y by {
      CtxReprIds(a, c, z, t.root);
      ReprIds(a, z, A);
      assert A.id in Ids(A);
      assert px == NIL || px in CtxIds(c);
    }
    PromoteWrites(t, z, y);
    var r := Promote(t, z, y);
    if c.RightChildOf? {
      assert a[px].left != z by {
        CtxReprIds(a, c, z, t.root);
        if c.sibling.Branch? { assert c.sibling.id in CtxIds(c); }
      }
    }
    PromoteRelink(a, r.nodes, c, A, z, y, R, a[z].color, t.root, r.root);
  }

  /** `y`, a node without a left child that hangs below `z` with subtree `R`
      on its right, takes `z`'s place in the tree: it gets `z`'s left
      subtree `A` and `z`'s colour and keeps `R`. */
  lemma PromotePlug(t: RedBlackTree, c: Ctx, A: Tree, z: Ref, y: Ref, R: Tree)
    requires t.Closed() && t.SentinelIntact()
    requires CtxRepr(t.nodes, c, z, t.root)
    requires NIL < z < |t.nodes| && t.nodes[z].left == RootRef(A) && t.nodes[z].parent == Parent(c)
    requires A.Branch? && Repr(t.nodes, z, A)
    requires NIL < y < |t.nodes| && t.nodes[y].left == NIL && t.nodes[y].right == RootRef(R)
    requires Repr(t.nodes, y, R)
    requires Distinct(Plug(c, Branch(A, y, t.nodes[y].key, t.nodes[z].color, R)))
    requires z !in Ids(Plug(c, Branch(A, y, t.nodes[y].key, t.nodes[z].color, R)))
    ensures Represents(Promote(t, z, y), Plug(c, Branch(A, y, t.nodes[y].key, t.nodes[z].color, R)))
  {
    var w := Branch(A, y, t.nodes[y].key, t.nodes[z].color, R);
    PlugDistinct(c, w);
    PlugIds(c, w);
    PromoteLinks(t, c, A, z, y, R);
    var r := Promote(t, z, y);
    ReprPlug(r.nodes, c, w, r.root);
  }

  /** The last two writes of `Lift` (lines 451-453), record by record: `y`
      adopts `z`'s right subtree `B`, and nothing around `z` changes. */
  lemma AdoptRightLinks(a: seq<Node>, b: seq<Node>, c: Ctx, z: Ref, A: Tree, B: Tree, y: Ref, root: Ref)
    requires CtxRepr(a, c, z, root) && Repr(a, z, A) && Repr(a, z, B) && B.Branch? && Distinct(B)
    requires NIL < y < |a| && B.id < |a| && y != B.id
    requires b == a[y := a[y].(right := B.id)][B.id := a[B.id].(parent := y)]
    requires y !in CtxIds(c) + Ids(A) + Ids(B) && B.id !in CtxIds(c) + Ids(A)
    ensures CtxRepr(b, c, z, root) && Repr(b, z, A) && Repr(b, y, B)
  {
    forall i | i in CtxIds(c)
      ensures i < |a| && i < |b| && b[i] == a[i]
    {
      CtxReprIds(a, c, z, root);
    }
    CtxFrame(a, b, c, z, root);
    forall i | i in Ids(A)
      ensures i < |a| && i < |b| && b[i] == a[i]
    {
      ReprIds(a, z, A);
    }
    ReprFrame(a, b, z, A);
    forall i | i in Ids(B) && i != RootRef(B)
      ensures i < |a| && i < |b| && b[i] == a[i]
    {
      ReprIds(a, z, B);
    }
    ReprReparent(a, b, z, y, B);
  }

  /** The same on a represented tree `Plug(c, W)` that `y` has already left:
      afterwards `y` is ready to be promoted into `W`'s place. */
  lemma AdoptRight(t: RedBlackTree, c: Ctx, W: Tree, y: Ref)
    requires Represents(t, Plug(c, W)) && W.Branch? && W.left.Branch? && W.right.Branch?
    requires NIL < y < |t.nodes| && t.nodes[y].left == NIL && y !in Ids(Plug(c, W))
    ensures W.id < |t.nodes| && W.right.id < |t.nodes|
    ensures CtxRepr(SetParent(SetRight(t, y, W.right.id), W.right.id, y).nodes, c, W.id, t.root)
    ensures Repr(SetParent(SetRight(t, y, W.right.id), W.right.id, y).nodes, W.id, W.left)
    ensures Repr(SetParent(SetRight(t, y, W.right.id), W.right.id, y).nodes, y, W.right)
    ensures SetParent(SetRight(t, y, W.right.id), W.right.id, y).nodes[W.id] == t.nodes[W.id]
    ensures SetParent(SetRight(t, y, W.right.id), W.right.id, y).nodes[y] == t.nodes[y].(right := W.right.id)
    ensures SetParent(SetRight(t, y, W.right.id), W.right.id, y).nodes[NIL] == t.nodes[NIL]
  {
    var a := t.nodes;
    var B := W.right;
    assert W.id != B.id && W.id != y && y != B.id && NIL < B.id
        && CtxRepr(a, c, W.id, t.root) && Repr(a, W.id, W.left) && Repr(a, W.id, B) && Distinct(B)
        && B.id < |a| && y !in CtxIds(c) + Ids(W.left) + Ids(B) && B.id !in CtxIds(c) + Ids(W.left) by {
      ReprPlug(a, c, W, t.root);
      PlugDistinct(c, W);
      PlugIds(c, W);
      ReprIds(a, W.id, B);
    }
    AdoptWrites(t, y, B.id, W.id);
    AdoptRightLinks(a, SetParent(SetRight(t, y, B.id), B.id, y).nodes, c, W.id, W.left, B, y, t.root);
  }

  /** The two writes of `Lift` that hand a subtree to `y`; record `w` and
      the sentinel are untouched. */
  lemma AdoptWrites(t: RedBlackTree, y: Ref, b: Ref, w: Ref)
    requires t.Closed() && NIL < y < |t.nodes| && NIL < b < |t.nodes| && y != b
    requires w < |t.nodes| && w != y && w != b
    ensures SetParent(SetRight(t, y, b), b, y).nodes
         == t.nodes[y := t.nodes[y].(right := b)][b := t.nodes[b].(parent := y)]
    ensures SetParent(SetRight(t, y, b), b, y).nodes[w] == t.nodes[w]
    ensures SetParent(SetRight(t, y, b), b, y).nodes[y] == t.nodes[y].(right := b)
    ensures SetParent(SetRight(t, y, b), b, y).nodes[NIL] == t.nodes[NIL]
  {
  }

  /** Unlinking a node with at most one child (lines 428-435). */
  lemma UnlinkOneChild(t: RedBlackTree, c: Ctx, Z: Tree)
    requires Represents(t, Plug(c, Z)) && Z.Branch? && (Z.left.Leaf? || Z.right.Leaf?)
    ensures Z.id < |t.nodes|
    ensures Unlink(t, Z.id).1 == RootRef(XTree(Z)) && Unlink(t, Z.id).2 == RemovedColor(Z)
    ensures Represents(Unlink(t, Z.id).0, Plug(c, Spliced(Z)))
  {
    ReprPlug(t.nodes, c, Z, t.root);
    if Z.left.Leaf? {
      ReplaceSubtreePlug(t, c, Z, true);
    } else {
      ReplaceSubtreePlug(t, c, Z, false);
    }
  }

  /** Unlinking a node whose successor is its right child (lines 445-448
      and 456-461). */
  lemma UnlinkNearSuccessor(t: RedBlackTree, c: Ctx, Z: Tree)
    requires Represents(t, Plug(c, Z)) && Z.Branch? && Z.left.Branch? && Z.right.Branch?
    requires Z.right.left.Leaf?
    ensures Z.id < |t.nodes|
    ensures Unlink(t, Z.id).1 == RootRef(XTree(Z)) && Unlink(t, Z.id).2 == RemovedColor(Z)
    ensures Represents(Unlink(t, Z.id).0, Plug(c, Spliced(Z)))
  {
    var a := t.nodes;
    var z, A, Y := Z.id, Z.left, Z.right;
    var y, X := Y.id, Y.right;
    var w := Branch(A, y, Y.key, Z.color, X);
    assert NIL < z < |a| && a[z] == Node(Z.key, Z.color, A.id, y, Parent(c))
        && NIL < y < |a| && a[y] == Node(Y.key, Y.color, NIL, RootRef(X), z)
        && CtxRepr(a, c, z, t.root) && Repr(a, z, A) && Repr(a, y, X)
        && (X.Branch? ==> a[X.id].parent == y)
        && Distinct(Plug(c, w)) && z !in Ids(Plug(c, w)) by {
      ReprPlug(a, c, Z, t.root);
      PlugDistinct(c, Z);
      PlugDistinct(c, w);
      PlugIds(c, w);
      PlugIds(c, Z);
    }
    NearUnlinkWrites(t, z, y);
    assert Spliced(Z) == w;
    PromotePlug(t, c, A, z, y, X);
  }

  /** Record by record, `remove` of a node `z` whose right child `y` has no
      left child: `y` is the successor, and `x`'s parent link is rewritten
      to the value it already holds, so only `Promote` changes the arena. */
  lemma NearUnlinkWrites(t: RedBlackTree, z: Ref, y: Ref)
    requires t.Closed() && z < |t.nodes| && y < |t.nodes|
    requires t.nodes[z].left != NIL && t.nodes[z].right == y != NIL
    requires t.nodes[y].left == NIL && t.nodes[y].parent == z
    requires t.nodes[y].right != NIL ==> t.nodes[t.nodes[y].right].parent == y
    ensures Unlink(t, z) == (Promote(t, z, y), t.nodes[y].right, t.nodes[y].color)
  {
    var x := t.nodes[y].right;
    if x != NIL {
      assert t.nodes[x := t.nodes[x].(parent := y)] == t.nodes;
    }
  }

  /** The successor of a node with two children, and `z`'s right subtree
      once the successor has left it. */
  function Succ(Z: Tree): (r: Tree)
    requires Z.Branch? && Z.right.Branch?
    ensures r.Branch? && r.left.Leaf?
  {
    LeftSpine(Z.right, Top).1
  }

  function Lifted(Z: Tree): Tree
    requires Z.Branch? && Z.right.Branch?
  {
    Plug(LeftSpine(Z.right, Top).0, Succ(Z).right)
  }

  /** The successor loop of lines 439-440 finds `Succ(Z)`. */
  lemma FindSuccessor(t: RedBlackTree, c: Ctx, Z: Tree)
    requires Represents(t, Plug(c, Z)) && Z.Branch? && Z.right.Branch?
    ensures Z.id < |t.nodes| && t.nodes[Z.id].right == Z.right.id
    ensures Successor(t, t.nodes[Z.id].right, |t.nodes|) == Succ(Z).id
  {
    ReprPlug(t.nodes, c, Z, t.root);
    PlugDistinct(c, Z);
    ReprHeight(t.nodes, Z.id, Z.right);
    SuccessorSpine(t, Z.id, Z.right, Top, |t.nodes|);
  }

  /** Lines 437-450 when the successor lies deeper than `z`'s right child:
      the loop finds it, and `replaceSubtree(y, y->getRightNode())` takes
      it out of the tree. */
  lemma DetachSuccessor(t: RedBlackTree, c: Ctx, Z: Tree)
    requires Represents(t, Plug(c, Z)) && Z.Branch? && Z.left.Branch? && Z.right.Branch?
    requires Z.right.left.Branch?
    ensures Z.id < |t.nodes| && NIL < Succ(Z).id < |t.nodes| && RootRef(Succ(Z).right) < |t.nodes|
    ensures Successor(t, t.nodes[Z.id].right, |t.nodes|) == Succ(Z).id
    ensures t.nodes[Succ(Z).id].parent != Z.id
    ensures t.nodes[Succ(Z).id].left == NIL && t.nodes[Succ(Z).id].right == RootRef(Succ(Z).right)
    ensures t.nodes[Succ(Z).id].key == Succ(Z).key && t.nodes[Succ(Z).id].color == Succ(Z).color
    ensures Lifted(Z).Branch?
    ensures var t1 := ReplaceSubtree(t, Succ(Z).id, RootRef(Succ(Z).right));
            var W := Branch(Z.left, Z.id, Z.key, Z.color, Lifted(Z));
            && Represents(t1, Plug(c, W))
            && t1.nodes[Succ(Z).id] == t.nodes[Succ(Z).id]
            && Succ(Z).id !in Ids(Plug(c, W))
  {
    var a := t.nodes;
    var z, A, B := Z.id, Z.left, Z.right;
    var (d, Y) := LeftSpine(B, Top);
    LeftSpinePlug(B, Top);
    var y, X := Y.id, Y.right;
    var up := RightChildOf(A, z, Z.key, Z.color, c);
    var E := Compose(d, up);
    ReprPlug(a, c, Z, t.root);
    PlugDistinct(c, Z);
    FindSuccessor(t, c, Z);
    PlugCompose(d, up, Y);
    PlugCompose(d, up, X);
    PlugDistinct(d, Y);
    PlugIds(d, Y);
    assert a[y] == Node(Y.key, Y.color, NIL, RootRef(X), d.id) && Repr(a, y, X) by {
      ReprPlug(a, E, Y, t.root);
      assert Parent(E) == d.id;
    }
    assert d.id in CtxIds(d) && y in Ids(Y);
    ReplaceSubtreePlug(t, E, Y, true);
    PlugRoot(d, X);
    var t1 := ReplaceSubtree(t, y, a[y].right);
    assert t1.nodes[y] == a[y] by {
      assert y != RootRef(X) by {
        if X.Branch? { assert X.id in Ids(X); }
      }
    }
    assert y !in Ids(Plug(E, X)) by {
      PlugIds(E, X);
      PlugIds(E, Y);
      PlugDistinct(E, Y);
    }
  }

  /** Unlinking a node whose successor lies deeper in its right subtree
      (lines 449-461). */
  lemma UnlinkDeepSuccessor(t: RedBlackTree, c: Ctx, Z: Tree)
    requires Represents(t, Plug(c, Z)) && Z.Branch? && Z.left.Branch? && Z.right.Branch?
    requires Z.right.left.Branch?
    ensures Z.id < |t.nodes|
    ensures Unlink(t, Z.id).1 == RootRef(XTree(Z)) && Unlink(t, Z.id).2 == RemovedColor(Z)
    ensures Represents(Unlink(t, Z.id).0, Plug(c, Spliced(Z)))
  {
    DetachSuccessor(t, c, Z);
    var a := t.nodes;
    var z, A, Y, B' := Z.id, Z.left, Succ(Z), Lifted(Z);
    var y := Y.id;
    var t1 := ReplaceSubtree(t, y, a[y].right);
    var W := Branch(A, z, Z.key, Z.color, B');
    assert NIL < z && a[z] == Node(Z.key, Z.color, A.id, Z.right.id, Parent(c)) by {
      ReprPlug(a, c, Z, t.root);
    }
    assert t1.nodes[z] == Node(Z.key, Z.color, A.id, B'.id, Parent(c)) by {
      ReprPlug(t1.nodes, c, W, t1.root);
    }
    AdoptRight(t1, c, W, y);
    var t3 := SetParent(SetRight(t1, y, B'.id), B'.id, y);
    LiftWrites(t, z, y, B'.id);
    var w := Branch(A, y, Y.key, Z.color, B');
    assert Spliced(Z) == w;
    Renamed(c, A, z, Z.key, Z.color, B', y, Y.key);
    assert t3.nodes[y] == Node(Y.key, Y.color, NIL, B'.id, a[y].parent);
    assert t3.nodes[z] == Node(Z.key, Z.color, A.id, B'.id, Parent(c));
    PromotePlug(t3, c, A, z, y, B');
    DeepUnlinkWrites(t, z, y);
  }

  /** Giving node `z` the fresh identity `y` (and another key) keeps the
      identities distinct, and `z` is then gone. */
  lemma Renamed(c: Ctx, A: Tree, z: Ref, kz: int, col: Color, B: Tree, y: Ref, ky: int)
    requires Distinct(Plug(c, Branch(A, z, kz, col, B))) && y !in Ids(Plug(c, Branch(A, z, kz, col, B)))
    ensures Distinct(Plug(c, Branch(A, y, ky, col, B))) && z !in Ids(Plug(c, Branch(A, y, ky, col, B)))
  {
    PlugDistinct(c, Branch(A, z, kz, col, B));
    PlugIds(c, Branch(A, z, kz, col, B));
    PlugDistinct(c, Branch(A, y, ky, col, B));
    PlugIds(c, Branch(A, y, ky, col, B));
  }

  /** `Lift` when `z`'s right link, after `y` has left, names a real node `b`. */
  lemma LiftWrites(t: RedBlackTree, z: Ref, y: Ref, b: Ref)
    requires t.Closed() && z < |t.nodes| && y < |t.nodes|
    requires ReplaceSubtree(t, y, t.nodes[y].right).nodes[z].right == b != NIL
    ensures Lift(t, z, y) == SetParent(SetRight(ReplaceSubtree(t, y, t.nodes[y].right), y, b), b, y)
  {
  }

  /** `remove` of a node `z` with two children whose successor `y` is not
      its right child: lift `y` out, then promote it. */
  lemma DeepUnlinkWrites(t: RedBlackTree, z: Ref, y: Ref)
    requires t.Closed() && z < |t.nodes| && y < |t.nodes|
    requires t.nodes[z].left != NIL && t.nodes[z].right != NIL
    requires Successor(t, t.nodes[z].right, |t.nodes|) == y && t.nodes[y].parent != z
    ensures Unlink(t, z) == (Promote(Lift(t, z, y), z, y), t.nodes[y].right, t.nodes[y].color)
  {
  }

  /** `remove`'s unlinking (lines 424-462) carries out the algebraic unlink:
      the arena afterwards represents `Spliced(Z)` in `Z`'s place, `x` is the
      subtree that moved up and `colorY` the colour of the node that left. */
  lemma UnlinkPlug(t: RedBlackTree, c: Ctx, Z: Tree)
    requires Represents(t, Plug(c, Z)) && Z.Branch?
    ensures Z.id < |t.nodes|
    ensures Unlink(t, Z.id).1 == RootRef(XTree(Z)) && Unlink(t, Z.id).2 == RemovedColor(Z)
    ensures Represents(Unlink(t, Z.id).0, Plug(c, Spliced(Z)))
  {
    if Z.left.Leaf? || Z.right.Leaf? {
      UnlinkOneChild(t, c, Z);
    } else if Z.right.left.Leaf? {
      UnlinkNearSuccessor(t, c, Z);
    } else {
      UnlinkDeepSuccessor(t, c, Z);
    }
  }

  // ---------------------------------------------------------------------------
  // removeRebalance when the subtree that moved up is red or empty.

  /** When `x` is the sentinel or a red node, the loop of `removeRebalance`
      does not run and the call only blackens `x`. */
  lemma RebalanceRedOrLeaf(t: RedBlackTree, e: Ctx, w: Tree)
    requires Represents(t, Plug(e, w)) && (w.Leaf? || w.color == Red)
    ensures RootRef(w) < |t.nodes|
    ensures Represents(RemoveRebalance(t, RootRef(w)), Plug(e, Blacken(w)))
  {
    ReprPlug(t.nodes, e, w, t.root);
    if w.Branch? {
      assert t.nodes[w.id].color == Red;
      RecolorPlug(t, e, w, Black);
    }
  }

  // ---------------------------------------------------------------------------
  // The whole removal.

  /** On an arena representing a tree that obeys the black-height rule,
      `remove(v)` carries out the algebraic removal `RemoveTree`. */
  lemma RemovePlug(t: RedBlackTree, tr: Tree, v: int)
    requires Represents(t, tr) && Balanced(tr)
    ensures Represents(Remove(t, v), RemoveTree(tr, v))
  {
    ReprHeight(t.nodes, NIL, tr);
    SearchFuel(t, v, NIL, tr, |t.nodes|);
    var (c, Z) := Locate(tr, v, Top);
    LocatePlug(tr, v, Top);
    LocateFind(tr, v, Top);
    if Z.Branch? {
      assert Z.id != NIL by {
        ReprPlug(t.nodes, c, Z, t.root);
      }
      assert Search.Search(t, v) == Some(Z.id);
      UnlinkPlug(t, c, Z);
      var t1 := Unlink(t, Z.id).0;
      if RemovedColor(Z) == Black {
        PlugBalanced(c, Z);
        XTreeRedOrLeaf(Z);
        XPlug(c, Z);
        RebalanceRedOrLeaf(t1, XCtx(c, Z), XTree(Z));
      }
    }
  }

  /** `remove(v)` on a valid arena whose tree obeys the black-height rule and
      has sorted keys: the result is again a valid arena, the sentinel
      keeps its constructor values, and the stored keys lose exactly one
      copy of `v` and stay sorted. Removing an absent value changes nothing. */
  lemma RemoveCorrect(t: RedBlackTree, v: int)
    requires Valid(t) && Balanced(Abs(t)) && Sorted(InOrder(Abs(t)))
    ensures Valid(Remove(t, v)) && Remove(t, v).SentinelIntact()
    ensures InOrder(Abs(Remove(t, v))) == RemoveFirst(InOrder(Abs(t)), v)
    ensures multiset(InOrder(Abs(Remove(t, v)))) == multiset(InOrder(Abs(t))) - multiset{v}
    ensures Sorted(InOrder(Abs(Remove(t, v))))
    ensures v !in InOrder(Abs(t)) ==> Remove(t, v) == t
  {
    var tr := Abs(t);
    var s := InOrder(tr);
    RemovePlug(t, tr, v);
    AbsIs(Remove(t, v), RemoveTree(tr, v));
    RemoveTreeInOrder(tr, v);
    RemoveFirstContents(s, v);
    if v in s {
      var i :| 0 <= i < |s| && s[i] == v;
      RemoveAtIsRemoveFirst(s, i, v);
      RemoveAtSorted(s, i);
    } else {
      ReprHeight(t.nodes, NIL, tr);
      SearchFuel(t, v, NIL, tr, |t.nodes|);
      FindComplete(tr, v);
    }
  }
}
