/** `rotateLeft` and `rotateRight` (red-blackTrees.cpp:129-173) on the arena,
    their algebraic counterparts, and the proof that the pointer surgery
    performs exactly the algebraic rotation at the rotated node's position. */
module Rotation {
  import opened Arena
  import opened Shape
  import opened Represent

  /** `rotateLeft(x)`: `x`'s right child `y` rises into `x`'s slot (or becomes
      the root), `y`'s left subtree moves under `x`, and `x` becomes `y`'s left
      child. Written for any record, as the source is; it only means a
      rotation when `x` and its right child are real nodes. */
  function RotateLeft(t: RedBlackTree, x: Ref): (r: RedBlackTree)
    requires t.Closed() && x < |t.nodes|
    ensures r.Closed() && |r.nodes| == |t.nodes|
  {
    var y := t.nodes[x].right;
    var leftY := t.nodes[y].left;
    var t1 := SetRight(t, x, leftY);
    var t2 := if leftY != NIL then SetParent(t1, leftY, x) else t1;
    var px := t2.nodes[x].parent;
    var t3 := SetParent(t2, y, px);
    var t4 := Relink(t3, px, x, y);
    var t5 := SetLeft(t4, y, x);
    SetParent(t5, x, y)
  }

  /** `rotateRight(x)`, the mirror image of `RotateLeft`. */
  function RotateRight(t: RedBlackTree, x: Ref): (r: RedBlackTree)
    requires t.Closed() && x < |t.nodes|
    ensures r.Closed() && |r.nodes| == |t.nodes|
  {
    var y := t.nodes[x].left;
    var rightY := t.nodes[y].right;
    var t1 := SetLeft(t, x, rightY);
    var t2 := if rightY != NIL then SetParent(t1, rightY, x) else t1;
    var px := t2.nodes[x].parent;
    var t3 := SetParent(t2, y, px);
    var t4 := Relink(t3, px, x, y);
    var t5 := SetRight(t4, y, x);
    SetParent(t5, x, y)
  }

  /** A left rotation keeps every key and colour, and writes no record but
      those of `x`, its right child `y`, `y`'s left child and `x`'s parent. */
  lemma RotateLeftFrame(t: RedBlackTree, x: Ref)
    requires t.Closed() && x < |t.nodes|
    ensures t.SameLabels(RotateLeft(t, x))
    ensures forall i :: (0 <= i < |t.nodes| && i != x && i != t.nodes[x].right &&
                         i != t.nodes[t.nodes[x].right].left && i != t.nodes[x].parent) ==>
              RotateLeft(t, x).nodes[i] == t.nodes[i]
    ensures x != NIL && t.nodes[x].right != NIL ==> RotateLeft(t, x).nodes[NIL] == t.nodes[NIL]
  {
  }

  /** The mirror image of `RotateLeftFrame`. */
  lemma RotateRightFrame(t: RedBlackTree, x: Ref)
    requires t.Closed() && x < |t.nodes|
    ensures t.SameLabels(RotateRight(t, x))
    ensures forall i :: (0 <= i < |t.nodes| && i != x && i != t.nodes[x].left &&
                         i != t.nodes[t.nodes[x].left].right && i != t.nodes[x].parent) ==>
              RotateRight(t, x).nodes[i] == t.nodes[i]
    ensures x != NIL && t.nodes[x].left != NIL ==> RotateRight(t, x).nodes[NIL] == t.nodes[NIL]
  {
  }

  /** The algebraic left rotation at the root of a subtree. */
  function RotL(s: Tree): Tree
    requires s.Branch? && s.right.Branch?
  {
    var Branch(a, x, kx, cx, Branch(b, y, ky, cy, c)) := s;
    Branch(Branch(a, x, kx, cx, b), y, ky, cy, c)
  }

  /** The algebraic right rotation at the root of a subtree. */
  function RotR(s: Tree): Tree
    requires s.Branch? && s.left.Branch?
  {
    var Branch(Branch(a, y, ky, cy, b), x, kx, cx, c) := s;
    Branch(a, y, ky, cy, Branch(b, x, kx, cx, c))
  }

  /** Rotations keep the in-order key sequence and the set of nodes. */
  lemma {:induction false} RotLKeepsOrder(s: Tree)
    requires s.Branch? && s.right.Branch?
    ensures InOrder(RotL(s)) == InOrder(s)
    ensures Ids(RotL(s)) == Ids(s)
    ensures Distinct(s) ==> Distinct(RotL(s))
  {
    var Branch(a, x, kx, cx, Branch(b, y, ky, cy, c)) := s;
    assert InOrder(RotL(s)) == (InOrder(a) + [kx] + InOrder(b)) + [ky] + InOrder(c);
    assert InOrder(s) == InOrder(a) + [kx] + (InOrder(b) + [ky] + InOrder(c));
    if Distinct(s) {
      var outer := Branch(b, y, ky, cy, c);
      assert Distinct(outer) && Distinct(a);
      assert Ids(outer) == Ids(b) + {y} + Ids(c);
      assert Ids(a) !! Ids(outer) && x !in Ids(outer);
      var inner := Branch(a, x, kx, cx, b);
      assert Ids(inner) == Ids(a) + {x} + Ids(b);
      assert Distinct(inner);
    }
  }

  lemma {:induction false} RotRKeepsOrder(s: Tree)
    requires s.Branch? && s.left.Branch?
    ensures InOrder(RotR(s)) == InOrder(s)
    ensures Ids(RotR(s)) == Ids(s)
    ensures Distinct(s) ==> Distinct(RotR(s))
  {
    var Branch(Branch(a, y, ky, cy, b), x, kx, cx, c) := s;
    assert InOrder(s) == (InOrder(a) + [ky] + InOrder(b)) + [kx] + InOrder(c);
    assert InOrder(RotR(s)) == InOrder(a) + [ky] + (InOrder(b) + [kx] + InOrder(c));
    if Distinct(s) {
      var outer := Branch(a, y, ky, cy, b);
      assert Distinct(outer) && Distinct(c);
      assert Ids(outer) == Ids(a) + {y} + Ids(b);
      assert Ids(outer) !! Ids(c) && x !in Ids(outer);
      var inner := Branch(b, x, kx, cx, c);
      assert Ids(inner) == Ids(b) + {x} + Ids(c);
      assert Distinct(inner);
    }
  }

  /** The records a left rotation writes, when `x`, its right child `y`, the
      inner child `b` and `x`'s parent `px` are distinct: `x` takes `b` as
      right child and `y` as parent, `y` takes `x` as left child and `px` as
      parent, `b` (unless the sentinel) takes `x` as parent, and `y` occupies
      `x`'s link in `px` (or the root). */
  lemma RotateLeftWrites(t: RedBlackTree, x: Ref)
    requires t.Closed() && NIL < x < |t.nodes|
    requires t.nodes[x].right != NIL && t.nodes[x].right != x
    requires var y := t.nodes[x].right; var b := t.nodes[y].left; var px := t.nodes[x].parent;
             b != x && b != y && px != x && px != y && (b != NIL ==> px != b)
    ensures var y := t.nodes[x].right; var b := t.nodes[y].left; var px := t.nodes[x].parent;
            var r := RotateLeft(t, x);
            && r.nodes[x] == t.nodes[x].(right := b, parent := y)
            && r.nodes[y] == t.nodes[y].(left := x, parent := px)
            && (b != NIL ==> r.nodes[b] == t.nodes[b].(parent := x))
            && (px != NIL && t.nodes[px].left == x ==> r.nodes[px] == t.nodes[px].(left := y))
            && (px != NIL && t.nodes[px].left != x ==> r.nodes[px] == t.nodes[px].(right := y))
            && r.root == (if px == NIL then y else t.root)
  {
  }

  lemma RotateRightWrites(t: RedBlackTree, x: Ref)
    requires t.Closed() && NIL < x < |t.nodes|
    requires t.nodes[x].left != NIL && t.nodes[x].left != x
    requires var y := t.nodes[x].left; var b := t.nodes[y].right; var px := t.nodes[x].parent;
             b != x && b != y && px != x && px != y && (b != NIL ==> px != b)
    ensures var y := t.nodes[x].left; var b := t.nodes[y].right; var px := t.nodes[x].parent;
            var r := RotateRight(t, x);
            && r.nodes[x] == t.nodes[x].(left := b, parent := y)
            && r.nodes[y] == t.nodes[y].(right := x, parent := px)
            && (b != NIL ==> r.nodes[b] == t.nodes[b].(parent := x))
            && (px != NIL && t.nodes[px].left == x ==> r.nodes[px] == t.nodes[px].(left := y))
            && (px != NIL && t.nodes[px].left != x ==> r.nodes[px] == t.nodes[px].(right := y))
            && r.root == (if px == NIL then y else t.root)
  {
  }

  /** The subtree half of `RotateLeftPlug`: with the records a left rotation
      writes, the arena spells out the rotated subtree. */
  lemma RotatedLeftSubtree(a: seq<Node>, b: seq<Node>, px: Ref, s: Tree)
    requires Repr(a, px, s) && Distinct(s) && s.Branch? && s.right.Branch?
    requires var x, y, lb := s.id, s.right.id, RootRef(s.right.left);
             && x < |a| && y < |a| && lb < |a| && x < |b| && y < |b| && lb < |b|
             && b[x] == a[x].(right := lb, parent := y)
             && b[y] == a[y].(left := x, parent := px)
             && (lb != NIL ==> b[lb] == a[lb].(parent := x))
             && forall i :: i in Ids(s) && i != x && i != y && i != lb ==> i < |a| && i < |b| && b[i] == a[i]
    ensures Repr(b, px, RotL(s))
  {
    var Branch(alpha, x, kx, cx, sr) := s;
    var Branch(beta, y, ky, cy, gamma) := sr;
    ReprIds(a, px, s);
    assert Ids(s) == Ids(alpha) + {x} + (Ids(beta) + {y} + Ids(gamma));
    ReprFrame(a, b, x, alpha);
    ReprReparent(a, b, y, x, beta);
    ReprFrame(a, b, y, gamma);
  }

  lemma RotatedRightSubtree(a: seq<Node>, b: seq<Node>, px: Ref, s: Tree)
    requires Repr(a, px, s) && Distinct(s) && s.Branch? && s.left.Branch?
    requires var x, y, rb := s.id, s.left.id, RootRef(s.left.right);
             && x < |a| && y < |a| && rb < |a| && x < |b| && y < |b| && rb < |b|
             && b[x] == a[x].(left := rb, parent := y)
             && b[y] == a[y].(right := x, parent := px)
             && (rb != NIL ==> b[rb] == a[rb].(parent := x))
             && forall i :: i in Ids(s) && i != x && i != y && i != rb ==> i < |a| && i < |b| && b[i] == a[i]
    ensures Repr(b, px, RotR(s))
  {
    var Branch(sl, x, kx, cx, gamma) := s;
    var Branch(alpha, y, ky, cy, beta) := sl;
    ReprIds(a, px, s);
    assert Ids(s) == (Ids(alpha) + {y} + Ids(beta)) + {x} + Ids(gamma);
    ReprFrame(a, b, y, alpha);
    ReprReparent(a, b, y, x, beta);
    ReprFrame(a, b, x, gamma);
  }

  /** A left rotation's writes, record by record, below a context: the
      context now holds `y` in its hole and `RotL(s)` hangs from it. */
  lemma RotatedLeftLinks(a: seq<Node>, b: seq<Node>, c: Ctx, s: Tree, root: Ref, root': Ref)
    requires s.Branch? && s.right.Branch? && CtxRepr(a, c, s.id, root) && CtxDistinct(c)
    requires Repr(a, Parent(c), s) && Distinct(s) && Ids(s) !! CtxIds(c) && |a| == |b|
    requires var x, y, lb, px := s.id, s.right.id, RootRef(s.right.left), Parent(c);
             && x < |a| && y < |a| && lb < |a| && px < |a|
             && b[x] == a[x].(right := lb, parent := y)
             && b[y] == a[y].(left := x, parent := px)
             && (lb != NIL ==> b[lb] == a[lb].(parent := x))
             && (forall i :: 0 <= i < |a| && i != x && i != y && i != lb && i != px ==> b[i] == a[i])
             && (c.LeftChildOf? ==> b[px] == a[px].(left := y))
             && (c.RightChildOf? ==> b[px] == a[px].(right := y))
             && root' == if c.Top? then y else root
    ensures CtxRepr(b, c, s.right.id, root') && Repr(b, Parent(c), RotL(s))
  {
    var Branch(alpha, x, kx, cx, sr) := s;
    var Branch(beta, y, ky, cy, gamma) := sr;
    var px := Parent(c);
    var lb := RootRef(beta);
    ReprIds(a, px, s);
    CtxReprIds(a, c, x, root);
    assert Ids(s) == Ids(alpha) + {x} + (Ids(beta) + {y} + Ids(gamma));
    assert px == NIL || px in CtxIds(c);
    forall i | i in Ids(s) && i != x && i != y && i != lb
      ensures i < |a| && i < |b| && b[i] == a[i]
    {
      assert i != px;
    }
    RotatedLeftSubtree(a, b, px, s);
    forall i | i in CtxIds(c) && i != px
      ensures i < |a| && i < |b| && b[i] == a[i]
    {
      assert i !in Ids(s);
    }
    CtxRehole(a, b, c, x, y, root, root');
  }

  /** Rotating left at a node whose right child is real turns the represented
      tree `Plug(c, s)` into `Plug(c, RotL(s))`: the risen child takes the
      node's slot in the same context, or becomes the root when the node was
      the root, and the sentinel is untouched. */
  lemma RotateLeftPlug(t: RedBlackTree, c: Ctx, s: Tree)
    requires Represents(t, Plug(c, s))
    requires s.Branch? && s.right.Branch?
    ensures s.id < |t.nodes| && Represents(RotateLeft(t, s.id), Plug(c, RotL(s)))
  {
    var Branch(alpha, x, kx, cx, sr) := s;
    var Branch(beta, y, ky, cy, gamma) := sr;
    var a := t.nodes;
    var px := Parent(c);
    var lb := RootRef(beta);
    ReprPlug(a, c, s, t.root);
    PlugDistinct(c, s);
    assert lb != x && lb != y && px != x && px != y && (lb != NIL ==> px != lb) by {
      ReprIds(a, px, s);
      CtxReprIds(a, c, x, t.root);
      assert Ids(s) == Ids(alpha) + {x} + (Ids(beta) + {y} + Ids(gamma));
      assert px == NIL || px in CtxIds(c);
    }
    if c.RightChildOf? {
      assert a[px].left != x by {
        CtxReprIds(a, c, x, t.root);
        if c.sibling.Branch? { assert c.sibling.id in CtxIds(c); }
      }
    }
    RotateLeftWrites(t, x);
    RotateLeftFrame(t, x);
    var r := RotateLeft(t, x);
    RotatedLeftLinks(a, r.nodes, c, s, t.root, r.root);
    RotLKeepsOrder(s);
    ReprPlug(r.nodes, c, RotL(s), r.root);
    PlugDistinct(c, RotL(s));
  }

  /** A right rotation's writes, record by record, below a context. */
  lemma RotatedRightLinks(a: seq<Node>, b: seq<Node>, c: Ctx, s: Tree, root: Ref, root': Ref)
    requires s.Branch? && s.left.Branch? && CtxRepr(a, c, s.id, root) && CtxDistinct(c)
    requires Repr(a, Parent(c), s) && Distinct(s) && Ids(s) !! CtxIds(c) && |a| == |b|
    requires var x, y, rb, px := s.id, s.left.id, RootRef(s.left.right), Parent(c);
             && x < |a| && y < |a| && rb < |a| && px < |a|
             && b[x] == a[x].(left := rb, parent := y)
             && b[y] == a[y].(right := x, parent := px)
             && (rb != NIL ==> b[rb] == a[rb].(parent := x))
             && (forall i :: 0 <= i < |a| && i != x && i != y && i != rb && i != px ==> b[i] == a[i])
             && (c.LeftChildOf? ==> b[px] == a[px].(left := y))
             && (c.RightChildOf? ==> b[px] == a[px].(right := y))
             && root' == if c.Top? then y else root
    ensures CtxRepr(b, c, s.left.id, root') && Repr(b, Parent(c), RotR(s))
  {
    var Branch(sl, x, kx, cx, gamma) := s;
    var Branch(alpha, y, ky, cy, beta) := sl;
    var px := Parent(c);
    var rb := RootRef(beta);
    ReprIds(a, px, s);
    CtxReprIds(a, c, x, root);
    assert Ids(s) == (Ids(alpha) + {y} + Ids(beta)) + {x} + Ids(gamma);
    assert px == NIL || px in CtxIds(c);
    forall i | i in Ids(s) && i != x && i != y && i != rb
      ensures i < |a| && i < |b| && b[i] == a[i]
    {
      assert i != px;
    }
    RotatedRightSubtree(a, b, px, s);
    forall i | i in CtxIds(c) && i != px
      ensures i < |a| && i < |b| && b[i] == a[i]
    {
      assert i !in Ids(s);
    }
    CtxRehole(a, b, c, x, y, root, root');
  }

  lemma RotateRightPlug(t: RedBlackTree, c: Ctx, s: Tree)
    requires Represents(t, Plug(c, s))
    requires s.Branch? && s.left.Branch?
    ensures s.id < |t.nodes| && Represents(RotateRight(t, s.id), Plug(c, RotR(s)))
  {
    var Branch(sl, x, kx, cx, gamma) := s;
    var Branch(alpha, y, ky, cy, beta) := sl;
    var a := t.nodes;
    var px := Parent(c);
    var rb := RootRef(beta);
    ReprPlug(a, c, s, t.root);
    PlugDistinct(c, s);
    assert rb != x && rb != y && px != x && px != y && (rb != NIL ==> px != rb) by {
      ReprIds(a, px, s);
      CtxReprIds(a, c, x, t.root);
      assert Ids(s) == (Ids(alpha) + {y} + Ids(beta)) + {x} + Ids(gamma);
      assert px == NIL || px in CtxIds(c);
    }
    if c.RightChildOf? {
      assert a[px].left != x by {
        CtxReprIds(a, c, x, t.root);
        if c.sibling.Branch? { assert c.sibling.id in CtxIds(c); }
      }
    }
    RotateRightWrites(t, x);
    RotateRightFrame(t, x);
    var r := RotateRight(t, x);
    RotatedRightLinks(a, r.nodes, c, s, t.root, r.root);
    RotRKeepsOrder(s);
    ReprPlug(r.nodes, c, RotR(s), r.root);
    PlugDistinct(c, RotR(s));
  }
}
