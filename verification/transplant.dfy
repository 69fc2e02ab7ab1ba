/** `replaceSubtree` (red-blackTrees.cpp:407-417): the transplant step that
    puts the subtree rooted at `y` into the slot that `x` occupies. */
module Transplant {
  import opened Arena
  import opened Shape
  import opened Represent

  /** `replaceSubtree(x, y)`: `x`'s parent (or the root pointer, when that
      parent is the sentinel) takes `y` in place of `x`, and `y`, unless it
      is the sentinel, takes `x`'s parent as its own. Only those two links
      change; `x`'s record is left as it was. */
  function ReplaceSubtree(t: RedBlackTree, x: Ref, y: Ref): (r: RedBlackTree)
    requires t.Closed() && x < |t.nodes| && y < |t.nodes|
    ensures r.Closed() && t.SameLabels(r)
    ensures t.nodes[x].parent == NIL ==> r.root == y
    ensures t.nodes[x].parent != NIL ==> r.root == t.root
    ensures forall i :: 0 <= i < |t.nodes| && i != t.nodes[x].parent && i != y ==> r.nodes[i] == t.nodes[i]
    ensures var px := t.nodes[x].parent;
            px != NIL && px != y && t.nodes[px].left == x ==> r.nodes[px] == t.nodes[px].(left := y)
    ensures var px := t.nodes[x].parent;
            px != NIL && px != y && t.nodes[px].left != x ==> r.nodes[px] == t.nodes[px].(right := y)
    ensures y != NIL && y != t.nodes[x].parent ==> r.nodes[y] == t.nodes[y].(parent := t.nodes[x].parent)
    ensures r.nodes[NIL] == t.nodes[NIL]
  {
    var px := t.nodes[x].parent;
    var t1 := Relink(t, px, x, y);
    if y != NIL then SetParent(t1, y, t1.nodes[x].parent) else t1
  }

  /** The record-level half of `ReplaceSubtreePlug`: the context now holds
      `w` in its hole, and `w` hangs from the context's hole owner. */
  lemma ReplaceSubtreeLinks(t: RedBlackTree, c: Ctx, s: Tree, right: bool)
    requires t.Closed() && t.SentinelIntact() && s.Branch?
    requires CtxRepr(t.nodes, c, s.id, t.root) && Repr(t.nodes, Parent(c), s)
    requires Distinct(s) && CtxDistinct(c) && Ids(s) !! CtxIds(c)
    ensures s.id < |t.nodes| && RootRef(Child(s, right)) < |t.nodes|
    ensures var w := Child(s, right);
            var r := ReplaceSubtree(t, s.id, RootRef(w));
            CtxRepr(r.nodes, c, RootRef(w), r.root) && Repr(r.nodes, Parent(c), w) && r.SentinelIntact()
  {
    var w := Child(s, right);
    var a := t.nodes;
    var x := s.id;
    var px := Parent(c);
    var y := RootRef(w);
    ReprIds(a, px, s);
    assert a[x] == Node(s.key, s.color, RootRef(s.left), RootRef(s.right), px);
    assert Repr(a, x, w) && Distinct(w);
    assert Ids(w) <= Ids(s) && x !in Ids(w);
    assert px == NIL || px in CtxIds(c);
    assert y != NIL ==> y in Ids(w) && y != px;
    var r := ReplaceSubtree(t, x, y);
    var b := r.nodes;
    assert y != NIL ==> b[y] == a[y].(parent := px);
    forall i | i in Ids(w) && i != y
      ensures i < |a| && i < |b| && b[i] == a[i]
    {
      assert i != px;
    }
    ReprReparent(a, b, x, px, w);
    forall i | i in CtxIds(c) && i != px
      ensures i < |a| && i < |b| && b[i] == a[i]
    {
      CtxReprIds(a, c, x, t.root);
      assert i !in Ids(s);
      assert i != y && i != x && i < |a|;
    }
    CtxRehole(a, b, c, x, y, t.root, r.root);
  }

  /** Transplanting a child subtree of the subtree `s` in the hole (its
      right child when `right`, else its left) turns the represented tree
      `Plug(c, s)` into `Plug(c, Child(s, right))`: `s`'s root and its other
      child drop out of the tree, and the sentinel is untouched. */
  lemma ReplaceSubtreePlug(t: RedBlackTree, c: Ctx, s: Tree, right: bool)
    requires Represents(t, Plug(c, s)) && s.Branch?
    ensures s.id < |t.nodes| && RootRef(Child(s, right)) < |t.nodes|
    ensures Represents(ReplaceSubtree(t, s.id, RootRef(Child(s, right))), Plug(c, Child(s, right)))
  {
    var w := Child(s, right);
    ReprPlug(t.nodes, c, s, t.root);
    PlugDistinct(c, s);
    ReplaceSubtreeLinks(t, c, s, right);
    var r := ReplaceSubtree(t, s.id, RootRef(w));
    ReprPlug(r.nodes, c, w, r.root);
    assert Ids(w) <= Ids(s);
    PlugDistinct(c, w);
  }
}
