/** `remove` (red-blackTrees.cpp:419-468) on algebraic trees: the node the
    search stops at, the in-order successor that replaces it when it has
    two children, and the subtree left behind once it is unlinked. */
module RemoveShape {
  import opened Arena
  import opened Shape
  import opened Keys
  import opened Search

  /** The position `search`'s descent stops at, starting from subtree `s`
      in context `c`: the first node on the path that holds `v`, or the
      leaf where the path runs out. */
  function Locate(s: Tree, v: int, c: Ctx): (Ctx, Tree)
    decreases s
  {
    match s
    case Leaf => (c, s)
    case Branch(l, id, k, col, r) =>
      if k == v then (c, s)
      else if v < k then Locate(l, v, LeftChildOf(c, id, k, col, r))
      else Locate(r, v, RightChildOf(l, id, k, col, c))
  }

  /** The successor loop `while (y->getLeftNode() != NIL) y = y->getLeftNode()`
      on subtree `s` in context `d`: the leftmost node, and its context. */
  function LeftSpine(s: Tree, d: Ctx): (r: (Ctx, Tree))
    requires s.Branch?
    ensures r.1.Branch? && r.1.left.Leaf?
    decreases s
  {
    if s.left.Leaf? then (d, s)
    else LeftSpine(s.left, LeftChildOf(d, s.id, s.key, s.color, s.right))
  }

  /** The subtree that takes the place of the removed node `z`, before any
      rebalancing: its only child, or, when it has two, its in-order
      successor `y` carrying `z`'s colour, with `z`'s left subtree and with
      `y`'s right subtree in `y`'s old place. */
  function Spliced(z: Tree): Tree
    requires z.Branch?
  {
    if z.left.Leaf? then z.right
    else if z.right.Leaf? then z.left
    else
      var (d, y) := LeftSpine(z.right, Top);
      Branch(z.left, y.id, y.key, z.color, Plug(d, y.right))
  }

  /** The subtree `x` of the source: what moved into the unlinked node's
      place (the node `z` itself, or the successor `y`). */
  function XTree(z: Tree): Tree
    requires z.Branch?
  {
    if z.left.Leaf? then z.right
    else if z.right.Leaf? then z.left
    else LeftSpine(z.right, Top).1.right
  }

  /** The context of `XTree(z)` in the tree after unlinking, when `z` sat in
      context `c`. */
  function XCtx(c: Ctx, z: Tree): Ctx
    requires z.Branch?
  {
    if z.left.Leaf? || z.right.Leaf? then c
    else
      var (d, y) := LeftSpine(z.right, Top);
      Compose(d, RightChildOf(z.left, y.id, y.key, z.color, c))
  }

  /** `colorY`: the colour of the node that left the tree's structure. */
  function RemovedColor(z: Tree): Color
    requires z.Branch?
  {
    if z.left.Leaf? || z.right.Leaf? then z.color
    else LeftSpine(z.right, Top).1.color
  }

  /** `remove(v)` on a tree where `x` is the sentinel or red (as it always
      is in a red-black tree, `XTreeRedOrLeaf`): unlink the node the search
      finds and, when a black node left, blacken `x`. */
  function RemoveTree(tr: Tree, v: int): Tree {
    var (c, z) := Locate(tr, v, Top);
    if z.Leaf? then tr
    else if RemovedColor(z) == Black then Plug(XCtx(c, z), Blacken(XTree(z)))
    else Plug(c, Spliced(z))
  }

  // ---------------------------------------------------------------------------
  // The search position.

  lemma {:induction false} LocatePlug(s: Tree, v: int, c: Ctx)
    ensures Plug(Locate(s, v, c).0, Locate(s, v, c).1) == Plug(c, s)
    decreases s
  {
    match s
    case Leaf =>
    case Branch(l, id, k, col, r) =>
      if k != v {
        if v < k {
          LocatePlug(l, v, LeftChildOf(c, id, k, col, r));
        } else {
          LocatePlug(r, v, RightChildOf(l, id, k, col, c));
        }
      }
  }

  /** The search position is the node `Find` returns, and it holds `v`. */
  lemma {:induction false} LocateFind(s: Tree, v: int, c: Ctx)
    ensures Locate(s, v, c).1.Branch? <==> Find(s, v).Some?
    ensures Locate(s, v, c).1.Branch? ==>
              Locate(s, v, c).1.id == Find(s, v).value && Locate(s, v, c).1.key == v
    decreases s
  {
    match s
    case Leaf =>
    case Branch(l, id, k, col, r) =>
      if k != v {
        if v < k {
          LocateFind(l, v, LeftChildOf(c, id, k, col, r));
        } else {
          LocateFind(r, v, RightChildOf(l, id, k, col, c));
        }
      }
  }

  // ---------------------------------------------------------------------------
  // The successor.

  lemma {:induction false} LeftSpinePlug(s: Tree, d: Ctx)
    requires s.Branch?
    ensures Plug(LeftSpine(s, d).0, LeftSpine(s, d).1) == Plug(d, s)
    ensures Before(LeftSpine(s, d).0) == Before(d)
    ensures LeftSpine(s, d).0 == d <==> s.left.Leaf?
    ensures Depth(LeftSpine(s, d).0) >= Depth(d)
    ensures s.left.Branch? ==> Depth(LeftSpine(s, d).0) > Depth(d)
    decreases s
  {
    if s.left.Branch? {
      LeftSpinePlug(s.left, LeftChildOf(d, s.id, s.key, s.color, s.right));
    }
  }

  /** The tree after unlinking, seen from `x`'s position. */
  lemma XPlug(c: Ctx, z: Tree)
    requires z.Branch?
    ensures Plug(XCtx(c, z), XTree(z)) == Plug(c, Spliced(z))
  {
    if z.left.Branch? && z.right.Branch? {
      var (d, y) := LeftSpine(z.right, Top);
      PlugCompose(d, RightChildOf(z.left, y.id, y.key, z.color, c), y.right);
    }
  }

  /** The keys of `z`'s right subtree are the successor's key, then the
      keys of what stays behind when the successor is cut out. */
  lemma SuccessorInOrder(z: Tree)
    requires z.Branch? && z.right.Branch?
    ensures InOrder(z.right) ==
              [LeftSpine(z.right, Top).1.key] + InOrder(Plug(LeftSpine(z.right, Top).0, LeftSpine(z.right, Top).1.right))
  {
    var d, y := LeftSpine(z.right, Top).0, LeftSpine(z.right, Top).1;
    LeftSpinePlug(z.right, Top);
    var Y, A := InOrder(y.right), After(d);
    assert InOrder(z.right) == [y.key] + Y + A by {
      PlugInOrder(d, y);
      assert InOrder(y) == [y.key] + Y;
    }
    assert InOrder(Plug(d, y.right)) == Y + A by {
      PlugInOrder(d, y.right);
    }
    assert [y.key] + Y + A == [y.key] + (Y + A);
  }

  /** Unlinking drops exactly the key of `z`: the successor's key is the
      first key of `z`'s right subtree. */
  lemma SplicedInOrder(z: Tree)
    requires z.Branch?
    ensures InOrder(Spliced(z)) == InOrder(z.left) + InOrder(z.right)
  {
    if z.left.Branch? && z.right.Branch? {
      var (d, y) := LeftSpine(z.right, Top);
      SuccessorInOrder(z);
      var L, R := InOrder(z.left), InOrder(Plug(d, y.right));
      assert InOrder(Spliced(z)) == L + [y.key] + R;
      assert L + [y.key] + R == L + ([y.key] + R);
    }
  }

  /** Unlinking drops exactly the node `z` from the tree's records. */
  lemma SplicedIds(z: Tree)
    requires z.Branch? && Distinct(z)
    ensures Ids(Spliced(z)) == Ids(z) - {z.id} && Distinct(Spliced(z))
  {
    if z.left.Branch? && z.right.Branch? {
      var (d, y) := LeftSpine(z.right, Top);
      LeftSpinePlug(z.right, Top);
      PlugIds(d, y);
      PlugIds(d, y.right);
      PlugDistinct(d, y);
      PlugDistinct(d, y.right);
      assert Ids(y) == {y.id} + Ids(y.right);
    }
  }

  /** In a balanced tree a node with a leaf child has, as its other child, a
      leaf or a red node; so `x` is the sentinel or red. */
  lemma XTreeRedOrLeaf(z: Tree)
    requires z.Branch? && Balanced(z)
    ensures XTree(z).Leaf? || XTree(z).color == Red
  {
    if z.left.Branch? && z.right.Branch? {
      var (d, y) := LeftSpine(z.right, Top);
      LeftSpinePlug(z.right, Top);
      PlugBalanced(d, y);
    }
  }

  // ---------------------------------------------------------------------------
  // The whole removal.

  lemma SplicedPlugInOrder(c: Ctx, z: Tree)
    requires z.Branch?
    ensures InOrder(Plug(c, Spliced(z))) == Before(c) + InOrder(z.left) + (InOrder(z.right) + After(c))
  {
    PlugInOrder(c, Spliced(z));
    SplicedInOrder(z);
  }

  /** Unlinking the node at position `c` deletes its key at its in-order
      index; on a sorted sequence that is deleting the first occurrence. */
  lemma UnlinkInOrder(c: Ctx, z: Tree)
    requires z.Branch? && Sorted(InOrder(Plug(c, z)))
    ensures InOrder(Plug(c, Spliced(z))) == RemoveFirst(InOrder(Plug(c, z)), z.key)
  {
    var front, back := Before(c) + InOrder(z.left), InOrder(z.right) + After(c);
    assert InOrder(Plug(c, z)) == front + [z.key] + back by {
      PlugInOrder(c, z);
    }
    SplicedPlugInOrder(c, z);
    RemoveMiddle(InOrder(Plug(c, z)), front, z.key, back);
  }

  /** The algebraic removal deletes one occurrence of `v` from a sorted
      in-order sequence, and nothing when `v` is absent. */
  lemma RemoveTreeInOrder(tr: Tree, v: int)
    requires Sorted(InOrder(tr))
    ensures InOrder(RemoveTree(tr, v)) == RemoveFirst(InOrder(tr), v)
  {
    var (c, z) := Locate(tr, v, Top);
    LocatePlug(tr, v, Top);
    LocateFind(tr, v, Top);
    if z.Leaf? {
      FindComplete(tr, v);
      RemoveFirstContents(InOrder(tr), v);
    } else {
      UnlinkInOrder(c, z);
      if RemovedColor(z) == Black {
        XPlug(c, z);
        PlugSameInOrder(XCtx(c, z), Blacken(XTree(z)), XTree(z));
      }
    }
  }
}
