/** `insert` and `insertRebalance` (red-blackTrees.cpp:175-223, 361-389) on
    algebraic trees: where the descent attaches the new red node, one
    iteration of the fix-up loop as a step between zipper states, and the
    invariant that makes the loop restore the red-black rules. The arena
    versions in `Insertion` are shown to follow these steps. */
module InsertShape {
  import opened Arena
  import opened Shape
  import opened Keys

  /** The position `insert`'s descent reaches from the subtree `s` sitting
      in context `c`: keys below the current key go left, all others
      (equal keys included) go right. */
  function Path(s: Tree, v: int, c: Ctx): Ctx
    decreases s
  {
    match s
    case Leaf => c
    case Branch(l, id, k, col, r) =>
      if v < k then Path(l, v, LeftChildOf(c, id, k, col, r))
      else Path(r, v, RightChildOf(l, id, k, col, c))
  }

  /** The freshly allocated node: red, with sentinel children. */
  function NewLeaf(n: Ref, v: int): Tree {
    Branch(Leaf, n, v, Red, Leaf)
  }

  /** The subtree rooted at the node that owns the hole, with `z` in the hole. */
  function Up(c: Ctx, z: Tree): Tree
    requires !c.Top?
  {
    match c
    case LeftChildOf(_, id, k, col, sib) => Branch(z, id, k, col, sib)
    case RightChildOf(sib, id, k, col, _) => Branch(sib, id, k, col, z)
  }

  /** The loop guard of `insertRebalance`: the node's parent is red. At the
      top the parent is the sentinel, which is black. */
  predicate ParentRed(c: Ctx) {
    !c.Top? && c.color == Red
  }

  /** One iteration of the `insertRebalance` loop, with the focus `z` the
      current node and `c` its context, so `c.id` is the parent and `c.up.id`
      the grandparent. With a red uncle the parent and uncle turn black, the
      grandparent red, and the grandparent becomes the current node. With a
      black uncle one or two rotations put a black node in the grandparent's
      place. In the inner case this is the textbook step that re-reads the
      parent after the first rotation (see `Insertion.Variant`). */
  function FixStep(c: Ctx, z: Tree): (r: (Ctx, Tree))
    requires z.Branch? && !c.Top? && !c.up.Top?
    ensures r.1.Branch? && Depth(r.0) < Depth(c)
  {
    match c.up
    case LeftChildOf(cg, g, kg, _, u) =>
      if ColorOf(u) == Red then
        (cg, Branch(Blacken(Up(c, z)), g, kg, Red, Blacken(u)))
      else if c.RightChildOf? then
        (LeftChildOf(cg, z.id, z.key, Black, Branch(z.right, g, kg, Red, u)),
         Branch(c.sibling, c.id, c.key, c.color, z.left))
      else
        (LeftChildOf(cg, c.id, c.key, Black, Branch(c.sibling, g, kg, Red, u)), z)
    case RightChildOf(u, g, kg, _, cg) =>
      if ColorOf(u) == Red then
        (cg, Branch(Blacken(u), g, kg, Red, Blacken(Up(c, z))))
      else if c.LeftChildOf? then
        (RightChildOf(Branch(u, g, kg, Red, z.left), z.id, z.key, Black, cg),
         Branch(z.right, c.id, c.key, c.color, c.sibling))
      else
        (RightChildOf(Branch(u, g, kg, Red, c.sibling), c.id, c.key, Black, cg), z)
  }

  /** The `insertRebalance` loop: step while the parent is red. A red parent
      without a grandparent cannot occur under `FixInv`; the loop stops there. */
  function FixLoop(c: Ctx, z: Tree): (r: (Ctx, Tree))
    requires z.Branch?
    ensures r.1.Branch?
    decreases Depth(c)
  {
    if !ParentRed(c) || c.up.Top? then (c, z)
    else
      var (c', z') := FixStep(c, z);
      FixLoop(c', z')
  }

  /** The algebraic `insert(v)`, the new node getting record `n`: attach it
      where the descent ends, run the fix-up loop, blacken the root. */
  function InsertTree(tr: Tree, v: int, n: Ref): Tree {
    var (c, z) := FixLoop(Path(tr, v, Top), NewLeaf(n, v));
    Blacken(Plug(c, z))
  }

  /** The loop invariant: the current node is red, its subtree obeys the
      red-black rules, the rest of the tree obeys them too provided the
      current node counted as black (the one red-red pair allowed is the
      current node and its parent), and the root is black unless the
      current node is the root. */
  ghost predicate FixInv(c: Ctx, z: Tree) {
    && z.Branch? && z.color == Red && Balanced(z) && RedRule(z)
    && CtxBalanced(c, BlackHeight(z)) && CtxRedRule(c, Black)
    && (!c.Top? ==> TopColor(c) == Black)
  }

  // ---------------------------------------------------------------------------
  // The descent.

  lemma {:induction false} PathPlug(s: Tree, v: int, c: Ctx)
    ensures Plug(Path(s, v, c), Leaf) == Plug(c, s)
    decreases s
  {
    match s
    case Leaf =>
    case Branch(l, id, k, col, r) =>
      if v < k {
        PathPlug(l, v, LeftChildOf(c, id, k, col, r));
      } else {
        PathPlug(r, v, RightChildOf(l, id, k, col, c));
      }
  }

  /** The descent through a non-empty subtree ends below a node, on its
      left exactly when the new key is smaller than that node's key. */
  lemma {:induction false} PathLast(s: Tree, v: int, c: Ctx)
    requires s.Branch?
    ensures !Path(s, v, c).Top?
    ensures Path(s, v, c).LeftChildOf? <==> v < Path(s, v, c).key
    decreases s
  {
    var Branch(l, id, k, col, r) := s;
    if v < k {
      if l.Branch? { PathLast(l, v, LeftChildOf(c, id, k, col, r)); }
    } else {
      if r.Branch? { PathLast(r, v, RightChildOf(l, id, k, col, c)); }
    }
  }

  /** In a sorted tree the descent ends between the keys not above `v` and
      the keys above it. */
  lemma {:induction false} PathKeys(s: Tree, v: int, c: Ctx)
    requires Sorted(InOrder(Plug(c, s)))
    requires AllAtMost(Before(c), v) && AllAbove(After(c), v)
    ensures AllAtMost(Before(Path(s, v, c)), v) && AllAbove(After(Path(s, v, c)), v)
    decreases s
  {
    match s
    case Leaf =>
    case Branch(l, id, k, col, r) =>
      PlugInOrder(c, s);
      if v < k {
        SortedAbove(Before(c), InOrder(l), k, InOrder(r), After(c), v);
        PathKeys(l, v, LeftChildOf(c, id, k, col, r));
      } else {
        SortedAtMost(Before(c), InOrder(l), k, InOrder(r), After(c), v);
        PathKeys(r, v, RightChildOf(l, id, k, col, c));
      }
  }

  // ---------------------------------------------------------------------------
  // Facts about zippers used by the fix-up proofs.

  lemma UpPlug(c: Ctx, z: Tree)
    requires !c.Top?
    ensures Plug(c, z) == Plug(c.up, Up(c, z))
  {
  }

  // ---------------------------------------------------------------------------
  // The fix-up step keeps the invariant and the keys.

  /** Red uncle, parent on the left. */
  lemma FixRecolorLeft(c: Ctx, z: Tree)
    requires FixInv(c, z) && ParentRed(c) && !c.up.Top? && c.up.LeftChildOf?
    requires ColorOf(c.up.sibling) == Red
    ensures FixInv(FixStep(c, z).0, FixStep(c, z).1)
    ensures InOrder(Plug(FixStep(c, z).0, FixStep(c, z).1)) == InOrder(Plug(c, z))
  {
    var LeftChildOf(cg, g, kg, gc, u) := c.up;
    var h := BlackHeight(z);
    var p := Up(c, z);
    assert Balanced(c.sibling) && BlackHeight(c.sibling) == h && RedRule(c.sibling);
    assert ColorOf(c.sibling) == Black;
    assert CtxRedRule(c.up, Red) && CtxBalanced(c.up, h);
    assert gc == Black && Balanced(u) && BlackHeight(u) == h && RedRule(u);
    assert CtxBalanced(cg, h + 1) && CtxRedRule(cg, Black);
    assert BlackHeight(Blacken(p)) == h + 1 && Balanced(Blacken(p)) && RedRule(Blacken(p));
    assert BlackHeight(Blacken(u)) == h + 1 && Balanced(Blacken(u)) && RedRule(Blacken(u));
    var z' := Branch(Blacken(p), g, kg, Red, Blacken(u));
    assert FixStep(c, z) == (cg, z');
    assert !cg.Top? ==> TopColor(cg) == TopColor(c);
    PlugSameInOrder(cg, z', Branch(p, g, kg, gc, u));
  }

  /** Red uncle, parent on the right. */
  lemma FixRecolorRight(c: Ctx, z: Tree)
    requires FixInv(c, z) && ParentRed(c) && !c.up.Top? && c.up.RightChildOf?
    requires ColorOf(c.up.sibling) == Red
    ensures FixInv(FixStep(c, z).0, FixStep(c, z).1)
    ensures InOrder(Plug(FixStep(c, z).0, FixStep(c, z).1)) == InOrder(Plug(c, z))
  {
    var RightChildOf(u, g, kg, gc, cg) := c.up;
    var h := BlackHeight(z);
    var p := Up(c, z);
    assert Balanced(c.sibling) && BlackHeight(c.sibling) == h && RedRule(c.sibling);
    assert ColorOf(c.sibling) == Black;
    assert CtxRedRule(c.up, Red) && CtxBalanced(c.up, h);
    assert gc == Black && Balanced(u) && BlackHeight(u) == h && RedRule(u);
    assert CtxBalanced(cg, h + 1) && CtxRedRule(cg, Black);
    assert BlackHeight(Blacken(p)) == h + 1 && Balanced(Blacken(p)) && RedRule(Blacken(p));
    assert BlackHeight(Blacken(u)) == h + 1 && Balanced(Blacken(u)) && RedRule(Blacken(u));
    var z' := Branch(Blacken(u), g, kg, Red, Blacken(p));
    assert FixStep(c, z) == (cg, z');
    assert !cg.Top? ==> TopColor(cg) == TopColor(c);
    PlugSameInOrder(cg, z', Branch(u, g, kg, gc, p));
  }

  /** Black uncle, parent on the left, node on the left (one rotation). */
  lemma FixOuterLeft(c: Ctx, z: Tree)
    requires FixInv(c, z) && ParentRed(c) && !c.up.Top? && c.up.LeftChildOf?
    requires ColorOf(c.up.sibling) == Black && c.LeftChildOf?
    ensures FixInv(FixStep(c, z).0, FixStep(c, z).1) && !ParentRed(FixStep(c, z).0)
    ensures InOrder(Plug(FixStep(c, z).0, FixStep(c, z).1)) == InOrder(Plug(c, z))
  {
    var LeftChildOf(cg, g, kg, gc, u) := c.up;
    var LeftChildOf(_, p, kp, pc, s) := c;
    var h := BlackHeight(z);
    assert Balanced(s) && BlackHeight(s) == h && RedRule(s) && ColorOf(s) == Black;
    assert CtxRedRule(c.up, Red) && CtxBalanced(c.up, h);
    assert gc == Black && Balanced(u) && BlackHeight(u) == h && RedRule(u);
    assert CtxBalanced(cg, h + 1) && CtxRedRule(cg, Black);
    var sib := Branch(s, g, kg, Red, u);
    assert Balanced(sib) && BlackHeight(sib) == h && RedRule(sib);
    var c' := LeftChildOf(cg, p, kp, Black, sib);
    assert FixStep(c, z) == (c', z);
    assert !cg.Top? ==> TopColor(cg) == TopColor(c);
    assert Plug(c', z) == Plug(cg, Branch(z, p, kp, Black, sib));
    assert Plug(c, z) == Plug(cg, Branch(Branch(z, p, kp, pc, s), g, kg, gc, u));
    PlugSameInOrder(cg, Branch(z, p, kp, Black, sib), Branch(Branch(z, p, kp, pc, s), g, kg, gc, u));
  }

  /** Black uncle, parent on the right, node on the right (one rotation). */
  lemma FixOuterRight(c: Ctx, z: Tree)
    requires FixInv(c, z) && ParentRed(c) && !c.up.Top? && c.up.RightChildOf?
    requires ColorOf(c.up.sibling) == Black && c.RightChildOf?
    ensures FixInv(FixStep(c, z).0, FixStep(c, z).1) && !ParentRed(FixStep(c, z).0)
    ensures InOrder(Plug(FixStep(c, z).0, FixStep(c, z).1)) == InOrder(Plug(c, z))
  {
    var RightChildOf(u, g, kg, gc, cg) := c.up;
    var RightChildOf(s, p, kp, pc, _) := c;
    var h := BlackHeight(z);
    assert Balanced(s) && BlackHeight(s) == h && RedRule(s) && ColorOf(s) == Black;
    assert CtxRedRule(c.up, Red) && CtxBalanced(c.up, h);
    assert gc == Black && Balanced(u) && BlackHeight(u) == h && RedRule(u);
    assert CtxBalanced(cg, h + 1) && CtxRedRule(cg, Black);
    var sib := Branch(u, g, kg, Red, s);
    assert Balanced(sib) && BlackHeight(sib) == h && RedRule(sib);
    var c' := RightChildOf(sib, p, kp, Black, cg);
    assert FixStep(c, z) == (c', z);
    assert !cg.Top? ==> TopColor(cg) == TopColor(c);
    assert Plug(c', z) == Plug(cg, Branch(sib, p, kp, Black, z));
    assert Plug(c, z) == Plug(cg, Branch(u, g, kg, gc, Branch(s, p, kp, pc, z)));
    PlugSameInOrder(cg, Branch(sib, p, kp, Black, z), Branch(u, g, kg, gc, Branch(s, p, kp, pc, z)));
  }

  /** Black uncle, parent on the left, node on the right (two rotations). */
  lemma FixInnerLeft(c: Ctx, z: Tree)
    requires FixInv(c, z) && ParentRed(c) && !c.up.Top? && c.up.LeftChildOf?
    requires ColorOf(c.up.sibling) == Black && c.RightChildOf?
    ensures FixInv(FixStep(c, z).0, FixStep(c, z).1) && !ParentRed(FixStep(c, z).0)
    ensures InOrder(Plug(FixStep(c, z).0, FixStep(c, z).1)) == InOrder(Plug(c, z))
  {
    var LeftChildOf(cg, g, kg, gc, u) := c.up;
    var RightChildOf(s, p, kp, pc, _) := c;
    var Branch(zl, zid, kz, zc, zr) := z;
    var h := BlackHeight(z);
    assert Balanced(s) && BlackHeight(s) == h && RedRule(s) && ColorOf(s) == Black;
    assert CtxRedRule(c.up, Red) && CtxBalanced(c.up, h);
    assert gc == Black && Balanced(u) && BlackHeight(u) == h && RedRule(u);
    assert CtxBalanced(cg, h + 1) && CtxRedRule(cg, Black);
    assert BlackHeight(zl) == h && BlackHeight(zr) == h && ColorOf(zl) == Black && ColorOf(zr) == Black;
    var sib := Branch(zr, g, kg, Red, u);
    assert Balanced(sib) && BlackHeight(sib) == h && RedRule(sib);
    var z' := Branch(s, p, kp, pc, zl);
    assert Balanced(z') && BlackHeight(z') == h && RedRule(z');
    var c' := LeftChildOf(cg, zid, kz, Black, sib);
    assert FixStep(c, z) == (c', z');
    assert !cg.Top? ==> TopColor(cg) == TopColor(c);
    var before := Branch(Branch(s, p, kp, pc, z), g, kg, gc, u);
    var after := Branch(z', zid, kz, Black, sib);
    assert Plug(c', z') == Plug(cg, after);
    assert Plug(c, z) == Plug(cg, before);
    var S, L, R, U := InOrder(s), InOrder(zl), InOrder(zr), InOrder(u);
    assert InOrder(after) == S + [kp] + L + [kz] + R + [kg] + U;
    assert InOrder(z) == L + [kz] + R;
    assert InOrder(Branch(s, p, kp, pc, z)) == S + [kp] + (L + [kz] + R);
    assert InOrder(before) == S + [kp] + L + [kz] + R + [kg] + U;
    PlugSameInOrder(cg, after, before);
  }

  /** Black uncle, parent on the right, node on the left (two rotations). */
  lemma FixInnerRight(c: Ctx, z: Tree)
    requires FixInv(c, z) && ParentRed(c) && !c.up.Top? && c.up.RightChildOf?
    requires ColorOf(c.up.sibling) == Black && c.LeftChildOf?
    ensures FixInv(FixStep(c, z).0, FixStep(c, z).1) && !ParentRed(FixStep(c, z).0)
    ensures InOrder(Plug(FixStep(c, z).0, FixStep(c, z).1)) == InOrder(Plug(c, z))
  {
    var RightChildOf(u, g, kg, gc, cg) := c.up;
    var LeftChildOf(_, p, kp, pc, s) := c;
    var Branch(zl, zid, kz, zc, zr) := z;
    var h := BlackHeight(z);
    assert Balanced(s) && BlackHeight(s) == h && RedRule(s) && ColorOf(s) == Black;
    assert CtxRedRule(c.up, Red) && CtxBalanced(c.up, h);
    assert gc == Black && Balanced(u) && BlackHeight(u) == h && RedRule(u);
    assert CtxBalanced(cg, h + 1) && CtxRedRule(cg, Black);
    assert BlackHeight(zl) == h && BlackHeight(zr) == h && ColorOf(zl) == Black && ColorOf(zr) == Black;
    var sib := Branch(u, g, kg, Red, zl);
    assert Balanced(sib) && BlackHeight(sib) == h && RedRule(sib);
    var z' := Branch(zr, p, kp, pc, s);
    assert Balanced(z') && BlackHeight(z') == h && RedRule(z');
    var c' := RightChildOf(sib, zid, kz, Black, cg);
    assert FixStep(c, z) == (c', z');
    assert !cg.Top? ==> TopColor(cg) == TopColor(c);
    var before := Branch(u, g, kg, gc, Branch(z, p, kp, pc, s));
    var after := Branch(sib, zid, kz, Black, z');
    assert Plug(c', z') == Plug(cg, after);
    assert Plug(c, z) == Plug(cg, before);
    var S, L, R, U := InOrder(s), InOrder(zl), InOrder(zr), InOrder(u);
    assert InOrder(after) == U + [kg] + L + [kz] + R + [kp] + S;
    assert InOrder(z) == L + [kz] + R;
    assert InOrder(Branch(z, p, kp, pc, s)) == (L + [kz] + R) + [kp] + S;
    assert InOrder(before) == U + [kg] + L + [kz] + R + [kp] + S;
    PlugSameInOrder(cg, after, before);
  }

  /** Every iteration keeps the invariant and the in-order keys. */
  lemma FixStepInv(c: Ctx, z: Tree)
    requires FixInv(c, z) && ParentRed(c)
    ensures !c.up.Top?
    ensures FixInv(FixStep(c, z).0, FixStep(c, z).1)
    ensures InOrder(Plug(FixStep(c, z).0, FixStep(c, z).1)) == InOrder(Plug(c, z))
  {
    assert CtxRedRule(c.up, Red);
    if c.up.Top? {
      assert false;
    }
    if c.up.LeftChildOf? {
      if ColorOf(c.up.sibling) == Red {
        FixRecolorLeft(c, z);
      } else if c.RightChildOf? {
        FixInnerLeft(c, z);
      } else {
        FixOuterLeft(c, z);
      }
    } else {
      if ColorOf(c.up.sibling) == Red {
        FixRecolorRight(c, z);
      } else if c.LeftChildOf? {
        FixInnerRight(c, z);
      } else {
        FixOuterRight(c, z);
      }
    }
  }

  /** The loop ends with the invariant and a black (or absent) parent, and
      keeps the in-order keys. */
  lemma {:induction false} FixLoopInv(c: Ctx, z: Tree)
    requires FixInv(c, z)
    ensures FixInv(FixLoop(c, z).0, FixLoop(c, z).1)
    ensures !ParentRed(FixLoop(c, z).0)
    ensures InOrder(Plug(FixLoop(c, z).0, FixLoop(c, z).1)) == InOrder(Plug(c, z))
    decreases Depth(c)
  {
    if ParentRed(c) {
      FixStepInv(c, z);
      var (c', z') := FixStep(c, z);
      FixLoopInv(c', z');
    }
  }

  /** When the loop stops, the whole tree obeys the red-black rules except
      that the root may be red. */
  lemma FixDone(c: Ctx, z: Tree)
    requires FixInv(c, z) && !ParentRed(c)
    ensures Balanced(Plug(c, z)) && RedRule(Plug(c, z))
  {
    PlugBalanced(c, z);
    PlugRedRule(c, z);
    assert CtxRedRule(c, Red);
  }

  lemma BlackenRoot(t: Tree)
    requires Balanced(t) && RedRule(t)
    ensures IsRedBlack(Blacken(t)) && InOrder(Blacken(t)) == InOrder(t)
  {
  }

  /** The invariant holds when the new red node has just been attached to a
      red-black tree. */
  lemma FixInvInitial(tr: Tree, v: int, n: Ref)
    requires IsRedBlack(tr)
    ensures FixInv(Path(tr, v, Top), NewLeaf(n, v))
  {
    var c := Path(tr, v, Top);
    PathPlug(tr, v, Top);
    PlugBalanced(c, Leaf);
    PlugRedRule(c, Leaf);
    PlugRoot(c, Leaf);
  }

  /** The algebraic insert keeps the red-black rules, adds exactly one `v`,
      and on sorted keys places it behind every key not above it. */
  lemma InsertTreeCorrect(tr: Tree, v: int, n: Ref)
    requires IsRedBlack(tr)
    ensures IsRedBlack(InsertTree(tr, v, n))
    ensures multiset(InOrder(InsertTree(tr, v, n))) == multiset(InOrder(tr)) + multiset{v}
    ensures Sorted(InOrder(tr)) ==> InOrder(InsertTree(tr, v, n)) == UpperInsert(InOrder(tr), v)
  {
    var p := Path(tr, v, Top);
    var leaf := NewLeaf(n, v);
    FixInvInitial(tr, v, n);
    FixLoopInv(p, leaf);
    var (c, z) := FixLoop(p, leaf);
    FixDone(c, z);
    BlackenRoot(Plug(c, z));
    PathPlug(tr, v, Top);
    PlugInOrder(p, leaf);
    PlugInOrder(p, Leaf);
    assert InOrder(InsertTree(tr, v, n)) == Before(p) + [v] + After(p);
    assert InOrder(tr) == Before(p) + After(p);
    if Sorted(InOrder(tr)) {
      PathKeys(tr, v, Top);
      SplitIsUpperInsert(Before(p), After(p), v);
    }
    SplitIsUpperInsertContents(Before(p), After(p), v);
  }

  lemma SplitIsUpperInsertContents(before: seq<int>, after: seq<int>, v: int)
    ensures multiset(before + [v] + after) == multiset(before + after) + multiset{v}
  {
  }
}
