/** The abstraction from the arena to algebraic trees: which tree a pointer
    structure represents, and the framing facts that say a subtree's
    representation survives writes to records outside it. */
module Represent {
  import opened Arena
  import opened Shape

  /** The records of `a` spell out `t`, whose root hangs from `p`: each node's
      key, colour and child links agree with the tree and its parent link
      names its tree parent. */
  ghost predicate Repr(a: seq<Node>, p: Ref, t: Tree)
    decreases t
  {
    match t
    case Leaf => true
    case Branch(l, id, k, c, r) =>
      && NIL < id < |a|
      && a[id] == Node(k, c, RootRef(l), RootRef(r), p)
      && Repr(a, id, l) && Repr(a, id, r)
  }

  /** The records of `a` spell out the context `c` with link `hole` in its
      hole, in a tree whose root pointer is `root`. */
  ghost predicate CtxRepr(a: seq<Node>, c: Ctx, hole: Ref, root: Ref)
    decreases c
  {
    match c
    case Top => root == hole
    case LeftChildOf(up, id, k, col, sib) =>
      && NIL < id < |a|
      && a[id] == Node(k, col, hole, RootRef(sib), Parent(up))
      && Repr(a, id, sib) && CtxRepr(a, up, id, root)
    case RightChildOf(sib, id, k, col, up) =>
      && NIL < id < |a|
      && a[id] == Node(k, col, RootRef(sib), hole, Parent(up))
      && Repr(a, id, sib) && CtxRepr(a, up, id, root)
  }

  /** The arena `t` is a well-formed pointer structure for the tree `tr`. */
  ghost predicate Represents(t: RedBlackTree, tr: Tree) {
    && t.Closed() && t.SentinelIntact()
    && t.root == RootRef(tr)
    && Repr(t.nodes, NIL, tr)
    && Distinct(tr)
  }

  ghost predicate Valid(t: RedBlackTree) {
    exists tr :: Represents(t, tr)
  }

  /** The tree a valid arena represents (unique by `ReprUnique`). */
  ghost function Abs(t: RedBlackTree): Tree
    requires Valid(t)
  {
    var tr :| Represents(t, tr); tr
  }

  lemma ReprIds(a: seq<Node>, p: Ref, t: Tree)
    requires Repr(a, p, t)
    ensures forall i :: i in Ids(t) ==> NIL < i < |a|
    decreases t
  {
    match t
    case Leaf =>
    case Branch(l, _, _, _, r) => ReprIds(a, t.id, l); ReprIds(a, t.id, r);
  }

  lemma CtxReprIds(a: seq<Node>, c: Ctx, hole: Ref, root: Ref)
    requires CtxRepr(a, c, hole, root)
    ensures forall i :: i in CtxIds(c) ==> NIL < i < |a|
    decreases c
  {
    match c
    case Top =>
    case LeftChildOf(up, id, _, _, sib) => ReprIds(a, id, sib); CtxReprIds(a, up, id, root);
    case RightChildOf(sib, id, _, _, up) => ReprIds(a, id, sib); CtxReprIds(a, up, id, root);
  }

  /** The pointer structure determines the tree: two trees hanging from the
      same link of the same arena are equal. */
  lemma {:induction false} ReprUnique(a: seq<Node>, p: Ref, t1: Tree, t2: Tree)
    requires Repr(a, p, t1) && Repr(a, p, t2) && RootRef(t1) == RootRef(t2)
    ensures t1 == t2
    decreases t1
  {
    match t1
    case Leaf =>
    case Branch(l1, id, _, _, r1) =>
      var Branch(l2, _, _, _, r2) := t2;
      ReprUnique(a, id, l1, l2);
      ReprUnique(a, id, r1, r2);
  }

  lemma AbsIs(t: RedBlackTree, tr: Tree)
    requires Represents(t, tr)
    ensures Valid(t) && Abs(t) == tr
  {
    ReprUnique(t.nodes, NIL, Abs(t), tr);
  }

  /** The constructor builds a valid arena holding the empty tree, which is
      trivially a red-black tree. */
  lemma EmptyIsEmptyTree()
    ensures Represents(Empty(), Leaf) && Valid(Empty()) && Abs(Empty()) == Leaf
    ensures IsRedBlack(Abs(Empty())) && InOrder(Abs(Empty())) == []
  {
    AbsIs(Empty(), Leaf);
  }

  /** Splitting a represented tree at a position: the context and the
      subtree are represented separately, the subtree hanging from the record
      that owns the hole. */
  lemma {:induction false} ReprPlug(a: seq<Node>, c: Ctx, s: Tree, root: Ref)
    ensures (Repr(a, NIL, Plug(c, s)) && root == RootRef(Plug(c, s)))
        <==> (CtxRepr(a, c, RootRef(s), root) && Repr(a, Parent(c), s))
    decreases c
  {
    match c
    case Top =>
    case LeftChildOf(up, id, k, col, sib) => ReprPlug(a, up, Branch(s, id, k, col, sib), root);
    case RightChildOf(sib, id, k, col, up) => ReprPlug(a, up, Branch(sib, id, k, col, s), root);
  }

  /** A representation only looks at the records of its own nodes. */
  lemma ReprFrame(a: seq<Node>, b: seq<Node>, p: Ref, t: Tree)
    requires Repr(a, p, t)
    requires forall i :: i in Ids(t) ==> i < |a| && i < |b| && b[i] == a[i]
    ensures Repr(b, p, t)
    decreases t
  {
    match t
    case Leaf =>
    case Branch(l, id, _, _, r) => ReprFrame(a, b, id, l); ReprFrame(a, b, id, r);
  }

  /** Re-hanging a subtree: only its root's parent link has changed. */
  lemma ReprReparent(a: seq<Node>, b: seq<Node>, p: Ref, q: Ref, t: Tree)
    requires Repr(a, p, t) && Distinct(t)
    requires t.Branch? ==> t.id < |a| && t.id < |b| && b[t.id] == a[t.id].(parent := q)
    requires forall i :: i in Ids(t) && i != RootRef(t) ==> i < |a| && i < |b| && b[i] == a[i]
    ensures Repr(b, q, t)
  {
    match t
    case Leaf =>
    case Branch(l, id, _, _, r) => ReprFrame(a, b, id, l); ReprFrame(a, b, id, r);
  }

  lemma CtxFrame(a: seq<Node>, b: seq<Node>, c: Ctx, hole: Ref, root: Ref)
    requires CtxRepr(a, c, hole, root)
    requires forall i :: i in CtxIds(c) ==> i < |a| && i < |b| && b[i] == a[i]
    ensures CtxRepr(b, c, hole, root)
    decreases c
  {
    match c
    case Top =>
    case LeftChildOf(up, id, _, _, sib) => ReprFrame(a, b, id, sib); CtxFrame(a, b, up, id, root);
    case RightChildOf(sib, id, _, _, up) => ReprFrame(a, b, id, sib); CtxFrame(a, b, up, id, root);
  }

  /** The hole of a context receives a new link `y` in place of `x`: only the
      record owning the hole has changed, and only in that link (or, at the
      top, the root pointer has become `y`). */
  lemma CtxRehole(a: seq<Node>, b: seq<Node>, c: Ctx, x: Ref, y: Ref, root: Ref, root': Ref)
    requires CtxRepr(a, c, x, root) && CtxDistinct(c)
    requires x !in CtxIds(c)
    requires forall i :: i in CtxIds(c) && i != Parent(c) ==> i < |a| && i < |b| && b[i] == a[i]
    requires c.LeftChildOf? ==> c.id < |a| && c.id < |b| && b[c.id] == a[c.id].(left := y)
    requires c.RightChildOf? ==> c.id < |a| && c.id < |b| && b[c.id] == a[c.id].(right := y)
    requires root' == if c.Top? then y else root
    ensures CtxRepr(b, c, y, root')
  {
    match c
    case Top =>
    case LeftChildOf(up, id, _, _, sib) =>
      ReprIds(a, id, sib);
      CtxReprIds(a, up, id, root);
      ReprFrame(a, b, id, sib);
      CtxFrame(a, b, up, id, root);
    case RightChildOf(sib, id, _, _, up) =>
      ReprIds(a, id, sib);
      CtxReprIds(a, up, id, root);
      ReprFrame(a, b, id, sib);
      CtxFrame(a, b, up, id, root);
  }

  // ---------------------------------------------------------------------------
  // Bounds that make the loop fuel `|nodes|` sufficient.

  /** A set of real node indices of an arena of `n` records has fewer than `n` members. */
  lemma {:induction false} RangeCard(s: set<Ref>, n: nat)
    requires n > 0 && forall i :: i in s ==> NIL < i < n
    ensures |s| < n
  {
    if n > 1 {
      RangeCard(s - {n - 1}, n - 1);
    } else {
      assert s == {};
    }
  }

  lemma {:induction false} HeightIds(t: Tree)
    requires Distinct(t)
    ensures Height(t) <= |Ids(t)|
  {
    match t
    case Leaf =>
    case Branch(l, id, _, _, r) =>
      HeightIds(l);
      HeightIds(r);
      assert |Ids(l) + {id}| == |Ids(l)| + 1;
      assert |Ids(t)| == |Ids(l)| + 1 + |Ids(r)|;
  }

  lemma {:induction false} DepthIds(c: Ctx)
    requires CtxDistinct(c)
    ensures Depth(c) <= |CtxIds(c)|
  {
    if !c.Top? {
      DepthIds(c.up);
      assert |{c.id} + Ids(c.sibling)| == 1 + |Ids(c.sibling)|;
      assert |CtxIds(c)| == 1 + |Ids(c.sibling)| + |CtxIds(c.up)|;
    }
  }

  /** Every downward path of a represented tree is shorter than the arena. */
  lemma ReprHeight(a: seq<Node>, p: Ref, t: Tree)
    requires Repr(a, p, t) && Distinct(t) && |a| > 0
    ensures Height(t) < |a|
  {
    ReprIds(a, p, t);
    RangeCard(Ids(t), |a|);
    HeightIds(t);
  }

  /** Every upward path of a represented context is shorter than the arena. */
  lemma CtxReprDepth(a: seq<Node>, c: Ctx, hole: Ref, root: Ref)
    requires CtxRepr(a, c, hole, root) && CtxDistinct(c) && |a| > 0
    ensures Depth(c) < |a|
  {
    CtxReprIds(a, c, hole, root);
    RangeCard(CtxIds(c), |a|);
    DepthIds(c);
  }

  // ---------------------------------------------------------------------------
  // Recolouring a node of a represented tree.

  /** `setColor` on the root of the subtree in the hole recolours exactly
      that node of the represented tree. */
  lemma RecolorPlug(t: RedBlackTree, c: Ctx, s: Tree, col: Color)
    requires Represents(t, Plug(c, s)) && s.Branch?
    ensures s.id < |t.nodes| && Represents(SetColor(t, s.id, col), Plug(c, Recolor(s, col)))
  {
    var a := t.nodes;
    ReprPlug(a, c, s, t.root);
    PlugDistinct(c, s);
    ReprIds(a, Parent(c), s);
    var r := SetColor(t, s.id, col);
    RecolorRelink(a, r.nodes, c, s, col, t.root);
    ReprPlug(r.nodes, c, Recolor(s, col), r.root);
    PlugDistinct(c, Recolor(s, col));
  }

  /** Recolouring record `s.id` keeps every link, so the records still
      represent the context and the recoloured subtree. */
  lemma RecolorRelink(a: seq<Node>, b: seq<Node>, c: Ctx, s: Tree, col: Color, root: Ref)
    requires s.Branch? && CtxRepr(a, c, s.id, root) && Repr(a, Parent(c), s)
    requires Distinct(s) && Ids(s) !! CtxIds(c)
    requires s.id < |a| && b == a[s.id := a[s.id].(color := col)]
    ensures CtxRepr(b, c, s.id, root) && Repr(b, Parent(c), Recolor(s, col))
  {
    ReprIds(a, s.id, s.left);
    ReprIds(a, s.id, s.right);
    ReprFrame(a, b, s.id, s.left);
    ReprFrame(a, b, s.id, s.right);
    CtxReprIds(a, c, s.id, root);
    CtxFrame(a, b, c, s.id, root);
  }
}
