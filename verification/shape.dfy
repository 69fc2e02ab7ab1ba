/** The algebraic picture of the pointer structure: a binary tree whose nodes
    remember which arena record they came from, plus a zipper context that
    names one position in it. The red-black rules of the header comment of
    red-blackTrees.cpp are stated here, on trees. */
module Shape {
  import opened Arena

  datatype Tree = Leaf | Branch(left: Tree, id: Ref, key: int, color: Color, right: Tree)

  /** The pointer a parent holds for this subtree: the sentinel for a leaf. */
  function RootRef(t: Tree): Ref {
    if t.Leaf? then NIL else t.id
  }

  /** Colour of the subtree's root; the sentinel leaves are black (rule 5). */
  function ColorOf(t: Tree): Color {
    if t.Leaf? then Black else t.color
  }

  function Ids(t: Tree): set<Ref> {
    match t
    case Leaf => {}
    case Branch(l, id, _, _, r) => Ids(l) + {id} + Ids(r)
  }

  /** Every arena record occurs at most once in the tree. */
  ghost predicate Distinct(t: Tree) {
    match t
    case Leaf => true
    case Branch(l, id, _, _, r) =>
      Distinct(l) && Distinct(r) && Ids(l) !! Ids(r) && id !in Ids(l) && id !in Ids(r)
  }

  function InOrder(t: Tree): seq<int> {
    match t
    case Leaf => []
    case Branch(l, _, k, _, r) => InOrder(l) + [k] + InOrder(r)
  }

  function Height(t: Tree): nat {
    match t
    case Leaf => 0
    case Branch(l, _, _, _, r) => 1 + (if Height(l) < Height(r) then Height(r) else Height(l))
  }

  /** Number of black nodes on the leftmost downward path (sentinel not counted). */
  function BlackHeight(t: Tree): nat {
    match t
    case Leaf => 0
    case Branch(l, _, _, c, _) => BlackHeight(l) + (if c == Black then 1 else 0)
  }

  /** Rule 4: every downward path from a node meets the same number of black nodes. */
  ghost predicate Balanced(t: Tree) {
    match t
    case Leaf => true
    case Branch(l, _, _, _, r) => BlackHeight(l) == BlackHeight(r) && Balanced(l) && Balanced(r)
  }

  /** Rule 3: both children of a red node are black. */
  ghost predicate RedRule(t: Tree) {
    match t
    case Leaf => true
    case Branch(l, _, _, c, r) =>
      (c == Red ==> ColorOf(l) == Black && ColorOf(r) == Black) && RedRule(l) && RedRule(r)
  }

  /** Rules 2-5 of the header comment (rule 1 holds by the type `Color`). */
  ghost predicate IsRedBlack(t: Tree) {
    Balanced(t) && RedRule(t) && ColorOf(t) == Black
  }

  function Child(t: Tree, right: bool): Tree
    requires t.Branch?
  {
    if right then t.right else t.left
  }

  function Recolor(t: Tree, c: Color): Tree
    requires t.Branch?
  {
    t.(color := c)
  }

  /** `setColor(Black)` on a subtree's root; a leaf stands for the sentinel,
      which is black already and is left alone. */
  function Blacken(t: Tree): Tree {
    if t.Leaf? then t else t.(color := Black)
  }

  /** A position in a tree: the path from the hole back up to the root. In
      `LeftChildOf(up, id, ..., sibling)` the hole is the left child of node
      `id`, whose right subtree is `sibling`; `RightChildOf` is the mirror. */
  datatype Ctx =
    | Top
    | LeftChildOf(up: Ctx, id: Ref, key: int, color: Color, sibling: Tree)
    | RightChildOf(sibling: Tree, id: Ref, key: int, color: Color, up: Ctx)

  /** The tree obtained by filling the hole of `c` with `s`. */
  function Plug(c: Ctx, s: Tree): Tree
    decreases c
  {
    match c
    case Top => s
    case LeftChildOf(up, id, k, col, sib) => Plug(up, Branch(s, id, k, col, sib))
    case RightChildOf(sib, id, k, col, up) => Plug(up, Branch(sib, id, k, col, s))
  }

  /** The record that holds the hole as a child: the sentinel at the top. */
  function Parent(c: Ctx): Ref {
    if c.Top? then NIL else c.id
  }

  function Depth(c: Ctx): nat {
    if c.Top? then 0 else 1 + Depth(c.up)
  }

  function CtxIds(c: Ctx): set<Ref> {
    if c.Top? then {} else {c.id} + Ids(c.sibling) + CtxIds(c.up)
  }

  ghost predicate CtxDistinct(c: Ctx) {
    c.Top? ||
    (Distinct(c.sibling) && c.id !in Ids(c.sibling) &&
     ({c.id} + Ids(c.sibling)) !! CtxIds(c.up) && CtxDistinct(c.up))
  }

  /** Keys that the in-order walk visits before, and after, the hole. */
  function Before(c: Ctx): seq<int> {
    match c
    case Top => []
    case LeftChildOf(up, _, _, _, _) => Before(up)
    case RightChildOf(sib, _, k, _, up) => Before(up) + InOrder(sib) + [k]
  }

  function After(c: Ctx): seq<int> {
    match c
    case Top => []
    case LeftChildOf(up, _, k, _, sib) => [k] + InOrder(sib) + After(up)
    case RightChildOf(_, _, _, _, up) => After(up)
  }

  /** Rule 4 for the part of the tree outside the hole, when the subtree in
      the hole has black-height `h`. */
  ghost predicate CtxBalanced(c: Ctx, h: nat) {
    c.Top? ||
    (Balanced(c.sibling) && BlackHeight(c.sibling) == h &&
     CtxBalanced(c.up, h + (if c.color == Black then 1 else 0)))
  }

  /** Rule 3 for the part of the tree outside the hole, when the subtree in
      the hole has a root of colour `hole`. */
  ghost predicate CtxRedRule(c: Ctx, hole: Color) {
    c.Top? ||
    (RedRule(c.sibling) &&
     (c.color == Red ==> hole == Black && ColorOf(c.sibling) == Black) &&
     CtxRedRule(c.up, c.color))
  }

  /** Colour of the root of any tree plugged into a non-empty context. */
  function TopColor(c: Ctx): Color
    requires !c.Top?
  {
    if c.up.Top? then c.color else TopColor(c.up)
  }

  function TopId(c: Ctx): Ref
    requires !c.Top?
  {
    if c.up.Top? then c.id else TopId(c.up)
  }

  /** The context `d` with its top placed into the hole of `e`. */
  function Compose(d: Ctx, e: Ctx): Ctx
    decreases d
  {
    match d
    case Top => e
    case LeftChildOf(up, id, k, col, sib) => LeftChildOf(Compose(up, e), id, k, col, sib)
    case RightChildOf(sib, id, k, col, up) => RightChildOf(sib, id, k, col, Compose(up, e))
  }

  // ---------------------------------------------------------------------------
  // How each property of a plugged tree splits into hole and context.

  lemma {:induction false} PlugCompose(d: Ctx, e: Ctx, s: Tree)
    ensures Plug(Compose(d, e), s) == Plug(e, Plug(d, s))
    decreases d
  {
    match d
    case Top =>
    case LeftChildOf(up, id, k, col, sib) => PlugCompose(up, e, Branch(s, id, k, col, sib));
    case RightChildOf(sib, id, k, col, up) => PlugCompose(up, e, Branch(sib, id, k, col, s));
  }

  lemma PlugIds(c: Ctx, s: Tree)
    ensures Ids(Plug(c, s)) == Ids(s) + CtxIds(c)
    decreases c
  {
    match c
    case Top =>
    case LeftChildOf(up, id, k, col, sib) => PlugIds(up, Branch(s, id, k, col, sib));
    case RightChildOf(sib, id, k, col, up) => PlugIds(up, Branch(sib, id, k, col, s));
  }

  lemma PlugDistinct(c: Ctx, s: Tree)
    ensures Distinct(Plug(c, s)) <==> Distinct(s) && CtxDistinct(c) && Ids(s) !! CtxIds(c)
    decreases c
  {
    match c
    case Top =>
    case LeftChildOf(up, id, k, col, sib) => PlugDistinct(up, Branch(s, id, k, col, sib));
    case RightChildOf(sib, id, k, col, up) => PlugDistinct(up, Branch(sib, id, k, col, s));
  }

  lemma PlugInOrder(c: Ctx, s: Tree)
    ensures InOrder(Plug(c, s)) == Before(c) + InOrder(s) + After(c)
    decreases c
  {
    match c
    case Top =>
    case LeftChildOf(up, id, k, col, sib) =>
      PlugInOrder(up, Branch(s, id, k, col, sib));
      RegroupLeft(Before(up), InOrder(s), k, InOrder(sib), After(up));
    case RightChildOf(sib, id, k, col, up) =>
      PlugInOrder(up, Branch(sib, id, k, col, s));
      RegroupRight(Before(up), InOrder(sib), k, InOrder(s), After(up));
  }

  lemma RegroupLeft(b: seq<int>, s: seq<int>, k: int, r: seq<int>, a: seq<int>)
    ensures b + (s + [k] + r) + a == b + s + ([k] + r + a)
  {
  }

  lemma RegroupRight(b: seq<int>, l: seq<int>, k: int, s: seq<int>, a: seq<int>)
    ensures b + (l + [k] + s) + a == b + l + [k] + s + a
  {
  }

  lemma PlugSameInOrder(c: Ctx, x: Tree, y: Tree)
    requires InOrder(x) == InOrder(y)
    ensures InOrder(Plug(c, x)) == InOrder(Plug(c, y))
  {
    PlugInOrder(c, x);
    PlugInOrder(c, y);
  }

  lemma PlugBalanced(c: Ctx, s: Tree)
    ensures Balanced(Plug(c, s)) <==> Balanced(s) && CtxBalanced(c, BlackHeight(s))
    decreases c
  {
    match c
    case Top =>
    case LeftChildOf(up, id, k, col, sib) => PlugBalanced(up, Branch(s, id, k, col, sib));
    case RightChildOf(sib, id, k, col, up) => PlugBalanced(up, Branch(sib, id, k, col, s));
  }

  lemma PlugRedRule(c: Ctx, s: Tree)
    ensures RedRule(Plug(c, s)) <==> RedRule(s) && CtxRedRule(c, ColorOf(s))
    decreases c
  {
    match c
    case Top =>
    case LeftChildOf(up, id, k, col, sib) => PlugRedRule(up, Branch(s, id, k, col, sib));
    case RightChildOf(sib, id, k, col, up) => PlugRedRule(up, Branch(sib, id, k, col, s));
  }

  lemma PlugRoot(c: Ctx, s: Tree)
    ensures !c.Top? ==> Plug(c, s).Branch? && ColorOf(Plug(c, s)) == TopColor(c)
    ensures !c.Top? ==> RootRef(Plug(c, s)) == TopId(c)
    decreases c
  {
    match c
    case Top =>
    case LeftChildOf(up, id, k, col, sib) => PlugRoot(up, Branch(s, id, k, col, sib));
    case RightChildOf(sib, id, k, col, up) => PlugRoot(up, Branch(sib, id, k, col, s));
  }

  /** A black hole never breaks the red rule of its context. */
  lemma CtxRedRuleBlackHole(c: Ctx, hole: Color)
    requires CtxRedRule(c, hole)
    ensures CtxRedRule(c, Black)
  {
  }
}
