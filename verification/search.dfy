/** `search` (red-blackTrees.cpp:391-405): the binary-search descent that
    finds a node holding a value, or reports that there is none. */
module Search {
  import opened Arena
  import opened Shape
  import opened Represent
  import opened Keys

  /** `nullptr` is `None`; a found node is `Some(index)`. */
  datatype Option<T> = None | Some(value: T)

  /** The loop of `search`: from `x`, step left when `v` is below the
      current key and right otherwise, until the sentinel or a node holding
      `v` is reached. `fuel` bounds the number of steps; running out gives
      the sentinel (`SearchFuel` shows it never happens on a represented
      tree). */
  function SearchFrom(t: RedBlackTree, v: int, x: Ref, fuel: nat): (r: Ref)
    requires t.Closed() && x < |t.nodes|
    ensures r < |t.nodes| && (r == NIL || t.nodes[r].key == v)
    decreases fuel
  {
    if x == NIL || t.nodes[x].key == v then x
    else if fuel == 0 then NIL
    else SearchFrom(t, v, if v < t.nodes[x].key then t.nodes[x].left else t.nodes[x].right, fuel - 1)
  }

  /** `search(v)`: a node holding `v`, or `None`. Whatever the arena, a
      node it returns is a real node and holds `v`. */
  function Search(t: RedBlackTree, v: int): (r: Option<Ref>)
    requires t.Closed()
    ensures r.Some? ==> NIL < r.value < |t.nodes| && t.nodes[r.value].key == v
  {
    var x := SearchFrom(t, v, t.root, |t.nodes|);
    if x != NIL then Some(x) else None
  }

  /** The same descent on the algebraic tree. */
  function Find(tr: Tree, v: int): Option<Ref> {
    match tr
    case Leaf => None
    case Branch(l, id, k, _, r) =>
      if k == v then Some(id) else if v < k then Find(l, v) else Find(r, v)
  }

  /** With enough fuel, the arena loop follows the algebraic descent. */
  lemma {:induction false} SearchFuel(t: RedBlackTree, v: int, p: Ref, s: Tree, fuel: nat)
    requires t.Closed() && Repr(t.nodes, p, s) && fuel >= Height(s)
    ensures RootRef(s) < |t.nodes|
    ensures SearchFrom(t, v, RootRef(s), fuel) == (match Find(s, v) case None => NIL case Some(i) => i)
    decreases s
  {
    match s
    case Leaf =>
    case Branch(l, id, k, _, r) =>
      if k != v {
        if v < k {
          SearchFuel(t, v, id, l, fuel - 1);
        } else {
          SearchFuel(t, v, id, r, fuel - 1);
        }
      }
  }

  /** On a sorted tree the descent finds `v` exactly when `v` is one of its
      keys, and what it finds is one of the tree's nodes. */
  lemma {:induction false} FindComplete(s: Tree, v: int)
    requires Sorted(InOrder(s))
    ensures Find(s, v).Some? <==> v in InOrder(s)
    ensures Find(s, v).Some? ==> Find(s, v).value in Ids(s)
  {
    match s
    case Leaf =>
    case Branch(l, id, k, _, r) =>
      SortedSplit(InOrder(l), k, InOrder(r));
      FindComplete(l, v);
      FindComplete(r, v);
      if k != v && v < k {
        assert forall i :: 0 <= i < |InOrder(r)| ==> InOrder(r)[i] != v;
      } else if k != v {
        assert forall i :: 0 <= i < |InOrder(l)| ==> InOrder(l)[i] != v;
      }
  }

  /** `search(v)` on a valid tree with sorted keys returns a node exactly
      when `v` is stored in the tree, and the node it returns is part of the
      tree. */
  lemma SearchCorrect(t: RedBlackTree, v: int)
    requires Valid(t) && Sorted(InOrder(Abs(t)))
    ensures Search(t, v).Some? <==> v in InOrder(Abs(t))
    ensures Search(t, v).Some? ==> Search(t, v).value in Ids(Abs(t))
  {
    var tr := Abs(t);
    ReprHeight(t.nodes, NIL, tr);
    SearchFuel(t, v, NIL, tr, |t.nodes|);
    FindComplete(tr, v);
    ReprIds(t.nodes, NIL, tr);
  }
}
