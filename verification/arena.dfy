/** The node arena that stands in for the heap of `Node` objects of the
    red-black tree: a sequence of node records, with index 0 reserved for the
    shared black sentinel `NIL`. Pointers become indices, so "the same object"
    becomes "the same index". */
module Arena {

  /** A pointer to a node: an index into the arena. */
  type Ref = nat

  /** The shared sentinel that stands for every absent child and for the
      parent of the root. */
  const NIL: Ref := 0

  datatype Color = Red | Black

  /** One `Node` object: its stored value, its colour and its three links. */
  datatype Node = Node(key: int, color: Color, left: Ref, right: Ref, parent: Ref)

  /** The sentinel as the tree's constructor leaves it: value 0, black, and
      its left, right and parent links all pointing at itself. */
  const Sentinel: Node := Node(0, Black, NIL, NIL, NIL)

  /** The `RedBlackTree` object: every node ever allocated, and the root. */
  datatype RedBlackTree = RedBlackTree(nodes: seq<Node>, root: Ref) {

    /** No dangling pointer: the root and every link name a record of the arena. */
    predicate Closed() {
      && |nodes| > 0
      && root < |nodes|
      && forall i :: 0 <= i < |nodes| ==>
           nodes[i].left < |nodes| && nodes[i].right < |nodes| && nodes[i].parent < |nodes|
    }

    /** Same records up to links: every node keeps its key and colour. */
    predicate SameLabels(r: RedBlackTree) {
      |r.nodes| == |nodes| &&
      forall i :: 0 <= i < |nodes| ==> r.nodes[i].key == nodes[i].key && r.nodes[i].color == nodes[i].color
    }

    /** The sentinel record is still the black, self-linked record of the constructor. */
    predicate SentinelIntact() {
      |nodes| > 0 && nodes[NIL] == Sentinel
    }
  }

  /** The constructor: allocate the sentinel and make it the root. */
  function Empty(): (t: RedBlackTree)
    ensures t.Closed() && t.SentinelIntact()
    ensures t.root == NIL && |t.nodes| == 1
  {
    RedBlackTree([Sentinel], NIL)
  }

  /** `setLeftNode`, `setRightNode`, `setParent` and `setColor` on node `i`:
      each rewrites one field of one record and nothing else. */
  function SetLeft(t: RedBlackTree, i: Ref, j: Ref): (r: RedBlackTree)
    requires t.Closed() && i < |t.nodes| && j < |t.nodes|
    ensures r.Closed() && r.root == t.root && t.SameLabels(r)
  {
    t.(nodes := t.nodes[i := t.nodes[i].(left := j)])
  }

  function SetRight(t: RedBlackTree, i: Ref, j: Ref): (r: RedBlackTree)
    requires t.Closed() && i < |t.nodes| && j < |t.nodes|
    ensures r.Closed() && r.root == t.root && t.SameLabels(r)
  {
    t.(nodes := t.nodes[i := t.nodes[i].(right := j)])
  }

  function SetParent(t: RedBlackTree, i: Ref, j: Ref): (r: RedBlackTree)
    requires t.Closed() && i < |t.nodes| && j < |t.nodes|
    ensures r.Closed() && r.root == t.root && t.SameLabels(r)
  {
    t.(nodes := t.nodes[i := t.nodes[i].(parent := j)])
  }

  function SetColor(t: RedBlackTree, i: Ref, c: Color): (r: RedBlackTree)
    requires t.Closed() && i < |t.nodes|
    ensures r.Closed() && r.root == t.root && |r.nodes| == |t.nodes|
  {
    t.(nodes := t.nodes[i := t.nodes[i].(color := c)])
  }

  /** The slot update shared by both rotations and `replaceSubtree`: node `y`
      takes the place that `x` occupies under `px`, or becomes the root when
      `px` is the sentinel. Which side is decided by comparing `x` with
      `px`'s left link, as the source does. */
  function Relink(t: RedBlackTree, px: Ref, x: Ref, y: Ref): (r: RedBlackTree)
    requires t.Closed() && px < |t.nodes| && y < |t.nodes|
    ensures r.Closed() && t.SameLabels(r)
    ensures px == NIL ==> r.root == y && r.nodes == t.nodes
    ensures px != NIL ==> r.root == t.root
    ensures forall i :: 0 <= i < |t.nodes| && i != px ==> r.nodes[i] == t.nodes[i]
    ensures px != NIL && x == t.nodes[px].left ==> r.nodes[px] == t.nodes[px].(left := y)
    ensures px != NIL && x != t.nodes[px].left ==> r.nodes[px] == t.nodes[px].(right := y)
  {
    if px == NIL then t.(root := y)
    else if x == t.nodes[px].left then SetLeft(t, px, y)
    else SetRight(t, px, y)
  }
}
