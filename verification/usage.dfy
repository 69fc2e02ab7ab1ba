/** The constructor, then a sequence of corrected `insert` calls (the parent
    re-read after the inner rotation; `insert` as written can lose the
    tree, see `Scenarios.AsWrittenInsertLosesTree`), then `remove` as
    written. The theorems about single operations chain, because each one's
    result meets the next one's precondition. */
module Usage {
  import opened Arena
  import opened Shape
  import opened Represent
  import opened Keys
  import opened Insertion
  import opened Removal

  /** `insert(vs[0]); insert(vs[1]); ...` with the corrected loop. */
  function InsertAll(t: RedBlackTree, vs: seq<int>): (r: RedBlackTree)
    requires t.Closed()
    ensures r.Closed() && |r.nodes| == |t.nodes| + |vs|
    decreases |vs|
  {
    if vs == [] then t else InsertAll(Insert(t, vs[0], Corrected), vs[1..])
  }

  /** Inserting a sequence of values with the corrected `insert` into a
      valid red-black arena with sorted keys keeps it a valid red-black
      arena with sorted keys, and adds exactly those values. */
  lemma {:induction false} InsertAllCorrect(t: RedBlackTree, vs: seq<int>)
    requires Valid(t) && IsRedBlack(Abs(t)) && Sorted(InOrder(Abs(t)))
    ensures Valid(InsertAll(t, vs)) && IsRedBlack(Abs(InsertAll(t, vs)))
    ensures Sorted(InOrder(Abs(InsertAll(t, vs))))
    ensures multiset(InOrder(Abs(InsertAll(t, vs)))) == multiset(InOrder(Abs(t))) + multiset(vs)
    decreases |vs|
  {
    if vs != [] {
      HeadTail(vs);
      var t1 := Insert(t, vs[0], Corrected);
      InsertCorrect(t, vs[0]);
      InsertAllCorrect(t1, vs[1..]);
    }
  }

  lemma HeadTail(vs: seq<int>)
    requires vs != []
    ensures multiset(vs) == multiset{vs[0]} + multiset(vs[1..])
  {
    assert vs == [vs[0]] + vs[1..];
  }

  /** A tree built by the constructor and any sequence of corrected inserts
      is a valid red-black tree whose sorted keys are exactly the inserted
      values. */
  lemma Built(vs: seq<int>)
    ensures Valid(InsertAll(Empty(), vs)) && IsRedBlack(Abs(InsertAll(Empty(), vs)))
    ensures Sorted(InOrder(Abs(InsertAll(Empty(), vs))))
    ensures multiset(InOrder(Abs(InsertAll(Empty(), vs)))) == multiset(vs)
  {
    EmptyIsEmptyTree();
    InsertAllCorrect(Empty(), vs);
  }

  /** Removing `v` from such a tree leaves a valid arena whose sorted keys
      are the inserted values less one copy of `v`. */
  lemma BuiltThenRemoved(vs: seq<int>, v: int)
    ensures Valid(Remove(InsertAll(Empty(), vs), v))
    ensures Sorted(InOrder(Abs(Remove(InsertAll(Empty(), vs), v))))
    ensures multiset(InOrder(Abs(Remove(InsertAll(Empty(), vs), v)))) == multiset(vs) - multiset{v}
  {
    Built(vs);
    RemoveCorrect(InsertAll(Empty(), vs), v);
  }
}
