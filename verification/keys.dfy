/** The key sequences a tree walks through in order, and the two reference
    operations on sorted sequences that `insert` and `remove` are specified
    against: insertion after every key not greater than the new one, and
    deletion of one occurrence. */
module Keys {

  ghost predicate Sorted(s: seq<int>) {
    forall i, j :: 0 <= i < j < |s| ==> s[i] <= s[j]
  }

  /** Every key of `s` is at most `v`. */
  ghost predicate AllAtMost(s: seq<int>, v: int) {
    forall i :: 0 <= i < |s| ==> s[i] <= v
  }

  /** Every key of `s` is greater than `v`. */
  ghost predicate AllAbove(s: seq<int>, v: int) {
    forall i :: 0 <= i < |s| ==> v < s[i]
  }

  /** Sorted insertion of `v` behind every key that is not greater than `v`:
      equal keys stay in front of the new one. */
  function UpperInsert(s: seq<int>, v: int): seq<int> {
    if s == [] then [v]
    else if v < s[0] then [v] + s
    else [s[0]] + UpperInsert(s[1..], v)
  }

  /** Deletion of the first occurrence of `v`; no change when `v` is absent. */
  function RemoveFirst(s: seq<int>, v: int): seq<int> {
    if s == [] then []
    else if s[0] == v then s[1..]
    else [s[0]] + RemoveFirst(s[1..], v)
  }

  lemma {:induction false} UpperInsertContents(s: seq<int>, v: int)
    ensures multiset(UpperInsert(s, v)) == multiset(s) + multiset{v}
    ensures |UpperInsert(s, v)| == |s| + 1
  {
    if s != [] && v >= s[0] {
      UpperInsertContents(s[1..], v);
      assert s == [s[0]] + s[1..];
    }
  }

  lemma {:induction false} UpperInsertSorted(s: seq<int>, v: int)
    requires Sorted(s)
    ensures Sorted(UpperInsert(s, v))
  {
    if s != [] && v >= s[0] {
      UpperInsertSorted(s[1..], v);
      UpperInsertContents(s[1..], v);
      var r := UpperInsert(s[1..], v);
      forall k | 0 <= k < |r|
        ensures s[0] <= r[k]
      {
        assert r[k] in multiset(r);
        assert r[k] in multiset(s[1..]) || r[k] == v;
        if r[k] != v {
          var j :| 0 <= j < |s[1..]| && s[1..][j] == r[k];
          assert s[j + 1] == r[k];
        }
      }
    }
  }

  /** A sorted sequence split around a fresh key `v`, with everything up to
      `v` in front and everything above it behind, is the sorted insertion. */
  lemma {:induction false} SplitIsUpperInsert(before: seq<int>, after: seq<int>, v: int)
    requires AllAtMost(before, v) && AllAbove(after, v)
    ensures before + [v] + after == UpperInsert(before + after, v)
  {
    if before == [] {
      assert before + after == after;
      if after != [] {
        assert v < after[0];
      }
    } else {
      var s := before + after;
      assert s[0] == before[0] && before[0] <= v;
      assert s[1..] == before[1..] + after;
      SplitIsUpperInsert(before[1..], after, v);
      assert before + [v] + after == [before[0]] + (before[1..] + [v] + after);
    }
  }

  lemma {:induction false} RemoveFirstContents(s: seq<int>, v: int)
    ensures v in s ==> multiset(RemoveFirst(s, v)) == multiset(s) - multiset{v}
    ensures v !in s ==> RemoveFirst(s, v) == s
  {
    if s != [] {
      assert s == [s[0]] + s[1..];
      if s[0] != v {
        RemoveFirstContents(s[1..], v);
      }
    }
  }

  /** In a sorted sequence every occurrence of `v` is interchangeable: taking
      out the one at any position gives the same sequence as taking out the
      first. */
  lemma {:induction false} RemoveAtIsRemoveFirst(s: seq<int>, i: nat, v: int)
    requires Sorted(s) && i < |s| && s[i] == v
    ensures s[..i] + s[i + 1..] == RemoveFirst(s, v)
  {
    if i > 0 {
      DropAfterHead(s, i);
      RemoveAtIsRemoveFirst(s[1..], i - 1, v);
      if s[0] == v {
        // all of s[0..i+1] equals v, so dropping position 0 or i is the same
        assert s[0] <= s[1] <= s[i];
        assert RemoveFirst(s[1..], v) == s[1..][1..];
      }
    }
  }

  /** Dropping position `i > 0` keeps the head and drops position `i - 1`
      of the tail. */
  lemma DropAfterHead(s: seq<int>, i: nat)
    requires 0 < i < |s|
    ensures s[..i] + s[i + 1..] == [s[0]] + (s[1..][..i - 1] + s[1..][i..])
    ensures s[1..] == [s[1]] + s[1..][1..]
  {
    assert s[..i] == [s[0]] + s[1..][..i - 1];
    assert s[i + 1..] == s[1..][i..];
  }

  lemma {:induction false} RemoveAtSorted(s: seq<int>, i: nat)
    requires Sorted(s) && i < |s|
    ensures Sorted(s[..i] + s[i + 1..])
  {
    var r := s[..i] + s[i + 1..];
    forall a, b | 0 <= a < b < |r|
      ensures r[a] <= r[b]
    {
      var a' := if a < i then a else a + 1;
      var b' := if b < i then b else b + 1;
      assert r[a] == s[a'] && r[b] == s[b'];
    }
  }

  /** Deleting a key between two runs of a sorted sequence is deleting its
      first occurrence. */
  lemma RemoveMiddle(s: seq<int>, front: seq<int>, v: int, back: seq<int>)
    requires Sorted(s) && s == front + [v] + back
    ensures front + back == RemoveFirst(s, v)
  {
    var i := |front|;
    assert s[i] == v && s[..i] == front && s[i + 1..] == back;
    RemoveAtIsRemoveFirst(s, i, v);
  }

  /** The in-order keys of a node: the left subtree's keys are at most the
      node's key, the right subtree's at least, and both are sorted. */
  lemma SortedSplit(l: seq<int>, k: int, r: seq<int>)
    requires Sorted(l + [k] + r)
    ensures Sorted(l) && Sorted(r)
    ensures forall i :: 0 <= i < |l| ==> l[i] <= k
    ensures forall i :: 0 <= i < |r| ==> k <= r[i]
  {
    var s := l + [k] + r;
    assert forall i :: 0 <= i < |l| ==> s[i] == l[i];
    assert forall i :: 0 <= i < |r| ==> s[|l| + 1 + i] == r[i];
    assert s[|l|] == k;
  }

  /** A key below the key `k` of a node with left and right keys `l` and
      `r`, inside a sorted sequence `b + (l + [k] + r) + a`, is below every
      key from `k` on. */
  lemma SortedAbove(b: seq<int>, l: seq<int>, k: int, r: seq<int>, a: seq<int>, v: int)
    requires Sorted(b + (l + [k] + r) + a) && v < k
    ensures AllAbove([k] + r + a, v)
  {
    assert b + (l + [k] + r) + a == (b + l) + [k] + (r + a);
    SortedSplit(b + l, k, r + a);
    var after := [k] + r + a;
    forall i | 0 <= i < |after|
      ensures v < after[i]
    {
      if i > 0 {
        assert after[i] == (r + a)[i - 1];
      }
    }
  }

  /** A key not below `k` in the same situation is not below any key up to
      `k`. */
  lemma SortedAtMost(b: seq<int>, l: seq<int>, k: int, r: seq<int>, a: seq<int>, v: int)
    requires Sorted(b + (l + [k] + r) + a) && k <= v
    ensures AllAtMost(b + l + [k], v)
  {
    assert b + (l + [k] + r) + a == (b + l) + [k] + (r + a);
    SortedSplit(b + l, k, r + a);
    var before := b + l + [k];
    forall i | 0 <= i < |before|
      ensures before[i] <= v
    {
      if i < |b + l| {
        assert before[i] == (b + l)[i];
      }
    }
  }
}
