// What one pass of `select`, `update` or `remove` computes over a
// collection: every record is tested once, left to right, at the index it
// has when the pass starts.

module Collections {

  /** The records at the indices where `p` holds, in collection order. */
  function Selected<T>(s: seq<T>, p: (T, int) -> bool): seq<T>
    decreases |s|
  {
    if s == [] then []
    else
      var n := |s| - 1;
      Selected(s[..n], p) + (if p(s[n], n) then [s[n]] else [])
  }

  /** The complement of a filter. */
  function Not<T>(p: (T, int) -> bool): (T, int) -> bool {
    (x: T, i: int) => !p(x, i)
  }

  /** One more record at the end of the pass. */
  lemma SelectedStep<T>(s: seq<T>, p: (T, int) -> bool, i: nat)
    requires i < |s|
    ensures Selected(s[..i + 1], p) == Selected(s[..i], p) + (if p(s[i], i) then [s[i]] else [])
  {
    assert s[..i + 1][..i] == s[..i];
  }

  /** The selection is exactly the records at the matching indices, taken in
      increasing index order. */
  lemma {:induction false} SelectedIndices<T>(s: seq<T>, p: (T, int) -> bool) returns (idx: seq<nat>)
    ensures |idx| == |Selected(s, p)|
    ensures forall j :: 0 <= j < |idx| ==> idx[j] < |s| && Selected(s, p)[j] == s[idx[j]]
    ensures forall j, k :: 0 <= j < k < |idx| ==> idx[j] < idx[k]
    ensures forall i :: 0 <= i < |s| ==> (p(s[i], i) <==> i in idx)
  {
    if s == [] {
      idx := [];
    } else {
      var n := |s| - 1;
      var front := SelectedIndices(s[..n], p);
      idx := front + (if p(s[n], n) then [n] else []);
      forall i | 0 <= i < |s| ensures p(s[i], i) <==> i in idx {
        if i < n { assert s[..n][i] == s[i]; }
      }
    }
  }

  /** Whatever every matching record satisfies, every selected record does. */
  lemma {:induction false} SelectedKeeps<T>(s: seq<T>, p: (T, int) -> bool, q: T -> bool)
    requires forall i :: 0 <= i < |s| && p(s[i], i) ==> q(s[i])
    ensures forall j :: 0 <= j < |Selected(s, p)| ==> q(Selected(s, p)[j])
  {
    if s != [] {
      var n := |s| - 1;
      forall i | 0 <= i < n && p(s[..n][i], i) ensures q(s[..n][i]) { assert s[..n][i] == s[i]; }
      SelectedKeeps(s[..n], p, q);
    }
  }

  /** The selection is no longer than the collection. */
  lemma {:induction false} SelectedLength<T>(s: seq<T>, p: (T, int) -> bool)
    ensures |Selected(s, p)| <= |s|
    ensures |Selected(s, p)| + |Selected(s, Not(p))| == |s|
  {
    if s != [] {
      SelectedLength(s[..|s| - 1], p);
    }
  }

  /** The matching and the non-matching records together are a permutation
      of the collection. */
  lemma {:induction false} SelectedSplit<T>(s: seq<T>, p: (T, int) -> bool)
    ensures multiset(Selected(s, p)) + multiset(Selected(s, Not(p))) == multiset(s)
  {
    if s != [] {
      var n := |s| - 1;
      SelectedSplit(s[..n], p);
      assert s == s[..n] + [s[n]];
    }
  }

  /** When every record matches, all of them are selected. */
  lemma {:induction false} SelectedAll<T>(s: seq<T>, p: (T, int) -> bool)
    requires forall i :: 0 <= i < |s| ==> p(s[i], i)
    ensures Selected(s, p) == s
  {
    if s != [] {
      var n := |s| - 1;
      forall i | 0 <= i < n ensures p(s[..n][i], i) { assert s[..n][i] == s[i]; }
      SelectedAll(s[..n], p);
      assert s == s[..n] + [s[n]];
    }
  }

  /** The selection is the whole collection exactly when every record matches. */
  lemma SelectedEvery<T>(s: seq<T>, p: (T, int) -> bool)
    ensures Selected(s, p) == s <==> forall i :: 0 <= i < |s| ==> p(s[i], i)
  {
    if Selected(s, p) == s {
      SelectedLength(s, p);
      SelectedNone(s, Not(p));
    }
    if forall i :: 0 <= i < |s| ==> p(s[i], i) {
      SelectedAll(s, p);
    }
  }

  /** Nothing is selected exactly when no record matches. */
  lemma {:induction false} SelectedNone<T>(s: seq<T>, p: (T, int) -> bool)
    ensures Selected(s, p) == [] <==> forall i :: 0 <= i < |s| ==> !p(s[i], i)
  {
    if s != [] {
      var n := |s| - 1;
      SelectedNone(s[..n], p);
      forall i | 0 <= i < n ensures s[..n][i] == s[i] { }
    }
  }

  /** A slot of the array that `remove` works on: still holding its record,
      or marked as removed. */
  datatype Slot<T> = Hole | Kept(value: T)

  /** The array after the marking phase: every match replaced by a hole, each
      record tested at its own original index. */
  function Marked<T>(s: seq<T>, p: (T, int) -> bool): (m: seq<Slot<T>>)
    ensures |m| == |s|
  {
    seq(|s|, i requires 0 <= i < |s| => if p(s[i], i) then Hole else Kept(s[i]))
  }

  /** The compaction of index.js:153-155: the records still in their slots,
      in order. */
  function Compacted<T>(slots: seq<Slot<T>>): seq<T> {
    if slots == [] then []
    else
      var n := |slots| - 1;
      Compacted(slots[..n]) + (match slots[n] case Kept(v) => [v] case Hole => [])
  }

  /** Mark-then-compact leaves exactly the records that did not match at
      their original index, in their original relative order. */
  lemma {:induction false} CompactMarked<T>(s: seq<T>, p: (T, int) -> bool)
    ensures Compacted(Marked(s, p)) == Selected(s, Not(p))
  {
    if s != [] {
      var n := |s| - 1;
      CompactMarked(s[..n], p);
      assert Marked(s, p)[..n] == Marked(s[..n], p);
    }
  }
}
