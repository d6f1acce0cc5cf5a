// The in-memory document of the store (`this._data`) and what each store
// operation makes of it, stated on values. The class in storage.dfy is
// proved to compute exactly these.

module Documents {
  import opened Json
  import opened Collections

  /** `this._data`: each key names an ordered collection of records. */
  type Document = map<string, seq<Value>>

  /** A filter as the store applies it: to a record and its index. */
  type Pred = (Value, int) -> bool

  /** The collection under `key`; an absent key reads as empty. */
  function CollectionAt(d: Document, key: string): seq<Value> {
    if key in d then d[key] else []
  }

  /** No key maps to an empty collection. */
  predicate Tidy(d: Document) {
    forall k :: k in d ==> d[k] != []
  }

  // ---------------------------------------------------------------- insert

  /** The document after `insert(key, v)` (index.js:110-117). */
  function Inserted(d: Document, key: string, v: Value): (d': Document)
    ensures d'.Keys == d.Keys + {key}
    ensures |CollectionAt(d', key)| == |CollectionAt(d, key)| + 1
    ensures CollectionAt(d', key)[..|CollectionAt(d, key)|] == CollectionAt(d, key)
    ensures CollectionAt(d', key)[|CollectionAt(d, key)|] == v
    ensures forall k :: k != key ==> CollectionAt(d', k) == CollectionAt(d, k)
    ensures Tidy(d) ==> Tidy(d')
  {
    d[key := CollectionAt(d, key) + [v]]
  }

  // ---------------------------------------------------------------- select

  /** The JSON copies of a list of records, one for one. */
  function Copies(r: seq<Value>): (c: seq<Value>)
    ensures |c| == |r|
  {
    seq(|r|, j requires 0 <= j < |r| => Copy(r[j]))
  }

  lemma CopiesAppend(a: seq<Value>, b: seq<Value>)
    ensures Copies(a + b) == Copies(a) + Copies(b)
  {
  }

  /** Some record that the filter matches is not an object, so `clone`
      throws on it. */
  predicate MatchesNonObject(s: seq<Value>, p: Pred) {
    exists i :: 0 <= i < |s| && p(s[i], i) && !IsObject(s[i])
  }

  /** The outcome of `select(key, filter)` (index.js:180-201). */
  function SelectFrom(d: Document, key: string, p: Pred): Result<seq<Value>> {
    var s := CollectionAt(d, key);
    if MatchesNonObject(s, p) then Err(InvalidObject)
    else
      Ok(Copies(Selected(s, p)))
  }

  /** `select` fails exactly when a matching record is not an object;
      otherwise it returns one copy per matching record, in collection order,
      each equal to its original when the original is exactly representable
      in JSON. An absent key selects nothing. */
  lemma SelectSpec(d: Document, key: string, p: Pred)
    ensures SelectFrom(d, key, p).Err? <==> MatchesNonObject(CollectionAt(d, key), p)
    ensures SelectFrom(d, key, p).Ok? ==>
      |SelectFrom(d, key, p).value| == |Selected(CollectionAt(d, key), p)| <= |CollectionAt(d, key)|
    ensures SelectFrom(d, key, p).Ok? ==>
      forall j :: 0 <= j < |SelectFrom(d, key, p).value| ==>
        Clone(Selected(CollectionAt(d, key), p)[j]) == Ok(SelectFrom(d, key, p).value[j])
    ensures SelectFrom(d, key, p).Ok? && (forall i :: 0 <= i < |CollectionAt(d, key)| ==> Serializable(CollectionAt(d, key)[i])) ==>
      SelectFrom(d, key, p).value == Selected(CollectionAt(d, key), p)
    ensures key !in d ==> SelectFrom(d, key, p) == Ok([])
  {
    var s := CollectionAt(d, key);
    SelectedLength(s, p);
    if SelectFrom(d, key, p).Ok? {
      SelectedKeeps(s, p, IsObject);
    }
    if SelectFrom(d, key, p).Ok? && forall i :: 0 <= i < |s| ==> Serializable(s[i]) {
      var idx := SelectedIndices(s, p);
      var r := Selected(s, p);
      forall j | 0 <= j < |r| ensures SelectFrom(d, key, p).value[j] == r[j] {
        CopyExact(s[idx[j]]);
      }
    }
  }

  // ---------------------------------------------------------------- update

  /** The collection after merging `patch` into every match. */
  function Patched(s: seq<Value>, p: Pred, patch: Value): (t: seq<Value>)
    ensures |t| == |s|
  {
    seq(|s|, i requires 0 <= i < |s| => if p(s[i], i) then Mix(s[i], patch) else s[i])
  }

  /** The collection while update's pass stands at index `i`: the matches
      below `i` are merged, everything from `i` on is untouched. */
  function PatchedBelow(s: seq<Value>, p: Pred, patch: Value, i: nat): (t: seq<Value>)
    ensures |t| == |s|
  {
    seq(|s|, j requires 0 <= j < |s| => if j < i && p(s[j], j) then Mix(s[j], patch) else s[j])
  }

  lemma PatchedBelowEnds(s: seq<Value>, p: Pred, patch: Value)
    ensures PatchedBelow(s, p, patch, 0) == s
    ensures PatchedBelow(s, p, patch, |s|) == Patched(s, p, patch)
  {
  }

  lemma PatchedBelowStep(s: seq<Value>, p: Pred, patch: Value, i: nat)
    requires i < |s|
    ensures PatchedBelow(s, p, patch, i)[i] == s[i]
    ensures PatchedBelow(s, p, patch, i + 1) ==
      if p(s[i], i) then PatchedBelow(s, p, patch, i)[i := Mix(s[i], patch)] else PatchedBelow(s, p, patch, i)
  {
  }

  /** The records merged with `patch`, one for one. */
  function MixAll(r: seq<Value>, patch: Value): (t: seq<Value>)
    ensures |t| == |r|
  {
    seq(|r|, j requires 0 <= j < |r| => Mix(r[j], patch))
  }

  lemma MixAllAppend(a: seq<Value>, b: seq<Value>, patch: Value)
    ensures MixAll(a + b, patch) == MixAll(a, patch) + MixAll(b, patch)
  {
  }

  /** The records at the indices a filter matched in `s`. */
  function MatchedIn(s: seq<Value>, p: Pred): Pred {
    (v: Value, i: int) => 0 <= i < |s| && p(s[i], i)
  }

  /** The document after `update(key, patch, filter)` (index.js:221-229). */
  function AfterUpdate(d: Document, key: string, p: Pred, patch: Value): Document {
    if key in d then d[key := Patched(d[key], p, patch)] else d
  }

  /** The `updated` list that update hands to its callback. */
  function UpdatedRecords(d: Document, key: string, p: Pred, patch: Value): seq<Value> {
    MixAll(Selected(CollectionAt(d, key), p), patch)
  }

  /** The merged records are the records the collection now holds at the
      indices that matched, in index order. */
  lemma {:induction false} UpdatedAreStored(s: seq<Value>, p: Pred, patch: Value)
    ensures MixAll(Selected(s, p), patch) == Selected(Patched(s, p, patch), MatchedIn(s, p))
  {
    if s != [] {
      var n := |s| - 1;
      UpdatedAreStored(s[..n], p, patch);
      MatchedPrefix(s, p, patch, n);
      assert Patched(s, p, patch)[..n] == Patched(s[..n], p, patch);
    }
  }

  /** Below `n`, matching in `s` and matching in its prefix agree. */
  lemma {:induction false} MatchedPrefix(s: seq<Value>, p: Pred, patch: Value, n: nat)
    requires n <= |s|
    ensures Selected(Patched(s[..n], p, patch), MatchedIn(s, p))
         == Selected(Patched(s[..n], p, patch), MatchedIn(s[..n], p))
  {
    if n > 0 {
      MatchedPrefix(s, p, patch, n - 1);
      var t := Patched(s[..n], p, patch);
      assert t[..n - 1] == Patched(s[..n - 1], p, patch);
      assert s[..n][..n - 1] == s[..n - 1];
      MatchedPrefixAgree(s, p, patch, n - 1);
    }
  }

  lemma MatchedPrefixAgree(s: seq<Value>, p: Pred, patch: Value, m: nat)
    requires m < |s|
    ensures Selected(Patched(s[..m], p, patch), MatchedIn(s[..m + 1], p))
         == Selected(Patched(s[..m], p, patch), MatchedIn(s[..m], p))
  {
    SameOnPrefix(Patched(s[..m], p, patch), MatchedIn(s[..m + 1], p), MatchedIn(s[..m], p));
  }

  /** Two filters that agree on every index of a collection select alike. */
  lemma {:induction false} SameOnPrefix(t: seq<Value>, p: Pred, q: Pred)
    requires forall i :: 0 <= i < |t| ==> p(t[i], i) == q(t[i], i)
    ensures Selected(t, p) == Selected(t, q)
  {
    if t != [] {
      var n := |t| - 1;
      forall i | 0 <= i < n ensures p(t[..n][i], i) == q(t[..n][i], i) { assert t[..n][i] == t[i]; }
      SameOnPrefix(t[..n], p, q);
    }
  }

  /** Update keeps every key and every collection length; a non-matching
      record is unchanged and a matching one is its merge with the patch;
      the `updated` list is the stored merged records in index order. */
  lemma UpdateSpec(d: Document, key: string, p: Pred, patch: Value)
    ensures AfterUpdate(d, key, p, patch).Keys == d.Keys
    ensures forall k :: k != key ==> CollectionAt(AfterUpdate(d, key, p, patch), k) == CollectionAt(d, k)
    ensures |CollectionAt(AfterUpdate(d, key, p, patch), key)| == |CollectionAt(d, key)|
    ensures forall i :: 0 <= i < |CollectionAt(d, key)| && !p(CollectionAt(d, key)[i], i) ==>
      CollectionAt(AfterUpdate(d, key, p, patch), key)[i] == CollectionAt(d, key)[i]
    ensures forall i :: 0 <= i < |CollectionAt(d, key)| && p(CollectionAt(d, key)[i], i) ==>
      CollectionAt(AfterUpdate(d, key, p, patch), key)[i] == Mix(CollectionAt(d, key)[i], patch)
    ensures UpdatedRecords(d, key, p, patch)
         == Selected(CollectionAt(AfterUpdate(d, key, p, patch), key), MatchedIn(CollectionAt(d, key), p))
    ensures Tidy(d) ==> Tidy(AfterUpdate(d, key, p, patch))
  {
    UpdatedAreStored(CollectionAt(d, key), p, patch);
  }

  // ---------------------------------------------------------------- remove

  /** The `removed` list of `remove(key, filter)`. */
  function RemovedRecords(d: Document, key: string, p: Pred): (r: seq<Value>)
    ensures key !in d ==> r == []
  {
    Selected(CollectionAt(d, key), p)
  }

  /** The document after `remove(key, filter)` (index.js:144-162), with the
      marking done by a sentinel that no record equals. */
  function AfterRemove(d: Document, key: string, p: Pred): (d': Document)
    ensures forall k :: k != key ==> CollectionAt(d', k) == CollectionAt(d, k)
    ensures d'.Keys <= d.Keys
    ensures key !in d ==> d' == d
    ensures Tidy(d) ==> Tidy(d')
  {
    if key !in d then d
    else
      var kept := Compacted(Marked(d[key], p));
      if |kept| == 0 then d - {key} else d[key := kept]
  }

  /** Remove splits the collection: the removed records are the matches in
      order, what stays is the rest in order, and together they are a
      permutation of the old collection. */
  lemma RemoveSplits(d: Document, key: string, p: Pred)
    ensures CollectionAt(AfterRemove(d, key, p), key) == Selected(CollectionAt(d, key), Not(p))
    ensures multiset(RemovedRecords(d, key, p)) + multiset(CollectionAt(AfterRemove(d, key, p), key))
         == multiset(CollectionAt(d, key))
    ensures |RemovedRecords(d, key, p)| + |CollectionAt(AfterRemove(d, key, p), key)| == |CollectionAt(d, key)|
  {
    var s := CollectionAt(d, key);
    CompactMarked(s, p);
    SelectedSplit(s, p);
    SelectedLength(s, p);
  }

  /** After remove the key is present exactly when some record did not
      match, and then its collection is not empty. */
  lemma RemoveDeletesEmpty(d: Document, key: string, p: Pred)
    ensures key in AfterRemove(d, key, p) <==>
      exists i :: 0 <= i < |CollectionAt(d, key)| && !p(CollectionAt(d, key)[i], i)
    ensures key in AfterRemove(d, key, p) ==> AfterRemove(d, key, p)[key] != []
  {
    var s := CollectionAt(d, key);
    CompactMarked(s, p);
    SelectedNone(s, Not(p));
    assert (forall i :: 0 <= i < |s| ==> !Not(p)(s[i], i)) <==> (forall i :: 0 <= i < |s| ==> p(s[i], i));
  }

  /** With a filter that matches everything, remove empties the collection:
      every record is returned and the key is deleted. */
  lemma RemoveEverything(d: Document, key: string, p: Pred)
    requires forall v: Value, i: int :: p(v, i)
    ensures RemovedRecords(d, key, p) == CollectionAt(d, key)
    ensures key !in AfterRemove(d, key, p)
    ensures AfterRemove(d, key, p) == d - {key}
  {
    var s := CollectionAt(d, key);
    SelectedEvery(s, p);
    CompactMarked(s, p);
    SelectedNone(s, Not(p));
  }

  // ------------------------------------------------- remove, as written

  /** The marking phase as index.js:149 writes it: a match is overwritten with
      `undefined`, a value that records can hold too. */
  function MarkedAsWritten(s: seq<Value>, p: Pred): (m: seq<Value>)
    ensures |m| == |s|
  {
    seq(|s|, i requires 0 <= i < |s| => if p(s[i], i) then Undefined else s[i])
  }

  /** The compaction as index.js:153-155 writes it: every `undefined` goes. */
  function CompactedAsWritten(vs: seq<Value>): seq<Value> {
    if vs == [] then []
    else
      var n := |vs| - 1;
      CompactedAsWritten(vs[..n]) + (if vs[n] == Undefined then [] else [vs[n]])
  }

  /** The document after remove as the source writes it. */
  function AfterRemoveAsWritten(d: Document, key: string, p: Pred): Document {
    if key !in d then d
    else
      var kept := CompactedAsWritten(MarkedAsWritten(d[key], p));
      if |kept| == 0 then d - {key} else d[key := kept]
  }

  /** A collection holding one `undefined` record that the filter does not
      match: the source removes nothing, yet deletes the collection. */
  lemma RemoveAsWrittenDropsUndefined()
    ensures var d := map["k" := [Undefined]];
            var never: Pred := (v: Value, i: int) => false;
            RemovedRecords(d, "k", never) == [] &&
            AfterRemove(d, "k", never) == d &&
            AfterRemoveAsWritten(d, "k", never) == map[]
  {
    var d := map["k" := [Undefined]];
    var never: Pred := (v: Value, i: int) => false;
    var s := [Undefined];
    assert s[..0] == [];
    assert Marked(s, never) == [Kept(Undefined)];
    assert Marked(s, never)[..0] == [];
    assert MarkedAsWritten(s, never) == [Undefined];
    assert MarkedAsWritten(s, never)[..0] == [];
    assert Selected(s, never) == [];
    assert Compacted(Marked(s, never)) == [Undefined];
    assert AfterRemove(d, "k", never) == d;
    assert CompactedAsWritten(MarkedAsWritten(s, never)) == [];
    assert d - {"k"} == map[];
  }

  /** Without `undefined` records the source's remove is the one above. */
  lemma {:induction false} MarkedAsWrittenAgrees(s: seq<Value>, p: Pred)
    requires forall i :: 0 <= i < |s| ==> s[i] != Undefined
    ensures CompactedAsWritten(MarkedAsWritten(s, p)) == Compacted(Marked(s, p))
  {
    if s != [] {
      var n := |s| - 1;
      assert MarkedAsWritten(s, p)[..n] == MarkedAsWritten(s[..n], p);
      assert Marked(s, p)[..n] == Marked(s[..n], p);
      MarkedAsWrittenAgrees(s[..n], p);
    }
  }

  lemma RemoveAsWrittenAgrees(d: Document, key: string, p: Pred)
    requires forall i :: 0 <= i < |CollectionAt(d, key)| ==> CollectionAt(d, key)[i] != Undefined
    ensures AfterRemoveAsWritten(d, key, p) == AfterRemove(d, key, p)
  {
    MarkedAsWrittenAgrees(CollectionAt(d, key), p);
  }
}
