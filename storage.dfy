// The store object of index.js:77-239: `this._data` and the four record
// operations that read and change it in place.

module Store {
  import opened Json
  import opened Filter
  import opened Collections
  import opened Documents

  class Storage {
    /** `this._data`, the parsed content of the store's file. */
    var data: Document

    /** The initializer once the file has been read and parsed
        (index.js:82-91): the document is what the file held. */
    constructor (loaded: Document)
      ensures data == loaded
    {
      data := loaded;
    }

    /** `insert(key, value)`: appends `value` to the collection under `key`,
        creating the collection when the key is absent. */
    method Insert(key: string, value: Value)
      modifies this
      ensures data == Inserted(old(data), key, value)
      ensures CollectionAt(data, key) == CollectionAt(old(data), key) + [value]
      ensures forall k :: k != key ==> CollectionAt(data, k) == CollectionAt(old(data), k)
    {
      if key !in data {
        data := data[key := [value]];
      } else {
        data := data[key := data[key] + [value]];
      }
    }

    /** `select(key, filter)`: copies of the matching records in collection
        order, or the error `clone` throws on a matching non-object. The
        document is only read. */
    method Select(key: string, filter: FilterArg, run: Runner) returns (result: Result<seq<Value>>)
      ensures result == SelectFrom(data, key, Predicate(filter, run))
      ensures result.Ok? ==> |result.value| <= |CollectionAt(data, key)|
      ensures key !in data ==> result == Ok([])
    {
      var p := Predicate(filter, run);
      SelectSpec(data, key, p);
      var records: seq<Value> := [];
      if key in data {
        var arr := data[key];
        for i := 0 to |arr|
          invariant forall j :: 0 <= j < i && p(arr[j], j) ==> IsObject(arr[j])
          invariant records == Copies(Selected(arr[..i], p))
        {
          SelectedStep(arr, p, i);
          CopiesAppend(Selected(arr[..i], p), if p(arr[i], i) then [arr[i]] else []);
          if p(arr[i], i) {
            var copy := Clone(arr[i]);
            if copy.Err? {
              return Err(copy.error);
            }
            records := records + [copy.value];
          }
        }
        assert arr[..|arr|] == arr;
      }
      result := Ok(records);
    }

    /** `update(key, patch, filter)`: merges `patch` into every matching
        record in place and returns the merged records in index order. */
    method Update(key: string, patch: Value, filter: FilterArg, run: Runner) returns (updated: seq<Value>)
      modifies this
      ensures data == AfterUpdate(old(data), key, Predicate(filter, run), patch)
      ensures updated == UpdatedRecords(old(data), key, Predicate(filter, run), patch)
      ensures data.Keys == old(data).Keys
      ensures |CollectionAt(data, key)| == |CollectionAt(old(data), key)|
    {
      updated := [];
      if key in data {
        var arr;
        arr, updated := MergeMatches(data[key], Predicate(filter, run), patch);
        data := data[key := arr];
      }
    }

    /** `remove(key, filter)`: marks every match with a hole while every
        record is still tested at its original index, then compacts the
        collection and deletes the key when nothing is left. Returns the
        removed records in their original order. */
    method Remove(key: string, filter: FilterArg, run: Runner) returns (removed: seq<Value>)
      modifies this
      ensures data == AfterRemove(old(data), key, Predicate(filter, run))
      ensures removed == RemovedRecords(old(data), key, Predicate(filter, run))
      ensures key in data ==> data[key] != []
      ensures forall k :: k != key ==> CollectionAt(data, k) == CollectionAt(old(data), k)
    {
      var p := Predicate(filter, run);
      removed := [];
      if key in data {
        var s := data[key];
        var arr := new Slot<Value>[|s|](i requires 0 <= i < |s| => Kept(s[i]));
        for i := 0 to arr.Length
          invariant data == old(data)
          invariant arr[..i] == Marked(s, p)[..i]
          invariant forall j :: i <= j < arr.Length ==> arr[j] == Kept(s[j])
          invariant removed == Selected(s[..i], p)
        {
          SelectedStep(s, p, i);
          var record := arr[i].value;
          if p(record, i) {
            removed := removed + [record];
            arr[i] := Hole;
          }
          assert arr[..i + 1] == arr[..i] + [arr[i]];
          assert Marked(s, p)[..i + 1] == Marked(s, p)[..i] + [Marked(s, p)[i]];
        }
        assert arr[..] == arr[..arr.Length] == Marked(s, p)[..|s|] == Marked(s, p);
        assert s[..|s|] == s;
        var kept := Compacted(arr[..]);
        if |kept| == 0 {
          data := data - {key};
        } else {
          data := data[key := kept];
        }
      }
    }
  }

  /** The loop of `update` (index.js:222-227): every record is tested at its
      index, and each match is replaced by its merge with `patch` and added
      to `updated`. */
  method MergeMatches(s: seq<Value>, p: Pred, patch: Value) returns (arr: seq<Value>, updated: seq<Value>)
    ensures arr == Patched(s, p, patch)
    ensures updated == MixAll(Selected(s, p), patch)
  {
    arr, updated := s, [];
    PatchedBelowEnds(s, p, patch);
    for i := 0 to |arr|
      invariant arr == PatchedBelow(s, p, patch, i)
      invariant updated == MixAll(Selected(s[..i], p), patch)
    {
      SelectedStep(s, p, i);
      MixAllAppend(Selected(s[..i], p), if p(s[i], i) then [s[i]] else [], patch);
      PatchedBelowStep(s, p, patch, i);
      if p(arr[i], i) {
        arr := arr[i := Mix(arr[i], patch)];
        updated := updated + [arr[i]];
      }
    }
    assert s[..|s|] == s;
  }

  /** An absent filter, a callback in the filter position or the empty text
      acts on every record: select copies them all, update merges into them
      all, and remove takes them all and deletes the key. */
  lemma EmptyFilterActsOnEvery(f: FilterArg, run: Runner, d: Document, key: string, patch: Value)
    requires f.Absent? || f.Callback? || f == Text("")
    ensures Selected(CollectionAt(d, key), Predicate(f, run)) == CollectionAt(d, key)
    ensures (forall i :: 0 <= i < |CollectionAt(d, key)| ==> IsObject(CollectionAt(d, key)[i])) ==>
      SelectFrom(d, key, Predicate(f, run)) == Ok(Copies(CollectionAt(d, key)))
    ensures CollectionAt(AfterUpdate(d, key, Predicate(f, run), patch), key) == MixAll(CollectionAt(d, key), patch)
    ensures UpdatedRecords(d, key, Predicate(f, run), patch) == MixAll(CollectionAt(d, key), patch)
    ensures RemovedRecords(d, key, Predicate(f, run)) == CollectionAt(d, key)
    ensures AfterRemove(d, key, Predicate(f, run)) == d - {key}
  {
    var p := Predicate(f, run);
    var s := CollectionAt(d, key);
    assert Compile(Source(f)) == MatchAll;
    forall v: Value, i: int ensures p(v, i) { }
    SelectedEvery(s, p);
    assert Patched(s, p, patch) == MixAll(s, patch);
    assert !MatchesNonObject(s, p) <== forall i :: 0 <= i < |s| ==> IsObject(s[i]);
    RemoveEverything(d, key, p);
  }
}
