// The record model of the store: the JavaScript values a record can hold,
// the deep copy that `select` hands out, and the shallow merge `update` applies.

module Json {

  /** A JavaScript value as the store holds it in memory. `Undefined` is kept
      apart from `Null`: a caller can insert `undefined`, and JSON turns it
      into `null` (in arrays) or drops it (as an object field). Numbers are
      modelled as integers. */
  datatype Value =
    | Undefined
    | Null
    | Bool(b: bool)
    | Num(n: int)
    | Str(s: string)
    | Arr(items: seq<Value>)
    | Obj(fields: map<string, Value>)

  /** `mu.isObject`: the only values `clone` accepts. */
  predicate IsObject(v: Value) {
    v.Obj?
  }

  /** A value that JSON represents exactly: no `undefined` anywhere inside. */
  predicate Serializable(v: Value) {
    match v
    case Undefined => false
    case Arr(xs) => forall i :: 0 <= i < |xs| ==> Serializable(xs[i])
    case Obj(m) => forall k :: k in m ==> Serializable(m[k])
    case _ => true
  }

  /** `JSON.parse(JSON.stringify(v))` on a value below the top level: an
      `undefined` array element becomes `null`, an `undefined` field is
      dropped, everything else is copied structurally. */
  function Copy(v: Value): Value {
    match v
    case Arr(xs) =>
      Arr(seq(|xs|, i requires 0 <= i < |xs| => if xs[i] == Undefined then Null else Copy(xs[i])))
    case Obj(m) =>
      Obj(map k | k in m && m[k] != Undefined :: Copy(m[k]))
    case _ => v
  }

  /** A copy of anything but `undefined` is exactly representable in JSON. */
  lemma {:induction false} CopySerializable(v: Value)
    requires v != Undefined
    ensures Serializable(Copy(v))
  {
    match v
    case Arr(xs) =>
      forall i | 0 <= i < |xs| ensures Serializable(Copy(v).items[i]) {
        if xs[i] != Undefined { CopySerializable(xs[i]); }
      }
    case Obj(m) =>
      forall k | k in Copy(v).fields ensures Serializable(Copy(v).fields[k]) {
        CopySerializable(m[k]);
      }
    case _ =>
  }

  /** On a value JSON represents exactly, the copy is structurally equal to
      the original: the reader gets the same record. */
  lemma {:induction false} CopyExact(v: Value)
    requires Serializable(v)
    ensures Copy(v) == v
  {
    match v
    case Arr(xs) =>
      forall i | 0 <= i < |xs| ensures Copy(v).items[i] == xs[i] {
        CopyExact(xs[i]);
      }
    case Obj(m) =>
      forall k | k in m ensures Copy(v).fields[k] == m[k] {
        CopyExact(m[k]);
      }
      assert Copy(v).fields == m;
    case _ =>
  }

  /** Copying a copy changes nothing more. */
  lemma CopyIdempotent(v: Value)
    ensures Copy(Copy(v)) == Copy(v)
  {
    if v != Undefined {
      CopySerializable(v);
      CopyExact(Copy(v));
    }
  }

  /** Why an operation throws. `InvalidObject` is the error of index.js:65. */
  datatype Error = InvalidObject

  datatype Result<T> = Ok(value: T) | Err(error: Error)

  /** `clone` (index.js:63-74): only objects are cloned; the copy is their
      JSON round trip. */
  function Clone(v: Value): (r: Result<Value>)
    ensures r.Err? <==> !IsObject(v)
    ensures r.Ok? ==> r.value.Obj? && Serializable(r.value)
    ensures r.Ok? && Serializable(v) ==> r.value == v
  {
    if !IsObject(v) then Err(InvalidObject)
    else
      CopySerializable(v);
      assert Serializable(v) ==> Copy(v) == v by { if Serializable(v) { CopyExact(v); } }
      Ok(Copy(v))
  }

  /** `mu.mix(target, patch)`: a shallow merge of the patch's fields into the
      target's. When either side is not an object the record is left as it
      is. */
  function Mix(target: Value, patch: Value): Value {
    if target.Obj? && patch.Obj? then Obj(target.fields + patch.fields) else target
  }

  /** The patch's fields overwrite or are added to the target's, every other
      field of the target is kept, and nothing else appears. */
  lemma MixFields(target: Value, patch: Value)
    ensures target.Obj? && patch.Obj? ==>
      Mix(target, patch).Obj? && Mix(target, patch).fields.Keys == target.fields.Keys + patch.fields.Keys
    ensures target.Obj? && patch.Obj? ==>
      forall k :: k in patch.fields ==> Mix(target, patch).fields[k] == patch.fields[k]
    ensures target.Obj? && patch.Obj? ==>
      forall k :: k in target.fields && k !in patch.fields ==> Mix(target, patch).fields[k] == target.fields[k]
    ensures !(target.Obj? && patch.Obj?) ==> Mix(target, patch) == target
  {
  }

  /** Merging the same patch twice is the same as merging it once. */
  lemma MixIdempotent(target: Value, patch: Value)
    ensures Mix(Mix(target, patch), patch) == Mix(target, patch)
  {
    if target.Obj? && patch.Obj? {
      var once := Mix(target, patch).fields;
      assert once + patch.fields == once;
    }
  }
}
