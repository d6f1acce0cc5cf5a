// The session of test/main.js, replayed on the model: one person is
// inserted, selected four ways, renamed by a merge, selected again and
// removed.

module Scenario {
  import opened Json
  import opened Filter
  import opened Collections
  import opened Documents
  import opened Store

  function Jim(): Value {
    Obj(map["name" := Str("Jim"), "age" := Num(27)])
  }

  function Kim(): Value {
    Obj(map["name" := Str("Kim"), "age" := Num(27)])
  }

  function Rename(): Value {
    Obj(map["name" := Str("Kim")])
  }

  /** What the JavaScript engine answers for the two filter bodies the
      session uses; every other body is taken to be false. */
  function SessionEngine(): Runner {
    (body: string, v: Value, i: int) =>
      if body == "return ($.age==27);" then v.Obj? && "age" in v.fields && v.fields["age"] == Num(27)
      else if body == "return (__index==0);" then i == 0
      else false
  }

  lemma AgeBody()
    ensures Body("$.age==27") == "return ($.age==27);"
  {
    assert '#' !in "$.age==27";
    BodyWithoutSharp("$.age==27");
    assert "return (" + "$.age==27" + ");" == "return ($.age==27);";
  }

  lemma IndexBody()
    ensures Body("#==0") == "return (__index==0);"
  {
    var s := "#==0";
    assert s[0] == '#' && s[1] == '=';
    assert s[1..] == "==0";
    RewriteWithoutSharp("==0");
    assert Rewrite(s) == "__index==0";
  }

  /** What the session's filters make of one record at index 0. */
  lemma SessionFilters()
    ensures Predicate(Absent, SessionEngine())(Jim(), 0)
    ensures Predicate(Callback, SessionEngine())(Jim(), 0)
    ensures Predicate(Text("$.age==27"), SessionEngine())(Jim(), 0)
    ensures Predicate(Text("#==0"), SessionEngine())(Jim(), 0)
    ensures Predicate(Text("$.age==27"), SessionEngine())(Kim(), 0)
  {
    AgeBody();
    IndexBody();
  }

  /** The filter `#==0` selects exactly the first record of any collection,
      and nothing from an empty one. */
  lemma {:induction false} FirstByIndex(s: seq<Value>)
    ensures Selected(s, Predicate(Text("#==0"), SessionEngine())) == if s == [] then [] else [s[0]]
  {
    IndexBody();
    var p := Predicate(Text("#==0"), SessionEngine());
    if |s| == 1 {
      assert s[..0] == [];
      assert p(s[0], 0);
    } else if |s| > 1 {
      var n := |s| - 1;
      FirstByIndex(s[..n]);
      assert !p(s[n], n);
      assert s[..n][0] == s[0];
    }
  }

  /** A one-record collection whose record matches. */
  lemma OneMatch(x: Value, p: Pred)
    requires p(x, 0)
    ensures Selected([x], p) == [x]
    ensures Compacted(Marked([x], p)) == []
  {
    assert [x][..0] == [];
    assert Marked([x], p) == [Hole];
    assert Marked([x], p)[..0] == [];
  }

  /** Selecting from a one-record collection whose record matches and is an
      object without `undefined` inside returns that record. */
  lemma SelectOne(d: Document, x: Value, p: Pred)
    requires d == map["people" := [x]] && p(x, 0)
    requires x.Obj? && Serializable(x)
    ensures SelectFrom(d, "people", p) == Ok([x])
  {
    var s := [x];
    assert CollectionAt(d, "people") == s;
    OneMatch(x, p);
    assert !MatchesNonObject(s, p);
    CopyExact(x);
    assert Copies(s) == s;
  }

  lemma JimSerializable()
    ensures Serializable(Jim())
  {
    var m := Jim().fields;
    forall k | k in m ensures Serializable(m[k]) { assert k == "name" || k == "age"; }
  }

  lemma KimSerializable()
    ensures Serializable(Kim())
  {
    var m := Kim().fields;
    forall k | k in m ensures Serializable(m[k]) { assert k == "name" || k == "age"; }
  }

  lemma UpdateJim(d: Document, p: Pred)
    requires d == map["people" := [Jim()]] && p(Jim(), 0)
    ensures AfterUpdate(d, "people", p, Rename()) == map["people" := [Kim()]]
    ensures UpdatedRecords(d, "people", p, Rename()) == [Kim()]
  {
    OneMatch(Jim(), p);
    var merged := Jim().fields + Rename().fields;
    assert merged.Keys == Kim().fields.Keys;
    assert merged == Kim().fields;
    assert Mix(Jim(), Rename()) == Kim();
    var t := Patched([Jim()], p, Rename());
    assert t[0] == Kim();
    assert t == [Kim()];
    assert MixAll([Jim()], Rename()) == [Kim()];
  }

  lemma RemoveKim(d: Document, p: Pred)
    requires d == map["people" := [Kim()]] && p(Kim(), 0)
    ensures AfterRemove(d, "people", p) == map[]
    ensures RemovedRecords(d, "people", p) == [Kim()]
  {
    OneMatch(Kim(), p);
    assert d - {"people"} == map[];
  }

  /** Starting from an empty file: every select before the update returns
      the one record, the callback select included; the update reports the
      merged record, and the select after it returns that record with the
      same name; the remove returns it, and afterwards nothing is left under
      "people" and the key is gone. */
  method PeopleSession()
    returns (all: Result<seq<Value>>, byAge: Result<seq<Value>>, byIndex: Result<seq<Value>>,
             byCallback: Result<seq<Value>>, updated: seq<Value>, afterUpdate: Result<seq<Value>>,
             removed: seq<Value>, last: Result<seq<Value>>, finalData: Document)
    ensures all == Ok([Jim()]) && byAge == Ok([Jim()]) && byIndex == Ok([Jim()])
    ensures byCallback == Ok([Jim()])
    ensures updated == [Kim()]
    ensures afterUpdate == Ok([Kim()])
    ensures afterUpdate.value[0].fields["name"] == updated[0].fields["name"]
    ensures removed == [Kim()] && removed[0].fields["age"] == Num(27)
    ensures last == Ok([])
    ensures finalData == map[]
  {
    var run := SessionEngine();
    var age, index := Text("$.age==27"), Text("#==0");
    SessionFilters();
    JimSerializable();
    KimSerializable();

    var db := new Storage(map[]);
    db.Insert("people", Jim());
    assert db.data == map["people" := [Jim()]];
    SelectOne(db.data, Jim(), Predicate(Absent, run));
    SelectOne(db.data, Jim(), Predicate(age, run));
    SelectOne(db.data, Jim(), Predicate(index, run));
    SelectOne(db.data, Jim(), Predicate(Callback, run));
    UpdateJim(db.data, Predicate(age, run));

    all := db.Select("people", Absent, run);
    byAge := db.Select("people", age, run);
    byIndex := db.Select("people", index, run);
    byCallback := db.Select("people", Callback, run);

    updated := db.Update("people", Rename(), age, run);
    assert db.data == map["people" := [Kim()]];
    SelectOne(db.data, Kim(), Predicate(age, run));
    afterUpdate := db.Select("people", age, run);

    RemoveKim(db.data, Predicate(age, run));
    removed := db.Remove("people", age, run);
    last := db.Select("people", age, run);
    finalData := db.data;
  }
}
