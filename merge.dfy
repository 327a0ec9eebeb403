/**
 * The store's `deepMerge(target, source)`: for every key of `source`, in
 * `Object.keys` order, a composite new value is merged recursively into an
 * old value that is a plain (non-array) object; every other new value
 * replaces the old one as it is.
 */
module Merging {
  import opened Results
  import opened JsonValues

  /**
   * `target` after the keys of `source` from position `i` on have been
   * merged into it. The kind of `target` (object, array) never changes.
   */
  function MergeFrom(target: Json, source: Json, i: nat): (r: Json)
    requires i <= |Entries(source)|
    ensures r.JObj? == target.JObj? && r.JArr? == target.JArr?
    decreases source, |Entries(source)| - i
  {
    if i == |Entries(source)| then target
    else
      var e := Entries(source)[i];
      var v :=
        if IsComposite(e.value) then
          EntryValueSmaller(source, i);
          MergeValue(Prop(target, e.key), e.value)
        else e.value;
      MergeFrom(SetKey(target, e.key, v), source, i + 1)
  }

  /**
   * The value a composite `v` leaves under a key that held `prior`: merged
   * into `prior` when that is a plain object, else `v` itself.
   */
  function MergeValue(prior: Option<Json>, v: Json): (r: Json)
    requires IsComposite(v)
    ensures IsComposite(r)
    ensures prior.Some? && prior.value.JObj? ==> r.JObj?
    decreases v, |Entries(v)| + 1
  {
    if prior.Some? && prior.value.JObj? then MergeFrom(prior.value, v, 0) else v
  }

  /** The value `deepMerge` leaves under a key that held `prior` when the update holds `v` there. */
  function MergedAt(prior: Option<Json>, v: Json): Json {
    if IsComposite(v) then MergeValue(prior, v) else v
  }

  /**
   * `deepMerge` itself: the loop over `Object.keys(source)` with the
   * recursive call, on a value instead of in place. `Object.keys(null)`
   * throws, which the store reports as an unknown error.
   */
  method DeepMerge(target: Json, source: Json) returns (r: Result<Json>)
    ensures source.JNull? ==> r == Err(Unknown)
    ensures !source.JNull? ==> r == Ok(MergeFrom(target, source, 0))
    decreases source
  {
    if source.JNull? {
      return Err(Unknown);
    }
    var keys := Entries(source);
    var merged := target;
    for i := 0 to |keys|
      invariant MergeFrom(merged, source, i) == MergeFrom(target, source, 0)
    {
      var key, value := keys[i].key, keys[i].value;
      var current := Prop(merged, key);
      if IsComposite(value) && current.Some? && current.value.JObj? {
        EntryValueSmaller(source, i);
        var inner := DeepMerge(current.value, value);
        merged := SetKey(merged, key, inner.value);
      } else {
        merged := SetKey(merged, key, value);
      }
    }
    r := Ok(merged);
  }

  // ---------------------------------------------------------------------------
  // What a merge does to each key

  /** One step of the merge loop: key `i` of `source` is set to its merged value. */
  lemma MergeFromStep(target: Json, source: Json, i: nat)
    requires i < |Entries(source)|
    ensures MergeFrom(target, source, i)
         == MergeFrom(SetKey(target, Entries(source)[i].key,
                             MergedAt(Prop(target, Entries(source)[i].key), Entries(source)[i].value)),
                      source, i + 1)
  {
  }

  lemma {:induction false} KeepsAbsentFrom(target: Json, source: Json, i: nat, k: string)
    requires i <= |Entries(source)|
    requires target.JObj? || (target.JArr? && Prop(target, k).Some?)
    requires forall j :: i <= j < |Entries(source)| ==> Entries(source)[j].key != k
    ensures Prop(MergeFrom(target, source, i), k) == Prop(target, k)
    decreases |Entries(source)| - i
  {
    if i < |Entries(source)| {
      var e := Entries(source)[i];
      var v := MergedAt(Prop(target, e.key), e.value);
      MergeFromStep(target, source, i);
      SetKeyOther(target, e.key, v, k);
      KeepsAbsentFrom(SetKey(target, e.key, v), source, i + 1, k);
    }
  }

  /**
   * A key the update does not mention keeps its old value (or stays absent).
   * Together with MergeSetsKey this holds at every level of nesting, since
   * each nested merge is again a MergeFrom.
   */
  lemma MergeKeepsAbsentKeys(target: Json, source: Json, k: string)
    requires target.JObj?
    requires forall e :: e in Entries(source) ==> e.key != k
    ensures Prop(MergeFrom(target, source, 0), k) == Prop(target, k)
  {
    forall j | 0 <= j < |Entries(source)|
      ensures Entries(source)[j].key != k
    {
      assert Entries(source)[j] in Entries(source);
    }
    KeepsAbsentFrom(target, source, 0, k);
  }

  lemma {:induction false} SetsKeyFrom(target: Json, source: Json, i: nat, j: nat)
    requires target.JObj? && DistinctKeys(Entries(source))
    requires i <= j < |Entries(source)|
    ensures Prop(MergeFrom(target, source, i), Entries(source)[j].key)
         == Some(MergedAt(Prop(target, Entries(source)[j].key), Entries(source)[j].value))
    decreases j - i
  {
    var e := Entries(source)[i];
    var k := Entries(source)[j].key;
    var v := MergedAt(Prop(target, e.key), e.value);
    var next := SetKey(target, e.key, v);
    MergeFromStep(target, source, i);
    if i < j {
      assert e.key != k;
      SetKeyOther(target, e.key, v, k);
      SetsKeyFrom(next, source, i + 1, j);
    } else {
      forall j' | i + 1 <= j' < |Entries(source)|
        ensures Entries(source)[j'].key != k
      {
      }
      KeepsAbsentFrom(next, source, i + 1, k);
    }
  }

  /**
   * A key the update mentions ends up with the update's value, merged
   * recursively when both the old and the new value are objects and the
   * old one is not an array, and taken as it is otherwise.
   */
  lemma MergeSetsKey(target: Json, source: Json, j: nat)
    requires target.JObj? && DistinctKeys(Entries(source))
    requires j < |Entries(source)|
    ensures Prop(MergeFrom(target, source, 0), Entries(source)[j].key)
         == Some(MergedAt(Prop(target, Entries(source)[j].key), Entries(source)[j].value))
  {
    SetsKeyFrom(target, source, 0, j);
  }

  /** Both cases of MergedAt, spelt out. */
  lemma MergedAtCases(prior: Option<Json>, v: Json)
    ensures IsComposite(v) && prior.Some? && prior.value.JObj? ==> MergedAt(prior, v) == MergeFrom(prior.value, v, 0)
    ensures !(IsComposite(v) && prior.Some? && prior.value.JObj?) ==> MergedAt(prior, v) == v
  {
  }

  // ---------------------------------------------------------------------------
  // Idempotence

  /** A merge whose every key already holds its merged value changes nothing. */
  lemma {:induction false} MergeFixpoint(target: Json, source: Json, i: nat)
    requires IsComposite(target) && i <= |Entries(source)|
    requires forall j :: i <= j < |Entries(source)| ==>
      Prop(target, Entries(source)[j].key)
        == Some(MergedAt(Prop(target, Entries(source)[j].key), Entries(source)[j].value))
    ensures MergeFrom(target, source, i) == target
    decreases |Entries(source)| - i
  {
    if i < |Entries(source)| {
      var e := Entries(source)[i];
      MergeFromStep(target, source, i);
      SetKeySame(target, e.key);
      MergeFixpoint(target, source, i + 1);
    }
  }

  /** Merging an object into itself changes nothing. */
  lemma {:induction false} MergeSelf(v: Json)
    requires v.JObj? && WellFormed(v)
    ensures MergeFrom(v, v, 0) == v
    decreases v, 0
  {
    var es := Entries(v);
    EntriesAgreeWithProp(v);
    EntriesWellFormed(v);
    forall j | 0 <= j < |es|
      ensures Prop(v, es[j].key) == Some(MergedAt(Prop(v, es[j].key), es[j].value))
    {
      if IsComposite(es[j].value) {
        EntryValueSmaller(v, j);
        MergedAtSelf(es[j].value);
      }
    }
    MergeFixpoint(v, v, 0);
  }

  lemma {:induction false} MergedAtSelf(x: Json)
    requires WellFormed(x)
    ensures MergedAt(Some(x), x) == x
    decreases x, 1
  {
    if x.JObj? {
      MergeSelf(x);
    }
  }

  /**
   * Merging the same update twice is merging it once: a repeated
   * `writeDocument` of the same data leaves the document as the first one did.
   */
  lemma {:induction false} MergeIdempotent(target: Json, source: Json)
    requires target.JObj? && WellFormed(source)
    ensures MergeFrom(MergeFrom(target, source, 0), source, 0) == MergeFrom(target, source, 0)
    decreases source, 1
  {
    var es := Entries(source);
    var once := MergeFrom(target, source, 0);
    EntriesAgreeWithProp(source);
    EntriesWellFormed(source);
    forall j | 0 <= j < |es|
      ensures Prop(once, es[j].key) == Some(MergedAt(Prop(once, es[j].key), es[j].value))
    {
      MergeSetsKey(target, source, j);
      if IsComposite(es[j].value) {
        EntryValueSmaller(source, j);
        MergedAtIdempotent(Prop(target, es[j].key), es[j].value);
      }
    }
    MergeFixpoint(once, source, 0);
  }

  lemma {:induction false} MergedAtIdempotent(prior: Option<Json>, v: Json)
    requires WellFormed(v)
    ensures MergedAt(Some(MergedAt(prior, v)), v) == MergedAt(prior, v)
    decreases v, 2
  {
    if IsComposite(v) {
      if prior.Some? && prior.value.JObj? {
        MergeIdempotent(prior.value, v);
      } else {
        MergedAtSelf(v);
      }
    }
  }

  // ---------------------------------------------------------------------------
  // The documented merge examples

  /**
   * A nested update adds its field next to the fields already there:
   * `{n: {a: x}}` merged with `{n: {b: y}}` is `{n: {a: x, b: y}}`.
   */
  lemma MergesNestedFields(n: string, a: string, x: Json, b: string, y: Json)
    requires a != b && IsPrimitive(y)
    ensures MergeFrom(JObj([Field(n, JObj([Field(a, x)]))]), JObj([Field(n, JObj([Field(b, y)]))]), 0)
         == JObj([Field(n, JObj([Field(a, x), Field(b, y)]))])
  {
    var fs := [Field(a, x)];
    var update := JObj([Field(b, y)]);
    var target := JObj([Field(n, JObj(fs))]);
    var source := JObj([Field(n, update)]);
    var merged := JObj(fs + [Field(b, y)]);
    AppendsNewPrimitive(fs, b, y);
    assert Prop(target, n) == Some(JObj(fs));
    MergedAtCases(Prop(target, n), update);
    assert MergedAt(Prop(target, n), update) == merged;
    assert Entries(source) == [Field(n, update)];
    MergeFromStep(target, source, 0);
    var t1 := SetKey(target, n, merged);
    assert [Field(n, JObj(fs))][1..] == [];
    assert t1 == JObj([Field(n, merged)]);
    assert MergeFrom(t1, source, 1) == t1;
    assert fs + [Field(b, y)] == [Field(a, x), Field(b, y)];
  }

  /** A primitive under a key the object lacks is appended as its last field. */
  lemma AppendsNewPrimitive(fs: seq<Field>, k: string, x: Json)
    requires !HasField(fs, k) && IsPrimitive(x)
    ensures MergeFrom(JObj(fs), JObj([Field(k, x)]), 0) == JObj(fs + [Field(k, x)])
  {
    var source := JObj([Field(k, x)]);
    assert Entries(source) == [Field(k, x)];
    MergeFromStep(JObj(fs), source, 0);
    assert MergedAt(Prop(JObj(fs), k), x) == x;
  }

  /** An object replaces a string field outright. */
  lemma ReplacesPrimitiveWithObject()
    ensures MergeFrom(JObj([Field("field", JStr("initial value"))]),
                      JObj([Field("field", JObj([Field("nestedField", JStr("new data"))]))]), 0)
         == JObj([Field("field", JObj([Field("nestedField", JStr("new data"))]))])
  {
  }

  /** An array is never merged into: the new (empty) array replaces the old one. */
  lemma ReplacesArray()
    ensures MergeFrom(JObj([Field("field", JArr([JStr("initialValue")]))]),
                      JObj([Field("field", JArr([]))]), 0)
         == JObj([Field("field", JArr([]))])
  {
  }

  /** Unrelated top-level fields survive an update of a nested one. */
  lemma PreservesUnrelatedFields()
    ensures MergeFrom(JObj([Field("topField", JStr("keep this")),
                            Field("nestedField", JObj([Field("subField", JStr("original"))]))]),
                      JObj([Field("nestedField", JObj([Field("subField", JStr("updated"))]))]), 0)
         == JObj([Field("topField", JStr("keep this")),
                  Field("nestedField", JObj([Field("subField", JStr("updated"))]))])
  {
    var inner := JObj([Field("subField", JStr("original"))]);
    var update := JObj([Field("subField", JStr("updated"))]);
    var target := JObj([Field("topField", JStr("keep this")), Field("nestedField", inner)]);
    var source := JObj([Field("nestedField", update)]);
    MergeFromStep(inner, update, 0);
    assert MergeFrom(inner, update, 0) == update;
    assert "topField" != "nestedField" by {
      assert |"topField"| != |"nestedField"|;
    }
    assert FieldLookup(target.fields[1..], "nestedField") == Some(inner);
    assert Prop(target, "nestedField") == Some(inner);
    assert SetKey(target, "nestedField", update)
        == JObj([Field("topField", JStr("keep this")), Field("nestedField", update)]) by {
      assert SetField(target.fields[1..], "nestedField", update) == [Field("nestedField", update)];
    }
    MergeFromStep(target, source, 0);
  }

  /** An array already at the top of a document is updated element by element. */
  lemma MergesIntoTopLevelArray()
    ensures MergeFrom(JArr([JStr("a"), JStr("b")]), JArr([JStr("c")]), 0) == JArr([JStr("c"), JStr("b")])
  {
    var source := JArr([JStr("c")]);
    assert IndexKey(0) == "0";
    assert Entries(source)[0] == Field("0", JStr("c"));
    assert DigitsValue("0") == 0 by {
      assert "0"[..0] == [];
    }
    assert ParseIndex("0") == Some(0);
    MergeFromStep(JArr([JStr("a"), JStr("b")]), source, 0);
  }
}
