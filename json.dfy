/**
 * JSON values as the store holds them, and the handful of JavaScript property
 * operations the store performs on them: truthiness, `v[key]`, `v[key] = x`,
 * `delete v[key]` and `Object.keys`/`Object.entries`.
 *
 * Objects keep their fields in insertion order, so that `Object.entries`
 * order is the order of `fields`. Arrays are addressed by canonical decimal
 * index keys ("0", "1", ..., no leading zeros), as JavaScript does.
 */
module JsonValues {
  import opened Results

  datatype Json =
    | JNull
    | JBool(b: bool)
    | JNum(n: int)
    | JStr(s: string)
    | JArr(items: seq<Json>)
    | JObj(fields: seq<Field>)

  datatype Field = Field(key: string, value: Json)

  /** JavaScript truthiness of a read value; `None` is `undefined`. */
  predicate Truthy(v: Option<Json>) {
    match v
    case None => false
    case Some(JNull) => false
    case Some(JBool(b)) => b
    case Some(JNum(n)) => n != 0
    case Some(JStr(s)) => s != ""
    case Some(_) => true
  }

  /**
   * `v instanceof Object`; for a truthy value this is also `typeof v === "object"`.
   */
  predicate IsComposite(v: Json) {
    v.JArr? || v.JObj?
  }

  predicate IsPrimitive(v: Json) {
    !IsComposite(v)
  }

  lemma CompositeIsTruthy(v: Json)
    requires IsComposite(v)
    ensures Truthy(Some(v))
  {
  }

  // ---------------------------------------------------------------------------
  // Array index keys

  function DigitChar(d: nat): (c: char)
    requires d < 10
    ensures '0' <= c <= '9'
  {
    ('0' as int + d) as char
  }

  predicate IsDigit(c: char) {
    '0' <= c <= '9'
  }

  predicate AllDigits(s: string) {
    forall i :: 0 <= i < |s| ==> IsDigit(s[i])
  }

  /** The key under which `Object.keys` lists array index `n`: its decimal form. */
  function IndexKey(n: nat): (k: string)
    ensures |k| >= 1 && AllDigits(k)
    decreases n
  {
    if n < 10 then [DigitChar(n)] else IndexKey(n / 10) + [DigitChar(n % 10)]
  }

  function DigitsValue(s: string): nat
    requires AllDigits(s)
    decreases |s|
  {
    if s == [] then 0 else DigitsValue(s[..|s| - 1]) * 10 + (s[|s| - 1] as int - '0' as int)
  }

  /** A key that names an array element: digits only, no leading zero. */
  predicate IsCanonicalIndex(k: string) {
    |k| >= 1 && AllDigits(k) && (k[0] == '0' ==> |k| == 1)
  }

  /** The array index a property key names, if any. */
  function ParseIndex(k: string): Option<nat> {
    if IsCanonicalIndex(k) then Some(DigitsValue(k)) else None
  }

  lemma {:induction false} IndexKeyLeadingDigit(n: nat)
    requires n >= 1
    ensures IndexKey(n)[0] != '0'
    decreases n
  {
    if n >= 10 {
      IndexKeyLeadingDigit(n / 10);
      assert IndexKey(n)[0] == IndexKey(n / 10)[0];
    }
  }

  lemma {:induction false} IndexKeyValue(n: nat)
    ensures DigitsValue(IndexKey(n)) == n
    decreases n
  {
    var k := IndexKey(n);
    if n < 10 {
      assert k[..|k| - 1] == [];
    } else {
      IndexKeyValue(n / 10);
      assert k[..|k| - 1] == IndexKey(n / 10);
    }
  }

  /** Index keys round-trip: the key written for index `n` reads back as `n`. */
  lemma IndexKeyRoundTrip(n: nat)
    ensures ParseIndex(IndexKey(n)) == Some(n)
  {
    IndexKeyValue(n);
    if n >= 1 {
      IndexKeyLeadingDigit(n);
    }
  }

  lemma {:induction false} DigitsValuePositive(s: string)
    requires AllDigits(s) && |s| >= 1 && s[0] != '0'
    ensures DigitsValue(s) >= 1
    decreases |s|
  {
    if |s| > 1 {
      DigitsValuePositive(s[..|s| - 1]);
    }
  }

  /** The other direction: a key that names an index is that index's key. */
  lemma {:induction false} ParseIndexSound(k: string)
    requires ParseIndex(k).Some?
    ensures IndexKey(ParseIndex(k).value) == k
    decreases |k|
  {
    var n := DigitsValue(k);
    var d := k[|k| - 1] as int - '0' as int;
    if |k| == 1 {
      assert k[..|k| - 1] == [];
      assert DigitsValue(k[..|k| - 1]) == 0;
      assert n == d && 0 <= d < 10;
      assert DigitChar(d) == k[0];
    } else {
      var p := k[..|k| - 1];
      assert p[0] == k[0];
      DigitsValuePositive(p);
      ParseIndexSound(p);
      assert n / 10 == DigitsValue(p) && n % 10 == d;
      assert k == p + [k[|k| - 1]];
    }
  }

  lemma IndexKeyInjective(i: nat, j: nat)
    requires IndexKey(i) == IndexKey(j)
    ensures i == j
  {
    IndexKeyRoundTrip(i);
    IndexKeyRoundTrip(j);
  }

  lemma ParseIndexInjective(k1: string, k2: string)
    requires ParseIndex(k1).Some? && ParseIndex(k1) == ParseIndex(k2)
    ensures k1 == k2
  {
    ParseIndexSound(k1);
    ParseIndexSound(k2);
  }

  // ---------------------------------------------------------------------------
  // Object fields

  predicate HasField(fs: seq<Field>, k: string) {
    exists i :: 0 <= i < |fs| && fs[i].key == k
  }

  /** No key occurs twice, as in every JavaScript object. */
  predicate DistinctKeys(fs: seq<Field>) {
    forall i, j :: 0 <= i < j < |fs| ==> fs[i].key != fs[j].key
  }

  /** A value JSON.parse could return: no object anywhere in it repeats a key. */
  predicate WellFormed(v: Json)
    decreases v
  {
    match v
    case JObj(fs) =>
      DistinctKeys(fs) && forall i :: 0 <= i < |fs| ==> (assert fs[i] in fs; WellFormed(fs[i].value))
    case JArr(xs) => forall i :: 0 <= i < |xs| ==> (assert xs[i] in xs; WellFormed(xs[i]))
    case _ => true
  }

  /** `obj[k]` on an object: the value of the field named `k`. */
  function FieldLookup(fs: seq<Field>, k: string): (r: Option<Json>)
    ensures r.None? <==> !HasField(fs, k)
    ensures r.Some? ==> exists i :: 0 <= i < |fs| && fs[i] == Field(k, r.value)
    decreases |fs|
  {
    if fs == [] then None
    else if fs[0].key == k then Some(fs[0].value)
    else
      var r := FieldLookup(fs[1..], k);
      assert HasField(fs[1..], k) ==> HasField(fs, k) by {
        if HasField(fs[1..], k) {
          var i :| 0 <= i < |fs[1..]| && fs[1..][i].key == k;
          assert fs[i + 1].key == k;
        }
      }
      assert r.Some? ==> exists i :: 0 <= i < |fs| && fs[i] == Field(k, r.value) by {
        if r.Some? {
          var i :| 0 <= i < |fs[1..]| && fs[1..][i] == Field(k, r.value);
          assert fs[i + 1] == Field(k, r.value);
        }
      }
      r
  }

  /** `obj[k] = x` on an object: an existing field keeps its place, a new one goes last. */
  function SetField(fs: seq<Field>, k: string, x: Json): (r: seq<Field>)
    ensures FieldLookup(r, k) == Some(x)
    ensures forall k' :: k' != k ==> FieldLookup(r, k') == FieldLookup(fs, k')
    ensures HasField(fs, k) ==> |r| == |fs|
    ensures !HasField(fs, k) ==> r == fs + [Field(k, x)]
    decreases |fs|
  {
    if fs == [] then [Field(k, x)]
    else if fs[0].key == k then
      assert fs[0].key == k;
      [Field(k, x)] + fs[1..]
    else
      var rest := SetField(fs[1..], k, x);
      HasFieldTail(fs, k);
      assert fs == [fs[0]] + fs[1..];
      [fs[0]] + rest
  }

  /** Past a first field with another key, the object has `k` exactly when the rest does. */
  lemma HasFieldTail(fs: seq<Field>, k: string)
    requires fs != [] && fs[0].key != k
    ensures HasField(fs, k) == HasField(fs[1..], k)
  {
    if HasField(fs, k) {
      var i :| 0 <= i < |fs| && fs[i].key == k;
      assert fs[1..][i - 1].key == k;
    }
    if HasField(fs[1..], k) {
      var i :| 0 <= i < |fs[1..]| && fs[1..][i].key == k;
      assert fs[i + 1].key == k;
    }
  }

  /** `delete obj[k]` on an object. */
  function RemoveField(fs: seq<Field>, k: string): (r: seq<Field>)
    ensures FieldLookup(r, k) == None
    ensures forall k' :: k' != k ==> FieldLookup(r, k') == FieldLookup(fs, k')
    decreases |fs|
  {
    if fs == [] then []
    else if fs[0].key == k then RemoveField(fs[1..], k)
    else [fs[0]] + RemoveField(fs[1..], k)
  }

  // ---------------------------------------------------------------------------
  // Property access

  /** `v[k]` for a non-null `v`; `None` is `undefined`. */
  function Prop(v: Json, k: string): Option<Json> {
    match v
    case JObj(fs) => FieldLookup(fs, k)
    case JArr(xs) =>
      (match ParseIndex(k)
       case Some(i) => if i < |xs| then Some(xs[i]) else None
       case None => None)
    case JStr(s) =>
      (match ParseIndex(k)
       case Some(i) => if i < |s| then Some(JStr([s[i]])) else None
       case None => None)
    case _ => None
  }

  /** The keys `v[k] = x` stores under and reads back: any key of an object, an index key of an array. */
  predicate Addressable(v: Json, k: string) {
    v.JObj? || (v.JArr? && ParseIndex(k).Some?)
  }

  /**
   * `v[k] = x` for an object or an array. Writing past the end of an array
   * leaves holes, which every JSON copy shows as `null`; a non-index key on
   * an array and any key on a primitive change nothing visible in JSON.
   */
  function SetKey(v: Json, k: string, x: Json): (r: Json)
    ensures r.JObj? == v.JObj? && r.JArr? == v.JArr?
    ensures Addressable(v, k) ==> Prop(r, k) == Some(x)
  {
    match v
    case JObj(fs) => JObj(SetField(fs, k, x))
    case JArr(xs) =>
      (match ParseIndex(k)
       case Some(i) =>
         if i < |xs| then JArr(xs[i := x])
         else JArr(xs + seq(i - |xs|, _ => JNull) + [x])
       case None => v)
    case _ => v
  }

  /** `delete v[k]`; a deleted array element becomes a hole, which JSON shows as `null`. */
  function DeleteKey(v: Json, k: string): (r: Json)
    ensures r.JObj? == v.JObj? && r.JArr? == v.JArr?
    ensures IsComposite(v) ==> !Truthy(Prop(r, k))
  {
    match v
    case JObj(fs) => JObj(RemoveField(fs, k))
    case JArr(xs) =>
      (match ParseIndex(k)
       case Some(i) => if i < |xs| then JArr(xs[i := JNull]) else v
       case None => v)
    case _ => v
  }

  /** Setting one key leaves every other key that was present as it was. */
  lemma SetKeyOther(v: Json, k: string, x: Json, k': string)
    requires k' != k
    requires v.JObj? || Prop(v, k').Some?
    ensures Prop(SetKey(v, k, x), k') == Prop(v, k')
  {
    if v.JArr? && ParseIndex(k).Some? && ParseIndex(k').Some? && ParseIndex(k) == ParseIndex(k') {
      ParseIndexInjective(k, k');
    }
  }

  /** Deleting one key leaves every other key as it was. */
  lemma DeleteKeyOther(v: Json, k: string, k': string)
    requires k' != k
    ensures Prop(DeleteKey(v, k), k') == Prop(v, k')
  {
    if v.JArr? && ParseIndex(k).Some? && ParseIndex(k').Some? && ParseIndex(k) == ParseIndex(k') {
      ParseIndexInjective(k, k');
    }
  }

  /** Setting a key that is already present leaves every other key as it was. */
  lemma SetKeyExisting(v: Json, k: string, x: Json, k': string)
    requires k' != k && Prop(v, k).Some?
    ensures Prop(SetKey(v, k, x), k') == Prop(v, k')
  {
    if v.JArr? && ParseIndex(k').Some? && ParseIndex(k) == ParseIndex(k') {
      ParseIndexInjective(k, k');
    }
  }

  /** Setting one key never makes another key truthy: at most a hole appears, as `null`. */
  lemma SetKeyOtherFalsy(v: Json, k: string, x: Json, k': string)
    requires k' != k && !Truthy(Prop(v, k'))
    ensures !Truthy(Prop(SetKey(v, k, x), k'))
  {
    if v.JArr? && ParseIndex(k').Some? && ParseIndex(k) == ParseIndex(k') {
      ParseIndexInjective(k, k');
    }
  }

  /** Only objects and arrays have composite properties; falsy values have none at all. */
  lemma PrimitiveProps(v: Json, k: string)
    ensures IsPrimitive(v) && Prop(v, k).Some? ==> IsPrimitive(Prop(v, k).value)
    ensures !Truthy(Some(v)) ==> Prop(v, k).None?
  {
  }

  /** Writing back the value a key already holds changes nothing. */
  lemma SetKeySame(v: Json, k: string)
    requires IsComposite(v) && Prop(v, k).Some?
    ensures SetKey(v, k, Prop(v, k).value) == v
  {
    if v.JObj? {
      SetFieldSame(v.fields, k);
    }
  }

  lemma {:induction false} SetFieldSame(fs: seq<Field>, k: string)
    requires FieldLookup(fs, k).Some?
    ensures SetField(fs, k, FieldLookup(fs, k).value) == fs
    decreases |fs|
  {
    if fs[0].key != k {
      SetFieldSame(fs[1..], k);
    }
  }

  // ---------------------------------------------------------------------------
  // Object.keys / Object.entries

  /**
   * `Object.keys(v)` paired with `v[key]`: the fields of an object, the
   * elements of an array and the characters of a string under their index
   * keys, nothing for a number or a boolean (`null` makes JavaScript throw).
   */
  function Entries(v: Json): (r: seq<Field>)
    ensures v.JObj? ==> r == v.fields
    ensures v.JArr? ==> |r| == |v.items|
    ensures v.JStr? ==> |r| == |v.s|
    ensures v.JNull? || v.JNum? || v.JBool? ==> r == []
  {
    match v
    case JObj(fs) => fs
    case JArr(xs) => seq(|xs|, i requires 0 <= i < |xs| => Field(IndexKey(i), xs[i]))
    case JStr(s) => seq(|s|, i requires 0 <= i < |s| => Field(IndexKey(i), JStr([s[i]])))
    case _ => []
  }

  /** A composite entry value is a component of the value it was listed from. */
  lemma EntryValueSmaller(v: Json, i: nat)
    requires i < |Entries(v)| && IsComposite(Entries(v)[i].value)
    ensures Entries(v)[i].value < v
  {
    match v
    case JObj(fs) =>
      assert fs[i] in fs;
    case JArr(xs) =>
      assert Entries(v)[i].value == xs[i];
      assert xs[i] in xs;
  }

  /** The entries of a well-formed value are well formed. */
  lemma EntriesWellFormed(v: Json)
    requires WellFormed(v)
    ensures forall i :: 0 <= i < |Entries(v)| ==> WellFormed(Entries(v)[i].value)
  {
  }

  /** Every entry reads back through `v[key]`, and entry keys are distinct. */
  lemma EntriesAgreeWithProp(v: Json)
    requires v.JObj? ==> DistinctKeys(v.fields)
    ensures DistinctKeys(Entries(v))
    ensures forall i :: 0 <= i < |Entries(v)| ==> Prop(v, Entries(v)[i].key) == Some(Entries(v)[i].value)
  {
    var es := Entries(v);
    match v
    case JObj(fs) =>
      forall i | 0 <= i < |fs|
        ensures FieldLookup(fs, fs[i].key) == Some(fs[i].value)
      {
        DistinctLookup(fs, i);
      }
    case JArr(xs) =>
      forall i, j | 0 <= i < j < |es|
        ensures es[i].key != es[j].key
      {
        if es[i].key == es[j].key {
          IndexKeyInjective(i, j);
        }
      }
      forall i | 0 <= i < |es|
        ensures Prop(v, es[i].key) == Some(es[i].value)
      {
        IndexKeyRoundTrip(i);
      }
    case JStr(s) =>
      forall i, j | 0 <= i < j < |es|
        ensures es[i].key != es[j].key
      {
        if es[i].key == es[j].key {
          IndexKeyInjective(i, j);
        }
      }
      forall i | 0 <= i < |es|
        ensures Prop(v, es[i].key) == Some(es[i].value)
      {
        IndexKeyRoundTrip(i);
      }
    case _ =>
  }

  lemma {:induction false} DistinctLookup(fs: seq<Field>, i: nat)
    requires DistinctKeys(fs) && i < |fs|
    ensures FieldLookup(fs, fs[i].key) == Some(fs[i].value)
    decreases i
  {
    if i > 0 {
      assert fs[0].key != fs[i].key;
      assert DistinctKeys(fs[1..]) by {
        forall a, b | 0 <= a < b < |fs[1..]|
          ensures fs[1..][a].key != fs[1..][b].key
        {
          assert fs[1..][a] == fs[a + 1] && fs[1..][b] == fs[b + 1];
        }
      }
      DistinctLookup(fs[1..], i - 1);
      assert fs[1..][i - 1] == fs[i];
    }
  }
}
