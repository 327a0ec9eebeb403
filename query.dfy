/**
 * The query constraints `readCollection` applies to the documents of a
 * collection, one after the other: `where` (a comparison of one field with
 * a value), `array-contains` and `limit`.
 */
module Query {
  import opened Results
  import opened JsonValues

  datatype Operator = Lt | Le | Eq | Ge | Gt

  datatype Constraint =
    | Where(field: string, op: Operator, value: Json)
    | ArrayContains(field: string, value: Json)
    | Limit(count: int)

  /** One entry of a collection: its key and its data. */
  datatype Doc = Doc(id: string, data: Json)

  // ---------------------------------------------------------------------------
  // Subsequences

  /** `a` is `b` with some elements left out, the rest in the same order. */
  predicate IsSubsequence<T(==)>(a: seq<T>, b: seq<T>)
    decreases |b|
  {
    if a == [] then true
    else if b == [] then false
    else (a[0] == b[0] && IsSubsequence(a[1..], b[1..])) || IsSubsequence(a, b[1..])
  }

  lemma {:induction false} SubsequenceMembers<T>(a: seq<T>, b: seq<T>)
    requires IsSubsequence(a, b)
    ensures forall x :: x in a ==> x in b
    ensures |a| <= |b|
    decreases |b|
  {
    if a != [] {
      if a[0] == b[0] && IsSubsequence(a[1..], b[1..]) {
        SubsequenceMembers(a[1..], b[1..]);
        forall x | x in a
          ensures x in b
        {
          if x != a[0] {
            assert x in a[1..];
          }
        }
      } else {
        SubsequenceMembers(a, b[1..]);
      }
    }
  }

  lemma {:induction false} SubsequenceReflexive<T>(a: seq<T>)
    ensures IsSubsequence(a, a)
    decreases |a|
  {
    if a != [] {
      SubsequenceReflexive(a[1..]);
    }
  }

  lemma {:induction false} PrefixIsSubsequence<T>(b: seq<T>, n: nat)
    requires n <= |b|
    ensures IsSubsequence(b[..n], b)
    decreases |b|
  {
    if n == |b| {
      assert b[..n] == b;
      SubsequenceReflexive(b);
    } else {
      PrefixIsSubsequence(b[..|b| - 1], n);
      assert b[..|b| - 1][..n] == b[..n];
      SubsequenceOfPrefix(b[..n], b);
    }
  }

  lemma {:induction false} SubsequenceOfPrefix<T>(a: seq<T>, b: seq<T>)
    requires b != [] && IsSubsequence(a, b[..|b| - 1])
    ensures IsSubsequence(a, b)
    decreases |b|
  {
    var p := b[..|b| - 1];
    if a != [] {
      if a[0] == p[0] && IsSubsequence(a[1..], p[1..]) {
        assert p[1..] == b[1..][..|b[1..]| - 1];
        SubsequenceOfPrefix(a[1..], b[1..]);
      } else {
        assert p[1..] == b[1..][..|b[1..]| - 1];
        SubsequenceOfPrefix(a, b[1..]);
      }
    }
  }

  /** Taking a subsequence twice is taking a subsequence. */
  lemma {:induction false} SubsequenceTransitive<T>(a: seq<T>, b: seq<T>, c: seq<T>)
    requires IsSubsequence(a, b) && IsSubsequence(b, c)
    ensures IsSubsequence(a, c)
    decreases |c|
  {
    if a != [] {
      SubsequenceMembers(a, b);
      assert b != [];
      if b[0] == c[0] && IsSubsequence(b[1..], c[1..]) {
        if a[0] == b[0] && IsSubsequence(a[1..], b[1..]) {
          SubsequenceTransitive(a[1..], b[1..], c[1..]);
        } else {
          SubsequenceDropFirst(b);
          SubsequenceTransitive(a, b[1..], c[1..]);
        }
      } else {
        SubsequenceTransitive(a, b, c[1..]);
      }
    }
  }

  lemma {:induction false} SubsequenceDropFirst<T>(b: seq<T>)
    requires b != []
    ensures IsSubsequence(b[1..], b)
  {
    SubsequenceReflexive(b[1..]);
  }

  // ---------------------------------------------------------------------------
  // Comparisons

  /** JavaScript's `<` on two strings: code point by code point, a proper prefix first. */
  predicate StringLess(a: string, b: string)
    decreases |a|
  {
    if b == [] then false
    else if a == [] then true
    else if a[0] != b[0] then a[0] < b[0]
    else StringLess(a[1..], b[1..])
  }

  lemma {:induction false} StringLessIrreflexive(a: string)
    ensures !StringLess(a, a)
    decreases |a|
  {
    if a != [] {
      StringLessIrreflexive(a[1..]);
    }
  }

  /** Of two different strings exactly one is less than the other. */
  lemma {:induction false} StringLessTotal(a: string, b: string)
    requires a != b
    ensures StringLess(a, b) != StringLess(b, a)
    decreases |a|
  {
    if a != [] && b != [] && a[0] == b[0] {
      assert a == [a[0]] + a[1..] && b == [b[0]] + b[1..];
      StringLessTotal(a[1..], b[1..]);
    }
  }

  lemma {:induction false} StringLessTransitive(a: string, b: string, c: string)
    requires StringLess(a, b) && StringLess(b, c)
    ensures StringLess(a, c)
    decreases |a|
  {
    if a != [] && a[0] == b[0] && b[0] == c[0] {
      StringLessTransitive(a[1..], b[1..], c[1..]);
    }
  }

  /** The number a primitive other than a string converts to: `null` is 0, a boolean 0 or 1. */
  function NumberOf(v: Json): (r: Option<int>)
    ensures r.Some? <==> v.JNull? || v.JBool? || v.JNum?
    ensures v.JNum? ==> r == Some(v.n)
  {
    match v
    case JNull => Some(0)
    case JBool(b) => Some(if b then 1 else 0)
    case JNum(n) => Some(n)
    case _ => None
  }

  /** `x < y` for two values read from JSON. */
  predicate Less(x: Json, y: Json) {
    if x.JStr? && y.JStr? then StringLess(x.s, y.s)
    else NumberOf(x).Some? && NumberOf(y).Some? && NumberOf(x).value < NumberOf(y).value
  }

  /** `x <= y`: not `y < x`, unless the operands do not compare at all. */
  predicate LessOrEqual(x: Json, y: Json) {
    if x.JStr? && y.JStr? then !StringLess(y.s, x.s)
    else NumberOf(x).Some? && NumberOf(y).Some? && NumberOf(x).value <= NumberOf(y).value
  }

  /**
   * `x === y`: primitives of the same type and value; two objects are equal
   * only when they are the same object, which a stored value and a
   * constraint value never are.
   */
  predicate StrictEquals(x: Json, y: Json) {
    IsPrimitive(x) && x == y
  }

  /** `fieldValue <op> constraintValue`, where an absent field is `undefined`. */
  predicate Compare(op: Operator, field: Option<Json>, value: Json) {
    match field
    case None => false
    case Some(x) =>
      match op
      case Lt => Less(x, value)
      case Le => LessOrEqual(x, value)
      case Eq => StrictEquals(x, value)
      case Ge => LessOrEqual(value, x)
      case Gt => Less(value, x)
  }

  /** An undefined field satisfies no comparison. */
  lemma UndefinedNeverMatches(op: Operator, value: Json)
    ensures !Compare(op, None, value)
  {
  }

  /** `<=` is `<` or `===` whenever both sides are numbers or both are strings. */
  lemma LessOrEqualSplits(x: Json, y: Json)
    requires (x.JNum? && y.JNum?) || (x.JStr? && y.JStr?)
    ensures LessOrEqual(x, y) <==> Less(x, y) || StrictEquals(x, y)
  {
    if x.JStr? && y.JStr? {
      if x.s == y.s {
        StringLessIrreflexive(x.s);
      } else {
        StringLessTotal(x.s, y.s);
        assert x != y;
      }
    }
  }

  /** For numbers and for strings, exactly one of `<`, `===`, `>` holds. */
  lemma Trichotomy(x: Json, y: Json)
    requires (x.JNum? && y.JNum?) || (x.JStr? && y.JStr?)
    ensures (Compare(Lt, Some(x), y) && !Compare(Eq, Some(x), y) && !Compare(Gt, Some(x), y))
         || (!Compare(Lt, Some(x), y) && Compare(Eq, Some(x), y) && !Compare(Gt, Some(x), y))
         || (!Compare(Lt, Some(x), y) && !Compare(Eq, Some(x), y) && Compare(Gt, Some(x), y))
  {
    if x.JStr? && y.JStr? {
      if x.s == y.s {
        StringLessIrreflexive(x.s);
      } else {
        StringLessTotal(x.s, y.s);
        assert x != y;
      }
    }
  }

  /** `==` holds for a primitive and itself and never for an object or an array. */
  lemma EqualityIsStrict(x: Json, y: Json)
    ensures Compare(Eq, Some(x), y) <==> IsPrimitive(x) && x == y
  {
  }

  // ---------------------------------------------------------------------------
  // Constraints

  /** `Array.isArray(fieldValue) && fieldValue.includes(value)`. */
  predicate Contains(field: Option<Json>, value: Json) {
    field.Some? && field.value.JArr? && exists i :: 0 <= i < |field.value.items| && StrictEquals(field.value.items[i], value)
  }

  /** Whether a document passes a `where` or `array-contains` constraint. */
  predicate Matches(c: Constraint, d: Doc)
    requires !c.Limit?
  {
    match c
    case Where(field, op, value) => Compare(op, Prop(d.data, field), value)
    case ArrayContains(field, value) => Contains(Prop(d.data, field), value)
  }

  /** `documents.filter(...)` for a `where` or `array-contains` constraint. */
  function Select(docs: seq<Doc>, c: Constraint): (r: seq<Doc>)
    requires !c.Limit?
    ensures IsSubsequence(r, docs)
    ensures forall d :: d in r <==> d in docs && Matches(c, d)
    decreases |docs|
  {
    if docs == [] then []
    else
      var rest := Select(docs[1..], c);
      assert forall d :: d in docs <==> d == docs[0] || d in docs[1..];
      if Matches(c, docs[0]) then [docs[0]] + rest else rest
  }

  /** `documents.slice(0, n)`: a negative `n` counts from the end. */
  function Slice(docs: seq<Doc>, n: int): (r: seq<Doc>)
    ensures n >= 0 ==> |r| == if n < |docs| then n else |docs|
    ensures n < 0 ==> |r| == if -n < |docs| then |docs| + n else 0
    ensures r == docs[..|r|]
  {
    if n >= 0 then (if n < |docs| then docs[..n] else docs)
    else if -n < |docs| then docs[..|docs| + n] else []
  }

  /** Some document's data is `null`, so reading a field of it throws. */
  predicate HasNullData(docs: seq<Doc>) {
    exists i :: 0 <= i < |docs| && docs[i].data.JNull?
  }

  /**
   * One step of the constraint loop. A filter that meets a document whose
   * data is `null` throws a TypeError, which the store reports as unknown.
   */
  function Apply(docs: seq<Doc>, c: Constraint): (r: Result<seq<Doc>>)
    ensures r.Err? <==> !c.Limit? && HasNullData(docs)
    ensures r.Err? ==> r.error == Unknown
    ensures r.Ok? && !c.Limit? ==> r.value == Select(docs, c)
    ensures r.Ok? && c.Limit? ==> r.value == Slice(docs, c.count)
  {
    match c
    case Limit(n) => Ok(Slice(docs, n))
    case _ => if HasNullData(docs) then Err(Unknown) else Ok(Select(docs, c))
  }

  /** The whole constraint loop: each constraint in turn; the first error ends the read. */
  function ApplyAll(docs: seq<Doc>, cs: seq<Constraint>): (r: Result<seq<Doc>>)
    ensures r.Err? ==> r.error == Unknown
    decreases |cs|
  {
    if cs == [] then Ok(docs)
    else
      match Apply(docs, cs[0])
      case Err(e) => Err(e)
      case Ok(next) => ApplyAll(next, cs[1..])
  }

  lemma ApplyIsSubsequence(docs: seq<Doc>, c: Constraint)
    requires Apply(docs, c).Ok?
    ensures IsSubsequence(Apply(docs, c).value, docs)
  {
    if c.Limit? {
      var r := Slice(docs, c.count);
      PrefixIsSubsequence(docs, |r|);
    }
  }

  /** A query returns some of the collection's documents, in the collection's order. */
  lemma {:induction false} ApplyAllIsSubsequence(docs: seq<Doc>, cs: seq<Constraint>)
    requires ApplyAll(docs, cs).Ok?
    ensures IsSubsequence(ApplyAll(docs, cs).value, docs)
    decreases |cs|
  {
    if cs == [] {
      SubsequenceReflexive(docs);
    } else {
      var next := Apply(docs, cs[0]).value;
      ApplyIsSubsequence(docs, cs[0]);
      ApplyAllIsSubsequence(next, cs[1..]);
      SubsequenceTransitive(ApplyAll(docs, cs).value, next, docs);
    }
  }

  /** Every document a query returns satisfies every `where` and `array-contains` constraint of it. */
  lemma {:induction false} ApplyAllMatches(docs: seq<Doc>, cs: seq<Constraint>, k: nat, d: Doc)
    requires ApplyAll(docs, cs).Ok? && k < |cs| && !cs[k].Limit?
    requires d in ApplyAll(docs, cs).value
    ensures Matches(cs[k], d)
    decreases |cs|
  {
    var next := Apply(docs, cs[0]).value;
    if k == 0 {
      ApplyAllIsSubsequence(next, cs[1..]);
      SubsequenceMembers(ApplyAll(next, cs[1..]).value, next);
    } else {
      ApplyAllMatches(next, cs[1..], k - 1, d);
    }
  }

  /** A query returns at most `n` documents for each `limit n` with `n >= 0` in it. */
  lemma {:induction false} ApplyAllLimited(docs: seq<Doc>, cs: seq<Constraint>, k: nat)
    requires ApplyAll(docs, cs).Ok? && k < |cs| && cs[k].Limit? && cs[k].count >= 0
    ensures |ApplyAll(docs, cs).value| <= cs[k].count
    decreases |cs|
  {
    var next := Apply(docs, cs[0]).value;
    if k == 0 {
      ApplyAllIsSubsequence(next, cs[1..]);
      SubsequenceMembers(ApplyAll(next, cs[1..]).value, next);
    } else {
      ApplyAllLimited(next, cs[1..], k - 1);
    }
  }

  /**
   * Every document a successful query returns passes each `where` and
   * `array-contains` constraint of the list, and each `limit n` bounds it.
   */
  lemma ApplyAllGuarantees(docs: seq<Doc>, cs: seq<Constraint>)
    requires ApplyAll(docs, cs).Ok?
    ensures forall k, d :: 0 <= k < |cs| && !cs[k].Limit? && d in ApplyAll(docs, cs).value ==> Matches(cs[k], d)
    ensures forall k :: 0 <= k < |cs| && cs[k].Limit? && cs[k].count >= 0 ==> |ApplyAll(docs, cs).value| <= cs[k].count
  {
    forall k, d | 0 <= k < |cs| && !cs[k].Limit? && d in ApplyAll(docs, cs).value
      ensures Matches(cs[k], d)
    {
      ApplyAllMatches(docs, cs, k, d);
    }
    forall k | 0 <= k < |cs| && cs[k].Limit? && cs[k].count >= 0
      ensures |ApplyAll(docs, cs).value| <= cs[k].count
    {
      ApplyAllLimited(docs, cs, k);
    }
  }

  /**
   * A query can fail only where some filter reaches a document whose data
   * is `null`: without such documents it always succeeds.
   */
  lemma {:induction false} ApplyAllFails(docs: seq<Doc>, cs: seq<Constraint>)
    requires forall i :: 0 <= i < |docs| ==> !docs[i].data.JNull?
    ensures ApplyAll(docs, cs).Ok?
    decreases |cs|
  {
    if cs != [] {
      var next := Apply(docs, cs[0]).value;
      ApplyIsSubsequence(docs, cs[0]);
      SubsequenceMembers(next, docs);
      forall i | 0 <= i < |next|
        ensures !next[i].data.JNull?
      {
        assert next[i] in docs;
      }
      ApplyAllFails(next, cs[1..]);
    }
  }
}
