/**
 * What the in-memory store does to its tree of JSON values, as functions of
 * the tree: looking a path up, walking down a path creating missing levels,
 * writing at the end of that walk (with a deep merge), adding under a fresh
 * id, and deleting a key together with the events each operation emits.
 *
 * The store mutates nested objects in place; here the tree is a value, and
 * a write rebuilds the nodes along its path (`Plug`).
 */
module Store {
  import opened Results
  import opened JsonValues
  import opened Merging
  import opened Query

  type Path = seq<string>

  /** What `onWrite$` and `onDelete$` emit. A missing `before` is `null`. */
  datatype Event =
    | WriteEvent(path: Path, before: Json, after: Json)
    | DeleteEvent(path: Path, before: Json)

  // ---------------------------------------------------------------------------
  // Reading: getElementAtPath

  /**
   * `path.reduce((acc, key) => acc && acc[key], acc)`: a falsy accumulator
   * is carried to the end unchanged.
   */
  function Lookup(acc: Option<Json>, path: Path): (r: Option<Json>)
    ensures !Truthy(acc) ==> r == acc
    decreases |path|
  {
    if path == [] then acc
    else Lookup(if Truthy(acc) then Prop(acc.value, path[0]) else acc, path[1..])
  }

  /** The element at `path` below `root`. */
  function Get(root: Json, path: Path): Option<Json> {
    Lookup(Some(root), path)
  }

  /** The reduce splits at any point of the path. */
  lemma {:induction false} LookupAppend(acc: Option<Json>, p: Path, q: Path)
    ensures Lookup(acc, p + q) == Lookup(Lookup(acc, p), q)
    decreases |p|
  {
    if p != [] {
      assert (p + q)[1..] == p[1..] + q;
      LookupAppend(if Truthy(acc) then Prop(acc.value, p[0]) else acc, p[1..], q);
    } else {
      assert p + q == q;
    }
  }

  /** One more key at the end of a path is one more step of the reduce. */
  lemma GetSnoc(root: Json, p: Path, k: string)
    ensures Get(root, p + [k]) == (if Truthy(Get(root, p)) then Prop(Get(root, p).value, k) else Get(root, p))
  {
    LookupAppend(Some(root), p, [k]);
  }

  /** `readDocument`: a falsy element is reported as not found. */
  function ReadDocument(root: Json, path: Path): (r: Result<Json>)
    ensures r.Ok? <==> Truthy(Get(root, path))
    ensures r.Ok? ==> Get(root, path) == Some(r.value)
    ensures r.Err? ==> r.error == NotFound
  {
    var element := Get(root, path);
    if !Truthy(element) then Err(NotFound) else Ok(element.value)
  }

  /** `Object.entries(collection)` as documents: each key with its value. */
  function DocsOf(collection: Json): (r: seq<Doc>)
    ensures |r| == |Entries(collection)|
    ensures forall i :: 0 <= i < |r| ==> r[i] == Doc(Entries(collection)[i].key, Entries(collection)[i].value)
  {
    var es := Entries(collection);
    seq(|es|, i requires 0 <= i < |es| => Doc(es[i].key, es[i].value))
  }

  /**
   * `readCollection`: a falsy element or a primitive one is not found;
   * otherwise its entries go through the constraints in order.
   */
  function ReadCollection(root: Json, path: Path, cs: seq<Constraint>): (r: Result<seq<Doc>>)
    ensures r == Err(NotFound) <==> !Truthy(Get(root, path)) || IsPrimitive(Get(root, path).value)
    ensures r.Err? ==> r.error == NotFound || r.error == Unknown
    ensures r.Ok? ==> Truthy(Get(root, path)) && IsComposite(Get(root, path).value)
    ensures r.Ok? ==> IsSubsequence(r.value, DocsOf(Get(root, path).value))
    ensures r.Ok? ==> forall k, d :: 0 <= k < |cs| && !cs[k].Limit? && d in r.value ==> Matches(cs[k], d)
    ensures r.Ok? ==> forall k :: 0 <= k < |cs| && cs[k].Limit? && cs[k].count >= 0 ==> |r.value| <= cs[k].count
  {
    var collection := Get(root, path);
    if !Truthy(collection) || IsPrimitive(collection.value) then Err(NotFound)
    else
      var docs := DocsOf(collection.value);
      var r := ApplyAll(docs, cs);
      if r.Ok? then
        ApplyAllIsSubsequence(docs, cs);
        ApplyAllGuarantees(docs, cs);
        r
      else r
  }

  // ---------------------------------------------------------------------------
  // Walking down a path, creating missing levels

  /** What the walk moves to from `node` by `key`: the child if truthy, else a new `{}`. */
  function Child(node: Json, key: string): Json {
    var c := Prop(node, key);
    if Truthy(c) then c.value else JObj([])
  }

  /** `nodes` is the trail of a walk under `keys`: each node is the `Child` of the one before it. */
  predicate IsTrail(nodes: seq<Json>, keys: Path) {
    |nodes| == |keys| + 1 && forall j :: 0 <= j < |keys| ==> nodes[j + 1] == Child(nodes[j], keys[j])
  }

  /**
   * The walk of `writeDocument`'s reduce and of `addToCollection`'s loop:
   * `if (!acc[key]) acc[key] = {}`, then `acc = acc[key]`. Assigning a
   * property of a primitive throws (class code is strict), which the store
   * reports as an unknown error.
   */
  function Nodes(root: Json, keys: Path): (r: Result<seq<Json>>)
    ensures r.Ok? ==> IsTrail(r.value, keys) && r.value[0] == root
    ensures r.Ok? ==> forall j :: 0 <= j < |keys| ==> IsComposite(r.value[j]) || Truthy(Prop(r.value[j], keys[j]))
    ensures r.Err? ==> r.error == Unknown
    decreases |keys|
  {
    if keys == [] then Ok([root])
    else
      var init := keys[..|keys| - 1];
      var key := keys[|keys| - 1];
      match Nodes(root, init)
      case Err(e) => Err(e)
      case Ok(nodes) =>
        var node := nodes[|init|];
        if IsPrimitive(node) && !Truthy(Prop(node, key)) then Err(Unknown)
        else Ok(nodes + [Child(node, key)])
  }

  /** A walk that fails part of the way fails for every longer path. */
  lemma {:induction false} NodesPrefixFails(root: Json, keys: Path, i: nat)
    requires i <= |keys| && Nodes(root, keys[..i]).Err?
    ensures Nodes(root, keys).Err?
    decreases |keys|
  {
    if i < |keys| {
      var init := keys[..|keys| - 1];
      assert init[..i] == keys[..i];
      NodesPrefixFails(root, init, i);
    } else {
      assert keys[..i] == keys;
    }
  }

  /** `v` put in place under `keys`: every node on the way rebuilt around its new child. */
  function Plug(nodes: seq<Json>, keys: Path, v: Json): (r: Json)
    requires |nodes| == |keys|
    ensures keys != [] ==> r.JObj? == nodes[0].JObj? && r.JArr? == nodes[0].JArr?
    decreases |keys|
  {
    if keys == [] then v else SetKey(nodes[0], keys[0], Plug(nodes[1..], keys[1..], v))
  }

  // ---------------------------------------------------------------------------
  // writeDocument

  /** The outcome of a write: the new tree and the event's `before` and `after`. */
  datatype Written = Written(root: Json, before: Json, after: Json)

  /**
   * The last step of `writeDocument` at `parent[key]`: a truthy object or
   * array there is deep-merged with the data, any other value is replaced,
   * which throws on a primitive parent. The result is the new value and the
   * event's `before` (`null` when nothing truthy was there).
   */
  function Final(parent: Json, key: string, data: Json): (r: Result<(Json, Json)>)
    ensures r.Err? ==> r.error == Unknown
    ensures r.Ok? ==> IsComposite(parent)
    ensures r.Ok? && Truthy(Prop(parent, key)) ==> r.value.1 == Prop(parent, key).value
    ensures r.Ok? && !Truthy(Prop(parent, key)) ==> r.value == (data, JNull)
  {
    var current := Prop(parent, key);
    var before := if Truthy(current) then current.value else JNull;
    if Truthy(current) && IsComposite(current.value) then
      PrimitiveProps(parent, key);
      if data.JNull? then Err(Unknown) else Ok((MergeFrom(current.value, data, 0), before))
    else if IsPrimitive(parent) then Err(Unknown)
    else Ok((data, before))
  }

  /** `writeDocument(path, data)` on the tree `root`. */
  function Write(root: Json, path: Path, data: Json): (r: Result<Written>)
    requires |path| >= 1
    ensures r.Err? ==> r.error == Unknown
    ensures r.Ok? ==> r.value.root.JObj? == root.JObj?
  {
    var keys := path[..|path| - 1];
    match Nodes(root, keys)
    case Err(e) => Err(e)
    case Ok(nodes) =>
      match Final(nodes[|keys|], path[|path| - 1], data)
      case Err(e) => Err(e)
      case Ok((v, before)) => Ok(Written(Plug(nodes, path, v), before, v))
  }

  // ---------------------------------------------------------------------------
  // addToCollection

  /**
   * `addToCollection(path, data)` with `id` as the generated id: the walk
   * covers the whole path and `element[id] = data` throws on a primitive.
   */
  function Add(root: Json, path: Path, id: string, data: Json): (r: Result<Json>)
    ensures r.Err? ==> r.error == Unknown
    ensures r.Ok? ==> r.value.JObj? == root.JObj?
  {
    match Nodes(root, path)
    case Err(e) => Err(e)
    case Ok(nodes) =>
      if IsPrimitive(nodes[|path|]) then Err(Unknown) else Ok(Plug(nodes, path + [id], data))
  }

  /** The event `addToCollection` emits: the new document, with `before` always `null`. */
  function AddEvent(path: Path, id: string, data: Json): Event {
    WriteEvent(path + [id], JNull, data)
  }

  // ---------------------------------------------------------------------------
  // deleteDocument and deleteCollection

  /** `delete` of the last key of `path`, the levels above it rebuilt. */
  function RemoveAt(node: Json, path: Path): (r: Json)
    requires |path| >= 1
    ensures r.JObj? == node.JObj? && r.JArr? == node.JArr?
    decreases |path|
  {
    if |path| == 1 then DeleteKey(node, path[0])
    else
      match Prop(node, path[0])
      case None => node
      case Some(child) => SetKey(node, path[0], RemoveAt(child, path[1..]))
  }

  /** The outcome of a delete: the new tree and the removed value. */
  datatype Detached = Detached(root: Json, before: Json)

  /**
   * The delete both `deleteDocument` and `deleteCollection` perform: the
   * parent is looked up like a read; nothing happens when it is falsy or has
   * no such key, and `key in parent` throws on a primitive parent.
   */
  function Detach(root: Json, path: Path): (r: Result<Option<Detached>>)
    requires |path| >= 1
    ensures r.Err? ==> r.error == Unknown
    ensures var parent := Get(root, path[..|path| - 1]);
      r.Err? <==> Truthy(parent) && IsPrimitive(parent.value)
    ensures var parent := Get(root, path[..|path| - 1]);
      r.Ok? && r.value.Some? <==> Truthy(parent) && IsComposite(parent.value) && Get(root, path).Some?
    ensures r.Ok? && r.value.Some? ==> Get(root, path) == Some(r.value.value.before)
    ensures r.Ok? && r.value.Some? ==> r.value.value.root == RemoveAt(root, path)
    ensures r.Ok? && r.value.Some? ==> r.value.value.root.JObj? == root.JObj?
  {
    var parent := Get(root, path[..|path| - 1]);
    var key := path[|path| - 1];
    GetSnoc(root, path[..|path| - 1], key);
    assert path[..|path| - 1] + [key] == path;
    if !Truthy(parent) then Ok(None)
    else if IsPrimitive(parent.value) then Err(Unknown)
    else
      match Prop(parent.value, key)
      case None => Ok(None)
      case Some(before) => Ok(Some(Detached(RemoveAt(root, path), before)))
  }

  /**
   * The events `deleteCollection` emits after the delete: one per key of the
   * removed value, in `Object.keys` order. `Object.keys(null)` throws.
   */
  function ChildDeletes(path: Path, before: Json): (r: Result<seq<Event>>)
    ensures r.Err? <==> before.JNull?
    ensures r.Err? ==> r.error == Unknown
    ensures r.Ok? ==> |r.value| == |Entries(before)|
    ensures r.Ok? ==> forall i :: 0 <= i < |r.value| ==>
      r.value[i] == DeleteEvent(path + [Entries(before)[i].key], Entries(before)[i].value)
  {
    if before.JNull? then Err(Unknown)
    else
      var es := Entries(before);
      Ok(seq(|es|, i requires 0 <= i < |es| => DeleteEvent(path + [es[i].key], es[i].value)))
  }

  // ---------------------------------------------------------------------------
  // What the walk finds

  /**
   * Along a walk that did not fail, each node is either what a read finds
   * at that prefix of the path or, once a level was missing or falsy, a
   * new empty object under a prefix that reads as falsy.
   */
  lemma {:induction false} TrailReads(nodes: seq<Json>, keys: Path, j: nat)
    requires IsTrail(nodes, keys) && j <= |keys|
    requires forall i :: 0 <= i < |keys| ==> IsComposite(nodes[i]) || Truthy(Prop(nodes[i], keys[i]))
    ensures Get(nodes[0], keys[..j]) == Some(nodes[j])
         || (j >= 1 && !Truthy(Get(nodes[0], keys[..j])) && nodes[j] == JObj([]))
    decreases j
  {
    if j > 0 {
      TrailReads(nodes, keys, j - 1);
      assert keys[..j] == keys[..j - 1] + [keys[j - 1]];
      GetSnoc(nodes[0], keys[..j - 1], keys[j - 1]);
      PrimitiveProps(nodes[j - 1], keys[j - 1]);
    }
  }

  /** Below a primitive there are only primitives: a walk that ends on an object passed only objects. */
  lemma {:induction false} TrailComposite(nodes: seq<Json>, keys: Path, j: nat)
    requires IsTrail(nodes, keys) && j <= |keys|
    requires forall i :: 0 <= i < |keys| ==> IsComposite(nodes[i]) || Truthy(Prop(nodes[i], keys[i]))
    requires IsComposite(nodes[|keys|])
    ensures IsComposite(nodes[j])
    decreases |keys| - j
  {
    if j < |keys| {
      TrailComposite(nodes, keys, j + 1);
      PrimitiveProps(nodes[j], keys[j]);
    }
  }

  /** Below a level the walk has just created, the walk cannot fail and stays on empty objects. */
  lemma {:induction false} NodesFromEmpty(root: Json, keys: Path, j: nat)
    requires j <= |keys| && Nodes(root, keys[..j]).Ok? && Nodes(root, keys[..j]).value[j] == JObj([])
    ensures Nodes(root, keys).Ok? && Nodes(root, keys).value[|keys|] == JObj([])
    decreases |keys| - j
  {
    if j < |keys| {
      assert keys[..j + 1][..j] == keys[..j];
      NodesFromEmpty(root, keys, j + 1);
    } else {
      assert keys[..j] == keys;
    }
  }

  /**
   * Every level the walk passes below the root, down to the end of `keys`,
   * reads as falsy or as an object or array: no truthy primitive is in the way.
   */
  predicate WalkClear(root: Json, keys: Path) {
    forall j :: 1 <= j <= |keys| ==> !Truthy(Get(root, keys[..j])) || IsComposite(Get(root, keys[..j]).value)
  }

  /**
   * From an object or array root, the walk gets through and ends on an
   * object or array exactly when no truthy primitive is in its way.
   */
  lemma {:induction false} NodesClear(root: Json, keys: Path)
    requires IsComposite(root)
    ensures WalkClear(root, keys) <==> Nodes(root, keys).Ok? && IsComposite(Nodes(root, keys).value[|keys|])
    decreases |keys|
  {
    if Nodes(root, keys).Ok? && IsComposite(Nodes(root, keys).value[|keys|]) {
      var nodes := Nodes(root, keys).value;
      forall j | 1 <= j <= |keys|
        ensures !Truthy(Get(root, keys[..j])) || IsComposite(Get(root, keys[..j]).value)
      {
        TrailComposite(nodes, keys, j);
        TrailReads(nodes, keys, j);
      }
    }
    if WalkClear(root, keys) && keys != [] {
      var init := keys[..|keys| - 1];
      var key := keys[|keys| - 1];
      forall j | 1 <= j <= |init|
        ensures !Truthy(Get(root, init[..j])) || IsComposite(Get(root, init[..j]).value)
      {
        assert init[..j] == keys[..j];
      }
      NodesClear(root, init);
      var nodes := Nodes(root, init).value;
      var node := nodes[|init|];
      assert Nodes(root, keys) == Ok(nodes + [Child(node, key)]);
      TrailReads(nodes, init, |init|);
      assert init[..|init|] == init && init + [key] == keys && keys[..|keys|] == keys;
      GetSnoc(root, init, key);
      assert IsComposite(Child(node, key));
    }
  }

  /** Reading a prefix of a rebuilt path finds the rebuilt subtree. */
  lemma {:induction false} PlugReads(nodes: seq<Json>, keys: Path, v: Json, j: nat)
    requires |nodes| == |keys| && j <= |keys|
    requires forall i :: 0 <= i < |keys| ==> Addressable(nodes[i], keys[i])
    ensures Get(Plug(nodes, keys, v), keys[..j]) == Some(Plug(nodes[j..], keys[j..], v))
    decreases j
  {
    if j == 0 {
      assert nodes[0..] == nodes && keys[0..] == keys;
    } else {
      var sub := Plug(nodes[1..], keys[1..], v);
      var r := Plug(nodes, keys, v);
      assert r == SetKey(nodes[0], keys[0], sub);
      assert Prop(r, keys[0]) == Some(sub);
      assert Truthy(Some(r)) by {
        CompositeIsTruthy(r);
      }
      assert keys[..j][0] == keys[0] && keys[..j][1..] == keys[1..][..j - 1];
      assert Get(r, keys[..j]) == Get(sub, keys[1..][..j - 1]);
      assert nodes[1..][j - 1..] == nodes[j..] && keys[1..][j - 1..] == keys[j..];
      PlugReads(nodes[1..], keys[1..], v, j - 1);
    }
  }

  /** Setting key `k` of an object or array leaves paths through another key reading as before. */
  lemma SetKeyFrame(node: Json, k: string, x: Json, q: Path)
    requires IsComposite(node) && q != [] && q[0] != k
    ensures Truthy(Get(node, q)) ==> Get(SetKey(node, k, x), q) == Get(node, q)
    ensures !Truthy(Get(node, q)) ==> !Truthy(Get(SetKey(node, k, x), q))
  {
    if Truthy(Prop(node, q[0])) {
      SetKeyOther(node, k, x, q[0]);
    } else {
      SetKeyOtherFalsy(node, k, x, q[0]);
    }
  }

  /** Reading through the key just set reads inside the new child. */
  lemma SetKeyDescend(node: Json, k: string, x: Json, q: Path)
    requires Addressable(node, k) && q != [] && q[0] == k
    ensures Get(SetKey(node, k, x), q) == Get(x, q[1..])
  {
  }

  /**
   * Rebuilding a path leaves every path that branches off it reading as
   * before: a truthy value stays the same, a falsy one stays falsy.
   */
  lemma {:induction false} PlugFrame(nodes: seq<Json>, keys: Path, v: Json, q: Path, i: nat)
    requires |nodes| == |keys|
    requires forall j :: 0 <= j < |keys| ==> IsComposite(nodes[j])
    requires forall j :: 0 <= j < |keys| - 1 ==> nodes[j + 1] == Child(nodes[j], keys[j])
    requires i < |keys| && i < |q| && keys[..i] == q[..i] && keys[i] != q[i]
    ensures Truthy(Get(nodes[0], q)) ==> Get(Plug(nodes, keys, v), q) == Get(nodes[0], q)
    ensures !Truthy(Get(nodes[0], q)) ==> !Truthy(Get(Plug(nodes, keys, v), q))
    decreases i
  {
    var sub := Plug(nodes[1..], keys[1..], v);
    assert Plug(nodes, keys, v) == SetKey(nodes[0], keys[0], sub);
    if i == 0 {
      SetKeyFrame(nodes[0], keys[0], sub, q);
    } else {
      assert q[0] == keys[0] by {
        assert q[0] == q[..i][0] && keys[0] == keys[..i][0];
      }
      if !Addressable(nodes[0], keys[0]) {
        assert SetKey(nodes[0], keys[0], sub) == nodes[0];
      } else {
        assert keys[1..][..i - 1] == keys[..i][1..];
        assert q[1..][..i - 1] == q[..i][1..];
        assert nodes[1] == Child(nodes[0], keys[0]);
        PlugFrame(nodes[1..], keys[1..], v, q[1..], i - 1);
        FrameThroughChild(nodes[0], keys[0], sub, nodes[1], q);
      }
    }
  }

  /**
   * One level of `PlugFrame`: when the rebuilt child reads like the old
   * child along the rest of `q`, the rebuilt node reads like the old node.
   */
  lemma FrameThroughChild(node: Json, k: string, sub: Json, child: Json, q: Path)
    requires Addressable(node, k) && |q| >= 2 && q[0] == k
    requires child == Child(node, k)
    requires Truthy(Get(child, q[1..])) ==> Get(sub, q[1..]) == Get(child, q[1..])
    requires !Truthy(Get(child, q[1..])) ==> !Truthy(Get(sub, q[1..]))
    ensures Truthy(Get(node, q)) ==> Get(SetKey(node, k, sub), q) == Get(node, q)
    ensures !Truthy(Get(node, q)) ==> !Truthy(Get(SetKey(node, k, sub), q))
  {
    SetKeyDescend(node, k, sub, q);
    var c := Prop(node, k);
    assert Get(node, q) == Lookup(c, q[1..]);
    if !Truthy(c) {
      assert child == JObj([]);
      assert Get(child, q[1..]) == Lookup(None, q[1..][1..]);
    }
  }


  // ---------------------------------------------------------------------------
  // writeDocument: properties

  /** Every array the path meets is addressed by an index, as in a JSON document path. */
  predicate IndexesArrays(root: Json, path: Path) {
    forall j :: 0 <= j < |path| && Get(root, path[..j]).Some? && Get(root, path[..j]).value.JArr? ==>
      ParseIndex(path[j]).Some?
  }

  /** A successful walk passes only objects and arrays, each addressable by the next key. */
  lemma WalkAddressable(root: Json, keys: Path, last: string)
    requires Nodes(root, keys).Ok? && IsComposite(Nodes(root, keys).value[|keys|])
    requires IndexesArrays(root, keys + [last])
    ensures forall j :: 0 <= j <= |keys| ==> Addressable(Nodes(root, keys).value[j], (keys + [last])[j])
  {
    var nodes := Nodes(root, keys).value;
    var path := keys + [last];
    forall j | 0 <= j <= |keys|
      ensures Addressable(nodes[j], path[j])
    {
      TrailComposite(nodes, keys, j);
      TrailReads(nodes, keys, j);
      assert path[..j] == keys[..j];
    }
  }

  /**
   * The event's `before` is what a read at the path found before the
   * write, or `null` when that was falsy or absent.
   */
  lemma WriteBefore(root: Json, path: Path, data: Json)
    requires |path| >= 1 && Write(root, path, data).Ok?
    ensures Write(root, path, data).value.before
         == if Truthy(Get(root, path)) then Get(root, path).value else JNull
  {
    var keys := path[..|path| - 1];
    var last := path[|path| - 1];
    var nodes := Nodes(root, keys).value;
    var parent := nodes[|keys|];
    assert Write(root, path, data).value.before == Final(parent, last, data).value.1;
    ParentRead(root, path);
  }

  /**
   * Writing then reading returns the value the event reports as `after`:
   * the data itself, or the data deep-merged into the object that was there.
   */
  lemma WriteThenRead(root: Json, path: Path, data: Json)
    requires |path| >= 1 && Write(root, path, data).Ok?
    requires IndexesArrays(root, path)
    ensures Get(Write(root, path, data).value.root, path) == Some(Write(root, path, data).value.after)
  {
    var keys := path[..|path| - 1];
    var nodes := Nodes(root, keys).value;
    var w := Write(root, path, data).value;
    assert keys + [path[|path| - 1]] == path;
    WalkAddressable(root, keys, path[|path| - 1]);
    PlugReads(nodes, path, w.after, |path|);
    assert path[..|path|] == path;
  }

  /** The value a write leaves: merged into a truthy object or array, else the data itself. */
  lemma WriteAfter(root: Json, path: Path, data: Json)
    requires |path| >= 1 && Write(root, path, data).Ok?
    ensures var before := Get(root, path);
      Write(root, path, data).value.after
        == if Truthy(before) && IsComposite(before.value) then MergeFrom(before.value, data, 0) else data
  {
    var keys := path[..|path| - 1];
    var last := path[|path| - 1];
    var nodes := Nodes(root, keys).value;
    var parent := nodes[|keys|];
    assert Write(root, path, data).value.after == Final(parent, last, data).value.0;
    FinalValue(parent, last, data);
    ParentRead(root, path);
  }

  /**
   * A read at the path finds what the node the walk to its parent ends on
   * holds under the last key, or something falsy where that node has nothing.
   */
  lemma ParentRead(root: Json, path: Path)
    requires |path| >= 1 && Nodes(root, path[..|path| - 1]).Ok?
    ensures var parent := Nodes(root, path[..|path| - 1]).value[|path| - 1];
      Get(root, path) == Prop(parent, path[|path| - 1])
      || (!Truthy(Get(root, path)) && Prop(parent, path[|path| - 1]).None?)
  {
    var keys := path[..|path| - 1];
    var last := path[|path| - 1];
    var parent := Nodes(root, keys).value[|keys|];
    WalkEnd(root, keys);
    assert keys + [last] == path;
    GetSnoc(root, keys, last);
    PrimitiveProps(parent, last);
  }

  /** The value the last step stores: merged into a truthy object or array at the key, else the data. */
  lemma FinalValue(parent: Json, key: string, data: Json)
    requires Final(parent, key, data).Ok?
    ensures var current := Prop(parent, key);
      Final(parent, key, data).value.0
        == if Truthy(current) && IsComposite(current.value) then MergeFrom(current.value, data, 0) else data
  {
  }

  /**
   * On the store's object root, a write succeeds exactly when no truthy
   * primitive lies on the way to the parent and it does not merge `null`
   * into an object or array already at the path (`Object.keys(null)` throws).
   */
  lemma WriteSucceeds(root: Json, path: Path, data: Json)
    requires |path| >= 1 && IsComposite(root)
    ensures Write(root, path, data).Ok? <==>
      && WalkClear(root, path[..|path| - 1])
      && !(data.JNull? && Truthy(Get(root, path)) && IsComposite(Get(root, path).value))
  {
    var keys := path[..|path| - 1];
    var last := path[|path| - 1];
    NodesClear(root, keys);
    if Nodes(root, keys).Ok? {
      var parent := Nodes(root, keys).value[|keys|];
      ParentRead(root, path);
      PrimitiveProps(parent, last);
    }
  }

  /** A write leaves every path that branches off its own reading as before. */
  lemma WriteFrame(root: Json, path: Path, data: Json, q: Path, i: nat)
    requires |path| >= 1 && Write(root, path, data).Ok?
    requires i < |path| && i < |q| && path[..i] == q[..i] && path[i] != q[i]
    ensures ReadDocument(Write(root, path, data).value.root, q) == ReadDocument(root, q)
    ensures forall cs :: ReadCollection(Write(root, path, data).value.root, q, cs) == ReadCollection(root, q, cs)
  {
    var nodes := Nodes(root, path[..|path| - 1]).value;
    var w := Write(root, path, data).value;
    WriteIsPlug(root, path, data);
    PlugFrame(nodes, path, w.after, q, i);
    SameReads(root, w.root, q);
  }

  /** A write rebuilds the walk's nodes, every one of them an object or an array, around the stored value. */
  lemma WriteIsPlug(root: Json, path: Path, data: Json)
    requires |path| >= 1 && Write(root, path, data).Ok?
    ensures var nodes := Nodes(root, path[..|path| - 1]).value;
      && |nodes| == |path|
      && Write(root, path, data).value.root == Plug(nodes, path, Write(root, path, data).value.after)
      && (forall j :: 0 <= j < |path| ==> IsComposite(nodes[j]))
      && (forall j :: 0 <= j < |path| - 1 ==> nodes[j + 1] == Child(nodes[j], path[j]))
  {
    var keys := path[..|path| - 1];
    var last := path[|path| - 1];
    var nodes := Nodes(root, keys).value;
    var f := Final(nodes[|keys|], last, data);
    assert f.Ok? && IsComposite(nodes[|keys|]);
    assert Write(root, path, data) == Ok(Written(Plug(nodes, path, f.value.0), f.value.1, f.value.0));
    assert IsTrail(nodes, keys);
    forall j | 0 <= j < |path|
      ensures IsComposite(nodes[j])
    {
      TrailComposite(nodes, keys, j);
    }
    forall j | 0 <= j < |path| - 1
      ensures nodes[j + 1] == Child(nodes[j], path[j])
    {
      assert keys[j] == path[j];
    }
  }

  /** Two trees that read alike at `q` (the same truthy value, or both falsy) answer both reads alike. */
  lemma SameReads(a: Json, b: Json, q: Path)
    requires Truthy(Get(a, q)) ==> Get(b, q) == Get(a, q)
    requires !Truthy(Get(a, q)) ==> !Truthy(Get(b, q))
    ensures ReadDocument(b, q) == ReadDocument(a, q)
    ensures forall cs :: ReadCollection(b, q, cs) == ReadCollection(a, q, cs)
  {
  }

  /**
   * A write that fails found every level it walked through already there,
   * so the walk had created nothing before it threw: the store is unchanged.
   */
  lemma FailedWriteCreatedNothing(root: Json, path: Path, data: Json, j: nat)
    requires |path| >= 1 && Write(root, path, data).Err?
    requires 1 <= j < |path| && Nodes(root, path[..j]).Ok?
    ensures Truthy(Get(root, path[..j]))
  {
    var keys := path[..|path| - 1];
    var nodes := Nodes(root, path[..j]).value;
    TrailReads(nodes, path[..j], j);
    assert path[..j][..j] == path[..j];
    if !Truthy(Get(root, path[..j])) {
      assert keys[..j] == path[..j];
      NodesFromEmpty(root, keys, j);
    }
  }

  // ---------------------------------------------------------------------------
  // addToCollection: properties

  /** The node a successful walk ends on is what a read at the path finds, or a new `{}` if that is falsy. */
  lemma WalkEnd(root: Json, path: Path)
    requires Nodes(root, path).Ok?
    ensures var parent := Nodes(root, path).value[|path|];
      Get(root, path) == Some(parent) || (!Truthy(Get(root, path)) && parent == JObj([]))
  {
    TrailReads(Nodes(root, path).value, path, |path|);
    assert path[..|path|] == path;
  }

  /** Where the full path reads as falsy, the node the walk ends on has nothing truthy under the id. */
  lemma ParentLacksKey(root: Json, path: Path, id: string)
    requires Nodes(root, path).Ok? && !Truthy(Get(root, path + [id]))
    ensures !Truthy(Prop(Nodes(root, path).value[|path|], id))
  {
    WalkEnd(root, path);
    GetSnoc(root, path, id);
    PrimitiveProps(Nodes(root, path).value[|path|], id);
  }

  /**
   * Under an id that reads as falsy, adding is writing: the same new tree,
   * and the write's event is the add's event (`before` null, `after` the data).
   */
  lemma AddIsFreshWrite(root: Json, path: Path, id: string, data: Json)
    requires !Truthy(Get(root, path + [id]))
    ensures Add(root, path, id, data).Ok? == Write(root, path + [id], data).Ok?
    ensures Add(root, path, id, data).Ok? ==>
      var w := Write(root, path + [id], data).value;
      Add(root, path, id, data).value == w.root && WriteEvent(path + [id], w.before, w.after) == AddEvent(path, id, data)
  {
    var full := path + [id];
    assert full[..|full| - 1] == path && full[|full| - 1] == id;
    if Nodes(root, path).Ok? {
      var nodes := Nodes(root, path).value;
      var parent := nodes[|path|];
      ParentLacksKey(root, path, id);
      if IsComposite(parent) {
        assert Final(parent, id, data) == Ok((data, JNull));
        assert Write(root, full, data) == Ok(Written(Plug(nodes, full, data), JNull, data));
      } else {
        assert Final(parent, id, data).Err?;
      }
    }
  }

  /**
   * On the store's object root, an add succeeds exactly when no truthy
   * primitive lies on the way to the collection, whatever the id and the data.
   */
  lemma AddSucceeds(root: Json, path: Path, id: string, data: Json)
    requires IsComposite(root)
    ensures Add(root, path, id, data).Ok? <==> WalkClear(root, path)
  {
    NodesClear(root, path);
  }

  /** After an add, the new document reads back as the data. */
  lemma AddThenRead(root: Json, path: Path, id: string, data: Json)
    requires Add(root, path, id, data).Ok? && IndexesArrays(root, path + [id])
    ensures Get(Add(root, path, id, data).value, path + [id]) == Some(data)
  {
    var nodes := Nodes(root, path).value;
    var full := path + [id];
    assert Add(root, path, id, data).value == Plug(nodes, full, data);
    WalkAddressable(root, path, id);
    PlugReads(nodes, full, data, |full|);
    assert full[..|full|] == full && nodes[|full|..] == [] && full[|full|..] == [];
  }

  /** After an add, the collection reads as the walk's last node with the data set under the id. */
  lemma AddReadsCollection(root: Json, path: Path, id: string, data: Json)
    requires Add(root, path, id, data).Ok? && IndexesArrays(root, path + [id])
    ensures Get(Add(root, path, id, data).value, path) == Some(SetKey(Nodes(root, path).value[|path|], id, data))
  {
    var nodes := Nodes(root, path).value;
    var full := path + [id];
    WalkAddressable(root, path, id);
    PlugReads(nodes, full, data, |path|);
    assert full[..|path|] == path;
    assert nodes[|path|..] == [nodes[|path|]] && full[|path|..] == [id];
  }

  lemma DocsOfAppend(fs: seq<Field>, f: Field)
    ensures DocsOf(JObj(fs + [f])) == DocsOf(JObj(fs)) + [Doc(f.key, f.value)]
  {
  }

  /**
   * Adding to an object collection (or to a missing one) appends the new
   * document: `readCollection` lists it after all the documents already there.
   */
  lemma AddAppends(root: Json, path: Path, id: string, data: Json)
    requires Add(root, path, id, data).Ok? && IndexesArrays(root, path + [id])
    requires Truthy(Get(root, path)) ==> Get(root, path).value.JObj? && !HasField(Get(root, path).value.fields, id)
    ensures var prior := if Truthy(Get(root, path)) then Get(root, path).value.fields else [];
      Get(Add(root, path, id, data).value, path) == Some(JObj(prior + [Field(id, data)]))
    ensures var prior := if Truthy(Get(root, path)) then DocsOf(Get(root, path).value) else [];
      ReadCollection(Add(root, path, id, data).value, path, []) == Ok(prior + [Doc(id, data)])
  {
    AddReadsCollection(root, path, id, data);
    WalkEnd(root, path);
    var fs := if Truthy(Get(root, path)) then Get(root, path).value.fields else [];
    assert SetKey(Nodes(root, path).value[|path|], id, data) == JObj(fs + [Field(id, data)]);
    DocsOfAppend(fs, Field(id, data));
  }

  /** An add that fails found every level it walked through already there: the store is unchanged. */
  lemma FailedAddCreatedNothing(root: Json, path: Path, id: string, data: Json, j: nat)
    requires Add(root, path, id, data).Err?
    requires 1 <= j <= |path| && Nodes(root, path[..j]).Ok?
    ensures Truthy(Get(root, path[..j]))
  {
    var nodes := Nodes(root, path[..j]).value;
    TrailReads(nodes, path[..j], j);
    assert path[..j][..j] == path[..j];
    if !Truthy(Get(root, path[..j])) {
      NodesFromEmpty(root, path, j);
    }
  }

  // ---------------------------------------------------------------------------
  // deleteDocument and deleteCollection: properties

  /** Below a primitive every read finds a primitive or nothing. */
  lemma {:induction false} LookupPrimitive(acc: Option<Json>, q: Path)
    requires acc.None? || IsPrimitive(acc.value)
    ensures Lookup(acc, q).None? || IsPrimitive(Lookup(acc, q).value)
    decreases |q|
  {
    if q != [] {
      if Truthy(acc) {
        PrimitiveProps(acc.value, q[0]);
      }
      LookupPrimitive(if Truthy(acc) then Prop(acc.value, q[0]) else acc, q[1..]);
    }
  }

  /** Removing below a primitive changes nothing. */
  lemma {:induction false} RemoveAtPrimitive(node: Json, path: Path)
    requires |path| >= 1 && IsPrimitive(node)
    ensures RemoveAt(node, path) == node
    decreases |path|
  {
  }

  /** After the delete, the path reads as falsy: `readDocument` and `readCollection` report not found. */
  lemma {:induction false} RemoveAtGone(node: Json, path: Path)
    requires |path| >= 1
    requires Truthy(Get(node, path[..|path| - 1])) && IsComposite(Get(node, path[..|path| - 1]).value)
    ensures !Truthy(Get(RemoveAt(node, path), path))
    decreases |path|
  {
    if |path| == 1 {
      assert path[..0] == [];
    } else {
      var up := path[..|path| - 1];
      var child := Prop(node, path[0]);
      if !Truthy(Some(node)) || IsPrimitive(node) {
        LookupPrimitive(Some(node), up);
      } else {
        assert Get(node, up) == Lookup(child, up[1..]);
        if child.None? {
        } else {
          assert up[1..] == path[1..][..|path| - 2];
          RemoveAtGone(child.value, path[1..]);
          SetKeyDescend(node, path[0], RemoveAt(child.value, path[1..]), path);
        }
      }
    }
  }

  /** A delete leaves every path that branches off its own reading exactly as before. */
  lemma {:induction false} RemoveAtFrame(node: Json, path: Path, q: Path, i: nat)
    requires |path| >= 1
    requires i < |path| && i < |q| && path[..i] == q[..i] && path[i] != q[i]
    ensures Get(RemoveAt(node, path), q) == Get(node, q)
    decreases |path|
  {
    if IsPrimitive(node) {
      RemoveAtPrimitive(node, path);
    } else if |path| == 1 {
      DeleteKeyOther(node, path[0], q[0]);
    } else if Prop(node, path[0]).Some? {
      var child := Prop(node, path[0]).value;
      var below := RemoveAt(child, path[1..]);
      if i == 0 {
        SetKeyExisting(node, path[0], below, q[0]);
      } else {
        assert q[0] == path[..i][0];
        assert path[1..][..i - 1] == q[1..][..i - 1];
        RemoveAtFrame(child, path[1..], q[1..], i - 1);
        SetKeyDescend(node, path[0], below, q);
      }
    }
  }

  /** After `deleteDocument` or `deleteCollection` removed something, reads at the path find nothing. */
  lemma DeleteThenRead(root: Json, path: Path, cs: seq<Constraint>)
    requires |path| >= 1 && Detach(root, path).Ok? && Detach(root, path).value.Some?
    ensures ReadDocument(Detach(root, path).value.value.root, path) == Err(NotFound)
    ensures ReadCollection(Detach(root, path).value.value.root, path, cs) == Err(NotFound)
  {
    RemoveAtGone(root, path);
  }

  /** A delete that finds nothing to remove leaves reads at the path finding nothing either. */
  lemma DeleteNothing(root: Json, path: Path)
    requires |path| >= 1 && Detach(root, path) == Ok(None)
    ensures ReadDocument(root, path) == Err(NotFound)
    ensures forall cs :: ReadCollection(root, path, cs) == Err(NotFound)
  {
    GetSnoc(root, path[..|path| - 1], path[|path| - 1]);
    assert path[..|path| - 1] + [path[|path| - 1]] == path;
  }

  /** A delete changes nothing at paths that branch off its own. */
  lemma DeleteFrame(root: Json, path: Path, q: Path, i: nat)
    requires |path| >= 1 && Detach(root, path).Ok? && Detach(root, path).value.Some?
    requires i < |path| && i < |q| && path[..i] == q[..i] && path[i] != q[i]
    ensures Get(Detach(root, path).value.value.root, q) == Get(root, q)
  {
    RemoveAtFrame(root, path, q, i);
  }

  /**
   * `deleteCollection` announces exactly the documents an unconstrained
   * `readCollection` listed just before, one delete event per document, in order.
   */
  lemma CollectionDeletesAreDocs(root: Json, path: Path)
    requires |path| >= 1 && Detach(root, path).Ok? && Detach(root, path).value.Some?
    requires ReadCollection(root, path, []).Ok?
    ensures var docs := ReadCollection(root, path, []).value;
      ChildDeletes(path, Detach(root, path).value.value.before)
        == Ok(seq(|docs|, i requires 0 <= i < |docs| => DeleteEvent(path + [docs[i].id], docs[i].data)))
  {
    var before := Detach(root, path).value.value.before;
    var docs := ReadCollection(root, path, []).value;
    assert docs == DocsOf(before);
    var events := ChildDeletes(path, before).value;
    assert events == seq(|docs|, i requires 0 <= i < |docs| => DeleteEvent(path + [docs[i].id], docs[i].data));
  }
}
