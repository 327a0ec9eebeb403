/**
 * `NoSqlDatabaseTesting`: the in-memory store. Its state is the JSON tree
 * `dataStore`, always an object, and the log of the events it has emitted
 * on `onWrite$` and `onDelete$`, in order. Each method is proved to do what
 * the corresponding function of the `Store` module describes.
 */
module FakeDatabase {
  import opened Results
  import opened JsonValues
  import opened Merging
  import opened Query
  import opened Store

  /**
   * The walk down a path of `addToCollection`'s loop (and of
   * `writeDocument`'s reduce): a falsy child is replaced by `{}`, which
   * throws on a primitive, and the walk moves on to the child. The result
   * is every node passed, the last one being where the value goes.
   */
  method Walk(root: Json, keys: Path) returns (r: Result<seq<Json>>)
    ensures r == Nodes(root, keys)
  {
    var nodes := [root];
    for i := 0 to |keys|
      invariant Nodes(root, keys[..i]) == Ok(nodes)
    {
      var element := nodes[i];
      var key := keys[i];
      assert keys[..i + 1][..i] == keys[..i] && keys[..i + 1][i] == key;
      if !Truthy(Prop(element, key)) && IsPrimitive(element) {
        NodesPrefixFails(root, keys, i + 1);
        return Err(Unknown);
      }
      nodes := nodes + [Child(element, key)];
    }
    assert keys[..|keys|] == keys;
    return Ok(nodes);
  }

  class NoSqlDatabaseTesting {
    /** The whole database: one JSON tree. */
    var dataStore: Json
    /** Every event emitted so far, oldest first. */
    var events: seq<Event>

    /** The store's root is always an object. */
    ghost predicate Valid()
      reads this
    {
      dataStore.JObj?
    }

    /** A new, empty store that has emitted nothing. */
    constructor()
      ensures Valid() && dataStore == JObj([]) && events == []
    {
      dataStore := JObj([]);
      events := [];
    }

    /** `readDocument`: the element at the path, unless it is falsy. */
    method ReadDocument(path: Path) returns (r: Result<Json>)
      ensures r == Store.ReadDocument(dataStore, path)
    {
      var element := Get(dataStore, path);
      if !Truthy(element) {
        return Err(NotFound);
      }
      return Ok(element.value);
    }

    /** `readCollection`: the entries of the element at the path, run through each constraint in turn. */
    method ReadCollection(path: Path, constraints: seq<Constraint>) returns (r: Result<seq<Doc>>)
      ensures r == Store.ReadCollection(dataStore, path, constraints)
    {
      var collection := Get(dataStore, path);
      if !Truthy(collection) || IsPrimitive(collection.value) {
        return Err(NotFound);
      }
      var documents := DocsOf(collection.value);
      for i := 0 to |constraints|
        invariant ApplyAll(documents, constraints[i..]) == ApplyAll(DocsOf(collection.value), constraints)
      {
        var constraint := constraints[i];
        assert constraints[i..][0] == constraint && constraints[i..][1..] == constraints[i + 1..];
        if constraint.Limit? {
          documents := Slice(documents, constraint.count);
        } else {
          if HasNullData(documents) {
            // `doc.data[field]` on a document whose data is null throws
            return Err(Unknown);
          }
          documents := Select(documents, constraint);
        }
      }
      assert constraints[|constraints|..] == [];
      return Ok(documents);
    }

    /**
     * `writeDocument`: walk to the parent creating missing levels, then
     * deep-merge into a truthy object or array at the last key or replace
     * what is there, and emit one write event.
     */
    method WriteDocument(path: Path, data: Json) returns (r: Result<()>)
      requires |path| >= 1 && Valid()
      modifies this
      ensures Valid()
      ensures match Write(old(dataStore), path, data)
        case Ok(w) =>
          r == Ok(()) && dataStore == w.root && events == old(events) + [WriteEvent(path, w.before, w.after)]
        case Err(e) =>
          r == Err(e) && dataStore == old(dataStore) && events == old(events)
    {
      var keys := path[..|path| - 1];
      var walked := Walk(dataStore, keys);
      if walked.Err? {
        return Err(walked.error);
      }
      var nodes := walked.value;
      var parent := nodes[|keys|];
      var lastKey := path[|path| - 1];
      var current := Prop(parent, lastKey);
      var before := if Truthy(current) then current.value else JNull;
      var value: Json;
      if Truthy(current) && IsComposite(current.value) {
        var merged := DeepMerge(current.value, data);
        if merged.Err? {
          return Err(merged.error);
        }
        value := merged.value;
      } else {
        if IsPrimitive(parent) {
          // `parentElement[lastKey] = data` on a primitive throws
          return Err(Unknown);
        }
        value := data;
      }
      dataStore := Plug(nodes, path, value);
      events := events + [WriteEvent(path, before, value)];
      return Ok(());
    }

    /**
     * `addToCollection`, with `id` standing for the generated uuid: walk the
     * whole path creating missing levels, store the data under the id without
     * merging, and emit one write event whose `before` is null.
     */
    method AddToCollection(path: Path, data: Json, id: string) returns (r: Result<string>)
      requires Valid()
      modifies this
      ensures Valid()
      ensures match Add(old(dataStore), path, id, data)
        case Ok(root) =>
          r == Ok(id) && dataStore == root && events == old(events) + [AddEvent(path, id, data)]
        case Err(e) =>
          r == Err(e) && dataStore == old(dataStore) && events == old(events)
    {
      var walked := Walk(dataStore, path);
      if walked.Err? {
        return Err(walked.error);
      }
      var nodes := walked.value;
      var element := nodes[|path|];
      if IsPrimitive(element) {
        // `element[id] = data` on a primitive throws
        return Err(Unknown);
      }
      dataStore := Plug(nodes, path + [id], data);
      events := events + [WriteEvent(path + [id], JNull, data)];
      return Ok(id);
    }

    /** `deleteDocument`: remove the last key of the path if its parent has it, and emit one delete event. */
    method DeleteDocument(path: Path) returns (r: Result<()>)
      requires |path| >= 1 && Valid()
      modifies this
      ensures Valid()
      ensures match Detach(old(dataStore), path)
        case Err(e) => r == Err(e) && dataStore == old(dataStore) && events == old(events)
        case Ok(None) => r == Ok(()) && dataStore == old(dataStore) && events == old(events)
        case Ok(Some(d)) =>
          r == Ok(()) && dataStore == d.root && events == old(events) + [DeleteEvent(path, d.before)]
    {
      var detached := Detach(dataStore, path);
      if detached.Err? {
        return Err(detached.error);
      }
      if detached.value.Some? {
        var d := detached.value.value;
        dataStore := d.root;
        events := events + [DeleteEvent(path, d.before)];
      }
      return Ok(());
    }

    /**
     * `deleteCollection`: remove the last key of the path if its parent has
     * it, then emit one delete event per key of the removed value. When the
     * removed value is null, `Object.keys` throws after the removal: the
     * store has changed, nothing is emitted and the result is an error.
     */
    method DeleteCollection(path: Path) returns (r: Result<()>)
      requires |path| >= 1 && Valid()
      modifies this
      ensures Valid()
      ensures match Detach(old(dataStore), path)
        case Err(e) => r == Err(e) && dataStore == old(dataStore) && events == old(events)
        case Ok(None) => r == Ok(()) && dataStore == old(dataStore) && events == old(events)
        case Ok(Some(d)) =>
          dataStore == d.root &&
          match ChildDeletes(path, d.before)
          case Err(e) => r == Err(e) && events == old(events)
          case Ok(deletes) => r == Ok(()) && events == old(events) + deletes
    {
      var detached := Detach(dataStore, path);
      if detached.Err? {
        return Err(detached.error);
      }
      if detached.value.None? {
        return Ok(());
      }
      var d := detached.value.value;
      dataStore := d.root;
      if d.before.JNull? {
        // `Object.keys(null)` throws
        return Err(Unknown);
      }
      var keys := Entries(d.before);
      ghost var deletes := ChildDeletes(path, d.before).value;
      for i := 0 to |keys|
        invariant dataStore == d.root
        invariant events == old(events) + deletes[..i]
      {
        events := events + [DeleteEvent(path + [keys[i].key], keys[i].value)];
        assert deletes[..i + 1] == deletes[..i] + [deletes[i]];
      }
      assert deletes[..|keys|] == deletes;
      return Ok(());
    }
  }
}
