# ts-crud: the in-memory document store and its path helpers

This project models `NoSqlDatabaseTesting`, the in-memory NoSQL store of
ts-crud, and proves properties of that model in Dafny.

The store keeps the whole database as one JSON tree (`dataStore`).
Documents and collections are addressed by `string[]` paths. The store can:

- read a document;
- read a collection through a pipeline of `where`, `array-contains` and `limit` constraints;
- write a document, deep-merging into an object that is already there;
- add a document under a generated id;
- delete a document or a whole collection.

Every change is announced on `onWrite$` or `onDelete$`.

Around the store sit pure path helpers:

- the parity validators `ensureValidDocumentPath` (two copies) and `arrayToCollectionPath`;
- the portal schema tables that build the path of each collection and document kind.

Modules, one per file:

- `Results` (results.dfy): `Option`, the error codes (`not-found`, `invalid-path`, `invalid-collection-path`, unknown) and `Result`.
- `JsonValues` (json.dfy): JSON values with ordered object fields. It also defines the JavaScript property operations the store uses:
  - truthiness;
  - `v[k]`, where array and string elements are addressed by canonical index keys;
  - `v[k] = x` and `delete v[k]`;
  - `Object.keys`/`Object.entries`.
- `Merging` (merge.dfy): `deepMerge`, as a specification function `MergeFrom` and as the loop-and-recursion method `DeepMerge`.
- `Query` (query.dfy): the constraint pipeline of `readCollection`, with JavaScript's `<`, `<=`, `===` on the values a document can hold.
- `Store` (store.dfy): what each store operation does to the tree, as functions of the tree, with the read-after-write, frame and event lemmas.
- `FakeDatabase` (fake_database.dfy): the class `NoSqlDatabaseTesting` with fields `dataStore` and `events`. Each method is proved equal to its `Store` function. `Walk` is the creating walk of `addToCollection`'s loop.
- `CorePaths` (core_paths.dfy), `LegacyPaths` (legacy_paths.dfy) and `PathUtils` (path_utils.dfy): the path families and the validators.
- `CollectionsSchema` (collections_schema.dfy) and `DocumentsSchema` (documents_schema.dfy): the portal `getPath` tables and their name maps.

How the model stands in for the code:

- The store mutates nested objects in place. The model treats the tree as a value and rebuilds the nodes along the written path.
- The class methods assign the new tree to `dataStore` and append to `events`, the log of everything emitted so far.
- The generated uuid of `addToCollection` is a parameter `id`.
- JavaScript TypeErrors that the store's `try`/`catch` turns into `ErrorUnknown` are modelled as `Err(Unknown)`:
  - assigning a property of a primitive on a write path;
  - `key in` a primitive parent;
  - `Object.keys(null)`;
  - reading a field of a `null` document in a filter.

Behaviour of the code that a reader might not expect, which the model follows:

- `deleteCollection` removes the key before `Object.keys(before)` runs. When the removed value is `null`, the store has already changed, nothing is emitted and the result is an error. `FakeDatabase.NoSqlDatabaseTesting.DeleteCollection` states exactly this.
- The older suites under src/no-sql-db-spec/ expect `readCollection` to return `[]` after `deleteCollection`. The code returns `not-found`, and `Store.DeleteThenRead` proves that it does.
- An existing array at the written path is deep-merged into, index by index, because the code tests `typeof === "object"` (`Merging.MergesIntoTopLevelArray`).
- Falsy stored values (`0`, `""`, `false`, `null`) read as not-found, and on a write path they are replaced by `{}`.
- A failed write or add has created nothing. The walk can fail only at a level that already existed (`Store.FailedWriteCreatedNothing`), so returning the old tree on error is what the code leaves behind.
- Both `ensureValidDocumentPath` copies accept the empty path and every even length, although the `DocumentPath` type only has lengths 2, 4 and 6. `arrayToCollectionPath` likewise accepts every odd length.

## Model

| member | source | states |
|---|---|---|
| JsonValues.SetKey | src/provider/fake/database.fake.ts:163 | `v[k] = x` keeps the kind of `v`, and an addressable key reads back `x` afterwards |
| JsonValues.DeleteKey | src/provider/fake/database.fake.ts:231 | after `delete v[k]` on an object or array, `v[k]` is no longer truthy |
| JsonValues.SetKeyOther | src/provider/fake/database.fake.ts:34 | assigning one key leaves every other present key as it was |
| JsonValues.DeleteKeyOther | src/provider/fake/database.fake.ts:231 | deleting one key leaves every other key as it was |
| JsonValues.Entries | src/provider/fake/database.fake.ts:25 | `Object.keys` with values: an object's fields in order, an array's or a string's elements one per index, nothing for numbers and booleans |
| JsonValues.EntriesAgreeWithProp | src/provider/fake/database.fake.ts:102 | each entry reads back through `v[key]`, and entry keys are distinct |
| JsonValues.IndexKeyRoundTrip | src/provider/fake/database.fake.ts:149 | parsing the index key of `n` gives `n` back |
| JsonValues.ParseIndexInjective | src/provider/fake/database.fake.ts:149 | two keys naming the same array index are the same key |
| JsonValues.ParseIndexSound | src/provider/fake/database.fake.ts:149 | a key that names an array index is exactly the index key written for it |
| Merging.DeepMerge | src/provider/fake/database.fake.ts:24-38 | the loop over the source's keys with its recursive call computes `MergeFrom`; a `null` source is an error |
| Merging.MergeFrom | src/provider/fake/database.fake.ts:24-38 | merging keeps the target an object or array as it was |
| Merging.MergeValue | src/provider/fake/database.fake.ts:26-32 | a composite source value merged at a key yields a composite, an object when the old value was an object |
| Merging.MergeKeepsAbsentKeys | src/provider/fake/database.fake.ts:24-38 | keys the source does not list keep their old value |
| Merging.MergeSetsKey | src/provider/fake/database.fake.ts:25-35 | every key of the source ends up holding the source value, merged recursively when both old and new are composite and the old is a non-array object |
| Merging.MergedAtCases | src/provider/fake/database.fake.ts:26-35 | recursion happens exactly when the new value is composite and the old one a non-array object; otherwise the new value replaces the old |
| Merging.MergeSelf | src/provider/fake/database.fake.ts:24-38 | merging a well-formed object into itself changes nothing |
| Merging.MergeIdempotent | src/provider/fake/database.fake.ts:24-38 | merging the same source twice gives the same result as merging it once |
| Merging.MergesNestedFields | src/provider/fake/database.fake.ts:26-32 | `{n:{a:x}}` merged with `{n:{b:y}}` for a primitive `y` is `{n:{a:x, b:y}}`: both nested fields are kept |
| Merging.AppendsNewPrimitive | src/provider/fake/database.fake.ts:33-35 | a primitive under a key the object lacks becomes its last field, the other fields unchanged |
| Merging.ReplacesPrimitiveWithObject | src/provider/fake/database.fake.ts:33-35 | a string field updated with an object becomes that object |
| Merging.ReplacesArray | src/provider/fake/database.fake.ts:30-35 | an array field updated with `[]` becomes `[]` |
| Merging.PreservesUnrelatedFields | src/provider/fake/database.fake.ts:24-38 | an unrelated top-level field survives a nested update |
| Merging.MergesIntoTopLevelArray | src/provider/fake/database.fake.ts:201-202 | an existing array is merged into by index: `["a","b"]` with `["c"]` gives `["c","b"]` |
| Query.Select | src/provider/fake/database.fake.ts:112-135 | a filter keeps, in order, exactly the documents that match |
| Query.Slice | src/provider/fake/database.fake.ts:137 | `slice(0, n)` keeps a prefix of length `n` (counted from the end when negative) |
| Query.Apply | src/provider/fake/database.fake.ts:110-138 | one constraint step fails exactly when a filter meets a `null` document, else filters or slices |
| Query.NumberOf | src/provider/fake/database.fake.ts:116 | null, booleans and numbers compare as numbers, nothing else does |
| Query.UndefinedNeverMatches | src/provider/fake/database.fake.ts:113-126 | an absent field satisfies no comparison |
| Query.Trichotomy | src/provider/fake/database.fake.ts:115-124 | two numbers or two strings satisfy exactly one of `<`, `==`, `>` |
| Query.LessOrEqualSplits | src/provider/fake/database.fake.ts:117-118 | on numbers or strings, `<=` is `<` or `===` |
| Query.EqualityIsStrict | src/provider/fake/database.fake.ts:119-120 | `==` holds exactly for an identical primitive |
| Query.StringLessTotal | src/provider/fake/database.fake.ts:116 | two distinct strings are ordered one way only |
| Query.StringLessTransitive | src/provider/fake/database.fake.ts:116 | string order is transitive |
| Query.ApplyAllIsSubsequence | src/provider/fake/database.fake.ts:109-139 | the pipeline returns a subsequence of its input, order kept |
| Query.ApplyAllMatches | src/provider/fake/database.fake.ts:109-135 | every returned document satisfies every `where` and `array-contains` constraint of the list |
| Query.ApplyAllLimited | src/provider/fake/database.fake.ts:136-137 | a `limit n` anywhere in the list bounds the result by `n` |
| Query.ApplyAllGuarantees | src/provider/fake/database.fake.ts:109-139 | on success, every returned document passes every `where` and `array-contains` constraint, and every `limit n` bounds the result |
| Query.ApplyAllFails | src/provider/fake/database.fake.ts:112-135 | without `null` documents the pipeline never fails |
| Store.Lookup | src/provider/fake/database.fake.ts:147-151 | a falsy accumulator is carried to the end unchanged |
| Store.LookupAppend | src/provider/fake/database.fake.ts:147-151 | the reduce over `p + q` is the reduce over `q` from the result over `p` |
| Store.ReadDocument | src/provider/fake/database.fake.ts:69-82 | success exactly when the element at the path is truthy, with that element; otherwise not-found |
| Store.DocsOf | src/provider/fake/database.fake.ts:102-105 | one `{id, data}` per entry of the collection, in entry order |
| Store.ReadCollection | src/provider/fake/database.fake.ts:88-145 | not-found exactly when the element at the path is falsy or not an object; otherwise the result is a subsequence of its entries in which every document passes every `where` and `array-contains` constraint and whose length each `limit n` bounds; the only other error is unknown |
| Store.Nodes | src/provider/fake/database.fake.ts:188-191 | the creating walk yields a trail of children starting at the root, or fails with unknown |
| Store.Final | src/provider/fake/database.fake.ts:193-205 | the last step merges into a truthy value or stores the data, and reports the truthy old value or `null` as `before` |
| Store.Write | src/provider/fake/database.fake.ts:181-218 | a write keeps the root an object and fails only with unknown |
| Store.NodesClear | src/provider/fake/database.fake.ts:188-191 | from an object root, the walk gets through and ends on an object or array exactly when no level below the root holds a truthy primitive |
| Store.WriteSucceeds | src/provider/fake/database.fake.ts:181-218 | on an object root, a write succeeds exactly when no truthy primitive lies on the way to the parent and it does not merge `null` into an object or array already at the path |
| Store.WriteBefore | src/provider/fake/database.fake.ts:196-198 | the event's `before` is the old value at the path when truthy, else `null` |
| Store.WriteAfter | src/provider/fake/database.fake.ts:200-205 | the event's `after` is the deep merge into an existing object or array, else the data itself |
| Store.WriteThenRead | src/provider/fake/database.fake.ts:204-211 | after a write the path holds exactly the event's `after` |
| Store.WriteFrame | src/provider/fake/database.fake.ts:181-218 | reads of documents and collections at paths that branch off the written path are unchanged |
| Store.FailedWriteCreatedNothing | src/provider/fake/database.fake.ts:188-191 | a failing walk never passed a level it created |
| Store.Add | src/provider/fake/database.fake.ts:153-179 | adding keeps the root an object and fails only with unknown |
| Store.AddSucceeds | src/provider/fake/database.fake.ts:153-179 | on an object root, an add succeeds exactly when no truthy primitive lies on the way to the collection, whatever the id and data |
| Store.AddIsFreshWrite | src/provider/fake/database.fake.ts:159-174 | adding under an id not yet present is writing at `path ++ [id]`, with the same tree and the same event |
| Store.AddThenRead | src/provider/fake/database.fake.ts:169 | after an add, `path ++ [id]` holds exactly the data |
| Store.AddAppends | src/provider/fake/database.fake.ts:159-169 | the collection gains the new document after all the old ones, and an unconstrained read lists it last |
| Store.FailedAddCreatedNothing | src/provider/fake/database.fake.ts:160-166 | a failing loop never passed a level it created |
| Store.Detach | src/provider/fake/database.fake.ts:224-231 | fails (unknown) exactly under a truthy primitive parent; deletes exactly when the parent is a truthy object or array holding the key, then removes that key and reports as `before` the value the path held; otherwise does nothing |
| Store.ChildDeletes | src/provider/fake/database.fake.ts:254-259 | one delete event per key of the removed value, path `path ++ [key]`; `null` is an error |
| Store.RemoveAtGone | src/provider/fake/database.fake.ts:231 | after `delete` the path reads as falsy |
| Store.RemoveAtFrame | src/provider/fake/database.fake.ts:231 | `delete` leaves paths that branch off it unchanged |
| Store.DeleteThenRead | src/provider/fake/database.fake.ts:220-266 | after a delete, reading the document or the collection gives not-found |
| Store.DeleteNothing | src/provider/fake/database.fake.ts:229 | when nothing is deleted, the document was not there to read, neither as a document nor as a collection |
| Store.DeleteFrame | src/provider/fake/database.fake.ts:220-266 | a delete leaves paths that branch off it unchanged |
| Store.CollectionDeletesAreDocs | src/provider/fake/database.fake.ts:250-259 | the events of `deleteCollection` are one per document an unconstrained read listed, with its id and data |
| FakeDatabase.Walk | src/provider/fake/database.fake.ts:159-166 | the loop creating missing levels computes `Store.Nodes` |
| FakeDatabase.NoSqlDatabaseTesting.constructor | src/provider/fake/database.fake.ts:45 | the store starts as `{}` with nothing emitted |
| FakeDatabase.NoSqlDatabaseTesting.ReadDocument | src/provider/fake/database.fake.ts:69-82 | returns `Store.ReadDocument` of the current tree |
| FakeDatabase.NoSqlDatabaseTesting.ReadCollection | src/provider/fake/database.fake.ts:88-145 | the constraint loop returns `Store.ReadCollection` of the current tree |
| FakeDatabase.NoSqlDatabaseTesting.WriteDocument | src/provider/fake/database.fake.ts:181-218 | on success the tree becomes `Store.Write`'s and one write event is appended; on error nothing changes |
| FakeDatabase.NoSqlDatabaseTesting.AddToCollection | src/provider/fake/database.fake.ts:153-179 | on success returns the id, the tree becomes `Store.Add`'s and one write event with `before` null is appended; on error nothing changes |
| FakeDatabase.NoSqlDatabaseTesting.DeleteDocument | src/provider/fake/database.fake.ts:220-239 | removes the key and appends one delete event when present; otherwise nothing changes |
| FakeDatabase.NoSqlDatabaseTesting.DeleteCollection | src/provider/fake/database.fake.ts:241-266 | removes the key and appends one delete event per child; a removed `null` leaves the tree changed, nothing emitted and an error |
| CorePaths.EnsureValidDocumentPath | src/core/no-sql-db.interface.ts:12-19 | succeeds exactly on even lengths with the input unchanged; otherwise `invalid-path` |
| CorePaths.AcceptsDocumentPaths | src/core/no-sql-db.interface.ts:15-16 | every `DocumentPath` passes unchanged |
| CorePaths.RejectsCollectionPaths | src/core/no-sql-db.interface.ts:18 | every `CollectionPath` is `invalid-path` |
| CorePaths.AcceptsEmpty | src/core/no-sql-db.interface.ts:15 | the empty path passes, though no `DocumentPath` is empty |
| CorePaths.AcceptsLongEven | src/core/no-sql-db.interface.ts:15 | even lengths above six pass, though no `DocumentPath` is that long |
| CorePaths.CollectionThenId | src/core/no-sql-db.interface.ts:21-29 | a collection path plus one segment is a document path |
| CorePaths.DocumentParent | src/core/no-sql-db.interface.ts:21-29 | a document path minus its last segment is a collection path |
| CorePaths.FamiliesDisjoint | src/core/no-sql-db.interface.ts:21-29 | no path is both a collection path and a document path |
| LegacyPaths.EnsureValidDocumentPath | src/no-sql-db.interface.ts:10-17 | succeeds exactly on even lengths with the input unchanged; otherwise `invalid-path` |
| LegacyPaths.AcceptsEmpty | src/no-sql-db.interface.ts:13 | the empty path passes |
| LegacyPaths.AgreesWithCore | src/no-sql-db.interface.ts:10-17 | the older copy answers like the current one on every input |
| LegacyPaths.FamiliesAgreeWithCore | src/no-sql-db.interface.ts:19-27 | the older path families are the current ones |
| PathUtils.ArrayToCollectionPath | src/utils/utils.ts:9-16 | succeeds exactly on odd lengths with the input unchanged; otherwise `invalid-collection-path` |
| PathUtils.AcceptsCollectionPaths | src/utils/utils.ts:15 | every `CollectionPath` passes unchanged |
| PathUtils.RejectsEmpty | src/utils/utils.ts:12-13 | the empty path is rejected |
| PathUtils.AcceptsLongOdd | src/utils/utils.ts:15 | odd lengths above five pass, though no `CollectionPath` is that long |
| PathUtils.ExactlyOneSucceeds | src/utils/utils.ts:12 | on every path exactly one of the two validators succeeds |
| CollectionsSchema.GetPath | src/schema/collections/portal-collections-schema.ts:73-110 | every collection path has odd length, passes `arrayToCollectionPath` and fails `ensureValidDocumentPath` |
| CollectionsSchema.GetPathInjective | src/schema/collections/portal-collections-schema.ts:74-109 | distinct collections or identifiers never share a path |
| CollectionsSchema.ConstantPaths | src/schema/collections/portal-collections-schema.ts:75 | the page listing and the token collection ignore their identifier and sit at the top level |
| CollectionsSchema.ConnectionsUnderInstance | src/schema/collections/portal-collections-schema.ts:81-95 | the connections path is the instances path plus the instance id and `connections` |
| CollectionsSchema.InstancesUnderPage | src/schema/collections/portal-collections-schema.ts:75-83 | the instances path is the page listing path plus the page id and `instances` |
| CollectionsSchema.SchemaNameIsIdentity | src/schema/collections/portal-collections-schema.ts:24-32 | the name map holds exactly the table's keys, each mapped to itself |
| DocumentsSchema.GetPath | src/schema/documents/portal-documents-schema.ts:92-133 | every document path has even length, passes `ensureValidDocumentPath` and fails `arrayToCollectionPath` |
| DocumentsSchema.GetPathInjective | src/schema/documents/portal-documents-schema.ts:93-132 | distinct document kinds or identifiers never share a path |
| DocumentsSchema.UserDocumentsSideBySide | src/schema/documents/portal-documents-schema.ts:113-127 | the public and private profiles of a uid differ only in the last segment; the role differs from both at the third |
| DocumentsSchema.VrInstanceInCollection | src/schema/documents/portal-documents-schema.ts:103-112 | a VR instance document is its id appended to the page's instance collection path |
| DocumentsSchema.ConnectionsInVrInstance | src/schema/documents/portal-documents-schema.ts:103-112 | the connections collection lies inside the VR instance document |
| DocumentsSchema.TokenInCollection | src/schema/documents/portal-documents-schema.ts:128-132 | a token document is its token appended to the top-level token collection |
| DocumentsSchema.DetailsUnderPage | src/schema/documents/portal-documents-schema.ts:93-102 | a page's details sit under the page's entry of the page listing |
| DocumentsSchema.SchemaNameIsIdentity | src/schema/documents/portal-documents-schema.ts:25-32 | the name map holds exactly the table's keys, each mapped to itself |

## Left out

- The simulated communication delay (`simulateCommunicationDelay`) is left out, and every method runs as one atomic step. Other calls can run during the delay in the source, and those interleavings are not captured.
- FakeDatabase.NoSqlDatabaseTesting.DeleteCollection: looks up the parent and deletes from it in one step. The source looks up `parentElement` before the delay and acts on it after (src/provider/fake/database.fake.ts:243-248). So a concurrent delete of the parent, or a collection created during the delay, behaves differently there.
- The asynchronous delivery of events through rxjs subjects is left out. The model records the emitted events, in order, in the `events` log.
- `uuidv4` is left out because it is randomness. The generated id is the `id` parameter of `AddToCollection`.
- `copyElement` is the identity on JSON values. Its aliasing effects cannot be expressed with values:
  - `addToCollection` stores the caller's object uncopied;
  - `readCollection` returns stored objects uncopied.
- `JSON.stringify` failures (cycles, `BigInt`) are left out; they cannot occur over JSON values.
- Numbers are integers; floating point, `NaN` and `undefined` data are not modelled.
- Comparisons follow JavaScript only for two strings (code-point order rather than UTF-16 code units) and for `null`, booleans and numbers among themselves. Mixed string/number coercion and comparisons of objects are taken as false.
- JsonValues.Entries: strings are sequences of code points throughout the model, so a string has one index key, and one entry, per code point. JavaScript indexes strings by UTF-16 code unit, and a character outside the Basic Multilingual Plane has two keys there. This reaches `deepMerge` with a string source (src/provider/fake/database.fake.ts:25) and the events `deleteCollection` emits for a string value (src/provider/fake/database.fake.ts:254).
- JsonValues.Prop: reads a string's index key by code point, for the reason given for JsonValues.Entries.
- Objects list their keys in insertion order. JavaScript lists integer-like keys first, in numeric order; that is not modelled.
- Built-in properties are left out: `length`, `__proto__` and inherited methods read as absent.
- Assigning a non-index key on an array is taken to change nothing. JavaScript keeps such a key as an invisible non-JSON property.
- JsonValues.DeleteKey: a deleted array element (a hole) reads as `null`, as every JSON copy of it does. JavaScript keeps the hole, which reads as `undefined` on the live tree. This matters wherever the live tree is read:
  - a second delete of the same element finds a key and emits an event, where JavaScript would not;
  - Store.ReadCollection over an array lists a hole as a document whose data is `null`, while `Object.entries` on the live array skips it. So an unconstrained read returns that `null` document, and a `where` or `array-contains` constraint fails with an unknown error instead of filtering;
  - a `where` constraint on a field that is a hole inside a document's data matches `== null` and the comparisons `null` passes by counting as `0` (such as `<= 0` or `> -1`), where `undefined` matches none of them;
  - an `array-contains null` constraint matches a field array that has a hole, where `includes(null)` does not.
- JsonValues.SetKey: writing past the end of an array fills the skipped elements with `null`. JavaScript leaves holes there, with every difference listed for JsonValues.DeleteKey: after `{d: ["a", "b"]}` receives `{"3": "x"}`, a `where "2" == null` read of the collection finds one document, where JavaScript finds none.
- The optional `constraints` argument is a sequence; an absent list is the empty list.
- FakeDatabase.NoSqlDatabaseTesting.WriteDocument: requires a non-empty path rather than the `DocumentPath` tuple types. DeleteDocument and DeleteCollection likewise require a non-empty path rather than `DocumentPath`/`CollectionPath`.
- Store.WriteThenRead: assumes that every array on the path is addressed by index keys. The model drops other keys on arrays, as said above.
- Store.AddThenRead: assumes that every array on `path ++ [id]` is addressed by index keys, the generated id included. Adding to an array under a non-index id changes nothing in the model, while the source stores the data as an invisible property of the array and reads it back (src/provider/fake/database.fake.ts:147-151, 162-169).
- Store.AddReadsCollection: same assumption as Store.AddThenRead, for the same reason.
- Store.AddAppends: same assumption as Store.AddThenRead, for the same reason; in the source `Object.entries` also lists such a property last.
- The identifier types of the schema tables are declared in files that are not part of this model. Each is modelled by the fields its `getPath` reads.
- The thin wrappers `DatabaseCollections` and `DatabaseDocuments` and the `getPortalCollection`/`getPortalDocuments` factories only join paths and forward to the store; they are not part of this model.
- Type-only files, test harnesses and configuration are not part of this model.
