/**
 * The older copy of the store's interface (src/no-sql-db.interface.ts),
 * which the schema tables still use: the same path types and the same
 * `ensureValidDocumentPath`, proved to agree with the current copy.
 */
module LegacyPaths {
  import opened Results
  import CorePaths

  /** The lengths of the older `CollectionPath` tuple types. */
  predicate IsCollectionPath(p: seq<string>)
  {
    |p| == 1 || |p| == 3 || |p| == 5
  }

  /** The lengths of the older `DocumentPath` tuple types. */
  predicate IsDocumentPath(p: seq<string>)
  {
    |p| == 2 || |p| == 4 || |p| == 6
  }

  type CollectionPath = p: seq<string> | IsCollectionPath(p) witness ["c"]

  type DocumentPath = p: seq<string> | IsDocumentPath(p) witness ["c", "d"]

  /** The older `ensureValidDocumentPath`: even lengths pass unchanged, odd ones are `invalid-path`. */
  function EnsureValidDocumentPath(segments: seq<string>): (r: Result<seq<string>>)
    ensures r.Ok? <==> |segments| % 2 == 0
    ensures r.Ok? ==> r.value == segments
    ensures r.Err? ==> r.error == InvalidPath
  {
    if |segments| % 2 == 0 then Ok(segments) else Err(InvalidPath)
  }

  /** The empty path is accepted. */
  lemma AcceptsEmpty()
    ensures EnsureValidDocumentPath([]) == Ok([]) && !IsDocumentPath([])
  {
  }

  /** Both copies give the same answer on every input. */
  lemma AgreesWithCore(segments: seq<string>)
    ensures EnsureValidDocumentPath(segments) == CorePaths.EnsureValidDocumentPath(segments)
  {
  }

  /** Both copies declare the same path families. */
  lemma FamiliesAgreeWithCore(p: seq<string>)
    ensures IsCollectionPath(p) <==> CorePaths.IsCollectionPath(p)
    ensures IsDocumentPath(p) <==> CorePaths.IsDocumentPath(p)
  {
  }
}
