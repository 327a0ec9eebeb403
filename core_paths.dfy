/**
 * The path types of the store's interface (src/core): a collection path
 * has one, three or five segments, a document path two, four or six, and
 * `ensureValidDocumentPath` checks only that the length is even.
 */
module CorePaths {
  import opened Results

  /** The lengths of the `CollectionPath` tuple types. */
  predicate IsCollectionPath(p: seq<string>)
  {
    |p| == 1 || |p| == 3 || |p| == 5
  }

  /** The lengths of the `DocumentPath` tuple types. */
  predicate IsDocumentPath(p: seq<string>)
  {
    |p| == 2 || |p| == 4 || |p| == 6
  }

  type CollectionPath = p: seq<string> | IsCollectionPath(p) witness ["c"]

  type DocumentPath = p: seq<string> | IsDocumentPath(p) witness ["c", "d"]

  /**
   * `ensureValidDocumentPath`: an even number of segments is accepted and
   * returned unchanged (cast to a document path), anything else is an
   * `invalid-path` error.
   */
  function EnsureValidDocumentPath(segments: seq<string>): (r: Result<seq<string>>)
    ensures r.Ok? <==> |segments| % 2 == 0
    ensures r.Ok? ==> r.value == segments
    ensures r.Err? ==> r.error == InvalidPath
  {
    if |segments| % 2 == 0 then Ok(segments) else Err(InvalidPath)
  }

  /** Every value of the `DocumentPath` type passes the check unchanged. */
  lemma AcceptsDocumentPaths(p: seq<string>)
    requires IsDocumentPath(p)
    ensures EnsureValidDocumentPath(p) == Ok(p)
  {
  }

  /** No value of the `CollectionPath` type passes the check. */
  lemma RejectsCollectionPaths(p: seq<string>)
    requires IsCollectionPath(p)
    ensures EnsureValidDocumentPath(p) == Err(InvalidPath)
  {
  }

  /** The empty path is accepted, although no `DocumentPath` is empty. */
  lemma AcceptsEmpty()
    ensures EnsureValidDocumentPath([]) == Ok([]) && !IsDocumentPath([])
  {
  }

  /** Even lengths beyond six are accepted, although `DocumentPath` stops at six. */
  lemma AcceptsLongEven(p: seq<string>)
    requires |p| % 2 == 0 && |p| > 6
    ensures EnsureValidDocumentPath(p) == Ok(p) && !IsDocumentPath(p)
  {
  }

  /** One more segment after a collection path names a document in it. */
  lemma CollectionThenId(p: seq<string>, id: string)
    requires IsCollectionPath(p)
    ensures IsDocumentPath(p + [id])
  {
  }

  /** A document path without its last segment is the collection holding it. */
  lemma DocumentParent(p: seq<string>)
    requires IsDocumentPath(p)
    ensures IsCollectionPath(p[..|p| - 1])
  {
  }

  /** The two families never overlap. */
  lemma FamiliesDisjoint(p: seq<string>)
    ensures !(IsCollectionPath(p) && IsDocumentPath(p))
  {
  }
}
