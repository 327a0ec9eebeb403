/** `arrayToCollectionPath` (src/utils/utils.ts), the counterpart of `ensureValidDocumentPath`. */
module PathUtils {
  import opened Results
  import CorePaths

  /**
   * `arrayToCollectionPath`: an odd number of segments is accepted and
   * returned unchanged (cast to a collection path), an even number is an
   * `invalid-collection-path` error.
   */
  function ArrayToCollectionPath(segments: seq<string>): (r: Result<seq<string>>)
    ensures r.Ok? <==> |segments| % 2 == 1
    ensures r.Ok? ==> r.value == segments
    ensures r.Err? ==> r.error == InvalidCollectionPath
  {
    if |segments| % 2 == 0 then Err(InvalidCollectionPath) else Ok(segments)
  }

  /** Every value of the `CollectionPath` type passes unchanged. */
  lemma AcceptsCollectionPaths(p: seq<string>)
    requires CorePaths.IsCollectionPath(p)
    ensures ArrayToCollectionPath(p) == Ok(p)
  {
  }

  /** The empty path is rejected. */
  lemma RejectsEmpty()
    ensures ArrayToCollectionPath([]) == Err(InvalidCollectionPath)
  {
  }

  /** Odd lengths beyond five are accepted, although `CollectionPath` stops at five. */
  lemma AcceptsLongOdd(p: seq<string>)
    requires |p| % 2 == 1 && |p| > 5
    ensures ArrayToCollectionPath(p) == Ok(p) && !CorePaths.IsCollectionPath(p)
  {
  }

  /** On every path exactly one of the two validators succeeds. */
  lemma ExactlyOneSucceeds(p: seq<string>)
    ensures ArrayToCollectionPath(p).Ok? != CorePaths.EnsureValidDocumentPath(p).Ok?
  {
  }
}
