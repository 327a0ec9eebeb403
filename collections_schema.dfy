/**
 * The portal's collection table (`portalColletionsSchemaPaths`): for each
 * named collection, the path of the collection built from the fields of
 * its identifier. Each identifier is modelled by the fields `getPath`
 * reads; the collections whose identifier is not required carry none.
 */
module CollectionsSchema {
  import opened Results
  import LegacyPaths
  import PathUtils

  /** The keys of the collection table. */
  datatype CollectionName =
    | PortalPageListing
    | PortalPageVrInstance
    | PortalPageVrConnection
    | RateLimit
    | Testing
    | PasswordResetToken

  /** A collection of the table together with its identifier. */
  datatype CollectionRef =
    | PortalPageListingRef
    | PortalPageVrInstanceRef(portalPageId: string)
    | PortalPageVrConnectionRef(portalPageId: string, vrInstanceId: string)
    | RateLimitRef(id: string)
    | TestingRef(id: string)
    | PasswordResetTokenRef

  /** The table entry a reference selects. */
  function NameOf(c: CollectionRef): CollectionName
  {
    match c
    case PortalPageListingRef => PortalPageListing
    case PortalPageVrInstanceRef(_) => PortalPageVrInstance
    case PortalPageVrConnectionRef(_, _) => PortalPageVrConnection
    case RateLimitRef(_) => RateLimit
    case TestingRef(_) => Testing
    case PasswordResetTokenRef => PasswordResetToken
  }

  /** The key under which each collection is declared. */
  function Key(n: CollectionName): string
  {
    match n
    case PortalPageListing => "portalPageListing"
    case PortalPageVrInstance => "portalPageVrInstance"
    case PortalPageVrConnection => "portalPageVrConnection"
    case RateLimit => "rateLimit"
    case Testing => "testing"
    case PasswordResetToken => "passwordResetToken"
  }

  /** `PortalCollectionsSchemaName`: every key maps to itself. */
  const PortalCollectionsSchemaName: map<string, string> := map[
    "portalPageListing" := "portalPageListing",
    "portalPageVrInstance" := "portalPageVrInstance",
    "portalPageVrConnection" := "portalPageVrConnection",
    "rateLimit" := "rateLimit",
    "testing" := "testing",
    "passwordResetToken" := "passwordResetToken"
  ]

  /** The name map lists exactly the table's keys, each mapped to itself. */
  lemma SchemaNameIsIdentity(n: CollectionName, k: string)
    ensures Key(n) in PortalCollectionsSchemaName && PortalCollectionsSchemaName[Key(n)] == Key(n)
    ensures k in PortalCollectionsSchemaName ==> PortalCollectionsSchemaName[k] == k
    ensures k in PortalCollectionsSchemaName <==> exists m :: Key(m) == k
  {
    if k in PortalCollectionsSchemaName {
      var m :=
        if k == "portalPageListing" then PortalPageListing
        else if k == "portalPageVrInstance" then PortalPageVrInstance
        else if k == "portalPageVrConnection" then PortalPageVrConnection
        else if k == "rateLimit" then RateLimit
        else if k == "testing" then Testing
        else PasswordResetToken;
      assert Key(m) == k;
    }
  }

  /** `getPath` of each entry; every result is a collection path of odd length. */
  function GetPath(c: CollectionRef): (r: LegacyPaths.CollectionPath)
    ensures |r| % 2 == 1
    ensures PathUtils.ArrayToCollectionPath(r) == Ok(r)
    ensures LegacyPaths.EnsureValidDocumentPath(r) == Err(InvalidPath)
  {
    match c
    case PortalPageListingRef => ["portalPages"]
    case PortalPageVrInstanceRef(portalPageId) => ["portalPages", portalPageId, "instances"]
    case PortalPageVrConnectionRef(portalPageId, vrInstanceId) =>
      ["portalPages", portalPageId, "instances", vrInstanceId, "connections"]
    case RateLimitRef(id) => ["rateLimit", id, "requests"]
    case TestingRef(id) => ["testing", "test-collection", id]
    case PasswordResetTokenRef => ["passwordResetToken"]
  }

  /** Distinct references give distinct paths: no two collections of the table share storage. */
  lemma GetPathInjective(a: CollectionRef, b: CollectionRef)
    requires GetPath(a) == GetPath(b)
    ensures a == b
  {
    var p := GetPath(a);
    assert p[0] == GetPath(b)[0] && |p| == |GetPath(b)|;
    if |p| >= 3 {
      assert p[1] == GetPath(b)[1] && p[2] == GetPath(b)[2];
    }
    if |p| == 5 {
      assert p[3] == GetPath(b)[3];
    }
  }

  /** The collections without an identifier sit at a constant, top-level path. */
  lemma ConstantPaths()
    ensures GetPath(PortalPageListingRef) == ["portalPages"]
    ensures GetPath(PasswordResetTokenRef) == ["passwordResetToken"]
  {
  }

  /** A portal page's VR connections sit under one VR instance of that page. */
  lemma ConnectionsUnderInstance(portalPageId: string, vrInstanceId: string)
    ensures GetPath(PortalPageVrConnectionRef(portalPageId, vrInstanceId))
         == GetPath(PortalPageVrInstanceRef(portalPageId)) + [vrInstanceId, "connections"]
  {
  }

  /** A portal page's VR instances sit under that page's entry of the page listing. */
  lemma InstancesUnderPage(portalPageId: string)
    ensures GetPath(PortalPageVrInstanceRef(portalPageId))
         == GetPath(PortalPageListingRef) + [portalPageId, "instances"]
  {
  }
}
