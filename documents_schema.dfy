/**
 * The portal's document table (`portalDocumentsSchemaPaths`): for each
 * named document kind, the path of the document built from the fields of
 * its identifier. Each identifier is modelled by the fields `getPath` reads.
 */
module DocumentsSchema {
  import opened Results
  import LegacyPaths
  import PathUtils
  import CollectionsSchema

  /** The keys of the document table. */
  datatype DocumentName =
    | PortalPageDetails
    | PortalPageVrInstance
    | UserRole
    | UserPrivateProfile
    | UserPublicProfile
    | ResetPasswordToken

  /** A document kind of the table together with its identifier. */
  datatype DocumentRef =
    | PortalPageDetailsRef(portalPageId: string, languageCode: string)
    | PortalPageVrInstanceRef(portalPageId: string, vrInstanceId: string)
    | UserRoleRef(uid: string)
    | UserPrivateProfileRef(uid: string)
    | UserPublicProfileRef(uid: string)
    | ResetPasswordTokenRef(passwordToken: string)

  /** The table entry a reference selects. */
  function NameOf(d: DocumentRef): DocumentName
  {
    match d
    case PortalPageDetailsRef(_, _) => PortalPageDetails
    case PortalPageVrInstanceRef(_, _) => PortalPageVrInstance
    case UserRoleRef(_) => UserRole
    case UserPrivateProfileRef(_) => UserPrivateProfile
    case UserPublicProfileRef(_) => UserPublicProfile
    case ResetPasswordTokenRef(_) => ResetPasswordToken
  }

  /** The key under which each document kind is declared. */
  function Key(n: DocumentName): string
  {
    match n
    case PortalPageDetails => "portalPageDetails"
    case PortalPageVrInstance => "portalPageVrInstance"
    case UserRole => "userRole"
    case UserPrivateProfile => "userPrivateProfile"
    case UserPublicProfile => "userPublicProfile"
    case ResetPasswordToken => "resetPasswordToken"
  }

  /** `PortalDocumentSchemaName`: every key maps to itself. */
  const PortalDocumentSchemaName: map<string, string> := map[
    "portalPageDetails" := "portalPageDetails",
    "portalPageVrInstance" := "portalPageVrInstance",
    "userRole" := "userRole",
    "userPrivateProfile" := "userPrivateProfile",
    "userPublicProfile" := "userPublicProfile",
    "resetPasswordToken" := "resetPasswordToken"
  ]

  /** The name map lists exactly the table's keys, each mapped to itself. */
  lemma SchemaNameIsIdentity(n: DocumentName, k: string)
    ensures Key(n) in PortalDocumentSchemaName && PortalDocumentSchemaName[Key(n)] == Key(n)
    ensures k in PortalDocumentSchemaName ==> PortalDocumentSchemaName[k] == k
    ensures k in PortalDocumentSchemaName <==> exists m :: Key(m) == k
  {
    if k in PortalDocumentSchemaName {
      var m :=
        if k == "portalPageDetails" then PortalPageDetails
        else if k == "portalPageVrInstance" then PortalPageVrInstance
        else if k == "userRole" then UserRole
        else if k == "userPrivateProfile" then UserPrivateProfile
        else if k == "userPublicProfile" then UserPublicProfile
        else ResetPasswordToken;
      assert Key(m) == k;
    }
  }

  /** `getPath` of each entry; every result is a document path of even length. */
  function GetPath(d: DocumentRef): (r: LegacyPaths.DocumentPath)
    ensures |r| % 2 == 0
    ensures LegacyPaths.EnsureValidDocumentPath(r) == Ok(r)
    ensures PathUtils.ArrayToCollectionPath(r) == Err(InvalidCollectionPath)
  {
    match d
    case PortalPageDetailsRef(portalPageId, languageCode) =>
      ["portalPages", portalPageId, "language", languageCode]
    case PortalPageVrInstanceRef(portalPageId, vrInstanceId) =>
      ["portalPages", portalPageId, "instances", vrInstanceId]
    case UserRoleRef(uid) => ["users", uid, "role", "data"]
    case UserPublicProfileRef(uid) => ["users", uid, "profile", "public"]
    case UserPrivateProfileRef(uid) => ["users", uid, "profile", "private"]
    case ResetPasswordTokenRef(passwordToken) => ["passwordResetToken", passwordToken]
  }

  /** Distinct references give distinct paths: no two documents of the table share storage. */
  lemma GetPathInjective(a: DocumentRef, b: DocumentRef)
    requires GetPath(a) == GetPath(b)
    ensures a == b
  {
    var p := GetPath(a);
    assert p[0] == GetPath(b)[0] && p[1] == GetPath(b)[1] && |p| == |GetPath(b)|;
    if |p| == 4 {
      assert p[2] == GetPath(b)[2] && p[3] == GetPath(b)[3];
    }
  }

  /**
   * For one uid, the public and the private profile differ only in the last
   * segment, and the role document differs from both at the third.
   */
  lemma UserDocumentsSideBySide(uid: string)
    ensures GetPath(UserPublicProfileRef(uid))[..3] == GetPath(UserPrivateProfileRef(uid))[..3]
    ensures GetPath(UserPublicProfileRef(uid))[3] != GetPath(UserPrivateProfileRef(uid))[3]
    ensures GetPath(UserRoleRef(uid))[..2] == GetPath(UserPublicProfileRef(uid))[..2]
    ensures GetPath(UserRoleRef(uid))[2] != GetPath(UserPublicProfileRef(uid))[2]
    ensures GetPath(UserRoleRef(uid))[2] != GetPath(UserPrivateProfileRef(uid))[2]
  {
    assert "public"[1] != "private"[1];
    assert "role"[0] != "profile"[0];
  }

  /** A VR instance document is the instance's id inside its page's instance collection. */
  lemma VrInstanceInCollection(portalPageId: string, vrInstanceId: string)
    ensures GetPath(PortalPageVrInstanceRef(portalPageId, vrInstanceId))
         == CollectionsSchema.GetPath(CollectionsSchema.PortalPageVrInstanceRef(portalPageId)) + [vrInstanceId]
  {
  }

  /** A VR instance's connection collection sits inside the instance's document. */
  lemma ConnectionsInVrInstance(portalPageId: string, vrInstanceId: string)
    ensures CollectionsSchema.GetPath(CollectionsSchema.PortalPageVrConnectionRef(portalPageId, vrInstanceId))
         == GetPath(PortalPageVrInstanceRef(portalPageId, vrInstanceId)) + ["connections"]
  {
  }

  /** A reset-password token document is the token's id inside the top-level token collection. */
  lemma TokenInCollection(passwordToken: string)
    ensures GetPath(ResetPasswordTokenRef(passwordToken))
         == CollectionsSchema.GetPath(CollectionsSchema.PasswordResetTokenRef) + [passwordToken]
  {
  }

  /** A page's details in one language sit under that page's entry of the page listing. */
  lemma DetailsUnderPage(portalPageId: string, languageCode: string)
    ensures GetPath(PortalPageDetailsRef(portalPageId, languageCode))
         == CollectionsSchema.GetPath(CollectionsSchema.PortalPageListingRef) + [portalPageId, "language", languageCode]
  {
  }
}
