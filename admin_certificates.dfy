/** The rules of the certificate administration endpoints: validation of a
    certificate definition, the clearance gates of generate, put, delete and
    edit, the grouping of an imported certificate collection into one primary
    and its secondaries, and the key sets that delete, purge and listing
    select. Certificates are records; X.509 parsing, export and the cluster
    writes stay outside. */
module AdminCertificates {
  import opened Wrappers
  import opened Text

  datatype SecurityClearance = UnauthenticatedClients | ClusterAdmin | ClusterNode | Operator | ValidUser

  /** ReadWrite and Admin are the accesses a permission may grant; any other
      value of the enum is carried as its number. */
  datatype DatabaseAccess = ReadWrite | Admin | OtherAccess(value: int)

  /** A stored or requested certificate definition. Null strings and
      collections are None; CollectionPrimaryKey is only ever tested with
      IsNullOrEmpty, so "" stands for both null and empty. Permissions are
      the dictionary's pairs in enumeration order. */
  datatype CertificateDefinition = CertificateDefinition(
    name: Option<string>,
    certificate: Option<string>,
    permissions: Option<seq<(string, DatabaseAccess)>>,
    securityClearance: SecurityClearance,
    thumbprint: string,
    publicKeyPinningHash: string,
    notAfter: Option<int>,
    password: Option<string>,
    collectionPrimaryKey: string,
    collectionSecondaryKeys: seq<string>)

  /** What the handler reads from one X.509 certificate; `exported` is its
      Base64 DER export, without the private key. */
  datatype X509Certificate = X509Certificate(
    thumbprint: string, issuer: string, subject: string, notAfter: int,
    exported: string, pinningHash: string)

  /** Why a definition is rejected. */
  datatype ValidationError =
    | NameRequired
    | ExpirationNotInFuture
    | PermissionsRequired
    | EmptyDatabaseName
    | InvalidDatabaseName(message: string)
    | InvalidAccess(database: string, access: DatabaseAccess)

  /** The exceptions the endpoints throw. */
  datatype HandlerError =
    | Invalid(reason: ValidationError)
    | LowerClearance
    | CertificateRequired
    | NotInCluster
    | CurrentClientCertificate
    | SecondaryCertificate(primaryKey: string)
    | SameAsServerCertificate(thumbprint: string)

  // ---------------------------------------------------------------------
  // Validation
  // ---------------------------------------------------------------------

  /** The problem with one permission entry, if any. `nameError` is
      ResourceNameValidator.IsValidResourceName: None for a valid name, the
      error message otherwise. */
  function PermissionError(database: string, access: DatabaseAccess, nameError: string -> Option<string>): Option<ValidationError> {
    if IsNullOrWhiteSpace(Some(database)) then Some(EmptyDatabaseName)
    else if nameError(database).Some? then Some(InvalidDatabaseName(nameError(database).value))
    else if access != ReadWrite && access != Admin then Some(InvalidAccess(database, access))
    else None
  }

  /** The error of the first bad entry. */
  function FirstPermissionError(perms: seq<(string, DatabaseAccess)>, nameError: string -> Option<string>): (r: Option<ValidationError>)
    ensures r.None? <==> forall i :: 0 <= i < |perms| ==> PermissionError(perms[i].0, perms[i].1, nameError).None?
  {
    if perms == [] then None
    else
      match PermissionError(perms[0].0, perms[0].1, nameError)
      case Some(e) => Some(e)
      case None =>
        var r := FirstPermissionError(perms[1..], nameError);
        assert forall i :: 1 <= i < |perms| ==> perms[1..][i - 1] == perms[i];
        r
  }

  lemma {:induction false} FirstPermissionErrorAt(perms: seq<(string, DatabaseAccess)>, nameError: string -> Option<string>, i: nat)
    requires i < |perms| && PermissionError(perms[i].0, perms[i].1, nameError).Some?
    requires forall j :: 0 <= j < i ==> PermissionError(perms[j].0, perms[j].1, nameError).None?
    ensures FirstPermissionError(perms, nameError) == PermissionError(perms[i].0, perms[i].1, nameError)
  {
    if i > 0 {
      assert perms[1..][i - 1] == perms[i];
      FirstPermissionErrorAt(perms[1..], nameError, i - 1);
    }
  }

  /** What ValidatePermissions decides. */
  function PermissionsOutcome(permissions: Option<seq<(string, DatabaseAccess)>>, nameError: string -> Option<string>): Outcome<ValidationError> {
    match permissions
    case None => Fail(PermissionsRequired)
    case Some(perms) =>
      match FirstPermissionError(perms, nameError)
      case None => Pass
      case Some(e) => Fail(e)
  }

  /** ValidatePermissions: stops at the first bad entry. */
  method ValidatePermissions(certificate: CertificateDefinition, nameError: string -> Option<string>)
    returns (r: Outcome<ValidationError>)
    ensures r == PermissionsOutcome(certificate.permissions, nameError)
  {
    if certificate.permissions.None? {
      return Fail(PermissionsRequired);
    }
    var perms := certificate.permissions.value;
    for i := 0 to |perms|
      invariant forall j :: 0 <= j < i ==> PermissionError(perms[j].0, perms[j].1, nameError).None?
    {
      var kvp := perms[i];
      if IsNullOrWhiteSpace(Some(kvp.0)) {
        FirstPermissionErrorAt(perms, nameError, i);
        return Fail(EmptyDatabaseName);
      }
      var errorMessage := nameError(kvp.0);
      if errorMessage.Some? {
        FirstPermissionErrorAt(perms, nameError, i);
        return Fail(InvalidDatabaseName(errorMessage.value));
      }
      if kvp.1 != ReadWrite && kvp.1 != Admin {
        FirstPermissionErrorAt(perms, nameError, i);
        return Fail(InvalidAccess(kvp.0, kvp.1));
      }
    }
    return Pass;
  }

  /** What ValidateCertificateDefinition decides; `today` is the current
      date. */
  function DefinitionOutcome(certificate: CertificateDefinition, today: int, nameError: string -> Option<string>): Outcome<ValidationError> {
    if IsNullOrWhiteSpace(certificate.name) then Fail(NameRequired)
    else if certificate.notAfter.Some? && certificate.notAfter.value <= today then Fail(ExpirationNotInFuture)
    else PermissionsOutcome(certificate.permissions, nameError)
  }

  /** ValidateCertificateDefinition. */
  method ValidateCertificateDefinition(certificate: CertificateDefinition, today: int, nameError: string -> Option<string>)
    returns (r: Outcome<ValidationError>)
    ensures r == DefinitionOutcome(certificate, today, nameError)
  {
    if IsNullOrWhiteSpace(certificate.name) {
      return Fail(NameRequired);
    }
    if certificate.notAfter.Some? && certificate.notAfter.value <= today {
      return Fail(ExpirationNotInFuture);
    }
    r := ValidatePermissions(certificate, nameError);
  }

  /** One permission entry is acceptable. */
  predicate GoodPermission(entry: (string, DatabaseAccess), nameError: string -> Option<string>) {
    !IsNullOrWhiteSpace(Some(entry.0)) && nameError(entry.0).None? && (entry.1 == ReadWrite || entry.1 == Admin)
  }

  /** A definition is accepted exactly when its name is not blank, its
      expiry (if any) is after today, and its permissions are present and
      every entry names a valid database with ReadWrite or Admin access. */
  lemma DefinitionAcceptedIff(certificate: CertificateDefinition, today: int, nameError: string -> Option<string>)
    ensures DefinitionOutcome(certificate, today, nameError).Pass? <==>
      && !IsNullOrWhiteSpace(certificate.name)
      && (certificate.notAfter.None? || certificate.notAfter.value > today)
      && certificate.permissions.Some?
      && forall i :: 0 <= i < |certificate.permissions.value| ==>
        GoodPermission(certificate.permissions.value[i], nameError)
  {
    if certificate.permissions.Some? {
      var perms := certificate.permissions.value;
      assert forall i :: 0 <= i < |perms| ==>
        (GoodPermission(perms[i], nameError) <==> PermissionError(perms[i].0, perms[i].1, nameError).None?);
    }
  }

  // ---------------------------------------------------------------------
  // Clearance gates
  // ---------------------------------------------------------------------

  /** The clearances only a cluster admin may hand out or touch. */
  predicate IsClusterLevel(c: SecurityClearance) {
    c == ClusterAdmin || c == ClusterNode
  }

  /** The clearance check of Generate: only Cluster Admin is reserved. */
  function GenerateClearanceCheck(requested: SecurityClearance, isClusterAdmin: bool): (r: Outcome<HandlerError>)
    ensures r.Fail? ==> r.error == LowerClearance
    ensures r.Fail? <==> requested == ClusterAdmin && !isClusterAdmin
  {
    if requested == ClusterAdmin && !isClusterAdmin then Fail(LowerClearance) else Pass
  }

  /** The checks Put makes before it decodes the certificate. */
  method PutChecks(certificate: CertificateDefinition, today: int, nameError: string -> Option<string>, isClusterAdmin: bool)
    returns (r: Outcome<HandlerError>)
    ensures DefinitionOutcome(certificate, today, nameError).Fail? ==>
      r == Fail(Invalid(DefinitionOutcome(certificate, today, nameError).error))
    ensures DefinitionOutcome(certificate, today, nameError).Pass? && IsClusterLevel(certificate.securityClearance) && !isClusterAdmin ==>
      r == Fail(LowerClearance)
    ensures r.Pass? <==>
      && DefinitionOutcome(certificate, today, nameError).Pass?
      && (!IsClusterLevel(certificate.securityClearance) || isClusterAdmin)
      && !IsNullOrWhiteSpace(certificate.certificate)
  {
    var valid := ValidateCertificateDefinition(certificate, today, nameError);
    if valid.Fail? {
      return Fail(Invalid(valid.error));
    }
    if (certificate.securityClearance == ClusterAdmin || certificate.securityClearance == ClusterNode) && !isClusterAdmin {
      return Fail(LowerClearance);
    }
    if IsNullOrWhiteSpace(certificate.certificate) {
      return Fail(CertificateRequired);
    }
    return Pass;
  }

  /** Delete: refuses the caller's own certificate, a cluster-level one
      unless the caller is cluster admin, and a secondary; otherwise the keys
      are the thumbprint followed by the definition's secondary keys.
      `definition` is what the cluster holds under the thumbprint. */
  method DeleteKeys(thumbprint: string, clientThumbprint: Option<string>, definition: Option<CertificateDefinition>, isClusterAdmin: bool)
    returns (r: Result<seq<string>, HandlerError>)
    ensures clientThumbprint == Some(thumbprint) ==> r == Failure(CurrentClientCertificate)
    ensures (clientThumbprint != Some(thumbprint) && definition.Some?
      && IsClusterLevel(definition.value.securityClearance) && !isClusterAdmin) ==> r == Failure(LowerClearance)
    ensures r.Success? <==>
      && clientThumbprint != Some(thumbprint)
      && (definition.None? || ((!IsClusterLevel(definition.value.securityClearance) || isClusterAdmin)
                               && definition.value.collectionPrimaryKey == ""))
    ensures r.Success? ==>
      r.value == [thumbprint] + (if definition.Some? then definition.value.collectionSecondaryKeys else [])
  {
    if clientThumbprint.Some? && clientThumbprint.value == thumbprint {
      return Failure(CurrentClientCertificate);
    }
    if definition.Some? && (definition.value.securityClearance == ClusterAdmin || definition.value.securityClearance == ClusterNode)
      && !isClusterAdmin
    {
      return Failure(LowerClearance);
    }
    if definition.Some? && definition.value.collectionPrimaryKey != "" {
      return Failure(SecondaryCertificate(definition.value.collectionPrimaryKey));
    }
    var keysToDelete := [thumbprint];
    if definition.Some? {
      keysToDelete := keysToDelete + definition.value.collectionSecondaryKeys;
    }
    return Success(keysToDelete);
  }

  /** Edit: validates the request, requires the certificate to exist, keeps
      both clearance gates, and stores the existing certificate, thumbprint,
      pinning hash and expiry under the requested name, permissions and
      clearance. The new definition carries no password and no collection
      links. */
  method Edit(newCertificate: CertificateDefinition, existing: Option<CertificateDefinition>, today: int,
              nameError: string -> Option<string>, isClusterAdmin: bool)
    returns (r: Result<CertificateDefinition, HandlerError>)
    ensures DefinitionOutcome(newCertificate, today, nameError).Fail? ==>
      r == Failure(Invalid(DefinitionOutcome(newCertificate, today, nameError).error))
    ensures DefinitionOutcome(newCertificate, today, nameError).Pass? && existing.None? ==> r == Failure(NotInCluster)
    ensures r.Success? <==>
      && DefinitionOutcome(newCertificate, today, nameError).Pass?
      && existing.Some?
      && (isClusterAdmin || (!IsClusterLevel(existing.value.securityClearance) && !IsClusterLevel(newCertificate.securityClearance)))
    ensures r.Success? ==> r.value == CertificateDefinition(
      newCertificate.name, existing.value.certificate, newCertificate.permissions, newCertificate.securityClearance,
      existing.value.thumbprint, existing.value.publicKeyPinningHash, existing.value.notAfter, None, "", [])
  {
    var valid := ValidateCertificateDefinition(newCertificate, today, nameError);
    if valid.Fail? {
      return Failure(Invalid(valid.error));
    }
    if existing.None? {
      return Failure(NotInCluster);
    }
    var existingCertificate := existing.value;
    if (existingCertificate.securityClearance == ClusterAdmin || existingCertificate.securityClearance == ClusterNode) && !isClusterAdmin {
      return Failure(LowerClearance);
    }
    if (newCertificate.securityClearance == ClusterAdmin || newCertificate.securityClearance == ClusterNode) && !isClusterAdmin {
      return Failure(LowerClearance);
    }
    return Success(CertificateDefinition(
      newCertificate.name, existingCertificate.certificate, newCertificate.permissions, newCertificate.securityClearance,
      existingCertificate.thumbprint, existingCertificate.publicKeyPinningHash, existingCertificate.notAfter, None, "", []));
  }

  // ---------------------------------------------------------------------
  // Importing a certificate collection
  // ---------------------------------------------------------------------

  /** The issuers of the members that are not self-signed. */
  function Issuers(collection: seq<X509Certificate>): set<string> {
    if collection == [] then {}
    else
      var x := collection[|collection| - 1];
      Issuers(collection[..|collection| - 1]) + (if x.issuer != x.subject then {x.issuer} else {})
  }

  lemma {:induction false} IssuersMembers(collection: seq<X509Certificate>, s: string)
    ensures s in Issuers(collection) <==>
      exists i :: 0 <= i < |collection| && collection[i].issuer != collection[i].subject && collection[i].issuer == s
  {
    if collection != [] {
      var init := collection[..|collection| - 1];
      IssuersMembers(init, s);
      assert forall i :: 0 <= i < |init| ==> init[i] == collection[i];
    }
  }

  /** The members that are stored: those that issue no other member. */
  function Kept(collection: seq<X509Certificate>, issuers: set<string>): (k: seq<X509Certificate>)
    ensures |k| <= |collection|
  {
    if collection == [] then []
    else
      var x := collection[|collection| - 1];
      Kept(collection[..|collection| - 1], issuers) + (if x.subject in issuers then [] else [x])
  }

  lemma {:induction false} KeptMembers(collection: seq<X509Certificate>, issuers: set<string>, x: X509Certificate)
    ensures x in Kept(collection, issuers) <==> x in collection && x.subject !in issuers
  {
    if collection != [] {
      var init := collection[..|collection| - 1];
      KeptMembers(init, issuers, x);
      assert collection == init + [collection[|collection| - 1]];
    }
  }

  lemma {:induction false} KeptPrefix(collection: seq<X509Certificate>, issuers: set<string>, k: nat)
    requires k <= |collection|
    ensures Kept(collection[..k], issuers) <= Kept(collection, issuers)
    decreases |collection| - k
  {
    if k < |collection| {
      KeptPrefix(collection, issuers, k + 1);
      assert collection[..k + 1][..k] == collection[..k];
    } else {
      assert collection[..k] == collection;
    }
  }

  /** The thumbprints the primary lists: every stored member's thumbprint
      that differs from the primary's, in collection order. */
  function SecondaryKeys(collection: seq<X509Certificate>, issuers: set<string>, firstKey: string): seq<string> {
    if collection == [] then []
    else
      var x := collection[|collection| - 1];
      SecondaryKeys(collection[..|collection| - 1], issuers, firstKey)
        + (if x.subject in issuers || x.thumbprint == firstKey then [] else [x.thumbprint])
  }

  lemma {:induction false} SecondaryKeysMembers(collection: seq<X509Certificate>, issuers: set<string>, firstKey: string, key: string)
    ensures key in SecondaryKeys(collection, issuers, firstKey) <==>
      key != firstKey && exists i :: 0 <= i < |collection| && collection[i].subject !in issuers && collection[i].thumbprint == key
  {
    if collection != [] {
      var init := collection[..|collection| - 1];
      SecondaryKeysMembers(init, issuers, firstKey, key);
      assert forall i :: 0 <= i < |init| ==> init[i] == collection[i];
    }
  }

  /** A stored member's definition before it is linked: name, permissions,
      clearance and password from the request, the rest from the member. */
  function Imported(certDef: CertificateDefinition, x: X509Certificate): CertificateDefinition {
    CertificateDefinition(certDef.name, Some(x.exported), certDef.permissions, certDef.securityClearance,
      x.thumbprint, x.pinningHash, Some(x.notAfter), certDef.password, "", [])
  }

  /** The definitions the import stores, in order: the first kept member is
      the primary and lists the others, every later one points at it. */
  function CollectionDefinitions(certDef: CertificateDefinition, collection: seq<X509Certificate>): (s: seq<CertificateDefinition>)
    ensures |s| == |Kept(collection, Issuers(collection))|
  {
    var issuers := Issuers(collection);
    var kept := Kept(collection, issuers);
    seq(|kept|, i requires 0 <= i < |kept| =>
      if i == 0 then Imported(certDef, kept[0]).(collectionSecondaryKeys := SecondaryKeys(collection, issuers, kept[0].thumbprint))
      else Imported(certDef, kept[i]).(collectionPrimaryKey := kept[0].thumbprint))
  }

  lemma CollectionAt(certDef: CertificateDefinition, collection: seq<X509Certificate>, i: nat)
    requires i < |Kept(collection, Issuers(collection))|
    ensures var issuers := Issuers(collection);
      var kept := Kept(collection, issuers);
      CollectionDefinitions(certDef, collection)[i] ==
        if i == 0 then Imported(certDef, kept[0]).(collectionSecondaryKeys := SecondaryKeys(collection, issuers, kept[0].thumbprint))
        else Imported(certDef, kept[i]).(collectionPrimaryKey := kept[0].thumbprint)
  {
  }

  /** Only members that issue no other member are stored, each under its own
      thumbprint and expiry and with the request's name, permissions,
      clearance and password; and every such member is stored. */
  lemma StoredAreNonIssuers(certDef: CertificateDefinition, collection: seq<X509Certificate>)
    ensures var s := CollectionDefinitions(certDef, collection);
      var issuers := Issuers(collection);
      && (forall i :: 0 <= i < |s| ==>
          && s[i].name == certDef.name && s[i].permissions == certDef.permissions
          && s[i].securityClearance == certDef.securityClearance && s[i].password == certDef.password
          && (exists j :: (0 <= j < |collection| && collection[j].subject !in issuers
             && s[i].thumbprint == collection[j].thumbprint && s[i].notAfter == Some(collection[j].notAfter))))
      && (forall j :: 0 <= j < |collection| && collection[j].subject !in issuers ==>
          exists i :: 0 <= i < |s| && s[i].thumbprint == collection[j].thumbprint)
  {
    var s := CollectionDefinitions(certDef, collection);
    var issuers := Issuers(collection);
    var kept := Kept(collection, issuers);
    forall i | 0 <= i < |s|
      ensures s[i].name == certDef.name && s[i].permissions == certDef.permissions
        && s[i].securityClearance == certDef.securityClearance && s[i].password == certDef.password
      ensures exists j :: (0 <= j < |collection| && collection[j].subject !in issuers
        && s[i].thumbprint == collection[j].thumbprint && s[i].notAfter == Some(collection[j].notAfter))
    {
      CollectionAt(certDef, collection, i);
      KeptMembers(collection, issuers, kept[i]);
      var j :| 0 <= j < |collection| && collection[j] == kept[i];
    }
    forall j | 0 <= j < |collection| && collection[j].subject !in issuers
      ensures exists i :: 0 <= i < |s| && s[i].thumbprint == collection[j].thumbprint
    {
      KeptMembers(collection, issuers, collection[j]);
      var i :| 0 <= i < |kept| && kept[i] == collection[j];
      CollectionAt(certDef, collection, i);
    }
  }

  /** The primary is the first stored definition; it has no primary key and
      its secondary keys are exactly the thumbprints of the other stored
      members that differ from its own. */
  lemma PrimaryListsOthers(certDef: CertificateDefinition, collection: seq<X509Certificate>, key: string)
    requires CollectionDefinitions(certDef, collection) != []
    ensures var s := CollectionDefinitions(certDef, collection);
      var issuers := Issuers(collection);
      && s[0].collectionPrimaryKey == ""
      && (key in s[0].collectionSecondaryKeys <==>
         key != s[0].thumbprint
         && exists j :: 0 <= j < |collection| && collection[j].subject !in issuers && collection[j].thumbprint == key)
  {
    var issuers := Issuers(collection);
    var kept := Kept(collection, issuers);
    CollectionAt(certDef, collection, 0);
    SecondaryKeysMembers(collection, issuers, kept[0].thumbprint, key);
  }

  /** Every later stored definition points at the primary and lists nothing. */
  lemma SecondariesPointAtPrimary(certDef: CertificateDefinition, collection: seq<X509Certificate>, i: nat)
    requires 0 < i < |CollectionDefinitions(certDef, collection)|
    ensures var s := CollectionDefinitions(certDef, collection);
      s[i].collectionPrimaryKey == s[0].thumbprint && s[i].collectionSecondaryKeys == []
  {
    CollectionAt(certDef, collection, 0);
    CollectionAt(certDef, collection, i);
  }

  /** Deleting the primary of an imported collection deletes every stored
      member of it, and deleting any other member is refused. */
  lemma DeletingPrimaryCoversCollection(certDef: CertificateDefinition, collection: seq<X509Certificate>, i: nat)
    requires forall j :: 0 <= j < |collection| ==> collection[j].thumbprint != ""
    requires i < |CollectionDefinitions(certDef, collection)|
    ensures var s := CollectionDefinitions(certDef, collection);
      && s[i].thumbprint in [s[0].thumbprint] + s[0].collectionSecondaryKeys
      && (i > 0 ==> s[i].collectionPrimaryKey != "")
  {
    var s := CollectionDefinitions(certDef, collection);
    var issuers := Issuers(collection);
    var kept := Kept(collection, issuers);
    CollectionAt(certDef, collection, 0);
    CollectionAt(certDef, collection, i);
    KeptMembers(collection, issuers, kept[0]);
    if s[i].thumbprint != s[0].thumbprint {
      KeptMembers(collection, issuers, kept[i]);
      var j :| 0 <= j < |collection| && collection[j] == kept[i];
      SecondaryKeysMembers(collection, issuers, kept[0].thumbprint, s[i].thumbprint);
    }
  }

  lemma KeptStep(collection: seq<X509Certificate>, issuers: set<string>, k: nat)
    requires k < |collection|
    ensures Kept(collection[..k + 1], issuers) ==
      Kept(collection[..k], issuers) + (if collection[k].subject in issuers then [] else [collection[k]])
  {
    assert collection[..k + 1][..k] == collection[..k];
  }

  /** The first pass of PutCertificateCollectionInCluster: refuses the
      server's own certificate and gathers the issuers of the members that
      are not self-signed. */
  method GatherIssuers(collection: seq<X509Certificate>, serverThumbprint: Option<string>)
    returns (r: Result<set<string>, HandlerError>)
    ensures r.Failure? <==> serverThumbprint.Some? && exists i :: 0 <= i < |collection| && collection[i].thumbprint == serverThumbprint.value
    ensures r.Failure? ==> r.error == SameAsServerCertificate(serverThumbprint.value)
    ensures r.Success? ==> r.value == Issuers(collection)
  {
    var issuers: set<string> := {};
    for k := 0 to |collection|
      invariant issuers == Issuers(collection[..k])
      invariant serverThumbprint.Some? ==> forall i :: 0 <= i < k ==> collection[i].thumbprint != serverThumbprint.value
    {
      var x509Certificate := collection[k];
      assert collection[..k + 1][..k] == collection[..k];
      if serverThumbprint.Some? && serverThumbprint.value == x509Certificate.thumbprint {
        return Failure(SameAsServerCertificate(x509Certificate.thumbprint));
      }
      if x509Certificate.issuer != x509Certificate.subject {
        issuers := issuers + {x509Certificate.issuer};
      }
    }
    assert collection[..|collection|] == collection;
    return Success(issuers);
  }

  /** The primary's inner pass: the thumbprints of the stored members other
      than the primary's own. */
  method GatherSecondaryKeys(collection: seq<X509Certificate>, issuers: set<string>, firstKey: string)
    returns (secondaryKeys: seq<string>)
    ensures secondaryKeys == SecondaryKeys(collection, issuers, firstKey)
  {
    secondaryKeys := [];
    for m := 0 to |collection|
      invariant secondaryKeys == SecondaryKeys(collection[..m], issuers, firstKey)
    {
      var cert := collection[m];
      assert collection[..m + 1][..m] == collection[..m];
      if cert.subject in issuers {
        continue;
      }
      if cert.thumbprint != firstKey {
        secondaryKeys := secondaryKeys + [cert.thumbprint];
      }
    }
    assert collection[..|collection|] == collection;
  }

  lemma PrefixStep<T>(all: seq<T>, stored: seq<T>, x: T)
    requires |stored| < |all| && stored == all[..|stored|] && x == all[|stored|]
    ensures stored + [x] == all[..|stored| + 1]
  {
  }

  /** PutCertificateCollectionInCluster: fails when a member is the server's
      own certificate; otherwise returns the definitions it stores, in the
      order it stores them. `serverThumbprint` is the loaded server
      certificate's thumbprint, if any. */
  method PutCertificateCollectionInCluster(certDef: CertificateDefinition, collection: seq<X509Certificate>, serverThumbprint: Option<string>)
    returns (r: Result<seq<CertificateDefinition>, HandlerError>)
    ensures r.Failure? <==> serverThumbprint.Some? && exists i :: 0 <= i < |collection| && collection[i].thumbprint == serverThumbprint.value
    ensures r.Failure? ==> r.error == SameAsServerCertificate(serverThumbprint.value)
    ensures r.Success? ==> r.value == CollectionDefinitions(certDef, collection)
  {
    var gathered := GatherIssuers(collection, serverThumbprint);
    if gathered.Failure? {
      return Failure(gathered.error);
    }
    var issuers := gathered.value;
    ghost var all := CollectionDefinitions(certDef, collection);
    ghost var kept := Kept(collection, issuers);
    var first := true;
    var collectionPrimaryKey := "";
    var stored: seq<CertificateDefinition> := [];
    for k := 0 to |collection|
      invariant |stored| == |Kept(collection[..k], issuers)| <= |kept|
      invariant first <==> stored == []
      invariant !first ==> |kept| > 0 && collectionPrimaryKey == kept[0].thumbprint
      invariant stored == all[..|stored|]
    {
      var x509Certificate := collection[k];
      KeptStep(collection, issuers, k);
      KeptPrefix(collection, issuers, k + 1);
      if x509Certificate.subject in issuers {
        continue;
      }
      assert kept[|stored|] == x509Certificate;
      CollectionAt(certDef, collection, |stored|);
      var currentCertDef := Imported(certDef, x509Certificate);
      if first {
        var firstKey := x509Certificate.thumbprint;
        collectionPrimaryKey := firstKey;
        var secondaryKeys := GatherSecondaryKeys(collection, issuers, firstKey);
        currentCertDef := currentCertDef.(collectionSecondaryKeys := secondaryKeys);
      } else {
        currentCertDef := currentCertDef.(collectionPrimaryKey := collectionPrimaryKey);
      }
      PrefixStep(all, stored, currentCertDef);
      stored := stored + [currentCertDef];
      first := false;
    }
    assert collection[..|collection|] == collection;
    return Success(stored);
  }

  // ---------------------------------------------------------------------
  // Listing and purging
  // ---------------------------------------------------------------------

  /** A dictionary's comparer, as the form under which it tells keys apart:
      two keys are the same entry exactly when their forms are equal. The
      default comparer is ordinal. */
  function OrdinalKey(key: string): string {
    key
  }

  /** StringComparer.OrdinalIgnoreCase. */
  function IgnoreCaseKey(key: string): string {
    Fold(key)
  }

  lemma IgnoreCaseKeyIff(a: string, b: string)
    ensures IgnoreCaseKey(a) == IgnoreCaseKey(b) <==> EqualsIgnoreCase(a, b)
  {
    EqualsIgnoreCaseIsFoldEquality(a, b);
  }

  /** The keys of a dictionary kept as its pairs in insertion order. */
  function Keys(keyOf: string -> string, d: seq<(string, CertificateDefinition)>): set<string> {
    set i | 0 <= i < |d| :: keyOf(d[i].0)
  }

  lemma KeysSnoc(keyOf: string -> string, d: seq<(string, CertificateDefinition)>, p: (string, CertificateDefinition))
    ensures Keys(keyOf, d + [p]) == Keys(keyOf, d) + {keyOf(p.0)}
  {
    assert (d + [p])[|d|] == p;
    assert forall i :: 0 <= i < |d| ==> (d + [p])[i] == d[i];
  }

  /** No key occurs twice under the comparer, as in a dictionary. */
  predicate DistinctKeys(keyOf: string -> string, d: seq<(string, CertificateDefinition)>) {
    forall i, j :: 0 <= i < j < |d| ==> keyOf(d[i].0) != keyOf(d[j].0)
  }

  /** A registered certificate is listed: secondaries only when asked for. */
  predicate Listed(def: CertificateDefinition, includeSecondary: bool) {
    includeSecondary || def.collectionPrimaryKey == ""
  }

  /** Item `j` is listed and no earlier listed item has its key under the
      comparer: TryAdd keeps it. */
  predicate FirstListed(keyOf: string -> string, items: seq<(string, Option<CertificateDefinition>)>, j: nat, includeSecondary: bool)
    requires j < |items|
  {
    && items[j].1.Some? && Listed(items[j].1.value, includeSecondary)
    && forall i :: 0 <= i < j && items[i].1.Some? && Listed(items[i].1.value, includeSecondary) ==>
      keyOf(items[i].0) != keyOf(items[j].0)
  }

  /** The pair is the item TryAdd keeps for its key. */
  predicate FromListed(keyOf: string -> string, items: seq<(string, Option<CertificateDefinition>)>, p: (string, CertificateDefinition),
                       includeSecondary: bool) {
    exists j :: 0 <= j < |items| && FirstListed(keyOf, items, j, includeSecondary) && items[j] == (p.0, Some(p.1))
  }

  /** Some item before `k` that is listed has the key under the comparer. */
  predicate ListedKey(keyOf: string -> string, items: seq<(string, Option<CertificateDefinition>)>, k: nat, key: string,
                      includeSecondary: bool) {
    exists i :: (0 <= i < k && i < |items| && keyOf(items[i].0) == key
                 && items[i].1.Some? && Listed(items[i].1.value, includeSecondary))
  }

  /** One more item lists its own key, when it is listed. */
  lemma ListedKeyStep(keyOf: string -> string, items: seq<(string, Option<CertificateDefinition>)>, k: nat, key: string,
                      includeSecondary: bool)
    requires k < |items|
    ensures ListedKey(keyOf, items, k + 1, key, includeSecondary) <==>
      (ListedKey(keyOf, items, k, key, includeSecondary)
       || (items[k].1.Some? && Listed(items[k].1.value, includeSecondary) && keyOf(items[k].0) == key))
  {
    if ListedKey(keyOf, items, k + 1, key, includeSecondary) && !ListedKey(keyOf, items, k, key, includeSecondary) {
      var i :| 0 <= i < k + 1 && i < |items| && keyOf(items[i].0) == key
               && items[i].1.Some? && Listed(items[i].1.value, includeSecondary);
      assert i == k;
    }
  }

  /** Dictionary.TryAdd: adds the pair unless the comparer already holds its
      key, and says whether it did. */
  method TryAdd(keyOf: string -> string, d: seq<(string, CertificateDefinition)>, key: string, value: CertificateDefinition)
    returns (r: seq<(string, CertificateDefinition)>, added: bool)
    ensures added <==> keyOf(key) !in Keys(keyOf, d)
    ensures r == if added then d + [(key, value)] else d
    ensures Keys(keyOf, r) == Keys(keyOf, d) + {keyOf(key)}
    ensures DistinctKeys(keyOf, d) ==> DistinctKeys(keyOf, r)
  {
    if keyOf(key) in Keys(keyOf, d) {
      return d, false;
    }
    KeysSnoc(keyOf, d, (key, value));
    return d + [(key, value)], true;
  }

  /** The dictionary still starts with the pairs it was given. */
  predicate Extends(certificates: seq<(string, CertificateDefinition)>, r: seq<(string, CertificateDefinition)>) {
    |certificates| <= |r| && r[..|certificates|] == certificates
  }

  /** Adding kept the keys distinct if they were. */
  predicate DistinctKept(keyOf: string -> string, certificates: seq<(string, CertificateDefinition)>, r: seq<(string, CertificateDefinition)>) {
    DistinctKeys(keyOf, certificates) ==> DistinctKeys(keyOf, r)
  }

  /** A key is held exactly when it was given or some listed item before `k`
      has it. */
  ghost predicate KeysListed(keyOf: string -> string, certificates: seq<(string, CertificateDefinition)>, items: seq<(string, Option<CertificateDefinition>)>,
                             includeSecondary: bool, k: nat, r: seq<(string, CertificateDefinition)>) {
    forall key :: key in Keys(keyOf, r) <==> (key in Keys(keyOf, certificates)
      || ListedKey(keyOf, items, k, key, includeSecondary))
  }

  /** Every added pair is the item TryAdd keeps for its key. */
  predicate AddedFromListed(keyOf: string -> string, certificates: seq<(string, CertificateDefinition)>, items: seq<(string, Option<CertificateDefinition>)>,
                            includeSecondary: bool, r: seq<(string, CertificateDefinition)>) {
    forall i :: |certificates| <= i < |r| ==> FromListed(keyOf, items, r[i], includeSecondary)
  }

  /** Every item before `k` that TryAdd keeps, with a key not given, is held. */
  predicate FirstsKept(keyOf: string -> string, certificates: seq<(string, CertificateDefinition)>, items: seq<(string, Option<CertificateDefinition>)>,
                       includeSecondary: bool, k: nat, r: seq<(string, CertificateDefinition)>)
    requires k <= |items|
  {
    forall j :: (0 <= j < k && FirstListed(keyOf, items, j, includeSecondary)
                 && keyOf(items[j].0) !in Keys(keyOf, certificates)) ==>
      (items[j].0, items[j].1.value) in r
  }

  /** What the listing holds once the first `k` items have been offered to
      TryAdd. */
  ghost predicate ListedUpTo(keyOf: string -> string, certificates: seq<(string, CertificateDefinition)>, items: seq<(string, Option<CertificateDefinition>)>,
                             includeSecondary: bool, k: nat, r: seq<(string, CertificateDefinition)>)
    requires k <= |items|
  {
    && Extends(certificates, r)
    && DistinctKept(keyOf, certificates, r)
    && KeysListed(keyOf, certificates, items, includeSecondary, k, r)
    && AddedFromListed(keyOf, certificates, items, includeSecondary, r)
    && FirstsKept(keyOf, certificates, items, includeSecondary, k, r)
  }

  /** GetAllRegisteredCertificates: adds every listed certificate to
      `certificates`, a dictionary whose comparer is `keyOf`, with TryAdd, in
      the store's order. An entry whose stored definition is gone is None and
      skipped. */
  method GetAllRegisteredCertificates(keyOf: string -> string, certificates: seq<(string, CertificateDefinition)>,
                                      items: seq<(string, Option<CertificateDefinition>)>, includeSecondary: bool)
    returns (r: seq<(string, CertificateDefinition)>)
    ensures |certificates| <= |r| && r[..|certificates|] == certificates
    ensures DistinctKeys(keyOf, certificates) ==> DistinctKeys(keyOf, r)
    ensures forall key :: key in Keys(keyOf, r) <==> (key in Keys(keyOf, certificates)
      || ListedKey(keyOf, items, |items|, key, includeSecondary))
    ensures forall i :: |certificates| <= i < |r| ==> FromListed(keyOf, items, r[i], includeSecondary)
    ensures forall j :: (0 <= j < |items| && FirstListed(keyOf, items, j, includeSecondary)
                         && keyOf(items[j].0) !in Keys(keyOf, certificates)) ==>
      (items[j].0, items[j].1.value) in r
  {
    r := certificates;
    for k := 0 to |items|
      invariant ListedUpTo(keyOf, certificates, items, includeSecondary, k, r)
    {
      r := OfferItem(keyOf, certificates, items, includeSecondary, k, r);
    }
  }

  /** One pass of the loop: the item at `k` goes to TryAdd when it is
      present and listed. */
  method OfferItem(keyOf: string -> string, certificates: seq<(string, CertificateDefinition)>,
                   items: seq<(string, Option<CertificateDefinition>)>, includeSecondary: bool, k: nat, r: seq<(string, CertificateDefinition)>)
    returns (r': seq<(string, CertificateDefinition)>)
    requires k < |items| && ListedUpTo(keyOf, certificates, items, includeSecondary, k, r)
    ensures ListedUpTo(keyOf, certificates, items, includeSecondary, k + 1, r')
  {
    var (key, def) := items[k];
    if def.None? || !Listed(def.value, includeSecondary) {
      SkippedItem(keyOf, certificates, items, includeSecondary, k, r);
      return r;
    }
    var added;
    r', added := TryAdd(keyOf, r, key, def.value);
    if added {
      AddedItem(keyOf, certificates, items, includeSecondary, k, r);
    } else {
      RefusedItem(keyOf, certificates, items, includeSecondary, k, r);
    }
  }

  /** An item that is gone or not listed changes nothing. */
  lemma SkippedItem(keyOf: string -> string, certificates: seq<(string, CertificateDefinition)>,
                    items: seq<(string, Option<CertificateDefinition>)>, includeSecondary: bool, k: nat, r: seq<(string, CertificateDefinition)>)
    requires k < |items| && ListedUpTo(keyOf, certificates, items, includeSecondary, k, r)
    requires !(items[k].1.Some? && Listed(items[k].1.value, includeSecondary))
    ensures ListedUpTo(keyOf, certificates, items, includeSecondary, k + 1, r)
  {
    forall key | true
      ensures ListedKey(keyOf, items, k + 1, key, includeSecondary) <==> ListedKey(keyOf, items, k, key, includeSecondary)
    {
      ListedKeyStep(keyOf, items, k, key, includeSecondary);
    }
  }

  /** A listed item whose key the dictionary already holds is refused, and
      it is not the first listed item with its key unless that key came with
      the dictionary. */
  lemma RefusedItem(keyOf: string -> string, certificates: seq<(string, CertificateDefinition)>,
                    items: seq<(string, Option<CertificateDefinition>)>, includeSecondary: bool, k: nat, r: seq<(string, CertificateDefinition)>)
    requires k < |items| && ListedUpTo(keyOf, certificates, items, includeSecondary, k, r)
    requires items[k].1.Some? && Listed(items[k].1.value, includeSecondary)
    requires keyOf(items[k].0) in Keys(keyOf, r)
    ensures ListedUpTo(keyOf, certificates, items, includeSecondary, k + 1, r)
  {
    var key := keyOf(items[k].0);
    forall key' | true
      ensures ListedKey(keyOf, items, k + 1, key', includeSecondary) <==>
        (ListedKey(keyOf, items, k, key', includeSecondary) || key' == key)
    {
      ListedKeyStep(keyOf, items, k, key', includeSecondary);
    }
    if key !in Keys(keyOf, certificates) {
      assert ListedKey(keyOf, items, k, key, includeSecondary);
      var i :| 0 <= i < k && i < |items| && keyOf(items[i].0) == key
               && items[i].1.Some? && Listed(items[i].1.value, includeSecondary);
      assert !FirstListed(keyOf, items, k, includeSecondary);
    }
  }

  /** A listed item whose key no earlier listed item has is the one TryAdd
      keeps. */
  lemma NewKeyIsFirst(keyOf: string -> string, items: seq<(string, Option<CertificateDefinition>)>, includeSecondary: bool, k: nat)
    requires k < |items| && items[k].1.Some? && Listed(items[k].1.value, includeSecondary)
    requires !ListedKey(keyOf, items, k, keyOf(items[k].0), includeSecondary)
    ensures FirstListed(keyOf, items, k, includeSecondary)
    ensures FromListed(keyOf, items, (items[k].0, items[k].1.value), includeSecondary)
  {
    assert items[k] == (items[k].0, Some(items[k].1.value));
  }

  /** A listed item with a new key is the first listed with it, and TryAdd
      appends it. */
  lemma AddedItem(keyOf: string -> string, certificates: seq<(string, CertificateDefinition)>,
                  items: seq<(string, Option<CertificateDefinition>)>, includeSecondary: bool, k: nat, r: seq<(string, CertificateDefinition)>)
    requires k < |items| && ListedUpTo(keyOf, certificates, items, includeSecondary, k, r)
    requires items[k].1.Some? && Listed(items[k].1.value, includeSecondary)
    requires keyOf(items[k].0) !in Keys(keyOf, r)
    ensures ListedUpTo(keyOf, certificates, items, includeSecondary, k + 1, r + [(items[k].0, items[k].1.value)])
  {
    var p := (items[k].0, items[k].1.value);
    assert !ListedKey(keyOf, items, k, keyOf(p.0), includeSecondary);
    NewKeyIsFirst(keyOf, items, includeSecondary, k);
    AddedKeys(keyOf, certificates, items, includeSecondary, k, r);
    AddedPairs(keyOf, certificates, items, includeSecondary, k, r);
    AddedDistinct(keyOf, certificates, r, p);
    assert (r + [p])[..|certificates|] == r[..|certificates|];
  }

  lemma AddedKeys(keyOf: string -> string, certificates: seq<(string, CertificateDefinition)>,
                  items: seq<(string, Option<CertificateDefinition>)>, includeSecondary: bool, k: nat, r: seq<(string, CertificateDefinition)>)
    requires k < |items| && KeysListed(keyOf, certificates, items, includeSecondary, k, r)
    requires items[k].1.Some? && Listed(items[k].1.value, includeSecondary)
    ensures KeysListed(keyOf, certificates, items, includeSecondary, k + 1, r + [(items[k].0, items[k].1.value)])
  {
    KeysSnoc(keyOf, r, (items[k].0, items[k].1.value));
    forall key' | true
      ensures ListedKey(keyOf, items, k + 1, key', includeSecondary) <==>
        (ListedKey(keyOf, items, k, key', includeSecondary) || key' == keyOf(items[k].0))
    {
      ListedKeyStep(keyOf, items, k, key', includeSecondary);
    }
  }

  lemma AddedPairs(keyOf: string -> string, certificates: seq<(string, CertificateDefinition)>,
                   items: seq<(string, Option<CertificateDefinition>)>, includeSecondary: bool, k: nat, r: seq<(string, CertificateDefinition)>)
    requires k < |items| && |certificates| <= |r|
    requires AddedFromListed(keyOf, certificates, items, includeSecondary, r)
    requires FirstsKept(keyOf, certificates, items, includeSecondary, k, r)
    requires FirstListed(keyOf, items, k, includeSecondary)
    requires FromListed(keyOf, items, (items[k].0, items[k].1.value), includeSecondary)
    ensures AddedFromListed(keyOf, certificates, items, includeSecondary, r + [(items[k].0, items[k].1.value)])
    ensures FirstsKept(keyOf, certificates, items, includeSecondary, k + 1, r + [(items[k].0, items[k].1.value)])
  {
    var r' := r + [(items[k].0, items[k].1.value)];
    assert forall i :: 0 <= i < |r| ==> r'[i] == r[i];
    assert r'[|r|] == (items[k].0, items[k].1.value);
  }

  lemma AddedDistinct(keyOf: string -> string, certificates: seq<(string, CertificateDefinition)>, r: seq<(string, CertificateDefinition)>, p: (string, CertificateDefinition))
    requires DistinctKept(keyOf, certificates, r) && keyOf(p.0) !in Keys(keyOf, r)
    ensures DistinctKept(keyOf, certificates, r + [p])
  {
    if DistinctKeys(keyOf, certificates) {
      assert forall i :: 0 <= i < |r| ==> keyOf(r[i].0) in Keys(keyOf, r);
      assert forall i :: 0 <= i < |r| ==> (r + [p])[i] == r[i];
      assert (r + [p])[|r|] == p;
    }
  }

  /** The listing endpoint without a thumbprint: a dictionary that ignores
      case, the server certificate added first when there is one, then every
      listed certificate. */
  method ListCertificates(server: Option<(string, CertificateDefinition)>,
                          items: seq<(string, Option<CertificateDefinition>)>, includeSecondary: bool)
    returns (r: seq<(string, CertificateDefinition)>)
    ensures server.Some? ==> |r| > 0 && r[0] == server.value
    ensures DistinctKeys(IgnoreCaseKey, r)
    ensures forall i :: (if server.Some? then 1 else 0) <= i < |r| ==> FromListed(IgnoreCaseKey, items, r[i], includeSecondary)
    ensures server.Some? ==> forall i :: 1 <= i < |r| ==> !EqualsIgnoreCase(r[i].0, server.value.0)
    ensures forall j :: (0 <= j < |items| && FirstListed(IgnoreCaseKey, items, j, includeSecondary)
                         && (server.Some? ==> !EqualsIgnoreCase(items[j].0, server.value.0))) ==>
      (items[j].0, items[j].1.value) in r
  {
    var certificateList := if server.Some? then [server.value] else [];
    r := GetAllRegisteredCertificates(IgnoreCaseKey, certificateList, items, includeSecondary);
    if server.Some? {
      forall i | 1 <= i < |r|
        ensures !EqualsIgnoreCase(r[i].0, server.value.0)
      {
        assert IgnoreCaseKey(r[0].0) != IgnoreCaseKey(r[i].0);
        IgnoreCaseKeyIff(r[i].0, server.value.0);
      }
      forall j | 0 <= j < |items| && !EqualsIgnoreCase(items[j].0, server.value.0)
        ensures IgnoreCaseKey(items[j].0) !in Keys(IgnoreCaseKey, certificateList)
      {
        IgnoreCaseKeyIff(items[j].0, server.value.0);
        assert certificateList[0] == server.value;
      }
    }
  }

  /** A certificate whose expiry has passed. */
  predicate Expired(def: CertificateDefinition, now: int) {
    def.notAfter.Some? && now > def.notAfter.value
  }

  /** The certificate TryAdd keeps under `key`, among the primaries, has
      expired. */
  predicate ExpiredListed(items: seq<(string, Option<CertificateDefinition>)>, key: string, now: int) {
    exists j :: 0 <= j < |items| && FirstListed(OrdinalKey, items, j, false) && items[j].0 == key && Expired(items[j].1.value, now)
  }

  /** PurgeExpired: the keys of the primaries whose expiry has passed, each
      once; `now` is the current time. */
  method PurgeExpired(items: seq<(string, Option<CertificateDefinition>)>, now: int) returns (keysToDelete: seq<string>)
    ensures forall key :: key in keysToDelete <==> ExpiredListed(items, key, now)
    ensures forall i, j :: 0 <= i < j < |keysToDelete| ==> keysToDelete[i] != keysToDelete[j]
  {
    var allCerts := GetAllRegisteredCertificates(OrdinalKey, [], items, false);
    keysToDelete := [];
    for k := 0 to |allCerts|
      invariant forall key :: key in keysToDelete <==> exists i :: 0 <= i < k && allCerts[i].0 == key && Expired(allCerts[i].1, now)
      invariant forall i, j :: 0 <= i < j < |keysToDelete| ==> keysToDelete[i] != keysToDelete[j]
    {
      var cert := allCerts[k];
      if Expired(cert.1, now) {
        assert forall i :: 0 <= i < k ==> allCerts[i].0 != cert.0;
        assert cert.0 !in keysToDelete;
        keysToDelete := keysToDelete + [cert.0];
      }
    }
    PurgeSelection(items, now, allCerts, keysToDelete);
  }

  /** The keys picked from the listing are exactly the expired kept ones. */
  lemma PurgeSelection(items: seq<(string, Option<CertificateDefinition>)>, now: int,
                       allCerts: seq<(string, CertificateDefinition)>, keysToDelete: seq<string>)
    requires DistinctKeys(OrdinalKey, allCerts)
    requires forall i :: 0 <= i < |allCerts| ==> FromListed(OrdinalKey, items, allCerts[i], false)
    requires forall j :: 0 <= j < |items| && FirstListed(OrdinalKey, items, j, false) ==> (items[j].0, items[j].1.value) in allCerts
    requires forall key :: key in keysToDelete <==> exists i :: 0 <= i < |allCerts| && allCerts[i].0 == key && Expired(allCerts[i].1, now)
    ensures forall key :: key in keysToDelete <==> ExpiredListed(items, key, now)
  {
    forall key | key in keysToDelete
      ensures ExpiredListed(items, key, now)
    {
      var i :| 0 <= i < |allCerts| && allCerts[i].0 == key && Expired(allCerts[i].1, now);
      assert FromListed(OrdinalKey, items, allCerts[i], false);
    }
    forall key | ExpiredListed(items, key, now)
      ensures key in keysToDelete
    {
      var j :| 0 <= j < |items| && FirstListed(OrdinalKey, items, j, false) && items[j].0 == key && Expired(items[j].1.value, now);
      assert (items[j].0, items[j].1.value) in allCerts;
      var i :| 0 <= i < |allCerts| && allCerts[i] == (items[j].0, items[j].1.value);
    }
  }
}
