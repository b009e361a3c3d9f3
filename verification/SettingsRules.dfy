/**
 The settings validator by its rules: what each mode ends up as, and one condition per
 subject (modes, identity, Query Studio, control plane, keys, credentials) instead of one
 per step.  The validator accepts exactly the settings that meet all of them.
 */
module SettingsRules {
  import opened Wrappers
  import opened SettingsProfile

  // ------------------------------------------------------------------
  // Modes
  // ------------------------------------------------------------------

  /** Every mode after validation, field by field. */
  function Resolved(i: Inputs, m: Modes): Modes {
    var demo, managed := i.environment.HostedDemo?, i.Managed();
    Modes(
      if demo then LocalDemo else m.auth,
      if demo then Recorded else if managed then Live else m.catalog,
      if demo then Recorded else if managed then Live else m.registry,
      if demo then FakePublication else m.publication,
      if demo then RecordedExecution else m.execution,
      if demo then Fixed else if managed then Active else m.selection,
      if demo then LocalPlane else if managed then PostgresPlane else m.plane,
      if demo then FakeAi else if managed && m.ai.FakeAi? then NoAi else m.ai,
      m.fieldsSet + if demo then MODE_FIELDS
                    else if managed then {CatalogField, RegistryField, SelectionField, PlaneField}
                                         + if m.ai.FakeAi? then {AiField} else {}
                    else {})
  }

  predicate SameMode(f: ModeField, m: Modes, v: Modes) {
    match f
    case AuthField => m.auth == v.auth
    case CatalogField => m.catalog == v.catalog
    case RegistryField => m.registry == v.registry
    case PublicationField => m.publication == v.publication
    case ExecutionField => m.execution == v.execution
    case SelectionField => m.selection == v.selection
    case PlaneField => m.plane == v.plane
    case AiField => m.ai == v.ai
  }

  /** A mode that was set explicitly is never replaced by a default. */
  ghost predicate ChoicesKept(i: Inputs, m: Modes) {
    forall f :: f in m.fieldsSet ==> SameMode(f, m, Resolved(i, m))
  }

  ghost predicate ModeRules(i: Inputs, v: Modes) {
    && (v.publication.LivePublication? ==> v.auth.Oidc?)
    && (i.environment.Development? && (v.catalog.Live? || v.registry.Live? || v.execution.LiveExecution?) ==> i.allowLocalLiveReads)
    && (v.selection.Active? ==> v.registry.Live? && v.plane.PostgresPlane?)
    && (i.component.Web? || i.component.Operator? || v.plane.PostgresPlane?)
    && (i.Managed() && i.component.Web? ==>
          {PublicationField, ExecutionField} <= v.fieldsSet && v.publication.NoPublication? && v.execution.NoExecution?)
    && i.sideCheck(ApiOptions, v) && i.sideCheck(Roles, v)
  }

  /** Only web and API authenticate users, and in staging and production they must. */
  ghost predicate IdentityRules(i: Inputs, v: Modes) {
    && (!i.component.Web? && !i.component.Api? ==> v.auth.LocalDemo?)
    && (i.Managed() && (i.component.Web? || i.component.Api?) ==> v.auth.Oidc?)
    && (v.auth.Oidc? ==> i.sideCheck(OidcMetadata, v))
    && (i.Managed() && i.component.Worker? ==> i.verifiedLineage)
  }

  ghost predicate HeldStrong(i: Inputs, k: Material) {
    k in i.held && i.strong(i.held[k])
  }

  ghost predicate Apart(i: Inputs, a: Material, b: Material) {
    a in i.held && b in i.held ==> i.held[a] != i.held[b]
  }

  ghost predicate QueryStudioRules(i: Inputs, v: Modes) {
    && i.pinnedAiModel
    && (v.ai.LiveAi? ==> i.component.Web? && v.plane.PostgresPlane? && OpenAiKey in i.held && HeldStrong(i, PseudonymKey))
    && (QueryStudioKey in i.held ==> HeldStrong(i, QueryStudioKey) && Apart(i, QueryStudioKey, PseudonymKey))
    && (i.Managed() && i.component.Web? ==> QueryStudioKey in i.held)
  }

  // ------------------------------------------------------------------
  // The control plane
  // ------------------------------------------------------------------

  /** The component's own URL is there, of the right role, and all URLs are usable and name the right databases. */
  ghost predicate UrlRules(i: Inputs) {
    && Own(i.component) in i.urls && (i.component.Operator? ==> MigratorUrl in i.urls)
    && (i.component.Observer? ==> i.urls[ObserverUrl].role == "schemabridge_observer")
    && (i.component.Backup? ==> i.urls[BackupUrl].role == "schemabridge_backup")
    && (i.component.Publisher? ==> i.urls[PublisherUrl].role == "schemabridge_publisher")
    && (forall u :: u in i.urls ==> i.urls[u].wellFormed && (i.Managed() ==> i.urls[u].verifiedTls))
    && (forall u :: u in i.urls ==>
          (i.urls[u].identity == i.urls[Own(i.component)].identity <==> u != RestoreUrl && u != SourceUrl))
    && (RestoreUrl in i.urls && SourceUrl in i.urls ==> i.urls[RestoreUrl].identity != i.urls[SourceUrl].identity)
    && (forall u, v :: u in i.urls && v in i.urls && IsControlUrl(u) && IsControlUrl(v) && u != v ==>
          i.urls[u].username != i.urls[v].username)
  }

  /** Web signs, migrates and pseudonymises with three different keys; backup and reconciler only sign. */
  ghost predicate KeyRules(i: Inputs) {
    && (i.component.Web? || i.component.Backup? || i.component.Reconciler? ==> HeldStrong(i, AuditKey))
    && (i.component.Web? ==>
          && HeldStrong(i, IdentityKey) && i.held[IdentityKey] != i.held[AuditKey]
          && (PseudonymKey in i.held ==> i.held[PseudonymKey] != i.held[AuditKey] && i.held[PseudonymKey] != i.held[IdentityKey]))
    && (i.component.Web? || i.component.Operator? || i.component.Reconciler? ==>
          (OperatorActor in i.held <==> OperatorRoles in i.held) && i.operatorRolesDistinct)
  }

  ghost predicate PostgresRules(i: Inputs, v: Modes) {
    && UrlRules(i) && KeyRules(i)
    && i.sideCheck(PoolSizes, v) && i.sideCheck(ConnectorSecrets, v) && i.sideCheck(Schema, v)
    && (i.component.Catalog? ==> i.sideCheck(CatalogRouting, v))
  }

  // ------------------------------------------------------------------
  // Credentials
  // ------------------------------------------------------------------

  /** Which components may hold a credential, outside an unmanaged web process, which may hold all. */
  predicate MayHold(c: Component, k: Material) {
    match k
    case OperatorActor => c.Reconciler? || c.Operator?
    case OperatorRoles => c.Reconciler? || c.Operator?
    case OpenAiKey => c.Web?
    case QueryStudioKey => c.Web?
    case AuditKey => c.Web? || c.Reconciler? || c.Backup? || c.Operator?
    case IdentityKey => c.Web? || c.Operator?
    case DataHubToken => c.Catalog?
    case OidcIssuer => c.Web? || c.Api?
    case OidcAudience => c.Web? || c.Api?
    case OidcProvider => c.Web? || c.Api?
    case OidcGroups => c.Web? || c.Api?
    case OidcTenants => c.Web? || c.Api?
    case PseudonymKey => c.Web? || c.Api?
    case ApiBearer => c.Api?
    case ApiJwks => c.Api?
    case CursorKey => c.Api? || c.Worker? || c.Catalog?
    case SecretDirectory => c.Worker? || c.Catalog?
    case SecretRole => c.Web? || c.Reconciler? || c.Api? || c.Worker? || c.Catalog?
    case SecretCapability => c.Web? || c.Reconciler? || c.Api? || c.Worker? || c.Catalog?
    case RegistrySecretRole => c.Web? || c.Observer? || c.Reconciler? || c.Api? || c.Worker? || c.Catalog?
    case RegistrySecretBinding => c.Web? || c.Observer? || c.Reconciler? || c.Api? || c.Worker? || c.Catalog?
    case RegistrySecretVersion => c.Web? || c.Observer? || c.Reconciler? || c.Api? || c.Worker? || c.Catalog?
    case _ => c.Web? || c.Publisher? || c.Reconciler? || c.Api? || c.Worker? || c.Catalog?
  }

  predicate Unrestricted(i: Inputs) {
    i.component.Web? && !i.Managed()
  }

  ghost predicate CredentialRules(i: Inputs) {
    !Unrestricted(i) ==>
      && (i.component.Operator? || i.urls.Keys <= {Own(i.component)})
      && (forall k :: k in i.held ==> MayHold(i.component, k))
  }

  lemma RunMembers(k: Material)
    ensures k in OIDC <==> k in {OidcIssuer, OidcAudience, OidcProvider, OidcGroups, OidcTenants, PseudonymKey}
    ensures k in OPERATOR_AND_STUDIO <==> k in {OperatorActor, OperatorRoles, OpenAiKey, QueryStudioKey}
    ensures k in API_ACCESS <==> k in {ApiBearer, ApiJwks, CursorKey, SecretDirectory}
    ensures k in REGISTRY_SECRETS <==> k in {RegistrySecretRole, RegistrySecretBinding, RegistrySecretVersion}
  {}

  lemma SecretMembers(k: Material)
    ensures k in SECRETS <==> k in {SecretProviderUrl, SecretRole, SecretKvMount, SecretCapability, SecretCaBundle,
                                    WorkloadTokenFile, WorkloadRoot, WorkloadAudience}
  {}

  lemma WebListIsTable(k: Material)
    ensures k in WEB_FORBIDDEN.material <==> !MayHold(Web, k)
  {
    hide OPERATOR_AND_STUDIO, API_ACCESS, OIDC, SECRETS, REGISTRY_SECRETS;
    RunMembers(k);
    SecretMembers(k);
  }

  lemma PublisherListIsTable(k: Material)
    ensures k in PUBLISHER_FORBIDDEN.material <==> !MayHold(Publisher, k)
  {
    hide OPERATOR_AND_STUDIO, API_ACCESS, OIDC, SECRETS, REGISTRY_SECRETS;
    RunMembers(k);
    SecretMembers(k);
  }

  lemma ObserverListIsTable(k: Material)
    ensures k in OBSERVER_FORBIDDEN.material <==> !MayHold(Observer, k)
  {
    hide OPERATOR_AND_STUDIO, API_ACCESS, OIDC, SECRETS, REGISTRY_SECRETS;
    RunMembers(k);
    SecretMembers(k);
  }

  lemma ReconcilerListIsTable(k: Material)
    ensures k in RECONCILER_FORBIDDEN.material <==> !MayHold(Reconciler, k)
  {
    hide OPERATOR_AND_STUDIO, API_ACCESS, OIDC, SECRETS, REGISTRY_SECRETS;
    RunMembers(k);
    SecretMembers(k);
  }

  lemma BackupListIsTable(k: Material)
    ensures k in BACKUP_FORBIDDEN.material <==> !MayHold(Backup, k)
  {
    hide OPERATOR_AND_STUDIO, API_ACCESS, OIDC, SECRETS, REGISTRY_SECRETS;
    RunMembers(k);
    SecretMembers(k);
  }

  lemma OperatorListIsTable(k: Material)
    ensures k in OPERATOR_FORBIDDEN.material <==> !MayHold(Operator, k)
  {
    hide OPERATOR_AND_STUDIO, API_ACCESS, OIDC, SECRETS, REGISTRY_SECRETS;
    RunMembers(k);
    SecretMembers(k);
  }

  lemma CommonMembers(k: Material)
    ensures k in COMMON_FORBIDDEN.material <==>
              k in {OperatorActor, OperatorRoles, OpenAiKey, QueryStudioKey, AuditKey, IdentityKey}
  {}

  lemma ApiListIsTable(k: Material)
    ensures k in COMMON_FORBIDDEN.material + API_FORBIDDEN.material <==> !MayHold(Api, k)
  {
    hide COMMON_FORBIDDEN;
    CommonMembers(k);
  }

  lemma WorkerListIsTable(k: Material)
    ensures k in COMMON_FORBIDDEN.material + WORKER_FORBIDDEN.material <==> !MayHold(Worker, k)
  {
    hide COMMON_FORBIDDEN, OIDC;
    CommonMembers(k);
    RunMembers(k);
  }

  lemma CatalogListIsTable(k: Material)
    ensures k in COMMON_FORBIDDEN.material + CATALOG_FORBIDDEN.material <==> !MayHold(Catalog, k)
  {
    hide COMMON_FORBIDDEN, OIDC;
    CommonMembers(k);
    RunMembers(k);
  }

  /** The lists are the table: a credential is refused exactly to the components that may not hold it. */
  lemma ListsAreTheTable(i: Inputs, k: Material)
    ensures k in ForbiddenFor(i).material <==> !Unrestricted(i) && !MayHold(i.component, k)
  {
    hide WEB_FORBIDDEN, PUBLISHER_FORBIDDEN, OBSERVER_FORBIDDEN, RECONCILER_FORBIDDEN, BACKUP_FORBIDDEN, OPERATOR_FORBIDDEN;
    hide COMMON_FORBIDDEN, API_FORBIDDEN, WORKER_FORBIDDEN, CATALOG_FORBIDDEN, MayHold;
    match i.component
    case Web => WebListIsTable(k);
    case Publisher => PublisherListIsTable(k);
    case Observer => ObserverListIsTable(k);
    case Reconciler => ReconcilerListIsTable(k);
    case Backup => BackupListIsTable(k);
    case Operator => OperatorListIsTable(k);
    case Api => ApiListIsTable(k);
    case Worker => WorkerListIsTable(k);
    case Catalog => CatalogListIsTable(k);
  }

  /** Scanning the lists is asking the table, and that no foreign URL is held. */
  lemma CredentialsExactly(i: Inputs)
    ensures HoldsNone(i, ForbiddenFor(i)) <==> CredentialRules(i)
  {
    hide ForbiddenFor, MayHold, Own;
    var f := ForbiddenFor(i);
    forall k
      ensures k in f.material <==> !Unrestricted(i) && !MayHold(i.component, k)
    {
      ListsAreTheTable(i, k);
    }
    forall u
      ensures u in f.urls <==> u != Own(i.component) && !i.component.Operator? && (i.component.Web? ==> i.Managed())
    {
      ListsCoverEveryOtherUrl(i, u);
    }
    if HoldsNone(i, f) {
      forall u | u in i.urls
        ensures u !in f.urls
      {
        HeldIsNotListed(i, f, u);
      }
      forall k | k in i.held
        ensures k !in f.material
      {
        HeldMaterialIsNotListed(i, f, k);
      }
    }
    if CredentialRules(i) {
      assert forall j :: 0 <= j < |f.urls| ==> f.urls[j] in f.urls;
      assert forall j :: 0 <= j < |f.material| ==> f.material[j] in f.material;
    }
  }

  lemma HeldMaterialIsNotListed(i: Inputs, f: Forbidden, k: Material)
    requires HoldsNone(i, f) && k in i.held
    ensures k !in f.material
  {}

  // ------------------------------------------------------------------
  // The validator meets the rules
  // ------------------------------------------------------------------

  lemma KeysExactly(i: Inputs)
    ensures KeysFit(i) <==> KeyRules(i)
  {}

  lemma RoleExactly(i: Inputs)
    requires Own(i.component) in i.urls
    ensures OwnUrlFits(i) <==>
              && Usable(i, i.urls[Own(i.component)])
              && (i.component.Observer? ==> i.urls[ObserverUrl].role == "schemabridge_observer")
              && (i.component.Backup? ==> i.urls[BackupUrl].role == "schemabridge_backup")
              && (i.component.Publisher? ==> i.urls[PublisherUrl].role == "schemabridge_publisher")
  {}

  /** The pairwise conditions on the control URLs and those on the other two are the conditions on all URLs. */
  lemma DatabasesExactly(i: Inputs)
    requires Own(i.component) in i.urls
    ensures UrlsAgree(i) && OtherDatabasesSeparate(i) <==>
              && (forall u :: u in i.urls ==> Usable(i, i.urls[u]))
              && (forall u :: u in i.urls ==>
                    (i.urls[u].identity == i.urls[Own(i.component)].identity <==> u != RestoreUrl && u != SourceUrl))
              && (RestoreUrl in i.urls && SourceUrl in i.urls ==> i.urls[RestoreUrl].identity != i.urls[SourceUrl].identity)
              && (forall u, v :: u in i.urls && v in i.urls && IsControlUrl(u) && IsControlUrl(v) && u != v ==>
                    i.urls[u].username != i.urls[v].username)
  {
    hide Usable, Own;
  }

  lemma UrlsExactly(i: Inputs)
    ensures UrlRules(i) <==>
              && Own(i.component) in i.urls && OwnUrlFits(i)
              && ScanUrls(i, COMPARED_URLS, {i.urls[Own(i.component)].username})
              && OtherDatabasesSeparate(i)
  {
    assert forall u :: u in i.urls ==> (Usable(i, i.urls[u]) <==> i.urls[u].wellFormed && (i.Managed() ==> i.urls[u].verifiedTls));
    if Own(i.component) in i.urls {
      RoleExactly(i);
      DatabasesExactly(i);
      if Usable(i, i.urls[Own(i.component)]) {
        ScanMeansUrlsAgree(i);
      }
    }
    hide COMPARED_URLS, ScanUrls, UrlsAgree, OtherDatabasesSeparate, OwnUrlFits, Usable, IsControlUrl;
  }

  lemma ControlPlaneExactly(i: Inputs, v: Modes)
    requires i.Managed() ==> v.plane.PostgresPlane?
    ensures ControlPlaneOk(i, v) <==>
              && (v.selection.Active? ==> v.registry.Live? && v.plane.PostgresPlane?)
              && (i.component.Web? || i.component.Operator? || v.plane.PostgresPlane?)
              && (v.plane.PostgresPlane? ==> PostgresRules(i, v))
              && CredentialRules(i)
  {
    KeysExactly(i);
    UrlsExactly(i);
    CredentialsExactly(i);
    hide KeysFit, KeyRules, UrlRules, OwnUrlFits, ScanUrls, OtherDatabasesSeparate, HoldsNone, ForbiddenFor, CredentialRules, COMPARED_URLS;
  }

  /** Every rule at once. */
  ghost predicate Rules(i: Inputs, m: Modes) {
    var v := Resolved(i, m);
    && ChoicesKept(i, m) && ModeRules(i, v) && IdentityRules(i, v) && QueryStudioRules(i, v)
    && (v.plane.PostgresPlane? ==> PostgresRules(i, v))
    && CredentialRules(i)
  }

  lemma {:induction false} ResolvedExactly(i: Inputs, m: Modes)
    ensures var demo := if i.environment.HostedDemo? then HostedDemoModes(m) else Some(m);
            var managed := if demo.Some? && i.Managed() then ManagedModes(demo.value) else demo;
            var settled := if managed.Some? then QueryStudioModes(i, managed.value) else None;
            && (settled.Some? <==> ChoicesKept(i, m) && QueryStudioRules(i, Resolved(i, m)))
            && (settled.Some? ==> settled.value == Resolved(i, m))
  {
    hide MODE_FIELDS;
  }

  /** The validator accepts exactly the settings that meet every rule, and leaves every mode as resolved. */
  lemma AcceptedExactlyWhen(i: Inputs, m: Modes)
    ensures Validated(i, m).Some? <==> Rules(i, m)
    ensures Validated(i, m).Some? ==> Validated(i, m).value == Resolved(i, m)
  {
    ResolvedExactly(i, m);
    var v := Resolved(i, m);
    ControlPlaneExactly(i, v);
    hide ControlPlaneOk, PostgresRules, CredentialRules, QueryStudioRules, ChoicesKept, QueryStudioModes;
  }

  /** Accepted PostgreSQL settings hold the keys their component needs, all apart, and no credential of another component. */
  lemma AcceptedKeys(i: Inputs, m: Modes)
    requires Validated(i, m).Some? && Validated(i, m).value.plane.PostgresPlane?
    ensures i.component.Web? || i.component.Backup? || i.component.Reconciler? ==> HeldStrong(i, AuditKey)
    ensures i.component.Web? ==>
              && HeldStrong(i, IdentityKey) && i.held[IdentityKey] != i.held[AuditKey]
              && (PseudonymKey in i.held ==> i.held[PseudonymKey] != i.held[AuditKey] && i.held[PseudonymKey] != i.held[IdentityKey])
    ensures i.component.Web? || i.component.Operator? || i.component.Reconciler? ==>
              (OperatorActor in i.held <==> OperatorRoles in i.held)
    ensures forall k :: k in i.held ==> Unrestricted(i) || MayHold(i.component, k)
  {
    hide Validated, MayHold;
    AcceptedExactlyWhen(i, m);
  }
}
