/**
 Settings validation: profile defaults are resolved, insecure combinations are
 rejected, and each runtime component may hold only its own credentials.

 URLs are taken as already parsed.  Checks that only inspect other fields (OIDC
 metadata, API, connector secrets, catalog routing, roles, pool sizes, schema) are
 an arbitrary function of the settings, `sideCheck`.
 */
module SettingsProfile {
  import opened Wrappers

  datatype Environment = Development | HostedDemo | Staging | Production

  datatype Component = Web | Api | Worker | Publisher | Catalog | Reconciler | Observer | Backup | Operator

  datatype AuthMode = LocalDemo | Oidc
  datatype SourceKind = Recorded | Live
  datatype PublicationKind = FakePublication | LivePublication | NoPublication
  datatype ExecutionKind = RecordedExecution | LiveExecution | NoExecution
  datatype Selection = Fixed | Active
  datatype ControlPlane = LocalPlane | PostgresPlane
  datatype AiMode = NoAi | FakeAi | LiveAi
  datatype ModeField = AuthField | CatalogField | RegistryField | PublicationField | ExecutionField
                     | SelectionField | PlaneField | AiField

  /** The fields that validation assigns, and which fields count as set. */
  datatype Modes = Modes(
    auth: AuthMode, catalog: SourceKind, registry: SourceKind, publication: PublicationKind,
    execution: ExecutionKind, selection: Selection, plane: ControlPlane, ai: AiMode, fieldsSet: set<ModeField>)

  /** The optional database URLs: one per component (the migrator's is the operator's), the restore target and the source. */
  datatype UrlField = WebUrl | ReconcilerUrl | MigratorUrl | RestoreUrl | ApiUrl | WorkerUrl | PublisherUrl
                    | CatalogUrl | ObserverUrl | BackupUrl | SourceUrl

  /** The other optional credentials and identity settings. */
  datatype Material =
    | OperatorActor | OperatorRoles | OpenAiKey | QueryStudioKey | AuditKey | IdentityKey | DataHubToken
    | OidcIssuer | OidcAudience | OidcProvider | OidcGroups | OidcTenants | PseudonymKey
    | ApiBearer | ApiJwks | CursorKey | SecretDirectory
    | SecretProviderUrl | SecretRole | SecretKvMount | SecretCapability | SecretCaBundle
    | WorkloadTokenFile | WorkloadRoot | WorkloadAudience
    | RegistrySecretRole | RegistrySecretBinding | RegistrySecretVersion

  datatype Identity = Identity(host: string, port: int, database: string)

  /** `username` is the raw and `role` the percent-decoded user of the URL. */
  datatype Url = Url(wellFormed: bool, verifiedTls: bool, identity: Identity, username: string, role: string)

  datatype SideCheck = PoolSizes | ConnectorSecrets | Schema | CatalogRouting | OidcMetadata | ApiOptions | Roles

  datatype Inputs = Inputs(
    environment: Environment,
    component: Component,
    verifiedLineage: bool,
    allowLocalLiveReads: bool,
    pinnedAiModel: bool,
    urls: map<UrlField, Url>,
    held: map<Material, string>,
    operatorRolesDistinct: bool,
    strong: string -> bool,
    sideCheck: (SideCheck, Modes) -> bool)
  {
    predicate Managed() { environment.Staging? || environment.Production? }
  }

  predicate Background(c: Component) { !c.Web? && !c.Api? }

  /** The URL a component connects with. */
  function Own(c: Component): UrlField {
    match c
    case Web => WebUrl
    case Api => ApiUrl
    case Worker => WorkerUrl
    case Publisher => PublisherUrl
    case Catalog => CatalogUrl
    case Reconciler => ReconcilerUrl
    case Observer => ObserverUrl
    case Backup => BackupUrl
    case Operator => MigratorUrl
  }

  // ------------------------------------------------------------------
  // Credentials of other components
  // ------------------------------------------------------------------

  /** What one component must not hold, as the code lists it. */
  datatype Forbidden = Forbidden(urls: seq<UrlField>, material: seq<Material>)

  const NOTHING := Forbidden([], [])

  // Runs of settings that several lists repeat.
  const OPERATOR_AND_STUDIO: seq<Material> := [OperatorActor, OperatorRoles, OpenAiKey, QueryStudioKey]
  const API_ACCESS: seq<Material> := [ApiBearer, ApiJwks, CursorKey, SecretDirectory]
  const OIDC: seq<Material> := [OidcIssuer, OidcAudience, OidcProvider, OidcGroups, OidcTenants, PseudonymKey]
  const SECRETS: seq<Material> :=
    [SecretProviderUrl, SecretRole, SecretKvMount, SecretCapability, SecretCaBundle, WorkloadTokenFile, WorkloadRoot, WorkloadAudience]
  const REGISTRY_SECRETS: seq<Material> := [RegistrySecretRole, RegistrySecretBinding, RegistrySecretVersion]

  const WEB_FORBIDDEN := Forbidden(
    [ReconcilerUrl, MigratorUrl, RestoreUrl, ApiUrl, WorkerUrl, PublisherUrl, CatalogUrl, ObserverUrl, BackupUrl, SourceUrl],
    [OperatorActor, OperatorRoles, DataHubToken, ApiBearer, ApiJwks, CursorKey, SecretDirectory])

  const PUBLISHER_FORBIDDEN := Forbidden(
    [WebUrl, ReconcilerUrl, MigratorUrl, RestoreUrl, ApiUrl, WorkerUrl, CatalogUrl, ObserverUrl, BackupUrl, SourceUrl],
    OPERATOR_AND_STUDIO + [AuditKey, IdentityKey, DataHubToken] + OIDC
    + API_ACCESS + [SecretRole, SecretCapability] + REGISTRY_SECRETS)

  const OBSERVER_FORBIDDEN := Forbidden(
    [WebUrl, ReconcilerUrl, MigratorUrl, RestoreUrl, ApiUrl, WorkerUrl, PublisherUrl, CatalogUrl, BackupUrl, SourceUrl],
    OPERATOR_AND_STUDIO + [AuditKey, IdentityKey, DataHubToken] + OIDC
    + API_ACCESS + SECRETS)

  const RECONCILER_FORBIDDEN := Forbidden(
    [WebUrl, MigratorUrl, RestoreUrl, ApiUrl, WorkerUrl, PublisherUrl, CatalogUrl, ObserverUrl, BackupUrl, SourceUrl],
    [IdentityKey, OpenAiKey, QueryStudioKey, DataHubToken] + OIDC + API_ACCESS)

  const BACKUP_FORBIDDEN := Forbidden(
    [WebUrl, ReconcilerUrl, MigratorUrl, RestoreUrl, ApiUrl, WorkerUrl, PublisherUrl, CatalogUrl, ObserverUrl, SourceUrl],
    OPERATOR_AND_STUDIO + [IdentityKey, DataHubToken] + OIDC
    + API_ACCESS + SECRETS + REGISTRY_SECRETS)

  const OPERATOR_FORBIDDEN := Forbidden(
    [],
    [OpenAiKey, QueryStudioKey, DataHubToken] + OIDC + API_ACCESS + SECRETS
    + REGISTRY_SECRETS)

  /** Shared by the API, the worker and the catalog, which the code reaches last. */
  const COMMON_FORBIDDEN := Forbidden(
    [WebUrl, ReconcilerUrl, MigratorUrl, RestoreUrl, ObserverUrl, BackupUrl, PublisherUrl],
    OPERATOR_AND_STUDIO + [AuditKey, IdentityKey])

  const API_FORBIDDEN := Forbidden(
    [SourceUrl, WorkerUrl, CatalogUrl],
    [SecretDirectory, DataHubToken])

  const WORKER_FORBIDDEN := Forbidden(
    [SourceUrl, ApiUrl, CatalogUrl],
    [DataHubToken] + OIDC + [ApiBearer, ApiJwks])

  const CATALOG_FORBIDDEN := Forbidden(
    [SourceUrl, ApiUrl, WorkerUrl],
    OIDC + [ApiBearer, ApiJwks])

  function Both(a: Forbidden, b: Forbidden): Forbidden {
    Forbidden(a.urls + b.urls, a.material + b.material)
  }

  function ForbiddenFor(i: Inputs): Forbidden {
    match i.component
    case Web => if i.Managed() then WEB_FORBIDDEN else NOTHING
    case Publisher => PUBLISHER_FORBIDDEN
    case Observer => OBSERVER_FORBIDDEN
    case Reconciler => RECONCILER_FORBIDDEN
    case Backup => BACKUP_FORBIDDEN
    case Operator => OPERATOR_FORBIDDEN
    case Api => Both(COMMON_FORBIDDEN, API_FORBIDDEN)
    case Worker => Both(COMMON_FORBIDDEN, WORKER_FORBIDDEN)
    case Catalog => Both(COMMON_FORBIDDEN, CATALOG_FORBIDDEN)
  }

  predicate HoldsNone(i: Inputs, f: Forbidden) {
    && (forall k :: 0 <= k < |f.urls| ==> f.urls[k] !in i.urls)
    && (forall k :: 0 <= k < |f.material| ==> f.material[k] !in i.held)
  }

  /** The lists miss no URL: every component but the operator and an unmanaged web process is refused all URLs but its own. */
  lemma ListsCoverEveryOtherUrl(i: Inputs, u: UrlField)
    ensures u in ForbiddenFor(i).urls <==>
              u != Own(i.component) && !i.component.Operator? && (i.component.Web? ==> i.Managed())
  {
    hide WEB_FORBIDDEN, PUBLISHER_FORBIDDEN, OBSERVER_FORBIDDEN, RECONCILER_FORBIDDEN, BACKUP_FORBIDDEN;
    hide COMMON_FORBIDDEN, API_FORBIDDEN, WORKER_FORBIDDEN, CATALOG_FORBIDDEN;
    WebListCovers(u);
    PublisherListCovers(u);
    ObserverListCovers(u);
    ReconcilerListCovers(u);
    BackupListCovers(u);
    CommonListCovers(u);
  }

  lemma WebListCovers(u: UrlField)
    ensures u in WEB_FORBIDDEN.urls <==> !u.WebUrl?
  {}

  lemma PublisherListCovers(u: UrlField)
    ensures u in PUBLISHER_FORBIDDEN.urls <==> !u.PublisherUrl?
  {}

  lemma ObserverListCovers(u: UrlField)
    ensures u in OBSERVER_FORBIDDEN.urls <==> !u.ObserverUrl?
  {}

  lemma ReconcilerListCovers(u: UrlField)
    ensures u in RECONCILER_FORBIDDEN.urls <==> !u.ReconcilerUrl?
  {}

  lemma BackupListCovers(u: UrlField)
    ensures u in BACKUP_FORBIDDEN.urls <==> !u.BackupUrl?
  {}

  /** The common list leaves three URLs and the source; each of the three tails adds all of them but its own. */
  lemma CommonListCovers(u: UrlField)
    ensures u in COMMON_FORBIDDEN.urls <==> !u.ApiUrl? && !u.WorkerUrl? && !u.CatalogUrl? && !u.SourceUrl?
    ensures u in API_FORBIDDEN.urls <==> u.WorkerUrl? || u.CatalogUrl? || u.SourceUrl?
    ensures u in WORKER_FORBIDDEN.urls <==> u.ApiUrl? || u.CatalogUrl? || u.SourceUrl?
    ensures u in CATALOG_FORBIDDEN.urls <==> u.ApiUrl? || u.WorkerUrl? || u.SourceUrl?
  {}

  /** A URL that is held is on no list that holds nothing. */
  lemma HeldIsNotListed(i: Inputs, f: Forbidden, u: UrlField)
    requires HoldsNone(i, f) && u in i.urls
    ensures u !in f.urls
  {}

  // ------------------------------------------------------------------
  // Profile defaults
  // ------------------------------------------------------------------

  /** A mode field was set to something the hosted demo does not allow. */
  predicate OverridesDemo(m: Modes) {
    || (AuthField in m.fieldsSet && m.auth != LocalDemo)
    || (CatalogField in m.fieldsSet && m.catalog != Recorded)
    || (RegistryField in m.fieldsSet && m.registry != Recorded)
    || (PublicationField in m.fieldsSet && m.publication != FakePublication)
    || (ExecutionField in m.fieldsSet && m.execution != RecordedExecution)
    || (SelectionField in m.fieldsSet && m.selection != Fixed)
    || (PlaneField in m.fieldsSet && m.plane != LocalPlane)
    || (AiField in m.fieldsSet && m.ai != FakeAi)
  }

  const MODE_FIELDS: set<ModeField> :=
    {AuthField, CatalogField, RegistryField, PublicationField, ExecutionField, SelectionField, PlaneField, AiField}

  /** The modes of the hosted demo, whatever was configured. */
  function DemoModes(m: Modes): Modes {
    Modes(LocalDemo, Recorded, Recorded, FakePublication, RecordedExecution, Fixed, LocalPlane, FakeAi, m.fieldsSet + MODE_FIELDS)
  }

  function HostedDemoModes(m: Modes): Option<Modes> {
    if OverridesDemo(m) then None
    else Some(DemoModes(m))
  }

  /** Staging and production read live sources through the active registry in PostgreSQL. */
  function ManagedModes(m: Modes): Option<Modes> {
    if || (CatalogField in m.fieldsSet && m.catalog != Live)
       || (RegistryField in m.fieldsSet && m.registry != Live)
       || (SelectionField in m.fieldsSet && m.selection != Active)
       || (PlaneField in m.fieldsSet && m.plane != PostgresPlane)
    then None
    else Some(m.(catalog := Live, registry := Live, selection := Active, plane := PostgresPlane,
              fieldsSet := m.fieldsSet + {CatalogField, RegistryField, SelectionField, PlaneField}))
  }

  predicate Strong(i: Inputs, k: Material) {
    k in i.held && i.strong(i.held[k])
  }

  predicate Differ(i: Inputs, a: Material, b: Material) {
    a in i.held && b in i.held ==> i.held[a] != i.held[b]
  }

  /** Query Studio: the synthetic parser is only a default outside the managed profiles. */
  function QueryStudioModes(i: Inputs, m: Modes): Option<Modes> {
    if !i.pinnedAiModel || (i.Managed() && m.ai.FakeAi? && AiField in m.fieldsSet) then None
    else
      var settled := if i.Managed() && m.ai.FakeAi? then m.(ai := NoAi, fieldsSet := m.fieldsSet + {AiField}) else m;
      if settled.ai.LiveAi? && !(i.component.Web? && m.plane.PostgresPlane? && OpenAiKey in i.held && Strong(i, PseudonymKey)) then None
      else if QueryStudioKey in i.held then
        if Strong(i, QueryStudioKey) && Differ(i, QueryStudioKey, PseudonymKey) then Some(settled) else None
      else if i.Managed() && i.component.Web? then None
      else Some(settled)
  }

  // ------------------------------------------------------------------
  // The control plane
  // ------------------------------------------------------------------

  predicate Usable(i: Inputs, u: Url) {
    u.wellFormed && (i.Managed() ==> u.verifiedTls)
  }

  /** The database role that the component's own URL must use. */
  function RequiredRole(c: Component): Option<string> {
    match c
    case Observer => Some("schemabridge_observer")
    case Backup => Some("schemabridge_backup")
    case Publisher => Some("schemabridge_publisher")
    case _ => None
  }

  predicate OwnUrlFits(i: Inputs)
    requires Own(i.component) in i.urls
  {
    && Usable(i, i.urls[Own(i.component)])
    && (RequiredRole(i.component).Some? ==> i.urls[Own(i.component)].role == RequiredRole(i.component).value)
  }

  /** The URLs compared with the component's own, in the order the code visits them. */
  const COMPARED_URLS: seq<UrlField> :=
    [WebUrl, ReconcilerUrl, MigratorUrl, ApiUrl, WorkerUrl, PublisherUrl, CatalogUrl, ObserverUrl, BackupUrl]

  /** The walk over the compared URLs with its growing set of usernames. */
  predicate ScanUrls(i: Inputs, fields: seq<UrlField>, users: set<string>)
    requires Own(i.component) in i.urls
    decreases |fields|
  {
    if fields == [] then true
    else if fields[0] !in i.urls || fields[0] == Own(i.component) then ScanUrls(i, fields[1..], users)
    else
      var u := i.urls[fields[0]];
      && Usable(i, u) && u.identity == i.urls[Own(i.component)].identity && u.username !in users
      && ScanUrls(i, fields[1..], users + {u.username})
  }

  predicate OtherDatabasesSeparate(i: Inputs)
    requires Own(i.component) in i.urls
  {
    var control := i.urls[Own(i.component)].identity;
    && (RestoreUrl in i.urls ==> Usable(i, i.urls[RestoreUrl]) && i.urls[RestoreUrl].identity != control)
    && (SourceUrl in i.urls ==>
          && Usable(i, i.urls[SourceUrl]) && i.urls[SourceUrl].identity != control
          && (RestoreUrl in i.urls ==> i.urls[RestoreUrl].identity != i.urls[SourceUrl].identity))
  }

  predicate OperatorNamed(i: Inputs) {
    (OperatorActor in i.held <==> OperatorRoles in i.held) && i.operatorRolesDistinct
  }

  predicate KeysFit(i: Inputs) {
    match i.component
    case Web =>
      && Strong(i, AuditKey) && Strong(i, IdentityKey) && Differ(i, AuditKey, IdentityKey)
      && Differ(i, PseudonymKey, AuditKey) && Differ(i, PseudonymKey, IdentityKey) && OperatorNamed(i)
    case Backup => Strong(i, AuditKey)
    case Operator => OperatorNamed(i)
    case Reconciler => Strong(i, AuditKey) && OperatorNamed(i)
    case _ => true
  }

  predicate ControlPlaneOk(i: Inputs, m: Modes) {
    && (m.selection.Active? ==> m.registry.Live? && m.plane.PostgresPlane?)
    && (!i.component.Web? && !i.component.Operator? ==> m.plane.PostgresPlane?)
    && (!m.plane.PostgresPlane? ==> !i.Managed())
    && (m.plane.PostgresPlane? ==>
          && Own(i.component) in i.urls
          && i.sideCheck(PoolSizes, m) && i.sideCheck(ConnectorSecrets, m) && i.sideCheck(Schema, m)
          && OwnUrlFits(i)
          && ScanUrls(i, COMPARED_URLS, {i.urls[Own(i.component)].username})
          && OtherDatabasesSeparate(i)
          && (i.component.Catalog? ==> i.sideCheck(CatalogRouting, m))
          && KeysFit(i))
    && HoldsNone(i, ForbiddenFor(i))
  }

  predicate NeedsOidcMetadata(c: Component) { c.Web? || c.Api? || c.Publisher? }

  /** What is checked of the resolved modes, the control plane included. */
  predicate ModesOk(i: Inputs, m: Modes) {
    && (m.publication.LivePublication? ==> m.auth.Oidc?)
    && (i.environment.Development? && (m.catalog.Live? || m.registry.Live? || m.execution.LiveExecution?) ==> i.allowLocalLiveReads)
    && (m.auth.Oidc? && NeedsOidcMetadata(i.component) ==> i.sideCheck(OidcMetadata, m))
    && i.sideCheck(ApiOptions, m)
    && ControlPlaneOk(i, m)
    && i.sideCheck(Roles, m)
    && (i.Managed() && i.component.Web? ==>
          && PublicationField in m.fieldsSet && m.publication.NoPublication?
          && ExecutionField in m.fieldsSet && m.execution.NoExecution?)
  }

  predicate AuthFits(i: Inputs, m: Modes) {
    && (i.Managed() && !Background(i.component) ==> m.auth.Oidc?)
    && (Background(i.component) ==> m.auth.LocalDemo?)
    && (i.Managed() && i.component.Worker? ==> i.verifiedLineage)
  }

  /** The settings after validation, or `None` when they are rejected. */
  function Validated(i: Inputs, m: Modes): Option<Modes> {
    var demo := if i.environment.HostedDemo? then HostedDemoModes(m) else Some(m);
    if demo.None? || !AuthFits(i, demo.value) then None
    else
      var managed := if i.Managed() then ManagedModes(demo.value) else demo;
      if managed.None? then None
      else
        var settled := QueryStudioModes(i, managed.value);
        if settled.Some? && ModesOk(i, settled.value) then settled else None
  }

  // ------------------------------------------------------------------
  // What acceptance means
  // ------------------------------------------------------------------

  /** Validating accepted settings again accepts them and changes nothing. */
  lemma ValidationIsIdempotent(i: Inputs, m: Modes)
    ensures var r := Validated(i, m); r.Some? ==> Validated(i, r.value) == r
  {
    hide ModesOk, Strong, Differ;
    var r := Validated(i, m);
    if r.Some? {
      var v := r.value;
      var resolved :=
        if i.environment.HostedDemo? then HostedDemoModes(m).value
        else if i.Managed() then ManagedModes(m).value
        else m;
      QueryStudioSettles(i, resolved);
      if i.environment.HostedDemo? {
        assert v.fieldsSet + MODE_FIELDS == v.fieldsSet;
      } else if i.Managed() {
        assert v.fieldsSet + {CatalogField, RegistryField, SelectionField, PlaneField} == v.fieldsSet;
      }
    }
  }

  lemma QueryStudioSettles(i: Inputs, m: Modes)
    ensures var r := QueryStudioModes(i, m);
            r.Some? ==>
              && QueryStudioModes(i, r.value) == r
              && r.value == m.(ai := r.value.ai, fieldsSet := r.value.fieldsSet)
              && m.fieldsSet <= r.value.fieldsSet
              && (!i.Managed() ==> r.value == m)
  {
    hide Strong, Differ;
  }

  // ------------------------------------------------------------------
  // What the walk over the URLs decides
  // ------------------------------------------------------------------

  predicate IsControlUrl(u: UrlField) { !u.RestoreUrl? && !u.SourceUrl? }

  predicate Compared(i: Inputs, fields: seq<UrlField>, k: nat)
    requires k < |fields|
  {
    fields[k] in i.urls && fields[k] != Own(i.component)
  }

  /** What the walk looks for among `fields`: usable URLs of one database under new and different usernames. */
  ghost predicate Agree(i: Inputs, fields: seq<UrlField>, users: set<string>)
    requires Own(i.component) in i.urls
  {
    && (forall k :: 0 <= k < |fields| && Compared(i, fields, k) ==>
          && Usable(i, i.urls[fields[k]])
          && i.urls[fields[k]].identity == i.urls[Own(i.component)].identity
          && i.urls[fields[k]].username !in users)
    && (forall j, k :: 0 <= j < k < |fields| && Compared(i, fields, j) && Compared(i, fields, k) ==>
          i.urls[fields[j]].username != i.urls[fields[k]].username)
  }

  lemma {:induction false} ScanDecidesAgreement(i: Inputs, fields: seq<UrlField>, users: set<string>)
    requires Own(i.component) in i.urls
    ensures ScanUrls(i, fields, users) <==> Agree(i, fields, users)
    decreases |fields|
  {
    if fields != [] {
      var rest := fields[1..];
      assert forall k :: 1 <= k < |fields| ==> fields[k] == rest[k - 1] && Compared(i, fields, k) == Compared(i, rest, k - 1);
      if Compared(i, fields, 0) {
        var name := i.urls[fields[0]].username;
        ScanDecidesAgreement(i, rest, users + {name});
        AgreeCons(i, fields, users, name);
      } else {
        ScanDecidesAgreement(i, rest, users);
        AgreeSkip(i, fields, users);
      }
    }
  }

  lemma AgreeSkip(i: Inputs, fields: seq<UrlField>, users: set<string>)
    requires Own(i.component) in i.urls && fields != [] && !Compared(i, fields, 0)
    ensures Agree(i, fields, users) <==> Agree(i, fields[1..], users)
  {
    hide Usable;
    var rest := fields[1..];
    assert forall k :: 0 <= k < |rest| ==> rest[k] == fields[k + 1] && Compared(i, rest, k) == Compared(i, fields, k + 1);
    if Agree(i, rest, users) {
      forall j, k | 0 <= j < k < |fields| && Compared(i, fields, j) && Compared(i, fields, k)
        ensures i.urls[fields[j]].username != i.urls[fields[k]].username
      {
        assert Compared(i, rest, j - 1) && Compared(i, rest, k - 1);
      }
      assert forall k :: 0 <= k < |fields| && Compared(i, fields, k) ==> Compared(i, rest, k - 1);
    }
  }

  lemma AgreeCons(i: Inputs, fields: seq<UrlField>, users: set<string>, name: string)
    requires Own(i.component) in i.urls && fields != [] && Compared(i, fields, 0)
    requires name == i.urls[fields[0]].username
    ensures Agree(i, fields, users) <==>
              && Usable(i, i.urls[fields[0]]) && i.urls[fields[0]].identity == i.urls[Own(i.component)].identity
              && name !in users && Agree(i, fields[1..], users + {name})
  {
    hide Usable;
    var rest := fields[1..];
    assert forall k :: 0 <= k < |rest| ==> rest[k] == fields[k + 1] && Compared(i, rest, k) == Compared(i, fields, k + 1);
    if name !in users && Agree(i, rest, users + {name})
       && Usable(i, i.urls[fields[0]]) && i.urls[fields[0]].identity == i.urls[Own(i.component)].identity
    {
      forall j, k | 0 <= j < k < |fields| && Compared(i, fields, j) && Compared(i, fields, k)
        ensures i.urls[fields[j]].username != i.urls[fields[k]].username
      {
        assert Compared(i, rest, k - 1);
        if j > 0 {
          assert Compared(i, rest, j - 1);
        }
      }
      assert forall k :: 1 <= k < |fields| && Compared(i, fields, k) ==> Compared(i, rest, k - 1);
    }
  }

  /** Every control URL is usable and names the same database, under usernames that never repeat. */
  ghost predicate UrlsAgree(i: Inputs)
    requires Own(i.component) in i.urls
  {
    && (forall u :: u in i.urls && IsControlUrl(u) ==>
          Usable(i, i.urls[u]) && i.urls[u].identity == i.urls[Own(i.component)].identity)
    && (forall u, v :: u in i.urls && v in i.urls && IsControlUrl(u) && IsControlUrl(v) && u != v ==>
          i.urls[u].username != i.urls[v].username)
  }

  lemma ComparedListsControlUrls(u: UrlField)
    ensures u in COMPARED_URLS <==> IsControlUrl(u)
  {}

  lemma ComparedRepeatsNothing(j: nat, k: nat)
    requires j < k < |COMPARED_URLS|
    ensures COMPARED_URLS[j] != COMPARED_URLS[k]
  {}

  /** The walk from the own username accepts exactly when all control URLs agree pairwise. */
  lemma ScanMeansUrlsAgree(i: Inputs)
    requires Own(i.component) in i.urls && Usable(i, i.urls[Own(i.component)])
    ensures ScanUrls(i, COMPARED_URLS, {i.urls[Own(i.component)].username}) <==> UrlsAgree(i)
  {
    hide Usable, ScanUrls;
    var own := Own(i.component);
    var users := {i.urls[own].username};
    ScanDecidesAgreement(i, COMPARED_URLS, users);
    if Agree(i, COMPARED_URLS, users) {
      forall u | u in i.urls && IsControlUrl(u)
        ensures Usable(i, i.urls[u]) && i.urls[u].identity == i.urls[own].identity
        ensures u != own ==> i.urls[u].username !in users
      {
        ComparedListsControlUrls(u);
        var k :| 0 <= k < |COMPARED_URLS| && COMPARED_URLS[k] == u;
        assert u != own ==> Compared(i, COMPARED_URLS, k);
      }
      forall u, v | u in i.urls && v in i.urls && IsControlUrl(u) && IsControlUrl(v) && u != v
        ensures i.urls[u].username != i.urls[v].username
      {
        if u != own && v != own {
          ComparedListsControlUrls(u);
          ComparedListsControlUrls(v);
          var j :| 0 <= j < |COMPARED_URLS| && COMPARED_URLS[j] == u;
          var k :| 0 <= k < |COMPARED_URLS| && COMPARED_URLS[k] == v;
          assert Compared(i, COMPARED_URLS, j) && Compared(i, COMPARED_URLS, k);
        }
      }
    }
    if UrlsAgree(i) {
      forall k | 0 <= k < |COMPARED_URLS|
        ensures IsControlUrl(COMPARED_URLS[k])
      {
        ComparedListsControlUrls(COMPARED_URLS[k]);
      }
      forall j, k | 0 <= j < k < |COMPARED_URLS|
        ensures COMPARED_URLS[j] != COMPARED_URLS[k]
      {
        ComparedRepeatsNothing(j, k);
      }
      assert IsControlUrl(own);
    }
  }

  // ------------------------------------------------------------------
  // What acceptance means for a deployment
  // ------------------------------------------------------------------

  lemma AcceptedPasses(i: Inputs, m: Modes)
    requires Validated(i, m).Some?
    ensures ModesOk(i, Validated(i, m).value)
    ensures i.Managed() ==> Validated(i, m).value.plane.PostgresPlane?
  {
    hide ModesOk, Strong, Differ;
  }

  /** An accepted component other than the operator, and other than an unmanaged web process, holds exactly one database URL, its own. */
  lemma AcceptedHoldsOnlyItsOwnUrl(i: Inputs, m: Modes)
    requires Validated(i, m).Some? && !i.component.Operator?
    requires i.component.Web? ==> i.Managed()
    ensures i.urls.Keys == {Own(i.component)}
  {
    AcceptedPasses(i, m);
    hide Validated, ScanUrls, KeysFit, OtherDatabasesSeparate, ForbiddenFor;
    forall u | u in i.urls
      ensures u == Own(i.component)
    {
      ListsCoverEveryOtherUrl(i, u);
      HeldIsNotListed(i, ForbiddenFor(i), u);
    }
  }

  /** Accepted PostgreSQL settings: one control database under distinct users, apart from the source and the restore target. */
  lemma AcceptedUrlsAgree(i: Inputs, m: Modes)
    requires Validated(i, m).Some? && Validated(i, m).value.plane.PostgresPlane?
    ensures Own(i.component) in i.urls && UrlsAgree(i)
    ensures forall u :: u in i.urls && !IsControlUrl(u) ==> i.urls[u].identity != i.urls[Own(i.component)].identity
    ensures RestoreUrl in i.urls && SourceUrl in i.urls ==> i.urls[RestoreUrl].identity != i.urls[SourceUrl].identity
  {
    AcceptedPasses(i, m);
    hide Validated, KeysFit, HoldsNone, ForbiddenFor, ScanUrls, UrlsAgree;
    ScanMeansUrlsAgree(i);
  }

  /** Staging and production end up live, active, in PostgreSQL over verified TLS and without the synthetic parser. */
  lemma AcceptedManagedProfile(i: Inputs, m: Modes)
    requires Validated(i, m).Some? && i.Managed()
    ensures var v := Validated(i, m).value;
            && v.catalog.Live? && v.registry.Live? && v.selection.Active? && v.plane.PostgresPlane?
            && !v.ai.FakeAi?
            && (v.auth.Oidc? <==> !Background(i.component))
            && (i.component.Web? ==> v.publication.NoPublication? && v.execution.NoExecution?)
    ensures forall u :: u in i.urls ==> i.urls[u].verifiedTls
  {
    AcceptedPasses(i, m);
    AcceptedUrlsAgree(i, m);
    hide ControlPlaneOk, Strong, Differ;
    assert forall u :: u in i.urls ==> Usable(i, i.urls[u]) by {
      OtherUrlsUsable(i, Validated(i, m).value);
    }
  }

  lemma OtherUrlsUsable(i: Inputs, m: Modes)
    requires ControlPlaneOk(i, m) && m.plane.PostgresPlane? && UrlsAgree(i)
    ensures forall u :: u in i.urls ==> Usable(i, i.urls[u])
  {
    hide KeysFit, HoldsNone, ForbiddenFor, ScanUrls;
  }

  /** The configured value of a mode field is the demo's. */
  predicate DemoValue(m: Modes, f: ModeField) {
    match f
    case AuthField => m.auth == DemoModes(m).auth
    case CatalogField => m.catalog == DemoModes(m).catalog
    case RegistryField => m.registry == DemoModes(m).registry
    case PublicationField => m.publication == DemoModes(m).publication
    case ExecutionField => m.execution == DemoModes(m).execution
    case SelectionField => m.selection == DemoModes(m).selection
    case PlaneField => m.plane == DemoModes(m).plane
    case AiField => m.ai == DemoModes(m).ai
  }

  /**
   The whole validator on the hosted demo, as conditions a deployer can read off the
   configuration: only web and operator, no explicitly set mode but the demo's own, the
   Query Studio key fit if present, no forbidden credential, and the side checks that
   apply.  The outcome does not depend on the modes left unset.
   */
  lemma HostedDemoAcceptedExactlyWhen(i: Inputs, m: Modes)
    requires i.environment.HostedDemo?
    ensures Validated(i, m).Some? <==>
              && (i.component.Web? || i.component.Operator?)
              && (forall f :: f in m.fieldsSet ==> DemoValue(m, f))
              && i.pinnedAiModel
              && (QueryStudioKey in i.held ==> i.component.Web? && Strong(i, QueryStudioKey) && Differ(i, QueryStudioKey, PseudonymKey))
              && (i.component.Operator? ==> HoldsNone(i, OPERATOR_FORBIDDEN))
              && i.sideCheck(ApiOptions, DemoModes(m)) && i.sideCheck(Roles, DemoModes(m))
    ensures Validated(i, m).Some? ==> Validated(i, m) == Some(DemoModes(m))
  {
    hide Strong, Differ, ScanUrls, OtherDatabasesSeparate, KeysFit;
    DemoOverrides(m);
    if i.component.Operator? && QueryStudioKey in i.held {
      assert OPERATOR_FORBIDDEN.material[1] == QueryStudioKey;
    }
  }

  lemma DemoOverrides(m: Modes)
    ensures OverridesDemo(m) <==> exists f :: f in m.fieldsSet && !DemoValue(m, f)
  {}
}
