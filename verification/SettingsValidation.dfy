/** The settings object whose validator assigns its own fields and returns early. */
module SettingsValidation {
  import opened SettingsProfile

  class Settings {
    const inputs: Inputs
    var auth: AuthMode
    var catalog: SourceKind
    var registry: SourceKind
    var publication: PublicationKind
    var execution: ExecutionKind
    var selection: Selection
    var plane: ControlPlane
    var ai: AiMode
    var fieldsSet: set<ModeField>

    constructor (inputs: Inputs, m: Modes)
      ensures this.inputs == inputs && Value() == m
    {
      this.inputs := inputs;
      auth, catalog, registry, publication := m.auth, m.catalog, m.registry, m.publication;
      execution, selection, plane, ai, fieldsSet := m.execution, m.selection, m.plane, m.ai, m.fieldsSet;
    }

    function Value(): Modes
      reads this
    {
      Modes(auth, catalog, registry, publication, execution, selection, plane, ai, fieldsSet)
    }

    /** Accepts exactly what the declarative validation accepts, leaving exactly its modes. */
    method Validate() returns (accepted: bool)
      modifies this
      ensures accepted <==> Validated(inputs, old(Value())).Some?
      ensures accepted ==> Value() == Validated(inputs, old(Value())).value
    {
      hide ModesOk, AuthFits, Strong, Differ;
      if inputs.environment.HostedDemo? {
        var applied := ApplyHostedDemoProfile();
        if !applied {
          return false;
        }
      }
      if !AuthFits(inputs, Value()) {
        return false;
      }
      if inputs.Managed() {
        var resolved := ResolveManagedModes();
        if !resolved {
          return false;
        }
      }
      var settled := ValidateQueryStudio();
      if !settled {
        return false;
      }
      accepted := CheckModes();
    }

    method ApplyHostedDemoProfile() returns (ok: bool)
      modifies this
      ensures ok <==> HostedDemoModes(old(Value())).Some?
      ensures ok ==> Value() == HostedDemoModes(old(Value())).value
    {
      hide OverridesDemo;
      if OverridesDemo(Value()) {
        return false;
      }
      auth, catalog, registry, publication := LocalDemo, Recorded, Recorded, FakePublication;
      execution, selection, plane, ai := RecordedExecution, Fixed, LocalPlane, FakeAi;
      fieldsSet := fieldsSet + MODE_FIELDS;
      return true;
    }

    method ResolveManagedModes() returns (ok: bool)
      modifies this
      ensures ok <==> ManagedModes(old(Value())).Some?
      ensures ok ==> Value() == ManagedModes(old(Value())).value
    {
      if CatalogField in fieldsSet && catalog != Live {
        return false;
      }
      if RegistryField in fieldsSet && registry != Live {
        return false;
      }
      if SelectionField in fieldsSet && selection != Active {
        return false;
      }
      if PlaneField in fieldsSet && plane != PostgresPlane {
        return false;
      }
      catalog, registry, selection, plane := Live, Live, Active, PostgresPlane;
      fieldsSet := fieldsSet + {CatalogField, RegistryField, SelectionField, PlaneField};
      return true;
    }

    method ValidateQueryStudio() returns (ok: bool)
      modifies this
      ensures ok <==> QueryStudioModes(inputs, old(Value())).Some?
      ensures ok ==> Value() == QueryStudioModes(inputs, old(Value())).value
    {
      hide Strong, Differ;
      if !inputs.pinnedAiModel {
        return false;
      }
      if inputs.Managed() && ai.FakeAi? {
        if AiField in fieldsSet {
          return false;
        }
        ai := NoAi;
        fieldsSet := fieldsSet + {AiField};
      }
      if ai.LiveAi? && !(inputs.component.Web? && plane.PostgresPlane? && OpenAiKey in inputs.held && Strong(inputs, PseudonymKey)) {
        return false;
      }
      if QueryStudioKey in inputs.held {
        return Strong(inputs, QueryStudioKey) && Differ(inputs, QueryStudioKey, PseudonymKey);
      }
      return !(inputs.Managed() && inputs.component.Web?);
    }

    /** The checks that only read the settings. */
    method CheckModes() returns (ok: bool)
      ensures ok <==> ModesOk(inputs, Value())
    {
      hide ControlPlaneOk;
      var m := Value();
      if publication.LivePublication? && !auth.Oidc? {
        return false;
      }
      if inputs.environment.Development? && (catalog.Live? || registry.Live? || execution.LiveExecution?) && !inputs.allowLocalLiveReads {
        return false;
      }
      if auth.Oidc? && NeedsOidcMetadata(inputs.component) && !inputs.sideCheck(OidcMetadata, m) {
        return false;
      }
      if !inputs.sideCheck(ApiOptions, m) {
        return false;
      }
      var plane := CheckControlPlane();
      if !plane || !inputs.sideCheck(Roles, m) {
        return false;
      }
      if !inputs.Managed() || !inputs.component.Web? {
        return true;
      }
      return PublicationField in fieldsSet && publication.NoPublication? && ExecutionField in fieldsSet && execution.NoExecution?;
    }

    method CheckControlPlane() returns (ok: bool)
      ensures ok <==> ControlPlaneOk(inputs, Value())
    {
      hide ScanUrls, OwnUrlFits, OtherDatabasesSeparate, KeysFit, HoldsNone, ForbiddenFor;
      var m := Value();
      if selection.Active? && (!registry.Live? || !plane.PostgresPlane?) {
        return false;
      }
      if !inputs.component.Web? && !inputs.component.Operator? && !plane.PostgresPlane? {
        return false;
      }
      if !plane.PostgresPlane? {
        if inputs.Managed() {
          return false;
        }
        ok := RejectCrossComponentCredentials();
        return;
      }
      if !inputs.sideCheck(PoolSizes, m) || Own(inputs.component) !in inputs.urls
         || !inputs.sideCheck(ConnectorSecrets, m) || !inputs.sideCheck(Schema, m)
      {
        return false;
      }
      var agree := CheckUrls();
      if !agree || !OtherDatabasesSeparate(inputs) {
        return false;
      }
      if inputs.component.Catalog? && !inputs.sideCheck(CatalogRouting, m) {
        return false;
      }
      if !KeysFit(inputs) {
        return false;
      }
      ok := RejectCrossComponentCredentials();
    }

    /** The loop over the control URLs, with its growing set of usernames. */
    method CheckUrls() returns (ok: bool)
      requires Own(inputs.component) in inputs.urls
      ensures ok <==> (OwnUrlFits(inputs) && ScanUrls(inputs, COMPARED_URLS, {inputs.urls[Own(inputs.component)].username}))
      ensures ok <==> (OwnUrlFits(inputs) && UrlsAgree(inputs))
    {
      hide UrlsAgree, Usable;
      var own := inputs.urls[Own(inputs.component)];
      if !OwnUrlFits(inputs) {
        return false;
      }
      ScanMeansUrlsAgree(inputs);
      var users := {own.username};
      for k := 0 to |COMPARED_URLS|
        invariant ScanUrls(inputs, COMPARED_URLS, {own.username}) <==> ScanUrls(inputs, COMPARED_URLS[k..], users)
      {
        var field := COMPARED_URLS[k];
        assert COMPARED_URLS[k..][1..] == COMPARED_URLS[k + 1..];
        if field in inputs.urls && field != Own(inputs.component) {
          var url := inputs.urls[field];
          if !Usable(inputs, url) || url.identity != own.identity || url.username in users {
            return false;
          }
          users := users + {url.username};
        }
      }
      return true;
    }

    /** The component's list of forbidden settings is chosen branch by branch, then scanned for one that is present. */
    method RejectCrossComponentCredentials() returns (ok: bool)
      ensures ok <==> HoldsNone(inputs, ForbiddenFor(inputs))
    {
      hide HoldsNone;
      if inputs.component.Web? {
        if !inputs.Managed() {
          assert HoldsNone(inputs, NOTHING) by { HoldsNothing(inputs); }
          return true;
        }
        ok := ScanForbidden(WEB_FORBIDDEN);
        return;
      }
      if inputs.component.Publisher? {
        ok := ScanForbidden(PUBLISHER_FORBIDDEN);
        return;
      }
      if inputs.component.Observer? {
        ok := ScanForbidden(OBSERVER_FORBIDDEN);
        return;
      }
      if inputs.component.Reconciler? {
        ok := ScanForbidden(RECONCILER_FORBIDDEN);
        return;
      }
      if inputs.component.Backup? {
        ok := ScanForbidden(BACKUP_FORBIDDEN);
        return;
      }
      if inputs.component.Operator? {
        ok := ScanForbidden(OPERATOR_FORBIDDEN);
        return;
      }
      var specific: Forbidden;
      if inputs.component.Api? {
        specific := API_FORBIDDEN;
      } else if inputs.component.Worker? {
        specific := WORKER_FORBIDDEN;
      } else {
        specific := CATALOG_FORBIDDEN;
      }
      ok := ScanForbidden(Both(COMMON_FORBIDDEN, specific));
    }

    method ScanForbidden(f: Forbidden) returns (ok: bool)
      ensures ok <==> HoldsNone(inputs, f)
    {
      for k := 0 to |f.urls|
        invariant forall j :: 0 <= j < k ==> f.urls[j] !in inputs.urls
      {
        if f.urls[k] in inputs.urls {
          return false;
        }
      }
      for k := 0 to |f.material|
        invariant forall j :: 0 <= j < k ==> f.material[j] !in inputs.held
      {
        if f.material[k] in inputs.held {
          return false;
        }
      }
      return true;
    }
  }

  lemma HoldsNothing(i: Inputs)
    ensures HoldsNone(i, NOTHING)
  {}
}
