/**
 The M25 catalog panel: cascading selections (connection, asset, fields) over
 three pagers that also pin a catalog generation.  Every action carries whatever
 the upstream answered, so the upstream may change or misbehave at will.
 */
module CatalogPanel {
  import opened Wrappers
  import opened PageHistory

  const ALIASES: set<string> := {"small", "large", "datahub"}

  const INVALID_ALIAS := Problem(400, "invalid_alias")
  const INVALID_ACTION_PARAMETERS := Problem(400, "invalid_action_parameters")
  const INVALID_IDENTIFIER := Problem(400, "invalid_identifier")
  const CONNECTION_REQUIRED := Problem(409, "connection_required")
  const ASSET_REQUIRED := Problem(409, "asset_required")
  const CONNECTION_NOT_VISIBLE := Problem(404, "connection_not_visible")
  const ASSET_NOT_VISIBLE := Problem(404, "asset_not_visible")
  const INVALID_UPSTREAM_RESPONSE := Problem(502, "invalid_upstream_response")
  const CATALOG_GENERATION_CHANGED := Problem(409, "catalog_generation_changed")
  const PAGING_STATE_ERROR := Problem(500, "paging_state_error")

  datatype Asset = Asset(assetId: string, generation: int)
  datatype Field = Field(path: seq<string>, generation: int)

  datatype Query = Query(pageSize: nat, values: map<string, string>)

  // ------------------------------------------------------------------
  // Pagers that pin a generation
  // ------------------------------------------------------------------

  datatype Pages = Pages(history: History<Query>, generation: Option<int>)

  function NoPages(generation: Option<int>): Pages {
    Pages(Unloaded(), generation)
  }

  /** The M25 panel names the two exhausted directions apart. */
  function Named(direction: string, p: Problem): Problem {
    if p != PAGE_UNAVAILABLE then p
    else Problem(409, if direction == "previous" then "no_previous_page" else "no_next_page")
  }

  function PagePrepared(p: Pages, direction: string, q: Query): Result<Pages, Problem>
    requires p.history.InRange()
  {
    match Prepared(p.history, direction, q)
    case Err(problem) => Err(Named(direction, problem))
    case Ok(h) => Ok(Pages(h, if direction == "first" then None else p.generation))
  }

  function PageRecorded(p: Pages, next: Option<Cursor>, generation: Option<int>): Result<Pages, Problem>
    requires p.history.InRange()
  {
    if p.history.entries == [] then Err(PAGING_STATE_ERROR)
    else if p.generation.None? then Ok(Pages(Recorded(p.history, next), generation))
    else if generation.Some? && generation != p.generation then Err(CATALOG_GENERATION_CHANGED)
    else Ok(Pages(Recorded(p.history, next), p.generation))
  }

  // ------------------------------------------------------------------
  // What the upstream may answer
  // ------------------------------------------------------------------

  /** `Refused` is an error status or a raised transport failure, already projected. */
  datatype Answer<+T> = Refused(problem: Problem) | Delivered(page: T)

  /** `wellFormed` covers the projection's checks on text, numbers and cursors. */
  datatype ConnectionPage = ConnectionPage(wellFormed: bool, ids: seq<string>, next: Option<Cursor>)
  datatype AssetPage = AssetPage(wellFormed: bool, generation: int, items: seq<Asset>, next: Option<Cursor>)
  datatype FieldPage = FieldPage(wellFormed: bool, generation: int, items: seq<Field>, next: Option<Cursor>)

  predicate AssetPageProjects(p: AssetPage) {
    p.wellFormed && p.generation >= 1 && forall i :: 0 <= i < |p.items| ==> p.items[i].generation == p.generation
  }

  predicate FieldPageProjects(p: FieldPage) {
    p.wellFormed && p.generation >= 1 && forall i :: 0 <= i < |p.items| ==> p.items[i].generation == p.generation
  }

  // ------------------------------------------------------------------
  // Actions on values
  // ------------------------------------------------------------------

  /**
   A query is an error when the panel refuses its filters or its page size.  `Rejected` is an
   action that validation refuses, or one that raised unexpectedly; the fields that a
   refresh or a probe fills are not part of this model, only whether it failed.
   */
  datatype Action =
    | Rejected(problem: Problem)
    | SelectAlias(alias: string)
    | Connections(direction: string, query: Result<Query, Problem>, connections: Answer<ConnectionPage>)
    | SelectConnection(connectionId: string)
    | Assets(direction: string, query: Result<Query, Problem>, assets: Answer<AssetPage>)
    | SelectAsset(assetId: string)
    | Fields(direction: string, query: Result<Query, Problem>, fields: Answer<FieldPage>)
    | RefreshOrProbe(outcome: Option<Problem>)

  datatype Catalog = Catalog(
    alias: string,
    selectedConnection: Option<string>,
    selectedAsset: Option<string>,
    selectedGeneration: Option<int>,
    connections: seq<string>,
    assets: seq<Asset>,
    fields: seq<Field>,
    connectionPages: Pages,
    assetPages: Pages,
    fieldPages: Pages)
  {
    ghost predicate InRange() {
      connectionPages.history.InRange() && assetPages.history.InRange() && fieldPages.history.InRange()
    }
  }

  function NewCatalog(alias: string): Catalog {
    Catalog(alias, None, None, None, [], [], [], NoPages(None), NoPages(None), NoPages(None))
  }

  predicate RequiredText(s: string, maximum: nat) {
    1 <= |s| <= maximum && forall i :: 0 <= i < |s| ==> s[i] as int >= 32 && s[i] as int != 127
  }

  /** Full match of `[a-z0-9][a-z0-9_-]{2,199}`. */
  predicate IsIdentifier(s: string) {
    3 <= |s| <= 200 && forall i :: 0 <= i < |s| ==>
      'a' <= s[i] <= 'z' || '0' <= s[i] <= '9' || (i > 0 && (s[i] == '_' || s[i] == '-'))
  }

  /** The checks shared by the paging actions, in the order they are made. */
  function DirectionProblem(direction: string, query: Result<Query, Problem>): Option<Problem> {
    if !RequiredText(direction, 8) then Some(INVALID_ACTION_PARAMETERS)
    else if direction !in {"first", "next", "previous"} then Some(INVALID_DIRECTION)
    else if query.Err? then Some(query.error)
    else None
  }

  /** Clone, prepare, request, project, record; `pin` replaces a missing generation before the request. */
  function Turned(p: Pages, direction: string, q: Query, pin: Option<int>, answer: Answer<(bool, Option<int>, Option<Cursor>)>)
    : (r: Result<Pages, Problem>)
    requires p.history.InRange()
    ensures r.Ok? ==> r.value.history.InRange()
  {
    match PagePrepared(p, direction, q)
    case Err(problem) => Err(problem)
    case Ok(moved) =>
      match answer
      case Refused(problem) => Err(problem)
      case Delivered((projects, generation, next)) =>
        if !projects then Err(INVALID_UPSTREAM_RESPONSE)
        else PageRecorded(if moved.generation.None? then moved.(generation := pin) else moved, next, generation)
  }

  function ConnectionAnswer(a: Answer<ConnectionPage>): Answer<(bool, Option<int>, Option<Cursor>)> {
    match a case Refused(p) => Refused(p) case Delivered(page) => Delivered((page.wellFormed, None, page.next))
  }

  function AssetAnswer(a: Answer<AssetPage>): Answer<(bool, Option<int>, Option<Cursor>)> {
    match a case Refused(p) => Refused(p) case Delivered(page) => Delivered((AssetPageProjects(page), Some(page.generation), page.next))
  }

  function FieldAnswer(a: Answer<FieldPage>): Answer<(bool, Option<int>, Option<Cursor>)> {
    match a case Refused(p) => Refused(p) case Delivered(page) => Delivered((FieldPageProjects(page), Some(page.generation), page.next))
  }

  function LoadConnections(c: Catalog, direction: string, q: Query, a: Answer<ConnectionPage>): (r: Result<Catalog, Problem>)
    requires c.InRange()
    ensures r.Ok? ==> r.value.InRange()
  {
    match Turned(c.connectionPages, direction, q, None, ConnectionAnswer(a))
    case Err(problem) => Err(problem)
    case Ok(pages) =>
      var loaded := c.(connectionPages := pages, connections := a.page.ids);
      if c.selectedConnection.Some? && c.selectedConnection.value in a.page.ids then Ok(loaded)
      else Ok(loaded.(selectedConnection := None, selectedAsset := None, assets := [], fields := []))
  }

  function ChooseConnection(c: Catalog, id: string): Result<Catalog, Problem> {
    if !RequiredText(id, 200) then Err(INVALID_ACTION_PARAMETERS)
    else if !IsIdentifier(id) then Err(INVALID_IDENTIFIER)
    else if id !in c.connections then Err(CONNECTION_NOT_VISIBLE)
    else Ok(c.(selectedConnection := Some(id), selectedAsset := None, selectedGeneration := None,
            assets := [], fields := [], assetPages := NoPages(None), fieldPages := NoPages(None)))
  }

  predicate Shows(assets: seq<Asset>, id: string) {
    exists i :: 0 <= i < |assets| && assets[i].assetId == id
  }

  /** The generation of the last shown asset with that identifier. */
  function ShownGeneration(assets: seq<Asset>, id: string): (g: int)
    requires Shows(assets, id)
    ensures Asset(id, g) in assets
  {
    var last := assets[|assets| - 1];
    if last.assetId == id then last.generation else ShownGeneration(assets[..|assets| - 1], id)
  }

  function LoadAssets(c: Catalog, direction: string, query: Result<Query, Problem>, a: Answer<AssetPage>): (r: Result<Catalog, Problem>)
    requires c.InRange()
    ensures r.Ok? ==> r.value.InRange()
  {
    if c.selectedConnection.None? then Err(CONNECTION_REQUIRED)
    else if DirectionProblem(direction, query).Some? then Err(DirectionProblem(direction, query).value)
    else
      match Turned(c.assetPages, direction, query.value, None, AssetAnswer(a))
      case Err(problem) => Err(problem)
      case Ok(pages) =>
        var loaded := c.(assetPages := pages, assets := a.page.items);
        if c.selectedAsset.Some? && Shows(a.page.items, c.selectedAsset.value) then Ok(loaded)
        else Ok(loaded.(selectedAsset := None, selectedGeneration := None, fields := []))
  }

  predicate SafeAssetId(id: string) {
    && 1 <= |id| <= 500
    && (forall i :: 0 <= i < |id| ==> id[i] as int >= 32 && id[i] as int != 127 && id[i] !in "/\\?#%")
    && (forall i :: 0 <= i < |id| - 1 ==> !(id[i] == '.' && id[i + 1] == '.'))
  }

  function ChooseAsset(c: Catalog, id: string): Result<Catalog, Problem> {
    if !SafeAssetId(id) then Err(Problem(400, "invalid_asset_id"))
    else if !Shows(c.assets, id) then Err(ASSET_NOT_VISIBLE)
    else
      var generation := Some(ShownGeneration(c.assets, id));
      Ok(c.(selectedAsset := Some(id), selectedGeneration := generation, fields := [], fieldPages := NoPages(generation)))
  }

  function LoadFields(c: Catalog, direction: string, query: Result<Query, Problem>, a: Answer<FieldPage>): (r: Result<Catalog, Problem>)
    requires c.InRange()
    ensures r.Ok? ==> r.value.InRange()
  {
    if c.selectedConnection.None? then Err(CONNECTION_REQUIRED)
    else if c.selectedAsset.None? || c.selectedGeneration.None? then Err(ASSET_REQUIRED)
    else if DirectionProblem(direction, query).Some? then Err(DirectionProblem(direction, query).value)
    else
      match Turned(c.fieldPages, direction, query.value, c.selectedGeneration, FieldAnswer(a))
      case Err(problem) => Err(problem)
      case Ok(pages) => Ok(c.(fieldPages := pages, fields := a.page.items))
  }

  function Applied(c: Catalog, a: Action): (r: Result<Catalog, Problem>)
    requires c.InRange()
    ensures r.Ok? ==> r.value.InRange()
  {
    match a
    case Rejected(problem) => Err(problem)
    case SelectAlias(alias) =>
      if !RequiredText(alias, 8) then Err(INVALID_ACTION_PARAMETERS)
      else if alias !in ALIASES then Err(INVALID_ALIAS)
      else Ok(NewCatalog(alias))
    case Connections(direction, query, answer) =>
      if DirectionProblem(direction, query).Some? then Err(DirectionProblem(direction, query).value)
      else LoadConnections(c, direction, query.value, answer)
    case SelectConnection(id) => ChooseConnection(c, id)
    case Assets(direction, query, answer) => LoadAssets(c, direction, query, answer)
    case SelectAsset(id) => ChooseAsset(c, id)
    case Fields(direction, query, answer) => LoadFields(c, direction, query, answer)
    case RefreshOrProbe(outcome) => if outcome.Some? then Err(outcome.value) else Ok(c)
  }

  function Step(c: Catalog, a: Action): (r: Catalog)
    requires c.InRange()
    ensures r.InRange()
  {
    match Applied(c, a)
    case Ok(next) => next
    case Err(_) => c
  }

  function Run(actions: seq<Action>): (r: Catalog)
    ensures r.InRange()
  {
    if actions == [] then NewCatalog("small") else Step(Run(actions[..|actions| - 1]), actions[|actions| - 1])
  }

  // ------------------------------------------------------------------
  // Consistency in every reachable state
  // ------------------------------------------------------------------

  /** The generation shown for the asset when it was last selected. */
  function LastPin(actions: seq<Action>): Option<int> {
    if actions == [] then None
    else
      var before, a := Run(actions[..|actions| - 1]), actions[|actions| - 1];
      if a.SelectAsset? && Applied(before, a).Ok? then Some(ShownGeneration(before.assets, a.assetId))
      else LastPin(actions[..|actions| - 1])
  }

  /** Every selection is on display, and nothing is displayed without the selection it depends on. */
  ghost predicate SelectionsShown(c: Catalog) {
    && (c.selectedConnection.Some? ==> c.selectedConnection.value in c.connections)
    && (c.selectedAsset.Some? ==> c.selectedConnection.Some? && Shows(c.assets, c.selectedAsset.value))
    && (c.assets != [] ==> c.selectedConnection.Some?)
    && (c.fields != [] ==> c.selectedAsset.Some?)
  }

  /** Displayed assets and fields belong to the pinned generations. */
  ghost predicate GenerationsPinned(c: Catalog) {
    && (forall i :: 0 <= i < |c.assets| ==> c.assetPages.generation == Some(c.assets[i].generation))
    && (forall i :: 0 <= i < |c.fields| ==> c.selectedGeneration == Some(c.fields[i].generation))
    && (c.selectedAsset.Some? ==> c.selectedGeneration.Some? && c.fieldPages.generation == c.selectedGeneration)
  }

  ghost predicate Windows(c: Catalog) {
    Window(c.connectionPages.history) && Window(c.assetPages.history) && Window(c.fieldPages.history)
  }

  ghost predicate Invariant(c: Catalog) {
    SelectionsShown(c) && GenerationsPinned(c) && Windows(c)
  }

  lemma TurnedFacts(p: Pages, direction: string, q: Query, pin: Option<int>, answer: Answer<(bool, Option<int>, Option<Cursor>)>)
    requires Window(p.history)
    ensures var r := Turned(p, direction, q, pin, answer);
            r.Ok? ==>
              && Window(r.value.history)
              && answer.Delivered? && answer.page.0
              && (answer.page.1.Some? ==> r.value.generation == answer.page.1)
              && (direction != "first" && p.generation.Some? ==> r.value.generation == p.generation)
              && (direction == "first" && pin.Some? ==> r.value.generation == pin)
  {
    assert p.history.InRange();
    hide Window;
    PreparedKeepsWindow(p.history, direction, q);
    if Turned(p, direction, q, pin, answer).Ok? {
      RecordedKeepsWindow(Prepared(p.history, direction, q).value, answer.page.2);
    }
    hide Prepared, Recorded;
  }

  lemma LoadConnectionsKeepsInvariant(c: Catalog, direction: string, q: Query, a: Answer<ConnectionPage>)
    requires Invariant(c) && c.InRange()
    ensures var r := LoadConnections(c, direction, q, a); r.Ok? ==> Invariant(r.value)
  {
    hide Window, Turned, Shows;
    TurnedFacts(c.connectionPages, direction, q, None, ConnectionAnswer(a));
  }

  lemma LoadAssetsKeepsInvariant(c: Catalog, direction: string, query: Result<Query, Problem>, a: Answer<AssetPage>)
    requires Invariant(c) && c.InRange()
    ensures var r := LoadAssets(c, direction, query, a); r.Ok? ==> Invariant(r.value)
  {
    hide Window, Turned, Shows;
    if query.Ok? {
      TurnedFacts(c.assetPages, direction, query.value, None, AssetAnswer(a));
    }
  }

  lemma LoadFieldsKeepsInvariant(c: Catalog, direction: string, query: Result<Query, Problem>, a: Answer<FieldPage>)
    requires Invariant(c) && c.InRange()
    ensures var r := LoadFields(c, direction, query, a); r.Ok? ==> Invariant(r.value)
  {
    hide Window, Turned, Shows;
    if query.Ok? {
      TurnedFacts(c.fieldPages, direction, query.value, c.selectedGeneration, FieldAnswer(a));
    }
  }

  lemma StepKeepsInvariant(c: Catalog, a: Action)
    requires Invariant(c) && c.InRange()
    ensures Invariant(Step(c, a))
  {
    hide LoadConnections, LoadAssets, LoadFields, SafeAssetId;
    match a
    case Connections(direction, query, answer) =>
      if query.Ok? {
        LoadConnectionsKeepsInvariant(c, direction, query.value, answer);
      }
    case Assets(direction, query, answer) => LoadAssetsKeepsInvariant(c, direction, query, answer);
    case Fields(direction, query, answer) => LoadFieldsKeepsInvariant(c, direction, query, answer);
    case _ =>
  }

  /** Over every run, against any upstream. */
  lemma {:induction false} RunKeepsInvariant(actions: seq<Action>)
    ensures Invariant(Run(actions))
  {
    hide Step;
    if actions != [] {
      RunKeepsInvariant(actions[..|actions| - 1]);
      StepKeepsInvariant(Run(actions[..|actions| - 1]), actions[|actions| - 1]);
    }
  }

  /** Only selecting an asset pins a generation; every other action keeps the pin or drops the selection. */
  lemma StepKeepsPin(c: Catalog, a: Action)
    requires c.InRange() && Step(c, a).selectedAsset.Some?
    ensures if a.SelectAsset? && Applied(c, a).Ok?
            then Shows(c.assets, a.assetId) && Step(c, a).selectedGeneration == Some(ShownGeneration(c.assets, a.assetId))
            else c.selectedAsset.Some? && Step(c, a).selectedGeneration == c.selectedGeneration
  {
    hide Turned, SafeAssetId, Shows;
  }

  lemma {:induction false} RunKeepsPin(actions: seq<Action>)
    requires Run(actions).selectedAsset.Some?
    ensures Run(actions).selectedGeneration == LastPin(actions)
  {
    if actions != [] {
      var before, a := actions[..|actions| - 1], actions[|actions| - 1];
      StepKeepsPin(Run(before), a);
      hide Step, Applied;
      if Run(before).selectedAsset.Some? {
        RunKeepsPin(before);
      }
    }
  }

  /** Every field on display has the generation its asset was selected with. */
  lemma FieldsMatchTheirSelection(actions: seq<Action>)
    ensures var c := Run(actions);
            forall i :: 0 <= i < |c.fields| ==> LastPin(actions) == Some(c.fields[i].generation)
  {
    RunKeepsInvariant(actions);
    if Run(actions).selectedAsset.Some? {
      RunKeepsPin(actions);
    }
  }
}
