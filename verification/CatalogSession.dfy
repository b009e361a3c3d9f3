/**
 The M25 session object.  Paging actions work on a clone of the pager and assign
 the session's fields only once nothing can fail any more; a failed action
 changes nothing but the recorded problem.  A pager held by the session is never
 updated in place, so the session holds its value.
 */
module CatalogSession {
  import opened Wrappers
  import opened PageHistory
  import opened CatalogPanel
  import opened CatalogActions

  class CatalogPager {
    var entries: seq<PageEntry>
    var position: nat
    var filters: Option<Query>
    var generation: Option<int>

    function Value(): Pages
      reads this
    {
      Pages(History(entries, position, filters), generation)
    }

    constructor Clone(other: Pages)
      ensures Value() == other
    {
      entries, position, filters := other.history.entries, other.history.position, other.history.filters;
      generation := other.generation;
    }

    method Prepare(direction: string, wanted: Query) returns (r: Result<Option<Cursor>, Problem>)
      requires Value().history.InRange()
      modifies this
      ensures match PagePrepared(old(Value()), direction, wanted)
              case Ok(p) =>
                && Value() == p
                && p.history.entries != [] && p.history.InRange()
                && r == Ok(p.history.Current().requestCursor)
              case Err(problem) => Value() == old(Value()) && r == Err(problem)
    {
      if direction == "first" {
        entries := [PageEntry(1, None, None)];
        position := 0;
        filters := Some(wanted);
        generation := None;
        return Ok(None);
      }
      if entries == [] || filters != Some(wanted) {
        return Err(PAGING_CONTEXT_CHANGED);
      }
      if direction == "previous" {
        if position == 0 {
          return Err(Problem(409, "no_previous_page"));
        }
        position := position - 1;
        return Ok(entries[position].requestCursor);
      }
      if direction != "next" {
        return Err(INVALID_DIRECTION);
      }
      var current := entries[position];
      if current.nextCursor.None? {
        return Err(Problem(409, "no_next_page"));
      }
      if position + 1 < |entries| {
        position := position + 1;
        return Ok(entries[position].requestCursor);
      }
      entries := entries + [PageEntry(current.number + 1, current.nextCursor, None)];
      position := position + 1;
      if |entries| > MAX_CURSOR_HISTORY {
        entries := entries[1..];
        position := position - 1;
      }
      return Ok(entries[position].requestCursor);
    }

    /** A generation mismatch is raised before anything is recorded. */
    method Record(next: Option<Cursor>, seen: Option<int>) returns (r: Result<(), Problem>)
      requires Value().history.InRange()
      modifies this
      ensures match PageRecorded(old(Value()), next, seen)
              case Ok(p) => Value() == p && r == Ok(())
              case Err(problem) => Value() == old(Value()) && r == Err(problem)
    {
      if entries == [] {
        return Err(PAGING_STATE_ERROR);
      }
      if generation.None? {
        generation := seen;
      } else if seen.Some? && seen != generation {
        return Err(CATALOG_GENERATION_CHANGED);
      }
      entries := entries[position := entries[position].(nextCursor := next)];
      return Ok(());
    }
  }

  class CatalogSessionState {
    var alias: string
    var selectedConnection: Option<string>
    var selectedAsset: Option<string>
    var selectedGeneration: Option<int>
    var connections: seq<string>
    var assets: seq<Asset>
    var fields: seq<Field>
    var connectionPages: Pages
    var assetPages: Pages
    var fieldPages: Pages
    var lastProblem: Option<Problem>

    ghost function View(): Catalog
      reads this
    {
      Catalog(alias, selectedConnection, selectedAsset, selectedGeneration, connections, assets, fields,
              connectionPages, assetPages, fieldPages)
    }

    constructor ()
      ensures View() == NewCatalog("small") && lastProblem == None
    {
      alias := "small";
      selectedConnection, selectedAsset, selectedGeneration := None, None, None;
      connections, assets, fields := [], [], [];
      connectionPages := NoPages(None);
      assetPages := NoPages(None);
      fieldPages := NoPages(None);
      lastProblem := None;
    }

    /** The whole effect of an action, failing or not. */
    method Apply(action: Action) returns (r: Result<(), Problem>)
      requires View().InRange()
      modifies this
      ensures View() == Step(old(View()), action)
      ensures match Applied(old(View()), action)
              case Ok(_) => r == Ok(()) && lastProblem == None
              case Err(problem) => r == Err(problem) && lastProblem == Some(problem)
      ensures r.Err? ==> View() == old(View()) && lastProblem == Some(r.error)
      ensures Windows(old(View())) ==> Windows(View())
      ensures r.Ok? && Windows(old(View())) ==> Fulfilled(old(View()), action, View())
      ensures r.Err? && Windows(old(View())) ==> Justified(old(View()), action, r.error)
    {
      hide Applied, Windows, Fulfilled, Justified;
      ghost var before := View();
      if Windows(before) {
        AppliedExactly(before, action);
        AppliedKeepsWindows(before, action);
        if Applied(before, action).Err? {
          ProblemsAreJustified(before, action);
        }
      }
      r := Dispatch(action);
      lastProblem := if r.Ok? then None else Some(r.error);
    }

    method Dispatch(action: Action) returns (r: Result<(), Problem>)
      requires View().InRange()
      modifies this
      ensures match Applied(old(View()), action)
              case Ok(c) => r == Ok(()) && View() == c
              case Err(problem) => r == Err(problem) && View() == old(View())
    {
      hide RequiredText, ChooseConnection, ChooseAsset, LoadConnections, LoadAssets, LoadFields;
      match action
      case Rejected(problem) => return Err(problem);
      case RefreshOrProbe(outcome) =>
        if outcome.Some? {
          return Err(outcome.value);
        }
        return Ok(());
      case SelectAlias(wanted) =>
        if !RequiredText(wanted, 8) {
          return Err(INVALID_ACTION_PARAMETERS);
        }
        if wanted !in ALIASES {
          return Err(INVALID_ALIAS);
        }
        ResetForAlias(wanted);
        return Ok(());
      case Connections(direction, query, answer) =>
        var refused := DirectionProblem(direction, query);
        if refused.Some? {
          return Err(refused.value);
        }
        r := TurnConnections(direction, query.value, answer);
      case SelectConnection(id) =>
        r := PickConnection(id);
      case Assets(direction, query, answer) =>
        r := TurnAssets(direction, query, answer);
      case SelectAsset(id) =>
        r := PickAsset(id);
      case Fields(direction, query, answer) =>
        r := TurnFields(direction, query, answer);
    }

    method PickConnection(id: string) returns (r: Result<(), Problem>)
      modifies this
      ensures match ChooseConnection(old(View()), id)
              case Ok(c) => r == Ok(()) && View() == c
              case Err(problem) => r == Err(problem) && View() == old(View())
      ensures r.Ok? ==> selectedConnection == Some(id) && id in connections && connections == old(connections)
    {
      hide RequiredText, IsIdentifier;
      if !RequiredText(id, 200) {
        return Err(INVALID_ACTION_PARAMETERS);
      }
      if !IsIdentifier(id) {
        return Err(INVALID_IDENTIFIER);
      }
      if id !in connections {
        return Err(CONNECTION_NOT_VISIBLE);
      }
      selectedConnection, selectedAsset, selectedGeneration := Some(id), None, None;
      assets, fields := [], [];
      assetPages := NoPages(None);
      fieldPages := NoPages(None);
      return Ok(());
    }

    method PickAsset(id: string) returns (r: Result<(), Problem>)
      modifies this
      ensures match ChooseAsset(old(View()), id)
              case Ok(c) => r == Ok(()) && View() == c
              case Err(problem) => r == Err(problem) && View() == old(View())
      ensures r.Ok? ==>
                && selectedAsset == Some(id) && selectedGeneration.Some?
                && assets == old(assets) && Asset(id, selectedGeneration.value) in assets
    {
      hide SafeAssetId, Shows;
      if !SafeAssetId(id) {
        return Err(Problem(400, "invalid_asset_id"));
      }
      if !Shows(assets, id) {
        return Err(ASSET_NOT_VISIBLE);
      }
      selectedAsset := Some(id);
      selectedGeneration := Some(ShownGeneration(assets, id));
      fields := [];
      fieldPages := NoPages(selectedGeneration);
      return Ok(());
    }

    method ResetForAlias(wanted: string)
      modifies this
      ensures View() == NewCatalog(wanted)
    {
      connectionPages := NoPages(None);
      assetPages := NoPages(None);
      fieldPages := NoPages(None);
      alias, lastProblem := wanted, None;
      selectedConnection, selectedAsset, selectedGeneration := None, None, None;
      connections, assets, fields := [], [], [];
    }

    /** One page turn on a clone of `pages`: prepare, request, project, record. */
    method Turn(pages: Pages, direction: string, q: Query, pin: Option<int>,
                answer: CatalogPanel.Answer<(bool, Option<int>, Option<Cursor>)>) returns (r: Result<Pages, Problem>)
      requires pages.history.InRange()
      ensures r == Turned(pages, direction, q, pin, answer)
    {
      hide PageHistory.Prepared, Recorded;
      var pager := new CatalogPager.Clone(pages);
      var cursor := pager.Prepare(direction, q);
      if cursor.Err? {
        return Err(cursor.error);
      }
      if pager.generation.None? {
        pager.generation := pin;
      }
      if answer.Refused? {
        return Err(answer.problem);
      }
      if !answer.page.0 {
        return Err(INVALID_UPSTREAM_RESPONSE);
      }
      var recorded := pager.Record(answer.page.2, answer.page.1);
      if recorded.Err? {
        return Err(recorded.error);
      }
      return Ok(pager.Value());
    }

    method TurnConnections(direction: string, q: Query, a: CatalogPanel.Answer<ConnectionPage>) returns (r: Result<(), Problem>)
      requires View().InRange()
      modifies this
      ensures match LoadConnections(old(View()), direction, q, a)
              case Ok(c) => r == Ok(()) && View() == c
              case Err(problem) => r == Err(problem) && View() == old(View())
      ensures r.Ok? ==> a.Delivered? && connections == a.page.ids
    {
      hide PagePrepared, PageRecorded;
      var turned := Turn(connectionPages, direction, q, None, ConnectionAnswer(a));
      if turned.Err? {
        return Err(turned.error);
      }
      connectionPages := turned.value;
      connections := a.page.ids;
      if selectedConnection.None? || selectedConnection.value !in connections {
        selectedConnection, selectedAsset := None, None;
        assets, fields := [], [];
      }
      return Ok(());
    }

    method TurnAssets(direction: string, query: Result<Query, Problem>, a: CatalogPanel.Answer<AssetPage>) returns (r: Result<(), Problem>)
      requires View().InRange()
      modifies this
      ensures match LoadAssets(old(View()), direction, query, a)
              case Ok(c) => r == Ok(()) && View() == c
              case Err(problem) => r == Err(problem) && View() == old(View())
      ensures r.Ok? ==> a.Delivered? && assets == a.page.items
    {
      hide PagePrepared, PageRecorded, AssetPageProjects, Shows;
      if selectedConnection.None? {
        return Err(CONNECTION_REQUIRED);
      }
      var refused := DirectionProblem(direction, query);
      if refused.Some? {
        return Err(refused.value);
      }
      var turned := Turn(assetPages, direction, query.value, None, AssetAnswer(a));
      if turned.Err? {
        return Err(turned.error);
      }
      assetPages := turned.value;
      assets := a.page.items;
      if selectedAsset.None? || !Shows(assets, selectedAsset.value) {
        selectedAsset, selectedGeneration, fields := None, None, [];
      }
      return Ok(());
    }

    method TurnFields(direction: string, query: Result<Query, Problem>, a: CatalogPanel.Answer<FieldPage>) returns (r: Result<(), Problem>)
      requires View().InRange()
      modifies this
      ensures match LoadFields(old(View()), direction, query, a)
              case Ok(c) => r == Ok(()) && View() == c
              case Err(problem) => r == Err(problem) && View() == old(View())
      ensures r.Ok? ==> a.Delivered? && fields == a.page.items
    {
      hide PagePrepared, PageRecorded, FieldPageProjects;
      if selectedConnection.None? {
        return Err(CONNECTION_REQUIRED);
      }
      if selectedAsset.None? || selectedGeneration.None? {
        return Err(ASSET_REQUIRED);
      }
      var refused := DirectionProblem(direction, query);
      if refused.Some? {
        return Err(refused.value);
      }
      var turned := Turn(fieldPages, direction, query.value, selectedGeneration, FieldAnswer(a));
      if turned.Err? {
        return Err(turned.error);
      }
      fieldPages := turned.value;
      fields := a.page.items;
      return Ok(());
    }
  }
}
