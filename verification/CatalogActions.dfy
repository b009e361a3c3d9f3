/**
 The M25 panel's actions from outside: exactly which succeed in a reachable state, what
 a successful one shows and selects, and that any other changes nothing.
 */
module CatalogActions {
  import opened Wrappers
  import opened PageHistory
  import opened CatalogPanel

  const NO_PAGES := Pages(Unloaded<Query>(), None)

  predicate IsDirection(direction: string) {
    direction == "first" || direction == "previous" || direction == "next"
  }

  /** The pager can turn that way: to page 1, to an older retained page, or on to a page it was offered. */
  ghost predicate CanTurn(h: History<Query>, direction: string, q: Query)
    requires h.InRange()
  {
    && IsDirection(direction)
    && (direction == "first" ||
        (h.entries != [] && h.filters == Some(q) &&
         (if direction == "previous" then h.Current().number > h.entries[0].number else h.Current().nextCursor.Some?)))
  }

  /** Exactly the actions that succeed. */
  ghost predicate Acceptable(c: Catalog, a: Action)
    requires c.InRange()
  {
    match a
    case Rejected(_) => false
    case SelectAlias(alias) => alias == "small" || alias == "large" || alias == "datahub"
    case Connections(direction, query, answer) =>
      query.Ok? && CanTurn(c.connectionPages.history, direction, query.value) && answer.Delivered? && answer.page.wellFormed
    case SelectConnection(id) => IsIdentifier(id) && id in c.connections
    case Assets(direction, query, answer) =>
      && c.selectedConnection.Some?
      && query.Ok? && CanTurn(c.assetPages.history, direction, query.value)
      && answer.Delivered? && answer.page.wellFormed && answer.page.generation >= 1
      && (forall i :: 0 <= i < |answer.page.items| ==> answer.page.items[i].generation == answer.page.generation)
      && (direction != "first" && c.assetPages.generation.Some? ==> c.assetPages.generation.value == answer.page.generation)
    case SelectAsset(id) => SafeAssetId(id) && Shows(c.assets, id)
    case Fields(direction, query, answer) =>
      && c.selectedConnection.Some? && c.selectedAsset.Some?
      && query.Ok? && CanTurn(c.fieldPages.history, direction, query.value)
      && answer.Delivered? && answer.page.wellFormed && answer.page.generation >= 1
      && (forall i :: 0 <= i < |answer.page.items| ==> answer.page.items[i].generation == answer.page.generation)
      && c.selectedGeneration == Some(answer.page.generation)
    case RefreshOrProbe(outcome) => outcome.None?
  }

  /** The pages were turned, and the page on display recorded the cursor it was answered with. */
  ghost predicate PagesTurned(p: Pages, direction: string, q: Query, next: Option<Cursor>, r: Pages)
    requires p.history.InRange()
  {
    && StandsOn(r.history, Target(p.history, direction), q)
    && r.history.Current().nextCursor == next
  }

  /** `generation` is that of the last shown asset of that identifier. */
  ghost predicate LastShown(assets: seq<Asset>, id: string, generation: int) {
    exists i :: 0 <= i < |assets| && assets[i] == Asset(id, generation)
                && forall j :: i < j < |assets| ==> assets[j].assetId != id
  }

  /** What a successful action brings about, and that it leaves the rest alone. */
  ghost predicate Fulfilled(c: Catalog, a: Action, d: Catalog)
    requires c.InRange()
  {
    match a
    case Rejected(_) => false
    case SelectAlias(alias) => d == Catalog(alias, None, None, None, [], [], [], NO_PAGES, NO_PAGES, NO_PAGES)
    case Connections(direction, query, answer) =>
      && query.Ok? && answer.Delivered?
      && PagesTurned(c.connectionPages, direction, query.value, answer.page.next, d.connectionPages)
      && d.connections == answer.page.ids
      && (if c.selectedConnection.Some? && c.selectedConnection.value in answer.page.ids
          then d == c.(connections := d.connections, connectionPages := d.connectionPages)
          else d == c.(connections := d.connections, connectionPages := d.connectionPages,
                       selectedConnection := None, selectedAsset := None, assets := [], fields := []))
    case SelectConnection(id) =>
      d == Catalog(c.alias, Some(id), None, None, c.connections, [], [], c.connectionPages, NO_PAGES, NO_PAGES)
    case Assets(direction, query, answer) =>
      && query.Ok? && answer.Delivered?
      && PagesTurned(c.assetPages, direction, query.value, answer.page.next, d.assetPages)
      && d.assetPages.generation == Some(answer.page.generation)
      && d.assets == answer.page.items
      && (if c.selectedAsset.Some? && Shows(answer.page.items, c.selectedAsset.value)
          then d == c.(assets := d.assets, assetPages := d.assetPages)
          else d == c.(assets := d.assets, assetPages := d.assetPages,
                       selectedAsset := None, selectedGeneration := None, fields := []))
    case SelectAsset(id) =>
      && d.selectedGeneration.Some? && LastShown(c.assets, id, d.selectedGeneration.value)
      && d == c.(selectedAsset := Some(id), selectedGeneration := d.selectedGeneration, fields := [],
                 fieldPages := Pages(Unloaded(), d.selectedGeneration))
    case Fields(direction, query, answer) =>
      && query.Ok? && answer.Delivered?
      && PagesTurned(c.fieldPages, direction, query.value, answer.page.next, d.fieldPages)
      && d.fieldPages.generation == Some(answer.page.generation)
      && d == c.(fields := answer.page.items, fieldPages := d.fieldPages)
    case RefreshOrProbe(_) => d == c
  }

  // ------------------------------------------------------------------
  // One action
  // ------------------------------------------------------------------

  /** When a page turn succeeds and where it leads. */
  lemma TurnedExactly(p: Pages, direction: string, q: Query, pin: Option<int>,
                      answer: CatalogPanel.Answer<(bool, Option<int>, Option<Cursor>)>)
    requires Window(p.history)
    requires IsDirection(direction)
    ensures var r := Turned(p, direction, q, pin, answer);
            var pinned := if direction == "first" || p.generation.None? then pin else p.generation;
            && (r.Ok? <==>
                  && CanTurn(p.history, direction, q) && answer.Delivered? && answer.page.0
                  && (pinned.Some? && answer.page.1.Some? ==> pinned == answer.page.1))
            && (r.Ok? ==>
                  && PagesTurned(p, direction, q, answer.page.2, r.value)
                  && r.value.generation == (if pinned.None? then answer.page.1 else pinned))
  {
    PreparedMovesByOne(p.history, direction, q);
    PreparedKeepsWindow(p.history, direction, q);
    hide Window, Prepared;
  }

  lemma DirectionProblemExactly(direction: string, query: Result<Query, Problem>)
    ensures DirectionProblem(direction, query).None? <==> IsDirection(direction) && query.Ok?
  {}

  lemma {:induction false} ShownGenerationIsLast(assets: seq<Asset>, id: string)
    requires Shows(assets, id)
    ensures LastShown(assets, id, ShownGeneration(assets, id))
  {
    var front, last := assets[..|assets| - 1], assets[|assets| - 1];
    assert assets == front + [last];
    if last.assetId == id {
      assert assets[|assets| - 1] == Asset(id, last.generation);
    } else {
      var i :| 0 <= i < |assets| && assets[i].assetId == id;
      assert front[i].assetId == id;
      ShownGenerationIsLast(front, id);
      var g := ShownGeneration(front, id);
      assert g == ShownGeneration(assets, id);
      hide ShownGeneration, LastShown, Shows;
      LastShownSnoc(front, last, id, g);
    }
  }

  lemma LastShownSnoc(front: seq<Asset>, last: Asset, id: string, generation: int)
    requires LastShown(front, id, generation) && last.assetId != id
    ensures LastShown(front + [last], id, generation)
  {
    var all := front + [last];
    var i :| 0 <= i < |front| && front[i] == Asset(id, generation) && forall j :: i < j < |front| ==> front[j].assetId != id;
    assert all[i] == Asset(id, generation);
    assert forall j :: i < j < |front| ==> all[j] == front[j];
    assert all[|front|] == last;
  }

  lemma ConnectionsExactly(c: Catalog, a: Action)
    requires a.Connections? && c.InRange() && Windows(c)
    ensures Applied(c, a).Ok? <==> Acceptable(c, a)
    ensures Applied(c, a).Ok? ==> Fulfilled(c, a, Applied(c, a).value)
  {
    hide Turned, Window, CanTurn, PagesTurned, DirectionProblem;
    DirectionProblemExactly(a.direction, a.query);
    if IsDirection(a.direction) && a.query.Ok? {
      TurnedExactly(c.connectionPages, a.direction, a.query.value, None, ConnectionAnswer(a.connections));
    }
    CanTurnIsDirected(c.connectionPages.history, a.direction);
  }

  lemma AssetsExactly(c: Catalog, a: Action)
    requires a.Assets? && c.InRange() && Windows(c)
    ensures Applied(c, a).Ok? <==> Acceptable(c, a)
    ensures Applied(c, a).Ok? ==> Fulfilled(c, a, Applied(c, a).value)
  {
    hide Turned, Window, CanTurn, PagesTurned, DirectionProblem, Shows;
    DirectionProblemExactly(a.direction, a.query);
    if IsDirection(a.direction) && a.query.Ok? {
      TurnedExactly(c.assetPages, a.direction, a.query.value, None, AssetAnswer(a.assets));
    }
    CanTurnIsDirected(c.assetPages.history, a.direction);
  }

  lemma FieldsExactly(c: Catalog, a: Action)
    requires a.Fields? && c.InRange() && Windows(c)
    ensures GenerationsPinned(c) ==> (Applied(c, a).Ok? <==> Acceptable(c, a))
    ensures Applied(c, a).Ok? ==> Fulfilled(c, a, Applied(c, a).value)
  {
    hide Turned, Window, CanTurn, PagesTurned, DirectionProblem;
    DirectionProblemExactly(a.direction, a.query);
    if IsDirection(a.direction) && a.query.Ok? {
      TurnedExactly(c.fieldPages, a.direction, a.query.value, c.selectedGeneration, FieldAnswer(a.fields));
    }
    CanTurnIsDirected(c.fieldPages.history, a.direction);
  }

  lemma CanTurnIsDirected(h: History<Query>, direction: string)
    requires h.InRange()
    ensures forall q :: CanTurn(h, direction, q) ==> IsDirection(direction)
  {}

  lemma IdentifierIsText(id: string)
    ensures IsIdentifier(id) ==> RequiredText(id, 200)
  {}

  /** A successful action brings about what it should; in a pinned state exactly the acceptable ones succeed. */
  lemma AppliedExactly(c: Catalog, a: Action)
    requires c.InRange() && Windows(c)
    ensures GenerationsPinned(c) ==> (Applied(c, a).Ok? <==> Acceptable(c, a))
    ensures Applied(c, a).Ok? ==> Fulfilled(c, a, Applied(c, a).value)
  {
    match a
    case Connections(_, _, _) => ConnectionsExactly(c, a);
    case Assets(_, _, _) => AssetsExactly(c, a);
    case Fields(_, _, _) => FieldsExactly(c, a);
    case SelectConnection(id) => IdentifierIsText(id);
    case SelectAsset(id) =>
      if Shows(c.assets, id) {
        ShownGenerationIsLast(c.assets, id);
      }
    case _ =>
    hide LoadConnections, LoadAssets, LoadFields, CanTurn, PagesTurned, IsIdentifier, SafeAssetId, Shows, LastShown, Window;
  }

  lemma AppliedKeepsWindows(c: Catalog, a: Action)
    requires c.InRange() && Windows(c)
    ensures Windows(Step(c, a))
  {
    UnloadedWindow();
    hide Window, Turned, Shows, SafeAssetId, IsIdentifier, RequiredText;
    match a
    case Connections(direction, query, answer) =>
      if query.Ok? {
        TurnedFacts(c.connectionPages, direction, query.value, None, ConnectionAnswer(answer));
      }
    case Assets(direction, query, answer) =>
      if query.Ok? {
        TurnedFacts(c.assetPages, direction, query.value, None, AssetAnswer(answer));
      }
    case Fields(direction, query, answer) =>
      if query.Ok? {
        TurnedFacts(c.fieldPages, direction, query.value, c.selectedGeneration, FieldAnswer(answer));
      }
    case _ =>
  }

  lemma UnloadedWindow()
    ensures Window<Query>(Unloaded())
  {}

  // ------------------------------------------------------------------
  // Whole runs
  // ------------------------------------------------------------------

  /**
   The whole effect of one more action after any run, against any upstream: an acceptable
   one brings about what it should and nothing else, and any other changes nothing.
   */
  lemma ActionsDoTheirWork(actions: seq<Action>, a: Action)
    ensures var c, d := Run(actions), Run(actions + [a]);
            if Acceptable(c, a) then Fulfilled(c, a, d) else d == c
  {
    assert (actions + [a])[..|actions|] == actions;
    RunKeepsInvariant(actions);
    AppliedExactly(Run(actions), a);
    hide Run, Applied, Acceptable, Fulfilled;
  }

  /** The connection named by the last successful selection of one. */
  ghost function LastConnection(actions: seq<Action>): Option<string> {
    if actions == [] then None
    else
      var before, a := actions[..|actions| - 1], actions[|actions| - 1];
      if a.SelectConnection? && Acceptable(Run(before), a) then Some(a.connectionId) else LastConnection(before)
  }

  /** The asset named by the last successful selection of one. */
  ghost function LastAsset(actions: seq<Action>): Option<string> {
    if actions == [] then None
    else
      var before, a := actions[..|actions| - 1], actions[|actions| - 1];
      if a.SelectAsset? && Acceptable(Run(before), a) then Some(a.assetId) else LastAsset(before)
  }

  /** Only selecting changes what is selected, other than to nothing. */
  lemma FulfilledSelects(c: Catalog, a: Action, d: Catalog)
    requires c.InRange() && Fulfilled(c, a, d)
    ensures d.selectedConnection.Some? ==> d.selectedConnection == if a.SelectConnection? then Some(a.connectionId) else c.selectedConnection
    ensures d.selectedAsset.Some? ==> d.selectedAsset == if a.SelectAsset? then Some(a.assetId) else c.selectedAsset
  {
    hide PagesTurned, LastShown, Shows;
  }

  /** What is selected is what was last asked for. */
  lemma {:induction false} SelectedWasAskedFor(actions: seq<Action>)
    ensures var c := Run(actions);
            && (c.selectedConnection.Some? ==> c.selectedConnection == LastConnection(actions))
            && (c.selectedAsset.Some? ==> c.selectedAsset == LastAsset(actions))
  {
    if actions != [] {
      var before, a := actions[..|actions| - 1], actions[|actions| - 1];
      assert before + [a] == actions;
      SelectedWasAskedFor(before);
      ActionsDoTheirWork(before, a);
      hide Run, Acceptable, Fulfilled;
      if Acceptable(Run(before), a) {
        FulfilledSelects(Run(before), a, Run(actions));
      }
    }
  }

  // ------------------------------------------------------------------
  // Why an action fails
  // ------------------------------------------------------------------

  predicate Turns(a: Action) {
    a.Connections? || a.Assets? || a.Fields?
  }

  /** A page turn failed for its position, its upstream, its page or its generation. */
  ghost predicate TurnProblem(p: Pages, direction: string, q: Query, pin: Option<int>,
                              answer: CatalogPanel.Answer<(bool, Option<int>, Option<Cursor>)>, problem: Problem)
    requires p.history.InRange()
  {
    var h := p.history;
    || (problem == Problem(409, "paging_context_changed") && (h.entries == [] || h.filters != Some(q)))
    || (problem == Problem(409, "no_previous_page") && direction == "previous" && h.position == 0)
    || (problem == Problem(409, "no_next_page") && direction == "next" && h.entries != [] && h.Current().nextCursor.None?)
    || (answer.Refused? && problem == answer.problem)
    || (problem == Problem(502, "invalid_upstream_response") && answer.Delivered? && !answer.page.0)
    || (problem == Problem(409, "catalog_generation_changed") && answer.Delivered? && answer.page.1.Some?
        && (if direction == "first" || p.generation.None? then pin else p.generation) != answer.page.1)
  }

  lemma TurnedProblem(p: Pages, direction: string, q: Query, pin: Option<int>,
                      answer: CatalogPanel.Answer<(bool, Option<int>, Option<Cursor>)>)
    requires Window(p.history) && IsDirection(direction) && Turned(p, direction, q, pin, answer).Err?
    ensures TurnProblem(p, direction, q, pin, answer, Turned(p, direction, q, pin, answer).error)
  {
    PreparedKeepsWindow(p.history, direction, q);
    hide Window;
  }

  /** The reported problem names something that is wrong. */
  ghost predicate Justified(c: Catalog, a: Action, problem: Problem)
    requires c.InRange()
  {
    || (a.Rejected? && problem == a.problem)
    || (a.RefreshOrProbe? && a.outcome == Some(problem))
    || (problem == Problem(400, "invalid_action_parameters") &&
        ((a.SelectAlias? && !RequiredText(a.alias, 8)) || (a.SelectConnection? && !RequiredText(a.connectionId, 200)) ||
         (Turns(a) && !RequiredText(a.direction, 8))))
    || (problem == Problem(400, "invalid_alias") && a.SelectAlias? && a.alias !in {"small", "large", "datahub"})
    || (problem == Problem(400, "invalid_identifier") && a.SelectConnection? && !IsIdentifier(a.connectionId))
    || (problem == Problem(404, "connection_not_visible") && a.SelectConnection? && a.connectionId !in c.connections)
    || (problem == Problem(400, "invalid_asset_id") && a.SelectAsset? && !SafeAssetId(a.assetId))
    || (problem == Problem(404, "asset_not_visible") && a.SelectAsset? && !Shows(c.assets, a.assetId))
    || (problem == Problem(400, "invalid_direction") && Turns(a) && !IsDirection(a.direction))
    || (Turns(a) && a.query == Err(problem))
    || (problem == Problem(409, "connection_required") && (a.Assets? || a.Fields?) && c.selectedConnection.None?)
    || (problem == Problem(409, "asset_required") && a.Fields? && (c.selectedAsset.None? || c.selectedGeneration.None?))
    || (a.Connections? && a.query.Ok?
        && TurnProblem(c.connectionPages, a.direction, a.query.value, None, ConnectionAnswer(a.connections), problem))
    || (a.Assets? && a.query.Ok? && TurnProblem(c.assetPages, a.direction, a.query.value, None, AssetAnswer(a.assets), problem))
    || (a.Fields? && a.query.Ok?
        && TurnProblem(c.fieldPages, a.direction, a.query.value, c.selectedGeneration, FieldAnswer(a.fields), problem))
  }

  lemma DirectionJustified(c: Catalog, a: Action)
    requires c.InRange() && Turns(a) && DirectionProblem(a.direction, a.query).Some?
    ensures Justified(c, a, DirectionProblem(a.direction, a.query).value)
  {
    hide RequiredText, TurnProblem, Shows, SafeAssetId, IsIdentifier;
  }

  /** The problem of an action that fails names something that is wrong. */
  lemma ProblemsAreJustified(c: Catalog, a: Action)
    requires c.InRange() && Windows(c) && Applied(c, a).Err?
    ensures Justified(c, a, Applied(c, a).error)
  {
    hide Window, Turned, TurnProblem, DirectionProblem, RequiredText, Shows, SafeAssetId, IsIdentifier;
    if Turns(a) {
      if DirectionProblem(a.direction, a.query).Some? {
        DirectionJustified(c, a);
      } else {
        DirectionProblemExactly(a.direction, a.query);
        TurnJustified(c, a);
      }
      hide Justified;
    }
  }

  lemma TurnJustified(c: Catalog, a: Action)
    requires c.InRange() && Windows(c) && Applied(c, a).Err?
    requires Turns(a) && DirectionProblem(a.direction, a.query).None? && IsDirection(a.direction) && a.query.Ok?
    ensures Justified(c, a, Applied(c, a).error)
  {
    hide Window, Turned, TurnProblem, DirectionProblem, RequiredText, Shows, SafeAssetId, IsIdentifier;
    var q := a.query.value;
    match a
    case Connections(direction, _, answer) =>
      if Turned(c.connectionPages, direction, q, None, ConnectionAnswer(answer)).Err? {
        TurnedProblem(c.connectionPages, direction, q, None, ConnectionAnswer(answer));
      }
    case Assets(direction, _, answer) =>
      if Turned(c.assetPages, direction, q, None, AssetAnswer(answer)).Err? {
        TurnedProblem(c.assetPages, direction, q, None, AssetAnswer(answer));
      }
    case Fields(direction, _, answer) =>
      if Turned(c.fieldPages, direction, q, c.selectedGeneration, FieldAnswer(answer)).Err? {
        TurnedProblem(c.fieldPages, direction, q, c.selectedGeneration, FieldAnswer(answer));
      }
  }
}
