/**
 The M26 panel's actions from outside: exactly which succeed in a reachable panel, what
 a successful one brings about, and that any other changes nothing.
 */
module SemanticChangeActions {
  import opened Wrappers
  import opened Text
  import opened PageHistory
  import opened SemanticChangePanel

  /** The report status that a scenario shows. */
  function StatusFor(scenario: string): Option<string> {
    if scenario == "current" || scenario == "blocked" then Some(scenario)
    else if scenario == "review" then Some("review_required")
    else if scenario == "remediated" then Some("revalidated")
    else None
  }

  /** `raw` is the first report of that identifier. */
  ghost predicate IsFirst(reports: seq<Raw<Report>>, id: string, raw: Raw<Report>) {
    exists i :: 0 <= i < |reports| && reports[i] == raw && raw.item.reportId == id
                && forall j :: 0 <= j < i ==> reports[j].item.reportId != id
  }

  lemma {:induction false} FirstReportIsFirst(reports: seq<Raw<Report>>, id: string, raw: Raw<Report>)
    ensures FirstReport(reports, id) == Some(raw) <==> IsFirst(reports, id, raw)
  {
    if reports != [] {
      var rest := reports[1..];
      FirstReportIsFirst(rest, id, raw);
      if reports[0].item.reportId == id {
        assert FirstReport(reports, id) == Some(raw) ==> reports[0] == raw;
      } else {
        if IsFirst(rest, id, raw) {
          var i :| 0 <= i < |rest| && rest[i] == raw && forall j :: 0 <= j < i ==> rest[j].item.reportId != id;
          assert reports[i + 1] == raw;
          assert forall j :: 0 < j < i + 1 ==> reports[j] == rest[j - 1];
        }
        if IsFirst(reports, id, raw) {
          var i :| 0 <= i < |reports| && reports[i] == raw && forall j :: 0 <= j < i ==> reports[j].item.reportId != id;
          assert rest[i - 1] == raw;
          assert forall j :: 0 <= j < i - 1 ==> rest[j] == reports[j + 1];
        }
      }
    }
  }

  /** A page of `values` under `f` can be turned to and shown. */
  ghost predicate Loadable<T>(h: History<Filters>, direction: string, f: Filters, values: seq<Raw<T>>, digest: string)
    requires h.InRange()
  {
    && direction in {"first", "previous", "next"} && 1 <= f.pageSize <= 50
    && CanMove(h, direction, f, |values|)
    && Target(h, direction) >= 1 && PageFits(values, Target(h, direction), f.pageSize, digest)
  }

  /** Exactly the actions that succeed. */
  ghost predicate Acceptable(fx: Fixture, p: Panel, a: Action)
    requires p.InRange()
  {
    match a
    case Rejected(_) => false
    case Reset => true
    case SelectScenario(scenario, size) =>
      && StatusFor(scenario).Some? && 1 <= size
      && var f := Filters(size, StatusFor(scenario), None);
         Loadable(Unloaded(), "first", f, ReportValues(fx, f), fx.Digest("reports", f))
    case Reports(direction, size, status) =>
      && Chosen(status, REPORT_STATUSES) && 1 <= size
      && var f := Filters(size, status, None);
         Loadable(p.reportPager, direction, f, ReportValues(fx, f), fx.Digest("reports", f))
    case SelectReport(id) =>
      && IsReportId(id) && (exists i :: 0 <= i < |p.reports| && p.reports[i].reportId == id)
      && exists raw :: IsFirst(fx.reports, id, raw) && raw.wellFormed
    case Findings(direction, size, kind, severity) =>
      && Chosen(kind, CHANGE_KINDS) && Chosen(severity, SEVERITIES) && 1 <= size && p.selected.Some?
      && var f, id := Filters(size, kind, severity), p.selected.value.reportId;
         Loadable(p.findingPager, direction, f, FindingValues(fx, id, f), fx.Digest("findings:" + id, f))
    case Impacts(direction, size, kind) =>
      && Chosen(kind, IMPACT_KINDS) && 1 <= size && p.selected.Some?
      && var f, id := Filters(size, kind, None), p.selected.value.reportId;
         Loadable(p.impactPager, direction, f, ImpactValues(fx, id, f), fx.Digest("impacts:" + id, f))
  }

  /** A report list was turned: nothing is selected any more. */
  ghost predicate ReportsTurned(p: Panel, q: Panel, k: int, f: Filters) {
    && StandsOn(q.reportPager, k, f)
    && q == Panel(p.scenario, q.reports, None, [], [], q.reportPager, Unloaded(), Unloaded())
  }

  /** What a successful action brings about, and that it leaves the rest alone. */
  ghost predicate Fulfilled(fx: Fixture, p: Panel, a: Action, q: Panel)
    requires p.InRange()
  {
    match a
    case Rejected(_) => false
    case Reset => q == Panel("current", [], None, [], [], Unloaded(), Unloaded(), Unloaded())
    case SelectScenario(scenario, size) =>
      1 <= size && ReportsTurned(p.(scenario := scenario), q, 1, Filters(size, StatusFor(scenario), None))
    case Reports(direction, size, status) =>
      1 <= size && ReportsTurned(p, q, Target(p.reportPager, direction), Filters(size, status, None))
    case SelectReport(id) =>
      && q == Panel(p.scenario, p.reports, q.selected, [], [], p.reportPager, Unloaded(), Unloaded())
      && q.selected.Some? && IsFirst(fx.reports, id, Raw(q.selected.value, true))
    case Findings(direction, size, kind, severity) =>
      && 1 <= size && StandsOn(q.findingPager, Target(p.findingPager, direction), Filters(size, kind, severity))
      && q == p.(findings := q.findings, findingPager := q.findingPager)
    case Impacts(direction, size, kind) =>
      && 1 <= size && StandsOn(q.impactPager, Target(p.impactPager, direction), Filters(size, kind, None))
      && q == p.(impacts := q.impacts, impactPager := q.impactPager)
  }

  lemma LoadStandsOn<T>(h: History<Filters>, direction: string, f: Filters, known: bool, values: seq<Raw<T>>, digest: string)
    requires Window(h)
    ensures var r := LoadPage(h, direction, f, known, values, digest);
            r.Ok? ==> StandsOn(r.value.0, Target(h, direction), f)
  {
    PreparedMovesByOne(h, direction, f);
    PreparedKeepsWindow(h, direction, f);
    hide Fetch, Window, Prepared;
  }

  /** A successful action brings about what it should. */
  lemma AppliedFulfils(fx: Fixture, p: Panel, a: Action)
    requires Windows(p)
    ensures Applied(fx, p, a).Ok? ==> Fulfilled(fx, p, a, Applied(fx, p, a).value)
  {
    hide LoadPage, Chosen, RequiredText, IsReportId, StandsOn, Target, FirstReport, IsFirst;
    match a
    case SelectScenario(scenario, size) =>
      if 1 <= size && scenario in SCENARIO_STATUS {
        var f := Filters(size, Some(SCENARIO_STATUS[scenario]), None);
        LoadStandsOn(Unloaded(), "first", f, true, ReportValues(fx, f), fx.Digest("reports", f));
        FirstTarget();
      }
    case Reports(direction, size, status) =>
      if 1 <= size {
        var f := Filters(size, status, None);
        LoadStandsOn(p.reportPager, direction, f, true, ReportValues(fx, f), fx.Digest("reports", f));
      }
    case SelectReport(id) =>
      var raw := FirstReport(fx.reports, id);
      if raw.Some? {
        FirstReportIsFirst(fx.reports, id, raw.value);
      }
    case Findings(direction, size, kind, severity) =>
      if 1 <= size && p.selected.Some? {
        var f, id := Filters(size, kind, severity), p.selected.value.reportId;
        LoadStandsOn(p.findingPager, direction, f, FirstReport(fx.reports, id).Some?, FindingValues(fx, id, f), fx.Digest("findings:" + id, f));
      }
    case Impacts(direction, size, kind) =>
      if 1 <= size && p.selected.Some? {
        var f, id := Filters(size, kind, None), p.selected.value.reportId;
        LoadStandsOn(p.impactPager, direction, f, FirstReport(fx.reports, id).Some?, ImpactValues(fx, id, f), fx.Digest("impacts:" + id, f));
      }
    case _ =>
  }

  lemma FirstTarget()
    ensures Target<Filters>(Unloaded(), "first") == 1
  {}

  ghost predicate Windows(p: Panel) {
    Window(p.reportPager) && Window(p.findingPager) && Window(p.impactPager)
  }

  lemma LoadKeepsWindow<T>(h: History<Filters>, direction: string, f: Filters, known: bool, values: seq<Raw<T>>, digest: string)
    requires Window(h)
    ensures var r := LoadPage(h, direction, f, known, values, digest); r.Ok? ==> Window(r.value.0)
  {
    PreparedKeepsWindow(h, direction, f);
    var r := LoadPage(h, direction, f, known, values, digest);
    if r.Ok? {
      var moved := Prepared(h, direction, f).value;
      RecordedKeepsWindow(moved, Fetch(known, values, f.pageSize, digest, moved.Current().requestCursor).value.next);
    }
    hide Fetch, Window, Prepared, Recorded;
  }

  lemma AppliedKeepsWindows(fx: Fixture, p: Panel, a: Action)
    requires Windows(p)
    ensures Applied(fx, p, a).Ok? ==> Windows(Applied(fx, p, a).value)
  {
    UnloadedWindow();
    hide LoadPage, Chosen, RequiredText, IsReportId, FirstReport, Window;
    match a
    case SelectScenario(scenario, size) =>
      if 1 <= size && scenario in SCENARIO_STATUS {
        var f := Filters(size, Some(SCENARIO_STATUS[scenario]), None);
        LoadKeepsWindow(Unloaded(), "first", f, true, ReportValues(fx, f), fx.Digest("reports", f));
      }
    case Reports(direction, size, status) =>
      if 1 <= size {
        var f := Filters(size, status, None);
        LoadKeepsWindow(p.reportPager, direction, f, true, ReportValues(fx, f), fx.Digest("reports", f));
      }
    case Findings(direction, size, kind, severity) =>
      if 1 <= size && p.selected.Some? {
        var f, id := Filters(size, kind, severity), p.selected.value.reportId;
        LoadKeepsWindow(p.findingPager, direction, f, FirstReport(fx.reports, id).Some?, FindingValues(fx, id, f), fx.Digest("findings:" + id, f));
      }
    case Impacts(direction, size, kind) =>
      if 1 <= size && p.selected.Some? {
        var f, id := Filters(size, kind, None), p.selected.value.reportId;
        LoadKeepsWindow(p.impactPager, direction, f, FirstReport(fx.reports, id).Some?, ImpactValues(fx, id, f), fx.Digest("impacts:" + id, f));
      }
    case _ =>
  }

  lemma UnloadedWindow()
    ensures Window<Filters>(Unloaded())
  {}

  lemma PagingProblemExactly(direction: string, size: int)
    ensures PagingProblem(direction, size).None? <==> direction in {"first", "previous", "next"} && 1 <= size <= 50
  {}

  lemma ScenarioStatusIs(scenario: string)
    ensures scenario in SCENARIO_STATUS <==> StatusFor(scenario).Some?
    ensures scenario in SCENARIO_STATUS ==> RequiredText(scenario, 20) && StatusFor(scenario) == Some(SCENARIO_STATUS[scenario])
  {}

  lemma ReportIdIsText(id: string)
    ensures IsReportId(id) ==> RequiredText(id, 71)
  {
    if IsReportId(id) {
      forall i | 0 <= i < |id|
        ensures id[i] as int >= 32 && id[i] as int != 127
      {
        if i < 7 {
          assert id[i] == id[..7][i] == "report_"[i];
        } else {
          assert id[i] == id[7..][i - 7];
        }
      }
    }
  }

  lemma OutcomeIsLoadable<T>(problem: Option<Problem>, h: History<Filters>, values: seq<Raw<T>>, digest: string, direction: string, f: Filters)
    requires h.InRange() && Outcome(problem, h, values, digest, direction, f)
    requires direction in {"first", "previous", "next"} && 1 <= f.pageSize <= 50
    ensures problem.None? <==> Loadable(h, direction, f, values, digest)
  {
    hide CanMove, PageFits, Target, MoveProblem;
  }

  /** In a consistent panel exactly the acceptable actions succeed. */
  lemma AppliedExactly(fx: Fixture, p: Panel, a: Action)
    requires fx.Valid() && PanelInvariant(fx, p) && p.InRange()
    ensures Applied(fx, p, a).Ok? <==> Acceptable(fx, p, a)
  {
    hide LoadReports, LoadFindings, LoadImpacts, ChooseReport, PanelInvariant, RequiredText, Chosen, PagingProblem, Outcome, Loadable;
    match a
    case SelectScenario(scenario, size) =>
      ScenarioStatusIs(scenario);
      if scenario in SCENARIO_STATUS && 1 <= size {
        NewPanelHasInvariant(fx, scenario);
        ReportsExactly(fx, NewPanel(scenario), "first", Filters(size, StatusFor(scenario), None));
      }
      hide SCENARIO_STATUS, StatusFor;
    case Reports(direction, size, status) =>
      PagingProblemExactly(direction, size);
      if 1 <= size {
        ReportsExactly(fx, p, direction, Filters(size, status, None));
      }
    case SelectReport(id) => ChooseExactly(fx, p, id);
    case Findings(direction, size, kind, severity) =>
      PagingProblemExactly(direction, size);
      if 1 <= size {
        FindingsExactly(fx, p, direction, Filters(size, kind, severity));
      }
    case Impacts(direction, size, kind) =>
      PagingProblemExactly(direction, size);
      if 1 <= size {
        ImpactsExactly(fx, p, direction, Filters(size, kind, None));
      }
    case _ =>
  }

  lemma ReportsExactly(fx: Fixture, p: Panel, direction: string, f: Filters)
    requires fx.Valid() && PanelInvariant(fx, p) && p.InRange()
    ensures direction in {"first", "previous", "next"} && 1 <= f.pageSize <= 50 ==>
              (LoadReports(fx, p, direction, f).Ok? <==> Loadable(p.reportPager, direction, f, ReportValues(fx, f), fx.Digest("reports", f)))
    ensures Loadable(p.reportPager, direction, f, ReportValues(fx, f), fx.Digest("reports", f)) ==>
              direction in {"first", "previous", "next"} && f.pageSize <= 50
  {
    hide CanMove, PageFits, Target, Outcome, PanelInvariant, LoadReports, ReportValues;
    if direction in {"first", "previous", "next"} && 1 <= f.pageSize <= 50 {
      ReportsSucceed(fx, p, direction, f);
      OutcomeIsLoadable(ProblemOf(LoadReports(fx, p, direction, f)), p.reportPager, ReportValues(fx, f), fx.Digest("reports", f), direction, f);
    }
  }

  lemma FindingsExactly(fx: Fixture, p: Panel, direction: string, f: Filters)
    requires fx.Valid() && PanelInvariant(fx, p) && p.InRange()
    ensures p.selected.None? ==> LoadFindings(fx, p, direction, f).Err?
    ensures p.selected.Some? ==>
              var id := p.selected.value.reportId;
              && (direction in {"first", "previous", "next"} && 1 <= f.pageSize <= 50 ==>
                    (LoadFindings(fx, p, direction, f).Ok? <==>
                     Loadable(p.findingPager, direction, f, FindingValues(fx, id, f), fx.Digest("findings:" + id, f))))
              && (Loadable(p.findingPager, direction, f, FindingValues(fx, id, f), fx.Digest("findings:" + id, f)) ==>
                    direction in {"first", "previous", "next"} && f.pageSize <= 50)
  {
    assert p.selected.None? ==> LoadFindings(fx, p, direction, f).Err?;
    hide CanMove, PageFits, Target, Outcome, PanelInvariant, LoadFindings, FindingValues;
    if p.selected.Some? && direction in {"first", "previous", "next"} && 1 <= f.pageSize <= 50 {
      var id := p.selected.value.reportId;
      FindingsSucceed(fx, p, id, direction, f);
      OutcomeIsLoadable(ProblemOf(LoadFindings(fx, p, direction, f)), p.findingPager, FindingValues(fx, id, f), fx.Digest("findings:" + id, f), direction, f);
    }
  }

  lemma ImpactsExactly(fx: Fixture, p: Panel, direction: string, f: Filters)
    requires fx.Valid() && PanelInvariant(fx, p) && p.InRange()
    ensures p.selected.None? ==> LoadImpacts(fx, p, direction, f).Err?
    ensures p.selected.Some? ==>
              var id := p.selected.value.reportId;
              && (direction in {"first", "previous", "next"} && 1 <= f.pageSize <= 50 ==>
                    (LoadImpacts(fx, p, direction, f).Ok? <==>
                     Loadable(p.impactPager, direction, f, ImpactValues(fx, id, f), fx.Digest("impacts:" + id, f))))
              && (Loadable(p.impactPager, direction, f, ImpactValues(fx, id, f), fx.Digest("impacts:" + id, f)) ==>
                    direction in {"first", "previous", "next"} && f.pageSize <= 50)
  {
    assert p.selected.None? ==> LoadImpacts(fx, p, direction, f).Err?;
    hide CanMove, PageFits, Target, Outcome, PanelInvariant, LoadImpacts, ImpactValues;
    if p.selected.Some? && direction in {"first", "previous", "next"} && 1 <= f.pageSize <= 50 {
      var id := p.selected.value.reportId;
      ImpactsSucceed(fx, p, id, direction, f);
      OutcomeIsLoadable(ProblemOf(LoadImpacts(fx, p, direction, f)), p.impactPager, ImpactValues(fx, id, f), fx.Digest("impacts:" + id, f), direction, f);
    }
  }

  lemma ChooseExactly(fx: Fixture, p: Panel, id: string)
    requires p.InRange()
    ensures ChooseReport(fx, p, id).Ok? <==> Acceptable(fx, p, SelectReport(id))
  {
    hide IsReportId, RequiredText, IsFirst;
    ReportIdIsText(id);
    forall raw
      ensures FirstReport(fx.reports, id) == Some(raw) <==> IsFirst(fx.reports, id, raw)
    {
      FirstReportIsFirst(fx.reports, id, raw);
    }
    if FirstReport(fx.reports, id).Some? {
      FirstHasId(fx.reports, id, FirstReport(fx.reports, id).value);
    }
    hide FirstReport;
  }

  lemma FirstHasId(reports: seq<Raw<Report>>, id: string, raw: Raw<Report>)
    requires IsFirst(reports, id, raw)
    ensures raw.item.reportId == id
  {}

  /**
   The whole effect of one more action after any run: an acceptable one brings about what
   it should and nothing else, and any other leaves the panel as it was.
   */
  lemma ActionsDoTheirWork(fx: Fixture, actions: seq<Action>, a: Action)
    requires fx.Valid()
    ensures var p, q := Run(fx, actions), Run(fx, actions + [a]);
            if Acceptable(fx, p, a) then Fulfilled(fx, p, a, q) else q == p
  {
    assert (actions + [a])[..|actions|] == actions;
    var p := Run(fx, actions);
    assert Run(fx, actions + [a]) == Step(fx, p, a);
    RunRefinesSlicing(fx, actions);
    hide Run, Fulfilled, Acceptable, Applied;
    AppliedExactly(fx, p, a);
    assert Windows(p) by { InvariantHasWindows(fx, p); }
    AppliedFulfils(fx, p, a);
  }

  lemma InvariantHasWindows(fx: Fixture, p: Panel)
    requires PanelInvariant(fx, p)
    ensures Windows(p)
  {
    UnloadedWindow();
    hide OnChain, ShowsSlice, CursorsValid, Window;
  }

  // ------------------------------------------------------------------
  // Why an action fails
  // ------------------------------------------------------------------

  predicate Turns(a: Action) {
    a.Reports? || a.Findings? || a.Impacts?
  }

  /** What is wrong with the parameters themselves. */
  ghost predicate BadParameter(a: Action, problem: Problem) {
    || (problem == Problem(400, "invalid_action_value") &&
        ((a.SelectScenario? && !RequiredText(a.scenario, 20)) || (a.SelectReport? && !RequiredText(a.reportId, 71)) ||
         (Turns(a) && !RequiredText(a.direction, 10))))
    || (problem == Problem(400, "invalid_scenario") && a.SelectScenario? && StatusFor(a.scenario).None?)
    || (problem == Problem(400, "invalid_report_id") && a.SelectReport? && !IsReportId(a.reportId))
    || (problem == Problem(400, "invalid_direction") && Turns(a) && a.direction !in {"first", "previous", "next"})
    || (problem == Problem(400, "invalid_page_size") && (Turns(a) || a.SelectScenario?) && !(1 <= a.pageSize <= 50))
    || (problem == Problem(400, "invalid_status") && a.Reports? && !Chosen(a.kind, REPORT_STATUSES))
    || (problem == Problem(400, "invalid_kind") &&
        ((a.Findings? && !Chosen(a.kind, CHANGE_KINDS)) || (a.Impacts? && !Chosen(a.kind, IMPACT_KINDS))))
    || (problem == Problem(400, "invalid_severity") && a.Findings? && !Chosen(a.severity, SEVERITIES))
  }

  /** The pager that an action turns, and the filters it asks for. */
  function PagerOf(p: Panel, a: Action): History<Filters>
    requires Turns(a)
  {
    if a.Reports? then p.reportPager else if a.Findings? then p.findingPager else p.impactPager
  }

  function FiltersOf(a: Action): Filters
    requires Turns(a) && a.pageSize >= 1
  {
    Filters(a.pageSize, a.kind, if a.Findings? then a.severity else None)
  }

  /** The reported problem names something that is wrong. */
  ghost predicate Justified(fx: Fixture, p: Panel, a: Action, problem: Problem)
    requires p.InRange()
  {
    || (a.Rejected? && problem == a.problem)
    || BadParameter(a, problem)
    || (problem == Problem(409, "report_required") && (a.Findings? || a.Impacts?) && p.selected.None?)
    || (problem == Problem(404, "semantic_change_resource_unavailable") && a.SelectReport? &&
        ((forall i :: 0 <= i < |p.reports| ==> p.reports[i].reportId != a.reportId) ||
         (forall raw :: !IsFirst(fx.reports, a.reportId, raw))))
    || (Turns(a) && a.pageSize >= 1 && problem == MoveProblem(PagerOf(p, a), a.direction, FiltersOf(a)))
    || (problem == Problem(502, "invalid_upstream_response") && (Turns(a) || a.SelectScenario?) && 1 <= a.pageSize <= 50)
    || (problem == Problem(502, "invalid_upstream_response") && a.SelectReport?
        && exists raw :: IsFirst(fx.reports, a.reportId, raw) && !raw.wellFormed)
  }

  lemma PagingProblemBad(a: Action)
    requires Turns(a) && PagingProblem(a.direction, a.pageSize).Some?
    ensures BadParameter(a, PagingProblem(a.direction, a.pageSize).value)
  {
    hide RequiredText, Chosen, IsReportId;
  }

  lemma OutcomeJustified<T>(fx: Fixture, p: Panel, a: Action, problem: Problem, values: seq<Raw<T>>, digest: string)
    requires Turns(a) && 1 <= a.pageSize <= 50 && p.InRange()
    requires Outcome(Some(problem), PagerOf(p, a), values, digest, a.direction, FiltersOf(a))
    ensures Justified(fx, p, a, problem)
  {
    hide CanMove, PageFits, Target, MoveProblem, BadParameter, IsFirst;
  }

  lemma ChooseJustified(fx: Fixture, p: Panel, a: Action)
    requires p.InRange() && a.SelectReport? && ChooseReport(fx, p, a.reportId).Err?
    ensures Justified(fx, p, a, ChooseReport(fx, p, a.reportId).error)
  {
    hide IsReportId, RequiredText, IsFirst, Chosen;
    forall raw
      ensures FirstReport(fx.reports, a.reportId) == Some(raw) <==> IsFirst(fx.reports, a.reportId, raw)
    {
      FirstReportIsFirst(fx.reports, a.reportId, raw);
    }
    if FirstReport(fx.reports, a.reportId).Some? {
      FirstHasId(fx.reports, a.reportId, FirstReport(fx.reports, a.reportId).value);
    }
    hide FirstReport;
  }

  /** In every reachable panel the problem of an action that fails names something that is wrong. */
  lemma ProblemsAreJustified(fx: Fixture, p: Panel, a: Action)
    requires fx.Valid() && PanelInvariant(fx, p) && p.InRange() && Applied(fx, p, a).Err?
    ensures Justified(fx, p, a, Applied(fx, p, a).error)
  {
    hide LoadReports, LoadFindings, LoadImpacts, ChooseReport, PanelInvariant, RequiredText, Chosen, PagingProblem, Outcome, IsFirst, IsReportId;
    if Turns(a) {
      if PagingProblem(a.direction, a.pageSize).Some? {
        PagingProblemBad(a);
      } else {
        PagingProblemExactly(a.direction, a.pageSize);
        TurnJustified(fx, p, a);
      }
    } else if a.SelectReport? {
      ChooseJustified(fx, p, a);
      hide Justified;
    } else if a.SelectScenario? {
      ScenarioStatusIs(a.scenario);
      if a.scenario in SCENARIO_STATUS && 1 <= a.pageSize <= 50 {
        NewPanelHasInvariant(fx, a.scenario);
        var f := Filters(a.pageSize, StatusFor(a.scenario), None);
        ReportsSucceed(fx, NewPanel(a.scenario), "first", f);
        FirstAlwaysMoves(ProblemOf(LoadReports(fx, NewPanel(a.scenario), "first", f)), ReportValues(fx, f), fx.Digest("reports", f), f);
      }
      hide StatusFor, SCENARIO_STATUS;
    }
  }

  lemma FirstAlwaysMoves<T>(problem: Option<Problem>, values: seq<Raw<T>>, digest: string, f: Filters)
    requires Outcome(problem, Unloaded(), values, digest, "first", f)
    ensures problem.Some? ==> problem.value == Problem(502, "invalid_upstream_response")
  {
    hide PageFits;
  }

  lemma TurnJustified(fx: Fixture, p: Panel, a: Action)
    requires fx.Valid() && PanelInvariant(fx, p) && p.InRange() && Turns(a) && 1 <= a.pageSize <= 50
    requires PagingProblem(a.direction, a.pageSize).None? && Applied(fx, p, a).Err?
    ensures Justified(fx, p, a, Applied(fx, p, a).error)
  {
    hide LoadReports, LoadFindings, LoadImpacts, ChooseReport, PanelInvariant, RequiredText, Chosen, PagingProblem, Outcome, IsFirst, IsReportId, MoveProblem;
    var f, problem := FiltersOf(a), Applied(fx, p, a).error;
    if a.Reports? {
      ReportsSucceed(fx, p, a.direction, f);
      if Chosen(a.kind, REPORT_STATUSES) {
        OutcomeJustified(fx, p, a, problem, ReportValues(fx, f), fx.Digest("reports", f));
      }
    } else if p.selected.None? {
      UnselectedProblem(fx, p, a.direction, f);
    } else {
      var id := p.selected.value.reportId;
      if a.Findings? {
        FindingsSucceed(fx, p, id, a.direction, f);
        if Chosen(a.kind, CHANGE_KINDS) && Chosen(a.severity, SEVERITIES) {
          OutcomeJustified(fx, p, a, problem, FindingValues(fx, id, f), fx.Digest("findings:" + id, f));
        }
      } else {
        ImpactsSucceed(fx, p, id, a.direction, f);
        if Chosen(a.kind, IMPACT_KINDS) {
          OutcomeJustified(fx, p, a, problem, ImpactValues(fx, id, f), fx.Digest("impacts:" + id, f));
        }
      }
    }
  }

  /** What an action does to a panel whose pagers are in their windows. */
  lemma ActionEffects(fx: Fixture, p: Panel, a: Action)
    requires p.InRange()
    ensures Windows(p) && Applied(fx, p, a).Ok? ==>
              Windows(Applied(fx, p, a).value) && Fulfilled(fx, p, a, Applied(fx, p, a).value)
    ensures fx.Valid() && PanelInvariant(fx, p) && Applied(fx, p, a).Err? ==> Justified(fx, p, a, Applied(fx, p, a).error)
  {
    hide Applied, Windows, Fulfilled, PanelInvariant, Justified;
    if Windows(p) {
      AppliedFulfils(fx, p, a);
      AppliedKeepsWindows(fx, p, a);
    }
    if fx.Valid() && PanelInvariant(fx, p) && Applied(fx, p, a).Err? {
      ProblemsAreJustified(fx, p, a);
    }
  }

  lemma UnselectedProblem(fx: Fixture, p: Panel, direction: string, f: Filters)
    requires p.InRange() && p.selected.None?
    ensures LoadFindings(fx, p, direction, f) == Err(Problem(409, "report_required"))
    ensures LoadImpacts(fx, p, direction, f) == Err(Problem(409, "report_required"))
  {}
}
