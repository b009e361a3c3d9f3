/**
 The M26 session object and the back end that updates it: every action runs on a
 deep copy, and the session takes the copy over only when the action succeeded.
 */
module SemanticChangeSession {
  import opened Wrappers
  import opened PageHistory
  import opened SemanticChangePanel
  import opened SemanticChangeActions

  class SessionState {
    var scenario: string
    var reports: seq<Report>
    var selected: Option<Report>
    var findings: seq<Finding>
    var impacts: seq<Impact>
    var reportPager: Pager<Filters>
    var findingPager: Pager<Filters>
    var impactPager: Pager<Filters>

    ghost function Pagers(): set<object>
      reads this
    {
      {reportPager, findingPager, impactPager}
    }

    ghost function View(): Panel
      reads this, Pagers()
    {
      Panel(scenario, reports, selected, findings, impacts,
            reportPager.Value(), findingPager.Value(), impactPager.Value())
    }

    ghost predicate Valid()
      reads this, Pagers()
    {
      && reportPager != findingPager && findingPager != impactPager && reportPager != impactPager
      && View().InRange()
    }

    constructor ()
      ensures Valid() && fresh(Pagers()) && View() == NewPanel("current")
    {
      scenario, reports, selected, findings, impacts := "current", [], None, [], [];
      reportPager := new Pager<Filters>();
      findingPager := new Pager<Filters>();
      impactPager := new Pager<Filters>();
    }

    constructor DeepCopy(other: SessionState)
      requires other.Valid()
      ensures Valid() && fresh(Pagers()) && View() == other.View()
    {
      scenario, reports, selected := other.scenario, other.reports, other.selected;
      findings, impacts := other.findings, other.impacts;
      reportPager := new Pager<Filters>.Copy(other.reportPager);
      findingPager := new Pager<Filters>.Copy(other.findingPager);
      impactPager := new Pager<Filters>.Copy(other.impactPager);
    }

    method ReplaceWith(other: SessionState)
      requires other.Valid()
      modifies this
      ensures Valid() && View() == old(other.View()) && Pagers() == old(other.Pagers())
    {
      scenario, reports, selected := other.scenario, other.reports, other.selected;
      findings, impacts := other.findings, other.impacts;
      reportPager, findingPager, impactPager := other.reportPager, other.findingPager, other.impactPager;
    }

    method StartScenario(wanted: string)
      modifies this
      ensures Valid() && fresh(Pagers()) && View() == NewPanel(wanted)
    {
      scenario, reports, selected := wanted, [], None;
      reportPager := new Pager<Filters>();
      DropDetails();
    }

    method DropDetails()
      requires reportPager.Value().InRange()
      modifies this
      ensures Valid() && reportPager == old(reportPager) && fresh(Pagers() - {reportPager})
      ensures View() == old(View()).(findings := [], impacts := [], findingPager := Unloaded(), impactPager := Unloaded())
    {
      findings, impacts := [], [];
      findingPager := new Pager<Filters>();
      impactPager := new Pager<Filters>();
    }
  }

  class PanelBackEnd {
    const fixture: Fixture

    constructor (fixture: Fixture)
      ensures this.fixture == fixture
    {
      this.fixture := fixture;
    }

    /** Whatever the action and its outcome, the session becomes the stepped panel. */
    method Apply(state: SessionState, action: Action) returns (r: Result<(), Problem>)
      requires state.Valid()
      modifies state
      ensures state.Valid()
      ensures state.View() == Step(fixture, old(state.View()), action)
      ensures match Applied(fixture, old(state.View()), action)
              case Ok(_) => r == Ok(())
              case Err(problem) => r == Err(problem)
      ensures r.Err? ==> state.View() == old(state.View())
      ensures Windows(old(state.View())) ==> Windows(state.View())
      ensures r.Ok? && Windows(old(state.View())) ==> Fulfilled(fixture, old(state.View()), action, state.View())
      ensures r.Err? && fixture.Valid() && PanelInvariant(fixture, old(state.View())) ==>
                Justified(fixture, old(state.View()), action, r.error)
    {
      hide Applied, Windows, Fulfilled, PanelInvariant, Justified;
      ghost var before := state.View();
      ActionEffects(fixture, before, action);
      var candidate := new SessionState.DeepCopy(state);
      r := ApplyTo(candidate, action);
      if r.Ok? {
        state.ReplaceWith(candidate);
      }
    }

    /** The action on the candidate; what a failed action leaves there is never read. */
    method ApplyTo(state: SessionState, action: Action) returns (r: Result<(), Problem>)
      requires state.Valid()
      modifies state, state.Pagers()
      ensures match Applied(fixture, old(state.View()), action)
              case Ok(panel) => r == Ok(()) && state.Valid() && state.View() == panel
              case Err(problem) => r == Err(problem)
    {
      hide LoadReports, LoadFindings, LoadImpacts, ChooseReport, RequiredText, Chosen, PagingProblem;
      match action
      case Rejected(problem) =>
        return Err(problem);
      case Reset =>
        var renewed := new SessionState();
        state.ReplaceWith(renewed);
        return Ok(());
      case SelectScenario(scenario, pageSize) =>
        if !RequiredText(scenario, 20) {
          return Err(INVALID_ACTION_VALUE);
        }
        if scenario !in SCENARIO_STATUS {
          return Err(INVALID_SCENARIO);
        }
        state.StartScenario(scenario);
        if !(1 <= pageSize <= MAX_PAGE_SIZE) {
          return Err(INVALID_PAGE_SIZE);
        }
        r := ReportsInto(state, "first", Filters(pageSize, Some(SCENARIO_STATUS[scenario]), None));
      case Reports(direction, pageSize, status) =>
        if !Chosen(status, REPORT_STATUSES) {
          return Err(Problem(400, "invalid_status"));
        }
        var refused := PagingProblem(direction, pageSize);
        if refused.Some? {
          return Err(refused.value);
        }
        r := ReportsInto(state, direction, Filters(pageSize, status, None));
      case SelectReport(reportId) =>
        r := SelectInto(state, reportId);
      case Findings(direction, pageSize, kind, severity) =>
        var refused := PagingProblem(direction, pageSize);
        if refused.Some? {
          return Err(refused.value);
        }
        if !Chosen(kind, CHANGE_KINDS) {
          return Err(Problem(400, "invalid_kind"));
        }
        if !Chosen(severity, SEVERITIES) {
          return Err(Problem(400, "invalid_severity"));
        }
        r := FindingsInto(state, direction, Filters(pageSize, kind, severity));
      case Impacts(direction, pageSize, kind) =>
        var refused := PagingProblem(direction, pageSize);
        if refused.Some? {
          return Err(refused.value);
        }
        if !Chosen(kind, IMPACT_KINDS) {
          return Err(Problem(400, "invalid_kind"));
        }
        r := ImpactsInto(state, direction, Filters(pageSize, kind, None));
    }

    method ReportsInto(state: SessionState, direction: string, f: Filters) returns (r: Result<(), Problem>)
      requires state.Valid()
      modifies state, state.Pagers()
      ensures match LoadReports(fixture, old(state.View()), direction, f)
              case Ok(panel) => r == Ok(()) && state.Valid() && state.View() == panel
              case Err(problem) => r == Err(problem)
    {
      hide Fetch, ReportValues, PageHistory.Prepared;
      var cursor := state.reportPager.Prepare(direction, f);
      if cursor.Err? {
        return Err(cursor.error);
      }
      var answer := Fetch(true, ReportValues(fixture, f), f.pageSize, fixture.Digest("reports", f), cursor.value);
      if answer.Err? {
        return Err(answer.error);
      }
      r := state.reportPager.Record(answer.value.next);
      state.reports := answer.value.items;
      state.selected := None;
      state.DropDetails();
    }

    method SelectInto(state: SessionState, reportId: string) returns (r: Result<(), Problem>)
      requires state.Valid()
      modifies state
      ensures match ChooseReport(fixture, old(state.View()), reportId)
              case Ok(panel) => r == Ok(()) && state.Valid() && state.View() == panel
              case Err(problem) => r == Err(problem)
    {
      if !RequiredText(reportId, 71) {
        return Err(INVALID_ACTION_VALUE);
      }
      if !IsReportId(reportId) {
        return Err(INVALID_REPORT_ID);
      }
      if !exists i :: 0 <= i < |state.reports| && state.reports[i].reportId == reportId {
        return Err(RESOURCE_UNAVAILABLE);
      }
      var detail := FirstReport(fixture.reports, reportId);
      if detail.None? {
        return Err(RESOURCE_UNAVAILABLE);
      }
      if !detail.value.wellFormed || detail.value.item.reportId != reportId {
        return Err(INVALID_UPSTREAM_RESPONSE);
      }
      state.selected := Some(detail.value.item);
      state.DropDetails();
      return Ok(());
    }

    method FindingsInto(state: SessionState, direction: string, f: Filters) returns (r: Result<(), Problem>)
      requires state.Valid()
      modifies state, state.Pagers()
      ensures match LoadFindings(fixture, old(state.View()), direction, f)
              case Ok(panel) => r == Ok(()) && state.Valid() && state.View() == panel
              case Err(problem) => r == Err(problem)
    {
      hide Fetch, FindingValues, PageHistory.Prepared, FirstReport;
      if state.selected.None? {
        return Err(REPORT_REQUIRED);
      }
      var id := state.selected.value.reportId;
      var cursor := state.findingPager.Prepare(direction, f);
      if cursor.Err? {
        return Err(cursor.error);
      }
      var known := FirstReport(fixture.reports, id).Some?;
      var answer := Fetch(known, FindingValues(fixture, id, f), f.pageSize, fixture.Digest("findings:" + id, f), cursor.value);
      if answer.Err? {
        return Err(answer.error);
      }
      r := state.findingPager.Record(answer.value.next);
      state.findings := answer.value.items;
    }

    method ImpactsInto(state: SessionState, direction: string, f: Filters) returns (r: Result<(), Problem>)
      requires state.Valid()
      modifies state, state.Pagers()
      ensures match LoadImpacts(fixture, old(state.View()), direction, f)
              case Ok(panel) => r == Ok(()) && state.Valid() && state.View() == panel
              case Err(problem) => r == Err(problem)
    {
      hide Fetch, ImpactValues, PageHistory.Prepared, FirstReport;
      if state.selected.None? {
        return Err(REPORT_REQUIRED);
      }
      var id := state.selected.value.reportId;
      var cursor := state.impactPager.Prepare(direction, f);
      if cursor.Err? {
        return Err(cursor.error);
      }
      var known := FirstReport(fixture.reports, id).Some?;
      var answer := Fetch(known, ImpactValues(fixture, id, f), f.pageSize, fixture.Digest("impacts:" + id, f), cursor.value);
      if answer.Err? {
        return Err(answer.error);
      }
      r := state.impactPager.Record(answer.value.next);
      state.impacts := answer.value.items;
    }
  }
}
