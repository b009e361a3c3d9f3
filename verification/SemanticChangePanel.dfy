/**
 The M26 semantic-change panel: a transactional back end over three pagers, run
 against the deterministic offset-cursor transport.

 Raw items carry the fields the transport filters on, an opaque remainder, and
 whether the panel's projection accepts them.
 */
module SemanticChangePanel {
  import opened Wrappers
  import opened PageHistory
  import opened Text

  const MAX_PAGE_SIZE: nat := 50

  const REPORT_STATUSES: set<string> :=
    {"current", "review_required", "blocked", "revalidated", "rejected", "superseded"}
  const SCENARIO_STATUS: map<string, string> :=
    map["current" := "current", "review" := "review_required", "blocked" := "blocked", "remediated" := "revalidated"]
  const CHANGE_KINDS: set<string> :=
    {"baseline_required", "binding_missing", "binding_ambiguous", "asset_removed", "field_removed",
     "physical_type_changed", "nullability_changed", "key_status_changed", "field_definition_changed",
     "field_terms_changed", "asset_metadata_changed", "registry_changed", "join_cardinality_changed",
     "join_foreign_key_changed", "join_overlap_changed", "join_nulls_changed", "join_invalids_changed",
     "join_multiplicity_changed", "evidence_unavailable"}
  const SEVERITIES: set<string> := {"informational", "review_required", "blocking"}
  const IMPACT_KINDS: set<string> := {"mapping", "join", "workflow", "recipe"}

  const INVALID_ACTION_VALUE := Problem(400, "invalid_action_value")
  const INVALID_SCENARIO := Problem(400, "invalid_scenario")
  const INVALID_PAGE_SIZE := Problem(400, "invalid_page_size")
  const INVALID_REPORT_ID := Problem(400, "invalid_report_id")
  const REPORT_REQUIRED := Problem(409, "report_required")
  const RESOURCE_UNAVAILABLE := Problem(404, "semantic_change_resource_unavailable")
  const INVALID_UPSTREAM_RESPONSE := Problem(502, "invalid_upstream_response")
  const UPSTREAM_REQUEST_DENIED := Problem(500, "upstream_request_denied")

  // ------------------------------------------------------------------
  // The offset-cursor transport
  // ------------------------------------------------------------------

  datatype Report = Report(reportId: string, status: string, detail: string)
  datatype Finding = Finding(kind: string, severity: string, detail: string)
  datatype Impact = Impact(kind: string, detail: string)

  datatype Raw<T> = Raw(item: T, wellFormed: bool)

  /** `kind` is the status filter of reports and the kind filter of findings and impacts. */
  datatype Filters = Filters(pageSize: nat, kind: Option<string>, severity: Option<string>)

  /** `digest` stands for the truncated SHA-256 of scope and filters; collisions are allowed. */
  datatype Fixture = Fixture(
    reports: seq<Raw<Report>>,
    findings: map<string, seq<Raw<Finding>>>,
    impacts: map<string, seq<Raw<Impact>>>,
    digest: (string, Option<string>, Option<string>) -> string)
  {
    ghost predicate Valid() {
      forall scope, kind, severity :: IsDigest(digest(scope, kind, severity))
    }

    function FindingsOf(reportId: string): seq<Raw<Finding>> {
      if reportId in findings then findings[reportId] else []
    }

    function ImpactsOf(reportId: string): seq<Raw<Impact>> {
      if reportId in impacts then impacts[reportId] else []
    }

    function Digest(scope: string, f: Filters): string {
      digest(scope, f.kind, f.severity)
    }
  }

  predicate IsDigest(s: string) { |s| == 16 && AllLowerHex(s) }

  function FixtureCursor(offset: nat, digest: string): Cursor {
    "fixture_" + Decimal(offset) + "_" + digest
  }

  /** Full match of `fixture_([0-9]+)_([0-9a-f]{16})`: the offset and the digest. */
  function ParseCursor(s: Cursor): Option<(nat, string)> {
    if |s| >= 26 && s[..8] == "fixture_" && s[|s| - 17] == '_'
       && AllDigits(s[8..|s| - 17]) && AllLowerHex(s[|s| - 16..])
    then Some((DecimalValue(s[8..|s| - 17]), s[|s| - 16..]))
    else None
  }

  lemma CursorRoundTrip(offset: nat, digest: string)
    requires IsDigest(digest)
    ensures ParseCursor(FixtureCursor(offset, digest)) == Some((offset, digest))
  {
    DecimalRoundTrip(offset);
    var s := FixtureCursor(offset, digest);
    assert s[..8] == "fixture_";
    assert s[8..|s| - 17] == Decimal(offset);
    assert s[|s| - 16..] == digest;
  }

  function Filter<T>(xs: seq<T>, keep: T -> bool): seq<T> {
    if xs == [] then [] else (if keep(xs[0]) then [xs[0]] else []) + Filter(xs[1..], keep)
  }

  function ReportValues(fx: Fixture, f: Filters): seq<Raw<Report>> {
    match f.kind
    case None => fx.reports
    case Some(status) => Filter(fx.reports, (r: Raw<Report>) => r.item.status == status)
  }

  function FindingValues(fx: Fixture, reportId: string, f: Filters): seq<Raw<Finding>> {
    var all := fx.FindingsOf(reportId);
    var ofKind := match f.kind
      case None => all
      case Some(kind) => Filter(all, (r: Raw<Finding>) => r.item.kind == kind);
    match f.severity
    case None => ofKind
    case Some(severity) => Filter(ofKind, (r: Raw<Finding>) => r.item.severity == severity)
  }

  function ImpactValues(fx: Fixture, reportId: string, f: Filters): seq<Raw<Impact>> {
    var all := fx.ImpactsOf(reportId);
    match f.kind
    case None => all
    case Some(kind) => Filter(all, (r: Raw<Impact>) => r.item.kind == kind)
  }

  datatype Page<T> = Page(items: seq<T>, next: Option<Cursor>)

  /** One page from the offset the cursor names; `None` is the 404 answer. */
  function SyntheticPage<T>(values: seq<T>, pageSize: nat, digest: string, cursor: Option<Cursor>): Option<Page<T>> {
    var offset :=
      match cursor
      case None => Some(0)
      case Some(c) =>
        match ParseCursor(c)
        case None => None
        case Some((n, d)) => if d != digest then None else Some(n);
    match offset
    case None => None
    case Some(start) =>
      var from := Min(start, |values|);
      var page := values[from..Min(start + pageSize, |values|)];
      var next := start + |page|;
      Some(Page(page, if next < |values| then Some(FixtureCursor(next, digest)) else None))
  }

  predicate ValidCursor(c: Cursor) {
    1 <= |c| <= 1024 && forall i :: 0 <= i < |c| ==> 33 <= c[i] as int < 127
  }

  /** Request allowlist, transport answer and page projection, in that order; `known` says the report exists. */
  function Fetch<T>(known: bool, values: seq<Raw<T>>, pageSize: nat, digest: string, cursor: Option<Cursor>)
    : Result<Page<T>, Problem>
  {
    if cursor.Some? && !ValidCursor(cursor.value) then Err(UPSTREAM_REQUEST_DENIED)
    else if !known then Err(RESOURCE_UNAVAILABLE)
    else
      match SyntheticPage(values, pageSize, digest, cursor)
      case None => Err(RESOURCE_UNAVAILABLE)
      case Some(page) =>
        if |page.items| > MAX_PAGE_SIZE then Err(INVALID_UPSTREAM_RESPONSE)
        else if page.next.Some? && !ValidCursor(page.next.value) then Err(INVALID_UPSTREAM_RESPONSE)
        else if exists i :: 0 <= i < |page.items| && !page.items[i].wellFormed then Err(INVALID_UPSTREAM_RESPONSE)
        else Ok(Page(Items(page.items), page.next))
  }

  function Items<T>(raws: seq<Raw<T>>): seq<T> {
    seq(|raws|, i requires 0 <= i < |raws| => raws[i].item)
  }

  // ------------------------------------------------------------------
  // Actions on values
  // ------------------------------------------------------------------

  /** `Rejected` is an action that validation refuses, or one that raised unexpectedly. */
  datatype Action =
    | Rejected(problem: Problem)
    | Reset
    | SelectScenario(scenario: string, pageSize: int)
    | Reports(direction: string, pageSize: int, kind: Option<string>)
    | SelectReport(reportId: string)
    | Findings(direction: string, pageSize: int, kind: Option<string>, severity: Option<string>)
    | Impacts(direction: string, pageSize: int, kind: Option<string>)

  datatype Panel = Panel(
    scenario: string,
    reports: seq<Report>,
    selected: Option<Report>,
    findings: seq<Finding>,
    impacts: seq<Impact>,
    reportPager: History<Filters>,
    findingPager: History<Filters>,
    impactPager: History<Filters>)
  {
    ghost predicate InRange() {
      reportPager.InRange() && findingPager.InRange() && impactPager.InRange()
    }
  }

  function NewPanel(scenario: string): Panel {
    Panel(scenario, [], None, [], [], Unloaded(), Unloaded(), Unloaded())
  }

  predicate RequiredText(s: string, maximum: nat) {
    1 <= |s| <= maximum && forall i :: 0 <= i < |s| ==> s[i] as int >= 32 && s[i] as int != 127
  }

  predicate IsReportId(s: string) {
    |s| == 71 && s[..7] == "report_" && AllLowerHex(s[7..])
  }

  /** The checks shared by the three paging actions, in the order they are made. */
  function PagingProblem(direction: string, pageSize: int): (r: Option<Problem>)
    ensures r.None? ==> 1 <= pageSize <= MAX_PAGE_SIZE
  {
    if !RequiredText(direction, 10) then Some(INVALID_ACTION_VALUE)
    else if direction !in {"first", "previous", "next"} then Some(INVALID_DIRECTION)
    else if !(1 <= pageSize <= MAX_PAGE_SIZE) then Some(INVALID_PAGE_SIZE)
    else None
  }

  predicate Chosen(value: Option<string>, choices: set<string>) {
    value.Some? ==> value.value in choices
  }

  /** Prepare, request, project, record: the new history and the items to display. */
  function LoadPage<T>(h: History<Filters>, direction: string, f: Filters, known: bool, values: seq<Raw<T>>, digest: string)
    : (r: Result<(History<Filters>, seq<T>), Problem>)
    requires h.InRange()
    ensures r.Ok? ==> r.value.0.InRange()
  {
    match Prepared(h, direction, f)
    case Err(problem) => Err(problem)
    case Ok(moved) =>
      match Fetch(known, values, f.pageSize, digest, moved.Current().requestCursor)
      case Err(problem) => Err(problem)
      case Ok(page) => Ok((Recorded(moved, page.next), page.items))
  }

  function LoadReports(fx: Fixture, p: Panel, direction: string, f: Filters): (r: Result<Panel, Problem>)
    requires p.InRange()
    ensures r.Ok? ==> r.value.InRange()
  {
    match LoadPage(p.reportPager, direction, f, true, ReportValues(fx, f), fx.Digest("reports", f))
    case Err(problem) => Err(problem)
    case Ok((pager, items)) =>
      Ok(p.(reportPager := pager, reports := items, selected := None, findings := [], impacts := [],
         findingPager := Unloaded(), impactPager := Unloaded()))
  }

  /** The report detail answer: the first report with that identifier. */
  function FirstReport(reports: seq<Raw<Report>>, reportId: string): Option<Raw<Report>> {
    if reports == [] then None
    else if reports[0].item.reportId == reportId then Some(reports[0])
    else FirstReport(reports[1..], reportId)
  }

  function LoadFindings(fx: Fixture, p: Panel, direction: string, f: Filters): (r: Result<Panel, Problem>)
    requires p.InRange()
    ensures r.Ok? ==> r.value.InRange()
  {
    if p.selected.None? then Err(REPORT_REQUIRED)
    else
      var id := p.selected.value.reportId;
      var known := FirstReport(fx.reports, id).Some?;
      match LoadPage(p.findingPager, direction, f, known, FindingValues(fx, id, f), fx.Digest("findings:" + id, f))
      case Err(problem) => Err(problem)
      case Ok((pager, items)) => Ok(p.(findingPager := pager, findings := items))
  }

  function LoadImpacts(fx: Fixture, p: Panel, direction: string, f: Filters): (r: Result<Panel, Problem>)
    requires p.InRange()
    ensures r.Ok? ==> r.value.InRange()
  {
    if p.selected.None? then Err(REPORT_REQUIRED)
    else
      var id := p.selected.value.reportId;
      var known := FirstReport(fx.reports, id).Some?;
      match LoadPage(p.impactPager, direction, f, known, ImpactValues(fx, id, f), fx.Digest("impacts:" + id, f))
      case Err(problem) => Err(problem)
      case Ok((pager, items)) => Ok(p.(impactPager := pager, impacts := items))
  }

  function ChooseReport(fx: Fixture, p: Panel, reportId: string): (r: Result<Panel, Problem>)
  {
    if !RequiredText(reportId, 71) then Err(INVALID_ACTION_VALUE)
    else if !IsReportId(reportId) then Err(INVALID_REPORT_ID)
    else if !exists i :: 0 <= i < |p.reports| && p.reports[i].reportId == reportId then Err(RESOURCE_UNAVAILABLE)
    else
      match FirstReport(fx.reports, reportId)
      case None => Err(RESOURCE_UNAVAILABLE)
      case Some(raw) =>
        if !raw.wellFormed || raw.item.reportId != reportId then Err(INVALID_UPSTREAM_RESPONSE)
        else Ok(p.(selected := Some(raw.item), findings := [], impacts := [],
                findingPager := Unloaded(), impactPager := Unloaded()))
  }

  /** The panel a candidate becomes, or the problem that discards it. */
  function Applied(fx: Fixture, p: Panel, a: Action): (r: Result<Panel, Problem>)
    requires p.InRange()
    ensures r.Ok? ==> r.value.InRange()
  {
    match a
    case Rejected(problem) => Err(problem)
    case Reset => Ok(NewPanel("current"))
    case SelectScenario(scenario, pageSize) =>
      if !RequiredText(scenario, 20) then Err(INVALID_ACTION_VALUE)
      else if scenario !in SCENARIO_STATUS then Err(INVALID_SCENARIO)
      else if !(1 <= pageSize <= MAX_PAGE_SIZE) then Err(INVALID_PAGE_SIZE)
      else LoadReports(fx, NewPanel(scenario), "first", Filters(pageSize, Some(SCENARIO_STATUS[scenario]), None))
    case Reports(direction, pageSize, status) =>
      if !Chosen(status, REPORT_STATUSES) then Err(Problem(400, "invalid_status"))
      else if PagingProblem(direction, pageSize).Some? then Err(PagingProblem(direction, pageSize).value)
      else LoadReports(fx, p, direction, Filters(pageSize, status, None))
    case SelectReport(reportId) => ChooseReport(fx, p, reportId)
    case Findings(direction, pageSize, kind, severity) =>
      if PagingProblem(direction, pageSize).Some? then Err(PagingProblem(direction, pageSize).value)
      else if !Chosen(kind, CHANGE_KINDS) then Err(Problem(400, "invalid_kind"))
      else if !Chosen(severity, SEVERITIES) then Err(Problem(400, "invalid_severity"))
      else LoadFindings(fx, p, direction, Filters(pageSize, kind, severity))
    case Impacts(direction, pageSize, kind) =>
      if PagingProblem(direction, pageSize).Some? then Err(PagingProblem(direction, pageSize).value)
      else if !Chosen(kind, IMPACT_KINDS) then Err(Problem(400, "invalid_kind"))
      else LoadImpacts(fx, p, direction, Filters(pageSize, kind, None))
  }

  /** Copy, run, commit only on success. */
  function Step(fx: Fixture, p: Panel, a: Action): (r: Panel)
    requires p.InRange()
    ensures r.InRange()
  {
    match Applied(fx, p, a)
    case Ok(candidate) => candidate
    case Err(_) => p
  }

  function Run(fx: Fixture, actions: seq<Action>): (r: Panel)
    ensures r.InRange()
  {
    if actions == [] then NewPanel("current")
    else Step(fx, Run(fx, actions[..|actions| - 1]), actions[|actions| - 1])
  }

  // ------------------------------------------------------------------
  // The panel refines slicing
  // ------------------------------------------------------------------

  /** Page `k` of `values` cut into pages of `size`. */
  function Slice<T>(values: seq<T>, k: nat, size: nat): seq<T>
    requires k >= 1
  {
    values[Min((k - 1) * size, |values|)..Min(k * size, |values|)]
  }

  /** The same items, one by one. */
  ghost predicate AreItems<T>(shown: seq<T>, raws: seq<Raw<T>>) {
    |shown| == |raws| && forall i :: 0 <= i < |raws| ==> shown[i] == raws[i].item
  }

  /** What one pager displays is its page of the filtered values, and "next" is offered exactly when more remain. */
  ghost predicate ShowsSlice<T>(h: History<Filters>, shown: seq<T>, source: Filters -> seq<Raw<T>>) {
    if h.entries == [] then shown == []
    else
      && h.InRange() && h.filters.Some? && h.Current().number >= 1
      && var k := h.Current().number;
         var f := h.filters.value;
         && 1 <= f.pageSize
         && AreItems(shown, Slice(source(f), k, f.pageSize))
         && (h.Current().nextCursor.Some? <==> k * f.pageSize < |source(f)|)
  }

  /** The transport's answers, as the upstream that a pager follows. */
  function NextOf<T>(source: Filters -> seq<Raw<T>>, digest: Filters -> string): Upstream<Filters> {
    (f: Filters, c: Option<Cursor>) =>
      match SyntheticPage(source(f), f.pageSize, digest(f), c)
      case None => None
      case Some(page) => page.next
  }

  function PageFrom<T>(values: seq<T>, size: nat, digest: string, offset: nat): Page<T>
    requires offset <= |values|
  {
    var end := Min(offset + size, |values|);
    Page(values[offset..end], if end < |values| then Some(FixtureCursor(end, digest)) else None)
  }

  /** Requesting offset n answers the slice from there and, while more remain, the following offset. */
  lemma PageAt<T>(values: seq<T>, size: nat, digest: string, offset: nat, cursor: Option<Cursor>)
    requires IsDigest(digest) && offset <= |values|
    requires cursor == if offset == 0 then None else Some(FixtureCursor(offset, digest))
    ensures SyntheticPage(values, size, digest, cursor) == Some(PageFrom(values, size, digest, offset))
  {
    if offset != 0 {
      CursorRoundTrip(offset, digest);
    }
  }

  /** `n * size`, by repeated addition. */
  function Offset(n: nat, size: nat): nat {
    if n == 0 then 0 else Offset(n - 1, size) + size
  }

  lemma {:induction false} OffsetIsProduct(n: nat, size: nat)
    ensures Offset(n, size) == n * size
    ensures n >= 1 && size >= 1 ==> Offset(n, size) >= 1
  {
    if n > 0 {
      OffsetIsProduct(n - 1, size);
    }
  }

  /** The cursor that requests offset `n * size`. */
  function OffsetCursor(n: nat, size: nat, digest: string): Option<Cursor> {
    if n == 0 then None else Some(FixtureCursor(Offset(n, size), digest))
  }

  /** Hop n of the chain requests offset n * size, while offsets last. */
  lemma {:induction false} ChainIsOffsets<T>(source: Filters -> seq<Raw<T>>, digest: Filters -> string, f: Filters, n: nat)
    requires f.pageSize >= 1 && IsDigest(digest(f))
    requires Unbroken(NextOf(source, digest), f, n + 1)
    ensures Offset(n, f.pageSize) <= |source(f)|
    ensures Hop(NextOf(source, digest), f, n) == OffsetCursor(n, f.pageSize, digest(f))
  {
    hide NextOf, FixtureCursor, SyntheticPage, PageFrom;
    var up := NextOf(source, digest);
    if n > 0 {
      ChainIsOffsets(source, digest, f, n - 1);
      NextOfOffset(source, digest, f, n - 1);
      assert Hop(up, f, n) == up(f, Hop(up, f, n - 1));
    }
  }

  lemma NextOfOffset<T>(source: Filters -> seq<Raw<T>>, digest: Filters -> string, f: Filters, n: nat)
    requires f.pageSize >= 1 && IsDigest(digest(f))
    requires Offset(n, f.pageSize) <= |source(f)|
    ensures var c := OffsetCursor(n, f.pageSize, digest(f));
            && SyntheticPage(source(f), f.pageSize, digest(f), c)
               == Some(PageFrom(source(f), f.pageSize, digest(f), Offset(n, f.pageSize)))
            && NextOf(source, digest)(f, c)
               == if Offset(n + 1, f.pageSize) < |source(f)| then OffsetCursor(n + 1, f.pageSize, digest(f)) else None
  {
    OffsetIsProduct(n, f.pageSize);
    PageAt(source(f), f.pageSize, digest(f), Offset(n, f.pageSize), OffsetCursor(n, f.pageSize, digest(f)));
  }

  /** What page k of `count` values hands over. */
  function FollowingCursor(count: nat, k: nat, size: nat, digest: string): Option<Cursor> {
    if k * size < count then Some(FixtureCursor(k * size, digest)) else None
  }

  lemma PageOnChain<T>(source: Filters -> seq<Raw<T>>, digest: Filters -> string, f: Filters, k: nat)
    requires k >= 1 && f.pageSize >= 1 && IsDigest(digest(f))
    requires Unbroken(NextOf(source, digest), f, k)
    ensures var page := SyntheticPage(source(f), f.pageSize, digest(f), Hop(NextOf(source, digest), f, k - 1));
            && page.Some?
            && page.value.items == Slice(source(f), k, f.pageSize)
            && page.value.next == FollowingCursor(|source(f)|, k, f.pageSize, digest(f))
  {
    hide Offset, NextOf, FixtureCursor, SyntheticPage, PageFrom, Slice, Hop, OffsetCursor;
    ChainIsOffsets(source, digest, f, k - 1);
    NextOfOffset(source, digest, f, k - 1);
    PageFromIsSlice(source(f), k, f.pageSize, digest(f));
  }

  lemma PageFromIsSlice<T>(values: seq<T>, k: nat, size: nat, digest: string)
    requires k >= 1 && Offset(k - 1, size) <= |values|
    ensures var page := PageFrom(values, size, digest, Offset(k - 1, size));
            page.items == Slice(values, k, size) && page.next == FollowingCursor(|values|, k, size, digest)
  {
    assert Offset(k, size) == Offset(k - 1, size) + size;
    OffsetIsProduct(k - 1, size);
    OffsetIsProduct(k, size);
    hide FixtureCursor, Offset;
  }

  /** What holds of one pager and its display in every reachable panel. */
  ghost predicate Consistent<T>(h: History<Filters>, shown: seq<T>, source: Filters -> seq<Raw<T>>, digest: Filters -> string) {
    && Window(h)
    && OnChain(h, NextOf(source, digest))
    && ShowsSlice(h, shown, source)
    && CursorsValid(h)
  }

  /** Every retained cursor passes the request allowlist. */
  ghost predicate CursorsValid(h: History<Filters>) {
    forall i :: 0 <= i < |h.entries| ==> Allowed(h.entries[i].requestCursor) && Allowed(h.entries[i].nextCursor)
  }

  predicate Allowed(c: Option<Cursor>) {
    c.Some? ==> ValidCursor(c.value)
  }

  lemma PreparedCursorsValid(h: History<Filters>, direction: string, f: Filters)
    requires h.InRange() && CursorsValid(h)
    ensures Prepared(h, direction, f).Ok? ==> CursorsValid(Prepared(h, direction, f).value)
  {
    assert Allowed(None);
    hide Allowed;
  }

  lemma AnswerShowsSlice<T>(h: History<Filters>, source: Filters -> seq<Raw<T>>, digest: Filters -> string, f: Filters, known: bool)
    requires h.entries != [] && h.InRange() && h.filters == Some(f)
    requires 1 <= h.Current().number <= h.Highest()
    requires 1 <= f.pageSize && IsDigest(digest(f))
    requires AwaitingAnswer(h, NextOf(source, digest), f)
    ensures var r := Fetch(known, source(f), f.pageSize, digest(f), h.Current().requestCursor);
            r.Ok? ==>
              && r.value.next == NextOf(source, digest)(f, h.Current().requestCursor)
              && ShowsSlice(Recorded(h, r.value.next), r.value.items, source)
  {
    hide Hop, Unbroken, SyntheticPage, ValidCursor, Slice;
    var k := h.Current().number;
    UnbrokenBefore(NextOf(source, digest), f, k, h.Highest());
    PageOnChain(source, digest, f, k);
    assert h.Current() == h.entries[h.position];
    assert h.Current().requestCursor == Hop(NextOf(source, digest), f, k - 1);
  }

  lemma LoadKeepsConsistent<T>(h: History<Filters>, shown: seq<T>, source: Filters -> seq<Raw<T>>,
                               digest: Filters -> string, direction: string, f: Filters, known: bool)
    requires Consistent(h, shown, source, digest)
    requires 1 <= f.pageSize && IsDigest(digest(f))
    ensures var r := LoadPage(h, direction, f, known, source(f), digest(f));
            r.Ok? ==> Consistent(r.value.0, r.value.1, source, digest)
  {
    hide ShowsSlice, OnChain, AwaitingAnswer, Fetch, NextOf, Prepared, Recorded;
    var up := NextOf(source, digest);
    if LoadPage(h, direction, f, known, source(f), digest(f)).Ok? {
      var moved := Prepared(h, direction, f).value;
      PreparedKeepsWindow(h, direction, f);
      PreparedAwaitsAnswer(h, up, direction, f);
      AnswerCompletesChain(moved, up, f);
      AnswerShowsSlice(moved, source, digest, f, known);
      RecordedKeepsWindow(moved, up(f, moved.Current().requestCursor));
      PreparedCursorsValid(h, direction, f);
      FetchedCursorAllowed(known, source(f), f.pageSize, digest(f), moved.Current().requestCursor);
      RecordedCursorsValid(moved, up(f, moved.Current().requestCursor));
    }
  }

  lemma FetchedCursorAllowed<T>(known: bool, values: seq<Raw<T>>, pageSize: nat, digest: string, cursor: Option<Cursor>)
    ensures var r := Fetch(known, values, pageSize, digest, cursor); r.Ok? ==> Allowed(r.value.next)
  {
    hide ValidCursor, SyntheticPage;
  }

  lemma RecordedCursorsValid(h: History<Filters>, next: Option<Cursor>)
    requires h.entries != [] && h.InRange() && CursorsValid(h) && Allowed(next)
    ensures CursorsValid(Recorded(h, next))
  {
    hide Allowed;
  }

  // ------------------------------------------------------------------
  // When a load succeeds
  // ------------------------------------------------------------------

  /** Which page a load asks for, if it can ask at all: page 1, the retained page before, or the page after while values remain. */
  ghost predicate CanMove(h: History<Filters>, direction: string, f: Filters, count: nat)
    requires h.InRange()
  {
    || direction == "first"
    || (h.entries != [] && h.filters == Some(f) &&
        ((direction == "previous" && h.Current().number > h.entries[0].number) ||
         (direction == "next" && h.Current().number * f.pageSize < count)))
  }

  /** Page k can be shown: its items project, and the cursor it hands over is not too long. */
  ghost predicate PageFits<T>(values: seq<Raw<T>>, k: nat, size: nat, digest: string)
    requires k >= 1
  {
    && (forall i :: 0 <= i < |Slice(values, k, size)| ==> Slice(values, k, size)[i].wellFormed)
    && (k * size < |values| ==> |FixtureCursor(k * size, digest)| <= 1024)
  }

  /** The length is all that can be wrong with a cursor of the transport's own. */
  lemma OwnCursorValid(offset: nat, digest: string)
    requires IsDigest(digest)
    ensures ValidCursor(FixtureCursor(offset, digest)) <==> |FixtureCursor(offset, digest)| <= 1024
  {
    DecimalRoundTrip(offset);
    hide Decimal;
    var c := FixtureCursor(offset, digest);
    forall i | 0 <= i < |c|
      ensures 33 <= c[i] as int < 127
    {
      var d := Decimal(offset);
      if i < 8 {
        assert c[i] == "fixture_"[i];
      } else if i < 8 + |d| {
        assert c[i] == d[i - 8] && IsDigit(d[i - 8]);
      } else if i > 8 + |d| {
        assert c[i] == digest[i - 9 - |d|] && IsLowerHex(digest[i - 9 - |d|]);
      }
    }
  }

  lemma SliceLength<T>(values: seq<T>, k: nat, size: nat)
    requires k >= 1
    ensures |Slice(values, k, size)| <= size
  {
    assert k * size == (k - 1) * size + size;
  }

  lemma FetchOnChain<T>(source: Filters -> seq<Raw<T>>, digest: Filters -> string, f: Filters, k: nat, cursor: Option<Cursor>)
    requires k >= 1 && 1 <= f.pageSize <= MAX_PAGE_SIZE && IsDigest(digest(f))
    requires Unbroken(NextOf(source, digest), f, k) && cursor == Hop(NextOf(source, digest), f, k - 1) && Allowed(cursor)
    ensures var r := Fetch(true, source(f), f.pageSize, digest(f), cursor);
            if PageFits(source(f), k, f.pageSize, digest(f)) then r.Ok? else r == Err(INVALID_UPSTREAM_RESPONSE)
  {
    hide SyntheticPage, ValidCursor, Slice, Hop, Unbroken, FixtureCursor, NextOf;
    PageOnChain(source, digest, f, k);
    SliceLength(source(f), k, f.pageSize);
    OwnCursorValid(k * f.pageSize, digest(f));
  }

  /** Where the move leads: to its target, on an unbroken chain, with an allowed cursor. */
  lemma MoveReachesTarget<T>(h: History<Filters>, shown: seq<T>, source: Filters -> seq<Raw<T>>, digest: Filters -> string,
                             direction: string, f: Filters)
    requires Consistent(h, shown, source, digest)
    ensures var moved := Prepared(h, direction, f);
            && (moved.Ok? <==> CanMove(h, direction, f, |source(f)|))
            && (moved.Ok? ==>
                  && moved.value.entries != [] && moved.value.InRange()
                  && 1 <= moved.value.Current().number == Target(h, direction)
                  && Unbroken(NextOf(source, digest), f, moved.value.Current().number)
                  && moved.value.Current().requestCursor == Hop(NextOf(source, digest), f, moved.value.Current().number - 1)
                  && Allowed(moved.value.Current().requestCursor))
  {
    hide Window, OnChain, NextOf, Prepared, AwaitingAnswer, Unbroken, Hop, Allowed, ShowsSlice, CursorsValid, CanMove, Target;
    MoveTakesItsTurn(h, shown, source, direction, f);
    if Prepared(h, direction, f).Ok? {
      var moved := Prepared(h, direction, f).value;
      PreparedKeepsWindow(h, direction, f);
      PreparedAwaitsAnswer(h, NextOf(source, digest), direction, f);
      MovedIsOnChain(moved, NextOf(source, digest), f);
      PreparedCursorsValid(h, direction, f);
      CurrentCursorAllowed(moved);
    }
  }

  lemma CurrentCursorAllowed(h: History<Filters>)
    requires h.entries != [] && h.InRange() && CursorsValid(h)
    ensures Allowed(h.Current().requestCursor)
  {
    hide Allowed;
  }

  /** "next" is offered while values remain, so the moves are those of the page numbers. */
  lemma MoveTakesItsTurn<T>(h: History<Filters>, shown: seq<T>, source: Filters -> seq<Raw<T>>, direction: string, f: Filters)
    requires Window(h) && ShowsSlice(h, shown, source)
    ensures h.InRange()
    ensures var moved := Prepared(h, direction, f);
            && (moved.Ok? <==> CanMove(h, direction, f, |source(f)|))
            && (moved.Ok? ==>
                  && moved.value.entries != [] && moved.value.InRange()
                  && moved.value.Current().number == Target(h, direction))
  {
    PreparedMovesByOne(h, direction, f);
    assert h.InRange();
    hide Window, Prepared, Slice, Items;
  }

  lemma MovedIsOnChain(h: History<Filters>, upstream: Upstream<Filters>, f: Filters)
    requires Window(h) && h.entries != [] && AwaitingAnswer(h, upstream, f)
    ensures var k := h.Current().number;
            k >= 1 && Unbroken(upstream, f, k) && h.Current().requestCursor == Hop(upstream, f, k - 1)
  {
    hide Hop, Unbroken;
    assert h.Current() == h.entries[h.position];
    UnbrokenBefore(upstream, f, h.Current().number, h.Highest());
  }

  function ProblemOf<T>(r: Result<T, Problem>): Option<Problem> {
    if r.Ok? then None else Some(r.error)
  }

  /** Other filters than the pager's, a direction it does not know, or no page that way. */
  function MoveProblem(h: History<Filters>, direction: string, f: Filters): Problem {
    if h.entries == [] || h.filters != Some(f) then Problem(409, "paging_context_changed")
    else if direction == "next" || direction == "previous" then Problem(409, "page_unavailable")
    else Problem(400, "invalid_direction")
  }

  /** The outcome of one load: a refused move, success, or a page that does not fit; never a missing resource or a denied request. */
  ghost predicate Outcome<T>(problem: Option<Problem>, h: History<Filters>, values: seq<Raw<T>>, digest: string,
                             direction: string, f: Filters)
    requires h.InRange()
  {
    if !CanMove(h, direction, f, |values|) then problem == Some(MoveProblem(h, direction, f))
    else
      && Target(h, direction) >= 1
      && problem == if PageFits(values, Target(h, direction), f.pageSize, digest) then None else Some(Problem(502, "invalid_upstream_response"))
  }

  lemma ConsistentInRange<T>(h: History<Filters>, shown: seq<T>, source: Filters -> seq<Raw<T>>, digest: Filters -> string)
    requires Consistent(h, shown, source, digest)
    ensures h.InRange()
  {}

  lemma PreparedProblems(h: History<Filters>, direction: string, f: Filters)
    requires h.InRange()
    ensures Prepared(h, direction, f).Err? ==> Prepared(h, direction, f).error == MoveProblem(h, direction, f)
  {}

  /** On its own chain a load succeeds exactly when it can move and the page fits; a page that does not fit is the only upstream problem. */
  lemma LoadSucceedsExactlyWhen<T>(h: History<Filters>, shown: seq<T>, source: Filters -> seq<Raw<T>>,
                                   digest: Filters -> string, direction: string, f: Filters)
    requires Consistent(h, shown, source, digest)
    requires 1 <= f.pageSize <= MAX_PAGE_SIZE && IsDigest(digest(f))
    ensures h.InRange()
    ensures Outcome(ProblemOf(LoadPage(h, direction, f, true, source(f), digest(f))), h, source(f), digest(f), direction, f)
  {
    hide Consistent, Fetch, NextOf, Prepared, Recorded, CanMove, Target, Unbroken, Hop, Allowed, PageFits, IsDigest, MoveProblem;
    ConsistentInRange(h, shown, source, digest);
    MoveReachesTarget(h, shown, source, digest, direction, f);
    PreparedProblems(h, direction, f);
    if Prepared(h, direction, f).Ok? {
      var moved := Prepared(h, direction, f).value;
      FetchOnChain(source, digest, f, moved.Current().number, moved.Current().requestCursor);
    }
  }

  // ------------------------------------------------------------------
  // What filtering keeps
  // ------------------------------------------------------------------

  /** `ys` arises from `xs` by leaving elements out. */
  ghost predicate Subsequence<T>(ys: seq<T>, xs: seq<T>) {
    if ys == [] then true
    else if xs == [] then false
    else if ys[0] == xs[0] then Subsequence(ys[1..], xs[1..])
    else Subsequence(ys, xs[1..])
  }

  /** `ys` is `xs` without what fails `keep`: in order, and every element that passes as often as before. */
  ghost predicate KeepsExactly<T>(xs: seq<T>, keep: T -> bool, ys: seq<T>) {
    && Subsequence(ys, xs)
    && (forall y :: y in ys ==> keep(y) && y in xs)
    && (forall x :: x in xs && keep(x) ==> multiset(ys)[x] == multiset(xs)[x])
  }

  lemma {:induction false} FilterKeepsExactly<T>(xs: seq<T>, keep: T -> bool)
    ensures KeepsExactly(xs, keep, Filter(xs, keep))
    decreases |xs|
  {
    if xs != [] {
      FilterKeepsExactly(xs[1..], keep);
      var ys := Filter(xs[1..], keep);
      assert multiset(xs) == multiset([xs[0]]) + multiset(xs[1..]) by {
        assert xs == [xs[0]] + xs[1..];
      }
      assert forall x :: x in xs <==> x == xs[0] || x in xs[1..];
      if keep(xs[0]) {
        assert ([xs[0]] + ys)[1..] == ys;
        assert multiset([xs[0]] + ys) == multiset([xs[0]]) + multiset(ys);
        assert forall x :: x !in xs[1..] ==> multiset(ys)[x] == 0 == multiset(xs[1..])[x];
      } else {
        assert Filter(xs, keep) == ys;
      }
    }
  }

  lemma {:induction false} FilterTwice<T>(xs: seq<T>, p: T -> bool, q: T -> bool, both: T -> bool)
    requires forall x :: x in xs ==> both(x) == (p(x) && q(x))
    ensures Filter(Filter(xs, p), q) == Filter(xs, both)
    decreases |xs|
  {
    if xs != [] {
      FilterTwice(xs[1..], p, q, both);
      assert both(xs[0]) == (p(xs[0]) && q(xs[0]));
      if p(xs[0]) {
        assert Filter(xs, p)[1..] == Filter(xs[1..], p);
      } else {
        assert Filter(xs, p) == Filter(xs[1..], p);
      }
    }
  }

  lemma {:induction false} FilterNothing<T>(xs: seq<T>, keep: T -> bool)
    requires forall x :: x in xs ==> keep(x)
    ensures Filter(xs, keep) == xs
    decreases |xs|
  {
    if xs != [] {
      FilterNothing(xs[1..], keep);
      assert xs == [xs[0]] + xs[1..];
    }
  }

  predicate Wanted(filter: Option<string>, value: string) {
    filter.Some? ==> filter.value == value
  }

  /** The report list under its filter keeps exactly the reports with the wanted status, in order. */
  lemma ReportsFilteredExactly(fx: Fixture, f: Filters)
    ensures KeepsExactly(fx.reports, (r: Raw<Report>) => Wanted(f.kind, r.item.status), ReportValues(fx, f))
  {
    var keep := (r: Raw<Report>) => Wanted(f.kind, r.item.status);
    if f.kind.None? {
      FilterNothing(fx.reports, keep);
    } else {
      var status := f.kind.value;
      FilterCongruent(fx.reports, keep, (r: Raw<Report>) => r.item.status == status);
    }
    FilterKeepsExactly(fx.reports, keep);
  }

  lemma {:induction false} FilterCongruent<T>(xs: seq<T>, p: T -> bool, q: T -> bool)
    requires forall x :: x in xs ==> p(x) == q(x)
    ensures Filter(xs, p) == Filter(xs, q)
    decreases |xs|
  {
    if xs != [] {
      FilterCongruent(xs[1..], p, q);
    }
  }

  /** The findings of a report under their filters keep exactly those of the wanted kind and severity, in order. */
  lemma FindingsFilteredExactly(fx: Fixture, id: string, f: Filters)
    ensures KeepsExactly(fx.FindingsOf(id),
                         (r: Raw<Finding>) => Wanted(f.kind, r.item.kind) && Wanted(f.severity, r.item.severity),
                         FindingValues(fx, id, f))
  {
    var all := fx.FindingsOf(id);
    var ofKind := (r: Raw<Finding>) => Wanted(f.kind, r.item.kind);
    var ofSeverity := (r: Raw<Finding>) => Wanted(f.severity, r.item.severity);
    var keep := (r: Raw<Finding>) => Wanted(f.kind, r.item.kind) && Wanted(f.severity, r.item.severity);
    FilterTwice(all, ofKind, ofSeverity, keep);
    if f.kind.None? {
      FilterNothing(all, ofKind);
    } else {
      var kind := f.kind.value;
      FilterCongruent(all, ofKind, (r: Raw<Finding>) => r.item.kind == kind);
    }
    var kept := Filter(all, ofKind);
    if f.severity.None? {
      FilterNothing(kept, ofSeverity);
    } else {
      var severity := f.severity.value;
      FilterCongruent(kept, ofSeverity, (r: Raw<Finding>) => r.item.severity == severity);
    }
    FilterKeepsExactly(all, keep);
  }

  /** The impacts of a report under their filter keep exactly those of the wanted kind, in order. */
  lemma ImpactsFilteredExactly(fx: Fixture, id: string, f: Filters)
    ensures KeepsExactly(fx.ImpactsOf(id), (r: Raw<Impact>) => Wanted(f.kind, r.item.kind), ImpactValues(fx, id, f))
  {
    var all := fx.ImpactsOf(id);
    var keep := (r: Raw<Impact>) => Wanted(f.kind, r.item.kind);
    if f.kind.None? {
      FilterNothing(all, keep);
    } else {
      var kind := f.kind.value;
      FilterCongruent(all, keep, (r: Raw<Impact>) => r.item.kind == kind);
    }
    FilterKeepsExactly(all, keep);
  }

  // ------------------------------------------------------------------
  // Every reachable panel
  // ------------------------------------------------------------------

  function ReportSource(fx: Fixture): Filters -> seq<Raw<Report>> { (f: Filters) => ReportValues(fx, f) }
  function FindingSource(fx: Fixture, id: string): Filters -> seq<Raw<Finding>> { (f: Filters) => FindingValues(fx, id, f) }
  function ImpactSource(fx: Fixture, id: string): Filters -> seq<Raw<Impact>> { (f: Filters) => ImpactValues(fx, id, f) }
  function DigestOf(fx: Fixture, scope: string): Filters -> string { (f: Filters) => fx.Digest(scope, f) }

  /** Everything the panel displays agrees with the fixture. */
  ghost predicate PanelInvariant(fx: Fixture, p: Panel) {
    && Consistent(p.reportPager, p.reports, ReportSource(fx), DigestOf(fx, "reports"))
    && match p.selected
       case None => p.findingPager == Unloaded() && p.impactPager == Unloaded() && p.findings == [] && p.impacts == []
       case Some(report) =>
         var id := report.reportId;
         && (exists i :: 0 <= i < |p.reports| && p.reports[i].reportId == id)
         && FirstReport(fx.reports, id).Some?
         && Consistent(p.findingPager, p.findings, FindingSource(fx, id), DigestOf(fx, "findings:" + id))
         && Consistent(p.impactPager, p.impacts, ImpactSource(fx, id), DigestOf(fx, "impacts:" + id))
  }

  lemma LoadReportsKeepsInvariant(fx: Fixture, p: Panel, direction: string, f: Filters)
    requires fx.Valid() && PanelInvariant(fx, p) && p.InRange() && 1 <= f.pageSize
    ensures var r := LoadReports(fx, p, direction, f); r.Ok? ==> PanelInvariant(fx, r.value)
  {
    hide LoadPage, Consistent;
    LoadKeepsConsistent(p.reportPager, p.reports, ReportSource(fx), DigestOf(fx, "reports"), direction, f, true);
  }

  lemma LoadFindingsKeepsInvariant(fx: Fixture, p: Panel, direction: string, f: Filters)
    requires fx.Valid() && PanelInvariant(fx, p) && p.InRange() && 1 <= f.pageSize
    ensures var r := LoadFindings(fx, p, direction, f); r.Ok? ==> PanelInvariant(fx, r.value)
  {
    hide LoadPage, Consistent;
    if p.selected.Some? {
      var id := p.selected.value.reportId;
      var known := FirstReport(fx.reports, id).Some?;
      LoadKeepsConsistent(p.findingPager, p.findings, FindingSource(fx, id), DigestOf(fx, "findings:" + id), direction, f, known);
    }
  }

  lemma LoadImpactsKeepsInvariant(fx: Fixture, p: Panel, direction: string, f: Filters)
    requires fx.Valid() && PanelInvariant(fx, p) && p.InRange() && 1 <= f.pageSize
    ensures var r := LoadImpacts(fx, p, direction, f); r.Ok? ==> PanelInvariant(fx, r.value)
  {
    hide LoadPage, Consistent;
    if p.selected.Some? {
      var id := p.selected.value.reportId;
      var known := FirstReport(fx.reports, id).Some?;
      LoadKeepsConsistent(p.impactPager, p.impacts, ImpactSource(fx, id), DigestOf(fx, "impacts:" + id), direction, f, known);
    }
  }

  lemma ChooseReportKeepsInvariant(fx: Fixture, p: Panel, reportId: string)
    requires PanelInvariant(fx, p)
    ensures var r := ChooseReport(fx, p, reportId); r.Ok? ==> PanelInvariant(fx, r.value)
  {
    hide Slice, Hop, NextOf, ReportSource, FindingSource, ImpactSource, DigestOf, RequiredText, IsReportId;
    var r := ChooseReport(fx, p, reportId);
    if r.Ok? {
      assert Consistent(r.value.findingPager, r.value.findings, FindingSource(fx, reportId), DigestOf(fx, "findings:" + reportId));
      assert Consistent(r.value.impactPager, r.value.impacts, ImpactSource(fx, reportId), DigestOf(fx, "impacts:" + reportId));
    }
  }

  lemma NewPanelHasInvariant(fx: Fixture, scenario: string)
    ensures PanelInvariant(fx, NewPanel(scenario))
  {}

  lemma StepKeepsInvariant(fx: Fixture, p: Panel, a: Action)
    requires fx.Valid() && PanelInvariant(fx, p) && p.InRange()
    ensures PanelInvariant(fx, Step(fx, p, a))
  {
    hide LoadReports, LoadFindings, LoadImpacts, ChooseReport, PanelInvariant, RequiredText, Chosen;
    match a
    case SelectScenario(scenario, pageSize) =>
      NewPanelHasInvariant(fx, scenario);
      if scenario in SCENARIO_STATUS && 1 <= pageSize {
        LoadReportsKeepsInvariant(fx, NewPanel(scenario), "first", Filters(pageSize, Some(SCENARIO_STATUS[scenario]), None));
      }
    case Reports(direction, pageSize, status) =>
      if 1 <= pageSize {
        LoadReportsKeepsInvariant(fx, p, direction, Filters(pageSize, status, None));
      }
    case Findings(direction, pageSize, kind, severity) =>
      if 1 <= pageSize {
        LoadFindingsKeepsInvariant(fx, p, direction, Filters(pageSize, kind, severity));
      }
    case Impacts(direction, pageSize, kind) =>
      if 1 <= pageSize {
        LoadImpactsKeepsInvariant(fx, p, direction, Filters(pageSize, kind, None));
      }
    case SelectReport(reportId) => ChooseReportKeepsInvariant(fx, p, reportId);
    case Reset => NewPanelHasInvariant(fx, "current");
    case Rejected(_) =>
  }

  /** Over every run of actions, failing ones included. */
  lemma {:induction false} RunRefinesSlicing(fx: Fixture, actions: seq<Action>)
    requires fx.Valid()
    ensures PanelInvariant(fx, Run(fx, actions))
  {
    if actions != [] {
      RunRefinesSlicing(fx, actions[..|actions| - 1]);
      StepKeepsInvariant(fx, Run(fx, actions[..|actions| - 1]), actions[|actions| - 1]);
    }
  }

  lemma ReportsSucceed(fx: Fixture, p: Panel, direction: string, f: Filters)
    requires fx.Valid() && PanelInvariant(fx, p) && p.InRange() && 1 <= f.pageSize <= MAX_PAGE_SIZE
    ensures Outcome(ProblemOf(LoadReports(fx, p, direction, f)), p.reportPager, ReportValues(fx, f), fx.Digest("reports", f), direction, f)
  {
    hide Consistent, PanelInvariant, Outcome, ReportValues, LoadPage, LoadReports, ProblemOf;
    ReportPagerConsistent(fx, p);
    ReportsAreOnePage(fx, p, direction, f);
    LoadSucceedsExactlyWhen(p.reportPager, p.reports, ReportSource(fx), DigestOf(fx, "reports"), direction, f);
  }

  lemma ReportPagerConsistent(fx: Fixture, p: Panel)
    requires PanelInvariant(fx, p)
    ensures Consistent(p.reportPager, p.reports, ReportSource(fx), DigestOf(fx, "reports"))
  {
    hide Consistent, ReportSource, DigestOf;
  }

  lemma ReportsAreOnePage(fx: Fixture, p: Panel, direction: string, f: Filters)
    requires p.InRange()
    ensures ProblemOf(LoadReports(fx, p, direction, f))
         == ProblemOf(LoadPage(p.reportPager, direction, f, true, ReportValues(fx, f), fx.Digest("reports", f)))
  {
    hide LoadPage, ReportValues;
  }

  lemma FindingsSucceed(fx: Fixture, p: Panel, id: string, direction: string, f: Filters)
    requires fx.Valid() && PanelInvariant(fx, p) && p.InRange() && 1 <= f.pageSize <= MAX_PAGE_SIZE
    requires p.selected.Some? && p.selected.value.reportId == id
    ensures Outcome(ProblemOf(LoadFindings(fx, p, direction, f)), p.findingPager, FindingValues(fx, id, f),
                    fx.Digest("findings:" + id, f), direction, f)
  {
    hide Consistent, PanelInvariant, FirstReport, Outcome, FindingValues, LoadPage, LoadFindings, ProblemOf;
    SelectedPagers(fx, p, id);
    FindingsAreOnePage(fx, p, id, direction, f);
    LoadSucceedsExactlyWhen(p.findingPager, p.findings, FindingSource(fx, id), DigestOf(fx, "findings:" + id), direction, f);
  }

  lemma FindingsAreOnePage(fx: Fixture, p: Panel, id: string, direction: string, f: Filters)
    requires p.InRange() && p.selected.Some? && p.selected.value.reportId == id && FirstReport(fx.reports, id).Some?
    ensures ProblemOf(LoadFindings(fx, p, direction, f))
         == ProblemOf(LoadPage(p.findingPager, direction, f, true, FindingValues(fx, id, f), fx.Digest("findings:" + id, f)))
  {
    hide LoadPage, FirstReport, FindingValues;
  }

  lemma ImpactsSucceed(fx: Fixture, p: Panel, id: string, direction: string, f: Filters)
    requires fx.Valid() && PanelInvariant(fx, p) && p.InRange() && 1 <= f.pageSize <= MAX_PAGE_SIZE
    requires p.selected.Some? && p.selected.value.reportId == id
    ensures Outcome(ProblemOf(LoadImpacts(fx, p, direction, f)), p.impactPager, ImpactValues(fx, id, f),
                    fx.Digest("impacts:" + id, f), direction, f)
  {
    hide Consistent, PanelInvariant, FirstReport, Outcome, ImpactValues, LoadPage, LoadImpacts, ProblemOf;
    SelectedPagers(fx, p, id);
    ImpactsAreOnePage(fx, p, id, direction, f);
    LoadSucceedsExactlyWhen(p.impactPager, p.impacts, ImpactSource(fx, id), DigestOf(fx, "impacts:" + id), direction, f);
  }

  lemma ImpactsAreOnePage(fx: Fixture, p: Panel, id: string, direction: string, f: Filters)
    requires p.InRange() && p.selected.Some? && p.selected.value.reportId == id && FirstReport(fx.reports, id).Some?
    ensures ProblemOf(LoadImpacts(fx, p, direction, f))
         == ProblemOf(LoadPage(p.impactPager, direction, f, true, ImpactValues(fx, id, f), fx.Digest("impacts:" + id, f)))
  {
    hide LoadPage, FirstReport, ImpactValues;
  }

  lemma SelectedPagers(fx: Fixture, p: Panel, id: string)
    requires PanelInvariant(fx, p) && p.selected.Some? && p.selected.value.reportId == id
    ensures FirstReport(fx.reports, id).Some?
    ensures Consistent(p.findingPager, p.findings, FindingSource(fx, id), DigestOf(fx, "findings:" + id))
    ensures Consistent(p.impactPager, p.impacts, ImpactSource(fx, id), DigestOf(fx, "impacts:" + id))
  {
    hide Consistent, FirstReport, FindingSource, ImpactSource, DigestOf;
  }

  /**
   In every reachable panel the outcome of loading reports, and of loading findings and
   impacts of the selected report, is decided by the position, the filtered list and
   whether the wanted page fits.
   */
  lemma ReachableLoadsSucceed(fx: Fixture, actions: seq<Action>, direction: string, f: Filters)
    requires fx.Valid() && 1 <= f.pageSize <= MAX_PAGE_SIZE
    ensures var p := Run(fx, actions);
            Outcome(ProblemOf(LoadReports(fx, p, direction, f)), p.reportPager, ReportValues(fx, f), fx.Digest("reports", f), direction, f)
    ensures var p := Run(fx, actions);
            p.selected.Some? ==>
              var id := p.selected.value.reportId;
              && Outcome(ProblemOf(LoadFindings(fx, p, direction, f)), p.findingPager, FindingValues(fx, id, f),
                          fx.Digest("findings:" + id, f), direction, f)
              && Outcome(ProblemOf(LoadImpacts(fx, p, direction, f)), p.impactPager, ImpactValues(fx, id, f),
                          fx.Digest("impacts:" + id, f), direction, f)
  {
    RunRefinesSlicing(fx, actions);
    hide Run, PanelInvariant, LoadReports, LoadFindings, LoadImpacts, Outcome;
    var p := Run(fx, actions);
    ReportsSucceed(fx, p, direction, f);
    if p.selected.Some? {
      FindingsSucceed(fx, p, p.selected.value.reportId, direction, f);
      ImpactsSucceed(fx, p, p.selected.value.reportId, direction, f);
    }
  }
}
