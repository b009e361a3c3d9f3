/**
 Index-plan evidence: an explicit-stack walk summarises a query plan, the probe
 builds evidence from two summaries, and the harness sanitises that evidence.
 */
module PlanEvidence {
  import opened Wrappers
  import opened Text

  /** One value of a decoded JSON object, as far as the code tells values apart. */
  datatype Entry = Missing | Null | TextValue(text: string) | OtherValue

  datatype Plan = Plan(nodeType: Entry, indexName: Entry, plans: Plans)
  datatype Plans = NoPlans | NotAList | PlanList(children: seq<Child>)
  datatype Child = ChildPlan(plan: Plan) | NotAMapping

  // ------------------------------------------------------------------
  // The whole tree
  // ------------------------------------------------------------------

  function Children(p: Plan): seq<Child> {
    if p.plans.PlanList? then p.plans.children else []
  }

  /** The plan and everything below it. */
  ghost function Nodes(p: Plan): set<Plan>
    decreases p
  {
    {p} + NodesFrom(p, 0)
  }

  ghost function NodesFrom(p: Plan, i: nat): set<Plan>
    requires i <= |Children(p)|
    decreases p, |Children(p)| - i
  {
    if i == |Children(p)| then {}
    else (if Children(p)[i].ChildPlan? then Nodes(Children(p)[i].plan) else {}) + NodesFrom(p, i + 1)
  }

  ghost function Size(p: Plan): nat
    decreases p
  {
    1 + SizeFrom(p, 0)
  }

  ghost function SizeFrom(p: Plan, i: nat): nat
    requires i <= |Children(p)|
    decreases p, |Children(p)| - i
  {
    if i == |Children(p)| then 0
    else (if Children(p)[i].ChildPlan? then Size(Children(p)[i].plan) else 0) + SizeFrom(p, i + 1)
  }

  /** The node alone: a text type, no index name or a text one, and a list of mappings below it. */
  predicate Readable(p: Plan) {
    && p.nodeType.TextValue?
    && !p.indexName.OtherValue?
    && !p.plans.NotAList?
    && forall i :: 0 <= i < |Children(p)| ==> Children(p)[i].ChildPlan?
  }

  ghost predicate WellFormed(p: Plan) {
    forall n :: n in Nodes(p) ==> Readable(n)
  }

  ghost function Types(nodes: set<Plan>): set<string> {
    set n | n in nodes && n.nodeType.TextValue? :: n.nodeType.text
  }

  ghost function Indexes(nodes: set<Plan>): set<string> {
    set n | n in nodes && n.indexName.TextValue? :: n.indexName.text
  }

  // ------------------------------------------------------------------
  // The stack
  // ------------------------------------------------------------------

  ghost function StackNodes(stack: seq<Plan>): set<Plan> {
    if stack == [] then {} else StackNodes(stack[..|stack| - 1]) + Nodes(stack[|stack| - 1])
  }

  ghost function StackSize(stack: seq<Plan>): nat {
    if stack == [] then 0 else StackSize(stack[..|stack| - 1]) + Size(stack[|stack| - 1])
  }

  function ChildPlans(p: Plan): seq<Plan>
    requires Readable(p)
  {
    seq(|Children(p)|, i requires 0 <= i < |Children(p)| => Children(p)[i].plan)
  }

  /** Pushing a readable node's children puts exactly its descendants on the stack. */
  lemma {:induction false} PushChildren(stack: seq<Plan>, p: Plan, i: nat)
    requires Readable(p) && i <= |Children(p)|
    ensures StackNodes(stack + ChildPlans(p)[i..]) == StackNodes(stack) + NodesFrom(p, i)
    ensures StackSize(stack + ChildPlans(p)[i..]) == StackSize(stack) + SizeFrom(p, i)
    decreases |Children(p)| - i
  {
    var c := ChildPlans(p);
    if i == |c| {
      assert stack + c[i..] == stack;
    } else {
      var pushed := stack + [c[i]];
      assert stack + c[i..] == pushed + c[i + 1..];
      assert pushed[..|stack|] == stack;
      PushChildren(pushed, p, i + 1);
      hide Readable;
    }
  }

  datatype Summary = Summary(indexNames: seq<string>, nodeTypes: seq<string>)

  /** Succeeds exactly on trees of readable nodes, with the types and index names of all of them. */
  method SummarizePlan(plan: Plan) returns (r: Option<Summary>)
    ensures r.Some? <==> WellFormed(plan)
    ensures r.Some? ==>
              && r.value.nodeTypes == Sorted(Types(Nodes(plan)))
              && r.value.indexNames == Sorted(Indexes(Nodes(plan)))
              && r.value.nodeTypes != []
  {
    hide Sorted;
    var types: set<string>, indexes: set<string> := {}, {};
    var pending := [plan];
    ghost var done: set<Plan> := {};
    assert pending[..0] == [];
    while pending != []
      invariant done + StackNodes(pending) == Nodes(plan)
      invariant forall n :: n in done ==> Readable(n)
      invariant types == Types(done) && indexes == Indexes(done)
      decreases StackSize(pending)
    {
      var node := pending[|pending| - 1];
      ghost var below := pending[..|pending| - 1];
      assert node in Nodes(plan);
      pending := pending[..|pending| - 1];
      if !node.nodeType.TextValue? {
        assert !Readable(node);
        return None;
      }
      types := types + {node.nodeType.text};
      if node.indexName.OtherValue? {
        assert !Readable(node);
        return None;
      }
      if node.indexName.TextValue? {
        indexes := indexes + {node.indexName.text};
      }
      if node.plans.NotAList? || exists i :: 0 <= i < |Children(node)| && !Children(node)[i].ChildPlan? {
        assert !Readable(node);
        return None;
      }
      pending := pending + ChildPlans(node);
      PushChildren(below, node, 0);
      assert ChildPlans(node)[0..] == ChildPlans(node);
      done := done + {node};
    }
    assert done == Nodes(plan);
    assert plan in done && plan.nodeType.text in types;
    return Some(Summary(Sorted(indexes), Sorted(types)));
  }

  // ------------------------------------------------------------------
  // Evidence
  // ------------------------------------------------------------------

  const EXPECTED_INDEXES: map<string, string> :=
    map["assets" := "catalog_assets_keyset_idx", "fields" := "catalog_fields_keyset_idx"]
  const FORBIDDEN_NODES: set<string> := {"Incremental Sort", "Parallel Seq Scan", "Seq Scan", "Sort"}
  const RESOURCES: set<string> := {"assets", "fields"}
  const DEFAULT_PLANNER := TextValue("default_postgres_planner")

  /** `None` stands for a field that is missing or of the wrong type. */
  datatype Evidence = Evidence(
    status: Entry,
    passed: Option<bool>,
    sqlRecorded: Option<bool>,
    parametersRecorded: Option<bool>,
    plannerControl: Entry,
    fieldCount: Option<int>,
    expectedIndexes: Option<map<string, string>>,
    indexUsed: Option<map<string, Option<bool>>>,
    nodeTypes: Option<map<string, Option<seq<Entry>>>>,
    forbiddenNodes: Option<seq<Entry>>,
    planDigests: Option<map<string, Entry>>)

  datatype Rejection = ProtectedDetail | InvalidEvidence | InvalidSynthetic | Inconsistent

  predicate IsPlanNode(s: string) {
    && 1 <= |s| <= 80
    && ('A' <= s[0] <= 'Z' || 'a' <= s[0] <= 'z')
    && forall i :: 0 <= i < |s| ==>
         'A' <= s[i] <= 'Z' || 'a' <= s[i] <= 'z' || IsDigit(s[i]) || s[i] == ' ' || s[i] == '_' || s[i] == '-'
  }

  predicate IsSha256(e: Entry) {
    e.TextValue? && |e.text| == 64 && AllLowerHex(e.text)
  }

  predicate AllPlanNodes(nodes: seq<Entry>) {
    forall i :: 0 <= i < |nodes| ==> nodes[i].TextValue? && IsPlanNode(nodes[i].text)
  }

  function Texts(nodes: seq<Entry>): set<string> {
    set i | 0 <= i < |nodes| && nodes[i].TextValue? :: nodes[i].text
  }

  function Listed(texts: seq<string>): seq<Entry> {
    seq(|texts|, i requires 0 <= i < |texts| => TextValue(texts[i]))
  }

  /** `sorted(set(nodes))` */
  function Cleaned(nodes: seq<Entry>): seq<Entry> {
    Listed(Sorted(Texts(nodes)))
  }

  predicate ShapeOk(e: Evidence) {
    && e.expectedIndexes == Some(EXPECTED_INDEXES)
    && e.indexUsed.Some? && e.indexUsed.value.Keys == RESOURCES
    && (forall k :: k in RESOURCES ==> e.indexUsed.value[k].Some?)
    && e.nodeTypes.Some? && e.nodeTypes.value.Keys == RESOURCES
    && e.planDigests.Some? && e.planDigests.value.Keys == RESOURCES
    && e.forbiddenNodes.Some?
    && e.plannerControl == DEFAULT_PLANNER
    && e.fieldCount.Some? && 64 <= e.fieldCount.value <= 1_000
  }

  predicate NodesOk(nodes: Option<seq<Entry>>, digest: Entry) {
    nodes.Some? && 1 <= |nodes.value| <= 64 && AllPlanNodes(nodes.value) && IsSha256(digest)
  }

  predicate AllUsed(used: map<string, Option<bool>>)
    requires used.Keys == RESOURCES
  {
    used["assets"] == Some(true) && used["fields"] == Some(true)
  }

  function SyntheticEvidence(): Evidence {
    Evidence(TextValue("not_applicable_synthetic_preflight"), Some(true), Some(false), Some(false),
             Missing, None, None, None, None, None, None)
  }

  function Sanitize(e: Evidence, profile: string): Result<Evidence, Rejection> {
    if e.sqlRecorded != Some(false) || e.parametersRecorded != Some(false) then Err(ProtectedDetail)
    else if !e.status.TextValue? || e.passed.None? then Err(InvalidEvidence)
    else if profile == "synthetic-preflight" then
      if e.status.text != "not_applicable_synthetic_preflight" || !e.passed.value then Err(InvalidSynthetic)
      else Ok(SyntheticEvidence())
    else if profile != "postgres-acceptance" || e.status.text != "reviewed_postgres_index_plan" then Err(InvalidEvidence)
    else if !ShapeOk(e) then Err(InvalidEvidence)
    else if !NodesOk(e.nodeTypes.value["assets"], e.planDigests.value["assets"]) then Err(InvalidEvidence)
    else if !NodesOk(e.nodeTypes.value["fields"], e.planDigests.value["fields"]) then Err(InvalidEvidence)
    else if !AllPlanNodes(e.forbiddenNodes.value) then Err(InvalidEvidence)
    else
      var forbidden := Cleaned(e.forbiddenNodes.value);
      if e.passed.value != (AllUsed(e.indexUsed.value) && forbidden == []) then Err(Inconsistent)
      else
        Ok(e.(nodeTypes := Some(map[
                "assets" := Some(Cleaned(e.nodeTypes.value["assets"].value)),
                "fields" := Some(Cleaned(e.nodeTypes.value["fields"].value))]),
              forbiddenNodes := Some(forbidden)))
  }

  // ------------------------------------------------------------------
  // Sanitising is idempotent
  // ------------------------------------------------------------------

  lemma TextsOfListed(texts: seq<string>)
    ensures forall x :: x in Texts(Listed(texts)) <==> x in texts
  {
    var l := Listed(texts);
    forall x | x in texts
      ensures x in Texts(l)
    {
      var i :| 0 <= i < |texts| && texts[i] == x;
      assert l[i] == TextValue(x);
    }
  }

  lemma ListingIsClean(texts: seq<string>)
    requires Ascending(texts)
    ensures Cleaned(Listed(texts)) == Listed(texts)
  {
    hide Sorted, Ascending;
    TextsOfListed(texts);
    AscendingUnique(Sorted(Texts(Listed(texts))), texts);
  }

  /** Cleaning keeps what is listed, so it keeps every check on it, and repeats to itself. */
  lemma CleanedFacts(nodes: seq<Entry>)
    requires AllPlanNodes(nodes)
    ensures AllPlanNodes(Cleaned(nodes)) && Cleaned(Cleaned(nodes)) == Cleaned(nodes)
    ensures |Cleaned(nodes)| <= |nodes| && (nodes == [] <==> Cleaned(nodes) == [])
  {
    hide Sorted, IsPlanNode;
    var sorted := Sorted(Texts(nodes));
    ListingIsClean(sorted);
    forall i | 0 <= i < |sorted|
      ensures IsPlanNode(sorted[i])
    {
      assert sorted[i] in Texts(nodes);
    }
    AscendingLength(sorted, nodes);
    if nodes != [] {
      assert nodes[0].text in Texts(nodes);
      assert nodes[0].text in sorted;
    }
  }

  /** An ascending listing repeats nothing, so it is no longer than what it lists. */
  lemma AscendingLength(sorted: seq<string>, nodes: seq<Entry>)
    requires Ascending(sorted) && forall x :: x in sorted ==> x in Texts(nodes)
    ensures |sorted| <= |nodes|
  {
    hide Less;
    SizeOfAscending(sorted);
    SizeOfTexts(nodes);
    var listed := set x | x in sorted;
    assert Texts(nodes) == listed + (Texts(nodes) - listed);
  }

  lemma {:induction false} SizeOfAscending(s: seq<string>)
    requires Ascending(s)
    ensures |set x | x in s| == |s|
  {
    if s != [] {
      SizeOfAscending(s[1..]);
      TailExcludesHead(s);
      assert (set x | x in s) == (set x | x in s[1..]) + {s[0]};
    }
  }

  lemma {:induction false} SizeOfTexts(nodes: seq<Entry>)
    ensures |Texts(nodes)| <= |nodes|
  {
    if nodes != [] {
      var front, last := nodes[..|nodes| - 1], nodes[|nodes| - 1];
      SizeOfTexts(front);
      assert Texts(nodes) == Texts(front) + (if last.TextValue? then {last.text} else {}) by {
        assert forall i :: 0 <= i < |front| ==> front[i] == nodes[i];
      }
    }
  }

  lemma SanitizeIsIdempotent(e: Evidence, profile: string)
    ensures var r := Sanitize(e, profile); r.Ok? ==> Sanitize(r.value, profile) == r && r.value.passed == e.passed
  {
    hide Cleaned, AllPlanNodes, IsSha256;
    var r := Sanitize(e, profile);
    if r.Ok? && profile != "synthetic-preflight" {
      CleanedFacts(e.nodeTypes.value["assets"].value);
      CleanedFacts(e.nodeTypes.value["fields"].value);
      CleanedFacts(e.forbiddenNodes.value);
    }
  }

  /** Sorted, and so without repetition. */
  predicate SortedTexts(nodes: seq<Entry>) {
    && (forall i :: 0 <= i < |nodes| ==> nodes[i].TextValue?)
    && (forall i, j :: 0 <= i < j < |nodes| ==> Less(nodes[i].text, nodes[j].text))
  }

  /** Accepted database evidence: the verdict follows from the indexes and nodes it lists, none added or lost. */
  lemma SanitizedIsConsistent(e: Evidence)
    requires Sanitize(e, "postgres-acceptance").Ok?
    ensures var s := Sanitize(e, "postgres-acceptance").value;
            && ShapeOk(e) && ShapeOk(s)
            && s.passed == Some(AllUsed(e.indexUsed.value) && e.forbiddenNodes.value == [])
            && (forall k :: k in RESOURCES ==>
                  && e.nodeTypes.value[k].Some? && s.nodeTypes.value[k].Some?
                  && SortedTexts(s.nodeTypes.value[k].value)
                  && Texts(s.nodeTypes.value[k].value) == Texts(e.nodeTypes.value[k].value))
            && SortedTexts(s.forbiddenNodes.value) && Texts(s.forbiddenNodes.value) == Texts(e.forbiddenNodes.value)
            && s == e.(nodeTypes := s.nodeTypes, forbiddenNodes := s.forbiddenNodes)
  {
    hide Cleaned, AllPlanNodes, IsSha256, SortedTexts;
    CleanedFacts(e.forbiddenNodes.value);
    CleanedKeepsTexts(e.forbiddenNodes.value);
    CleanedKeepsTexts(e.nodeTypes.value["assets"].value);
    CleanedKeepsTexts(e.nodeTypes.value["fields"].value);
  }

  /** One resource of reviewed evidence: its node types, its plan digest and whether its index was used. */
  ghost predicate ReviewedResource(e: Evidence, k: string) {
    && e.indexUsed.Some? && k in e.indexUsed.value && e.indexUsed.value[k].Some?
    && e.nodeTypes.Some? && k in e.nodeTypes.value && e.nodeTypes.value[k].Some?
    && 1 <= |e.nodeTypes.value[k].value| <= 64
    && (forall n :: n in e.nodeTypes.value[k].value ==> n.TextValue? && IsPlanNode(n.text))
    && e.planDigests.Some? && k in e.planDigests.value && IsSha256(e.planDigests.value[k])
  }

  /** Evidence of exactly the two reviewed resources whose verdict is what it lists. */
  ghost predicate Reviewed(e: Evidence) {
    && ReviewedResource(e, "assets") && ReviewedResource(e, "fields")
    && e.indexUsed.value.Keys == {"assets", "fields"}
    && e.nodeTypes.value.Keys == {"assets", "fields"}
    && e.planDigests.value.Keys == {"assets", "fields"}
    && e.expectedIndexes == Some(map["assets" := "catalog_assets_keyset_idx", "fields" := "catalog_fields_keyset_idx"])
    && e.plannerControl == TextValue("default_postgres_planner")
    && e.fieldCount.Some? && 64 <= e.fieldCount.value <= 1000
    && e.forbiddenNodes.Some? && (forall n :: n in e.forbiddenNodes.value ==> n.TextValue? && IsPlanNode(n.text))
    && e.passed == Some(e.indexUsed.value["assets"].value && e.indexUsed.value["fields"].value && e.forbiddenNodes.value == [])
  }

  /** Exactly which evidence is accepted, by profile. */
  lemma SanitizeExactly(e: Evidence, profile: string)
    ensures Sanitize(e, profile).Ok? <==>
              && e.sqlRecorded == Some(false) && e.parametersRecorded == Some(false)
              && ((profile == "synthetic-preflight" && e.status == TextValue("not_applicable_synthetic_preflight") && e.passed == Some(true)) ||
                  (profile == "postgres-acceptance" && e.status == TextValue("reviewed_postgres_index_plan") && Reviewed(e)))
  {
    hide IsPlanNode, IsSha256, Cleaned, AllPlanNodes;
    ReviewedExactly(e);
    if e.forbiddenNodes.Some? && AllPlanNodes(e.forbiddenNodes.value) {
      CleanedFacts(e.forbiddenNodes.value);
    }
    hide Reviewed;
  }

  lemma PlanNodesListed(nodes: seq<Entry>)
    ensures AllPlanNodes(nodes) <==> forall n :: n in nodes ==> n.TextValue? && IsPlanNode(n.text)
  {
    hide IsPlanNode;
    assert forall i :: 0 <= i < |nodes| ==> nodes[i] in nodes;
  }

  lemma ReviewedExactly(e: Evidence)
    ensures Reviewed(e) <==>
              && ShapeOk(e)
              && NodesOk(e.nodeTypes.value["assets"], e.planDigests.value["assets"])
              && NodesOk(e.nodeTypes.value["fields"], e.planDigests.value["fields"])
              && AllPlanNodes(e.forbiddenNodes.value)
              && e.passed == Some(AllUsed(e.indexUsed.value) && e.forbiddenNodes.value == [])
  {
    hide IsPlanNode, IsSha256, AllPlanNodes;
    if e.forbiddenNodes.Some? {
      PlanNodesListed(e.forbiddenNodes.value);
    }
    if e.nodeTypes.Some? {
      forall k | k in e.nodeTypes.value && e.nodeTypes.value[k].Some?
        ensures AllPlanNodes(e.nodeTypes.value[k].value) <==>
                forall n :: n in e.nodeTypes.value[k].value ==> n.TextValue? && IsPlanNode(n.text)
      {
        PlanNodesListed(e.nodeTypes.value[k].value);
      }
    }
  }

  lemma CleanedKeepsTexts(nodes: seq<Entry>)
    ensures Texts(Cleaned(nodes)) == Texts(nodes) && SortedTexts(Cleaned(nodes))
  {
    hide Sorted, Less;
    TextsOfListed(Sorted(Texts(nodes)));
  }

  // ------------------------------------------------------------------
  // The probe's own evidence
  // ------------------------------------------------------------------

  /** The tail of the probe: the verdict and the evidence from two summaries. */
  function ProbeEvidence(assets: Summary, fields: Summary, fieldCount: int, digest: Summary -> string): Evidence {
    var used := map["assets" := Some(EXPECTED_INDEXES["assets"] in assets.indexNames),
                    "fields" := Some(EXPECTED_INDEXES["fields"] in fields.indexNames)];
    var forbidden := Sorted(set x | x in assets.nodeTypes + fields.nodeTypes && x in FORBIDDEN_NODES);
    Evidence(TextValue("reviewed_postgres_index_plan"),
             Some(used["assets"].value && used["fields"].value && forbidden == []),
             Some(false), Some(false), DEFAULT_PLANNER, Some(fieldCount), Some(EXPECTED_INDEXES), Some(used),
             Some(map["assets" := Some(Listed(assets.nodeTypes)), "fields" := Some(Listed(fields.nodeTypes))]),
             Some(Listed(forbidden)),
             Some(map["assets" := TextValue(digest(assets)), "fields" := TextValue(digest(fields))]))
  }

  /** What `SummarizePlan` guarantees of a summary. */
  ghost predicate IsSummary(s: Summary) {
    Ascending(s.nodeTypes) && s.nodeTypes != []
  }

  predicate Publishable(s: Summary) {
    |s.nodeTypes| <= 64 && forall i :: 0 <= i < |s.nodeTypes| ==> IsPlanNode(s.nodeTypes[i])
  }

  /**
   Sanitising accepts the probe's evidence exactly when both plans have at most 64
   node types of the public form, and then returns it, verdict included, unchanged.
   */
  lemma ProbeEvidencePasses(assets: Summary, fields: Summary, fieldCount: int, digest: Summary -> string)
    requires IsSummary(assets) && IsSummary(fields) && 64 <= fieldCount <= 1_000
    requires IsSha256(TextValue(digest(assets))) && IsSha256(TextValue(digest(fields)))
    ensures var e := ProbeEvidence(assets, fields, fieldCount, digest);
            && (Sanitize(e, "postgres-acceptance").Ok? <==> Publishable(assets) && Publishable(fields))
            && (Sanitize(e, "postgres-acceptance").Ok? ==> Sanitize(e, "postgres-acceptance") == Ok(e))
  {
    hide Sorted, IsPlanNode, Ascending, IsSha256, Cleaned;
    var e := ProbeEvidence(assets, fields, fieldCount, digest);
    ListedNodes(assets);
    ListedNodes(fields);
    ListingIsClean(assets.nodeTypes);
    ListingIsClean(fields.nodeTypes);
    var forbidden := Sorted(set x | x in assets.nodeTypes + fields.nodeTypes && x in FORBIDDEN_NODES);
    ListingIsClean(forbidden);
    ForbiddenArePlanNodes(forbidden);
  }

  lemma ListedNodes(s: Summary)
    ensures AllPlanNodes(Listed(s.nodeTypes)) <==> forall i :: 0 <= i < |s.nodeTypes| ==> IsPlanNode(s.nodeTypes[i])
  {
    hide IsPlanNode;
    var l := Listed(s.nodeTypes);
    assert forall i :: 0 <= i < |l| ==> l[i] == TextValue(s.nodeTypes[i]);
    if AllPlanNodes(l) {
      forall i | 0 <= i < |s.nodeTypes|
        ensures IsPlanNode(s.nodeTypes[i])
      {
        assert l[i].TextValue?;
      }
    }
  }

  lemma ForbiddenArePlanNodes(texts: seq<string>)
    requires forall x :: x in texts ==> x in FORBIDDEN_NODES
    ensures AllPlanNodes(Listed(texts))
  {
    forall x | x in FORBIDDEN_NODES
      ensures IsPlanNode(x)
    {}
    hide IsPlanNode;
    var l := Listed(texts);
    forall i | 0 <= i < |l|
      ensures l[i].TextValue? && IsPlanNode(l[i].text)
    {
      assert texts[i] in texts;
    }
  }

  /** The verdict on the plans themselves: each uses its index somewhere and neither scans or sorts anywhere. */
  ghost predicate Acceptable(assets: Plan, fields: Plan) {
    && UsesIndex(assets, "catalog_assets_keyset_idx") && UsesIndex(fields, "catalog_fields_keyset_idx")
    && (forall n :: n in Nodes(assets) + Nodes(fields) ==> !ScansOrSorts(n))
  }

  ghost predicate UsesIndex(p: Plan, name: string) {
    exists n :: n in Nodes(p) && n.indexName == TextValue(name)
  }

  ghost predicate ScansOrSorts(n: Plan) {
    n.nodeType in {TextValue("Seq Scan"), TextValue("Parallel Seq Scan"), TextValue("Sort"), TextValue("Incremental Sort")}
  }

  /** The entries are the node types of the whole tree, in order. */
  ghost predicate ListsTypes(nodes: seq<Entry>, p: Plan) {
    SortedTexts(nodes) && Texts(nodes) == Types(Nodes(p))
  }

  /** What the evidence records of the two plans. */
  ghost predicate Describes(e: Evidence, assets: Plan, fields: Plan) {
    && e.passed == Some(Acceptable(assets, fields))
    && e.indexUsed == Some(map["assets" := Some(UsesIndex(assets, "catalog_assets_keyset_idx")),
                               "fields" := Some(UsesIndex(fields, "catalog_fields_keyset_idx"))])
    && e.nodeTypes.Some? && e.nodeTypes.value.Keys == {"assets", "fields"}
    && e.nodeTypes.value["assets"].Some? && ListsTypes(e.nodeTypes.value["assets"].value, assets)
    && e.nodeTypes.value["fields"].Some? && ListsTypes(e.nodeTypes.value["fields"].value, fields)
    && e.forbiddenNodes.Some? && SortedTexts(e.forbiddenNodes.value)
    && (forall x :: x in Texts(e.forbiddenNodes.value) <==>
          exists n :: n in Nodes(assets) + Nodes(fields) && ScansOrSorts(n) && n.nodeType.TextValue? && n.nodeType.text == x)
  }

  /** From the two plans to the evidence: its verdict is the verdict on every node of both trees. */
  method InspectPlans(assets: Plan, fields: Plan, fieldCount: int, digest: Summary -> string) returns (e: Option<Evidence>)
    ensures e.Some? <==> WellFormed(assets) && WellFormed(fields)
    ensures e.Some? ==>
              && Describes(e.value, assets, fields)
              && e.value.fieldCount == Some(fieldCount)
              && exists a, f :: IsSummary(a) && IsSummary(f) && e.value == ProbeEvidence(a, f, fieldCount, digest)
  {
    hide Sorted, Ascending, WellFormed;
    var a := SummarizePlan(assets);
    if a.None? {
      return None;
    }
    var f := SummarizePlan(fields);
    if f.None? {
      return None;
    }
    assert IsSummary(a.value) && IsSummary(f.value);
    ProbeDescribes(assets, fields, a.value, f.value, fieldCount, digest);
    hide Describes, ProbeEvidence;
    return Some(ProbeEvidence(a.value, f.value, fieldCount, digest));
  }

  ghost predicate Summarizes(s: Summary, p: Plan) {
    s.nodeTypes == Sorted(Types(Nodes(p))) && s.indexNames == Sorted(Indexes(Nodes(p)))
  }

  lemma ProbeDescribes(assets: Plan, fields: Plan, a: Summary, f: Summary, fieldCount: int, digest: Summary -> string)
    requires Summarizes(a, assets) && Summarizes(f, fields)
    ensures Describes(ProbeEvidence(a, f, fieldCount, digest), assets, fields)
    ensures ProbeEvidence(a, f, fieldCount, digest).fieldCount == Some(fieldCount)
  {
    hide Sorted, Ascending, ScansOrSorts, UsesIndex, SortedTexts, Texts, Listed, Less;
    UsedIndex(assets, a, "catalog_assets_keyset_idx");
    UsedIndex(fields, f, "catalog_fields_keyset_idx");
    ListedTypes(a, assets);
    ListedTypes(f, fields);
    var found := set x | x in a.nodeTypes + f.nodeTypes && x in FORBIDDEN_NODES;
    ForbiddenFound(assets, fields, a, f, found);
    ListedSorted(found);
    assert Sorted(found) == [] <==> found == {} by {
      assert found != {} ==> exists x :: x in found && x in Sorted(found);
      assert Sorted(found) != [] ==> Sorted(found)[0] in found;
    }
  }

  lemma ListedSorted(texts: set<string>)
    ensures SortedTexts(Listed(Sorted(texts))) && Texts(Listed(Sorted(texts))) == texts
  {
    hide Sorted, Less;
    TextsOfListed(Sorted(texts));
  }

  lemma ListedTypes(s: Summary, p: Plan)
    requires Summarizes(s, p)
    ensures ListsTypes(Listed(s.nodeTypes), p)
  {
    hide Sorted, SortedTexts, Texts, Listed;
    ListedSorted(Types(Nodes(p)));
  }

  lemma ForbiddenFound(assets: Plan, fields: Plan, a: Summary, f: Summary, found: set<string>)
    requires Summarizes(a, assets) && Summarizes(f, fields)
    requires found == set x | x in a.nodeTypes + f.nodeTypes && x in FORBIDDEN_NODES
    ensures forall x :: x in found <==>
              exists n :: n in Nodes(assets) + Nodes(fields) && ScansOrSorts(n) && n.nodeType.TextValue? && n.nodeType.text == x
    ensures found == {} <==> forall n :: n in Nodes(assets) + Nodes(fields) ==> !ScansOrSorts(n)
  {
    hide Sorted, Ascending;
    forall n
      ensures ScansOrSorts(n) <==> n.nodeType.TextValue? && n.nodeType.text in FORBIDDEN_NODES
    {}
    hide ScansOrSorts, FORBIDDEN_NODES;
    forall n | n in Nodes(assets) + Nodes(fields) && ScansOrSorts(n)
      ensures n.nodeType.text in found
    {
      assert n.nodeType.text in Types(Nodes(assets)) || n.nodeType.text in Types(Nodes(fields));
    }
    forall x | x in found
      ensures exists n :: n in Nodes(assets) + Nodes(fields) && ScansOrSorts(n) && n.nodeType.TextValue? && n.nodeType.text == x
    {
      assert x in Types(Nodes(assets)) || x in Types(Nodes(fields));
    }
  }

  lemma UsedIndex(p: Plan, s: Summary, name: string)
    requires Summarizes(s, p)
    ensures name in s.indexNames <==> UsesIndex(p, name)
  {
    hide Sorted, Ascending;
    forall n | n in Nodes(p) && n.indexName == TextValue(name)
      ensures name in Indexes(Nodes(p))
    {
      assert n.indexName.text == name;
    }
  }
}
