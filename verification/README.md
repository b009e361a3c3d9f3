# SchemaBridge: verified models of its panels, provider, harnesses and settings

This project models, in Dafny, the state machines, traversals, encodings and
decision procedures of SchemaBridge's operational scripts and of its settings
validation, and proves what they promise.

`dafny verify dfyconfig.toml` verifies everything.

## What is modelled

| files | subject |
|---|---|
| `PageHistory` | the cursor history of at most 64 pages that both browser panels keep per resource |
| `SemanticChangePanel`, `SemanticChangeActions`, `SemanticChangeSession` | the M26 panel against its deterministic offset-cursor transport: actions on values, what each action does and when it succeeds, then the session objects with copy, run and commit |
| `CatalogPanel`, `CatalogActions`, `CatalogSession` | the M25 panel: cascading selections and pinned catalog generations against an arbitrary upstream, what each action does and when it succeeds, and the session object |
| `SessionStore` | the bounded session store of both panels |
| `AuthorizationCodes`, `CodeProtocol` | the synthetic OIDC provider, one request at a time and under every interleaving of its atomic sections (sections 4.1.2 and 4.1.3 of RFC 6749, section 4.6 of RFC 7636) |
| `InventoryTraversal`, `GovernedTraversal` | the two inventory traversals over a reader that may answer anything |
| `InventoryOrder`, `ScaleCorrectness` | what an accepted traversal says about order, and the comparison of digests across page sizes |
| `LoadStatistics` | load shares, workers, nearest-rank percentiles and the gates built on them |
| `PlanEvidence` | query-plan summaries, the probe's evidence and its sanitising |
| `YamlGraph` | the duplicate-key check on YAML node graphs with aliases and cycles |
| `FixedDecimal`, `JsonText`, `CanonicalEncoding` | fixed-point decimal text, compact JSON text, type tagging and newline framing of the demo-seed fingerprint, each with a reader for it |
| `TreeComparison` | the two deep comparisons of JSON-like documents |
| `SettingsProfile`, `SettingsRules`, `SettingsValidation` | profile defaults, control-plane URLs and credential exclusivity: step by step, by rule, and as the object that is validated |
| `Wrappers`, `Text`, `Maxima` | option and result types; decimal text and code-point order; running maxima |

Conventions. A stateful class is proved against functions on its abstract value
(`Pager.Prepare` against `Prepared`, `PanelBackEnd.Apply` against `Step`), and the
results over whole runs are lemmas about those functions. Everything outside the
code is a parameter: clocks, random tokens and new sessions are arguments; a page
reader is a function from the number of the read to its answer, which covers every
reader, stateful or hostile, because nothing relates one answer to another; a hash
is an arbitrary function. Where a Python branch can never be taken, the model says so
at that branch.

Where the code and its own words differ, the model follows the code. The inventory
traversal is documented as an ordered traversal, but it accepts any order of the
exact inventory: `EveryOrderIsServed` gives every order an accepted reader, and
`AcceptedInOrderExactlyWhen` shows that acceptance implies ascending keys only for an
inventory of one key, or of more keys than eight digits can name, which no reader can
serve. The comparison across page sizes adds that the order is the same at each size
(`AgreementIsOneOrder`), not that it ascends.

Pruning expired authorization codes is invisible while requests are served one at a
time under a clock that does not go back (`PruningUnobservable`). Once requests overlap
it is not: `OverlappingPruneIsObservable` is an overlap that refuses a live code, and
`ExchangeGrantedExactlyWhen` states for every schedule when that happens.

The demo-seed fingerprint is documented as type-preserving, but decimals that differ
only in how a positive exponent is split share their text: `DecimalsCanCollide`
exhibits 10 and 1E+1, and `FixedTextExactly`, `CanonicalExactly` and `StreamExactly`
state exactly which values and record lists share an encoding.

## Model

| member | source | states |
|---|---|---|
| PageHistory.Pager.Prepare | scripts/m26_semantic_change_browser_panel.py:767-807 | The pager object makes the move that `Prepared` describes and returns the cursor of the page it then displays; a refusal changes nothing. |
| PageHistory.Pager.Record | scripts/m26_semantic_change_browser_panel.py:809-812 | The answered cursor is stored with the page on display and nowhere else; an unloaded pager refuses. |
| PageHistory.PreparedMovesByOne | scripts/m26_semantic_change_browser_panel.py:767-807 | Exactly when a move is possible (first always; otherwise same filters and an older retained page, or a recorded next cursor), and that it displays page 1, the next or the previous page number. |
| PageHistory.RunKeepsWindow | scripts/m25_catalog_browser_panel.py:486-543 | After every run of paging actions, refused and failed ones included, against any upstream: consecutive numbers, no request cursor exactly on page 1, and exactly min(M, 64) entries ending at M, the highest page displayed since "first". |
| PageHistory.RunFollowsChain | scripts/m25_catalog_browser_panel.py:486-543 | If the upstream maps each cursor to a fixed next cursor, every retained page n requests the (n-1)-fold iterate and leads to the n-fold one, and the chain is unbroken up to the highest page. |
| SemanticChangePanel.CursorRoundTrip | scripts/m26_semantic_change_browser_panel.py:714-722 | Parsing a fixture cursor gives back the offset and the digest it was printed from. |
| SemanticChangePanel.ChainIsOffsets | scripts/m26_semantic_change_browser_panel.py:691-731 | The n-th cursor of the transport's chain is the cursor of offset n times the page size, as long as the chain lasts, whatever the digest function. |
| SemanticChangePanel.LoadKeepsConsistent | scripts/m26_semantic_change_browser_panel.py:1027-1118 | Prepare, request, project and record keep a pager in its window, on the transport's chain and displaying its own slice. |
| SemanticChangePanel.RunRefinesSlicing | scripts/m26_semantic_change_browser_panel.py:913-1118 | Over every run of panel actions, failing ones included, on any fixture: a loaded page k of size p shows exactly items (k-1)p to kp of the list filtered by the pager's own filters, "next" is offered exactly when kp is less than its length, a selected report is on display, and findings and impacts are empty without a selection. |
| SemanticChangePanel.LoadSucceedsExactlyWhen | scripts/m26_semantic_change_browser_panel.py:1027-1118 | For a pager on its own chain: "first" can always move, "previous" while an older page is retained, "next" exactly while kp is less than the length of the filtered list; a load that can move succeeds exactly when every item of the wanted page projects and the cursor it hands over is at most 1024 characters, and otherwise answers 502. The 404 and the denied request never occur. |
| SemanticChangePanel.ReachableLoadsSucceed | scripts/m26_semantic_change_browser_panel.py:913-1118 | In every reachable panel, on any fixture, loading reports, and loading findings or impacts of the selected report, has exactly that outcome. |
| SemanticChangeActions.ActionsDoTheirWork | scripts/m26_semantic_change_browser_panel.py:913-1118 | After any run on any fixture, one more action succeeds exactly when it is acceptable (known choices, a page that can be turned to and shown, a shown and well-formed report), and then the pager stands on the page and under the filters asked for, a scenario shows its own status, a selected report is the first of its identifier, and nothing else changes; any other action leaves the panel as it was. |
| SemanticChangeActions.ProblemsAreJustified | scripts/m26_semantic_change_browser_panel.py:942-1169 | The problem of an action that fails names, by status and code, something that is wrong with that action in that panel. |
| SemanticChangePanel.ReportsFilteredExactly | scripts/m26_semantic_change_browser_panel.py:572-577 | The list that is sliced keeps exactly the reports of the wanted status, in order and as often as they occur. |
| SemanticChangePanel.FindingsFilteredExactly | scripts/m26_semantic_change_browser_panel.py:587-600 | The findings that are sliced are exactly those of the wanted kind and severity, in order and as often as they occur. |
| SemanticChangePanel.ImpactsFilteredExactly | scripts/m26_semantic_change_browser_panel.py:601-610 | The impacts that are sliced are exactly those of the wanted kind, in order and as often as they occur. |
| SemanticChangeSession.SessionState.ReplaceWith | scripts/m26_semantic_change_browser_panel.py:846-857 | The session takes over every part of the candidate, pagers included. |
| SemanticChangeSession.PanelBackEnd.Apply | scripts/m26_semantic_change_browser_panel.py:913-940 | On any problem the session is as it was and the problem is a justified one; on success the session is what the action asks for, and nothing else has changed; actions that validation rejects or that raise unexpectedly included. |
| SemanticChangeSession.PanelBackEnd.ApplyTo | scripts/m26_semantic_change_browser_panel.py:942-1025 | The action on the deep copy has the outcome of the action on values, for every action and every problem. |
| CatalogSession.CatalogPager.Prepare | scripts/m25_catalog_browser_panel.py:486-527 | The M25 pager moves as the M26 one and "first" also forgets the pinned generation; a refusal changes nothing. |
| CatalogSession.CatalogPager.Record | scripts/m25_catalog_browser_panel.py:529-543 | The first recorded generation is pinned; a different one is refused before anything is recorded. |
| CatalogSession.CatalogSessionState.Apply | scripts/m25_catalog_browser_panel.py:644-690 | A failed action, a failed refresh or probe and an unexpected error included, changes only the recorded problem, which is a justified one; a successful one brings about what it asks for and clears the problem. |
| CatalogSession.CatalogSessionState.Turn | scripts/m25_catalog_browser_panel.py:692-726 | A page turn on a clone of the stored pager has the outcome that `Turned` gives the stored value, and the stored pager is untouched. |
| CatalogSession.CatalogSessionState.PickConnection | scripts/m25_catalog_browser_panel.py:728-748 | Only a well-formed identifier on display can be selected; exactly that one then is, and the asset, its pin, both lists and both dependent pagers are dropped. |
| CatalogSession.CatalogSessionState.PickAsset | scripts/m25_catalog_browser_panel.py:791-805 | Only a safe identifier on display can be selected, and selecting it pins the generation it is shown with in the session and in an empty field pager. |
| CatalogSession.CatalogSessionState.TurnConnections | scripts/m25_catalog_browser_panel.py:692-726 | Loading connections works on a cloned pager, shows exactly the delivered connections and drops the dependent selections exactly when the selected connection is no longer shown. |
| CatalogSession.CatalogSessionState.TurnAssets | scripts/m25_catalog_browser_panel.py:750-789 | Loading assets shows exactly the delivered assets, pins the page's generation and drops the selected asset exactly when it is no longer shown. |
| CatalogSession.CatalogSessionState.TurnFields | scripts/m25_catalog_browser_panel.py:807-849 | Loading fields shows exactly the delivered fields and pins the generation with which the asset was selected. |
| CatalogPanel.RunKeepsInvariant | scripts/m25_catalog_browser_panel.py:692-849 | In every reachable state: a selected connection or asset is shown, assets imply a connection and fields an asset, all shown assets have the asset pager's generation, all shown fields the selected generation, and each pager is in its window. |
| CatalogPanel.RunKeepsPin | scripts/m25_catalog_browser_panel.py:791-805 | While an asset is selected, the remembered generation is the one it was shown with when it was last selected. |
| CatalogPanel.FieldsMatchTheirSelection | scripts/m25_catalog_browser_panel.py:807-849 | Every field on display has the generation that its asset had at selection, however the asset list was reloaded since. |
| CatalogActions.ActionsDoTheirWork | scripts/m25_catalog_browser_panel.py:644-849 | After any run against any upstream, one more action succeeds exactly when it is acceptable, and then it shows what was delivered, selects what was named and pins the generation last shown for it, and changes nothing else; any other action changes nothing. |
| CatalogActions.SelectedWasAskedFor | scripts/m25_catalog_browser_panel.py:728-805 | After any run, a selected connection or asset is the one named by the last successful selection of one. |
| CatalogActions.ProblemsAreJustified | scripts/m25_catalog_browser_panel.py:644-849 | The problem of an action that fails names, by status and code, something that is wrong with that action in that state. |
| SessionStore.Store.Get | scripts/m26_semantic_change_browser_panel.py:1549-1560 | A hit moves the wanted session to the back and answers that identifier with its stored session; a miss answers the minted identifier with the new session and drops from the front down to the maximum. |
| SessionStore.StoreIsLru | scripts/m25_catalog_browser_panel.py:1596-1607 | After any run of lookups with fresh tokens the stored keys are the last `maximum` entries of the recency list of a cache defined from the calls alone: the wanted identifier while it is retained, the minted one otherwise. |
| SessionStore.RecencyByLastUse | scripts/m25_catalog_browser_panel.py:1596-1607 | That list holds every identifier once, in the order of last use. |
| SessionStore.HitsReturnTheirSession | scripts/m26_semantic_change_browser_panel.py:1549-1560 | After any run, a lookup of a retained identifier answers it with the session created for it, and any other lookup answers its own minted identifier with its own new session. |
| SessionStore.StoredSessionsAreTheirs | scripts/m26_semantic_change_browser_panel.py:1549-1560 | Every stored session is the one created for its identifier. |
| AuthorizationCodes.Provider.PruneCodes | scripts/synthetic_oidc_provider.py:367-374 | Exactly the codes older than 120 seconds leave the table. |
| AuthorizationCodes.Provider.Authorize | scripts/synthetic_oidc_provider.py:228-266 | The endpoint refuses, raises on a client identifier outside ASCII, reports itself full after pruning, or issues the code with the request's record, as `Serve` says. |
| AuthorizationCodes.Provider.Token | scripts/synthetic_oidc_provider.py:268-307 | An authenticated exchange removes its code whatever follows and answers tokens or invalid_grant; credentials outside ASCII make it raise before anything is taken, as `Serve` says. |
| AuthorizationCodes.AuthorizeRefusalExactly | scripts/synthetic_oidc_provider.py:228-248 | A request passes exactly when it asks for a code for the configured client and redirect URI, with the openid scope and a well-formed S256 challenge; what each other request is told. |
| AuthorizationCodes.TokenRefusalExactly | scripts/synthetic_oidc_provider.py:268-293 | An exchange passes exactly when it presents the configured credentials and the code grant, and no client identifier in the form other than that one; what each other request is told. |
| AuthorizationCodes.PruningUnobservable | scripts/synthetic_oidc_provider.py:250-266 | For requests served one at a time under a nondecreasing clock, every response equals that of a provider that never prunes and counts only unexpired codes. |
| AuthorizationCodes.ExchangeSucceedsExactlyWhen | scripts/synthetic_oidc_provider.py:268-307 | Under a nondecreasing clock any exchange answers tokens exactly when it passes, its code was handed out, has not been exchanged since, is at most 120 seconds old and matches client, redirect URI and PKCE challenge of the authorization request; the tokens carry that request's nonce and are valid for 600 seconds from the whole second of the exchange. |
| AuthorizationCodes.AuthorizeSucceedsExactlyWhen | scripts/synthetic_oidc_provider.py:228-266 | Under a nondecreasing clock a code is issued exactly for requests that pass while fewer than 256 codes are handed out, unexchanged and at most 120 seconds old; otherwise the provider answers 503. |
| CodeProtocol.CodesAreSingleUse | scripts/synthetic_oidc_provider.py:250-307 | Under every interleaving of clock reads, locked sections and later decisions, with arbitrary clock readings and fresh codes: no code is granted twice, and every grant goes to an exchange with the client's credentials and follows an issue of that code whose client, redirect URI, PKCE challenge and 120 second limit it meets and whose nonce it carries; codes are only issued for the configured client and redirect URI. |
| CodeProtocol.CodesAreConserved | scripts/synthetic_oidc_provider.py:250-307 | Under every interleaving, issued codes = outstanding + pruned + in flight + burned + redeemed, at most 256 are outstanding, and none is in flight when no exchange is between taking and deciding. |
| CodeProtocol.BeginsExactlyWhen | scripts/synthetic_oidc_provider.py:228-293 | Under every interleaving an idle handler starts an exchange or an authorization exactly when the request passes its checks. |
| CodeProtocol.ExchangeGrantedExactlyWhen | scripts/synthetic_oidc_provider.py:250-307 | For every schedule before an exchange takes its code, and every schedule of the other requests before it decides: tokens are granted, with the nonce of the authorization, exactly when the code was issued, nothing has taken it, the exchange matches its record at the time it read the clock, and no locked authorize section since the issue had a clock reading more than 120 seconds after it. |
| CodeProtocol.OrderedExchangeIsGranted | scripts/synthetic_oidc_provider.py:250-307 | If no earlier locked authorize section had a later clock reading than the exchange, the last condition falls away: pruning cannot be seen. |
| CodeProtocol.SequentialRunIsServe | scripts/synthetic_oidc_provider.py:228-307 | Requests with fresh codes served one after the other are one of the schedules: it leaves the same table, and its log gains what each response says. |
| CodeProtocol.OverlappingPruneIsObservable | scripts/synthetic_oidc_provider.py:296-307 | An overlap that meets the failing condition, for every valid pair of requests: a code that was 100 seconds old when the exchange read the clock is refused because an authorize that read 221 pruned it in between. |
| InventoryTraversal.MarkingOne | scripts/benchmark_catalog_scale.py:360-364 | Setting the byte and bit of index i marks i in the bitmap and changes no other index. |
| InventoryTraversal.AbsorbKey | scripts/benchmark_catalog_scale.py:353-367 | A key is accepted exactly when it parses, is in range and is new; the bitmap then marks exactly the indices fed so far. |
| InventoryTraversal.DistinctKeysFit | scripts/benchmark_catalog_scale.py:367-369 | Distinct indices below the expected count never outnumber it, so the excess check cannot fire, and when they equal it in number they cover every index. |
| InventoryTraversal.KeyIndexInjective | scripts/benchmark_catalog_scale.py:354-359 | Different keys have different indices, so a permutation of indices is a permutation of keys. |
| InventoryTraversal.TraverseInventory | scripts/benchmark_catalog_scale.py:319-390 | For an arbitrary reader: at most count + 1 pages are read; success exactly on honest readers; each failure names a fault of the page it stopped at, after faultless pages; the excess failure never occurs; on success the unused slots total less than one page and the reported maxima are those of the pages read. |
| InventoryTraversal.HonestExactly | scripts/benchmark_catalog_scale.py:339-379 | An honest reader serves non-empty pages within both bounds, in the least number of pages, each but the last with a cursor that differs from the one before, whose keys cover every index with none to spare. |
| InventoryOrder.EveryOrderIsServed | scripts/benchmark_catalog_scale.py:319-390 | For every order of the exact inventory and every page size, the reader that pages that order is accepted and delivers it unchanged. |
| InventoryOrder.DescendingInventoryIsAccepted | scripts/benchmark_catalog_scale.py:319-390 | For every count from 2 to 100 000 000 and every page size, a reader that serves the inventory in descending order is accepted. |
| InventoryOrder.AcceptedInOrderExactlyWhen | scripts/benchmark_catalog_scale.py:319-390 | Every accepted reader delivers ascending keys if and only if the count is 1 or exceeds the 100 000 000 keys of eight digits. |
| ScaleCorrectness.TraverseCase | scripts/benchmark_catalog_scale.py:303-315 | A case passes exactly when the traversals at sizes 1, 17 and 50 are all accepted and digest to the same value. |
| ScaleCorrectness.RunCorrectness | scripts/benchmark_catalog_scale.py:281-316 | The run succeeds exactly when counts and sizes are the usual ones, the page reads of the memory comparison succeed and both cases pass; the six results carry what was delivered. |
| ScaleCorrectness.AgreementIsOneOrder | scripts/benchmark_catalog_scale.py:300-316 | With a collision-free digest a case passes exactly when every traversal is accepted and the key order is the same at every page size. |
| GovernedTraversal.TraversePass | scripts/m27_browser_acceptance_runtime.py:983-1043 | For an arbitrary reader: at most count + 1 pages, the non-termination guard is never taken, success exactly when some number of well-formed, progressing pages delivers exactly `count` different identifiers, and each failure names its fault. |
| GovernedTraversal.CompleteExactly | scripts/m27_browser_acceptance_runtime.py:983-1043 | A complete pass: every page in scope, of the page size, of generation 9 and within bounds; every page but the last not empty, with a full lookahead row and a key that moves on; the last without a key or lookahead; no identifier twice. |
| GovernedTraversal.RunGovernedPostflight | scripts/m27_browser_acceptance_runtime.py:982-1052 | The postflight succeeds exactly when the elapsed time is not negative and under 5 seconds and the passes with page sizes 1, 17 and 50 all complete and deliver one and the same duplicate-free list of the expected length; it reports whole milliseconds. |
| LoadStatistics.LoadWorker | scripts/benchmark_catalog_scale.py:589-627 | Every read yields its latency whatever fails, errors are exactly the failed reads, the pool waits are those of the successful reads that reported one, in order, and the maxima are those of all pages received, valid or not. |
| LoadStatistics.AllSucceedExactly | scripts/benchmark_catalog_scale.py:589-653 | A worker has no errors exactly when every page arrives, is not empty, is within both bounds and does not repeat the cursor of the page before it. |
| LoadStatistics.SucceedsExactly | scripts/benchmark_catalog_scale.py:600-653 | After a failed read the next one is judged as a first one. |
| LoadStatistics.SharesAreFair | scripts/benchmark_catalog_scale.py:455-458 | The worker shares add up to the reads and differ by at most one. |
| LoadStatistics.SuccessMeetsPageGates | scripts/benchmark_catalog_scale.py:569-586 | When every read succeeded no page exceeded its bounds, so the two page gates can never be the ones that fail a run. |
| LoadStatistics.RunLoad | scripts/benchmark_catalog_scale.py:439-566 | The run reports exactly when the input is valid and every warm-up read is; the accounting failure never occurs; counts, maxima and percentiles are those of all reads; pool waits are summarised exactly when every read succeeded and reported one; the run passes exactly when every read succeeded and both percentiles are within budget, and then at most 5% and 1% of the reads exceed the budgets. |
| LoadStatistics.PercentileWithinBudget | scripts/benchmark_catalog_scale.py:656-661 | A nearest-rank percentile is within a budget exactly when the values above the budget number at most n - ceil(q n). |
| LoadStatistics.PercentileMonotone | scripts/benchmark_catalog_scale.py:656-661 | Percentiles do not decrease with the quantile. |
| LoadStatistics.GatesBoundTails | scripts/benchmark_catalog_scale.py:569-586 | The p95 and p99 gates bound the shares of reads over their budgets by 5% and 1%. |
| PlanEvidence.SummarizePlan | scripts/postgres_catalog_scale_reader.py:593-630 | The explicit-stack walk stops on every plan, succeeds exactly when every node of the tree is readable, and returns the sorted node types and index names of the whole tree. |
| PlanEvidence.InspectPlans | scripts/postgres_catalog_scale_reader.py:333-367 | The evidence passes exactly when each tree uses its expected index at some node and no node of either tree scans or sorts, and it lists exactly the node types of each tree, those that scan or sort, and the index uses. |
| PlanEvidence.SanitizeExactly | scripts/benchmark_catalog_scale.py:977-1076 | Exactly which evidence is accepted under each profile, field by field. |
| PlanEvidence.SanitizeIsIdempotent | scripts/benchmark_catalog_scale.py:977-1076 | Sanitising sanitised evidence returns it unchanged, and sanitising keeps the verdict. |
| PlanEvidence.SanitizedIsConsistent | scripts/benchmark_catalog_scale.py:1004-1076 | Accepted database evidence passes exactly when both indexes are used and no forbidden node is listed, and sanitising sorts the node lists, removes repetitions, and adds or loses no node type. |
| PlanEvidence.ProbeEvidencePasses | scripts/benchmark_catalog_scale.py:977-1076 | The probe's evidence is accepted exactly when both plans have at most 64 node types of the public form, and is then returned unchanged. |
| YamlGraph.RejectDuplicateKeys | scripts/m29_recovery.py:65-82 | On every finite node graph, cyclic or not, the check stops and accepts exactly when every mapping reachable through values and items has only scalar keys with pairwise different (tag, value). |
| YamlGraph.Walk.Visit | scripts/m29_recovery.py:65-82 | One visit either leaves every finished node sound and closed under edges, or has found a reachable mapping with a defective key. |
| FixedDecimal.NumberReadsBack | scripts/check_demo_seed.py:150-151 | Reading a decimal's fixed-point text gives the decimal back, a positive exponent multiplied in; infinities and NaNs included. |
| FixedDecimal.FixedTextExactly | scripts/check_demo_seed.py:150-151 | Two decimals have the same fixed-point text exactly when they are equal, or are finite with equal sign, equal min(exponent, 0) and equal coefficient times ten to the max(exponent, 0). |
| CanonicalEncoding.CanonicalExactly | scripts/check_demo_seed.py:141-176 | Values (null, booleans, integers, decimals, strings, bytes, sequences, string-keyed mappings) have the same tagged encoding exactly when they have the same structure and equal scalars, decimals compared as above. |
| CanonicalEncoding.CanonicalInjective | scripts/check_demo_seed.py:141-176 | On values without a positive decimal exponent, equal encodings come from equal values. |
| CanonicalEncoding.TagTellsScalars | scripts/check_demo_seed.py:141-176 | A tagged scalar can never be confused with a mapping that has a "type" key. |
| CanonicalEncoding.ValueReadsBack | scripts/check_demo_seed.py:141-176 | Reading the tagged encoding by its tags gives the value back, its decimals normalized. |
| JsonText.ReadsBack | scripts/check_demo_seed.py:184-190 | Reading compact JSON text with escapes and sorted keys gives the value back and leaves the text that follows. |
| JsonText.PrintUnambiguous | scripts/check_demo_seed.py:184-190 | Compact JSON text can be read off the front of any text: equal texts come from equal values and equal remainders. |
| CanonicalEncoding.CanonicalStream | scripts/check_demo_seed.py:179-193 | The loop feeds the digest exactly the newline-framed records. |
| CanonicalEncoding.StreamReadsBack | scripts/check_demo_seed.py:179-193 | The text fed to the digest reads back as the records, their decimals normalized. |
| CanonicalEncoding.StreamExactly | scripts/check_demo_seed.py:179-193 | Two lists of records feed the digest the same text exactly when they have the same length and the same records up to that comparison of decimals. |
| CanonicalEncoding.StreamInjective | scripts/check_demo_seed.py:179-193 | Without positive decimal exponents the text fed to the digest determines the whole list of records. |
| CanonicalEncoding.DecimalsCanCollide | scripts/check_demo_seed.py:150-151 | 10 and 1E+1 are different decimals that feed the digest the same text. |
| TreeComparison.ExactMeansEqual | scripts/m29_recovery.py:85-99 | The yes/no comparison accepts exactly equal trees of equal types. |
| TreeComparison.FirstDifference | scripts/check_demo_seed.py:427-454 | No difference is reported exactly when the trees are equal, which is when the yes/no comparison accepts; otherwise the reported path leads to a real difference with the reported reason and everything earlier in traversal order agrees. |
| TreeComparison.FirstAtUnique | scripts/check_demo_seed.py:427-454 | Two trees have at most one first difference, so the report is determined. |
| SettingsValidation.Settings.Validate | src/schemabridge/config.py:847-998 | The validator, with its loops over URLs and forbidden settings, accepts exactly the configurations that the declarative validation accepts and leaves exactly its modes. |
| SettingsValidation.Settings.CheckUrls | src/schemabridge/config.py:1285-1335 | The loop with the growing set of usernames accepts exactly when all control URLs are usable, name one database and have pairwise different usernames, and the component's own URL uses its required role. |
| SettingsValidation.Settings.RejectCrossComponentCredentials | src/schemabridge/config.py:1551-1823 | The branches pick the component's own list, the common one and its tail for API, worker and catalog, and the scan accepts exactly when nothing on it is set. |
| SettingsProfile.ListsCoverEveryOtherUrl | src/schemabridge/config.py:1551-1823 | The hand-written lists miss nothing: for every component but the operator, and but web outside staging and production, the forbidden URLs are all eleven URL settings but its own; those two exceptions have no forbidden URL. |
| SettingsRules.ListsAreTheTable | src/schemabridge/config.py:1551-1823 | For every credential, the lists refuse it exactly to the components that a table by credential does not name. |
| SettingsProfile.ScanMeansUrlsAgree | src/schemabridge/config.py:1309-1335 | The walk that compares each control URL only with the usernames seen before it accepts exactly when all of them agree pairwise. |
| SettingsProfile.ValidationIsIdempotent | src/schemabridge/config.py:846-1043 | Validating accepted settings again accepts them and changes no field, nor which fields count as set. |
| SettingsProfile.AcceptedHoldsOnlyItsOwnUrl | src/schemabridge/config.py:1551-1823 | Every accepted component but the operator, and but web outside staging and production, holds exactly one database URL, its own; restore target and source included. |
| SettingsProfile.AcceptedUrlsAgree | src/schemabridge/config.py:1285-1359 | Accepted PostgreSQL settings name one control database under pairwise different raw usernames, apart from the restore target and the source database, which also differ from each other. |
| SettingsProfile.AcceptedManagedProfile | src/schemabridge/config.py:850-971 | Accepted staging and production settings are live, active and in PostgreSQL over verified TLS, without the synthetic parser, with OIDC exactly for web and API, and without publication or execution on web. |
| SettingsProfile.HostedDemoAcceptedExactlyWhen | src/schemabridge/config.py:847-1043 | The whole validator on the hosted demo: it accepts exactly web and operator processes that set no mode to anything but the demo's, pin the model, fit the Query Studio key, and hold no forbidden credential as operator; the result is the same eight modes whatever was left unset. |
| SettingsRules.AcceptedExactlyWhen | src/schemabridge/config.py:847-1421 | For every environment and component the validator accepts exactly the settings that meet every rule (no explicit mode replaced, identity, Query Studio, databases and roles, keys, credentials), and leaves every mode as a rule per field says. |
| SettingsRules.AcceptedKeys | src/schemabridge/config.py:1366-1421 | Accepted PostgreSQL settings: web holds strong audit and identity keys, different from each other and from any pseudonymisation key; backup and reconciler a strong audit key; operator actor and roles come together; no component holds a credential of another. |

## Left out

- HTTP handlers, cookies, headers, pages, PostgreSQL, DataHub, subprocesses and files: input and output only.
- The product's SQL compiler, guard, registry and domain transitions: not part of this model.
- M26 and M25 item projections: the fields that filtering and selection use are modelled; the other field checks are one flag per item or page. Timestamps (`as_of`, `next_cursor_recorded_at`), staleness flags and the upstream query string are not modelled.
- M25 refresh, cursor-probe and rate-probe actions: they touch none of the modelled fields and appear as one action that succeeds or fails. How raw actions are decoded and validated is not modelled in either panel: a rejected action carries its problem.
- AuthorizationCodes and CodeProtocol: clock readings are exact reals, so the 120 second test has no floating-point rounding.
- AuthorizationCodes.Provider.Authorize: parameter parsing is taken as done (a missing, repeated or oversized parameter is `UnreadableQuery`), and the redirect carries only the code.
- AuthorizationCodes.Provider.Token: header and form decoding are taken as done, and tokens are reduced to nonce, issue and expiry times; signing is not modelled.
- Hashes: the cursor digest, the PKCE transformation, plan digests and SHA-256 are arbitrary functions or are not applied; only `ScaleCorrectness.AgreementIsOneOrder` assumes a collision-free one, and says so.
- CanonicalEncoding.CanonicalExactly: floats, dates and times are not modelled, nor are mappings with non-string keys. UTF-8 encoding of the text is not modelled.
- TreeComparison.FirstDifference: paths are sequences of keys and indices instead of their printed form; the mapping keys are strings and floats are reals.
- YamlGraph.RejectDuplicateKeys: Python's recursion limit on deeply nested documents is not modelled.
- LoadStatistics.PercentileWithinBudget: arithmetic is exact; floating-point rounding of quantile times count, and of reported figures, is not modelled.
- LoadStatistics.RunLoad: threads are modelled by an arbitrary stream of answers per worker; elapsed time, throughput, the median and the maximum latency are not modelled.
- InventoryTraversal.TraverseInventory: what is fed to the digest is recorded instead of hashed; timings are not modelled.
- ScaleCorrectness.RunCorrectness: of the memory comparison only whether its page reads succeed is modelled, not the heap and resident-set figures.
- SettingsValidation.Settings.Validate: error messages are not distinguished; URLs are taken as parsed; OIDC metadata, API options, connector secrets, catalog routing, role lists, pool sizes and the schema name enter as an arbitrary function of the settings. Distinct URL fields are taken to hold distinct secret objects, as they do when read from the environment.
- CatalogSession.CatalogSessionState: the pagers it holds are stored by value, since the code replaces a stored pager and never updates it in place.
