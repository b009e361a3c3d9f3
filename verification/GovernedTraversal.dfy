/**
 The M27 postflight traversal of governed bindings: one pass for each of the page
 sizes 1, 17 and 50 over a reader that may answer anything, then a comparison of
 the three orders.  `reader(n)` is the answer to the n-th search of a pass.
 */
module GovernedTraversal {
  import opened Wrappers

  const EXPECTED_CATALOG_GENERATION := 9

  datatype Binding = Binding(bindingId: string, catalogGeneration: int)

  /** `rowsRead` is `None` when the reader reported something other than an int. */
  datatype BindingPage = BindingPage(
    scopeValid: bool, pageSize: int, rowsRead: Option<int>, items: seq<Binding>, nextKey: Option<string>)

  /** `None` is a search that raised. */
  type Reader = nat -> Option<BindingPage>

  datatype Failure =
    | DidNotTerminate
    | SearchFailed
    | ScopeInvalid
    | TraversalInvalid
    | ExceededPopulation
    | CursorDidNotProgress
    | PopulationIncomplete
    | OrderChanged
    | OverBudget

  function BindingIds(items: seq<Binding>): (ids: seq<string>)
    ensures |ids| == |items|
  {
    seq(|items|, i requires 0 <= i < |items| => items[i].bindingId)
  }

  predicate Distinct(ids: seq<string>) {
    forall i, j :: 0 <= i < j < |ids| ==> ids[i] != ids[j]
  }

  /** The page alone, whatever was collected before it. */
  predicate PageShape(page: BindingPage, size: nat) {
    && page.pageSize == size
    && page.rowsRead.Some?
    && |page.items| <= page.rowsRead.value <= size + 1
    && (page.nextKey.Some? ==> page.rowsRead.value == size + 1)
    && (page.nextKey.None? ==> page.rowsRead.value == |page.items|)
    && |page.items| <= size
    && Distinct(BindingIds(page.items))
    && (forall i :: 0 <= i < |page.items| ==> page.items[i].catalogGeneration == EXPECTED_CATALOG_GENERATION)
  }

  /** The traversal's own test of a page, condition by condition. */
  predicate RefusesPage(page: BindingPage, size: nat) {
    || page.pageSize != size
    || page.rowsRead.None?
    || page.rowsRead.value < |page.items|
    || page.rowsRead.value > size + 1
    || (page.nextKey.Some? && page.rowsRead.value != size + 1)
    || (page.nextKey.None? && page.rowsRead.value != |page.items|)
    || |page.items| > size
    || |BindingIds(page.items)| != |set id | id in BindingIds(page.items)|
    || exists i :: 0 <= i < |page.items| && page.items[i].catalogGeneration != EXPECTED_CATALOG_GENERATION
  }

  lemma {:induction false} SetSizeTellsRepetition(ids: seq<string>)
    ensures |set id | id in ids| <= |ids|
    ensures |set id | id in ids| == |ids| <==> Distinct(ids)
  {
    if ids != [] {
      var front, last := ids[..|ids| - 1], ids[|ids| - 1];
      SetSizeTellsRepetition(front);
      assert ids == front + [last];
      assert (set id | id in ids) == (set id | id in front) + {last};
      if last in front {
        var i :| 0 <= i < |front| && front[i] == last;
        assert ids[i] == ids[|ids| - 1];
      }
      assert Distinct(ids) <==> Distinct(front) && last !in front;
    }
  }

  lemma RefusesExactly(page: BindingPage, size: nat)
    ensures RefusesPage(page, size) <==> !PageShape(page, size)
  {
    hide Distinct;
    SetSizeTellsRepetition(BindingIds(page.items));
  }

  predicate PageOk(reader: Reader, n: nat, size: nat) {
    reader(n).Some? && reader(n).value.scopeValid && PageShape(reader(n).value, size)
  }

  /** The identifiers of the first n pages. */
  function Ids(reader: Reader, n: nat): seq<string> {
    if n == 0 then []
    else Ids(reader, n - 1) + (if reader(n - 1).Some? then BindingIds(reader(n - 1).value.items) else [])
  }

  function KeyAt(reader: Reader, n: nat): Option<string> {
    if n == 0 || reader(n - 1).None? then None else reader(n - 1).value.nextKey
  }

  /** Page n is not empty and its key moves on. */
  predicate Linked(reader: Reader, n: nat) {
    && reader(n).Some? && reader(n).value.nextKey.Some?
    && reader(n).value.items != [] && reader(n).value.nextKey != KeyAt(reader, n)
  }

  /** m well-formed linked pages, the last without a key, deliver `count` different identifiers. */
  ghost predicate Complete(reader: Reader, count: nat, size: nat, m: nat) {
    && m >= 1
    && (forall p :: 0 <= p < m ==> PageOk(reader, p, size))
    && (forall p :: 0 <= p < m - 1 ==> Linked(reader, p))
    && KeyAt(reader, m) == None
    && Distinct(Ids(reader, m))
    && |Ids(reader, m)| == count
  }

  lemma {:induction false} IdsPrefix(reader: Reader, m: nat, n: nat)
    requires m <= n
    ensures Ids(reader, m) <= Ids(reader, n)
  {
    if m < n {
      IdsPrefix(reader, m, n - 1);
    }
  }

  lemma DistinctPrefix(ids: seq<string>, all: seq<string>)
    requires ids <= all && Distinct(all)
    ensures Distinct(ids)
  {
    assert forall i :: 0 <= i < |ids| ==> ids[i] == all[i];
  }

  /** The first n pages are well formed and linked. */
  ghost predicate Clean(reader: Reader, size: nat, n: nat) {
    forall q :: 0 <= q < n ==> Linked(reader, q) && PageOk(reader, q, size)
  }

  lemma NothingRead(reader: Reader, size: nat)
    ensures Clean(reader, size, 0) && Ids(reader, 0) == [] && KeyAt(reader, 0) == None
  {}

  lemma CleanExtends(reader: Reader, size: nat, n: nat)
    requires Clean(reader, size, n) && Linked(reader, n) && PageOk(reader, n, size)
    ensures Clean(reader, size, n + 1)
  {}

  lemma PageAdds(reader: Reader, n: nat)
    requires reader(n).Some?
    ensures Ids(reader, n + 1) == Ids(reader, n) + BindingIds(reader(n).value.items)
    ensures KeyAt(reader, n + 1) == reader(n).value.nextKey
  {}

  /** A fault at page p, after p linked pages, rules every completion out. */
  lemma FaultRulesOutCompletion(reader: Reader, count: nat, size: nat, p: nat, m: nat)
    requires forall q :: 0 <= q < p ==> Linked(reader, q)
    requires || !PageOk(reader, p, size)
             || !Distinct(Ids(reader, p + 1))
             || |Ids(reader, p + 1)| > count
             || (KeyAt(reader, p + 1).Some? && !Linked(reader, p))
    ensures !Complete(reader, count, size, m)
  {
    hide Distinct, PageOk, Ids;
    assert 1 <= m <= p ==> Linked(reader, m - 1);
    if Complete(reader, count, size, m) && p < m {
      IdsPrefix(reader, p + 1, m);
      DistinctPrefix(Ids(reader, p + 1), Ids(reader, m));
    }
  }

  /** Only the page count at which a pass ends can complete it. */
  lemma EndIsCompletion(reader: Reader, count: nat, size: nat, end: nat, m: nat)
    requires end >= 1 && KeyAt(reader, end) == None
    requires forall q :: 0 <= q < end - 1 ==> Linked(reader, q)
    requires Complete(reader, count, size, m)
    ensures m == end
  {
    hide Distinct, PageOk, Ids;
    assert m < end ==> Linked(reader, m - 1);
    assert end < m ==> Linked(reader, end - 1);
  }

  /** A pass that ended after well-formed linked pages is complete exactly when the identifiers are. */
  lemma EndDecidesCompletion(reader: Reader, count: nat, size: nat, end: nat)
    requires end >= 1 && KeyAt(reader, end) == None
    requires Clean(reader, size, end - 1) && PageOk(reader, end - 1, size)
    ensures Complete(reader, count, size, end) <==> Distinct(Ids(reader, end)) && |Ids(reader, end)| == count
    ensures (exists m :: Complete(reader, count, size, m)) <==> Complete(reader, count, size, end)
  {
    hide Distinct, PageOk, Ids, Linked, KeyAt;
    forall m | Complete(reader, count, size, m)
      ensures m == end
    {
      EndIsCompletion(reader, count, size, end, m);
    }
  }

  lemma FreshPage(before: seq<string>, page: seq<string>)
    requires Distinct(before) && Distinct(page)
    ensures Distinct(before + page) <==> forall i :: 0 <= i < |page| ==> page[i] !in before
  {
    var all := before + page;
    forall i | 0 <= i < |page| && page[i] in before
      ensures !Distinct(all)
    {
      var j :| 0 <= j < |before| && before[j] == page[i];
      assert all[j] == all[|before| + i];
    }
  }

  /** A complete pass as served: full lookahead before the last page, none on it, generation 9 throughout. */
  ghost predicate Served(reader: Reader, count: nat, size: nat, m: nat) {
    && m >= 1
    && (forall p :: 0 <= p < m ==>
          && reader(p).Some? && reader(p).value.scopeValid && reader(p).value.pageSize == size
          && |reader(p).value.items| <= size
          && reader(p).value.rowsRead == Some(if p == m - 1 then |reader(p).value.items| else size + 1)
          && (reader(p).value.nextKey.None? <==> p == m - 1)
          && (p < m - 1 ==> reader(p).value.items != [])
          && (0 < p < m - 1 && reader(p - 1).Some? ==> reader(p).value.nextKey != reader(p - 1).value.nextKey)
          && (forall i :: 0 <= i < |reader(p).value.items| ==> reader(p).value.items[i].catalogGeneration == 9))
    && Distinct(Ids(reader, m)) && |Ids(reader, m)| == count
  }

  lemma CompleteExactly(reader: Reader, count: nat, size: nat, m: nat)
    ensures Complete(reader, count, size, m) <==> Served(reader, count, size, m)
  {
    hide Distinct, Ids;
    if Complete(reader, count, size, m) {
      forall p | 0 <= p < m
        ensures reader(p).Some? && reader(p).value.scopeValid && PageShape(reader(p).value, size)
        ensures reader(p).value.nextKey.None? <==> p == m - 1
        ensures p < m - 1 ==> reader(p).value.items != []
        ensures 0 < p < m - 1 && reader(p - 1).Some? ==> reader(p).value.nextKey != reader(p - 1).value.nextKey
      {
        assert PageOk(reader, p, size) && (p < m - 1 ==> Linked(reader, p));
      }
    }
    if Served(reader, count, size, m) {
      forall p | 0 <= p < m
        ensures PageOk(reader, p, size) && (p < m - 1 ==> Linked(reader, p))
      {
        PageIdsDistinct(reader, m, p);
        assert p > 0 ==> reader(p - 1).Some?;
      }
    }
  }

  /** No identifier repeats within one page when none repeats at all. */
  lemma {:induction false} PageIdsDistinct(reader: Reader, m: nat, p: nat)
    requires p < m && Distinct(Ids(reader, m)) && reader(p).Some?
    ensures Distinct(BindingIds(reader(p).value.items))
  {
    IdsPrefix(reader, p + 1, m);
    DistinctPrefix(Ids(reader, p + 1), Ids(reader, m));
    var front, page := Ids(reader, p), BindingIds(reader(p).value.items);
    assert Ids(reader, p + 1) == front + page;
    assert forall i :: 0 <= i < |page| ==> page[i] == (front + page)[|front| + i];
    hide Ids, BindingIds;
  }

  /** What a pass that stopped after n pages found wrong. */
  ghost predicate Fault(reader: Reader, count: nat, size: nat, n: nat, failure: Failure) {
    n >= 1 &&
    match failure
    case SearchFailed => reader(n - 1).None?
    case ScopeInvalid => reader(n - 1).Some? && !reader(n - 1).value.scopeValid
    case TraversalInvalid => reader(n - 1).Some? && (!PageShape(reader(n - 1).value, size) || !Distinct(Ids(reader, n)))
    case ExceededPopulation => |Ids(reader, n)| > count
    case CursorDidNotProgress => reader(n - 1).Some? && reader(n - 1).value.nextKey.Some? && !Linked(reader, n - 1)
    case PopulationIncomplete => KeyAt(reader, n) == None && |Ids(reader, n)| != count
    case _ => false
  }

  /**
   One pass: it succeeds exactly when some number of pages completes the
   population, reads at most count + 1 pages whatever the reader does, and
   therefore never trips its non-termination guard.
   */
  method TraversePass(reader: Reader, count: nat, size: nat) returns (r: Result<seq<string>, Failure>, pagesRead: nat)
    ensures pagesRead <= count + 1
    ensures r != Err(DidNotTerminate)
    ensures r.Ok? <==> exists m :: Complete(reader, count, size, m)
    ensures r.Ok? ==> Complete(reader, count, size, pagesRead) && r.value == Ids(reader, pagesRead)
    ensures r.Err? ==> Fault(reader, count, size, pagesRead, r.error)
  {
    hide PageShape, RefusesPage, Distinct, Complete, BindingIds, Clean, Ids, KeyAt;
    NothingRead(reader, size);
    var after: Option<string> := None;
    var ids: seq<string> := [];
    pagesRead := 0;
    assert Distinct(ids) by { DistinctEmpty(); }
    while true
      invariant ids == Ids(reader, pagesRead) && after == KeyAt(reader, pagesRead)
      invariant Distinct(ids)
      invariant pagesRead <= |ids| <= count
      invariant Clean(reader, size, pagesRead)
      decreases count - |ids|
    {
      pagesRead := pagesRead + 1;
      if pagesRead > count + 1 {
        // The non-termination guard: every earlier page brought a new identifier.
        assert false;
      }
      var answer := reader(pagesRead - 1);
      if answer.None? {
        NeverComplete(reader, count, size, pagesRead - 1);
        return Err(SearchFailed), pagesRead;
      }
      var page := answer.value;
      PageAdds(reader, pagesRead - 1);
      if !page.scopeValid {
        NeverComplete(reader, count, size, pagesRead - 1);
        return Err(ScopeInvalid), pagesRead;
      }
      var pageIds := BindingIds(page.items);
      RefusesExactly(page, size);
      if RefusesPage(page, size) {
        NeverComplete(reader, count, size, pagesRead - 1);
        return Err(TraversalInvalid), pagesRead;
      }
      ShapeIsDistinct(page, size);
      FreshPage(ids, pageIds);
      if exists i :: 0 <= i < |pageIds| && pageIds[i] in ids {
        NeverComplete(reader, count, size, pagesRead - 1);
        return Err(TraversalInvalid), pagesRead;
      }
      ids := ids + pageIds;
      if |ids| > count {
        NeverComplete(reader, count, size, pagesRead - 1);
        return Err(ExceededPopulation), pagesRead;
      }
      if page.nextKey.None? {
        break;
      }
      if page.items == [] || page.nextKey == after {
        NeverComplete(reader, count, size, pagesRead - 1);
        return Err(CursorDidNotProgress), pagesRead;
      }
      after := page.nextKey;
      CleanExtends(reader, size, pagesRead - 1);
    }
    EndDecidesCompletion(reader, count, size, pagesRead);
    if |ids| != count || !Distinct(ids) {
      return Err(PopulationIncomplete), pagesRead;
    }
    return Ok(ids), pagesRead;
  }

  lemma DistinctEmpty()
    ensures Distinct([])
  {}

  lemma ShapeIsDistinct(page: BindingPage, size: nat)
    requires PageShape(page, size)
    ensures Distinct(BindingIds(page.items))
  {}

  lemma NeverComplete(reader: Reader, count: nat, size: nat, p: nat)
    requires Clean(reader, size, p)
    requires || !PageOk(reader, p, size)
             || !Distinct(Ids(reader, p + 1))
             || |Ids(reader, p + 1)| > count
             || (KeyAt(reader, p + 1).Some? && !Linked(reader, p))
    ensures !exists m :: Complete(reader, count, size, m)
  {
    assert forall q :: 0 <= q < p ==> Linked(reader, q);
    hide Complete, PageOk, Linked, Distinct;
    forall m: nat
      ensures !Complete(reader, count, size, m)
    {
      FaultRulesOutCompletion(reader, count, size, p, m);
    }
  }

  const PAGE_SIZES: seq<nat> := [1, 17, 50]

  /** Some complete pass over the reader delivers `ids`. */
  ghost predicate Delivers(reader: Reader, count: nat, size: nat, ids: seq<string>) {
    exists m :: Complete(reader, count, size, m) && Ids(reader, m) == ids
  }

  /** What the postflight accepts: three complete passes over one and the same population in one order. */
  ghost predicate SameCompleteOrder(readers: nat -> Reader, count: nat, ids: seq<string>) {
    && |ids| == count && Distinct(ids)
    && Delivers(readers(1), count, 1, ids)
    && Delivers(readers(17), count, 17, ids)
    && Delivers(readers(50), count, 50, ids)
  }

  const BUDGET_NANOSECONDS: int := 5_000_000_000

  datatype Postflight = Postflight(order: seq<string>, elapsedMilliseconds: int)

  function BoundedMilliseconds(elapsed: int): Option<int> {
    if elapsed < 0 || elapsed >= BUDGET_NANOSECONDS then None else Some(elapsed / 1_000_000)
  }

  /** `readers(size)` answers the searches of the pass with that page size; the three passes took `elapsed` nanoseconds. */
  method RunGovernedPostflight(readers: nat -> Reader, count: nat, elapsed: int) returns (r: Result<Postflight, Failure>)
    ensures r != Err(DidNotTerminate)
    ensures r.Ok? <==> 0 <= elapsed < BUDGET_NANOSECONDS && exists ids :: SameCompleteOrder(readers, count, ids)
    ensures r.Ok? ==>
              && SameCompleteOrder(readers, count, r.value.order)
              && 0 <= r.value.elapsedMilliseconds < 5000
              && 0 <= elapsed - 1_000_000 * r.value.elapsedMilliseconds < 1_000_000
  {
    hide Complete, Distinct, Ids;
    var orders: map<nat, seq<string>> := map[];
    for i := 0 to |PAGE_SIZES|
      invariant forall k :: 0 <= k < i ==>
        PAGE_SIZES[k] in orders && Delivers(readers(PAGE_SIZES[k]), count, PAGE_SIZES[k], orders[PAGE_SIZES[k]])
    {
      var size := PAGE_SIZES[i];
      var pass, pages := TraversePass(readers(size), count, size);
      if pass.Err? {
        assert !exists ids :: Delivers(readers(size), count, size, ids);
        return Err(pass.error);
      }
      assert Delivers(readers(size), count, size, pass.value);
      assert forall k :: 0 <= k < i ==> PAGE_SIZES[k] != size;
      orders := orders[size := pass.value];
    }
    var milliseconds := BoundedMilliseconds(elapsed);
    if milliseconds.None? {
      return Err(OverBudget);
    }
    assert PAGE_SIZES[0] in orders && PAGE_SIZES[1] in orders && PAGE_SIZES[2] in orders;
    PassesAgree(readers, count, orders[1], orders[17], orders[50]);
    if !(orders[1] == orders[17] == orders[50] && |orders[1]| == count) {
      return Err(OrderChanged);
    }
    return Ok(Postflight(orders[1], milliseconds.value));
  }

  lemma PassesAgree(readers: nat -> Reader, count: nat, one: seq<string>, seventeen: seq<string>, fifty: seq<string>)
    requires Delivers(readers(1), count, 1, one)
    requires Delivers(readers(17), count, 17, seventeen)
    requires Delivers(readers(50), count, 50, fifty)
    ensures one == seventeen == fifty ==> SameCompleteOrder(readers, count, one)
    ensures forall ids :: SameCompleteOrder(readers, count, ids) ==> ids == one == seventeen == fifty
  {
    hide Distinct, PageOk, Linked, Ids;
    forall ids | SameCompleteOrder(readers, count, ids)
      ensures ids == one == seventeen == fifty
    {
      UniqueOrder(readers(1), count, 1, one, ids);
      UniqueOrder(readers(17), count, 17, seventeen, ids);
      UniqueOrder(readers(50), count, 50, fifty, ids);
    }
  }

  lemma UniqueOrder(reader: Reader, count: nat, size: nat, a: seq<string>, b: seq<string>)
    requires Delivers(reader, count, size, a) && Delivers(reader, count, size, b)
    ensures a == b
  {
    hide Distinct, PageOk, Ids;
    var m :| Complete(reader, count, size, m) && Ids(reader, m) == a;
    var n :| Complete(reader, count, size, n) && Ids(reader, n) == b;
    EndIsCompletion(reader, count, size, m, n);
  }
}
