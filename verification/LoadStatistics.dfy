/**
 The load half of the scale harness: how reads are shared among workers, what a
 worker records, and what the nearest-rank percentile gates mean.  Latencies are
 exact reals; thread scheduling only decides which answers each worker gets.
 */
module LoadStatistics {
  import opened Wrappers
  import opened Maxima

  // ------------------------------------------------------------------
  // Nearest-rank percentiles
  // ------------------------------------------------------------------

  function Ceil(x: real): int {
    -((-x).Floor)
  }

  predicate Ascending(s: seq<real>) {
    forall i, j :: 0 <= i < j < |s| ==> s[i] <= s[j]
  }

  function Insert(x: real, s: seq<real>): seq<real> {
    if s == [] || x <= s[0] then [x] + s else [s[0]] + Insert(x, s[1..])
  }

  function SortedValues(values: seq<real>): seq<real> {
    if values == [] then [] else Insert(values[0], SortedValues(values[1..]))
  }

  predicate ValidQuantile(values: seq<real>, quantile: real) {
    values != [] && 0.0 < quantile <= 1.0
  }

  function Rank(n: nat, quantile: real): int {
    var index := Ceil(quantile * n as real) - 1;
    if index < 0 then 0 else index
  }

  function CountAbove(values: seq<real>, budget: real): nat {
    if values == [] then 0 else (if values[0] > budget then 1 else 0) + CountAbove(values[1..], budget)
  }

  lemma {:induction false} InsertAscends(x: real, s: seq<real>)
    requires Ascending(s)
    ensures |Insert(x, s)| == |s| + 1 && Ascending(Insert(x, s))
    ensures Insert(x, s)[0] == if s == [] || x <= s[0] then x else s[0]
  {
    if s != [] && x > s[0] {
      var tail := Insert(x, s[1..]);
      InsertAscends(x, s[1..]);
      assert tail[0] >= s[0];
      forall i, j | 0 <= i < j < |s| + 1
        ensures ([s[0]] + tail)[i] <= ([s[0]] + tail)[j]
      {
        assert j > 1 ==> tail[0] <= tail[j - 1];
      }
    }
  }

  lemma {:induction false} InsertCounts(x: real, s: seq<real>, budget: real)
    ensures CountAbove(Insert(x, s), budget) == CountAbove(s, budget) + if x > budget then 1 else 0
  {
    var r := Insert(x, s);
    if s == [] || x <= s[0] {
      assert r[1..] == s;
    } else {
      InsertCounts(x, s[1..], budget);
      assert r[1..] == Insert(x, s[1..]);
    }
  }

  lemma {:induction false} SortedFacts(values: seq<real>, budget: real)
    ensures |SortedValues(values)| == |values| && Ascending(SortedValues(values))
    ensures CountAbove(SortedValues(values), budget) == CountAbove(values, budget)
  {
    if values != [] {
      SortedFacts(values[1..], budget);
      InsertAscends(values[0], SortedValues(values[1..]));
      InsertCounts(values[0], SortedValues(values[1..]), budget);
    }
  }

  lemma {:induction false} CountOfParts(a: seq<real>, b: seq<real>, budget: real)
    ensures CountAbove(a + b, budget) == CountAbove(a, budget) + CountAbove(b, budget)
  {
    if a == [] {
      assert a + b == b;
    } else {
      CountOfParts(a[1..], b, budget);
      assert (a + b)[1..] == a[1..] + b;
    }
  }

  lemma {:induction false} CountBounds(s: seq<real>, budget: real)
    ensures CountAbove(s, budget) <= |s|
    ensures (forall i :: 0 <= i < |s| ==> s[i] <= budget) ==> CountAbove(s, budget) == 0
    ensures (forall i :: 0 <= i < |s| ==> s[i] > budget) ==> CountAbove(s, budget) == |s|
  {
    if s != [] {
      CountBounds(s[1..], budget);
    }
  }

  /** In ascending order, position i is within budget exactly when few enough values exceed it. */
  lemma WithinBudgetAt(s: seq<real>, i: nat, budget: real)
    requires Ascending(s) && i < |s|
    ensures s[i] <= budget <==> CountAbove(s, budget) <= |s| - (i + 1)
  {
    hide CountAbove;
    if s[i] <= budget {
      var low, high := s[..i + 1], s[i + 1..];
      assert s == low + high;
      CountOfParts(low, high, budget);
      assert forall j :: 0 <= j < |low| ==> low[j] <= budget by {
        assert forall j :: 0 <= j < |low| ==> low[j] == s[j] <= s[i];
      }
      CountBounds(low, budget);
      CountBounds(high, budget);
    } else {
      var low, high := s[..i], s[i..];
      assert s == low + high;
      CountOfParts(low, high, budget);
      assert forall j :: 0 <= j < |high| ==> high[j] > budget by {
        assert forall j :: 0 <= j < |high| ==> high[j] == s[i + j] >= s[i];
      }
      CountBounds(high, budget);
    }
  }

  lemma RankInRange(n: nat, quantile: real)
    requires n >= 1 && 0.0 < quantile <= 1.0
    ensures 0 <= Rank(n, quantile) < n && Rank(n, quantile) + 1 == Ceil(quantile * n as real)
  {
    var x := quantile * n as real;
    assert 0.0 < x by { Scale(0.0, quantile, n as real); }
    assert x <= n as real by { Scale(quantile, 1.0, n as real); }
  }

  lemma Scale(a: real, b: real, f: real)
    requires a <= b && f > 0.0
    ensures a * f <= b * f && (a < b ==> a * f < b * f)
  {
    assert (b - a) * f >= 0.0;
    assert a < b ==> (b - a) * f > 0.0;
  }

  function Percentile(values: seq<real>, quantile: real): (r: Option<real>)
    ensures r.Some? <==> ValidQuantile(values, quantile)
  {
    if !ValidQuantile(values, quantile) then None
    else
      SortedFacts(values, 0.0);
      RankInRange(|values|, quantile);
      Some(SortedValues(values)[Rank(|values|, quantile)])
  }

  /** The gate on the percentile and the reported over-budget count say the same thing. */
  lemma PercentileWithinBudget(values: seq<real>, quantile: real, budget: real)
    requires ValidQuantile(values, quantile)
    ensures Percentile(values, quantile).value <= budget
       <==> CountAbove(values, budget) <= |values| - Ceil(quantile * |values| as real)
  {
    SortedFacts(values, budget);
    RankInRange(|values|, quantile);
    WithinBudgetAt(SortedValues(values), Rank(|values|, quantile), budget);
  }

  lemma PercentileMonotone(values: seq<real>, p: real, q: real)
    requires ValidQuantile(values, p) && ValidQuantile(values, q) && p <= q
    ensures Percentile(values, p).value <= Percentile(values, q).value
  {
    hide SortedValues, Rank;
    SortedFacts(values, 0.0);
    RankMonotone(|values|, p, q);
  }

  lemma RankMonotone(n: nat, p: real, q: real)
    requires n >= 1 && 0.0 < p <= q <= 1.0
    ensures 0 <= Rank(n, p) <= Rank(n, q) < n
  {
    hide Ceil;
    RankInRange(n, q);
    CeilMonotone(p, q, n);
  }

  lemma CeilMonotone(p: real, q: real, n: nat)
    requires p <= q && n >= 1
    ensures Ceil(p * n as real) <= Ceil(q * n as real)
  {
    Scale(p, q, n as real);
  }

  // ------------------------------------------------------------------
  // Workers
  // ------------------------------------------------------------------

  datatype LoadPage = LoadPage(itemCount: nat, nextCursor: Option<string>, rowsRead: nat, poolWait: Option<real>)

  /** The n-th read of one worker: a page, or `None` when it raised. */
  type Reader = nat -> Option<LoadPage>

  predicate ValidLoadPage(page: LoadPage, pageSize: nat, cursor: Option<string>) {
    page.itemCount != 0 && page.itemCount <= pageSize && page.rowsRead <= pageSize + 1 && page.nextCursor != cursor
  }

  /** The cursor a worker holds before read i: none at first, after a failure and at the end of a chain. */
  function CursorBefore(reader: Reader, pageSize: nat, i: nat): Option<string>
    decreases i, 0
  {
    if i == 0 || Fails(reader, pageSize, i - 1) then None else reader(i - 1).value.nextCursor
  }

  predicate Fails(reader: Reader, pageSize: nat, i: nat)
    decreases i, 1
  {
    reader(i).None? || !ValidLoadPage(reader(i).value, pageSize, CursorBefore(reader, pageSize, i))
  }

  function Failures(reader: Reader, pageSize: nat, n: nat): nat {
    if n == 0 then 0 else Failures(reader, pageSize, n - 1) + (if Fails(reader, pageSize, n - 1) then 1 else 0)
  }

  predicate Succeeds(reader: Reader, pageSize: nat, i: nat) {
    !Fails(reader, pageSize, i)
  }

  /** Read i succeeded and reported how long it waited for the pool. */
  predicate ReportsWait(reader: Reader, pageSize: nat, i: nat) {
    !Fails(reader, pageSize, i) && reader(i).value.poolWait.Some?
  }

  /** The pool waits of the successful reads among the first n, in order. */
  function PoolWaits(reader: Reader, pageSize: nat, n: nat): seq<real> {
    if n == 0 then []
    else
      PoolWaits(reader, pageSize, n - 1)
      + if ReportsWait(reader, pageSize, n - 1) then [reader(n - 1).value.poolWait.value] else []
  }

  /** Row counts of the pages that arrived, valid or not. */
  function RowCounts(reader: Reader, n: nat): seq<nat> {
    if n == 0 then [] else RowCounts(reader, n - 1) + if reader(n - 1).Some? then [reader(n - 1).value.rowsRead] else []
  }

  /** Item counts of the pages that arrived, valid or not. */
  function ItemCounts(reader: Reader, n: nat): seq<nat> {
    if n == 0 then [] else ItemCounts(reader, n - 1) + if reader(n - 1).Some? then [reader(n - 1).value.itemCount] else []
  }

  /** Counting errors and waits is asking about every read. */
  lemma {:induction false} CountsDecide(reader: Reader, pageSize: nat, n: nat)
    ensures Failures(reader, pageSize, n) == 0 <==> forall i :: 0 <= i < n ==> Succeeds(reader, pageSize, i)
    ensures |PoolWaits(reader, pageSize, n)| <= n
    ensures |PoolWaits(reader, pageSize, n)| == n <==> forall i :: 0 <= i < n ==> ReportsWait(reader, pageSize, i)
  {
    if n > 0 {
      CountsDecide(reader, pageSize, n - 1);
      assert Succeeds(reader, pageSize, n - 1) == !Fails(reader, pageSize, n - 1);
    }
  }

  /** Read i succeeds on a page that is not empty, is within both bounds and moves on from the page before it, if that succeeded. */
  lemma SucceedsExactly(reader: Reader, pageSize: nat, i: nat)
    ensures Succeeds(reader, pageSize, i) <==>
              && reader(i).Some?
              && 1 <= reader(i).value.itemCount <= pageSize
              && reader(i).value.rowsRead <= pageSize + 1
              && reader(i).value.nextCursor
                 != (if i > 0 && Succeeds(reader, pageSize, i - 1) then reader(i - 1).value.nextCursor else None)
  {
    var cursor := CursorBefore(reader, pageSize, i);
    assert Fails(reader, pageSize, i) <==> reader(i).None? || !ValidLoadPage(reader(i).value, pageSize, cursor);
    assert cursor == if i == 0 || Fails(reader, pageSize, i - 1) then None else reader(i - 1).value.nextCursor;
    hide Fails, CursorBefore;
  }

  /** The page arrives, is not empty, is within both bounds and does not repeat the cursor of the page before. */
  ghost predicate Fit(reader: Reader, pageSize: nat, i: nat) {
    && reader(i).Some?
    && 1 <= reader(i).value.itemCount <= pageSize && reader(i).value.rowsRead <= pageSize + 1
    && reader(i).value.nextCursor != (if i > 0 && reader(i - 1).Some? then reader(i - 1).value.nextCursor else None)
  }

  /** A worker's reads all succeed exactly when every page is fit. */
  lemma {:induction false} AllSucceedExactly(reader: Reader, pageSize: nat, n: nat)
    ensures (forall i :: 0 <= i < n ==> Succeeds(reader, pageSize, i)) <==> (forall i :: 0 <= i < n ==> Fit(reader, pageSize, i))
  {
    if n > 0 {
      AllSucceedExactly(reader, pageSize, n - 1);
      SucceedsExactly(reader, pageSize, n - 1);
      if n > 1 {
        SucceedsExactly(reader, pageSize, n - 2);
      }
      hide Succeeds;
      assert (forall i :: 0 <= i < n - 1 ==> Succeeds(reader, pageSize, i)) ==>
          (Succeeds(reader, pageSize, n - 1) <==> Fit(reader, pageSize, n - 1));
      hide Fit;
    }
  }

  /** A worker without errors saw no page over the bounds. */
  lemma {:induction false} SuccessStaysWithin(reader: Reader, pageSize: nat, n: nat)
    requires forall i :: 0 <= i < n ==> Succeeds(reader, pageSize, i)
    ensures forall i :: 0 <= i < |RowCounts(reader, n)| ==> RowCounts(reader, n)[i] <= pageSize + 1
    ensures forall i :: 0 <= i < |ItemCounts(reader, n)| ==> ItemCounts(reader, n)[i] <= pageSize
  {
    if n > 0 {
      SuccessStaysWithin(reader, pageSize, n - 1);
      assert Succeeds(reader, pageSize, n - 1);
      hide CursorBefore;
    }
  }

  datatype WorkerResult = WorkerResult(
    latencies: seq<real>, poolWaits: seq<real>, errors: nat, maximumRows: nat, maximumItems: nat)

  /** The first n latencies a worker measures. */
  function Samples(latency: nat -> real, n: nat): (s: seq<real>)
    ensures |s| == n && forall i :: 0 <= i < n ==> s[i] == latency(i)
  {
    if n == 0 then [] else Samples(latency, n - 1) + [latency(n - 1)]
  }

  /** What read i adds to a worker's record. */
  lemma ReadAdds(reader: Reader, latency: nat -> real, pageSize: nat, i: nat)
    ensures Fails(reader, pageSize, i) <==>
              reader(i).None? || !ValidLoadPage(reader(i).value, pageSize, CursorBefore(reader, pageSize, i))
    ensures CursorBefore(reader, pageSize, i + 1) == if Fails(reader, pageSize, i) then None else reader(i).value.nextCursor
    ensures Failures(reader, pageSize, i + 1) == Failures(reader, pageSize, i) + if Fails(reader, pageSize, i) then 1 else 0
    ensures PoolWaits(reader, pageSize, i + 1) == PoolWaits(reader, pageSize, i)
            + if !Fails(reader, pageSize, i) && reader(i).value.poolWait.Some? then [reader(i).value.poolWait.value] else []
    ensures Samples(latency, i + 1) == Samples(latency, i) + [latency(i)]
    ensures Maximum(RowCounts(reader, i + 1))
         == if reader(i).Some? then Max(Maximum(RowCounts(reader, i)), reader(i).value.rowsRead) else Maximum(RowCounts(reader, i))
    ensures Maximum(ItemCounts(reader, i + 1))
         == if reader(i).Some? then Max(Maximum(ItemCounts(reader, i)), reader(i).value.itemCount) else Maximum(ItemCounts(reader, i))
  {
    hide Maximum, Max;
    if reader(i).Some? {
      MaximumSnoc(RowCounts(reader, i), reader(i).value.rowsRead);
      MaximumSnoc(ItemCounts(reader, i), reader(i).value.itemCount);
    } else {
      assert RowCounts(reader, i + 1) == RowCounts(reader, i) && ItemCounts(reader, i + 1) == ItemCounts(reader, i);
    }
  }

  lemma NothingRead(reader: Reader, latency: nat -> real, pageSize: nat)
    ensures CursorBefore(reader, pageSize, 0) == None && Failures(reader, pageSize, 0) == 0
    ensures Samples(latency, 0) == [] && PoolWaits(reader, pageSize, 0) == []
    ensures Maximum(RowCounts(reader, 0)) == 0 && Maximum(ItemCounts(reader, 0)) == 0
  {}

  /** Every read yields its latency, whatever happens to it; only successful reads report a pool wait. */
  method LoadWorker(reader: Reader, latency: nat -> real, iterations: nat, pageSize: nat) returns (w: WorkerResult)
    ensures w.latencies == Samples(latency, iterations)
    ensures w.errors == Failures(reader, pageSize, iterations)
    ensures w.poolWaits == PoolWaits(reader, pageSize, iterations)
    ensures w.maximumRows == Maximum(RowCounts(reader, iterations))
    ensures w.maximumItems == Maximum(ItemCounts(reader, iterations))
  {
    hide Maximum, Max, ValidLoadPage, Fails, PoolWaits, RowCounts, ItemCounts, Failures, CursorBefore, Samples;
    var cursor: Option<string> := None;
    NothingRead(reader, latency, pageSize);
    w := WorkerResult([], [], 0, 0, 0);
    for i := 0 to iterations
      invariant cursor == CursorBefore(reader, pageSize, i)
      invariant w.latencies == Samples(latency, i)
      invariant w.errors == Failures(reader, pageSize, i)
      invariant w.poolWaits == PoolWaits(reader, pageSize, i)
      invariant w.maximumRows == Maximum(RowCounts(reader, i))
      invariant w.maximumItems == Maximum(ItemCounts(reader, i))
    {
      ReadAdds(reader, latency, pageSize, i);
      var page := reader(i);
      var failed := page.None?;
      if !failed {
        w := w.(maximumRows := Max(w.maximumRows, page.value.rowsRead), maximumItems := Max(w.maximumItems, page.value.itemCount));
        failed := !ValidLoadPage(page.value, pageSize, cursor);
      }
      if failed {
        w := w.(errors := w.errors + 1);
        cursor := None;
      } else {
        if page.value.poolWait.Some? {
          w := w.(poolWaits := w.poolWaits + [page.value.poolWait.value]);
        }
        cursor := page.value.nextCursor;
      }
      w := w.(latencies := w.latencies + [latency(i)]);
    }
  }

  // ------------------------------------------------------------------
  // The run
  // ------------------------------------------------------------------

  function Share(readCount: nat, concurrency: nat, worker: nat): nat
    requires concurrency > 0
  {
    readCount / concurrency + (if worker < readCount % concurrency then 1 else 0)
  }

  /** What the first n workers are asked to read. */
  function Shares(readCount: nat, concurrency: nat, n: nat): nat
    requires concurrency > 0
  {
    if n == 0 then 0 else Shares(readCount, concurrency, n - 1) + Share(readCount, concurrency, n - 1)
  }

  /** Whole quotients for everyone, and one more each for the first remainder workers. */
  lemma {:induction false} SharesUpTo(readCount: nat, concurrency: nat, n: nat)
    requires concurrency > 0
    ensures Shares(readCount, concurrency, n)
         == n * (readCount / concurrency) + (if n < readCount % concurrency then n else readCount % concurrency)
  {
    if n > 0 {
      SharesUpTo(readCount, concurrency, n - 1);
      OneMore(n, readCount / concurrency);
    }
  }

  lemma OneMore(n: nat, q: nat)
    requires n >= 1
    ensures n * q == (n - 1) * q + q
  {}

  /** The shares add up to the reads and differ by at most one. */
  lemma SharesAreFair(readCount: nat, concurrency: nat)
    requires concurrency > 0
    ensures Shares(readCount, concurrency, concurrency) == readCount
    ensures forall i, j :: 0 <= i < concurrency && 0 <= j < concurrency ==>
              Share(readCount, concurrency, i) <= Share(readCount, concurrency, j) + 1
  {
    SharesUpTo(readCount, concurrency, concurrency);
    assert concurrency * (readCount / concurrency) + readCount % concurrency == readCount;
  }

  const MAX_P95: real := 250.0
  const MAX_P99: real := 500.0

  datatype Failure = InvalidInput | WarmupFailed | UnaccountedReads

  /** `maximumRows` and `maximumItems` are over all pages, `waits` counts the reported pool waits. */
  datatype LoadReport = LoadReport(
    readCount: nat, errorCount: nat, maximumRows: nat, maximumItems: nat, overP95: nat, overP99: nat, p95: real, p99: real,
    waits: nat, waitP95: Option<real>, waitP99: Option<real>, passed: bool)

  /** The worker's load: who reads, what each read is timed at, and how the reads are shared. */
  datatype Load = Load(readers: nat -> Reader, latency: nat -> (nat -> real), readCount: nat, concurrency: nat, pageSize: nat)
  {
    function ShareOf(worker: nat): nat
      requires concurrency > 0
    {
      Share(readCount, concurrency, worker)
    }
  }

  /** What the first n workers return, joined in worker order. */
  function Joined(load: Load, n: nat): WorkerResult
    requires load.concurrency > 0
  {
    WorkerResult(AllLatencies(load, n), AllWaits(load, n), AllFailures(load, n),
                 Maximum(AllRows(load, n)), Maximum(AllItems(load, n)))
  }

  /** All errors of the first n workers. */
  function AllFailures(load: Load, n: nat): nat
    requires load.concurrency > 0
  {
    if n == 0 then 0 else AllFailures(load, n - 1) + Failures(load.readers(n - 1), load.pageSize, load.ShareOf(n - 1))
  }

  /** All latencies of the first n workers, worker by worker. */
  function AllLatencies(load: Load, n: nat): (s: seq<real>)
    requires load.concurrency > 0
    ensures |s| == Shares(load.readCount, load.concurrency, n)
  {
    if n == 0 then [] else AllLatencies(load, n - 1) + Samples(load.latency(n - 1), load.ShareOf(n - 1))
  }

  function AllWaits(load: Load, n: nat): seq<real>
    requires load.concurrency > 0
  {
    if n == 0 then [] else AllWaits(load, n - 1) + PoolWaits(load.readers(n - 1), load.pageSize, load.ShareOf(n - 1))
  }

  function AllRows(load: Load, n: nat): seq<nat>
    requires load.concurrency > 0
  {
    if n == 0 then [] else AllRows(load, n - 1) + RowCounts(load.readers(n - 1), load.ShareOf(n - 1))
  }

  function AllItems(load: Load, n: nat): seq<nat>
    requires load.concurrency > 0
  {
    if n == 0 then [] else AllItems(load, n - 1) + ItemCounts(load.readers(n - 1), load.ShareOf(n - 1))
  }

  /** Every read of the first n workers succeeded. */
  ghost predicate AllSucceed(load: Load, n: nat)
    requires load.concurrency > 0
  {
    forall k, i :: 0 <= k < n && 0 <= i < load.ShareOf(k) ==> Succeeds(load.readers(k), load.pageSize, i)
  }

  /** Every read of the first n workers succeeded and reported its pool wait. */
  ghost predicate AllReportWaits(load: Load, n: nat)
    requires load.concurrency > 0
  {
    forall k, i :: 0 <= k < n && 0 <= i < load.ShareOf(k) ==> ReportsWait(load.readers(k), load.pageSize, i)
  }

  lemma {:induction false} AllCountsDecide(load: Load, n: nat)
    requires load.concurrency > 0
    ensures AllFailures(load, n) == 0 <==> AllSucceed(load, n)
    ensures |AllWaits(load, n)| <= Shares(load.readCount, load.concurrency, n)
    ensures |AllWaits(load, n)| == Shares(load.readCount, load.concurrency, n) <==> AllReportWaits(load, n)
  {
    hide Succeeds, ReportsWait, Failures, PoolWaits, Share;
    if n > 0 {
      AllCountsDecide(load, n - 1);
      CountsDecide(load.readers(n - 1), load.pageSize, load.ShareOf(n - 1));
    }
  }

  /** Once every read succeeded, both page bounds hold: those two gates can never be the ones that fail a run. */
  lemma {:induction false} SuccessMeetsPageGates(load: Load, n: nat)
    requires load.concurrency > 0 && AllSucceed(load, n)
    ensures Joined(load, n).maximumRows <= load.pageSize + 1 && Joined(load, n).maximumItems <= load.pageSize
  {
    hide Succeeds, RowCounts, ItemCounts, Share, Maximum;
    if n > 0 {
      SuccessMeetsPageGates(load, n - 1);
      var reader, share := load.readers(n - 1), load.ShareOf(n - 1);
      SuccessStaysWithin(reader, load.pageSize, share);
      MaximumOfParts(AllRows(load, n - 1), RowCounts(reader, share));
      MaximumOfParts(AllItems(load, n - 1), ItemCounts(reader, share));
    }
  }

  /** From the gates to what they promise: at most 5% over the one budget and 1% over the other. */
  lemma GatesBoundTails(latencies: seq<real>)
    requires latencies != []
    ensures Percentile(latencies, 0.95).value <= MAX_P95 ==> 20 * CountAbove(latencies, MAX_P95) <= |latencies|
    ensures Percentile(latencies, 0.99).value <= MAX_P99 ==> 100 * CountAbove(latencies, MAX_P99) <= |latencies|
  {
    hide Percentile, CountAbove, Ceil;
    PercentileWithinBudget(latencies, 0.95, MAX_P95);
    PercentileWithinBudget(latencies, 0.99, MAX_P99);
    TailBounds(|latencies|, CountAbove(latencies, MAX_P95), CountAbove(latencies, MAX_P99));
  }

  lemma TailBounds(n: nat, over95: nat, over99: nat)
    ensures over95 <= n - Ceil(0.95 * n as real) ==> 20 * over95 <= n
    ensures over99 <= n - Ceil(0.99 * n as real) ==> 100 * over99 <= n
  {}

  /** What a report on these latencies must say. */
  ghost predicate Reports(r: LoadReport, latencies: seq<real>) {
    && ValidQuantile(latencies, 0.95) && ValidQuantile(latencies, 0.99)
    && r.readCount == |latencies|
    && r.overP95 == CountAbove(latencies, MAX_P95) && r.overP99 == CountAbove(latencies, MAX_P99)
    && r.p95 == Percentile(latencies, 0.95).value && r.p99 == Percentile(latencies, 0.99).value
    && (r.p95 <= MAX_P95 <==> r.overP95 <= r.readCount - Ceil(0.95 * r.readCount as real))
    && (r.p99 <= MAX_P99 <==> r.overP99 <= r.readCount - Ceil(0.99 * r.readCount as real))
  }

  /** Pool waits are summarised exactly when every read succeeded and reported one. */
  ghost predicate ReportsWaits(r: LoadReport, load: Load)
    requires load.concurrency > 0
  {
    var waits := AllWaits(load, load.concurrency);
    && r.waits == |waits| <= load.readCount
    && (r.waitP95.Some? <==> AllReportWaits(load, load.concurrency))
    && (r.waitP95.Some? ==> r.waitP95 == Percentile(waits, 0.95) && r.waitP99 == Percentile(waits, 0.99))
    && (r.waitP95.None? ==> r.waitP99.None?)
  }

  /** The five gates come down to three. */
  ghost predicate Passes(r: LoadReport, load: Load)
    requires load.concurrency > 0
  {
    AllSucceed(load, load.concurrency) && r.p95 <= 250.0 && r.p99 <= 500.0
  }

  /** The workers' results, joined in worker order. */
  method CollectWorkers(load: Load) returns (all: WorkerResult)
    requires load.concurrency > 0
    ensures all == Joined(load, load.concurrency)
  {
    hide Share, Failures, PoolWaits, RowCounts, ItemCounts, Maximum, Samples;
    all := WorkerResult([], [], 0, 0, 0);
    for i := 0 to load.concurrency
      invariant all == Joined(load, i)
    {
      var share := load.ShareOf(i);
      var w := LoadWorker(load.readers(i), load.latency(i), share, load.pageSize);
      MaximumOfParts(AllRows(load, i), RowCounts(load.readers(i), share));
      MaximumOfParts(AllItems(load, i), ItemCounts(load.readers(i), share));
      all := WorkerResult(all.latencies + w.latencies, all.poolWaits + w.poolWaits, all.errors + w.errors,
                          Max(all.maximumRows, w.maximumRows), Max(all.maximumItems, w.maximumItems));
    }
  }

  predicate ValidLoad(load: Load) {
    && 1 <= load.readCount <= 100_000 && 1 <= load.concurrency <= 128 && load.concurrency <= load.readCount
    && 1 <= load.pageSize <= 50
  }

  predicate Warm(warmups: nat -> Option<LoadPage>, pageSize: nat, i: nat) {
    warmups(i).Some? && ValidLoadPage(warmups(i).value, pageSize, None)
  }

  method RunLoad(load: Load, warmups: nat -> Option<LoadPage>) returns (r: Result<LoadReport, Failure>)
    ensures r == Err(InvalidInput) <==> !ValidLoad(load)
    ensures r.Ok? <==> ValidLoad(load) && forall i :: 0 <= i < load.concurrency ==> Warm(warmups, load.pageSize, i)
    ensures r != Err(UnaccountedReads)
    ensures r.Ok? ==>
              && load.concurrency > 0 && r.value.readCount == load.readCount
              && Reports(r.value, AllLatencies(load, load.concurrency))
              && ReportsWaits(r.value, load)
              && r.value.errorCount == AllFailures(load, load.concurrency)
              && r.value.maximumRows == Maximum(AllRows(load, load.concurrency))
              && r.value.maximumItems == Maximum(AllItems(load, load.concurrency))
              && (r.value.passed <==> Passes(r.value, load))
              && (r.value.passed ==> 20 * r.value.overP95 <= load.readCount && 100 * r.value.overP99 <= load.readCount)
  {
    hide Percentile, CountAbove, Ceil, Share, AllLatencies, AllFailures, AllWaits, AllRows, AllItems, Shares, Maximum;
    hide AllSucceed, AllReportWaits, ValidLoadPage;
    if !(1 <= load.readCount <= 100_000) || !(1 <= load.concurrency <= 128) || load.concurrency > load.readCount || !(1 <= load.pageSize <= 50) {
      return Err(InvalidInput);
    }
    for i := 0 to load.concurrency
      invariant forall k :: 0 <= k < i ==> Warm(warmups, load.pageSize, k)
    {
      if warmups(i).None? || !ValidLoadPage(warmups(i).value, load.pageSize, None) {
        assert !Warm(warmups, load.pageSize, i);
        return Err(WarmupFailed);
      }
    }
    var all := CollectWorkers(load);
    SharesAreFair(load.readCount, load.concurrency);
    if |all.latencies| != load.readCount {
      // The accounting check cannot fire: every read was one of the shares.
      assert false;
    }
    var p95, p99 := Percentile(all.latencies, 0.95).value, Percentile(all.latencies, 0.99).value;
    PercentileWithinBudget(all.latencies, 0.95, MAX_P95);
    PercentileWithinBudget(all.latencies, 0.99, MAX_P99);
    GatesBoundTails(all.latencies);
    AllCountsDecide(load, load.concurrency);
    if all.errors == 0 {
      SuccessMeetsPageGates(load, load.concurrency);
    }
    var passed := all.errors == 0 && p95 <= MAX_P95 && p99 <= MAX_P99
                  && all.maximumRows <= load.pageSize + 1 && all.maximumItems <= load.pageSize;
    var measured := |all.poolWaits| == load.readCount;
    return Ok(LoadReport(load.readCount, all.errors, all.maximumRows, all.maximumItems,
                         CountAbove(all.latencies, MAX_P95), CountAbove(all.latencies, MAX_P99), p95, p99, |all.poolWaits|,
                         if measured then Percentile(all.poolWaits, 0.95) else None,
                         if measured then Percentile(all.poolWaits, 0.99) else None, passed));
  }
}
