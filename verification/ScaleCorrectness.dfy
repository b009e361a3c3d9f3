/**
 The correctness half of the scale harness: both cases are traversed at every page
 size, and the digests of what was delivered must agree.  `hash` is the digest of
 the fed text and `readers` what a traversal of a case at a page size reads.
 */
module ScaleCorrectness {
  import opened Wrappers
  import opened InventoryTraversal

  const SMALL_ASSET_COUNT: nat := 10
  const LARGE_ASSET_COUNT: nat := 5434
  const PAGE_SIZES: seq<nat> := [1, 17, 50]
  const CASE_COUNTS: map<string, int> := map["small" := SMALL_ASSET_COUNT, "large" := LARGE_ASSET_COUNT]

  type Readers = (string, nat) -> Reader

  datatype CorrectnessFailure =
    | WrongCases
    | WrongPageSizes
    | ComparisonFailed
    | TraversalFailed(failure: Failure)
    | OrderChanged

  function CountOf(name: string): (n: nat)
    ensures n == if name == "small" then 10 else 5434
  {
    if name == "small" then SMALL_ASSET_COUNT else LARGE_ASSET_COUNT
  }

  /** What the digest is fed: every key and a newline. */
  function Framed(keys: seq<string>): string {
    if keys == [] then "" else keys[0] + "\n" + Framed(keys[1..])
  }

  /** The keys delivered at a page size, in order. */
  function OrderAt(readers: Readers, name: string, size: nat): seq<string>
    requires size >= 1
  {
    Keys(readers(name, size), CeilDiv(CountOf(name), size))
  }

  function SizeAt(j: nat): (size: nat)
    requires j < 3
    ensures size == if j == 0 then 1 else if j == 1 then 17 else 50
  {
    PAGE_SIZES[j]
  }

  /** The j-th traversal of a case is honest and digests to what the first did. */
  ghost predicate Agrees(readers: Readers, hash: string -> string, name: string, j: nat)
    requires j < 3
  {
    && Honest(readers(name, SizeAt(j)), CountOf(name), SizeAt(j))
    && hash(Framed(OrderAt(readers, name, SizeAt(j)))) == hash(Framed(OrderAt(readers, name, SizeAt(0))))
  }

  ghost predicate CaseAgrees(readers: Readers, hash: string -> string, name: string) {
    forall j :: 0 <= j < 3 ==> Agrees(readers, hash, name, j)
  }

  /** One case at every page size, against the digest of its first traversal. */
  method TraverseCase(readers: Readers, hash: string -> string, name: string) returns (r: Result<seq<Report>, CorrectnessFailure>)
    requires KnownCase(name)
    ensures r.Ok? <==> CaseAgrees(readers, hash, name)
    ensures r.Err? ==> r.error.TraversalFailed? || r.error.OrderChanged?
    ensures r.Ok? ==> |r.value| == 3 && forall j :: 0 <= j < 3 ==> r.value[j].digested == OrderAt(readers, name, SizeAt(j))
  {
    hide KnownCase, Honest, ExactInventory, Framed, Keys, CeilDiv;
    var results: seq<Report> := [];
    var previous: Option<string> := None;
    for j := 0 to |PAGE_SIZES|
      invariant |results| == j
      invariant previous == if j == 0 then None else Some(hash(Framed(OrderAt(readers, name, SizeAt(0)))))
      invariant forall k :: 0 <= k < j ==> Agrees(readers, hash, name, k) && results[k].digested == OrderAt(readers, name, SizeAt(k))
    {
      var size := SizeAt(j);
      var result, _ := TraverseInventory(readers(name, size), name, CountOf(name), size);
      if result.Err? {
        assert !Agrees(readers, hash, name, j);
        return Err(TraversalFailed(result.error));
      }
      var digest := hash(Framed(result.value.digested));
      previous := if previous.None? then Some(digest) else previous;
      if digest != previous.value {
        assert !Agrees(readers, hash, name, j);
        return Err(OrderChanged);
      }
      assert Agrees(readers, hash, name, j);
      results := results + [result.value];
    }
    return Ok(results);
  }

  /** Giving no counts means the usual ones. */
  predicate UsualCounts(counts: map<string, int>) {
    counts == map[] || counts == CASE_COUNTS
  }

  /** `compared` tells whether the page reads of the memory comparison of a case succeed. */
  method RunCorrectness(readers: Readers, compared: string -> bool, hash: string -> string,
                        counts: map<string, int>, sizes: seq<nat>)
    returns (r: Result<seq<Report>, CorrectnessFailure>)
    ensures r == Err(WrongCases) <==> !UsualCounts(counts)
    ensures r == Err(WrongPageSizes) <==> UsualCounts(counts) && sizes != PAGE_SIZES
    ensures r.Ok? <==>
              && UsualCounts(counts) && sizes == [1, 17, 50]
              && compared("small") && compared("large")
              && CaseAgrees(readers, hash, "small") && CaseAgrees(readers, hash, "large")
    ensures r.Ok? ==>
              && |r.value| == 6
              && forall j :: 0 <= j < 3 ==>
                   && r.value[j].digested == OrderAt(readers, "small", SizeAt(j))
                   && r.value[3 + j].digested == OrderAt(readers, "large", SizeAt(j))
  {
    hide CaseAgrees, OrderAt, UsualCounts;
    if !UsualCounts(counts) {
      return Err(WrongCases);
    }
    if sizes != PAGE_SIZES {
      return Err(WrongPageSizes);
    }
    if !compared("small") || !compared("large") {
      return Err(ComparisonFailed);
    }
    var small := TraverseCase(readers, hash, "small");
    if small.Err? {
      return small;
    }
    var large := TraverseCase(readers, hash, "large");
    if large.Err? {
      return large;
    }
    return Ok(small.value + large.value);
  }

  // ------------------------------------------------------------------
  // Digests tell orders
  // ------------------------------------------------------------------

  ghost predicate CollisionFree(hash: string -> string) {
    forall x, y :: hash(x) == hash(y) ==> x == y
  }

  ghost predicate KeysNamed(keys: seq<string>) {
    forall i :: 0 <= i < |keys| ==> |keys[i]| == 24
  }

  /** Keys have one length, so the framed text determines the list. */
  lemma {:induction false} FramedInjective(a: seq<string>, b: seq<string>)
    requires KeysNamed(a) && KeysNamed(b) && Framed(a) == Framed(b)
    ensures a == b
  {
    if a != [] && b != [] {
      var whole := Framed(a);
      assert whole[..24] == a[0] && whole[..24] == b[0];
      assert whole[25..] == Framed(a[1..]) && whole[25..] == Framed(b[1..]);
      FramedInjective(a[1..], b[1..]);
      assert a == [a[0]] + a[1..] && b == [b[0]] + b[1..];
    }
  }

  lemma HonestKeysNamed(reader: Reader, count: nat, size: nat)
    requires count >= 1 && size >= 1 && Honest(reader, count, size)
    ensures KeysNamed(Keys(reader, CeilDiv(count, size)))
  {
    hide PageOk, Linked, CursorAt, Keys, HasIndex;
  }

  /** With a collision-free digest a case agrees exactly when every traversal is honest and the order is the same at every page size. */
  lemma AgreementIsOneOrder(readers: Readers, hash: string -> string, name: string)
    requires CollisionFree(hash)
    ensures CaseAgrees(readers, hash, name) <==>
              forall j :: 0 <= j < 3 ==>
                && Honest(readers(name, SizeAt(j)), CountOf(name), SizeAt(j))
                && OrderAt(readers, name, SizeAt(j)) == OrderAt(readers, name, SizeAt(0))
  {
    hide Honest, Framed, Keys, CeilDiv, KeysNamed;
    if CaseAgrees(readers, hash, name) {
      forall j | 0 <= j < 3
        ensures Honest(readers(name, SizeAt(j)), CountOf(name), SizeAt(j))
        ensures OrderAt(readers, name, SizeAt(j)) == OrderAt(readers, name, SizeAt(0))
      {
        assert Agrees(readers, hash, name, j) && Agrees(readers, hash, name, 0);
        HonestKeysNamed(readers(name, SizeAt(j)), CountOf(name), SizeAt(j));
        HonestKeysNamed(readers(name, SizeAt(0)), CountOf(name), SizeAt(0));
        FramedInjective(OrderAt(readers, name, SizeAt(j)), OrderAt(readers, name, SizeAt(0)));
      }
    }
  }
}
