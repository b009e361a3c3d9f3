/**
 The scale harness's inventory traversal: a loop over a page reader that may do
 anything, checked with a bitmap.  `reader(n)` is what the n-th read of the
 traversal returns, whatever it was asked; `None` is a read that raised.
 */
module InventoryTraversal {
  import opened Wrappers
  import opened Text
  import opened Maxima

  datatype ScalePage = ScalePage(itemKeys: seq<string>, nextCursor: Option<string>, rowsRead: nat)

  type Reader = nat -> Option<ScalePage>

  datatype Failure =
    | InvalidCase
    | InvalidPageSize
    | ReadFailed
    | PageExceededBound
    | EmptyPage
    | IdentityChanged
    | ExcessItems
    | CursorDidNotAdvance
    | OmittedInventory

  const KEY_PREFIX := "synthetic-asset-"

  /** Full match of `synthetic-asset-([0-9]{8})`. */
  function KeyIndex(key: string): Option<nat> {
    if |key| == 24 && key[..16] == KEY_PREFIX && AllDigits(key[16..]) then Some(DecimalValue(key[16..])) else None
  }

  function CeilDiv(a: nat, b: nat): nat
    requires b > 0
  {
    (a + b - 1) / b
  }

  // ------------------------------------------------------------------
  // The bitmap
  // ------------------------------------------------------------------

  function Mask(bit: nat): bv8
    requires bit < 8
  {
    1 << bit
  }

  predicate Marked(bytes: seq<bv8>, i: nat)
    requires i / 8 < |bytes|
  {
    bytes[i / 8] & Mask(i % 8) != 0
  }

  /** The bitmap with bit i set. */
  function WithBit(bytes: seq<bv8>, i: nat): seq<bv8>
    requires i / 8 < |bytes|
  {
    bytes[i / 8 := bytes[i / 8] | Mask(i % 8)]
  }

  lemma MaskAlone(bit: nat, other: nat)
    requires bit < 8 && other < 8 && bit != other
    ensures Mask(bit) & Mask(other) == 0 && Mask(bit) != 0
  {
    assert Mask(0) == 1 && Mask(1) == 2 && Mask(2) == 4 && Mask(3) == 8;
    assert Mask(4) == 16 && Mask(5) == 32 && Mask(6) == 64 && Mask(7) == 128;
  }

  lemma OrThenAnd(b: bv8, m: bv8, n: bv8)
    ensures (b | m) & n == (b & n) | (m & n)
    ensures m & n == 0 ==> (b | m) & n == b & n
    ensures m != 0 ==> (b | m) & m != 0
  {}

  /** Setting bit i of the bitmap marks i and nothing else. */
  lemma MarkingOne(before: seq<bv8>, i: nat, k: nat)
    requires i / 8 < |before| && k / 8 < |before|
    ensures Marked(WithBit(before, i), k) <==> Marked(before, k) || k == i
  {
    var other := if i % 8 == 0 then 1 else 0;
    MaskAlone(i % 8, other);
    if i % 8 != k % 8 {
      MaskAlone(i % 8, k % 8);
    }
    OrThenAnd(before[i / 8], Mask(i % 8), Mask(k % 8));
    assert i == 8 * (i / 8) + i % 8 && k == 8 * (k / 8) + k % 8;
    hide Mask;
  }

  // ------------------------------------------------------------------
  // Inventories and honest readers
  // ------------------------------------------------------------------

  predicate HasIndex(keys: seq<string>, k: nat) {
    exists j :: 0 <= j < |keys| && KeyIndex(keys[j]) == Some(k)
  }

  /** The keys name pairwise different indices below `count`. */
  predicate DistinctKeys(keys: seq<string>, count: nat) {
    && (forall j :: 0 <= j < |keys| ==> KeyIndex(keys[j]).Some? && KeyIndex(keys[j]).value < count)
    && (forall i, j :: 0 <= i < j < |keys| ==> KeyIndex(keys[i]) != KeyIndex(keys[j]))
  }

  /** A permutation of all of 0 .. count-1. */
  ghost predicate ExactInventory(keys: seq<string>, count: nat) {
    && |keys| == count
    && DistinctKeys(keys, count)
    && forall k :: 0 <= k < count ==> HasIndex(keys, k)
  }

  ghost function IndexSet(keys: seq<string>): set<nat> {
    if keys == [] then {}
    else
      var last := KeyIndex(keys[|keys| - 1]);
      IndexSet(keys[..|keys| - 1]) + if last.Some? then {last.value} else {}
  }

  lemma {:induction false} IndexSetFacts(keys: seq<string>, count: nat)
    requires DistinctKeys(keys, count)
    ensures |IndexSet(keys)| == |keys|
    ensures forall k: nat :: k in IndexSet(keys) <==> HasIndex(keys, k)
    ensures forall k :: k in IndexSet(keys) ==> k < count
  {
    hide KeyIndex;
    if keys != [] {
      var front, last := keys[..|keys| - 1], keys[|keys| - 1];
      assert keys == front + [last];
      DistinctPrefix(front, keys, count);
      IndexSetFacts(front, count);
      var i := KeyIndex(last).value;
      DistinctSnoc(front, count, last, i);
      forall k: nat
        ensures HasIndex(keys, k) <==> HasIndex(front, k) || KeyIndex(last) == Some(k)
      {
        HasIndexSnoc(front, last, k);
      }
      hide HasIndex, DistinctKeys;
      assert IndexSet(keys) == IndexSet(front) + {i};
    }
  }

  lemma HasIndexSnoc(keys: seq<string>, key: string, k: nat)
    ensures HasIndex(keys + [key], k) <==> HasIndex(keys, k) || KeyIndex(key) == Some(k)
  {
    hide KeyIndex;
    var all := keys + [key];
    assert all[|keys|] == key;
    assert forall j :: 0 <= j < |keys| ==> all[j] == keys[j];
  }

  ghost function Below(count: nat): (s: set<nat>)
    ensures |s| == count && forall k: nat :: k in s <==> k < count
  {
    if count == 0 then {} else Below(count - 1) + {count - 1}
  }

  /** Pigeonhole: distinct keys never outnumber the inventory, and when they match it in number they cover it. */
  lemma DistinctKeysFit(keys: seq<string>, count: nat)
    requires DistinctKeys(keys, count)
    ensures |keys| <= count
    ensures |keys| == count ==> ExactInventory(keys, count)
  {
    hide DistinctKeys, KeyIndex, HasIndex;
    IndexSetFacts(keys, count);
    var s, all := IndexSet(keys), Below(count);
    assert all == s + (all - s);
    if |keys| == count {
      assert all - s == {};
    }
  }

  /** Everything the first n reads delivered, in order. */
  function Keys(reader: Reader, n: nat): seq<string> {
    if n == 0 then []
    else Keys(reader, n - 1) + (if reader(n - 1).Some? then reader(n - 1).value.itemKeys else [])
  }

  /** The row counts of the first n pages. */
  function RowCounts(reader: Reader, n: nat): seq<nat> {
    if n == 0 then [] else RowCounts(reader, n - 1) + if reader(n - 1).Some? then [reader(n - 1).value.rowsRead] else []
  }

  /** The item counts of the first n pages. */
  function ItemCounts(reader: Reader, n: nat): seq<nat> {
    if n == 0 then [] else ItemCounts(reader, n - 1) + if reader(n - 1).Some? then [|reader(n - 1).value.itemKeys|] else []
  }

  /** What page n adds to the running totals. */
  lemma PageAdds(reader: Reader, n: nat)
    requires reader(n).Some?
    ensures Keys(reader, n + 1) == Keys(reader, n) + reader(n).value.itemKeys
    ensures CursorAt(reader, n + 1) == reader(n).value.nextCursor
    ensures Maximum(RowCounts(reader, n + 1)) == Max(Maximum(RowCounts(reader, n)), reader(n).value.rowsRead)
    ensures Maximum(ItemCounts(reader, n + 1)) == Max(Maximum(ItemCounts(reader, n)), |reader(n).value.itemKeys|)
  {
    hide Maximum, Max;
    MaximumSnoc(RowCounts(reader, n), reader(n).value.rowsRead);
    MaximumSnoc(ItemCounts(reader, n), |reader(n).value.itemKeys|);
  }

  function CursorAt(reader: Reader, n: nat): Option<string> {
    if n == 0 || reader(n - 1).None? then None else reader(n - 1).value.nextCursor
  }

  predicate PageOk(reader: Reader, n: nat, size: nat) {
    reader(n).Some? && 1 <= |reader(n).value.itemKeys| <= size && reader(n).value.rowsRead <= size + 1
  }

  /** Page n hands over a cursor, and not the one it was read with. */
  predicate Linked(reader: Reader, n: nat) {
    reader(n).Some? && reader(n).value.nextCursor.Some? && reader(n).value.nextCursor != CursorAt(reader, n)
  }

  /** The first n pages are within bounds and linked. */
  ghost predicate Clean(reader: Reader, size: nat, n: nat) {
    forall q :: 0 <= q < n ==> Linked(reader, q) && PageOk(reader, q, size)
  }

  /** The reader serves the exact inventory in as few pages as possible. */
  ghost predicate Honest(reader: Reader, count: nat, size: nat)
    requires count >= 1 && size >= 1
  {
    var n := CeilDiv(count, size);
    && (forall p :: 0 <= p < n ==> PageOk(reader, p, size))
    && (forall p :: 0 <= p < n - 1 ==> Linked(reader, p))
    && CursorAt(reader, n) == None
    && ExactInventory(Keys(reader, n), count)
  }

  lemma CleanExtends(reader: Reader, size: nat, n: nat)
    requires Clean(reader, size, n) && Linked(reader, n) && PageOk(reader, n, size)
    ensures Clean(reader, size, n + 1)
  {}

  lemma CeilDivBounds(a: nat, b: nat)
    requires a >= 1 && b >= 1
    ensures 1 <= CeilDiv(a, b)
    ensures a <= CeilDiv(a, b) * b < a + b
  {
    var n := CeilDiv(a, b);
    assert a + b - 1 == b * n + (a + b - 1) % b;
  }

  lemma {:induction false} KeysPrefix(reader: Reader, m: nat, n: nat)
    requires m <= n
    ensures Keys(reader, m) <= Keys(reader, n)
  {
    if m < n {
      KeysPrefix(reader, m, n - 1);
    }
  }

  lemma DistinctPrefix(keys: seq<string>, all: seq<string>, count: nat)
    requires keys <= all && DistinctKeys(all, count)
    ensures DistinctKeys(keys, count)
  {
    hide KeyIndex;
    assert forall j :: 0 <= j < |keys| ==> keys[j] == all[j];
  }

  /** A fault at page p, after p faultless linked pages, rules an honest reader out. */
  lemma FaultRulesOutHonesty(reader: Reader, count: nat, size: nat, p: nat)
    requires count >= 1 && size >= 1
    requires Clean(reader, size, p)
    requires !PageOk(reader, p, size) || !DistinctKeys(Keys(reader, p + 1), count) || (CursorAt(reader, p + 1).Some? && !Linked(reader, p))
    ensures !Honest(reader, count, size)
  {
    hide DistinctKeys, Keys, PageOk;
    CeilDivBounds(count, size);
    var n := CeilDiv(count, size);
    assert n <= p ==> Linked(reader, n - 1);
    if Honest(reader, count, size) && p < n {
      KeysPrefix(reader, p + 1, n);
      DistinctPrefix(Keys(reader, p + 1), Keys(reader, n), count);
    }
  }

  /** A traversal that ends after m linked pages was honest exactly when the counts are right. */
  lemma EndDecidesHonesty(reader: Reader, count: nat, size: nat, m: nat)
    requires count >= 1 && size >= 1 && m >= 1
    requires Clean(reader, size, m - 1) && PageOk(reader, m - 1, size)
    requires CursorAt(reader, m) == None && DistinctKeys(Keys(reader, m), count)
    ensures Honest(reader, count, size) <==> |Keys(reader, m)| == count && m == CeilDiv(count, size)
  {
    hide DistinctKeys, Keys, PageOk;
    CeilDivBounds(count, size);
    var n := CeilDiv(count, size);
    DistinctKeysFit(Keys(reader, m), count);
    assert n < m ==> Linked(reader, n - 1);
    assert m < n && Honest(reader, count, size) ==> Linked(reader, m - 1);
  }

  // ------------------------------------------------------------------
  // The traversal
  // ------------------------------------------------------------------

  /** The bitmap marks exactly the indices of the keys fed so far. */
  ghost predicate Bitmap(bytes: seq<bv8>, count: nat, fed: seq<string>) {
    && |bytes| == CeilDiv(count, 8)
    && DistinctKeys(fed, count)
    && forall k :: 0 <= k < count ==> k / 8 < |bytes| && (Marked(bytes, k) <==> HasIndex(fed, k))
  }

  lemma MarkingKey(before: seq<bv8>, count: nat, fed: seq<string>, key: string, i: nat)
    requires Bitmap(before, count, fed) && KeyIndex(key) == Some(i) && i < count && !HasIndex(fed, i)
    ensures i / 8 < |before|
    ensures Bitmap(WithBit(before, i), count, fed + [key])
  {
    hide KeyIndex, Mask;
    var after := WithBit(before, i);
    forall k | 0 <= k < count
      ensures Marked(after, k) <==> HasIndex(fed + [key], k)
    {
      MarkingOne(before, i, k);
      HasIndexSnoc(fed, key, k);
    }
    DistinctSnoc(fed, count, key, i);
  }

  lemma DistinctSnoc(fed: seq<string>, count: nat, key: string, i: nat)
    requires DistinctKeys(fed, count)
    requires KeyIndex(key) == Some(i)
    ensures DistinctKeys(fed + [key], count) <==> i < count && !HasIndex(fed, i)
  {
    hide KeyIndex;
    var all := fed + [key];
    assert all[|fed|] == key;
    assert forall j :: 0 <= j < |fed| ==> all[j] == fed[j];
    if HasIndex(fed, i) {
      var j :| 0 <= j < |fed| && KeyIndex(fed[j]) == Some(i);
      assert KeyIndex(all[j]) == KeyIndex(all[|fed|]);
    }
  }

  lemma NotDistinctEver(fed: seq<string>, count: nat, key: string, rest: seq<string>)
    requires !DistinctKeys(fed + [key], count)
    ensures !DistinctKeys(fed + ([key] + rest), count)
  {
    assert fed + ([key] + rest) == (fed + [key]) + rest;
    if DistinctKeys(fed + ([key] + rest), count) {
      DistinctPrefix(fed + [key], fed + ([key] + rest), count);
    }
  }

  /** The tested bit is the index's own: it is set exactly when the index was fed. */
  lemma BitOf(bytes: seq<bv8>, count: nat, fed: seq<string>, i: nat)
    requires Bitmap(bytes, count, fed) && i < count
    ensures i / 8 < |bytes|
    ensures Marked(bytes, i) <==> HasIndex(fed, i)
    ensures DistinctKeys(fed, count)
  {
    hide HasIndex, Marked, DistinctKeys;
  }

  /** One key into the bitmap: accepted exactly when the identities stay distinct and in range. */
  method AbsorbKey(seen: array<bv8>, count: nat, ghost fed: seq<string>, key: string) returns (ok: bool)
    requires Bitmap(seen[..], count, fed)
    modifies seen
    ensures ok <==> DistinctKeys(fed + [key], count)
    ensures ok ==> Bitmap(seen[..], count, fed + [key])
  {
    hide KeyIndex, Mask, DistinctKeys, Bitmap, HasIndex, WithBit;
    var matched := KeyIndex(key);
    if matched.None? {
      UnmatchedKey(fed, count, key);
      return false;
    }
    var index := matched.value;
    if index >= count {
      OutOfRangeKey(fed, count, key, index);
      return false;
    }
    BitOf(seen[..], count, fed, index);
    DistinctSnoc(fed, count, key, index);
    var byteIndex, bitIndex := index / 8, index % 8;
    if seen[byteIndex] & Mask(bitIndex) != 0 {
      return false;
    }
    MarkingKey(seen[..], count, fed, key, index);
    SetBit(seen, byteIndex, bitIndex, index);
    return true;
  }

  method SetBit(seen: array<bv8>, byteIndex: nat, bitIndex: nat, ghost i: nat)
    requires byteIndex == i / 8 < seen.Length && bitIndex == i % 8
    modifies seen
    ensures seen[..] == WithBit(old(seen[..]), i)
  {
    seen[byteIndex] := seen[byteIndex] | Mask(bitIndex);
  }

  /** One page's keys, in order, until one of them is refused. */
  method AbsorbKeys(seen: array<bv8>, count: nat, fed: seq<string>, keys: seq<string>) returns (r: Result<seq<string>, Failure>)
    requires Bitmap(seen[..], count, fed)
    modifies seen
    ensures r == if DistinctKeys(fed + keys, count) then Ok(fed + keys) else Err(IdentityChanged)
    ensures r.Ok? ==> Bitmap(seen[..], count, fed + keys)
  {
    hide KeyIndex, DistinctKeys, Marked, HasIndex;
    var all := fed;
    for j := 0 to |keys|
      invariant all == fed + keys[..j]
      invariant Bitmap(seen[..], count, all)
    {
      var key := keys[j];
      var ok := AbsorbKey(seen, count, all, key);
      assert keys == keys[..j] + ([key] + keys[j + 1..]);
      assert fed + keys == all + ([key] + keys[j + 1..]);
      if !ok {
        NotDistinctEver(all, count, key, keys[j + 1..]);
        return Err(IdentityChanged);
      }
      all := all + [key];
      assert fed + keys[..j + 1] == all;
      if |all| > count {
        // The "excess items" check: distinct indices below count cannot outnumber it.
        DistinctKeysFit(all, count);
        assert false;
      }
    }
    assert keys[..|keys|] == keys;
    return Ok(all);
  }

  lemma UnmatchedKey(fed: seq<string>, count: nat, key: string)
    requires KeyIndex(key).None?
    ensures !DistinctKeys(fed + [key], count)
  {
    hide KeyIndex;
    assert (fed + [key])[|fed|] == key;
  }

  lemma OutOfRangeKey(fed: seq<string>, count: nat, key: string, i: nat)
    requires KeyIndex(key) == Some(i) && i >= count
    ensures !DistinctKeys(fed + [key], count)
  {
    hide KeyIndex;
    assert (fed + [key])[|fed|] == key;
  }

  predicate KnownCase(name: string) { name == "small" || name == "large" }

  datatype Report = Report(assetCount: nat, pageCount: nat, maximumRowsRead: nat, maximumMaterializedItems: nat, digested: seq<string>)

  /** What a traversal that stopped after n pages found wrong with the last of them, or with all. */
  ghost predicate Fault(reader: Reader, count: nat, size: nat, n: nat, failure: Failure)
    requires size >= 1
  {
    n >= 1 && Clean(reader, size, n - 1) &&
    match failure
    case ReadFailed => reader(n - 1).None?
    case PageExceededBound =>
      reader(n - 1).Some? && (|reader(n - 1).value.itemKeys| > size || reader(n - 1).value.rowsRead > size + 1)
    case EmptyPage => reader(n - 1).Some? && reader(n - 1).value.itemKeys == []
    case IdentityChanged => reader(n - 1).Some? && !DistinctKeys(Keys(reader, n), count)
    case CursorDidNotAdvance =>
      && n >= 2 && reader(n - 1).Some? && reader(n - 2).Some?
      && reader(n - 1).value.nextCursor.Some? && reader(n - 1).value.nextCursor == reader(n - 2).value.nextCursor
    case OmittedInventory =>
      && reader(n - 1).Some? && reader(n - 1).value.nextCursor.None?
      && (|Keys(reader, n)| != count || n != CeilDiv(count, size))
    case _ => false
  }

  /** The inventory as served: every page there, within bounds and leading to another, up to the last, which ends it. */
  ghost predicate Served(reader: Reader, count: nat, size: nat, n: nat) {
    && n >= 1 && n * size - size < count <= n * size
    && (forall p :: 0 <= p < n ==>
          && reader(p).Some?
          && 1 <= |reader(p).value.itemKeys| <= size && reader(p).value.rowsRead <= size + 1
          && (reader(p).value.nextCursor.None? <==> p == n - 1)
          && (0 < p < n - 1 && reader(p - 1).Some? ==> reader(p).value.nextCursor != reader(p - 1).value.nextCursor))
    && |Keys(reader, n)| == count
    && (forall k :: 0 <= k < count ==> HasIndex(Keys(reader, n), k))
  }

  /** Being honest is having served the inventory. */
  lemma HonestExactly(reader: Reader, count: nat, size: nat)
    requires count >= 1 && size >= 1
    ensures Honest(reader, count, size) <==> Served(reader, count, size, CeilDiv(count, size))
  {
    hide Keys, HasIndex, CeilDiv, DistinctKeys;
    var n := CeilDiv(count, size);
    CeilDivBounds(count, size);
    if Honest(reader, count, size) {
      forall p | 0 <= p < n
        ensures reader(p).Some? && (reader(p).value.nextCursor.None? <==> p == n - 1)
        ensures 1 <= |reader(p).value.itemKeys| <= size && reader(p).value.rowsRead <= size + 1
      {
        assert PageOk(reader, p, size) && (p < n - 1 ==> Linked(reader, p));
      }
      forall p | 0 < p < n - 1
        ensures reader(p).value.nextCursor != reader(p - 1).value.nextCursor
      {
        assert Linked(reader, p);
      }
    }
    if Served(reader, count, size, n) {
      CoveringIsDistinct(Keys(reader, n), count);
      forall p | 0 <= p < n - 1
        ensures Linked(reader, p)
      {
        assert p > 0 ==> reader(p - 1).Some?;
      }
    }
  }

  /** As many keys as indices, every index among them: no key is wasted on another. */
  lemma CoveringIsDistinct(keys: seq<string>, count: nat)
    requires |keys| == count && forall k :: 0 <= k < count ==> HasIndex(keys, k)
    ensures DistinctKeys(keys, count)
  {
    hide KeyIndex;
    var s := IndexSet(keys);
    IndexSetSize(keys);
    forall k | k in Below(count)
      ensures k in s
    {
      assert HasIndex(keys, k);
    }
    assert s == Below(count) + (s - Below(count));
    assert s == Below(count);
    FullIndexSet(keys, count);
  }

  lemma {:induction false} IndexSetSize(keys: seq<string>)
    ensures |IndexSet(keys)| <= |keys|
    ensures forall k: nat :: k in IndexSet(keys) <==> HasIndex(keys, k)
  {
    hide KeyIndex;
    if keys != [] {
      var front, last := keys[..|keys| - 1], keys[|keys| - 1];
      assert keys == front + [last];
      IndexSetSize(front);
      forall k: nat
        ensures HasIndex(keys, k) <==> HasIndex(front, k) || KeyIndex(last) == Some(k)
      {
        HasIndexSnoc(front, last, k);
      }
      hide HasIndex;
    }
  }

  /** A list whose index set is as large as the list names different indices. */
  lemma {:induction false} FullIndexSet(keys: seq<string>, count: nat)
    requires |IndexSet(keys)| == |keys| && forall k :: k in IndexSet(keys) ==> k < count
    ensures DistinctKeys(keys, count)
  {
    hide KeyIndex;
    if keys != [] {
      var front, last := keys[..|keys| - 1], keys[|keys| - 1];
      assert keys == front + [last];
      IndexSetSize(front);
      assert KeyIndex(last).Some? && KeyIndex(last).value !in IndexSet(front);
      FullIndexSet(front, count);
      DistinctSnoc(front, count, last, KeyIndex(last).value);
      hide DistinctKeys, HasIndex;
    }
  }

  /** The report of a traversal that served the inventory in n pages. */
  ghost predicate Reports(reader: Reader, count: nat, size: nat, n: nat, report: Report)
    requires size >= 1
  {
    && ExactInventory(report.digested, count)
    && report.digested == Keys(reader, n)
    && report.assetCount == count
    && report.pageCount == n
    && n == CeilDiv(count, size) && 0 <= n * size - count < size
    && report.maximumRowsRead == Maximum(RowCounts(reader, n)) <= size + 1
    && report.maximumMaterializedItems == Maximum(ItemCounts(reader, n)) <= size
  }

  /**
   Whatever the reader does, the traversal stops within count + 1 reads; it
   succeeds exactly on honest readers, and then what it digested is the whole
   inventory and the unused slots total less than one page.
   */
  method TraverseInventory(reader: Reader, caseName: string, count: int, size: int)
    returns (r: Result<Report, Failure>, pagesRead: nat)
    ensures !KnownCase(caseName) || count < 1 ==> r == Err(InvalidCase) && pagesRead == 0
    ensures KnownCase(caseName) && count >= 1 && !(1 <= size <= 50) ==> r == Err(InvalidPageSize) && pagesRead == 0
    ensures r != Err(ExcessItems)
    ensures KnownCase(caseName) && count >= 1 && 1 <= size <= 50 ==>
              && pagesRead <= count + 1
              && (r.Ok? <==> Honest(reader, count, size))
              && (r.Err? ==> Fault(reader, count, size, pagesRead, r.error))
    ensures r.Ok? ==> count >= 1 && size >= 1 && Reports(reader, count, size, pagesRead, r.value)
  {
    hide Honest, Clean, KnownCase, Reports, Keys, DistinctKeys, CeilDiv;
    if !KnownCase(caseName) || count < 1 {
      return Err(InvalidCase), 0;
    }
    if !(1 <= size <= 50) {
      return Err(InvalidPageSize), 0;
    }
    r, pagesRead := TraversePages(reader, count, size);
  }

  /** The loop over the pages of a valid case. */
  method TraversePages(reader: Reader, count: nat, size: nat) returns (r: Result<Report, Failure>, pagesRead: nat)
    requires count >= 1 && size >= 1
    ensures pagesRead <= count + 1
    ensures r.Ok? <==> Honest(reader, count, size)
    ensures r.Ok? ==> Reports(reader, count, size, pagesRead, r.value)
    ensures r.Err? ==> Fault(reader, count, size, pagesRead, r.error)
  {
    hide DistinctKeys, Honest, ExactInventory, Bitmap, CeilDiv, Keys, CursorAt, Maximum, RowCounts, ItemCounts, Clean, Fault;
    pagesRead := 0;
    var cursor: Option<string> := None;
    var fed: seq<string> := [];
    var rows, items := 0, 0;
    var seen := new bv8[CeilDiv(count, 8)](_ => 0);
    EmptyBitmap(seen[..], count);
    NothingRead(reader);
    while true
      invariant fed == Keys(reader, pagesRead) && cursor == CursorAt(reader, pagesRead)
      invariant Bitmap(seen[..], count, fed)
      invariant Clean(reader, size, pagesRead)
      invariant pagesRead <= |fed| <= count
      invariant rows == Maximum(RowCounts(reader, pagesRead)) <= size + 1
      invariant items == Maximum(ItemCounts(reader, pagesRead)) <= size
      decreases count - |fed|
    {
      var page := reader(pagesRead);
      pagesRead := pagesRead + 1;
      PageProblemExactly(reader, count, size, pagesRead - 1);
      if page.None? {
        return Err(ReadFailed), pagesRead;
      }
      PageAdds(reader, pagesRead - 1);
      rows := Max(rows, page.value.rowsRead);
      items := Max(items, |page.value.itemKeys|);
      if |page.value.itemKeys| > size || page.value.rowsRead > size + 1 {
        return Err(PageExceededBound), pagesRead;
      }
      if page.value.itemKeys == [] {
        return Err(EmptyPage), pagesRead;
      }
      var absorbed := AbsorbKeys(seen, count, fed, page.value.itemKeys);
      if absorbed.Err? {
        IdentityFault(reader, count, size, pagesRead - 1);
        return Err(absorbed.error), pagesRead;
      }
      fed := absorbed.value;
      DistinctKeysFit(fed, count);
      if page.value.nextCursor.None? {
        break;
      }
      if page.value.nextCursor == cursor {
        StuckCursor(reader, count, size, pagesRead - 1);
        return Err(CursorDidNotAdvance), pagesRead;
      }
      cursor := page.value.nextCursor;
      CleanExtends(reader, size, pagesRead - 1);
    }
    EndDecidesHonesty(reader, count, size, pagesRead);
    CeilDivBounds(count, size);
    if |fed| != count || pagesRead != CeilDiv(count, size) {
      OmissionFault(reader, count, size, pagesRead);
      return Err(OmittedInventory), pagesRead;
    }
    return Ok(Report(|fed|, pagesRead, rows, items, fed)), pagesRead;
  }

  /** A page that is missing, too large or empty is that fault, and no honest reader has one. */
  lemma PageProblemExactly(reader: Reader, count: nat, size: nat, p: nat)
    requires count >= 1 && size >= 1 && Clean(reader, size, p)
    ensures !PageOk(reader, p, size) ==> !Honest(reader, count, size)
    ensures reader(p).None? ==> !PageOk(reader, p, size) && Fault(reader, count, size, p + 1, ReadFailed)
    ensures reader(p).Some? && (|reader(p).value.itemKeys| > size || reader(p).value.rowsRead > size + 1) ==>
              !PageOk(reader, p, size) && Fault(reader, count, size, p + 1, PageExceededBound)
    ensures reader(p).Some? && reader(p).value.itemKeys == [] ==>
              !PageOk(reader, p, size) && Fault(reader, count, size, p + 1, EmptyPage)
    ensures reader(p).Some? && 1 <= |reader(p).value.itemKeys| <= size && reader(p).value.rowsRead <= size + 1 ==>
              PageOk(reader, p, size)
  {
    hide Honest, Clean;
    if !PageOk(reader, p, size) {
      FaultRulesOutHonesty(reader, count, size, p);
    }
  }

  lemma IdentityFault(reader: Reader, count: nat, size: nat, p: nat)
    requires count >= 1 && size >= 1 && Clean(reader, size, p) && reader(p).Some?
    requires !DistinctKeys(Keys(reader, p + 1), count)
    ensures Fault(reader, count, size, p + 1, IdentityChanged) && !Honest(reader, count, size)
  {
    hide Honest, Clean, DistinctKeys, Keys;
    FaultRulesOutHonesty(reader, count, size, p);
  }

  lemma StuckCursor(reader: Reader, count: nat, size: nat, p: nat)
    requires count >= 1 && size >= 1 && Clean(reader, size, p) && reader(p).Some?
    requires reader(p).value.nextCursor.Some? && reader(p).value.nextCursor == CursorAt(reader, p)
    ensures Fault(reader, count, size, p + 1, CursorDidNotAdvance) && !Honest(reader, count, size)
  {
    assert p >= 1 && Linked(reader, p - 1);
    FaultRulesOutHonesty(reader, count, size, p);
    hide Honest, Clean;
  }

  lemma OmissionFault(reader: Reader, count: nat, size: nat, n: nat)
    requires size >= 1 && n >= 1 && Clean(reader, size, n - 1) && reader(n - 1).Some? && CursorAt(reader, n) == None
    requires |Keys(reader, n)| != count || n != CeilDiv(count, size)
    ensures Fault(reader, count, size, n, OmittedInventory)
  {
    hide Clean, Keys, CeilDiv;
  }

  lemma NothingRead(reader: Reader)
    ensures Keys(reader, 0) == [] && CursorAt(reader, 0) == None
    ensures Maximum(RowCounts(reader, 0)) == 0 && Maximum(ItemCounts(reader, 0)) == 0
    ensures forall size: nat :: Clean(reader, size, 0)
  {}

  lemma EmptyBitmap(bytes: seq<bv8>, count: nat)
    requires |bytes| == CeilDiv(count, 8) && forall i :: 0 <= i < |bytes| ==> bytes[i] == 0
    ensures Bitmap(bytes, count, [])
  {
    forall k | 0 <= k < count
      ensures k / 8 < |bytes| && !Marked(bytes, k)
    {
      assert k / 8 < |bytes|;
      assert bytes[k / 8] == 0;
    }
  }

  // ------------------------------------------------------------------
  // Indices name keys
  // ------------------------------------------------------------------

  lemma {:induction false} SameLengthSameValue(s: string, t: string)
    requires AllDigits(s) && AllDigits(t) && |s| == |t| && DecimalValue(s) == DecimalValue(t)
    ensures s == t
  {
    if s != [] {
      var n := |s| - 1;
      assert DigitValue(s[n]) < 10 && DigitValue(t[n]) < 10;
      SameLengthSameValue(s[..n], t[..n]);
      assert s == s[..n] + [s[n]] && t == t[..n] + [t[n]];
    }
  }

  /** Eight digits leave no two spellings of an index: different keys have different indices. */
  lemma KeyIndexInjective(a: string, b: string)
    requires KeyIndex(a).Some? && KeyIndex(a) == KeyIndex(b)
    ensures a == b
  {
    SameLengthSameValue(a[16..], b[16..]);
    assert a == a[..16] + a[16..] && b == b[..16] + b[16..];
  }
}
