/**
 What one traversal says about order: every order of an inventory is served by some
 honest reader, so acceptance implies an order only where there is just one to have.
 */
module InventoryOrder {
  import opened Wrappers
  import opened Text
  import opened InventoryTraversal

  // ------------------------------------------------------------------
  // Keys and their indices
  // ------------------------------------------------------------------

  lemma EightDigits()
    ensures PowerOfTen(8) == 100_000_000
  {
    assert PowerOfTen(4) == 10_000;
  }

  /** The last `width` decimal digits of n, with leading zeros. */
  function Padded(n: nat, width: nat): string {
    if width == 0 then [] else Padded(n / 10, width - 1) + ['0' + (n % 10) as char]
  }

  lemma {:induction false} PaddedRoundTrip(n: nat, width: nat)
    requires n < PowerOfTen(width)
    ensures |Padded(n, width)| == width && AllDigits(Padded(n, width)) && DecimalValue(Padded(n, width)) == n
  {
    if width > 0 {
      PaddedRoundTrip(n / 10, width - 1);
      var d := Padded(n, width);
      assert d[..|d| - 1] == Padded(n / 10, width - 1);
      assert DigitValue(d[|d| - 1]) == n % 10;
    }
  }

  lemma {:induction false} DecimalBelowPower(s: string)
    requires AllDigits(s)
    ensures DecimalValue(s) < PowerOfTen(|s|)
  {
    if s != [] {
      DecimalBelowPower(s[..|s| - 1]);
    }
  }

  /** No key reaches index 100 000 000. */
  lemma IndexBound(key: string)
    ensures KeyIndex(key).Some? ==> KeyIndex(key).value < 100_000_000
  {
    if KeyIndex(key).Some? {
      DecimalBelowPower(key[16..]);
      EightDigits();
    }
  }

  function KeyFor(n: nat): string {
    KEY_PREFIX + Padded(n, 8)
  }

  lemma KeyForHasIndex(n: nat)
    requires n < 100_000_000
    ensures KeyIndex(KeyFor(n)) == Some(n)
  {
    EightDigits();
    PaddedRoundTrip(n, 8);
    hide Padded, DecimalValue, PowerOfTen;
    var key := KeyFor(n);
    assert |KEY_PREFIX| == 16;
    assert key[..16] == KEY_PREFIX && key[16..] == Padded(n, 8);
  }

  // ------------------------------------------------------------------
  // A reader that pages a given list
  // ------------------------------------------------------------------

  /** Where page n of `keys` starts. */
  function PageStart(keys: seq<string>, size: nat, n: nat): (k: nat)
    ensures k <= |keys|
  {
    if n == 0 then 0
    else
      var k := PageStart(keys, size, n - 1) + size;
      if k < |keys| then k else |keys|
  }

  lemma {:induction false} PageStartValue(keys: seq<string>, size: nat, n: nat)
    ensures PageStart(keys, size, n) == if n * size < |keys| then n * size else |keys|
  {
    if n > 0 {
      PageStartValue(keys, size, n - 1);
      assert n * size == (n - 1) * size + size;
    }
  }

  /** Page n of `keys`: a full page unless it is the last, one row of lookahead, and a cursor when more follow. */
  function PageOf(keys: seq<string>, size: nat, n: nat): ScalePage {
    var start, end := PageStart(keys, size, n), PageStart(keys, size, n + 1);
    ScalePage(keys[start..end],
              if end < |keys| then Some(Decimal(n + 1)) else None,
              end - start + if end < |keys| then 1 else 0)
  }

  function PagedReader(keys: seq<string>, size: nat): Reader {
    (n: nat) => Some(PageOf(keys, size, n))
  }

  lemma {:induction false} PagedKeys(keys: seq<string>, size: nat, n: nat)
    ensures Keys(PagedReader(keys, size), n) == keys[..PageStart(keys, size, n)]
  {
    if n > 0 {
      PagedKeys(keys, size, n - 1);
    }
  }

  lemma PagedCursor(keys: seq<string>, size: nat, n: nat)
    ensures CursorAt(PagedReader(keys, size), n)
         == if n > 0 && PageStart(keys, size, n) < |keys| then Some(Decimal(n)) else None
  {
    hide Decimal, PageStart;
  }

  lemma PagedPage(keys: seq<string>, size: nat, n: nat)
    requires size >= 1 && PageStart(keys, size, n) < |keys|
    ensures PageOk(PagedReader(keys, size), n, size)
    ensures PageStart(keys, size, n + 1) < |keys| ==> Linked(PagedReader(keys, size), n)
  {
    var start, end := PageStart(keys, size, n), PageStart(keys, size, n + 1);
    assert end == if start + size < |keys| then start + size else |keys|;
    PagedCursor(keys, size, n);
    DecimalRoundTrip(n);
    DecimalRoundTrip(n + 1);
    hide Decimal, DecimalValue, PageStart, CursorAt, AllDigits;
    assert PagedReader(keys, size)(n) == Some(PageOf(keys, size, n));
  }

  /** The pages before the last start and end inside the list, and the last one ends it. */
  lemma PageBounds(keys: seq<string>, size: nat, p: nat)
    requires |keys| >= 1 && size >= 1
    ensures p < CeilDiv(|keys|, size) ==> PageStart(keys, size, p) < |keys|
    ensures PageStart(keys, size, CeilDiv(|keys|, size)) == |keys|
  {
    hide CeilDiv, PageStart;
    var n := CeilDiv(|keys|, size);
    CeilDivBounds(|keys|, size);
    PageStartValue(keys, size, n);
    PageStartValue(keys, size, p);
    if p < n {
      EarlierPage(p, n, size);
    }
  }

  lemma {:induction false} EarlierPage(p: nat, n: nat, size: nat)
    requires p < n
    ensures p * size + size <= n * size
  {
    assert n * size == (n - 1) * size + size;
    if p < n - 1 {
      EarlierPage(p, n - 1, size);
    }
  }

  /** Every order of an inventory is served, unchanged, by an honest reader. */
  lemma EveryOrderIsServed(keys: seq<string>, count: nat, size: nat)
    requires count >= 1 && size >= 1 && ExactInventory(keys, count)
    ensures Honest(PagedReader(keys, size), count, size)
    ensures Keys(PagedReader(keys, size), CeilDiv(count, size)) == keys
  {
    hide DistinctKeys, HasIndex, PageStart, PageOk, Linked, CursorAt, PagedReader, Keys;
    var reader, n := PagedReader(keys, size), CeilDiv(count, size);
    CeilDivBounds(count, size);
    forall p | 0 <= p < n
      ensures PageOk(reader, p, size) && (p < n - 1 ==> Linked(reader, p))
    {
      PageBounds(keys, size, p);
      PageBounds(keys, size, p + 1);
      PagedPage(keys, size, p);
    }
    PageBounds(keys, size, n);
    PagedCursor(keys, size, n);
    PagedKeys(keys, size, n);
    assert keys[..|keys|] == keys;
  }

  // ------------------------------------------------------------------
  // When acceptance implies order
  // ------------------------------------------------------------------

  /** The indices of the keys ascend. */
  ghost predicate InOrder(keys: seq<string>) {
    forall i, j :: 0 <= i < j < |keys| && KeyIndex(keys[i]).Some? && KeyIndex(keys[j]).Some? ==>
                     KeyIndex(keys[i]).value < KeyIndex(keys[j]).value
  }

  function DescendingKeys(count: nat): seq<string> {
    seq(count, j requires 0 <= j < count => KeyFor(count - 1 - j))
  }

  lemma DescendingIsExact(count: nat)
    requires count <= 100_000_000
    ensures ExactInventory(DescendingKeys(count), count)
    ensures forall j :: 0 <= j < count ==> KeyIndex(DescendingKeys(count)[j]) == Some(count - 1 - j)
  {
    hide KeyFor, KeyIndex;
    forall j | 0 <= j < count
      ensures KeyIndex(DescendingKeys(count)[j]) == Some(count - 1 - j)
    {
      KeyForHasIndex(count - 1 - j);
    }
    DistinctKeysFit(DescendingKeys(count), count);
  }

  /** Descending inventories of any size up to the last eight-digit key are accepted. */
  lemma DescendingInventoryIsAccepted(count: nat, size: nat)
    requires 2 <= count <= 100_000_000 && size >= 1
    ensures var reader := PagedReader(DescendingKeys(count), size);
            Honest(reader, count, size) && !InOrder(Keys(reader, CeilDiv(count, size)))
  {
    DescendingIsExact(count);
    var keys := DescendingKeys(count);
    EveryOrderIsServed(keys, count, size);
    hide KeyIndex, Honest, DescendingKeys, PagedReader, ExactInventory;
    assert KeyIndex(keys[0]) == Some(count - 1 - 0) && KeyIndex(keys[1]) == Some(count - 1 - 1);
  }

  /** Beyond the last eight-digit key there is no inventory to serve. */
  lemma NoInventoryBeyondKeys(keys: seq<string>, count: nat)
    requires count > 100_000_000
    ensures !ExactInventory(keys, count)
  {
    hide KeyIndex;
    forall j | 0 <= j < |keys|
      ensures KeyIndex(keys[j]) != Some(100_000_000)
    {
      IndexBound(keys[j]);
    }
    assert !HasIndex(keys, 100_000_000);
  }

  /** Acceptance guarantees ascending keys exactly when there is one key, or more than eight digits can name. */
  lemma AcceptedInOrderExactlyWhen(count: nat, size: nat)
    requires count >= 1 && size >= 1
    ensures (forall reader: Reader :: Honest(reader, count, size) ==> InOrder(Keys(reader, CeilDiv(count, size))))
            <==> count == 1 || count > 100_000_000
  {
    if 2 <= count <= 100_000_000 {
      DescendingInventoryIsAccepted(count, size);
    } else {
      forall reader: Reader | Honest(reader, count, size)
        ensures InOrder(Keys(reader, CeilDiv(count, size)))
      {
        var keys := Keys(reader, CeilDiv(count, size));
        if count > 100_000_000 {
          NoInventoryBeyondKeys(keys, count);
        }
        assert |keys| == 1;
      }
    }
  }
}
