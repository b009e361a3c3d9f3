/**
 The bounded session store of both panels: an ordered dictionary that moves a
 session to the back when it is used and drops from the front when it is full.
 */
module SessionStore {
  import opened Wrappers

  /** An insertion-ordered dictionary, oldest entry first. */
  type Ordered<S> = seq<(string, S)>

  function Keys<S>(d: Ordered<S>): seq<string> {
    seq(|d|, i requires 0 <= i < |d| => d[i].0)
  }

  predicate Distinct(s: seq<string>) {
    forall i, j :: 0 <= i < j < |s| ==> s[i] != s[j]
  }

  function Index(s: seq<string>, x: string): (i: nat)
    requires x in s
    ensures i < |s| && s[i] == x
  {
    if s[0] == x then 0 else 1 + Index(s[1..], x)
  }

  function Without<T>(s: seq<T>, i: nat): seq<T>
    requires i < |s|
  {
    s[..i] + s[i + 1..]
  }

  function Last<T>(s: seq<T>, n: nat): (r: seq<T>)
    ensures |r| <= n && |r| <= |s| && r == s[|s| - |r|..]
    ensures |r| == n || r == s
  {
    if |s| <= n then s else s[|s| - n..]
  }

  /** The dictionary after one lookup, the identifier answered and its session. */
  function Looked<S>(d: Ordered<S>, maximum: nat, wanted: Option<string>, minted: string, created: S)
    : (Ordered<S>, string, S)
  {
    if wanted.Some? && wanted.value in Keys(d) then
      var i := Index(Keys(d), wanted.value);
      (Without(d, i) + [d[i]], wanted.value, d[i].1)
    else if minted in Keys(d) then
      (Last(d[Index(Keys(d), minted) := (minted, created)], maximum), minted, created)
    else
      (Last(d + [(minted, created)], maximum), minted, created)
  }

  class Store<S> {
    var states: Ordered<S>
    const maximum: nat

    constructor (maximum: nat)
      ensures this.maximum == maximum && states == []
    {
      this.maximum := maximum;
      states := [];
    }

    /** `minted` is the random token and `created` the new session of a miss. */
    method Get(wanted: Option<string>, minted: string, created: S) returns (identifier: string, state: S, isNew: bool)
      modifies this
      ensures (states, identifier, state) == Looked(old(states), maximum, wanted, minted, created)
      ensures isNew == !(wanted.Some? && wanted.value in Keys(old(states)))
      ensures !isNew ==> wanted == Some(identifier) && (identifier, state) in old(states)
      ensures isNew ==> identifier == minted && state == created
    {
      if wanted.Some? && wanted.value in Keys(states) {
        var i := Index(Keys(states), wanted.value);
        var found := states[i];
        states := states[..i] + states[i + 1..];
        states := states + [found];
        return wanted.value, found.1, false;
      }
      if minted in Keys(states) {
        states := states[Index(Keys(states), minted) := (minted, created)];
      } else {
        states := states + [(minted, created)];
      }
      ghost var full := states;
      while |states| > maximum
        invariant |states| <= |full| && states == full[|full| - |states|..]
        invariant |states| >= maximum || states == full
      {
        states := states[1..];
      }
      return minted, created, true;
    }
  }

  // ------------------------------------------------------------------
  // The store is a least-recently-used cache
  // ------------------------------------------------------------------

  datatype Call<S> = Call(wanted: Option<string>, minted: string, created: S)

  function Run<S>(maximum: nat, calls: seq<Call<S>>): Ordered<S> {
    if calls == [] then []
    else
      var c := calls[|calls| - 1];
      Looked(Run(maximum, calls[..|calls| - 1]), maximum, c.wanted, c.minted, c.created).0
  }

  /** A recency list after one more use of `x`. */
  function Used(r: seq<string>, x: string): seq<string> {
    if x in r then Without(r, Index(r, x)) + [x] else r + [x]
  }

  /** The unbounded recency list: every identifier used, once each, latest use last. */
  function Recency(used: seq<string>): (r: seq<string>)
    ensures forall x :: x in r <==> x in used
    ensures Distinct(r)
  {
    if used == [] then []
    else
      var before, x := Recency(used[..|used| - 1]), used[|used| - 1];
      assert used == used[..|used| - 1] + [x];
      assert x in before ==> Distinct(Used(before, x)) && forall y :: y in Used(before, x) <==> y in before by {
        if x in before {
          WithoutIsRemoval(before, Index(before, x));
        }
      }
      Used(before, x)
  }

  /**
   The identifiers a cache with that bound answers, from the calls alone: the wanted one
   when it is among the `maximum` most recently used, and otherwise the minted one.
   */
  function Answers<S>(maximum: nat, calls: seq<Call<S>>): seq<string> {
    if calls == [] then []
    else
      var used, c := Answers(maximum, calls[..|calls| - 1]), calls[|calls| - 1];
      used + [if c.wanted.Some? && c.wanted.value in Last(Recency(used), maximum) then c.wanted.value else c.minted]
  }

  /** Where `x` was last used. */
  function LastUse(used: seq<string>, x: string): (i: nat)
    requires x in used
    ensures i < |used| && used[i] == x && forall j :: i < j < |used| ==> used[j] != x
  {
    if used[|used| - 1] == x then |used| - 1 else LastUse(used[..|used| - 1], x)
  }

  lemma LastUseSnoc(used: seq<string>, x: string, y: string)
    requires y in used + [x]
    ensures y == x ==> LastUse(used + [x], y) == |used|
    ensures y != x ==> y in used && LastUse(used + [x], y) == LastUse(used, y)
  {
    hide LastUse;
    var all := used + [x];
    assert all[|used|] == x;
    if y != x {
      assert all[LastUse(used, y)] == y;
    }
  }

  /** The recency list is in the order of last use. */
  lemma {:induction false} RecencyByLastUse(used: seq<string>, i: nat, j: nat)
    requires i < j < |Recency(used)|
    ensures Recency(used)[i] in used && Recency(used)[j] in used
    ensures LastUse(used, Recency(used)[i]) < LastUse(used, Recency(used)[j])
  {
    var before, x := used[..|used| - 1], used[|used| - 1];
    assert used == before + [x];
    var r, r' := Recency(before), Recency(used);
    assert r' == Used(r, x);
    hide Recency, LastUse, Used, Distinct;
    var i', j' := UsedKeepsOrder(r, x, i, j);
    LastUseSnoc(before, x, r'[i]);
    LastUseSnoc(before, x, r'[j]);
    if j < |r'| - 1 {
      RecencyByLastUse(before, i', j');
    }
  }

  /** The used identifier goes last, and the others keep their order. */
  lemma UsedKeepsOrder(r: seq<string>, x: string, i: nat, j: nat) returns (i': nat, j': nat)
    requires Distinct(r) && i < j < |Used(r, x)|
    ensures var u := Used(r, x);
            && u[i] != x && (j == |u| - 1 ==> u[j] == x)
            && (j < |u| - 1 ==> u[j] != x && i' < j' < |r| && r[i'] == u[i] && r[j'] == u[j])
  {
    if x in r {
      var k := Index(r, x);
      hide Index;
      i', j' := if i < k then i else i + 1, if j < k then j else j + 1;
      WithoutAt(r, k, i);
      if j < |r| - 1 {
        WithoutAt(r, k, j);
      }
      hide Without;
    } else {
      i', j' := i, j;
    }
  }

  lemma WithoutAt<T>(s: seq<T>, k: nat, i: nat)
    requires k < |s| && i < |s| - 1
    ensures |Without(s, k)| == |s| - 1
    ensures Without(s, k)[i] == s[if i < k then i else i + 1]
  {}

  lemma WithoutIsRemoval(s: seq<string>, i: nat)
    requires i < |s| && Distinct(s)
    ensures Distinct(Without(s, i))
    ensures s[i] !in Without(s, i)
    ensures forall x :: x in Without(s, i) <==> x in s && x != s[i]
  {
    var w := Without(s, i);
    forall x | x in s && x != s[i]
      ensures x in w
    {
      var j := Index(s, x);
      assert w[if j < i then j else j - 1] == x;
    }
  }

  /** The random tokens of the misses never repeat, and never name an earlier answer. */
  ghost predicate FreshTokens<S>(maximum: nat, calls: seq<Call<S>>) {
    forall i :: 0 <= i < |calls| ==> calls[i].minted !in Answers(maximum, calls[..i])
  }

  /** The session created by the call that first answered `id`. */
  function Created<S>(maximum: nat, calls: seq<Call<S>>, id: string): (s: S)
    requires id in Answers(maximum, calls)
  {
    var before := calls[..|calls| - 1];
    if id in Answers(maximum, before) then Created(maximum, before, id) else calls[|calls| - 1].created
  }

  lemma IndexIs(s: seq<string>, x: string, i: nat)
    requires Distinct(s) && i < |s| && s[i] == x
    ensures x in s && Index(s, x) == i
  {
    hide Index;
  }

  /** Dropping the front of the recency list commutes with using an identifier still retained. */
  lemma UseWithinWindow(r: seq<string>, n: nat, x: string)
    requires Distinct(r) && x in Last(r, n)
    ensures Last(Used(r, x), n) == Used(Last(r, n), x)
  {
    hide Index, Without, Distinct;
    var l := Last(r, n);
    var k := |r| - |l|;
    var j := Index(l, x);
    IndexIs(r, x, k + j);
    WithoutAfter(r, k, j);
    SuffixOfUse(Without(r, k + j), Without(l, j), x, k);
    assert |Used(r, x)| == |r|;
  }

  lemma SuffixOfUse(whole: seq<string>, suffix: seq<string>, x: string, k: nat)
    requires k <= |whole| && whole[k..] == suffix
    ensures (whole + [x])[k..] == suffix + [x]
  {}

  lemma WithoutAfter<T>(s: seq<T>, k: nat, j: nat)
    requires k + j < |s|
    ensures |Without(s, k + j)| == |s| - 1
    ensures Without(s, k + j)[k..] == Without(s[k..], j)
  {}

  lemma LookupUsesKey<S>(d: Ordered<S>, r: seq<string>, maximum: nat, c: Call<S>)
    requires Distinct(r) && Keys(d) == Last(r, maximum) && c.minted !in r
    ensures var used := if c.wanted.Some? && c.wanted.value in Last(r, maximum) then c.wanted.value else c.minted;
            Keys(Looked(d, maximum, c.wanted, c.minted, c.created).0) == Last(Used(r, used), maximum)
  {
    if c.wanted.Some? && c.wanted.value in Keys(d) {
      UseWithinWindow(r, maximum, c.wanted.value);
      KeysAfterUse(d, Index(Keys(d), c.wanted.value));
    } else {
      KeysAfterMiss(d, r, maximum, c.minted, c.created);
    }
  }

  lemma KeysAfterUse<S>(d: Ordered<S>, i: nat)
    requires i < |d|
    ensures Keys(Without(d, i) + [d[i]]) == Without(Keys(d), i) + [Keys(d)[i]]
  {}

  lemma KeysAfterMiss<S>(d: Ordered<S>, r: seq<string>, maximum: nat, minted: string, created: S)
    requires Keys(d) == Last(r, maximum) && minted !in r
    ensures minted !in Keys(d)
    ensures Keys(Last(d + [(minted, created)], maximum)) == Last(r + [minted], maximum)
  {
    assert Keys(d + [(minted, created)]) == Keys(d) + [minted];
    assert Keys(Last(d + [(minted, created)], maximum)) == Last(Keys(d) + [minted], maximum);
  }

  /** A lookup answers the wanted identifier with its stored session, or the pair it adds. */
  lemma LookupKeepsPairs<S>(d: Ordered<S>, maximum: nat, wanted: Option<string>, minted: string, created: S)
    ensures var (d', id, s) := Looked(d, maximum, wanted, minted, created);
            if wanted.Some? && wanted.value in Keys(d)
            then id == wanted.value && (id, s) in d && forall e :: e in d' ==> e in d
            else (id, s) == (minted, created) && forall e :: e in d' ==> e in d || e == (minted, created)
  {}

  /** The pair holds the session created for its identifier. */
  ghost predicate PairOk<S>(maximum: nat, calls: seq<Call<S>>, e: (string, S)) {
    e.0 in Answers(maximum, calls) && e.1 == Created(maximum, calls, e.0)
  }

  lemma PairStays<S>(maximum: nat, calls: seq<Call<S>>, e: (string, S))
    requires calls != [] && PairOk(maximum, calls[..|calls| - 1], e)
    ensures PairOk(maximum, calls, e)
  {
    hide Recency, Last;
  }

  lemma NewPairOk<S>(maximum: nat, calls: seq<Call<S>>)
    requires calls != []
    requires var used, c := Answers(maximum, calls[..|calls| - 1]), calls[|calls| - 1];
             c.minted !in used && !(c.wanted.Some? && c.wanted.value in Last(Recency(used), maximum))
    ensures PairOk(maximum, calls, (calls[|calls| - 1].minted, calls[|calls| - 1].created))
  {
    hide Recency, Last;
    var all := Answers(maximum, calls);
    assert all[|all| - 1] == calls[|calls| - 1].minted;
  }

  lemma FreshBefore<S>(maximum: nat, calls: seq<Call<S>>)
    requires calls != [] && FreshTokens(maximum, calls)
    ensures FreshTokens(maximum, calls[..|calls| - 1])
    ensures calls[|calls| - 1].minted !in Answers(maximum, calls[..|calls| - 1])
  {
    hide Answers;
    var before := calls[..|calls| - 1];
    forall i | 0 <= i < |before|
      ensures before[i].minted !in Answers(maximum, before[..i])
    {
      assert before[..i] == calls[..i];
      assert before[i] == calls[i];
    }
  }

  /**
   After any run of lookups with fresh tokens, the stored keys are the last
   `maximum` entries of the recency list of the identifiers that a cache answers.
   */
  lemma {:induction false} StoreIsLru<S>(maximum: nat, calls: seq<Call<S>>)
    requires FreshTokens(maximum, calls)
    ensures Keys(Run(maximum, calls)) == Last(Recency(Answers(maximum, calls)), maximum)
  {
    if calls != [] {
      var before, c := calls[..|calls| - 1], calls[|calls| - 1];
      FreshBefore(maximum, calls);
      StoreIsLru(maximum, before);
      var used := Answers(maximum, before);
      hide Looked, Index;
      LookupUsesKey(Run(maximum, before), Recency(used), maximum, c);
      assert Answers(maximum, calls)[..|used|] == used;
    }
  }

  /** Every stored session is the one created for its identifier. */
  lemma {:induction false} StoredSessionsAreTheirs<S>(maximum: nat, calls: seq<Call<S>>)
    requires FreshTokens(maximum, calls)
    ensures forall e :: e in Run(maximum, calls) ==> PairOk(maximum, calls, e)
  {
    hide Looked, PairOk, FreshTokens, Keys, Answers, Recency, Last;
    if calls != [] {
      var before, c := calls[..|calls| - 1], calls[|calls| - 1];
      FreshBefore(maximum, calls);
      StoredSessionsAreTheirs(maximum, before);
      StoreIsLru(maximum, before);
      var d := Run(maximum, before);
      LookupKeepsPairs(d, maximum, c.wanted, c.minted, c.created);
      forall e | e in d
        ensures PairOk(maximum, calls, e)
      {
        PairStays(maximum, calls, e);
      }
      if !(c.wanted.Some? && c.wanted.value in Keys(d)) {
        NewPairOk(maximum, calls);
      }
    }
  }

  /**
   After any run, a lookup of an identifier still among the `maximum` most recently used
   answers it with the session created for it, and any other lookup answers its own
   minted identifier with its own new session.
   */
  lemma HitsReturnTheirSession<S>(maximum: nat, before: seq<Call<S>>, c: Call<S>)
    requires FreshTokens(maximum, before)
    ensures var (_, id, s) := Looked(Run(maximum, before), maximum, c.wanted, c.minted, c.created);
            var used := Answers(maximum, before);
            if c.wanted.Some? && c.wanted.value in Last(Recency(used), maximum)
            then id == c.wanted.value && id in used && s == Created(maximum, before, id)
            else id == c.minted && s == c.created
  {
    hide Looked, Keys, Answers, Recency, Last, Created;
    StoreIsLru(maximum, before);
    StoredSessionsAreTheirs(maximum, before);
    LookupKeepsPairs(Run(maximum, before), maximum, c.wanted, c.minted, c.created);
  }
}
