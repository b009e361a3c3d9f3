/** Decimal and hexadecimal text, and the code-point order of strings. */
module Text {

  predicate IsDigit(c: char) { '0' <= c <= '9' }

  predicate IsLowerHex(c: char) { IsDigit(c) || 'a' <= c <= 'f' }

  predicate AllDigits(s: string) { forall i :: 0 <= i < |s| ==> IsDigit(s[i]) }

  predicate AllLowerHex(s: string) { forall i :: 0 <= i < |s| ==> IsLowerHex(s[i]) }

  function DigitValue(c: char): nat
    requires IsDigit(c)
  {
    c as int - '0' as int
  }

  /** The number that a run of decimal digits denotes. */
  function DecimalValue(s: string): nat
    requires AllDigits(s)
  {
    if s == [] then 0 else 10 * DecimalValue(s[..|s| - 1]) + DigitValue(s[|s| - 1])
  }

  function Decimal(n: nat): string {
    var last := ['0' + (n % 10) as char];
    if n < 10 then last else Decimal(n / 10) + last
  }

  function PowerOfTen(n: nat): (p: nat)
    ensures p >= 1
  {
    if n == 0 then 1 else 10 * PowerOfTen(n - 1)
  }

  lemma {:induction false} DecimalRoundTrip(n: nat)
    ensures AllDigits(Decimal(n)) && Decimal(n) != []
    ensures DecimalValue(Decimal(n)) == n
  {
    var d := Decimal(n);
    if n >= 10 {
      DecimalRoundTrip(n / 10);
      assert d[..|d| - 1] == Decimal(n / 10);
    } else {
      assert d[..0] == [];
    }
    assert DigitValue(d[|d| - 1]) == n % 10;
  }

  // ------------------------------------------------------------------
  // Code-point order
  // ------------------------------------------------------------------

  predicate Less(a: string, b: string) {
    if b == [] then false
    else a == [] || a[0] < b[0] || (a[0] == b[0] && Less(a[1..], b[1..]))
  }

  lemma {:induction false} LessIsTotal(a: string, b: string)
    ensures a == b || Less(a, b) || Less(b, a)
    ensures !(Less(a, b) && Less(b, a))
  {
    if a != [] && b != [] && a[0] == b[0] {
      LessIsTotal(a[1..], b[1..]);
      assert a == [a[0]] + a[1..] && b == [b[0]] + b[1..];
    }
  }

  lemma {:induction false} LessIsTransitive(a: string, b: string, c: string)
    requires Less(a, b) && Less(b, c)
    ensures Less(a, c)
  {
    if a != [] && a[0] == b[0] == c[0] {
      LessIsTransitive(a[1..], b[1..], c[1..]);
    }
  }

  predicate IsLeast(m: string, s: set<string>) {
    m in s && forall x :: x in s && x != m ==> Less(m, x)
  }

  lemma {:induction false} LeastExists(s: set<string>)
    requires s != {}
    ensures exists m :: IsLeast(m, s)
  {
    hide Less;
    var e :| e in s;
    if s == {e} {
      assert IsLeast(e, s);
    } else {
      var rest := s - {e};
      assert s == rest + {e};
      LeastExists(rest);
      var m :| IsLeast(m, rest);
      LessIsTotal(m, e);
      if Less(m, e) {
        assert IsLeast(m, s);
      } else {
        forall x | x in s && x != e
          ensures Less(e, x)
        {
          if x != m {
            LessIsTransitive(e, m, x);
          }
        }
        assert IsLeast(e, s);
      }
    }
  }

  predicate Ascending(ks: seq<string>) {
    forall i, j :: 0 <= i < j < |ks| ==> Less(ks[i], ks[j])
  }

  /** The elements of a set in code-point order. */
  function Sorted(s: set<string>): (r: seq<string>)
    ensures Ascending(r)
    ensures forall x :: x in r <==> x in s
  {
    if s == {} then []
    else
      LeastExists(s);
      assert forall m, n :: IsLeast(m, s) && IsLeast(n, s) ==> m == n by {
        forall m, n | IsLeast(m, s) && IsLeast(n, s)
          ensures m == n
        {
          LessIsTotal(m, n);
        }
      }
      var m :| m in s && IsLeast(m, s);
      [m] + Sorted(s - {m})
  }

  lemma TailExcludesHead(r: seq<string>)
    requires Ascending(r) && r != []
    ensures forall x :: x in r[1..] <==> x in r && x != r[0]
  {
    LessIsTotal(r[0], r[0]);
    assert r == [r[0]] + r[1..];
  }

  /** A set has one ascending listing. */
  lemma {:induction false} AscendingUnique(r: seq<string>, s: seq<string>)
    requires Ascending(r) && Ascending(s)
    requires forall x :: x in r <==> x in s
    ensures r == s
  {
    assert r != [] ==> r[0] in r;
    assert s != [] ==> s[0] in s;
    if r != [] && s != [] {
      assert r[0] in s && s[0] in r;
      var i :| 0 <= i < |s| && s[i] == r[0];
      var j :| 0 <= j < |r| && r[j] == s[0];
      LessIsTotal(r[0], s[0]);
      assert r[0] == s[0];
      TailExcludesHead(r);
      TailExcludesHead(s);
      assert r == [r[0]] + r[1..] && s == [s[0]] + s[1..];
      AscendingUnique(r[1..], s[1..]);
    }
  }
}
