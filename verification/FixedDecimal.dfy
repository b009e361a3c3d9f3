/**
 Decimal numbers as exact coefficient and exponent, and their fixed-point text: the
 digits with a point, never an exponent.  A positive exponent is written out as zeros.
 */
module FixedDecimal {
  import opened Wrappers
  import opened Text

  datatype Number =
    | Finite(negative: bool, coefficient: nat, exponent: int)
    | Infinite(negative: bool)
    | NotANumber(negative: bool, signaling: bool, payload: nat)

  function Zeros(n: nat): (s: string)
    ensures |s| == n && AllDigits(s)
  {
    seq(n, i => '0')
  }

  /** The digits before and after the point. */
  datatype Parts = Parts(whole: string, fraction: string)

  function Placed(digits: string, exponent: int): Parts {
    var point := exponent + |digits|;
    if point < 0 then Parts("0", Zeros(-point) + digits)
    else if point > |digits| then Parts(digits + Zeros(point - |digits|), "")
    else Parts(if point == 0 then "0" else digits[..point], digits[point..])
  }

  /** A zero is written without the zeros of its exponent. */
  function PartsOf(coefficient: nat, exponent: int): Parts {
    Placed(Decimal(coefficient), if coefficient == 0 && exponent > 0 then 0 else exponent)
  }

  function Joined(p: Parts): string {
    p.whole + if p.fraction == "" then "" else "." + p.fraction
  }

  function Unsigned(d: Number): string {
    match d
    case Finite(_, coefficient, exponent) => Joined(PartsOf(coefficient, exponent))
    case Infinite(_) => "Infinity"
    case NotANumber(_, signaling, payload) =>
      (if signaling then "sNaN" else "NaN") + if payload == 0 then "" else Decimal(payload)
  }

  function FixedText(d: Number): string {
    (if d.negative then "-" else "") + Unsigned(d)
  }

  // ------------------------------------------------------------------
  // What the text determines
  // ------------------------------------------------------------------

  function Max(a: int, b: int): int {
    if a < b then b else a
  }

  function Min(a: int, b: int): int {
    if a < b then a else b
  }

  /** The coefficient with a positive exponent multiplied in. */
  function Scaled(coefficient: nat, exponent: int): nat {
    coefficient * PowerOfTen(Max(exponent, 0))
  }

  /** Equal sign, equal number of places after the point, and equal digits up to there. */
  predicate SameNumber(d: Number, e: Number) {
    if d.Finite? && e.Finite?
    then && d.negative == e.negative
         && Min(d.exponent, 0) == Min(e.exponent, 0)
         && Scaled(d.coefficient, d.exponent) == Scaled(e.coefficient, e.exponent)
    else d == e
  }

  lemma {:induction false} LeadingZeros(n: nat, s: string)
    requires AllDigits(s)
    ensures AllDigits(Zeros(n) + s) && DecimalValue(Zeros(n) + s) == DecimalValue(s)
    decreases |s|, n
  {
    var all := Zeros(n) + s;
    if s != [] {
      LeadingZeros(n, s[..|s| - 1]);
      assert all[..|all| - 1] == Zeros(n) + s[..|s| - 1];
    } else if n > 0 {
      LeadingZeros(n - 1, s);
      assert all[..|all| - 1] == Zeros(n - 1) + s;
    }
  }

  lemma {:induction false} TrailingZeros(n: nat, e: nat)
    requires n > 0
    ensures Decimal(n * PowerOfTen(e)) == Decimal(n) + Zeros(e)
  {
    if e == 0 {
      assert Decimal(n) + Zeros(0) == Decimal(n);
    } else {
      var m := n * PowerOfTen(e - 1);
      assert n * PowerOfTen(e) == 10 * m by { TimesTen(n, PowerOfTen(e - 1)); }
      TrailingZeros(n, e - 1);
      assert m > 0 by { ProductPositive(n, PowerOfTen(e - 1)); }
      assert Decimal(10 * m) == Decimal(m) + "0" by { DecimalOfTenfold(m); }
      assert Zeros(e - 1) + "0" == Zeros(e);
      assert Decimal(n) + Zeros(e - 1) + "0" == Decimal(n) + Zeros(e);
    }
  }

  lemma TimesTen(n: nat, p: nat)
    ensures n * (10 * p) == 10 * (n * p)
  {}

  lemma ProductPositive(n: nat, p: nat)
    requires n > 0 && p > 0
    ensures n * p > 0
  {}

  lemma DecimalOfTenfold(m: nat)
    requires m > 0
    ensures Decimal(10 * m) == Decimal(m) + "0"
  {}

  /** A positive exponent is written as if it had been multiplied in. */
  lemma PartsOfScaled(coefficient: nat, exponent: int)
    ensures PartsOf(coefficient, exponent) == PartsOf(Scaled(coefficient, exponent), Min(exponent, 0))
  {
    hide Decimal, PowerOfTen;
    if exponent > 0 {
      if coefficient == 0 {
        assert Scaled(coefficient, exponent) == 0;
      } else {
        TrailingZeros(coefficient, exponent);
        var digits := Decimal(Scaled(coefficient, exponent));
        assert digits[..|digits|] == digits;
        DecimalRoundTrip(coefficient);
      }
    } else {
      PowerOfZero();
      assert Scaled(coefficient, exponent) == coefficient;
    }
  }

  lemma PowerOfZero()
    ensures PowerOfTen(0) == 1
  {}

  /** Without a positive exponent the parts hold the digits, and the fraction as many as the exponent asks for. */
  lemma PartsHoldDigits(coefficient: nat, exponent: int)
    requires exponent <= 0
    ensures var p := PartsOf(coefficient, exponent);
            && p.whole != [] && AllDigits(p.whole) && AllDigits(p.fraction) && |p.fraction| == -exponent
            && AllDigits(p.whole + p.fraction) && DecimalValue(p.whole + p.fraction) == coefficient
  {
    DecimalRoundTrip(coefficient);
    hide Decimal, DecimalValue;
    var digits, p := Decimal(coefficient), PartsOf(coefficient, exponent);
    var point := exponent + |digits|;
    if point <= 0 {
      LeadingZeros(1 - point, digits);
      assert Zeros(1 - point) == "0" + Zeros(-point);
      assert p.whole + p.fraction == Zeros(1 - point) + digits;
    } else {
      assert p.whole + p.fraction == digits;
    }
  }

  /** Finite numbers start with a digit, the others with a letter that tells their kind. */
  lemma UnsignedStart(d: Number)
    ensures Unsigned(d) != []
    ensures match d
            case Finite(_, _, _) => IsDigit(Unsigned(d)[0])
            case Infinite(_) => Unsigned(d)[0] == 'I'
            case NotANumber(_, signaling, _) => Unsigned(d)[0] == if signaling then 's' else 'N'
  {
    if d.Finite? {
      PartsOfScaled(d.coefficient, d.exponent);
      PartsHoldDigits(Scaled(d.coefficient, d.exponent), Min(d.exponent, 0));
      hide PartsOf, Scaled;
    }
  }

  // ------------------------------------------------------------------
  // Reading the text
  // ------------------------------------------------------------------

  /** The number as its text tells it: no positive exponent. */
  function Normal(d: Number): Number {
    if d.Finite? then Finite(d.negative, Scaled(d.coefficient, d.exponent), Min(d.exponent, 0)) else d
  }

  /** The digits before the point; the whole text if there is none. */
  function WholePart(s: string): (w: string)
    ensures |w| <= |s| && w == s[..|w|] && (|w| < |s| ==> s[|w|] == '.')
  {
    if s == [] || s[0] == '.' then [] else [s[0]] + WholePart(s[1..])
  }

  function ReadFixed(s: string, negative: bool): Option<Number> {
    var whole := WholePart(s);
    var fraction := if |whole| < |s| then s[|whole| + 1..] else [];
    if whole == [] || !AllDigits(whole + fraction) then None
    else Some(Finite(negative, DecimalValue(whole + fraction), -|fraction|))
  }

  function ReadPayload(s: string, negative: bool, signaling: bool): Option<Number> {
    if AllDigits(s) then Some(NotANumber(negative, signaling, DecimalValue(s))) else None
  }

  function ReadUnsigned(s: string, negative: bool): Option<Number> {
    if s == "Infinity" then Some(Infinite(negative))
    else if "sNaN" <= s then ReadPayload(s[4..], negative, true)
    else if "NaN" <= s then ReadPayload(s[3..], negative, false)
    else ReadFixed(s, negative)
  }

  function ReadNumber(s: string): Option<Number> {
    if s != [] && s[0] == '-' then ReadUnsigned(s[1..], true) else ReadUnsigned(s, false)
  }

  lemma {:induction false} WholePartOf(whole: string, rest: string)
    requires AllDigits(whole) && (rest == [] || rest[0] == '.')
    ensures WholePart(whole + rest) == whole
  {
    if whole == [] {
      assert whole + rest == rest;
    } else {
      assert (whole + rest)[1..] == whole[1..] + rest;
      WholePartOf(whole[1..], rest);
    }
  }

  lemma FixedReadsBack(p: Parts, negative: bool)
    requires p.whole != [] && AllDigits(p.whole) && AllDigits(p.fraction)
    ensures ReadFixed(Joined(p), negative) == Some(Finite(negative, DecimalValue(p.whole + p.fraction), -|p.fraction|))
  {
    var rest := if p.fraction == "" then "" else "." + p.fraction;
    WholePartOf(p.whole, rest);
    hide WholePart, DecimalValue;
    var s := Joined(p);
    assert s == p.whole + rest;
    assert p.fraction != "" ==> s[|p.whole| + 1..] == p.fraction;
    assert p.fraction == "" ==> p.whole + p.fraction == p.whole == s;
  }

  lemma FiniteReadsBack(d: Number)
    requires d.Finite?
    ensures ReadUnsigned(Unsigned(d), d.negative) == Some(Normal(d))
  {
    var c, x := d.coefficient, d.exponent;
    assert Unsigned(d) == Joined(PartsOf(c, x));
    hide Unsigned, PartsOf, Scaled, Joined, ReadFixed, DecimalValue, ReadUnsigned, AllDigits;
    UnsignedStart(d);
    PartsOfScaled(c, x);
    PartsHoldDigits(Scaled(c, x), Min(x, 0));
    FixedReadsBack(PartsOf(c, x), d.negative);
    DigitsAreFixed(Unsigned(d), d.negative);
  }

  lemma DigitsAreFixed(s: string, negative: bool)
    requires s != [] && IsDigit(s[0])
    ensures ReadUnsigned(s, negative) == ReadFixed(s, negative)
  {
    hide ReadFixed, ReadPayload;
    assert "Infinity"[0] == 'I' && "sNaN"[0] == 's' && "NaN"[0] == 'N';
  }

  lemma NotANumberReadsBack(d: Number)
    requires d.NotANumber?
    ensures ReadUnsigned(Unsigned(d), d.negative) == Some(d)
  {
    DecimalRoundTrip(d.payload);
    assert DecimalValue([]) == 0;
    var head, tail := if d.signaling then "sNaN" else "NaN", if d.payload == 0 then "" else Decimal(d.payload);
    hide Decimal, DecimalValue;
    var s := Unsigned(d);
    assert s == head + tail && s[|head|..] == tail && s[..|head|] == head;
    assert s[0] == head[0] && "Infinity"[0] == 'I';
  }

  lemma UnsignedReadsBack(d: Number)
    ensures ReadUnsigned(Unsigned(d), d.negative) == Some(Normal(d))
  {
    if d.Finite? {
      FiniteReadsBack(d);
    } else if d.NotANumber? {
      NotANumberReadsBack(d);
    }
    hide Normal;
  }

  /** Reading a number's text gives the number, with a positive exponent multiplied in. */
  lemma NumberReadsBack(d: Number)
    ensures ReadNumber(FixedText(d)) == Some(Normal(d))
  {
    UnsignedStart(d);
    UnsignedReadsBack(d);
    hide Unsigned, ReadUnsigned, Normal;
    var s := FixedText(d);
    if d.negative {
      assert s[1..] == Unsigned(d);
    } else {
      assert s == Unsigned(d);
    }
  }

  /** Two numbers have the same text exactly when they differ at most in how a positive exponent is split. */
  lemma FixedTextExactly(d: Number, e: Number)
    ensures FixedText(d) == FixedText(e) <==> SameNumber(d, e)
  {
    NumberReadsBack(d);
    NumberReadsBack(e);
    if SameNumber(d, e) && d.Finite? {
      PartsOfScaled(d.coefficient, d.exponent);
      PartsOfScaled(e.coefficient, e.exponent);
    }
    hide ReadNumber, Scaled, PartsOf;
  }

  /** Ten and one with exponent 1 are different numbers with one text. */
  lemma DifferentNumbersShareText()
    ensures Finite(false, 10, 0) != Finite(false, 1, 1)
    ensures FixedText(Finite(false, 10, 0)) == FixedText(Finite(false, 1, 1))
  {
    PowerOfZero();
    assert PowerOfTen(1) == 10;
    FixedTextExactly(Finite(false, 10, 0), Finite(false, 1, 1));
  }
}
