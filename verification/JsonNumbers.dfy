/** What %.17g prints for a double, and why 17 digits bring every double back. */
module JsonNumbers {
  import opened Bytes
  import opened JsonValue
  import opened JsonGrammar
  import opened Numerals
  import opened Powers
  import opened Doubles

  // ---- snprintf with %.17g ----

  /** The decimal exponent of the leading digit. */
  function LeadExponent(d: real): int
    requires d > 0.0
    decreases if d < 1.0 then 1 else 0, if d < 1.0 then (1.0 / d).Floor else d.Floor
  {
    if d >= 10.0 then LeadExponent(d / 10.0) + 1
    else if d < 1.0 then
      Reciprocal(d);
      LeadExponent(d * 10.0) - 1
    else 0
  }

  lemma Reciprocal(d: real)
    requires 0.0 < d < 1.0
    ensures 1.0 / (d * 10.0) == 1.0 / d / 10.0 && 1.0 / d > 1.0
  {
    var r := 1.0 / d;
    assert r * d == 1.0;
  }

  /** 17 significant digits, the first one not zero, and the exponent of the first. */
  datatype Significant = Significant(digits: nat, exp: int)

  /** The number with 17 digits in front of the point. */
  function Scaled17(d: real): (y: real)
    requires d > 0.0
    ensures y >= 0.0
  {
    NonNegative(d, Ten(16 - LeadExponent(d)));
    d * Ten(16 - LeadExponent(d))
  }

  function Rounded17(d: real): Significant
    requires d > 0.0
  {
    var k := LeadExponent(d);
    var n := HalfEven(Scaled17(d));
    if n == 100_000_000_000_000_000 then Significant(10_000_000_000_000_000, k + 1) else Significant(n, k)
  }

  /** Without the zeros at the end. */
  function Stripped(s: bytes): bytes {
    if s != [] && s[|s| - 1] == 0x30 then Stripped(s[..|s| - 1]) else s
  }

  function Fraction(s: bytes): Option<bytes> {
    if Stripped(s) == [] then None else Some(Stripped(s))
  }

  /** At least two digits. */
  function ExponentDigits(x: nat): bytes {
    if x < 10 then [0x30] + Digits(x) else Digits(x)
  }

  /** The digits in plain notation, or in scientific notation for exponents below -4 or above 16. */
  function Layout(neg: bool, s: Significant): Number
    requires |Digits(s.digits)| == 17
  {
    var ds, x := Digits(s.digits), s.exp;
    if x < -4 || x > 16 then
      Number(neg, ds[..1], Fraction(ds[1..]),
             Some(Exponent(0x65, if x < 0 then [0x2d] else [0x2b], ExponentDigits(Abs(x)))))
    else if x >= 0 then Number(neg, ds[..x + 1], Fraction(ds[x + 1..]), None)
    else Number(neg, [0x30], Fraction(Zeros(-x - 1) + ds), None)
  }

  /** The text of a number as a literal. */
  function Printed(r: real): Number {
    if r == 0.0 then Number(false, [0x30], None, None)
    else
      SeventeenDigits(Size(r));
      Layout(r < 0.0, Rounded17(Size(r)))
  }

  // ---- The digits ----

  lemma {:induction false} LeadExponentIs(d: real)
    requires d > 0.0
    ensures Ten(LeadExponent(d)) <= d < Ten(LeadExponent(d) + 1)
    decreases if d < 1.0 then 1 else 0, if d < 1.0 then (1.0 / d).Floor else d.Floor
  {
    var k := LeadExponent(d);
    TenNext(k);
    if d >= 10.0 {
      LeadExponentIs(d / 10.0);
      TenNext(k - 1);
    } else if d < 1.0 {
      Reciprocal(d);
      LeadExponentIs(d * 10.0);
      TenNext(k + 1);
    } else {
      TenZero();
    }
  }

  lemma Scaled17Range(d: real)
    requires d > 0.0
    ensures 10_000_000_000_000_000.0 <= Scaled17(d) < 100_000_000_000_000_000.0
  {
    hide Ten, LeadExponent;
    var k, y := LeadExponent(d), Scaled17(d);
    LeadExponentIs(d);
    TenAdd(k, 16 - k);
    TenAdd(k + 1, 16 - k);
    SixteenDigits(16);
    TenZero();
    TenNext(16);
    SameUnit(Ten(16), Ten(k), y, d, Ten(16 - k));
    SameUnit(y, d, Ten(17), Ten(k + 1), Ten(16 - k));
  }

  lemma SeventeenDigits(d: real)
    requires d > 0.0
    ensures 10_000_000_000_000_000 <= Rounded17(d).digits < 100_000_000_000_000_000
    ensures |Digits(Rounded17(d).digits)| == 17
  {
    hide Ten, LeadExponent, Digits, Ten10, Scaled17, HalfEven;
    Scaled17Range(d);
    var n := HalfEven(Scaled17(d));
    SixteenDigits(0);
    assert n as real >= 10_000_000_000_000_000.0 - 0.5 && n as real <= 100_000_000_000_000_000.0 + 0.5;
    DigitCount(Rounded17(d).digits, 16);
  }

  /** What the 17 digits denote. */
  lemma DigitsDenote(s: Significant, n: nat, k: int, v: real)
    requires v == n as real * Ten(k - 16)
    requires s == if n == 100_000_000_000_000_000 then Significant(10_000_000_000_000_000, k + 1) else Significant(n, k)
    ensures v == s.digits as real * Ten(s.exp - 16)
  {
    hide Ten;
    TenNext(k - 16);
  }

  /** The 17 digits are within half a unit of the last of them. */
  lemma DigitsAreClose(d: real) returns (v: real)
    requires d > 0.0
    ensures v == Rounded17(d).digits as real * Ten(Rounded17(d).exp - 16) && v > 0.0
    ensures -d < (v - d) * 0x40_0000_0000_0000 as real < d
  {
    hide Ten, LeadExponent, HalfEven;
    var k := LeadExponent(d);
    var y := Scaled17(d);
    var n := HalfEven(y);
    var u := Ten(k - 16);
    Scaled17Range(d);
    v := n as real * u;
    DigitsDenote(Rounded17(d), n, k, v);
    TenAdd(16 - k, k - 16);
    TenZero();
    Group(d, Ten(16 - k), u);
    Sign(v, n as real, u);
    Error(v, n, d, y, u);
  }

  lemma Error(v: real, n: nat, d: real, y: real, u: real)
    requires u > 0.0 && v == n as real * u && d == y * u && y - 0.5 <= n as real <= y + 0.5
    requires y >= 10_000_000_000_000_000.0
    ensures -d < (v - d) * 0x40_0000_0000_0000 as real < d
  {
    var c := 0x40_0000_0000_0000 as real;
    Sign(d - (v - d) * c, y - (n as real - y) * c, u);
    Sign(d + (v - d) * c, y + (n as real - y) * c, u);
  }

  // ---- The literal ----

  lemma Carry(d: int, d10: int, t: real, t10: real)
    requires d10 == 10 * d && t10 == 10.0 * t
    ensures d10 as real * t == d as real * t10
  {
    Group(d as real, 10.0, t);
    assert d10 as real == d as real * 10.0;
  }

  lemma {:induction false} StrippedValue(w: bytes, s: bytes, e: int)
    requires AllDigits(s)
    ensures AllDigits(Stripped(s))
    ensures DigitsValue(w + Stripped(s)) as real * Ten(e - |Stripped(s)|) == DigitsValue(w + s) as real * Ten(e - |s|)
    decreases |s|
  {
    hide Ten, DigitsValue;
    if s != [] && s[|s| - 1] == 0x30 {
      var init := s[..|s| - 1];
      StrippedValue(w, init, e);
      assert w + s == w + init + [0x30];
      DigitsValueAppend(w + init, 0x30);
      TenNext(e - |s|);
      Carry(DigitsValue(w + init), DigitsValue(w + s), Ten(e - |s|), Ten(e - |init|));
    }
  }

  lemma FractionDigits(s: bytes)
    requires AllDigits(s)
    ensures (if Fraction(s).Some? then Fraction(s).value else []) == Stripped(s)
    ensures AllDigits(Stripped(s)) ==> FracOk(Fraction(s))
  {
  }

  lemma FractionValue(n: Number, s: bytes, v: real)
    requires n.frac == Fraction(s) && AllDigits(s)
    requires v == DigitsValue(n.whole + s) as real * Ten(ExpValue(n.exp) - |s|)
    ensures FracOk(n.frac) && NumberValue(n) == if n.neg then -v else v
  {
    hide Ten, DigitsValue, Stripped, Fraction, AllDigits, ExpValue, FracOk;
    FractionDigits(s);
    StrippedValue(n.whole, s, ExpValue(n.exp));
  }

  lemma ExponentDigitsValue(x: nat)
    ensures var ds := ExponentDigits(x); ds != [] && AllDigits(ds) && DigitsValue(ds) == x
  {
    hide Digits, DigitsValue;
    DigitsRoundTrip(x);
    if x < 10 { OneMoreZero(Digits(x)); }
  }

  lemma ExponentRoundTrip(x: int)
    ensures var e := Some(Exponent(0x65, if x < 0 then [0x2d] else [0x2b], ExponentDigits(Abs(x))));
            ExpOk(e) && ExpValue(e) == x
  {
    hide ExponentDigits, DigitsValue, AllDigits;
    ExponentDigitsValue(Abs(x));
  }

  /** The literal is in the grammar and denotes the 17 digits. */
  lemma LayoutValue(neg: bool, s: Significant, v: real)
    requires |Digits(s.digits)| == 17 && s.digits > 0 && v == s.digits as real * Ten(s.exp - 16)
    ensures var n := Layout(neg, s); NumberOk(n) && n.neg == neg && NumberValue(n) == if neg then -v else v
  {
    hide Ten, Fraction, ExponentDigits, Digits, DigitsValue, NumberValue, ExpValue;
    var ds, x, n := Digits(s.digits), s.exp, Layout(neg, s);
    DigitsRoundTrip(s.digits);
    NoExponentValue();
    if x < -4 || x > 16 {
      ExponentRoundTrip(x);
      assert ds[..1] + ds[1..] == ds;
      FractionValue(n, ds[1..], v);
    } else if x >= 0 {
      assert ds[..x + 1] + ds[x + 1..] == ds;
      FractionValue(n, ds[x + 1..], v);
    } else {
      var z := Zeros(-x - 1);
      LeadingZeros(-x - 1, ds);
      OneMoreZero(z + ds);
      FractionValue(n, z + ds, v);
    }
  }

  lemma NoExponentValue()
    ensures ExpValue(None) == 0
  {
  }

  lemma OneMoreZero(s: bytes)
    ensures DigitsValue([0x30] + s) == DigitsValue(s)
  {
    assert Zeros(1) == [0x30];
    LeadingZeros(1, s);
  }

  /** Every double survives being printed with 17 digits and read back. */
  lemma PrintedRoundTrip(r: real)
    requires IsDouble(r)
    ensures NumberOk(Printed(r)) && RoundToDouble(NumberValue(Printed(r))) == Finite(r)
    ensures Printed(r).neg <==> r < 0.0
  {
    hide Ten, Layout, Rounded17, RoundMagnitude, NumberValue, IsDouble, NumberOk;
    PrintedZero();
    if r != 0.0 {
      var d := Size(r);
      SeventeenDigits(d);
      var v := DigitsAreClose(d);
      LayoutValue(r < 0.0, Rounded17(d), v);
      OfSize(r);
      CloseIsRounded(d, v);
    }
  }

  lemma PrintedZero()
    ensures NumberOk(Printed(0.0)) && RoundToDouble(NumberValue(Printed(0.0))) == Finite(0.0)
  {
    hide RoundMagnitude;
    ZeroIsDouble();
    var s: bytes := [0x30] + [];
    assert s[..0] == [];
    assert DigitsValue(s) == 0;
  }

  // ---- The shape of %g ----

  /** The 17 digits lie in the decade of their exponent. */
  lemma Decade(s: Significant, v: real)
    requires 10_000_000_000_000_000 <= s.digits < 100_000_000_000_000_000 && v == s.digits as real * Ten(s.exp - 16)
    ensures Ten(s.exp) <= v < Ten(s.exp + 1)
  {
    hide Ten;
    var u := Ten(s.exp - 16);
    SixteenDigits(s.exp);
    SixteenDigits(s.exp + 1);
    TenNext(s.exp - 16);
    SameUnit(Ten(s.exp), 10_000_000_000_000_000.0, v, s.digits as real, u);
    SameUnit(v, s.digits as real, Ten(s.exp + 1), 100_000_000_000_000_000.0, u);
  }

  lemma Thresholds()
    ensures Ten(-4) == 0.0001 && Ten(0) == 1.0 && Ten(17) == 100_000_000_000_000_000.0
  {
    hide Ten;
    TenNext(-4); TenNext(-3); TenNext(-2); TenNext(-1);
    TenNext(16);
    SixteenDigits(16);
    TenZero();
  }

  lemma ByDecade(x: int, k: int, v: real)
    requires Ten(x) <= v < Ten(x + 1)
    ensures x >= k <==> v >= Ten(k)
  {
    hide Ten;
    if x >= k { TenMonotone(k, x); } else { TenMonotone(x + 1, k); }
  }

  lemma {:induction false} NoZeroAtEnd(s: bytes)
    ensures Stripped(s) != [] ==> Stripped(s)[|Stripped(s)| - 1] != 0x30
  {
    if s != [] && s[|s| - 1] == 0x30 { NoZeroAtEnd(s[..|s| - 1]); }
  }

  lemma ExponentShape(x: nat)
    ensures var ds := ExponentDigits(x); |ds| >= 2 && (|ds| > 2 ==> ds[0] != 0x30)
  {
    DigitsRoundTrip(x);
    if x >= 10 { DigitsRoundTrip(x / 10); }
  }

  /**
   What C prescribes for %g with 17 digits: plain notation from 0.0001 up to below ten to the 17th, and
   otherwise one digit in front of the point, an e, a sign always, and at least two digits of exponent;
   in both no zero at the end of the fraction. What is printed is less than a 2^54th part off.
   */
  lemma PrintedShape(r: real)
    requires r != 0.0
    ensures var n := Printed(r); var x := Size(NumberValue(n));
            && (n.exp.None? <==> 0.0001 <= x < 100_000_000_000_000_000.0)
            && (n.frac.Some? ==> n.frac.value != [] && n.frac.value[|n.frac.value| - 1] != 0x30)
            && (n.exp.Some? ==>
                  var Exponent(mark, sign, ds) := n.exp.value;
                  && |n.whole| == 1 && n.whole[0] != 0x30 && mark == 0x65
                  && sign == (if x < 1.0 then Ascii("-") else Ascii("+"))
                  && |ds| >= 2 && (|ds| > 2 ==> ds[0] != 0x30))
            && -Size(r) < (x - Size(r)) * 0x40_0000_0000_0000 as real < Size(r)
  {
    hide Ten, Rounded17, NumberValue, NumberOk, Digits, ExponentDigits, Stripped, Zeros;
    var d := Size(r);
    var s, n := Rounded17(d), Printed(r);
    SeventeenDigits(d);
    var v := DigitsAreClose(d);
    LayoutValue(r < 0.0, s, v);
    Decade(s, v);
    Thresholds();
    ByDecade(s.exp, -4, v);
    ByDecade(s.exp, 0, v);
    ByDecade(s.exp, 17, v);
    var ds := Digits(s.digits);
    DigitsRoundTrip(s.digits);
    ExponentShape(Abs(s.exp));
    if s.exp < -4 || s.exp > 16 {
      NoZeroAtEnd(ds[1..]);
    } else if s.exp >= 0 {
      NoZeroAtEnd(ds[s.exp + 1..]);
    } else {
      NoZeroAtEnd(Zeros(-s.exp - 1) + ds);
    }
  }

  // ---- Integers ----

  lemma {:induction false} StrippedZeros(j: nat)
    ensures Stripped(Zeros(j)) == []
  {
    if j > 0 {
      StrippedZeros(j - 1);
      assert Zeros(j)[..j - 1] == Zeros(j - 1);
    }
  }

  lemma IntegerDigits(n: nat)
    requires 0 < n < 100_000_000_000_000_000
    ensures var k := LeadExponent(n as real);
            && 0 <= k <= 16 && |Digits(n)| == k + 1
            && Rounded17(n as real) == Significant(n * Ten10(16 - k), k)
  {
    hide LeadExponent, Ten, Digits, Ten10, HalfEven;
    var d := n as real;
    var k := LeadExponent(d);
    IntegerExponent(n);
    var m := n * Ten10(16 - k);
    TenIsWhole(16 - k);
    assert n as real * Ten10(16 - k) as real == m as real;
    Scaled17Range(d);
    HalfEvenIs(Scaled17(d), m);
    assert m < 100_000_000_000_000_000;
  }

  lemma PlainLayout(neg: bool, n: nat, k: nat)
    requires n > 0 && k <= 16 && |Digits(n)| == k + 1
    ensures |Digits(n * Ten10(16 - k))| == 17
    ensures Layout(neg, Significant(n * Ten10(16 - k), k)) == Number(neg, Digits(n), None, None)
  {
    hide Digits, Zeros, Stripped, Ten10;
    DigitsTimesTen(n, 16 - k);
    var ds := Digits(n * Ten10(16 - k));
    assert ds[..k + 1] == Digits(n) && ds[k + 1..] == Zeros(16 - k);
    StrippedZeros(16 - k);
  }

  /** Integers of at most 17 digits are printed as %d prints them. */
  lemma IntegersPrintPlainly(i: int)
    requires -100_000_000_000_000_000 < i < 100_000_000_000_000_000
    ensures Printed(i as real) == Number(i < 0, Digits(Abs(i)), None, None)
    ensures NumberText(Printed(i as real)) == Decimal(i)
  {
    hide LeadExponent, Layout, Rounded17, Digits, Ten10;
    DigitZero();
    if i != 0 {
      var n := Abs(i);
      assert Size(i as real) == n as real;
      IntegerDigits(n);
      PlainLayout(i < 0, n, LeadExponent(n as real));
    }
  }

  lemma DigitZero()
    ensures Digits(0) == [0x30]
  {
  }

  lemma IntegerExponent(n: nat)
    requires 0 < n < 100_000_000_000_000_000
    ensures 0 <= LeadExponent(n as real) <= 16
    ensures |Digits(n)| == LeadExponent(n as real) + 1
  {
    hide LeadExponent, Ten, Digits, Ten10;
    var k := LeadExponent(n as real);
    LeadExponentIs(n as real);
    TenZero();
    SixteenDigits(16);
    TenNext(16);
    if k < 0 { TenMonotone(k + 1, 0); }
    if k > 16 { TenMonotone(17, k); }
    TenIsWhole(k);
    TenIsWhole(k + 1);
    DigitCount(n, k);
  }
}
