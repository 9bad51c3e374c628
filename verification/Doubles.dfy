/**
 Rounding to double, as strtod and the conversions from integers do it: 53 significant bits, exponents
 from -1074 to 971, to nearest, ties to even, and infinity beyond (IEEE 754 binary64).
 */
module Doubles {
  import opened JsonValue
  import opened Powers

  const TWO_52: nat := 0x10_0000_0000_0000

  const TWO_53: nat := 0x20_0000_0000_0000

  const TWO_64: nat := 0x1_0000_0000_0000_0000

  const MIN_EXP: int := -1074

  const MAX_EXP: int := 971

  // ---- Products ----

  lemma Group(a: real, b: real, c: real)
    ensures a * b * c == a * (b * c)
  {
  }

  lemma HalfTwice(y: real, t: real)
    ensures y / 2.0 * (2.0 * t) == y * t && y * (2.0 * t) == 2.0 * (y * t)
  {
  }

  lemma AtLeast(m: real, p: real)
    requires m >= 0.0 && p >= 1.0
    ensures m * p >= m
  {
  }

  lemma NonNegative(a: real, b: real)
    requires a >= 0.0 && b >= 0.0
    ensures a * b >= 0.0
  {
  }

  /** A positive factor keeps the sign. */
  lemma Sign(u: real, a: real, t: real)
    requires t > 0.0 && u == a * t
    ensures u > 0.0 <==> a > 0.0
    ensures u < 0.0 <==> a < 0.0
  {
  }

  lemma Factor(a: real, b: real, t: real)
    ensures a * t - b * t == (a - b) * t
  {
  }

  /** A common positive factor does not change an order. */
  lemma Cancel(a: real, b: real, t: real)
    requires t > 0.0
    ensures a * t < b * t <==> a < b
    ensures a * t == b * t <==> a == b
  {
    Factor(a, b, t);
    Sign(a * t - b * t, a - b, t);
  }

  lemma Quotient(x: real, t: real) returns (m: real)
    requires t > 0.0 && x >= 0.0
    ensures m * t == x && m >= 0.0
  {
    m := x / t;
    Cancel(m, 0.0, t);
  }

  // ---- Doubles ----

  function Size(r: real): real {
    if r < 0.0 then -r else r
  }

  /** The real numbers that are doubles. */
  ghost predicate IsDouble(r: real) {
    exists q: nat, e: int :: IsScaled(Size(r), q, e)
  }

  predicate IsScaled(x: real, q: nat, e: int) {
    q < 9_007_199_254_740_992 && -1074 <= e <= 971 && x == q as real * Two(e)
  }

  /** `m` times two to the `e`. */
  datatype Scaled = Scaled(m: real, e: int)

  /** `y` times two to the `e`, with the exponent raised until 53 bits suffice for the whole part. */
  function Normal(y: real, e: int): (r: Scaled)
    requires y >= 0.0
    ensures 0.0 <= r.m < TWO_53 as real && r.e >= e
    ensures r.e > e ==> r.m >= TWO_52 as real
    decreases y.Floor
  {
    if y < TWO_53 as real then Scaled(y, e) else Normal(y / 2.0, e + 1)
  }

  /** The nearest natural number; on a tie the even one. */
  function HalfEven(m: real): (q: nat)
    requires m >= 0.0
    ensures m - 0.5 <= q as real <= m + 0.5
    ensures q as real == m - 0.5 || q as real == m + 0.5 ==> q % 2 == 0
  {
    var f := m.Floor;
    if m - f as real < 0.5 || (m - f as real == 0.5 && f % 2 == 0) then f else f + 1
  }

  /** The magnitude in units of the least double. */
  function InUnits(x: real): (y: real)
    requires x >= 0.0
    ensures y >= 0.0
  {
    NonNegative(x, Two(-MIN_EXP));
    x * Two(-MIN_EXP)
  }

  function ScaledValue(q: nat, e: int): (v: real)
    ensures v >= 0.0
  {
    NonNegative(q as real, Two(e));
    q as real * Two(e)
  }

  function RoundMagnitude(x: real): (d: Double)
    requires x >= 0.0
    ensures d.Finite? ==> d.r >= 0.0
    ensures d.Finite? || d.PosInf?
  {
    var Scaled(m, e) := Normal(InUnits(x), MIN_EXP);
    var q := HalfEven(m);
    if e > MAX_EXP || (e == MAX_EXP && q == TWO_53) then PosInf else Finite(ScaledValue(q, e))
  }

  /** The double for a real number. */
  function RoundToDouble(r: real): (d: Double)
    ensures !d.NaN?
  {
    if r >= 0.0 then RoundMagnitude(r)
    else if RoundMagnitude(-r).Finite? then Finite(-RoundMagnitude(-r).r)
    else NegInf
  }

  // ---- Normal forms ----

  lemma {:induction false} NormalIs(y: real, e: int)
    requires y >= 0.0
    ensures Normal(y, e).m * Two(Normal(y, e).e) == y * Two(e)
    decreases y.Floor
  {
    hide Two;
    if y >= TWO_53 as real {
      NormalIs(y / 2.0, e + 1);
      TwoNext(e);
      HalfTwice(y, Two(e));
    }
  }

  /** Mantissa and exponent of a number are the only ones in range. */
  lemma {:induction false} NormalOf(y: real, m: real, f: int, e: int)
    requires e <= f && 0.0 <= m < TWO_53 as real && (f > e ==> m >= TWO_52 as real)
    requires y == m * Two(f - e)
    ensures y >= 0.0 && Normal(y, e) == Scaled(m, f)
    decreases f - e
  {
    hide Two;
    TwoZero();
    if f > e {
      var p := Two(f - e - 1);
      TwoNext(f - e - 1);
      TwoMonotone(0, f - e - 1);
      AtLeast(m, p);
      HalfTwice(m, p);
      NormalOf(y / 2.0, m, f, e + 1);
      assert TWO_53 as real == 2.0 * TWO_52 as real;
    } else {
      assert y == m;
    }
  }

  lemma NormalizedMagnitude(x: real, m: real, f: int)
    requires MIN_EXP <= f && 0.0 <= m < TWO_53 as real && (f > MIN_EXP ==> m >= TWO_52 as real)
    requires x == m * Two(f)
    ensures x >= 0.0 && Normal(InUnits(x), MIN_EXP) == Scaled(m, f)
  {
    hide Two, Normal;
    TwoAdd(f, -MIN_EXP);
    Group(m, Two(f), Two(-MIN_EXP));
    NonNegative(m, Two(f));
    NormalOf(InUnits(x), m, f, MIN_EXP);
  }

  /** Every magnitude has its mantissa and exponent. */
  lemma Magnitude(x: real) returns (m: real, e: int)
    requires x >= 0.0
    ensures Scaled(m, e) == Normal(InUnits(x), MIN_EXP)
    ensures x == m * Two(e) && e >= MIN_EXP && 0.0 <= m < TWO_53 as real && (e > MIN_EXP ==> m >= TWO_52 as real)
  {
    hide Two, Normal;
    var n := Normal(InUnits(x), MIN_EXP);
    m, e := n.m, n.e;
    NormalIs(InUnits(x), MIN_EXP);
    TwoAdd(-MIN_EXP, MIN_EXP);
    TwoZero();
    Group(x, Two(-MIN_EXP), Two(MIN_EXP));
  }

  /** A double has a scaling with the leading bit set, or with the least exponent. */
  lemma {:induction false} FullScale(x: real, q: nat, e: int) returns (p: nat, f: int)
    requires IsScaled(x, q, e) && q > 0
    ensures IsScaled(x, p, f) && f <= e && p > 0 && (f > MIN_EXP ==> p >= TWO_52)
    decreases e - MIN_EXP
  {
    hide Two;
    if e == MIN_EXP || q >= TWO_52 {
      p, f := q, e;
    } else {
      TwoNext(e - 1);
      HalfTwice(q as real, Two(e - 1));
      Group(2.0, q as real, Two(e - 1));
      assert (2 * q) as real == 2.0 * q as real;
      p, f := FullScale(x, 2 * q, e - 1);
    }
  }

  // ---- What rounding gives ----

  /** Rounding by mantissa and exponent. */
  lemma RoundedBy(x: real, m: real, e: int)
    requires MIN_EXP <= e && 0.0 <= m < TWO_53 as real && (e > MIN_EXP ==> m >= TWO_52 as real)
    requires x == m * Two(e)
    ensures x >= 0.0
    ensures RoundMagnitude(x)
         == if e > MAX_EXP || (e == MAX_EXP && HalfEven(m) == TWO_53) then PosInf
            else Finite(HalfEven(m) as real * Two(e))
  {
    hide Two, Normal, HalfEven;
    NormalizedMagnitude(x, m, e);
  }

  lemma HalfEvenBound(m: real, n: nat)
    requires 0.0 <= m < n as real
    ensures HalfEven(m) <= n
  {
    assert m.Floor < n;
  }

  lemma HalfEvenIs(m: real, q: nat)
    requires m >= 0.0 && -0.5 < m - q as real < 0.5
    ensures HalfEven(m) == q
  {
    var p := HalfEven(m);
    assert -1.0 < (p - q) as real < 1.0;
  }

  lemma ScaledIsDouble(x: real, q: nat, e: int)
    requires q < TWO_53 && MIN_EXP <= e <= MAX_EXP && x == q as real * Two(e)
    ensures IsDouble(x) && IsDouble(-x)
  {
    hide Two;
    NonNegative(q as real, Two(e));
    assert IsScaled(Size(x), q, e) && IsScaled(Size(-x), q, e);
  }

  lemma MagnitudeIsDouble(x: real)
    requires x >= 0.0 && RoundMagnitude(x).Finite?
    ensures IsDouble(RoundMagnitude(x).r) && IsDouble(-RoundMagnitude(x).r)
  {
    hide Two, Normal, HalfEven, RoundMagnitude, IsDouble;
    var m, e := Magnitude(x);
    RoundedBy(x, m, e);
    var q, d := HalfEven(m), RoundMagnitude(x).r;
    HalfEvenBound(m, TWO_53);
    if q < TWO_53 {
      ScaledIsDouble(d, q, e);
    } else {
      TwoNext(e);
      HalfTwice(TWO_52 as real, Two(e));
      Group(2.0, TWO_52 as real, Two(e));
      ScaledIsDouble(d, TWO_52, e + 1);
    }
  }

  /** A finite result is a double. */
  lemma RoundedIsDouble(r: real)
    requires RoundToDouble(r).Finite?
    ensures IsDouble(RoundToDouble(r).r)
  {
    hide RoundMagnitude, IsDouble;
    MagnitudeIsDouble(Size(r));
  }

  /** The distance to a double in units of its last place. */
  lemma Within(m: real, q: nat, t: real, x: real, d: real)
    requires t > 0.0 && 0 < q <= TWO_53 && x == m * t && d == q as real * t
    requires -d < (x - d) * 0x40_0000_0000_0000 as real < d
    ensures -0.5 < m - q as real < 0.5
    ensures x < d <==> m < q as real
  {
    var b, c := q as real, 0x40_0000_0000_0000 as real;
    Sign(x - d, m - b, t);
    Sign(d - (x - d) * c, b - (m - b) * c, t);
    Sign(d + (x - d) * c, b + (m - b) * c, t);
  }

  lemma RoundedAt(d: real, q: nat, e: int, x: real)
    requires d > 0.0 && 0 < q <= TWO_53 && MIN_EXP <= e <= MAX_EXP && d == q as real * Two(e)
    requires x >= 0.0 && -d < (x - d) * 0x40_0000_0000_0000 as real < d
    requires e > MIN_EXP ==> q > TWO_52 || (q == TWO_52 && x >= d)
    requires q == TWO_53 ==> x < d && e < MAX_EXP
    ensures RoundMagnitude(x) == Finite(d)
  {
    hide Two, Normal, RoundMagnitude, HalfEven;
    var m := Quotient(x, Two(e));
    Within(m, q, Two(e), x, d);
    assert q < TWO_53 ==> q as real <= TWO_53 as real - 1.0;
    assert q > TWO_52 ==> q as real >= TWO_52 as real + 1.0;
    HalfEvenIs(m, q);
    RoundedBy(x, m, e);
  }

  /** Whatever is nearer to a double than its 2^54th part is rounded to it. */
  lemma CloseIsRounded(d: real, x: real)
    requires d > 0.0 && IsDouble(d)
    requires x >= 0.0 && -d < (x - d) * 0x40_0000_0000_0000 as real < d
    ensures RoundMagnitude(x) == Finite(d)
  {
    hide Two, RoundMagnitude;
    var q0: nat, e0: int :| IsScaled(Size(d), q0, e0);
    var q, e := FullScale(d, q0, e0);
    if x >= d || q > TWO_52 || e == MIN_EXP {
      RoundedAt(d, q, e, x);
    } else {
      TwoNext(e - 1);
      HalfTwice(TWO_52 as real, Two(e - 1));
      assert d == TWO_53 as real * Two(e - 1);
      RoundedAt(d, TWO_53, e - 1, x);
    }
  }

  /** Rounding keeps exactly the doubles. */
  lemma RoundingKeepsDoubles(r: real)
    ensures RoundToDouble(r) == Finite(r) <==> IsDouble(r)
  {
    hide IsDouble, RoundMagnitude;
    if RoundToDouble(r) == Finite(r) { RoundedIsDouble(r); }
    if IsDouble(r) {
      if r == 0.0 {
        ZeroIsDouble();
      } else {
        OfSize(r);
        CloseIsRounded(Size(r), Size(r));
      }
    }
  }

  lemma OfSize(r: real)
    ensures IsDouble(r) <==> IsDouble(Size(r))
  {
    assert Size(Size(r)) == Size(r);
  }

  lemma ZeroIsDouble()
    ensures IsDouble(0.0) && RoundMagnitude(0.0) == Finite(0.0)
  {
    hide Two, Normal, RoundMagnitude, HalfEven;
    assert 0 as real * Two(MIN_EXP) == 0.0;
    ScaledIsDouble(0.0, 0, MIN_EXP);
    HalfEvenIs(0.0, 0);
    RoundedBy(0.0, 0.0, MIN_EXP);
  }

  // ---- Nearest ----

  lemma NearestNatural(m: real, k: int)
    requires m >= 0.0
    ensures Size(HalfEven(m) as real - m) <= Size(k as real - m)
  {
    var q := HalfEven(m);
    if k > q {
      assert (k - q) as real >= 1.0;
    } else if k < q {
      assert (q - k) as real >= 1.0;
    }
  }

  lemma SizeTimes(u: real, a: real, t: real)
    requires t > 0.0 && u == a * t
    ensures Size(u) == Size(a) * t
  {
    Sign(u, a, t);
  }

  /** Two numbers in the same unit. */
  lemma SameUnit(u: real, a: real, w: real, b: real, t: real)
    requires t > 0.0 && u == a * t && w == b * t
    ensures u < w <==> a < b
    ensures u == w <==> a == b
  {
    Sign(u - w, a - b, t);
  }

  lemma GridNearest(x: real, m: real, t: real, v: real, k: int, z: real)
    requires t > 0.0 && m >= 0.0 && x == m * t && v == HalfEven(m) as real * t && z == k as real * t
    ensures Size(v - x) <= Size(z - x)
  {
    hide HalfEven, Size;
    var a, b := HalfEven(m) as real - m, k as real - m;
    NearestNatural(m, k);
    SizeTimes(v - x, a, t);
    SizeTimes(z - x, b, t);
    SameUnit(Size(v - x), Size(a), Size(z - x), Size(b), t);
  }

  /** A double of a lower exponent than a number lies below its binade. */
  lemma LowerExponent(z: real, p: nat, f: int, x: real, m: real, e: int)
    requires z == p as real * Two(f) && p < TWO_53 && f < e && x == m * Two(e) && m >= 4503599627370496.0
    ensures z <= 4503599627370496.0 * Two(e) <= x
  {
    hide Two;
    TwoNext(e - 1);
    TwoMonotone(f, e - 1);
    SameUnit(z, p as real, 9007199254740992.0 * Two(f), 9007199254740992.0, Two(f));
    SameUnit(4503599627370496.0 * Two(e), 4503599627370496.0, x, m, Two(e));
    assert p as real < 9007199254740992.0;
  }

  lemma HigherExponent(z: real, p: nat, f: int, e: int) returns (k: nat)
    requires z == p as real * Two(f) && f >= e
    ensures z == k as real * Two(e)
  {
    hide Two;
    var w := TwoIsWhole(f - e);
    TwoAdd(f - e, e);
    Group(p as real, w as real, Two(e));
    k := p * w;
    assert k as real == p as real * w as real;
  }

  lemma MagnitudeIsNearest(x: real, z: real)
    requires x >= 0.0 && RoundMagnitude(x).Finite? && IsDouble(z)
    ensures Size(RoundMagnitude(x).r - x) <= Size(z - x)
  {
    hide Two, Normal, HalfEven, RoundMagnitude;
    var m, e := Magnitude(x);
    RoundedBy(x, m, e);
    var t, v := Two(e), RoundMagnitude(x).r;
    if z <= 0.0 {
      GridNearest(x, m, t, v, 0, 0.0);
    } else {
      var p: nat, f: int :| IsScaled(Size(z), p, f);
      if f >= e {
        var k := HigherExponent(z, p, f, e);
        GridNearest(x, m, t, v, k, z);
      } else {
        LowerExponent(z, p, f, x, m, e);
        GridNearest(x, m, t, v, TWO_52, 4503599627370496.0 * t);
      }
    }
  }

  /** No double is nearer than the one a number is rounded to. */
  lemma RoundedIsNearest(r: real, z: real)
    requires RoundToDouble(r).Finite? && IsDouble(z)
    ensures Size(RoundToDouble(r).r - r) <= Size(z - r)
  {
    hide RoundMagnitude, IsDouble;
    if r >= 0.0 {
      MagnitudeIsNearest(r, z);
    } else {
      Opposite(z);
      MagnitudeIsNearest(-r, -z);
    }
  }

  lemma Opposite(z: real)
    ensures IsDouble(-z) <==> IsDouble(z)
  {
    assert Size(-z) == Size(z);
  }

  // ---- Ties ----

  /** The mantissa, with its leading bit set unless the exponent is the least one, is even. */
  ghost predicate HasEvenMantissa(x: real) {
    exists q: nat, e: int :: IsScaled(x, q, e) && (e > -1074 ==> q >= 4_503_599_627_370_496) && q % 2 == 0
  }

  lemma HasEven(x: real, q: nat, e: int)
    requires IsScaled(x, q, e) && (e > -1074 ==> q >= 4_503_599_627_370_496) && q % 2 == 0
    ensures HasEvenMantissa(x)
  {
  }

  lemma EvenMantissa(x: real, m: real, e: int)
    requires MIN_EXP <= e && 0.0 <= m < TWO_53 as real && (e > MIN_EXP ==> m >= TWO_52 as real) && x == m * Two(e)
    requires x >= 0.0 && RoundMagnitude(x).Finite? && HalfEven(m) % 2 == 0
    ensures HasEvenMantissa(RoundMagnitude(x).r)
  {
    hide Two, Normal, RoundMagnitude, HalfEven, HasEvenMantissa;
    RoundedBy(x, m, e);
    var q, d := HalfEven(m), RoundMagnitude(x).r;
    HalfEvenBound(m, TWO_53);
    if q < TWO_53 {
      AtLeastWhole(m, TWO_52);
      HasEven(d, q, e);
    } else {
      TwoNext(e);
      HalfTwice(TWO_52 as real, Two(e));
      Group(2.0, TWO_52 as real, Two(e));
      HasEven(d, TWO_52, e + 1);
    }
  }

  lemma AtLeastWhole(m: real, n: nat)
    requires m >= 0.0
    ensures m >= n as real ==> HalfEven(m) >= n
  {
    if m >= n as real { assert m.Floor >= n; }
  }

  /** Two multiples of a unit that are equally near to a number, the nearest one and another. */
  lemma TieOnGrid(x: real, m: real, t: real, v: real, k: int, z: real)
    requires t > 0.0 && m >= 0.0 && x == m * t && v == HalfEven(m) as real * t && z == k as real * t
    requires v != z && Size(v - x) == Size(z - x)
    ensures HalfEven(m) % 2 == 0
  {
    hide Size, HalfEven;
    var q := HalfEven(m);
    var a, b := q as real - m, k as real - m;
    SizeTimes(v - x, a, t);
    SizeTimes(z - x, b, t);
    SameUnit(Size(v - x), Size(a), Size(z - x), Size(b), t);
    SameUnit(v, q as real, z, k as real, t);
    HalfApart(q, k, m);
  }

  lemma HalfApart(q: nat, k: int, m: real)
    requires q != k && Size(q as real - m) == Size(k as real - m) && m - 0.5 <= q as real <= m + 0.5
    ensures q as real == m - 0.5 || q as real == m + 0.5
  {
    if q < k { assert (k - q) as real >= 1.0; } else { assert (q - k) as real >= 1.0; }
  }

  lemma MagnitudeTies(x: real, z: real)
    requires x >= 0.0 && RoundMagnitude(x).Finite? && IsDouble(z)
    requires z != RoundMagnitude(x).r && Size(RoundMagnitude(x).r - x) == Size(z - x)
    ensures HasEvenMantissa(RoundMagnitude(x).r)
  {
    hide Two, Normal, HalfEven, RoundMagnitude, HasEvenMantissa;
    var m, e := Magnitude(x);
    RoundedBy(x, m, e);
    var t, v := Two(e), RoundMagnitude(x).r;
    if z <= 0.0 {
      GridNearest(x, m, t, v, 0, 0.0);
      assert z == 0.0;
      TieOnGrid(x, m, t, v, 0, z);
    } else {
      var p: nat, f: int :| IsScaled(Size(z), p, f);
      if f >= e {
        var k := HigherExponent(z, p, f, e);
        TieOnGrid(x, m, t, v, k, z);
      } else {
        LowerExponent(z, p, f, x, m, e);
        GridNearest(x, m, t, v, TWO_52, 4503599627370496.0 * t);
        TieOnGrid(x, m, t, v, TWO_52, z);
      }
    }
    EvenMantissa(x, m, e);
  }

  /** Where another double is just as near, the one with the even mantissa is taken. */
  lemma TiesToEven(r: real, z: real)
    requires RoundToDouble(r).Finite? && IsDouble(z)
    requires z != RoundToDouble(r).r && Size(RoundToDouble(r).r - r) == Size(z - r)
    ensures HasEvenMantissa(Size(RoundToDouble(r).r))
  {
    hide RoundMagnitude, IsDouble, HasEvenMantissa;
    if r >= 0.0 {
      MagnitudeTies(r, z);
    } else {
      Opposite(z);
      MagnitudeTies(-r, -z);
    }
  }

  // ---- Overflow ----

  /** Half a unit of the last place above the greatest double. */
  function Limit(): real {
    18014398509481983.0 * Two(970)
  }

  lemma MagnitudeOverflows(x: real)
    requires x >= 0.0
    ensures RoundMagnitude(x).PosInf? <==> x >= Limit()
  {
    hide Two, Normal, RoundMagnitude, HalfEven;
    var m, e := Magnitude(x);
    RoundedBy(x, m, e);
    TwoNext(970);
    TwoNext(971);
    if e > MAX_EXP {
      TwoMonotone(972, e);
      SameUnit(x, m, 4503599627370496.0 * Two(e), 4503599627370496.0, Two(e));
    } else if e == MAX_EXP {
      SameUnit(x, m, 9007199254740991.5 * Two(971), 9007199254740991.5, Two(971));
      HalfEvenTop(m);
    } else {
      TwoMonotone(e, 970);
      SameUnit(x, m, 9007199254740992.0 * Two(e), 9007199254740992.0, Two(e));
    }
  }

  lemma HalfEvenTop(m: real)
    requires 0.0 <= m < TWO_53 as real
    ensures HalfEven(m) == TWO_53 <==> m >= TWO_53 as real - 0.5
  {
    assert m.Floor < TWO_53;
    if m >= TWO_53 as real - 1.0 { assert m.Floor == TWO_53 - 1; }
  }

  /** A number becomes infinite exactly from the limit on. */
  lemma RoundedOverflows(r: real)
    ensures RoundToDouble(r).PosInf? <==> r >= Limit()
    ensures RoundToDouble(r).NegInf? <==> r <= -Limit()
  {
    hide Two, RoundMagnitude;
    MagnitudeOverflows(Size(r));
  }

  // ---- Integers ----

  lemma SmallIntegers(n: nat)
    requires n <= TWO_53
    ensures IsDouble(n as real) && IsDouble(-(n as real))
  {
    TwoZero();
    TwoNext(0);
    if n < TWO_53 {
      ScaledIsDouble(n as real, n, 0);
    } else {
      ScaledIsDouble(n as real, TWO_52, 1);
    }
  }

  lemma BelowLimit(n: nat)
    requires n <= TWO_64
    ensures (n as real) < Limit()
  {
    hide Two;
    TwoMonotone(11, 970);
    TwoAdd(5, 6);
    FifthAndSixth();
  }

  lemma FifthAndSixth()
    ensures Two(5) == 32.0 && Two(6) == 64.0
  {
    TwoNext(0); TwoNext(1); TwoNext(2); TwoNext(3); TwoNext(4); TwoNext(5);
    TwoZero();
  }

  /** An integer of 64 bits is rounded to an integer. */
  lemma IntegerIsRounded(n: nat) returns (v: nat)
    requires n < TWO_64
    ensures RoundToDouble(n as real) == Finite(v as real) && IsDouble(v as real)
    ensures v == n <==> IsDouble(n as real)
  {
    hide Two, Normal, HalfEven, RoundMagnitude, IsDouble;
    var x := n as real;
    BelowLimit(n);
    RoundedOverflows(x);
    RoundingKeepsDoubles(x);
    RoundedIsDouble(x);
    var m, e := Magnitude(x);
    RoundedBy(x, m, e);
    var q := HalfEven(m);
    if e >= 0 {
      v := HigherExponent(RoundToDouble(x).r, HalfEven(m), e, 0);
      TwoZero();
    } else {
      v := n;
      WholeMantissa(n, m, e);
    }
  }

  lemma WholeMantissa(n: nat, m: real, e: int)
    requires e < 0 && m >= 0.0 && n as real == m * Two(e)
    ensures HalfEven(m) as real * Two(e) == n as real
  {
    hide Two, HalfEven;
    var w := TwoIsWhole(-e);
    TwoAdd(e, -e);
    TwoZero();
    Group(m, Two(e), Two(-e));
    assert m == n as real * w as real == (n * w) as real;
    HalfEvenIs(m, n * w);
  }

  /** static_cast<double> of an integer, as the integer it is. */
  function ToDouble(n: nat): nat {
    var d := RoundToDouble(n as real);
    if d.Finite? && d.r >= 0.0 then d.r.Floor else 0
  }

  lemma ToDoubleIs(n: nat)
    requires n < TWO_64
    ensures RoundToDouble(n as real) == Finite(ToDouble(n) as real) && IsDouble(ToDouble(n) as real)
    ensures ToDouble(n) == n <==> IsDouble(n as real)
  {
    hide RoundToDouble, IsDouble;
    var v := IntegerIsRounded(n);
  }

  /** The first integer that is lost: the one after 2^53 becomes 2^53. */
  lemma FirstLostInteger()
    ensures RoundToDouble((TWO_53 + 1) as real) == Finite(TWO_53 as real) == RoundToDouble(TWO_53 as real)
  {
    hide Normal, RoundMagnitude;
    SmallIntegers(TWO_53);
    RoundingKeepsDoubles(TWO_53 as real);
    TwoZero();
    TwoNext(0);
    var m := TWO_52 as real + 0.5;
    assert m.Floor == TWO_52;
    RoundedBy((TWO_53 + 1) as real, m, 1);
  }

  /** The greatest integer of 64 bits becomes 2^64. */
  lemma GreatestInteger()
    ensures RoundToDouble((TWO_64 - 1) as real) == Finite(TWO_64 as real)
  {
    hide Two, Normal, RoundMagnitude;
    TwoAdd(5, 6);
    FifthAndSixth();
    var m := (TWO_64 - 1) as real / 2048.0;
    assert m.Floor == TWO_53 - 1;
    RoundedBy((TWO_64 - 1) as real, m, 11);
  }
}
