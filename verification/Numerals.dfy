/** Decimal numerals and hexadecimal digits. */
module Numerals {
  import opened Bytes
  import opened Powers

  predicate AllDigits(s: bytes) {
    forall k | 0 <= k < |s| :: IsDigit(s[k])
  }

  function DigitsValue(s: bytes): int {
    if s == [] then 0 else 10 * DigitsValue(s[..|s| - 1]) + (s[|s| - 1] as int - 0x30)
  }

  function Digits(n: nat): bytes {
    if n < 10 then [0x30 + n] else Digits(n / 10) + [0x30 + n % 10]
  }

  function Abs(i: int): nat {
    if i < 0 then -i else i
  }

  /** An integer as %d and the streams print it. */
  function Decimal(i: int): bytes {
    if i < 0 then [0x2d] + Digits(-i) else Digits(i)
  }

  function HexDigit(d: nat): (r: byte)
    requires d < 16
    ensures r == Ascii("0123456789abcdef")[d]
  {
    if d < 10 then 0x30 + d else 0x61 + d - 10
  }

  function Zeros(n: nat): (s: bytes)
    ensures |s| == n
  {
    if n == 0 then [] else Zeros(n - 1) + [0x30]
  }

  lemma {:induction false} DigitsRoundTrip(n: nat)
    ensures AllDigits(Digits(n)) && DigitsValue(Digits(n)) == n
    ensures Digits(n) != [] && (Digits(n)[0] == 0x30 ==> n == 0)
  {
    if n >= 10 {
      var d := Digits(n);
      DigitsRoundTrip(n / 10);
      assert d[..|d| - 1] == Digits(n / 10);
    } else {
      assert Digits(n)[..0] == [];
    }
  }

  lemma DecimalInjective(i: int, j: int)
    requires Decimal(i) == Decimal(j)
    ensures i == j
  {
    DigitsRoundTrip(Abs(i));
    DigitsRoundTrip(Abs(j));
    assert Decimal(i)[0] == Decimal(j)[0];
    if i < 0 {
      assert Decimal(i)[1..] == Digits(-i) && Decimal(j)[1..] == Digits(-j);
    }
  }

  lemma DigitsValueAppend(s: bytes, d: byte)
    ensures DigitsValue(s + [d]) == 10 * DigitsValue(s) + (d as int - 0x30)
  {
    assert (s + [d])[..|s|] == s;
  }

  /** Zeros in front do not count. */
  lemma {:induction false} LeadingZeros(n: nat, s: bytes)
    ensures DigitsValue(Zeros(n) + s) == DigitsValue(s) && AllDigits(Zeros(n))
    decreases n, |s|
  {
    if s != [] {
      var init := s[..|s| - 1];
      LeadingZeros(n, init);
      assert s == init + [s[|s| - 1]];
      Assoc(Zeros(n), init, [s[|s| - 1]]);
      DigitsValueAppend(Zeros(n) + init, s[|s| - 1]);
      DigitsValueAppend(init, s[|s| - 1]);
    } else if n > 0 {
      LeadingZeros(n - 1, []);
      assert Zeros(n - 1) + [] == Zeros(n - 1) && Zeros(n) + [] == Zeros(n);
      DigitsValueAppend(Zeros(n - 1), 0x30);
    }
  }

  /** A numeral of k digits is one of a number between two powers of ten. */
  lemma {:induction false} DigitCount(n: nat, k: nat)
    requires Ten10(k) <= n < Ten10(k + 1)
    ensures |Digits(n)| == k + 1
  {
    if k > 0 {
      assert Ten10(k) == 10 * Ten10(k - 1);
      DigitCount(n / 10, k - 1);
    }
  }

  /** Multiplying by a power of ten appends zeros. */
  lemma {:induction false} DigitsTimesTen(n: nat, j: nat)
    requires n > 0
    ensures Digits(n * Ten10(j)) == Digits(n) + Zeros(j)
  {
    if j > 0 {
      var m := n * Ten10(j - 1);
      DigitsTimesTen(n, j - 1);
      Positive(n, Ten10(j - 1));
      assert n * Ten10(j) == 10 * m;
      assert 10 * m / 10 == m && 10 * m % 10 == 0;
      Assoc(Digits(n), Zeros(j - 1), [0x30]);
    } else {
      assert n * 1 == n && Digits(n) + [] == Digits(n);
    }
  }

  lemma Positive(n: nat, p: nat)
    requires n > 0 && p > 0
    ensures n * p > 0
  {
  }
}
