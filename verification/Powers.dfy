/** Powers of two and of ten with integer exponents. */
module Powers {

  function Two(e: int): (p: real)
    ensures p > 0.0
    decreases if e < 0 then -e else e
  {
    if e == 0 then 1.0 else if e > 0 then 2.0 * Two(e - 1) else Two(e + 1) / 2.0
  }

  function Ten(e: int): (p: real)
    ensures p > 0.0
    decreases if e < 0 then -e else e
  {
    if e == 0 then 1.0 else if e > 0 then 10.0 * Ten(e - 1) else Ten(e + 1) / 10.0
  }

  /** The power of ten as a natural number. */
  function Ten10(e: nat): (p: nat)
    ensures p > 0
  {
    if e == 0 then 1 else 10 * Ten10(e - 1)
  }

  lemma TwoNext(e: int)
    ensures Two(e + 1) == 2.0 * Two(e)
  {
  }

  lemma TenNext(e: int)
    ensures Ten(e + 1) == 10.0 * Ten(e)
  {
  }

  lemma Regroup(p: real, c: real, q: real)
    ensures p * (c * q) == c * (p * q)
  {
  }

  lemma {:induction false} TwoAdd(d: int, e: int)
    ensures Two(d + e) == Two(d) * Two(e)
    decreases if e < 0 then -e else e
  {
    hide Two;
    TwoZero();
    if e > 0 {
      TwoAdd(d, e - 1);
      TwoNext(d + e - 1);
      TwoNext(e - 1);
      Regroup(Two(d), 2.0, Two(e - 1));
    } else if e < 0 {
      TwoAdd(d, e + 1);
      TwoNext(d + e);
      TwoNext(e);
      Regroup(Two(d), 2.0, Two(e));
    }
  }

  lemma TwoZero()
    ensures Two(0) == 1.0
  {
  }

  lemma {:induction false} TenAdd(d: int, e: int)
    ensures Ten(d + e) == Ten(d) * Ten(e)
    decreases if e < 0 then -e else e
  {
    hide Ten;
    TenZero();
    if e > 0 {
      TenAdd(d, e - 1);
      TenNext(d + e - 1);
      TenNext(e - 1);
      Regroup(Ten(d), 10.0, Ten(e - 1));
    } else if e < 0 {
      TenAdd(d, e + 1);
      TenNext(d + e);
      TenNext(e);
      Regroup(Ten(d), 10.0, Ten(e));
    }
  }

  lemma TenZero()
    ensures Ten(0) == 1.0
  {
  }

  lemma {:induction false} TwoMonotone(d: int, e: int)
    requires d <= e
    ensures Two(d) <= Two(e)
    decreases e - d
  {
    if d < e {
      TwoMonotone(d, e - 1);
      TwoNext(e - 1);
    }
  }

  lemma {:induction false} TenMonotone(d: int, e: int)
    requires d <= e
    ensures Ten(d) <= Ten(e)
    decreases e - d
  {
    if d < e {
      TenMonotone(d, e - 1);
      TenNext(e - 1);
    }
  }

  lemma {:induction false} TwoIsWhole(e: nat) returns (p: nat)
    ensures Two(e) == p as real && p > 0
  {
    if e == 0 {
      p := 1;
    } else {
      var h := TwoIsWhole(e - 1);
      p := 2 * h;
    }
  }

  lemma {:induction false} TenIsWhole(e: nat)
    ensures Ten(e) == Ten10(e) as real
  {
    if e > 0 { TenIsWhole(e - 1); }
  }

  /** Ten to the sixteenth exceeds two to the 53rd: 17 decimal digits are finer than 53 bits. */
  lemma SixteenDigits(k: int)
    ensures Ten(k) == 10_000_000_000_000_000.0 * Ten(k - 16)
    ensures Ten10(16) == 10_000_000_000_000_000 && Ten10(17) == 100_000_000_000_000_000
  {
    TenNext(k - 1); TenNext(k - 2); TenNext(k - 3); TenNext(k - 4);
    TenNext(k - 5); TenNext(k - 6); TenNext(k - 7); TenNext(k - 8);
    TenNext(k - 9); TenNext(k - 10); TenNext(k - 11); TenNext(k - 12);
    TenNext(k - 13); TenNext(k - 14); TenNext(k - 15); TenNext(k - 16);
    assert Ten10(4) == 10_000 && Ten10(8) == 100_000_000 && Ten10(12) == 1_000_000_000_000;
  }
}
