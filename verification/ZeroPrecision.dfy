/**
 Precision 0 in a format that is not fixed: Grisu prints one digit, and when it cannot decide
 that digit the fallback is asked for none.
 */
module ZeroPrecision {
  import opened Arith
  import opened Decimal
  import opened CountDigits
  import Grisu
  import opened Fallback
  import opened FormatFloat

  // The value rounded to a multiple of 10^magnitude is also the value rounded to one of
  // 10^(magnitude - 1), as one digit would be, exactly when it is at least nine and a half of those.
  lemma CoarseResult(f: nat, e: int, magnitude: int, d: int, exp: int)
    requires Magnitude(f, e, magnitude) && Prints(f, e, d, exp, magnitude)
    ensures Prints(f, e, d, exp, magnitude - 1) <==> 2 * (f * Gap(e, magnitude - 1)) >= 19 * Den(e, magnitude - 1)
  {
    var n, q := f * Gap(e, magnitude), Den(e, magnitude);
    var n', q' := f * Gap(e, magnitude - 1), Den(e, magnitude - 1);
    var m := if d == 0 then 0 else d * Pow(10, exp - magnitude);
    assert Pow(10, 1) == 10;
    RatioShift(e, magnitude, 1);
    FactorRatio(f, Gap(e, magnitude), 10, q, Gap(e, magnitude - 1), q');
    FinerUnits(d, exp, magnitude);
    ZeroOrOne(n, q, m);
    SameRounding(10 * n, q, n', q', 10 * m);
    TensRatio(n, q, n', q');
    MulAssoc(10, m, q);
  }

  lemma FinerUnits(d: int, exp: int, place: int)
    requires d == 0 || exp >= place
    ensures d != 0 ==> d * Pow(10, exp - (place - 1)) == 10 * (d * Pow(10, exp - place))
  {
    if d != 0 { MulAssoc(d, 10, Pow(10, exp - place)); }
  }

  lemma ZeroOrOne(n: nat, q: nat, m: int)
    requires n < q && Closest(n, q, m)
    ensures 0 <= m <= 1 && (m == 0 ==> 2 * n <= q) && (m == 1 ==> 2 * n >= q)
  {
    if m <= -1 { MulMono(m, -1, q); } else if m >= 2 { MulMono(2, m, q); }
  }

  lemma SameRounding(p: nat, q: nat, p': nat, q': nat, d: int)
    requires 0 < q && 0 < q' && p * q' == p' * q
    ensures RoundsTo(p, q, d) <==> RoundsTo(p', q', d)
  {
    if RoundsTo(p, q, d) { RoundsToRatio(p, q, p', q', d); }
    if RoundsTo(p', q', d) { RoundsToRatio(p', q', p, q, d); }
  }

  // The same bounds on ten times one ratio and on the other.
  lemma TensRatio(n: nat, q: nat, n': nat, q': nat)
    requires 0 < q && 0 < q' && n * 10 * q' == n' * q
    ensures 2 * n' >= 19 * q' <==> 20 * n >= 19 * q
    ensures SLIVER * n' > (SLIVER - 1) * q' ==> 20 * n > q
    ensures 10 * n * q' == n' * q
  {
    MulAssoc(20, n, q');
    MulAssoc(2, n', q);
    Ordered(2 * n', 19 * q', 20 * n, 19 * q, q, q');
    MulAssoc(SLIVER, n', q);
    Ordered(2 * n', q', 20 * n, q, q, q');
  }

  lemma Ordered(x: nat, y: nat, x': nat, y': nat, q: nat, q': nat)
    requires 0 < q && 0 < q' && x * q == x' * q' && y * q == y' * q'
    ensures x >= y <==> x' >= y'
    ensures x > y <==> x' > y'
  {
    if x >= y { MulMono(y, x, q); MulCancel(y', x', q'); }
    if x' >= y' { MulMono(y', x', q'); MulCancel(y, x, q); }
    if x <= y { MulMono(x, y, q); MulCancel(x', y', q'); }
    if x' <= y' { MulMono(x', y', q'); MulCancel(x, y, q); }
  }

  // 2.5 = 0x14000000000000 * 2^-51, with the cached power 10^4 = 0x9c40000000000000 * 2^-50.
  const TWO_AND_A_HALF: nat := 0x14_0000_0000_0000
  const TEN_TO_4: nat := 0x9c40_0000_0000_0000

  // For 2.5, Grisu cannot decide between 2 and 3, and whatever is right one place higher is
  // neither of them.
  lemma CoarseHappens()
    ensures CachedPower(TEN_TO_4, -50, 4) && InRange(TWO_AND_A_HALF, -51, -50)
    ensures Coarse(TWO_AND_A_HALF, -51, 0, false, TEN_TO_4, -50) && Kappa(TWO_AND_A_HALF, -51, TEN_TO_4, -50) == 5
    ensures forall d: int, exp: int :: Prints(TWO_AND_A_HALF, -51, d, exp, 1) ==> !Prints(TWO_AND_A_HALF, -51, d, exp, 0)
  {
    ScaledTo25000();
    FourIsExact();
    HalfUndecided();
    HalfMagnitude();
    forall d: int, exp: int | Prints(TWO_AND_A_HALF, -51, d, exp, 1) ensures !Prints(TWO_AND_A_HALF, -51, d, exp, 0) {
      CoarseResult(TWO_AND_A_HALF, -51, 1, d, exp);
    }
  }

  lemma ScaledTo25000()
    ensures ScaledExp(TWO_AND_A_HALF, -51, -50) == -48 && ScaledValue(TWO_AND_A_HALF, TEN_TO_4) == 25000 * Pow(2, 48)
    ensures Kappa(TWO_AND_A_HALF, -51, TEN_TO_4, -50) == 5
  {
    PowTwo32();
    PowAdd(2, 32, 16);
    assert Pow(2, 11) == 2048 by { assert Pow(2, 5) == 32; PowAdd(2, 5, 6); }
    assert NumDigits(25000) == 5;
  }

  lemma FourIsExact()
    ensures CachedPower(TEN_TO_4, -50, 4)
  {
    PowTwo32();
    PowAdd(2, 32, 16);
    PowAdd(2, 48, 2);
    assert Pow(2, 2) == 4 && Pow(2, 0) == 1 == Pow(10, 0);
    assert Pow(10, 4) == 10_000 by { assert Pow(10, 2) == 100; }
  }

  lemma HalfUndecided()
    ensures !Grisu.Decided(25000 * Pow(2, 48), Pow(2, 48), 4)
  {
    var one := Pow(2, 48);
    assert Pow(10, 4) == 10_000 by { assert Pow(10, 2) == 100; }
    assert Pow(10, 0) == 1;
    DivModUnique(25000 * one, 10_000 * one, 2, 5000 * one);
  }

  lemma HalfMagnitude()
    ensures Magnitude(TWO_AND_A_HALF, -51, 1)
    ensures 2 * (TWO_AND_A_HALF * Gap(-51, 0)) < 19 * Den(-51, 0)
  {
    PowTwo32();
    PowAdd(2, 32, 16);
    PowAdd(2, 48, 3);
    assert Pow(2, 3) == 8 && Pow(2, 0) == 1 == Pow(10, 0) && Pow(10, 1) == 10;
  }
}
