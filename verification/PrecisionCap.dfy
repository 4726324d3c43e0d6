/**
 The cap of 767 on the precision of format_float: no double has more significant digits, but
 with a fixed format the precision counts digits after the point, and then the cap loses digits.
 */
module PrecisionCap {
  import opened Arith
  import opened Decimal
  import opened Fallback
  import opened FormatFloat
  import opened TrailingZeros

  // How far x is from a multiple of q.
  function Distance(x: nat, q: nat): nat
    requires 0 < q
  {
    NatQuotient(x, q);
    Min(x % q, q - x % q)
  }

  lemma DistanceNearest(x: nat, q: nat, m: int)
    requires 0 < q && Closest(x, q, m)
    ensures Abs(x - m * q) == Distance(x, q)
  {
    NatQuotient(x, q);
    DistanceScalar(x, q, x / q, x % q, m);
  }

  lemma DistanceScalar(x: nat, q: nat, d: nat, r: nat, m: int)
    requires x == d * q + r && r < q && 2 * Abs(x - m * q) <= q
    ensures Abs(x - m * q) == Min(r, q - r)
  {
    assert (d + 1) * q == d * q + q && (d - 1) * q == d * q - q && (d + 2) * q == d * q + 2 * q;
    if m < d { MulMono(m, d - 1, q); } else if m > d + 1 { MulMono(d + 2, m, q); }
  }

  lemma MorePlaces(f: nat, e: int, cap: nat, extra: nat)
    ensures f * Gap(e, 0 - cap - extra) == f * Gap(e, 0 - cap) * Pow(10, extra)
    ensures Den(e, 0 - cap - extra) == Den(e, 0 - cap)
  {
    PowAdd(10, cap, extra);
    MulAssoc(Pow(2, Max(e, 0)), Pow(10, cap), Pow(10, extra));
    MulAssoc(f, Gap(e, 0 - cap), Pow(10, extra));
  }

  // d * 10^exp in units of 10^-p.
  function InUnits(d: int, exp: int, p: nat): int
    requires d == 0 || exp + p >= 0
  {
    if d == 0 then 0 else d * Pow(10, exp + p)
  }

  lemma InUnitsScale(d: int, exp: int, p: nat, extra: nat)
    requires d == 0 || exp + p >= 0
    ensures InUnits(d, exp, p + extra) == InUnits(d, exp, p) * Pow(10, extra)
  {
    if d != 0 {
      PowAdd(10, exp + p, extra);
      assert exp + (p + extra) == exp + p + extra;
      MulAssoc(d, Pow(10, exp + p), Pow(10, extra));
    }
  }

  lemma PrintsInUnits(f: nat, e: int, d: int, exp: int, p: nat)
    ensures Prints(f, e, d, exp, 0 - p) <==>
            (d == 0 || exp + p >= 0) && RoundsTo(f * Gap(e, 0 - p), Den(e, 0 - p), InUnits(d, exp, p))
  {
    NatProduct(f, Gap(e, 0 - p));
  }

  lemma PaddedPlaces(f: nat, e: int, d: int, exp: int, cap: nat, extra: nat)
    requires Prints(f, e, d, exp, 0 - cap)
    ensures Prints(f, e, d, exp, 0 - cap - extra) <==>
            2 * (Distance(f * Gap(e, 0 - cap), Den(e, 0 - cap)) * Pow(10, extra)) <= Den(e, 0 - cap)
  {
    PrintsInUnits(f, e, d, exp, cap);
    PrintsInUnits(f, e, d, exp, cap + extra);
    MorePlaces(f, e, cap, extra);
    InUnitsScale(d, exp, cap, extra);
    NatProduct(f, Gap(e, 0 - cap));
    NatProduct(f, Gap(e, 0 - cap - extra));
    TensEven(extra);
    ScaledRounding(f * Gap(e, 0 - cap), Den(e, 0 - cap), InUnits(d, exp, cap), Pow(10, extra),
                  f * Gap(e, 0 - cap - extra), InUnits(d, exp, cap + extra));
  }

  lemma TensEven(n: nat)
    ensures Pow(10, n) == 1 || Pow(10, n) % 2 == 0
  {
    if n > 0 { DivModUnique(Pow(10, n), 2, 5 * Pow(10, n - 1), 0); }
  }

  // What is printed with 767 places, padded with zeros to p places, is right for p places exactly
  // when the value is near enough to a multiple of 10^-767.
  lemma CapExact(f: nat, e: int, d: int, exp: int, p: nat)
    requires 767 <= p && Prints(f, e, d, exp, -767)
    ensures Prints(f, e, d, exp, -(p as int)) <==>
            2 * (Distance(f * Gap(e, -767), Den(e, -767)) * Pow(10, p - 767)) <= Den(e, -767)
  {
    PaddedPlaces(f, e, d, exp, 767, p - 767);
  }

  lemma ScaledRounding(x: nat, q: nat, m: int, ten: nat, x': nat, m': int)
    requires 0 < q && RoundsTo(x, q, m) && x' == x * ten && m' == m * ten && (ten == 1 || ten % 2 == 0)
    ensures RoundsTo(x', q, m') <==> 2 * (Distance(x, q) * ten) <= q
  {
    DistanceNearest(x, q, m);
    ScaledError(x, q, m, ten);
    if ten == 1 { assert m * 1 == m; } else { EvenProduct(m, ten); }
  }

  lemma EvenProduct(m: int, ten: nat)
    requires ten % 2 == 0
    ensures m * ten % 2 == 0
  {
    MulAssoc(m, ten / 2, 2);
    DivModUnique(m * ten, 2, m * (ten / 2), 0);
  }

  lemma ScaledError(x: nat, q: nat, m: int, ten: nat)
    ensures Abs(x * ten - m * ten * q) == Abs(x - m * q) * ten
  {
    MulAssoc(m, ten, q);
    assert (x - m * q) * ten == x * ten - m * q * ten;
    AbsProduct(x - m * q, ten);
  }

  // Once the places suffice for the exact value, that means: exactly when 767 of them do.
  lemma CapPlaces(f: nat, e: int, p: nat)
    requires 767 <= p && -e <= p
    ensures 2 * (Distance(f * Gap(e, -767), Den(e, -767)) * Pow(10, p - 767)) <= Den(e, -767) <==>
            f % Pow(2, Max(-e - 767, 0)) == 0
  {
    var x, q := f * Gap(e, -767), Den(e, -767);
    if -e <= 767 {
      FewPlaces(f, e, 767);
      assert Pow(2, 0) == 1;
    } else {
      MulAssoc(f, Pow(10, 767), Pow(10, p - 767));
      PowAdd(10, 767, p - 767);
      PlacesSuffice(f, -e, p);
      ZeroOrHalf(x, q, Pow(10, p - 767), f * Pow(5, p) * Pow(2, p + e));
      ManyPlaces(f, 767, -e - 767, x, q);
    }
  }

  lemma FewPlaces(f: nat, e: int, cap: nat)
    requires -e <= cap
    ensures Distance(f * Gap(e, -(cap as int)), Den(e, -(cap as int))) == 0
  {
    var up, down := Pow(2, Max(e, 0)), Max(-e, 0);
    PlacesSuffice(f * up, down, cap);
    MulAssoc(f, up, Pow(10, cap));
    assert Pow(10, 0) == 1;
    NoDistance(f * Gap(e, -(cap as int)), Den(e, -(cap as int)), f * up * Pow(5, cap) * Pow(2, cap - down));
  }

  lemma NoDistance(x: nat, q: nat, z: int)
    requires 0 < q && x == z * q
    ensures Distance(x, q) == 0
  {
    DivModUnique(x, q, z, 0);
  }

  // p decimal places are enough for k binary ones.
  lemma PlacesSuffice(f: int, k: nat, p: nat)
    requires k <= p
    ensures f * Pow(10, p) == f * Pow(5, p) * Pow(2, p - k) * Pow(2, k)
  {
    PowProduct(2, 5, p);
    PowAdd(2, p - k, k);
    PlacesScalar(f, Pow(5, p), Pow(2, p - k), Pow(2, k), Pow(2, p));
  }

  lemma PlacesScalar(f: int, five: int, rest: int, two: int, all: int)
    requires all == rest * two
    ensures f * (all * five) == f * five * rest * two
  {
    MulAssoc(f, five, all);
    MulAssoc(f * five, rest, two);
  }

  // A distance that scales to a multiple is nothing, or too much.
  lemma ZeroOrHalf(x: nat, q: nat, ten: nat, z: nat)
    requires 0 < q && 0 < ten && x * ten == z * q
    ensures 2 * (Distance(x, q) * ten) <= q <==> x % q == 0
  {
    NatQuotient(x, q);
    var d, r := x / q, x % q;
    if r == 0 {
    } else {
      MulAssoc(d, q, ten);
      MulAssoc(d, ten, q);
      assert (d * q + r) * ten == d * ten * q + r * ten && (q - r) * ten == ten * q - r * ten;
      assert (z - d * ten) * q == z * q - d * ten * q && (ten - (z - d * ten)) * q == ten * q - (z - d * ten) * q;
      AtLeastOnce(r * ten, z - d * ten, q, r, ten);
      AtLeastOnce((q - r) * ten, ten - (z - d * ten), q, q - r, ten);
    }
  }

  lemma AtLeastOnce(y: int, c: int, q: nat, r: nat, ten: nat)
    requires 0 < q && 0 < r && 0 < ten && y == r * ten == c * q
    ensures y >= q
  {
    MulStrict(0, r, ten);
    if c <= 0 { MulMono(c, 0, q); } else { MulMono(1, c, q); }
  }

  lemma ManyPlaces(f: nat, cap: nat, j: nat, x: nat, q: nat)
    requires x == f * Pow(10, cap) && q == Pow(2, cap + j)
    ensures x % q == 0 <==> f % Pow(2, j) == 0
  {
    var two, five := Pow(2, cap), Pow(5, cap);
    PowProduct(2, 5, cap);
    PowAdd(2, j, cap);
    PowFiveOdd(cap);
    if x % q == 0 {
      NatQuotient(x, q);
      CancelCommon(f, two, five, x / q, Pow(2, j));
      TwosCancel(f, five, j, x / q);
      DivModUnique(f, Pow(2, j), f / Pow(2, j), 0);
    }
    if f % Pow(2, j) == 0 {
      NatQuotient(f, Pow(2, j));
      var g := f / Pow(2, j);
      MulSwap(g, Pow(2, j), five, two);
      DivModUnique(x, q, g * five, 0);
    }
  }

  lemma CancelCommon(f: nat, two: nat, five: nat, z: nat, rest: nat)
    requires 0 < two && f * (two * five) == z * (rest * two)
    ensures f * five == z * rest
  {
    MulAssoc(f, five, two);
    MulAssoc(z, rest, two);
    MulCancelEq(f * five, z * rest, two);
  }

  // The smallest double needs 1074 places, and 767 of them, padded, are wrong.
  lemma CapLosesDigits(d: int, exp: int)
    requires Prints(1, -1074, d, exp, -767)
    ensures !Prints(1, -1074, d, exp, -1074)
  {
    CapExact(1, -1074, d, exp, 1074);
    CapPlaces(1, -1074, 1074);
    PowStrict(2, 0, 307);
    DivModUnique(1, Pow(2, 307), 0, 1);
  }

  // ----- Significant digits -----

  // 767 significant digits of a double are all of them: they are the exact value, and padded with
  // zeros they are right for any greater precision.
  lemma SignificantDigitsSuffice(f: nat, e: int, magnitude: int, d: int, exp: int, precision: nat)
    requires 0 < f < 0x20_0000_0000_0000 && -1074 <= e <= 971 && Magnitude(f, e, magnitude)
    requires Prints(f, e, d, exp, magnitude - 767) && 767 <= precision
    ensures Prints(f, e, d, exp, magnitude - precision)
    ensures magnitude <= 767 &&
            InUnits(d, exp, 767 - magnitude) * Den(e, magnitude - 767) == f * Gap(e, magnitude - 767)
  {
    SmallMagnitude(f, e, magnitude);
    EnoughPlaces(f, e, d, exp, 767 - magnitude, precision - 767);
  }

  lemma EnoughPlaces(f: nat, e: int, d: int, exp: int, cap: nat, extra: nat)
    requires -e <= cap && Prints(f, e, d, exp, 0 - cap)
    ensures Prints(f, e, d, exp, 0 - cap - extra) && InUnits(d, exp, cap) * Den(e, 0 - cap) == f * Gap(e, 0 - cap)
  {
    FewPlaces(f, e, cap);
    PaddedPlaces(f, e, d, exp, cap, extra);
    PrintsInUnits(f, e, d, exp, cap);
    NatProduct(f, Gap(e, 0 - cap));
    NoDistanceExact(f * Gap(e, 0 - cap), Den(e, 0 - cap), InUnits(d, exp, cap), Pow(10, extra));
  }

  lemma NoDistanceExact(x: nat, q: nat, m: int, ten: nat)
    requires 0 < q && RoundsTo(x, q, m) && Distance(x, q) == 0
    ensures m * q == x && 2 * (Distance(x, q) * ten) <= q
  {
    DistanceNearest(x, q, m);
  }

  // A double has so few binary places that its 767 significant digits reach as far.
  lemma SmallMagnitude(f: nat, e: int, magnitude: int)
    requires 0 < f < 0x20_0000_0000_0000 && -1074 <= e <= 971 && Magnitude(f, e, magnitude)
    ensures magnitude <= 767 && -e <= 767 - magnitude
  {
    var t := magnitude - 1;
    FiftyThree();
    if e >= 0 {
      if t >= 767 { BigIntegral(f, e, t); }
    } else if t >= 0 {
      if t >= 767 + e { BigProduct(f, -e, t); }
    } else if t >= 767 + e {
      FractionMagnitude(f, -e, -t);
    }
    MagnitudeParts(f, e, t);
  }

  lemma FractionMagnitude(f: nat, k: nat, s: nat)
    requires f < Pow(2, 53) && k <= 1074 && 767 + s <= k
    ensures SLIVER * (f * Pow(10, s)) <= (SLIVER - 1) * Pow(2, k)
  {
    FiftyThree();
    FiveBlocks();
    SmallFraction(f, k, s, 53, 9, 28, 66);
  }

  lemma FiftyThree()
    ensures Pow(2, 53) == 0x20_0000_0000_0000
  {
    PowTwo32();
    PowAdd(2, 32, 21);
    PowAdd(2, 16, 5);
    assert Pow(2, 5) == 32;
  }

  lemma MagnitudeParts(f: nat, e: int, t: int)
    ensures e >= 0 && t >= 0 ==> f * Gap(e, t) == f * Pow(2, e) && Den(e, t) == Pow(10, t)
    ensures e < 0 <= t ==> f * Gap(e, t) == f && Den(e, t) == Pow(2, -e) * Pow(10, t)
    ensures e < 0 && t < 0 ==> f * Gap(e, t) == f * Pow(10, -t) && Den(e, t) == Pow(2, -e)
  {
    assert Pow(2, 0) == 1 == Pow(10, 0);
  }

  lemma BigIntegral(f: nat, e: nat, t: nat)
    requires f < Pow(2, 53) && 54 + e <= 2 * t
    ensures SLIVER * (f * Pow(2, e)) <= (SLIVER - 1) * Pow(10, t)
  {
    MulMono(f, Pow(2, 53), Pow(2, e));
    PowAdd(2, 53, e);
    PowProduct(2, 5, t);
    PowBaseMono(2, 5, t);
    PowAdd(2, t, t);
    MulMono(Pow(2, t), Pow(5, t), Pow(2, t));
    PowMono(2, 53 + e + 1, t + t);
    DoublePower(53 + e);
    NatProduct(f, Pow(2, e));
    SliverApart(f * Pow(2, e), Pow(2, 53 + e), Pow(10, t));
  }

  lemma DoublePower(n: nat)
    ensures Pow(2, n + 1) == 2 * Pow(2, n)
  {
  }

  lemma SliverApart(x: nat, p: nat, y: nat)
    requires x <= p && 2 * p <= y
    ensures SLIVER * x <= (SLIVER - 1) * y
  {
  }

  lemma BigProduct(f: nat, k: nat, t: nat)
    requires f < Pow(2, 53) && 54 <= t + k
    ensures SLIVER * f <= (SLIVER - 1) * (Pow(2, k) * Pow(10, t))
  {
    PowBaseMono(2, 10, t);
    MulMono(Pow(2, t), Pow(10, t), Pow(2, k));
    PowAdd(2, k, t);
    PowMono(2, 54, k + t);
    DoublePower(53);
    SliverApart(f, Pow(2, 53), Pow(2, k) * Pow(10, t));
  }

  lemma FivesJoin(x: nat, y: nat, x': nat, y': nat)
    requires Pow(5, x) <= Pow(2, y) && Pow(5, x') <= Pow(2, y')
    ensures Pow(5, x + x') <= Pow(2, y + y')
  {
    PowAdd(5, x, x');
    PowAdd(2, y, y');
    MulMono(Pow(5, x), Pow(2, y), Pow(5, x'));
    MulMono(Pow(5, x'), Pow(2, y'), Pow(2, y));
  }

  // Behind the point, 31 digits cost at most 72 bits.
  lemma FiveRuns(n: nat)
    ensures Pow(5, 31 * n) <= Pow(2, 72 * n)
  {
    FiveBlocks();
    PowMul(5, 31, n);
    PowMul(2, 72, n);
    PowBaseMono(Pow(5, 31), Pow(2, 72), n);
  }

  lemma FivesBelowTwos(s: nat, n: nat, x: nat, y: nat)
    requires s <= 31 * n + x && Pow(5, x) <= Pow(2, y)
    ensures Pow(5, s) <= Pow(2, 72 * n + y)
  {
    FiveRuns(n);
    FivesJoin(31 * n, 72 * n, x, y);
    PowMono(5, s, 31 * n + x);
  }

  lemma FiveBlocks()
    ensures Pow(5, 31) <= Pow(2, 72) && Pow(5, 28) <= Pow(2, 66)
  {
    assert Pow(5, 7) == 78_125 by { assert Pow(5, 3) == 125 && Pow(5, 4) == 625; PowAdd(5, 3, 4); }
    PowAdd(5, 7, 7);
    PowAdd(5, 14, 14);
    assert Pow(5, 3) == 125;
    PowAdd(5, 28, 3);
    PowTwo64();
    assert Pow(2, 2) == 4 && Pow(2, 6) == 64;
    PowAdd(2, 64, 2);
    PowAdd(2, 66, 6);
  }

  lemma SmallFraction(f: nat, k: nat, s: nat, b: nat, n: nat, x: nat, y: nat)
    requires f < Pow(2, b) <= SLIVER && s <= 31 * n + x && Pow(5, x) <= Pow(2, y) && b + (72 * n + y) + s <= k
    ensures SLIVER * (f * Pow(10, s)) <= (SLIVER - 1) * Pow(2, k)
  {
    FivesBelowTwos(s, n, x, y);
    FractionBelow(f, s, b, 72 * n + y, k);
  }

  lemma FractionBelow(f: nat, s: nat, b: nat, unit: nat, k: nat)
    requires f < Pow(2, b) <= SLIVER && Pow(5, s) <= Pow(2, unit) && b + unit + s <= k
    ensures SLIVER * (f * Pow(10, s)) <= (SLIVER - 1) * Pow(2, k)
  {
    TensBelowTwos(f, s, unit);
    PowAdd(2, b, unit + s);
    PowMono(2, b + (unit + s), k);
    NatProduct(f, Pow(10, s));
    BelowByOne(f, Pow(2, b), Pow(2, unit + s), f * Pow(10, s), Pow(2, k));
  }

  lemma TensBelowTwos(f: nat, s: nat, unit: nat)
    requires Pow(5, s) <= Pow(2, unit)
    ensures f * Pow(10, s) <= f * Pow(2, unit + s)
  {
    PowProduct(2, 5, s);
    PowAdd(2, unit, s);
    MulMono(Pow(5, s), Pow(2, unit), Pow(2, s));
    MulMono(Pow(10, s), Pow(2, unit + s), f);
  }

  lemma BelowByOne(f: nat, top: nat, unit: nat, x: nat, far: nat)
    requires f < top <= SLIVER && x <= f * unit && top * unit <= far
    ensures SLIVER * x <= (SLIVER - 1) * far
  {
    MulMono(f + 1, top, unit);
    assert (f + 1) * unit == f * unit + unit;
    MulMono(top, SLIVER, unit);
  }
}
