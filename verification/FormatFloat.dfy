/** Printing a double with a given precision: Grisu first, big integers when it gives up. */
module FormatFloat {
  import opened Arith
  import opened Decimal
  import opened CountDigits
  import opened Words
  import Grisu
  import opened Fallback

  // 2^b * 10^c
  function Powers(b: nat, c: nat): (r: nat)
    ensures r > 0
  {
    MulMono(1, Pow(2, b), Pow(10, c));
    Pow(2, b) * Pow(10, c)
  }

  lemma PowersProduct(b: nat, c: nat, b': nat, c': nat)
    ensures Powers(b, c) * Powers(b', c') == Powers(b + b', c + c')
  {
    PowAdd(2, b, b');
    PowAdd(10, c, c');
    MulSwap(Pow(2, b), Pow(10, c), Pow(2, b'), Pow(10, c'));
  }

  lemma SinglePowers(b: nat)
    ensures Powers(0, b) == Pow(10, b) && Powers(b, 0) == Pow(2, b)
  {
  }

  // f * 2^e in units of 10^place is f * Gap / Den.
  lemma GapPowers(e: int, place: int)
    ensures Gap(e, place) == Powers(Max(e, 0), Max(-place, 0)) && Den(e, place) == Powers(Max(-e, 0), Max(place, 0))
  {
  }

  // Moving the decimal place by j scales the ratio by 10^j.
  lemma RatioShift(e: int, place: int, j: nat)
    ensures Gap(e, place) * Pow(10, j) * Den(e, place - j) == Gap(e, place - j) * Den(e, place)
  {
    GapPowers(e, place);
    GapPowers(e, place - j);
    ShiftedPowers(Max(e, 0), Max(-e, 0), Max(-place, 0), Max(place, 0), Max(j - place, 0), Max(place - j, 0), j);
  }

  lemma ShiftedPowers(b: nat, b': nat, n: nat, p: nat, n': nat, p': nat, j: nat)
    requires n + j + p' == n' + p
    ensures Powers(b, n) * Pow(10, j) * Powers(b', p') == Powers(b, n') * Powers(b', p)
  {
    PowersTriple(b, n, j, b', p');
    PowersProduct(b, n', b', p);
  }

  lemma PowersTriple(b: nat, c: nat, j: nat, b': nat, c': nat)
    ensures Powers(b, c) * Pow(10, j) * Powers(b', c') == Powers(b + b', c + j + c')
  {
    SinglePowers(j);
    PowersProduct(b, c, 0, j);
    PowersProduct(b, c + j, b', c');
  }

  // d * 10^exp is f * 2^e rounded half to even to a multiple of 10^place.
  predicate Prints(f: nat, e: int, d: int, exp: int, place: int)
  {
    (d == 0 || exp >= place) &&
    RoundsTo(f * Gap(e, place), Den(e, place), if d == 0 then 0 else d * Pow(10, exp - place))
  }

  lemma FactorRatio(f: nat, g: nat, p: nat, d: nat, g': nat, d': nat)
    requires g * p * d' == g' * d
    ensures f * g * p * d' == f * g' * d
  {
    MulAssoc(f, g, p);
    MulAssoc(f, g * p, d');
    MulAssoc(f, g', d);
  }

  lemma FixedPrints(f: nat, e: int, exp10: int, numDigits: nat, buf: seq<char>, exp10': int)
    requires FixedResult(f, e, exp10, numDigits, buf, exp10')
    ensures Prints(f, e, Spelled(buf), exp10', exp10 - (numDigits - 1))
  {
    var place, carry := exp10 - (numDigits - 1), exp10' - (exp10 - (numDigits - 1));
    assert Pow(10, 0) == 1 && Pow(10, 1) == 10;
    if numDigits == 0 { NoDigitsPrints(f, e, exp10, Spelled(buf)); } else {
      DigitsPrint(f, e, exp10, numDigits - 1, Spelled(buf) * Pow(10, carry));
    }
  }

  lemma NoDigitsPrints(f: nat, e: int, exp10: int, m: int)
    requires RoundsTo(f * Gap(e, exp10), Den(e, exp10) * 10, m)
    ensures RoundsTo(f * Gap(e, exp10 + 1), Den(e, exp10 + 1), m)
  {
    var place := exp10 + 1;
    NatProduct(f, Gap(e, exp10));
    NatProduct(f, Gap(e, place));
    NatProduct(Den(e, exp10), 10);
    RatioShift(e, place, 1);
    assert Pow(10, 1) == 10;
    ShiftedDown(f, Gap(e, exp10), Den(e, exp10), Gap(e, place), Den(e, place));
    RoundsToRatio(f * Gap(e, exp10), Den(e, exp10) * 10, f * Gap(e, place), Den(e, place), m);
  }

  lemma DigitsPrint(f: nat, e: int, exp10: int, j: nat, m: int)
    requires RoundsTo(f * Gap(e, exp10) * Pow(10, j), Den(e, exp10), m)
    ensures RoundsTo(f * Gap(e, exp10 - j), Den(e, exp10 - j), m)
  {
    var place := exp10 - j;
    NatProduct(f, Gap(e, exp10));
    NatProduct(f * Gap(e, exp10), Pow(10, j));
    NatProduct(f, Gap(e, place));
    RatioShift(e, exp10, j);
    FactorRatio(f, Gap(e, exp10), Pow(10, j), Den(e, exp10), Gap(e, place), Den(e, place));
    RoundsToRatio(f * Gap(e, exp10) * Pow(10, j), Den(e, exp10), f * Gap(e, place), Den(e, place), m);
  }

  lemma ShiftedDown(f: nat, g: nat, d: nat, g': nat, d': nat)
    requires g' * 10 * d == g * d'
    ensures f * g * d' == f * g' * (d * 10)
  {
    MulAssoc(f, g, d');
    MulAssoc(f, g', d * 10);
    MulAssoc(g', 10, d);
    MulAssoc(g', d, 10);
  }

  // An entry of the table of powers of ten: c * 2^ce approximates 10^k to half a unit.
  predicate CachedPower(c: nat, ce: int, k: int)
  {
    W64 / 2 <= c < W64 && -0x2000_0000 < k < 0x2000_0000 &&
    Closest(Powers(Max(-ce, 0), Max(k, 0)), Powers(Max(ce, 0), Max(-k, 0)), c)
  }

  // The rounded product of the significands is less than one unit away from the exact one,
  // because each of the two roundings contributes at most a half and the first less.
  lemma ProductError(fn: nat, c: nat, x: nat, y: nat, w: nat)
    requires fn < W64 && 0 < y && Closest(x, y, c) && w == (fn * c + W64 / 2) / W64
    ensures Abs(fn * x - w * (W64 * y)) < W64 * y
  {
    NatProduct(fn, c);
    var a, b := x - c * y, fn * c - w * W64;
    assert 2 * Abs(b) <= W64;
    MulAssoc(fn, c, y);
    MulAssoc(w, W64, y);
    assert fn * x - w * (W64 * y) == fn * a + b * y by {
      assert fn * a == fn * x - fn * (c * y);
      assert b * y == fn * c * y - w * W64 * y;
    }
    AbsProduct(a, fn);
    AbsProduct(b, y);
    MulMono(2 * Abs(a), y, fn);
    MulMono(2 * Abs(b), W64, y);
    MulStrict(fn, W64, y);
    MulAssoc(2, Abs(a), fn);
    MulAssoc(2, Abs(b), y);
  }

  // Grisu's digits are right for the exact number n / d, which is within one of w.
  lemma GrisuExact(w: nat, one: nat, exp: int, m: int, n: nat, d: nat)
    requires Grisu.Nearest(w, one, exp, m) && Abs(n - w * d) < d
    ensures RoundsTo(n * Grisu.Places(exp), Grisu.Unit(exp, one) * d, m)
  {
    ExactScalar(w, Grisu.Places(exp), Grisu.Unit(exp, one), m, n, d);
  }

  lemma ExactScalar(w: nat, p: nat, u: nat, m: int, n: nat, d: nat)
    requires 0 < p && 2 * (Abs(w * p - m * u) + p) <= u && Abs(n - w * d) < d
    ensures RoundsTo(n * p, u * d, m)
  {
    ErrorSplit(w, p, u, m, n, d);
    ErrorBound(n - w * d, w * p - m * u, p, u, d);
  }

  lemma ErrorSplit(w: nat, p: nat, u: nat, m: int, n: nat, d: nat)
    ensures n * p - m * (u * d) == (n - w * d) * p + (w * p - m * u) * d
  {
    MulAssoc(w, d, p);
    MulAssoc(m, u, d);
    assert (n - w * d) * p == n * p - w * d * p;
    assert (w * p - m * u) * d == w * p * d - m * u * d;
  }

  lemma ErrorBound(a: int, b: int, p: nat, u: nat, d: nat)
    requires 0 < p && Abs(a) < d && 2 * (Abs(b) + p) <= u
    ensures 2 * Abs(a * p + b * d) < u * d
  {
    AbsProduct(a, p);
    AbsProduct(b, d);
    MulStrict(Abs(a), d, p);
    MulMono(2 * (Abs(b) + p), u, d);
    assert 2 * (Abs(b) + p) * d == 2 * (Abs(b) * d) + 2 * (p * d);
  }

  // The exact scaled value n / d in units of 10^exp is the value in units of 10^(exp - k).
  lemma ScaledRatio(f: nat, e: int, s: nat, ce: int, k: int, exp: int, one: nat, n: nat, d: nat)
    requires var we := e - s + ce + 64; we <= 0 && one == Pow(2, -we)
    requires n == f * Powers(s + Max(-ce, 0), Max(k, 0)) && d == Powers(64 + Max(ce, 0), Max(-k, 0))
    ensures n * Grisu.Places(exp) * Den(e, exp - k) == f * Gap(e, exp - k) * (Grisu.Unit(exp, one) * d)
  {
    var b5 := s - e - ce - 64;
    GapPowers(e, exp - k);
    SinglePowers(Max(-exp, 0));
    assert Grisu.Unit(exp, one) == Powers(b5, Max(exp, 0));
    LeftPowers(f, s + Max(-ce, 0), Max(k, 0), Max(-exp, 0), Max(-e, 0), Max(exp - k, 0));
    RightPowers(f, Max(e, 0), Max(k - exp, 0), b5, Max(exp, 0), 64 + Max(ce, 0), Max(-k, 0));
  }

  lemma LeftPowers(f: nat, b: nat, c: nat, c2: nat, b3: nat, c3: nat)
    ensures f * Powers(b, c) * Powers(0, c2) * Powers(b3, c3) == f * Powers(b + b3, c + c2 + c3)
  {
    PowersProduct(b, c, 0, c2);
    PowersProduct(b, c + c2, b3, c3);
    MulAssoc(f, Powers(b, c), Powers(0, c2));
    MulAssoc(f, Powers(b, c + c2), Powers(b3, c3));
  }

  lemma RightPowers(f: nat, b4: nat, c4: nat, b5: nat, c5: nat, b6: nat, c6: nat)
    ensures f * Powers(b4, c4) * (Powers(b5, c5) * Powers(b6, c6)) == f * Powers(b4 + b5 + b6, c4 + c5 + c6)
  {
    PowersProduct(b5, c5, b6, c6);
    PowersProduct(b4, c4, b5 + b6, c5 + c6);
    MulAssoc(f, Powers(b4, c4), Powers(b5 + b6, c5 + c6));
  }

  // The exact scaled value is ExactNum / ExactDen for the significand f * 2^s.
  function ExactNum(f: nat, s: nat, ce: int, k: int): nat
  {
    NatProduct(f, Powers(s + Max(-ce, 0), Max(k, 0)));
    f * Powers(s + Max(-ce, 0), Max(k, 0))
  }

  function ExactDen(ce: int, k: int): (r: nat)
    ensures r > 0
  {
    Powers(64 + Max(ce, 0), Max(-k, 0))
  }

  lemma ScaledError(f: nat, s: nat, c: nat, ce: int, k: int, w: nat)
    requires f * Pow(2, s) < W64 && CachedPower(c, ce, k) && w == (f * Pow(2, s) * c + W64 / 2) / W64
    ensures Abs(ExactNum(f, s, ce, k) - w * ExactDen(ce, k)) < ExactDen(ce, k)
  {
    var x, y := Powers(Max(-ce, 0), Max(k, 0)), Powers(Max(ce, 0), Max(-k, 0));
    NatProduct(f, Pow(2, s));
    ProductError(f * Pow(2, s), c, x, y, w);
    TwosProduct(s, Max(-ce, 0), Max(k, 0));
    TwosProduct(64, Max(ce, 0), Max(-k, 0));
    PowTwo64();
    MulAssoc(f, Pow(2, s), x);
  }

  lemma TwosProduct(s: nat, b: nat, c: nat)
    ensures Pow(2, s) * Powers(b, c) == Powers(s + b, c)
  {
    SinglePowers(s);
    PowersProduct(s, 0, b, c);
  }

  // Whatever Grisu decides is a correct rounding of the value.
  lemma GrisuPrints(f: nat, e: int, s: nat, c: nat, ce: int, k: int, w: nat, one: nat, exp: int, m: int)
    requires f * Pow(2, s) < W64 && CachedPower(c, ce, k) && w == (f * Pow(2, s) * c + W64 / 2) / W64
    requires var we := e - s + ce + 64; we <= 0 && one == Pow(2, -we)
    requires Grisu.Nearest(w, one, exp, m)
    ensures RoundsTo(f * Gap(e, exp - k), Den(e, exp - k), m)
  {
    var n, d := ExactNum(f, s, ce, k), ExactDen(ce, k);
    ScaledError(f, s, c, ce, k, w);
    GrisuExact(w, one, exp, m, n, d);
    ScaledRatio(f, e, s, ce, k, exp, one, n, d);
    UnitPositive(exp, one, d);
    NatProduct(n, Grisu.Places(exp));
    RoundsToRatio(n * Grisu.Places(exp), Grisu.Unit(exp, one) * d, f * Gap(e, exp - k), Den(e, exp - k), m);
  }

  lemma UnitPositive(exp: int, one: nat, d: nat)
    requires 0 < one && 0 < d
    ensures 0 < Grisu.Unit(exp, one) * d && 0 < Grisu.Unit(exp, one)
  {
    MulMono(1, Pow(10, Max(exp, 0)), one);
    MulMono(1, Grisu.Unit(exp, one), d);
  }

  // The exponent handed to the fallback is never too small: the error is less than one unit.
  lemma Estimate(f: nat, e: int, s: nat, c: nat, ce: int, k: int, w: nat, one: nat, kappa: nat)
    requires f * Pow(2, s) < W64 && CachedPower(c, ce, k) && w == (f * Pow(2, s) * c + W64 / 2) / W64
    requires var we := e - s + ce + 64; we <= 0 && one == Pow(2, -we)
    requires Grisu.Scaled(w, one, kappa)
    ensures f * Gap(e, kappa - k) < Den(e, kappa - k)
  {
    var n, d := ExactNum(f, s, ce, k), ExactDen(ce, k);
    var u := Grisu.Unit(kappa, one);
    Grisu.ScaledBounds(w, one, kappa);
    ScaledError(f, s, c, ce, k, w);
    ScaledRatio(f, e, s, ce, k, kappa, one, n, d);
    UnitPositive(kappa, one, d);
    Under(n, w, u, d);
    assert Grisu.Places(kappa) == 1 && n * Grisu.Places(kappa) == n;
    BelowOne(n, u * d, f * Gap(e, kappa - k), Den(e, kappa - k));
  }

  lemma Under(n: nat, w: nat, u: nat, d: nat)
    requires Abs(n - w * d) < d && w < u
    ensures n < u * d
  {
    MulMono(w + 1, u, d);
    assert (w + 1) * d == w * d + d;
  }

  lemma BelowOne(n: nat, d: nat, n': nat, d': nat)
    requires 0 < d' && n < d && n * d' == n' * d
    ensures n' < d'
  {
    MulStrict(n, d, d');
    if n' >= d' { MulMono(d', n', d); }
  }

  lemma EstimatePrintable(f: nat, e: int, place: int)
    requires 0 < f < 0x20_0000_0000_0000 && -0x3fff_ffff < place - 1 < 0x4000_0000
    requires f * Gap(e, place) < Den(e, place)
    ensures Printable(f, e, place - 1)
  {
    MulMono(1, f, Gap(e, place));
    assert Pow(10, 1) == 10 && Pow(10, 0) == 1 == Pow(2, 0);
    RatioShift(e, place, 1);
    NatProduct(f, Gap(e, place));
    ShiftedDown(f, Gap(e, place - 1), Den(e, place - 1), Gap(e, place), Den(e, place));
    NatProduct(f, Gap(e, place - 1));
    NatProduct(Den(e, place - 1), 10);
    TenTimes(f * Gap(e, place), Den(e, place), f * Gap(e, place - 1), Den(e, place - 1));
  }

  lemma TenTimes(n: nat, d: nat, n': nat, d': nat)
    requires n < d && 0 < d' && n' * d == n * (d' * 10)
    ensures n' < 10 * d'
  {
    MulStrict(n, d, d' * 10);
    if n' >= 10 * d' { MulMono(10 * d', n', d); }
  }

  // How far normalize() shifts a significand.
  function NormalShift(f: nat): nat
    requires 0 < f < 0x20_0000_0000_0000
    decreases 0x20_0000_0000_0000 - f
  {
    if f < 0x10_0000_0000_0000 then 1 + NormalShift(2 * f) else 11
  }

  // normalize(): shifts the implicit bit of a double to the top of the word.
  method Normalize(f: nat, e: int) returns (fn: nat, en: int)
    requires 0 < f < 0x20_0000_0000_0000
    ensures fn == f * Pow(2, NormalShift(f)) && en == e - NormalShift(f) && W64 / 2 <= fn < W64
  {
    ghost var s := 0;
    fn, en := f, e;
    assert Pow(2, 0) == 1;
    while fn < 0x10_0000_0000_0000
      invariant fn == f * Pow(2, s) && en == e - s && 0 < fn < 0x20_0000_0000_0000
      invariant NormalShift(f) == s + NormalShift(fn)
      decreases 0x20_0000_0000_0000 - fn
    {
      MulAssoc(2, Pow(2, s), f);
      fn, en, s := fn * 2, en - 1, s + 1;
    }
    PowAdd(2, s, 11);
    assert Pow(2, 11) == 2048 by { assert Pow(2, 5) == 32; PowAdd(2, 5, 6); }
    MulAssoc(f, Pow(2, s), 2048);
    fn, en := fn * 2048, en - 11;
  }

  // Dropping a trailing zero moves it to the exponent.
  lemma PrintsTrimmed(f: nat, e: int, buf: seq<char>, exp: int, place: int)
    requires buf != [] && AllDigits(buf) && buf[|buf| - 1] == '0' && Prints(f, e, Spelled(buf), exp, place)
    ensures AllDigits(buf[..|buf| - 1]) && Prints(f, e, Spelled(buf[..|buf| - 1]), exp + 1, place)
  {
    var d := Spelled(buf[..|buf| - 1]);
    if d != 0 { MulAssoc(d, 10, Pow(10, exp - place)); }
  }

  // f * 2^e is below 10^magnitude and at least 10^(magnitude - 1), give or take one part in 2^58.
  predicate Magnitude(f: nat, e: int, magnitude: int)
  {
    && f * Gap(e, magnitude) < Den(e, magnitude)
    && SLIVER * (f * Gap(e, magnitude - 1)) > (SLIVER - 1) * Den(e, magnitude - 1)
  }

  const SLIVER: nat := 0x400_0000_0000_0000

  // What format_float has set up for Grisu: the scaled value and the weight of its integral part.
  predicate Prepared(f: nat, e: int, s: nat, c: nat, ce: int, k: int, w: nat, we: int)
  {
    && W64 / 2 <= f * Pow(2, s) < W64 && CachedPower(c, ce, k) && w == (f * Pow(2, s) * c + W64 / 2) / W64
    && we == e - s + ce + 64 && -60 <= we <= -32
  }

  lemma PreparedScaled(f: nat, e: int, s: nat, c: nat, ce: int, k: int, w: nat, we: int)
    requires Prepared(f, e, s, c, ce, k, w, we) && w < W64
    ensures Grisu.Scaled(w, Pow(2, -we), NumDigits(w / Pow(2, -we)))
  {
    Grisu.OneBounds(-we);
    MulMono(W64 / 2, f * Pow(2, s), c);
    MulMono(W64 / 2, c, W64 / 2);
    QuotientAtLeast(f * Pow(2, s) * c, w);
  }

  lemma QuotientAtLeast(p: nat, w: int)
    requires p >= W64 / 2 * (W64 / 2) && w == (p + W64 / 2) / W64
    ensures w >= 0x4000_0000_0000_0000
  {
  }

  lemma PreparedMagnitude(f: nat, e: int, s: nat, c: nat, ce: int, k: int, w: nat, we: int, kappa: nat)
    requires Prepared(f, e, s, c, ce, k, w, we) && Grisu.Scaled(w, Pow(2, -we), kappa)
    ensures Magnitude(f, e, kappa - k)
  {
    var one, n, d := Pow(2, -we), ExactNum(f, s, ce, k), ExactDen(ce, k);
    Estimate(f, e, s, c, ce, k, w, one, kappa);
    var u := Grisu.Unit(kappa - 1, one);
    Grisu.ScaledBounds(w, one, kappa);
    ScaledError(f, s, c, ce, k, w);
    ScaledRatio(f, e, s, ce, k, kappa - 1, one, n, d);
    UnitPositive(kappa - 1, one, d);
    PreparedUnit(f, e, s, c, ce, k, w, we, kappa);
    Over(n, w, u, d);
    assert Grisu.Places(kappa - 1) == 1 && n * Grisu.Places(kappa - 1) == n;
    AboveSliver(n, u * d, f * Gap(e, kappa - k - 1), Den(e, kappa - k - 1));
  }

  // The weight of the first digit is a large part of the scaled value.
  lemma PreparedUnit(f: nat, e: int, s: nat, c: nat, ce: int, k: int, w: nat, we: int, kappa: nat)
    requires Prepared(f, e, s, c, ce, k, w, we) && Grisu.Scaled(w, Pow(2, -we), kappa)
    ensures SLIVER <= Grisu.Unit(kappa - 1, Pow(2, -we)) <= w
  {
    Grisu.StartBounds(w, Pow(2, -we), kappa);
    Grisu.ScaledBounds(w, Pow(2, -we), kappa);
    MulMono(W64 / 2, f * Pow(2, s), c);
    MulMono(W64 / 2, c, W64 / 2);
    QuotientAtLeast(f * Pow(2, s) * c, w);
  }

  lemma Over(n: nat, w: nat, u: nat, d: nat)
    requires Abs(n - w * d) < d && SLIVER <= u <= w
    ensures SLIVER * n > (SLIVER - 1) * (u * d)
  {
    MulMono(u - 1, w - 1, d);
    assert (w - 1) * d == w * d - d;
    assert (u - 1) * d == u * d - d;
    MulMono(SLIVER, u, d);
  }

  lemma AboveSliver(n: nat, d: nat, n': nat, d': nat)
    requires 0 < d' && SLIVER * n > (SLIVER - 1) * d && n * d' == n' * d
    ensures SLIVER * n' > (SLIVER - 1) * d'
  {
    MulStrict((SLIVER - 1) * d, SLIVER * n, d');
    MulAssoc(SLIVER, n, d');
    MulAssoc(SLIVER, n', d);
    MulAssoc(SLIVER - 1, d, d');
    MulAssoc(SLIVER - 1, d', d);
    if SLIVER * n' <= (SLIVER - 1) * d' { MulMono(SLIVER * n', (SLIVER - 1) * d', d); }
  }

  // The first digit is not zero, for a value that is not just below a power of ten.
  predicate Leads(f: nat, e: int, magnitude: int, buf: seq<char>)
  {
    Den(e, magnitude - 1) <= f * Gap(e, magnitude - 1) ==> buf != [] && buf[0] != '0'
  }

  lemma PrintsLeads(f: nat, e: int, magnitude: int, buf: seq<char>, exp: int)
    requires buf != [] && AllDigits(buf) && Prints(f, e, Spelled(buf), exp, magnitude - |buf|)
    requires exp == magnitude - |buf| || buf[0] == '1'
    ensures Leads(f, e, magnitude, buf)
  {
    if buf[0] != '1' {
      LeadingZero(buf);
      UnitsPrinted(f, e, Spelled(buf), exp);
      if Den(e, magnitude - 1) <= f * Gap(e, magnitude - 1) { NearestAtLeast(f, e, magnitude, |buf|, Spelled(buf)); }
    }
  }

  lemma LeadingZero(buf: seq<char>)
    requires buf != [] && AllDigits(buf)
    ensures buf[0] == '0' ==> Spelled(buf) < Pow(10, |buf| - 1)
  {
    assert [buf[0]] + buf[1..] == buf;
    SpelledCons(buf[0], buf[1..]);
    SpelledBound(buf[1..]);
  }

  lemma UnitsPrinted(f: nat, e: int, d: int, place: int)
    ensures Prints(f, e, d, place, place) <==> RoundsTo(f * Gap(e, place), Den(e, place), d)
  {
    assert Pow(10, 0) == 1;
  }

  lemma NearestAtLeast(f: nat, e: int, magnitude: int, n: nat, m: int)
    requires 0 < n && Den(e, magnitude - 1) <= f * Gap(e, magnitude - 1)
    requires Closest(f * Gap(e, magnitude - n), Den(e, magnitude - n), m)
    ensures m >= Pow(10, n - 1)
  {
    var place, ten := magnitude - n, Pow(10, n - 1);
    RatioShift(e, magnitude - 1, n - 1);
    FactorRatio(f, Gap(e, magnitude - 1), ten, Den(e, magnitude - 1), Gap(e, place), Den(e, place));
    AtLeastTens(f * Gap(e, magnitude - 1), Den(e, magnitude - 1), ten, f * Gap(e, place), Den(e, place), m);
  }

  // Something at least ten is not nearest to anything less.
  lemma AtLeastTens(n: nat, d: nat, ten: nat, n': nat, d': nat, m: int)
    requires 0 < d <= n && 0 < d' && n * ten * d' == n' * d && Closest(n', d', m)
    ensures m >= ten
  {
    MulMono(d, n, ten);
    MulMono(d * ten, n * ten, d');
    MulAssoc(d, ten, d');
    MulCancel(ten * d', n', d);
    assert (m + 1) * d' == m * d' + d';
    if m + 1 <= ten { MulMono(m + 1, ten, d'); }
  }

  // The exponent of the last digit that is asked for, when the value is below 10^magnitude.
  function Place(precision: nat, fixed: bool, magnitude: int): int
  {
    if fixed then 0 - precision as int else magnitude - Max(precision, 1)
  }

  lemma DonePrints(f: nat, e: int, s: nat, c: nat, ce: int, k: int, w: nat, we: int, kappa: nat,
                   precision: nat, fixed: bool, buf: seq<char>, exp: int, exp10: int)
    requires Prepared(f, e, s, c, ce, k, w, we)
    requires Grisu.Finished(w, Pow(2, -we), kappa, precision, -k, fixed, buf, exp, exp10)
    ensures Prints(f, e, Spelled(buf), exp + exp10, Place(precision, fixed, kappa - k))
  {
    var one, d := Pow(2, -we), Spelled(buf);
    assert Pow(10, 0) == 1;
    if fixed {
      GrisuPrints(f, e, s, c, ce, k, w, one, k - precision, d);
    } else {
      GrisuPrints(f, e, s, c, ce, k, w, one, exp, d * Pow(10, exp10 + k));
      assert d == 0 ==> d * Pow(10, exp10 + k) == 0;
    }
  }

  // What format_float scales the value to, and the exponent of two that comes with it.
  function ScaledValue(f: nat, c: nat): nat
    requires 0 < f < 0x20_0000_0000_0000
  {
    NatProduct(f, Pow(2, NormalShift(f)));
    NatProduct(f * Pow(2, NormalShift(f)), c);
    (f * Pow(2, NormalShift(f)) * c + W64 / 2) / W64
  }

  function ScaledExp(f: nat, e: int, ce: int): int
    requires 0 < f < 0x20_0000_0000_0000
  {
    e - NormalShift(f) + ce + 64
  }

  // get_cached_power has brought the exponent into range.
  predicate InRange(f: nat, e: int, ce: int)
    requires 0 < f < 0x20_0000_0000_0000
  {
    -60 <= ScaledExp(f, e, ce) <= -32
  }

  // The number of digits of the integral part of the scaled value.
  function Kappa(f: nat, e: int, c: nat, ce: int): nat
    requires 0 < f < 0x20_0000_0000_0000 && InRange(f, e, ce)
  {
    NatQuotient(ScaledValue(f, c), Pow(2, -ScaledExp(f, e, ce)));
    NumDigits(ScaledValue(f, c) / Pow(2, -ScaledExp(f, e, ce)))
  }

  // Grisu cannot decide the first digit.
  predicate FirstUndecided(f: nat, e: int, c: nat, ce: int)
    requires 0 < f < 0x20_0000_0000_0000 && InRange(f, e, ce)
  {
    !Grisu.Decided(ScaledValue(f, c), Pow(2, -ScaledExp(f, e, ce)), Kappa(f, e, c, ce) - 1)
  }

  // One place is lost exactly when no digits are asked for in a format that is not fixed and
  // Grisu cannot decide the one digit that it generates all the same.
  predicate Coarse(f: nat, e: int, precision: nat, fixed: bool, c: nat, ce: int)
    requires 0 < f < 0x20_0000_0000_0000 && InRange(f, e, ce)
  {
    precision == 0 && !fixed && FirstUndecided(f, e, c, ce)
  }

  // The digits and exponent for a nonzero value, before trailing zeros are removed.
  predicate Formatted(f: nat, e: int, precision: nat, fixed: bool, c: nat, ce: int, k: int, buf: seq<char>, exp: int)
    requires 0 < f < 0x20_0000_0000_0000 && InRange(f, e, ce)
  {
    var magnitude, coarse := Kappa(f, e, c, ce) - k, Coarse(f, e, precision, fixed, c, ce);
    && AllDigits(buf) && Magnitude(f, e, magnitude)
    && Prints(f, e, Spelled(buf), exp, Place(precision, fixed, magnitude) + if coarse then 1 else 0)
    && (!fixed && !coarse ==> Leads(f, e, magnitude, buf))
    && (fixed ==> Grisu.Sized(buf, precision + magnitude))
    && (fixed && 0 < precision + magnitude ==> Leads(f, e, magnitude, buf))
  }

  // format_float for a nonnegative precision, with the cached power of ten that get_cached_power
  // selects. Precisions are capped at 767.
  method FormatFloat(f: nat, e: int, closer: bool, precision: nat, fixed: bool, showpoint: bool,
                     c: nat, ce: int, k: int)
    returns (buf: seq<char>, exp: int)
    requires f < 0x20_0000_0000_0000 && CachedPower(c, ce, k) && (0 < f ==> InRange(f, e, ce))
    ensures f == 0 ==> IsZeroText(buf, exp, precision, fixed)
    ensures 0 < f ==> Formatted(f, e, Min(precision, 767), fixed, c, ce, k, buf, exp)
    ensures 0 < f && fixed ==> buf == [] || 0 <= exp + Min(precision, 767) <= 1
    ensures 0 < f && !fixed ==> if showpoint then |buf| == Max(Min(precision, 767), 1) else NoTrailingZero(buf)
  {
    if f <= 0 {
      buf, exp := ZeroDigits(precision, fixed);
      return;
    }
    var fn, en := Normalize(f, e);
    var w, we := Multiply(fn, c), en + ce + 64;
    var prec := if precision > 767 then 767 else precision;
    buf, exp := GrisuThenFallback(f, e, closer, prec, fixed, c, ce, k, w, we);
    if !fixed && !showpoint {
      // Zeros at the end go into the exponent.
      while |buf| > 0 && buf[|buf| - 1] == '0'
        invariant Formatted(f, e, prec, fixed, c, ce, k, buf, exp)
      {
        FormattedTrimmed(f, e, prec, fixed, c, ce, k, buf, exp);
        buf := buf[..|buf| - 1];
        exp := exp + 1;
      }
    }
  }

  lemma FormattedTrimmed(f: nat, e: int, precision: nat, fixed: bool, c: nat, ce: int, k: int, buf: seq<char>, exp: int)
    requires 0 < f < 0x20_0000_0000_0000 && InRange(f, e, ce)
    requires Formatted(f, e, precision, fixed, c, ce, k, buf, exp) && buf != [] && buf[|buf| - 1] == '0' && !fixed
    ensures Formatted(f, e, precision, fixed, c, ce, k, buf[..|buf| - 1], exp + 1)
  {
    var magnitude, coarse := Kappa(f, e, c, ce) - k, Coarse(f, e, precision, fixed, c, ce);
    PrintsTrimmed(f, e, buf, exp, Place(precision, fixed, magnitude) + if coarse then 1 else 0);
  }

  predicate NoTrailingZero(buf: seq<char>)
  {
    buf != [] ==> buf[|buf| - 1] != '0'
  }

  // Zero is one digit, or as many as a fixed format asks for.
  predicate IsZeroText(buf: seq<char>, exp: int, precision: nat, fixed: bool)
  {
    && |buf| == (if fixed then Max(precision, 1) else 1) && exp == (if fixed then 0 - precision as int else 0)
    && forall i :: 0 <= i < |buf| ==> buf[i] == '0'
  }

  method ZeroDigits(precision: nat, fixed: bool) returns (buf: seq<char>, exp: int)
    ensures AllDigits(buf) && Spelled(buf) == 0 && IsZeroText(buf, exp, precision, fixed)
  {
    if precision <= 0 || !fixed {
      SpelledZeros(1);
      return seq(1, _ => '0'), 0;
    }
    SpelledZeros(precision);
    return seq(precision, _ => '0'), 0 - precision as int;
  }

  lemma {:induction false} SpelledZeros(n: nat)
    ensures Spelled(seq(n, _ => '0')) == 0
  {
    if n > 0 {
      SpelledZeros(n - 1);
      assert seq(n, _ => '0')[..n - 1] == seq(n - 1, _ => '0');
    }
  }

  // What holds when Grisu starts, and when the fallback takes over.
  lemma PreparedFormat(f: nat, e: int, c: nat, ce: int, k: int)
    requires 0 < f < 0x20_0000_0000_0000 && CachedPower(c, ce, k) && InRange(f, e, ce)
    requires W64 / 2 <= f * Pow(2, NormalShift(f)) < W64 && ScaledValue(f, c) < W64
    ensures var w, we, kappa := ScaledValue(f, c), ScaledExp(f, e, ce), Kappa(f, e, c, ce);
      && Prepared(f, e, NormalShift(f), c, ce, k, w, we) && Grisu.Scaled(w, Pow(2, -we), kappa)
      && Magnitude(f, e, kappa - k) && Printable(f, e, kappa - k - 1)
  {
    var s, w, we, kappa := NormalShift(f), ScaledValue(f, c), ScaledExp(f, e, ce), Kappa(f, e, c, ce);
    PreparedScaled(f, e, s, c, ce, k, w, we);
    PreparedMagnitude(f, e, s, c, ce, k, w, we, kappa);
    Grisu.ScaledBounds(w, Pow(2, -we), kappa);
    EstimatePrintable(f, e, kappa - k);
  }

  // Grisu, and big integers if it gives up.
  method GrisuThenFallback(f: nat, e: int, closer: bool, precision: nat, fixed: bool,
                           c: nat, ce: int, k: int, w: nat, we: int)
    returns (buf: seq<char>, exp: int)
    requires 0 < f < 0x20_0000_0000_0000 && precision <= 767 && CachedPower(c, ce, k) && InRange(f, e, ce)
    requires w == ScaledValue(f, c) < W64 && we == ScaledExp(f, e, ce)
    requires W64 / 2 <= f * Pow(2, NormalShift(f)) < W64
    ensures Formatted(f, e, precision, fixed, c, ce, k, buf, exp)
    ensures if fixed then buf == [] || 0 <= exp + precision <= 1 else |buf| == Max(precision, 1)
  {
    PreparedFormat(f, e, c, ce, k);
    var handler := new Grisu.FixedHandler(precision, -k, fixed);
    var result;
    result, exp := Grisu.GrisuGenDigits(w, we, handler);
    if result == Grisu.Error {
      exp := exp + |handler.buf| - k - 1;
      buf, exp := FallbackFormat(f, e, closer, handler.precision, exp);
      FallbackFormatted(f, e, precision, fixed, c, ce, k, handler.precision, buf, exp);
    } else {
      buf := handler.buf;
      GrisuFormatted(f, e, precision, fixed, c, ce, k, buf, exp, handler.exp10);
      exp := exp + handler.exp10;
    }
  }

  // What the fallback prints.
  lemma FallbackFormatted(f: nat, e: int, precision: nat, fixed: bool, c: nat, ce: int, k: int,
                          numDigits: nat, buf: seq<char>, exp: int)
    requires 0 < f < 0x20_0000_0000_0000 && InRange(f, e, ce)
    requires var magnitude := Kappa(f, e, c, ce) - k;
      Magnitude(f, e, magnitude) && FixedResult(f, e, magnitude - 1, numDigits, buf, exp) &&
      numDigits == (if fixed then precision + magnitude else precision) &&
      (!fixed && precision == 0 ==> FirstUndecided(f, e, c, ce))
    ensures Formatted(f, e, precision, fixed, c, ce, k, buf, exp)
    ensures if fixed then 0 <= exp + precision <= 1 else |buf| == Max(precision, 1)
  {
    var magnitude := Kappa(f, e, c, ce) - k;
    FixedPrints(f, e, magnitude - 1, numDigits, buf, exp);
    if numDigits > 0 { PrintsLeads(f, e, magnitude, buf, exp); }
  }

  // What Grisu prints.
  lemma GrisuFormatted(f: nat, e: int, precision: nat, fixed: bool, c: nat, ce: int, k: int,
                       buf: seq<char>, exp: int, exp10: int)
    requires 0 < f < 0x20_0000_0000_0000 && InRange(f, e, ce)
    requires var w, we, kappa := ScaledValue(f, c), ScaledExp(f, e, ce), Kappa(f, e, c, ce);
      Prepared(f, e, NormalShift(f), c, ce, k, w, we) && Magnitude(f, e, kappa - k) &&
      Grisu.Finished(w, Pow(2, -we), kappa, precision, -k, fixed, buf, exp, exp10) &&
      (!fixed && precision == 0 ==> !FirstUndecided(f, e, c, ce))
    ensures Formatted(f, e, precision, fixed, c, ce, k, buf, exp + exp10)
    ensures if fixed then buf == [] || exp + exp10 + precision == 0 else |buf| == Max(precision, 1)
  {
    var w, we, kappa := ScaledValue(f, c), ScaledExp(f, e, ce), Kappa(f, e, c, ce);
    DonePrints(f, e, NormalShift(f), c, ce, k, w, we, kappa, precision, fixed, buf, exp, exp10);
    if !fixed || |buf| == precision + kappa - k > 0 { PrintsLeads(f, e, kappa - k, buf, exp + exp10); }
  }
}
