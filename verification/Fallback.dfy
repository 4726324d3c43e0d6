/** Digit generation with big integers after Steele and White: fallback_format. */
module Fallback {
  import opened Arith
  import opened Bigits
  import opened BigInt
  import opened Decimal
  import opened ShortestSpec

  // The value f * 2^e divided by 10^exp10 is f * Gap / Den.
  function Gap(e: int, exp10: int): (r: nat)
    ensures r > 0
  {
    MulMono(1, Pow(2, Max(e, 0)), Pow(10, Max(-exp10, 0)));
    Pow(2, Max(e, 0)) * Pow(10, Max(-exp10, 0))
  }

  function Den(e: int, exp10: int): (r: nat)
    ensures r > 0
  {
    MulMono(1, Pow(2, Max(-e, 0)), Pow(10, Max(exp10, 0)));
    Pow(2, Max(-e, 0)) * Pow(10, Max(exp10, 0))
  }

  // compare() will never take a numerator for smaller than an equal denominator.
  ghost predicate Divisible(n: nat, en: nat, d: nat, ed: nat)
  {
    en <= ed || (n > 0 && forall i: nat :: n * Pow(10, i) != d)
  }

  lemma DivisibleTimesTen(n: nat, en: nat, d: nat, ed: nat)
    requires Divisible(n, en, d, ed)
    ensures Divisible(n * 10, en, d, ed)
    ensures en > ed ==> n != d
  {
    if en > ed {
      assert Pow(10, 0) == 1;
      assert n * Pow(10, 0) != d;
      forall i: nat ensures n * 10 * Pow(10, i) != d {
        assert n * Pow(10, i + 1) != d;
        MulAssoc(n, 10, Pow(10, i));
      }
    }
  }

  lemma TwoPowers()
    ensures Pow(2, 64) == WORD && Pow(5, 32) > WORD
  {
    PowTwo32();
    PowAdd(2, 32, 32);
    assert Pow(5, 4) == 625 by { assert Pow(5, 2) == 25; }
    PowAdd(5, 4, 4);
    PowAdd(5, 8, 8);
    PowAdd(5, 16, 16);
  }

  lemma OddQuotient(f: nat, p: nat, q: nat, x: nat)
    requires 0 < p && x % 2 == 1
    ensures f * (p * (2 * q)) != p * x
  {
    MulAssoc(p, 2 * q, f);
    MulAssoc(2, q, f);
    if p * (2 * (q * f)) == p * x { MulCancelEq(2 * (q * f), x, p); }
  }

  // A 64-bit significand with a binary exponent above 31 is not a power of ten.
  lemma NotPowerOfTen(f: nat, e: nat, m: nat)
    requires 0 < f < WORD && e >= 32
    ensures f * Pow(2, e) != Pow(10, m)
  {
    if m < e {
      PowProduct(2, 5, m);
      PowAdd(2, m, e - m);
      PowFiveOdd(m);
      OddQuotient(f, Pow(2, m), Pow(2, e - m - 1), Pow(5, m));
    } else {
      TwoPowers();
      PowMono(10, e, m);
      PowProduct(2, 5, e);
      PowMono(5, 32, e);
      MulStrict(f, Pow(5, e), Pow(2, e));
    }
  }

  lemma NotScaled(v: nat, p: nat, x: nat, px: nat)
    requires 0 < p && v != x && px == p * x
    ensures v * p != px
  {
    if v * p == p * x { MulCancelEq(v, x, p); }
  }

  // Nor is any power of ten times it.
  lemma NeverPowerOfTen(f: nat, e: nat, i: nat, k: nat)
    requires 0 < f < WORD && e >= 32
    ensures f * Pow(2, e) * Pow(10, i) != Pow(10, k)
  {
    NatProduct(f, Pow(2, e));
    if i <= k {
      NotPowerOfTen(f, e, k - i);
      NotScaledPower(f * Pow(2, e), i, k);
    } else {
      PowStrict(10, k, i);
      ProductAtLeast(f, Pow(2, e), Pow(10, i));
    }
  }

  lemma NotScaledPower(v: nat, i: nat, k: nat)
    requires i <= k && v != Pow(10, k - i)
    ensures v * Pow(10, i) != Pow(10, k)
  {
    PowAdd(10, i, k - i);
    NotScaled(v, Pow(10, i), Pow(10, k - i), Pow(10, k));
  }

  lemma ProductAtLeast(f: nat, p: nat, q: nat)
    requires 0 < f && 0 < p
    ensures q <= f * p * q
  {
    MulMono(1, p, f);
    MulMono(1, f * p, q);
  }

  lemma ScaleAlgebra(significand: nat, f: nat, e: int, exp10: int, shift: nat)
    requires significand == f * Pow(2, shift) && 1 <= shift <= 2 && (e >= 0 ==> exp10 >= 0)
    ensures Pow(2, shift) == 2 * shift && Pow(2, 1) == 2
    ensures e >= 0 ==>
      && significand * Pow(2, e) == f * Gap(e, exp10) * Pow(2, shift)
      && Pow(2, e) == Gap(e, exp10) && Pow(2, e + 1) == 2 * Gap(e, exp10)
      && Pow(10, exp10) * Pow(2, shift) == Den(e, exp10) * Pow(2, shift)
    ensures e < 0 && exp10 < 0 ==>
      && Pow(10, -exp10) == Gap(e, exp10)
      && Pow(10, -exp10) * significand == f * Gap(e, exp10) * Pow(2, shift)
      && Pow(2, shift - e) == Den(e, exp10) * Pow(2, shift)
    ensures e < 0 <= exp10 ==>
      && 1 == Gap(e, exp10)
      && Pow(10, exp10) * Pow(2, shift - e) == Den(e, exp10) * Pow(2, shift)
  {
    assert Pow(2, 1) == 2 && Pow(2, 2) == 4;
    MulAssoc(f, Pow(2, shift), Gap(e, exp10));
    if e < 0 {
      PowAdd(2, -e, shift);
      MulAssoc(Pow(2, -e), Pow(10, Max(exp10, 0)), Pow(2, shift));
      MulAssoc(Pow(10, Max(exp10, 0)), Pow(2, -e), Pow(2, shift));
    }
  }

  lemma DivisibleUp(f: nat, e: nat, exp10: nat, shift: nat, en: nat, ed: nat)
    requires 0 < f < WORD && en == e / 32
    ensures Divisible(f * Gap(e, exp10) * Pow(2, shift), en, Den(e, exp10) * Pow(2, shift), ed)
  {
    if en > ed {
      var s, n := Pow(2, shift), f * Pow(2, e);
      MulMono(1, Pow(2, e), f);
      MulMono(1, n, s);
      forall i: nat ensures n * s * Pow(10, i) != Pow(10, exp10) * s {
        NeverPowerOfTen(f, e, i, exp10);
        MulAssoc(n, s, Pow(10, i));
        NotScaled(n * Pow(10, i), s, Pow(10, exp10), Pow(10, exp10) * s);
      }
    }
  }

  // Whether numerator and lower end up with the same exponent, so that their equality is seen.
  predicate SeesEquality(e: int, exp10: int)
  {
    e < 0 || e / 32 <= exp10 / 32
  }

  // The four numbers of the algorithm, over a common denominator: the value, 10^exp10 and the
  // distances to the neighbouring boundaries; upper is null when it equals lower.
  ghost predicate Scaled(numerator: Bigint, denominator: Bigint, lower: Bigint, upper: Bigint?,
                         f: nat, e: int, shift: nat, exp10: int)
    reads numerator, denominator, lower, upper
  {
    && numerator != denominator && numerator != lower && denominator != lower
    && upper != numerator && upper != denominator && upper != lower && (upper != null <==> shift != 1)
    && numerator.Valid() && denominator.Valid() && lower.Valid()
    && numerator.exp == lower.exp && (lower.exp <= denominator.exp <==> SeesEquality(e, exp10))
    && Divisible(numerator.Val(), numerator.exp, denominator.Val(), denominator.exp)
    && numerator.Val() == f * Gap(e, exp10) * Pow(2, shift)
    && denominator.Val() == Den(e, exp10) * Pow(2, shift)
    && lower.Val() == Gap(e, exp10)
    && (upper != null ==> upper.Valid() && upper.Val() == 2 * Gap(e, exp10))
  }

  // The rest of the estimate's precondition: a nonzero value below 10^(exp10 + 1).
  predicate Printable(f: nat, e: int, exp10: int)
  {
    && 0 < f < 0x20_0000_0000_0000
    && -0x4000_0000 < exp10 < 0x4000_0000 && (e >= 0 ==> exp10 >= 0)
    && f * Gap(e, exp10) < 10 * Den(e, exp10)
  }

  // assign(n) followed by <<= shift
  method ShiftedWord(n: nat, shift: nat) returns (b: Bigint)
    requires n < WORD
    ensures fresh(b) && b.Valid() && b.Val() == n * Pow(2, shift) && b.exp == shift / 32
  {
    b := new Bigint();
    b.AssignWord(n);
    b.ShiftLeft(shift);
  }

  // assign_pow10(power) followed by <<= shift
  method ShiftedPower(power: nat, shift: nat) returns (b: Bigint)
    requires power < 0x4000_0000
    ensures fresh(b) && b.Valid() && b.Val() == Pow(10, power) * Pow(2, shift) && b.exp == power / 32 + shift / 32
  {
    b := new Bigint();
    b.AssignPow10(power);
    b.ShiftLeft(shift);
  }

  method ScaleUp(significand: nat, f: nat, e: nat, shift: nat, exp10: nat)
    returns (numerator: Bigint, denominator: Bigint, lower: Bigint, upper: Bigint?)
    requires significand == f * Pow(2, shift) < WORD
    requires Printable(f, e, exp10) && 1 <= shift <= 2
    ensures fresh(numerator) && fresh(denominator) && fresh(lower) && (upper != null ==> fresh(upper))
    ensures Scaled(numerator, denominator, lower, upper, f, e, shift, exp10)
  {
    numerator := ShiftedWord(significand, e);
    lower := ShiftedWord(1, e);
    upper := null;
    if shift != 1 { upper := ShiftedWord(1, e + 1); }
    denominator := ShiftedPower(exp10, shift);
    ScaleAlgebra(significand, f, e, exp10, shift);
    DivisibleUp(f, e, exp10, shift, numerator.exp, denominator.exp);
  }

  // A value below 10^(1-k) has a binary exponent at most -(k-1), so 10^k is not stored with
  // a bigger digit exponent than the denominator.
  lemma SmallExponent(f: nat, e: int, k: int, shift: nat)
    requires e < 0 < k && 0 < f && 1 <= shift && f * Gap(e, -k) < 10 * Den(e, -k)
    ensures k / 32 <= (shift - e) / 32
  {
    if k > -e + 1 {
      MulMono(1, f, Gap(e, -k));
      PowMono(10, -e + 2, k);
      PowBaseMono(2, 10, -e);
    }
  }

  method ScaleSmall(significand: nat, f: nat, e: int, shift: nat, exp10: int)
    returns (numerator: Bigint, denominator: Bigint, lower: Bigint, upper: Bigint?)
    requires significand == f * Pow(2, shift) < WORD
    requires Printable(f, e, exp10) && 1 <= shift <= 2 && e < 0 && exp10 < 0
    ensures fresh(numerator) && fresh(denominator) && fresh(lower) && (upper != null ==> fresh(upper))
    ensures Scaled(numerator, denominator, lower, upper, f, e, shift, exp10)
  {
    numerator := new Bigint();
    numerator.AssignPow10(-exp10);
    lower := new Bigint();
    lower.Assign(numerator);
    upper := null;
    if shift != 1 {
      var store := new Bigint();
      store.Assign(numerator);
      store.ShiftLeft(1);
      upper := store;
    }
    ghost var lo, up := lower.Val(), if upper == null then 0 else upper.Val();
    numerator.Multiply64(significand);
    denominator := ShiftedWord(1, shift - e);
    SmallExponent(f, e, -exp10, shift);
    assert lower.Val() == lo && (upper != null ==> upper.Val() == up);
    ScaleAlgebra(significand, f, e, exp10, shift);
  }

  method ScaleDown(significand: nat, f: nat, e: int, shift: nat, exp10: nat)
    returns (numerator: Bigint, denominator: Bigint, lower: Bigint, upper: Bigint?)
    requires significand == f * Pow(2, shift) < WORD
    requires Printable(f, e, exp10) && 1 <= shift <= 2 && e < 0
    ensures fresh(numerator) && fresh(denominator) && fresh(lower) && (upper != null ==> fresh(upper))
    ensures Scaled(numerator, denominator, lower, upper, f, e, shift, exp10)
  {
    numerator := ShiftedWord(significand, 0);
    denominator := ShiftedPower(exp10, shift - e);
    lower := ShiftedWord(1, 0);
    upper := null;
    if shift != 1 { upper := ShiftedWord(2, 0); }
    ScaleAlgebra(significand, f, e, exp10, shift);
  }

  method Scale(f: nat, e: int, shift: nat, exp10: int)
    returns (numerator: Bigint, denominator: Bigint, lower: Bigint, upper: Bigint?)
    requires Printable(f, e, exp10) && 1 <= shift <= 2
    ensures fresh(numerator) && fresh(denominator) && fresh(lower) && (upper != null ==> fresh(upper))
    ensures Scaled(numerator, denominator, lower, upper, f, e, shift, exp10)
  {
    var significand := f * Pow(2, shift);
    ScaleAlgebra(significand, f, e, exp10, shift);
    assert significand == f * (2 * shift) < WORD;
    if e >= 0 {
      numerator, denominator, lower, upper := ScaleUp(significand, f, e, shift, exp10);
    } else if exp10 < 0 {
      numerator, denominator, lower, upper := ScaleSmall(significand, f, e, shift, exp10);
    } else {
      numerator, denominator, lower, upper := ScaleDown(significand, f, e, shift, exp10);
    }
  }

  // The numerator has been aligned with the denominator, or it is still as it started and
  // then too big to be compared with lower.
  ghost predicate Steady(num: nat, en: nat, den: nat, ed: nat, lo: nat, el: nat)
  {
    && en <= el && 0 < lo && 0 < den
    && (en == Min(el, ed) || (en == el && num > lo))
    && Divisible(num, en, den, ed)
  }

  lemma SteadyDivision(num: nat, en: nat, den: nat, ed: nat, lo: nat, el: nat, q: int, r: nat, en': nat)
    requires Steady(num, en, den, ed, lo, el)
    requires en' == if q > 0 then Min(en, ed) else en
    requires if num == den && en > ed then q == 0 && r == num else q == num / den && r == num % den
    ensures q == num / den && r == num % den && Steady(r, en', den, ed, lo, el)
  {
    DivisibleTimesTen(num, en, den, ed);
    QuotientOf(num, den);
    if q > 0 { assert en' <= ed; } else { assert r == num; }
  }

  lemma QuotientOf(num: nat, den: nat)
    requires 0 < den
    ensures 0 <= num / den && 0 <= num % den < den && (num / den == 0 ==> num % den == num)
  {
    assert num == num / den * den + num % den;
  }

  lemma SteadyTimesTen(num: nat, en: nat, den: nat, ed: nat, lo: nat, el: nat)
    requires Steady(num, en, den, ed, lo, el)
    ensures Steady(num * 10, en, den, ed, lo * 10, el)
  {
    DivisibleTimesTen(num, en, den, ed);
  }

  lemma LowTest(a: seq<Bigit>, ea: nat, b: seq<Bigit>, eb: nat, order: int, even: bool, den: nat, ed: nat)
    requires Canonical(a) && Canonical(b) && CompareAnswer(a, ea, b, eb, order)
    requires Steady(Value(a, ea), ea, den, ed, Value(b, eb), eb)
    ensures order - (if even then 1 else 0) < 0 <==> LowEnough(Value(a, ea), Value(b, eb), even, eb <= ed)
  {
    ValueBounds(a, ea);
    ValueBounds(b, eb);
    NumZeroDigit(a);
  }

  lemma SteadyZero(a: seq<Bigit>, ea: nat, c: seq<Bigit>, ec: nat, lo: nat, el: nat)
    requires Canonical(a) && Canonical(c) && Steady(Value(a, ea), ea, Value(c, ec), ec, lo, el)
    ensures Num(a) == 0 ==> ea < |c| + ec
  {
    ValueBounds(a, ea);
  }

  lemma SteadySum(a: seq<Bigit>, ea: nat, b: seq<Bigit>, eb: nat, c: seq<Bigit>, ec: nat, lo: nat, el: nat)
    requires Canonical(a) && Canonical(b) && Canonical(c) && Value(b, eb) > 0
    requires Steady(Value(a, ea), ea, Value(c, ec), ec, lo, el)
    ensures FaithfulSum(a, ea, b, eb, c, ec) && FaithfulSum(a, ea, a, ea, c, ec)
  {
    ValueBounds(a, ea);
    ValueBounds(b, eb);
    ValueBounds(c, ec);
    ReachFaithful(a, ea, b, eb, c, ec);
    ReachFaithful(a, ea, a, ea, c, ec);
  }

  // One digit of the shortest string: it ends here, or goes on with ten times the remainder.
  predicate StepOf(num: nat, den: nat, lo: nat, up: nat, even: bool, sees: bool,
                   digit: int, r: nat, low: bool, high: bool)
    requires Bounded(num, den, up, even) && 0 < lo && 0 < up
  {
    var s := Shortest(num, den, lo, up, even, sees);
    && 0 <= digit <= 9
    && if low || high then s == [Glyph(LastDigit(digit, r, den, low, high))] else
         Bounded(r * 10, den, up * 10, even) && lo < den &&
         s == [Glyph(digit)] + Shortest(r * 10, den, lo * 10, up * 10, even, sees)
  }

  lemma ShortestStep(num: nat, den: nat, lo: nat, up: nat, even: bool, sees: bool)
    requires Bounded(num, den, up, even) && 0 < lo && 0 < up
    ensures var q, r := num / den, num % den;
      StepOf(num, den, lo, up, even, sees, q, r, LowEnough(r, lo, even, sees), HighEnough(r, den, up, even))
  {
    FirstDigit(num, den, lo, up, even, sees);
  }

  // The next digit, and whether the remainder is low or high enough to stop.
  method NextDigit(numerator: Bigint, denominator: Bigint, lower: Bigint, upper: Bigint, even: bool)
    returns (digit: int, low: bool, high: bool)
    requires numerator != denominator && numerator != lower && upper != numerator
    requires numerator.Valid() && denominator.Valid() && lower.Valid() && upper.Valid() && 0 < upper.Val()
    requires Steady(numerator.Val(), numerator.exp, denominator.Val(), denominator.exp, lower.Val(), lower.exp)
    requires Bounded(numerator.Val(), denominator.Val(), upper.Val(), even)
    modifies numerator
    ensures numerator.Valid()
    ensures StepOf(old(numerator.Val()), denominator.Val(), lower.Val(), upper.Val(), even,
                   lower.exp <= denominator.exp, digit, numerator.Val(), low, high)
    ensures Steady(numerator.Val(), numerator.exp, denominator.Val(), denominator.exp, lower.Val(), lower.exp)
  {
    ghost var num, den, en, ed, lo, el :=
      numerator.Val(), denominator.Val(), numerator.exp, denominator.exp, lower.Val(), lower.exp;
    FirstDigit(num, den, lo, upper.Val(), even, true);
    SteadyZero(numerator.bigits, en, denominator.bigits, ed, lo, el);
    digit := numerator.DivModAssign(denominator);
    SteadyDivision(num, en, den, ed, lo, el, digit, numerator.Val(), numerator.exp);
    var order := Compare(numerator, lower);
    LowTest(numerator.bigits, numerator.exp, lower.bigits, el, order, even, den, ed);
    SteadySum(numerator.bigits, numerator.exp, upper.bigits, upper.exp, denominator.bigits, ed, lo, el);
    low := order - (if even then 1 else 0) < 0;
    var sum := AddCompare(numerator, upper, denominator);
    high := sum + (if even then 1 else 0) > 0;
    ShortestStep(num, den, lo, upper.Val(), even, el <= ed);
  }

  // Whether the last digit is increased: not low enough, or the nearer of two candidates,
  // rounding half to even.
  method Increase(numerator: Bigint, denominator: Bigint, lower: Bigint, digit: nat, low: bool, high: bool)
    returns (increase: bool)
    requires numerator.Valid() && denominator.Valid() && (low || high)
    requires Steady(numerator.Val(), numerator.exp, denominator.Val(), denominator.exp, lower.Val(), lower.exp)
    ensures LastDigit(digit, numerator.Val(), denominator.Val(), low, high) == if increase then digit + 1 else digit
  {
    if !low { return true; }
    if !high { return false; }
    SteadySum(numerator.bigits, numerator.exp, denominator.bigits, denominator.exp,
                denominator.bigits, denominator.exp, lower.Val(), lower.exp);
    var result := AddCompare(numerator, numerator, denominator);
    increase := result > 0 || (result == 0 && digit % 2 != 0);
  }

  method TimesTen(numerator: Bigint, lower: Bigint, upper: Bigint)
    requires numerator != lower && upper != numerator
    requires numerator.Valid() && lower.Valid() && upper.Valid()
    modifies numerator, lower, upper
    ensures numerator.Valid() && numerator.Val() == old(numerator.Val()) * 10 && numerator.exp == old(numerator.exp)
    ensures lower.Valid() && lower.Val() == old(lower.Val()) * 10 && lower.exp == old(lower.exp)
    ensures upper.Valid() && upper.Val() == old(upper.Val()) * 10
  {
    numerator.Multiply32(10);
    lower.Multiply32(10);
    if upper != lower { upper.Multiply32(10); }
  }

  // What is still to be generated, after buf.
  ghost predicate Generating(whole: seq<char>, buf: seq<char>, num: nat, en: nat, den: nat, ed: nat, lo: nat, el: nat, up: nat,
                       even: bool)
  {
    && 0 < up && Steady(num, en, den, ed, lo, el) && Bounded(num, den, up, even)
    && whole == buf + Shortest(num, den, lo, up, even, el <= ed)
  }

  lemma GeneratingStep(whole: seq<char>, buf: seq<char>, num: nat, en: nat, den: nat, ed: nat, lo: nat, el: nat, up: nat,
                       even: bool, digit: nat, r: nat, er: nat, low: bool, high: bool)
    requires Generating(whole, buf, num, en, den, ed, lo, el, up, even)
    requires StepOf(num, den, lo, up, even, el <= ed, digit, r, low, high) && Steady(r, er, den, ed, lo, el)
    ensures if low || high then whole == buf + [Glyph(LastDigit(digit, r, den, low, high))]
            else lo < den && Generating(whole, buf + [Glyph(digit)], r * 10, er, den, ed, lo * 10, el, up * 10, even)
  {
    if !low && !high {
      SteadyTimesTen(r, er, den, ed, lo, el);
      assert buf + [Glyph(digit)] + Shortest(r * 10, den, lo * 10, up * 10, even, el <= ed) == whole;
    }
  }

  // Generates the shortest representation.
  method GenerateShortest(numerator: Bigint, denominator: Bigint, lower: Bigint, upper: Bigint, even: bool)
    returns (buf: seq<char>)
    requires numerator != denominator && numerator != lower && denominator != lower
    requires upper != numerator && upper != denominator
    requires numerator.Valid() && denominator.Valid() && lower.Valid() && upper.Valid() && 0 < upper.Val()
    requires Steady(numerator.Val(), numerator.exp, denominator.Val(), denominator.exp, lower.Val(), lower.exp)
    requires Bounded(numerator.Val(), denominator.Val(), upper.Val(), even)
    modifies numerator, lower, upper
    ensures buf == Shortest(old(numerator.Val()), denominator.Val(), old(lower.Val()), old(upper.Val()), even,
                            old(lower.exp) <= denominator.exp)
  {
    buf := [];
    ghost var den, ed, el := denominator.Val(), denominator.exp, lower.exp;
    ghost var whole := Shortest(numerator.Val(), den, lower.Val(), upper.Val(), even, el <= ed);
    assert buf + whole == whole;
    while true
      invariant numerator.Valid() && lower.Valid() && upper.Valid() && lower.exp == el && denominator.Val() == den
      invariant Generating(whole, buf, numerator.Val(), numerator.exp, den, ed, lower.Val(), el, upper.Val(), even)
      decreases Max(den - lower.Val(), 0)
    {
      ghost var num, en, lo, up := numerator.Val(), numerator.exp, lower.Val(), upper.Val();
      var digit, low, high := NextDigit(numerator, denominator, lower, upper, even);
      GeneratingStep(whole, buf, num, en, den, ed, lo, el, up, even, digit, numerator.Val(), numerator.exp, low, high);
      buf := buf + [Glyph(digit)];
      if low || high {
        var increase := Increase(numerator, denominator, lower, digit, low, high);
        if increase { buf := buf[|buf| - 1 := Glyph(digit + 1)]; }
        return;
      }
      TimesTen(numerator, lower, upper);
    }
  }

  // s spells the digits of num0 / den so far; num is ten times what is left over.
  predicate Quotient(num0: nat, den: nat, s: seq<char>, num: nat)
  {
    && AllDigits(s) && num < 10 * den
    && num0 * Pow(10, |s|) == 10 * Spelled(s) * den + num
  }

  lemma NextQuotient(num0: nat, den: nat, p: nat, spelled: nat, num: nat, q: nat, r: nat)
    requires num0 * p == 10 * spelled * den + num && num == q * den + r
    ensures num0 * p == (10 * spelled + q) * den + r
    ensures num0 * (10 * p) == 10 * (10 * spelled + q) * den + r * 10
  {
    assert (10 * spelled + q) * den == 10 * spelled * den + q * den;
    MulAssoc(10, 10 * spelled + q, den);
  }

  lemma QuotientDigit(num0: nat, den: nat, s: seq<char>, num: nat, q: nat, r: nat)
    requires Quotient(num0, den, s, num) && num == q * den + r && q <= 9 && r < den
    ensures Quotient(num0, den, s + [Glyph(q)], r * 10)
  {
    SpelledBound(s);
    SpelledSnoc(s, Glyph(q));
    NextQuotient(num0, den, Pow(10, |s|), Spelled(s), num, q, r);
    MulAssoc(10, Pow(10, |s|), num0);
  }

  // The last digit is not multiplied away but rounded.
  lemma QuotientLast(num0: nat, den: nat, s: seq<char>, num: nat, q: nat, r: nat, up: bool)
    requires Quotient(num0, den, s, num) && num == q * den + r && q <= 9 && r < den
    requires up <==> 2 * r > den || (2 * r == den && q % 2 == 1)
    ensures RoundsTo(num0 * Pow(10, |s|), den, Spelled(s + [Glyph(if up then q + 1 else q)]))
  {
    SpelledBound(s);
    SpelledSnoc(s, Glyph(if up then q + 1 else q));
    NextQuotient(num0, den, Pow(10, |s|), Spelled(s), num, q, r);
    NatProduct(num0, Pow(10, |s|));
    LastRounded(num0 * Pow(10, |s|), den, 10 * Spelled(s), q, r, up);
  }

  lemma LastRounded(n: nat, den: nat, front: nat, q: nat, r: nat, up: bool)
    requires n == (front + q) * den + r && r < den && front % 2 == 0
    requires up <==> 2 * r > den || (2 * r == den && q % 2 == 1)
    ensures RoundsTo(n, den, front + if up then q + 1 else q)
  {
    RoundedQuotient(n, den, front + q, r, up);
  }

  lemma RoundedQuotient(p: nat, den: nat, d: nat, r: nat, up: bool)
    requires p == d * den + r && r < den
    requires up <==> 2 * r > den || (2 * r == den && d % 2 == 1)
    ensures RoundsTo(p, den, if up then d + 1 else d)
  {
    assert (d + 1) * den == d * den + den;
  }

  method TakeDigit(numerator: Bigint, denominator: Bigint) returns (digit: nat)
    requires numerator != denominator && numerator.Valid() && denominator.Valid()
    requires Divisible(numerator.Val(), numerator.exp, denominator.Val(), denominator.exp)
    requires numerator.Val() < 10 * denominator.Val()
    modifies numerator
    ensures numerator.Valid() && digit <= 9
    ensures old(numerator.Val()) == digit * denominator.Val() + numerator.Val() && numerator.Val() < denominator.Val()
    ensures Divisible(numerator.Val(), numerator.exp, denominator.Val(), denominator.exp)
  {
    ghost var num, den := numerator.Val(), denominator.Val();
    QuotientBelowTen(num, den);
    DivisibleTimesTen(num, numerator.exp, den, denominator.exp);
    ValueBounds(numerator.bigits, numerator.exp);
    digit := numerator.DivModAssign(denominator);
  }

  lemma QuotientBelowTen(num: nat, den: nat)
    requires num < 10 * den
    ensures 0 <= num / den <= 9 && num == num / den * den + num % den
  {
    var q := num / den;
    assert num == q * den + num % den;
    if q >= 10 { MulMono(10, q, den); }
  }

  // Compares twice the remainder with the denominator and rounds half to even.
  method RoundsUp(numerator: Bigint, denominator: Bigint, digit: nat) returns (up: bool)
    requires numerator.Valid() && denominator.Valid() && numerator.Val() < denominator.Val()
    requires Divisible(numerator.Val(), numerator.exp, denominator.Val(), denominator.exp)
    ensures up <==> 2 * numerator.Val() > denominator.Val() ||
                    (2 * numerator.Val() == denominator.Val() && digit % 2 == 1)
  {
    ValueBounds(numerator.bigits, numerator.exp);
    ValueBounds(denominator.bigits, denominator.exp);
    ReachFaithful(numerator.bigits, numerator.exp, numerator.bigits, numerator.exp, denominator.bigits, denominator.exp);
    var result := AddCompare(numerator, numerator, denominator);
    up := result > 0 || (result == 0 && digit % 2 != 0);
  }

  // Generates the given number of digits; carried tells whether exp10 is incremented.
  method GenerateFixed(numerator: Bigint, denominator: Bigint, numDigits: nat) returns (buf: seq<char>, carried: bool)
    requires numerator != denominator && numerator.Valid() && denominator.Valid() && 0 < numDigits
    requires Divisible(numerator.Val(), numerator.exp, denominator.Val(), denominator.exp)
    requires numerator.Val() < 10 * denominator.Val()
    modifies numerator
    ensures |buf| == numDigits && AllDigits(buf) && (carried ==> buf[0] == '1')
    ensures RoundsTo(old(numerator.Val()) * Pow(10, numDigits - 1), denominator.Val(),
                     Spelled(buf) * if carried then 10 else 1)
  {
    ghost var num0, den := numerator.Val(), denominator.Val();
    carried := false;
    buf := seq(numDigits, _ => '0');
    assert buf[..0] == [];
    for i := 0 to numDigits - 1
      invariant |buf| == numDigits && numerator.Valid() && denominator.Val() == den
      invariant Divisible(numerator.Val(), numerator.exp, den, denominator.exp)
      invariant Quotient(num0, den, buf[..i], numerator.Val())
    {
      ghost var num, front := numerator.Val(), buf[..i];
      var digit := TakeDigit(numerator, denominator);
      QuotientDigit(num0, den, front, num, digit, numerator.Val());
      DivisibleTimesTen(numerator.Val(), numerator.exp, den, denominator.exp);
      buf := buf[i := Glyph(digit)];
      assert buf[..i + 1] == front + [Glyph(digit)];
      numerator.Multiply32(10);
    }
    var last := numDigits - 1;
    ghost var num, front := numerator.Val(), buf[..last];
    var digit := TakeDigit(numerator, denominator);
    var up := RoundsUp(numerator, denominator, digit);
    QuotientLast(num0, den, front, num, digit, numerator.Val(), up);
    if up { digit := digit + 1; }
    buf := buf[last := Glyph(digit)];
    assert buf == front + [Glyph(digit)];
    if digit == 10 {
      buf, carried := PropagateCarry(buf);
    }
  }

  // Propagates the carry out of the last digit, which is the character after '9'.
  method PropagateCarry(digits: seq<char>) returns (buf: seq<char>, carried: bool)
    requires digits != [] && Carrying(digits, |digits| - 1)
    ensures |buf| == |digits| && AllDigits(buf) && Spelled(digits) == Spelled(buf) * if carried then 10 else 1
    ensures carried ==> buf[0] == '1'
  {
    buf, carried := digits, false;
    var i := |buf| - 1;
    while i > 0 && buf[i] == ':'
      invariant |buf| == |digits| && 0 <= i && Carrying(buf, i) && Spelled(buf) == Spelled(digits)
    {
      CarryStep(buf, i);
      buf := buf[i := '0'][i - 1 := Glyph(Face(buf[i - 1]) + 1)];
      i := i - 1;
    }
    CarryOut(buf, i);
    if buf[0] == ':' {
      buf := buf[0 := '1'];
      carried := true;
    }
  }

  // A common factor does not change a rounding.
  lemma RoundsToScaled(p: nat, q: nat, c: nat, d: int)
    requires 0 < c && RoundsTo(p * c, q * c, d)
    ensures RoundsTo(p, q, d)
  {
    MulAssoc(d, q, c);
    assert (p - d * q) * c == p * c - d * q * c;
    AbsProduct(p - d * q, c);
    HalfScaled(Abs(p - d * q), q, c);
  }

  lemma HalfScaled(a: nat, q: nat, c: nat)
    requires 0 < c
    ensures 2 * (a * c) <= q * c ==> 2 * a <= q
    ensures 2 * a == q ==> 2 * (a * c) == q * c
  {
    MulAssoc(2, a, c);
    if 2 * (a * c) <= q * c { MulCancel(2 * a, q, c); }
  }

  lemma FixedValue(f: nat, e: int, exp10: int, scale: nat, p: nat, d: int)
    requires 0 < scale && RoundsTo(f * Gap(e, exp10) * scale * p, Den(e, exp10) * scale, d)
    ensures RoundsTo(f * Gap(e, exp10) * p, Den(e, exp10), d)
  {
    MulAssoc(f * Gap(e, exp10), scale, p);
    RoundsToScaled(f * Gap(e, exp10) * p, Den(e, exp10), scale, d);
  }

  // The fixed-digit result: buf * 10^exp10' is f * 2^e rounded half to even to a multiple of
  // 10^(exp10 - (numDigits - 1)); exp10' is one more than that if a carry left the first digit.
  predicate FixedResult(f: nat, e: int, exp10: int, numDigits: nat, buf: seq<char>, exp10': int)
  {
    var carry := exp10' - (exp10 - (numDigits - 1));
    && |buf| == Max(numDigits, 1) && AllDigits(buf)
    && 0 <= carry <= 1 && (numDigits == 0 ==> carry == 0) && (carry == 1 ==> buf[0] == '1')
    && if numDigits == 0 then RoundsTo(f * Gap(e, exp10), Den(e, exp10) * 10, Spelled(buf))
       else RoundsTo(f * Gap(e, exp10) * Pow(10, numDigits - 1), Den(e, exp10), Spelled(buf) * Pow(10, carry))
  }

  lemma NoDigitsResult(f: nat, e: int, exp10: int, scale: nat, buf: seq<char>)
    requires 0 < scale && |buf| == 1 && AllDigits(buf)
    requires RoundsTo(f * Gap(e, exp10) * scale, Den(e, exp10) * scale * 10, Spelled(buf))
    ensures FixedResult(f, e, exp10, 0, buf, exp10 + 1)
  {
    MulAssoc(Den(e, exp10), scale, 10);
    RoundsToScaled(f * Gap(e, exp10), Den(e, exp10) * 10, scale, Spelled(buf));
  }

  lemma DigitsResult(f: nat, e: int, exp10: int, scale: nat, numDigits: nat, buf: seq<char>, carried: bool)
    requires 0 < scale && 0 < numDigits == |buf| && AllDigits(buf) && (carried ==> buf[0] == '1')
    requires RoundsTo(f * Gap(e, exp10) * scale * Pow(10, numDigits - 1), Den(e, exp10) * scale,
                      Spelled(buf) * if carried then 10 else 1)
    ensures FixedResult(f, e, exp10, numDigits, buf, exp10 - (numDigits - 1) + if carried then 1 else 0)
  {
    var d := Spelled(buf) * if carried then 10 else 1;
    FixedValue(f, e, exp10, scale, Pow(10, numDigits - 1), d);
    assert Pow(10, 0) == 1 && Pow(10, 1) == 10;
  }

  method GenerateNone(numerator: Bigint, denominator: Bigint) returns (buf: seq<char>)
    requires numerator != denominator && numerator.Valid() && denominator.Valid()
    requires 0 < numerator.Val() < 10 * denominator.Val()
    modifies denominator
    ensures |buf| == 1 && AllDigits(buf)
    ensures RoundsTo(numerator.Val(), old(denominator.Val()) * 10, Spelled(buf))
  {
    denominator.Multiply32(10);
    ValueBounds(numerator.bigits, numerator.exp);
    ValueBounds(denominator.bigits, denominator.exp);
    ghost var num, den := numerator.Val(), denominator.Val();
    ReachFaithful(numerator.bigits, numerator.exp, numerator.bigits, numerator.exp, denominator.bigits, denominator.exp);
    var result := AddCompare(numerator, numerator, denominator);
    buf := [if result > 0 then '1' else '0'];
    NoneRounds(num, den, result, buf);
  }

  lemma NoneRounds(num: nat, den: nat, result: int, buf: seq<char>)
    requires num < den && result == Sign(num + num - den) && buf == [if result > 0 then '1' else '0']
    ensures AllDigits(buf) && RoundsTo(num, den, Spelled(buf))
  {
    assert buf[..0] == [];
  }

  method FallbackFixed(f: nat, e: int, closer: bool, numDigits: nat, exp10: int)
    returns (buf: seq<char>, exp10': int)
    requires Printable(f, e, exp10)
    ensures FixedResult(f, e, exp10, numDigits, buf, exp10')
  {
    var shift := if closer then 2 else 1;
    ghost var scale := Pow(2, shift);
    var numerator, denominator, lower, upper := Scale(f, e, shift, exp10);
    ScaledPrintable(f, e, exp10, scale);
    exp10' := exp10 - (numDigits - 1);
    if numDigits == 0 {
      buf := GenerateNone(numerator, denominator);
      NoDigitsResult(f, e, exp10, scale, buf);
    } else {
      var carried;
      buf, carried := GenerateFixed(numerator, denominator, numDigits);
      DigitsResult(f, e, exp10, scale, numDigits, buf, carried);
      if carried { exp10' := exp10' + 1; }
    }
  }

  lemma ScaledPrintable(f: nat, e: int, exp10: int, scale: nat)
    requires Printable(f, e, exp10) && 0 < scale
    ensures 0 < f * Gap(e, exp10) * scale < 10 * (Den(e, exp10) * scale)
  {
    var x, y := f * Gap(e, exp10), Den(e, exp10);
    MulMono(1, f, Gap(e, exp10));
    MulMono(1, x, scale);
    MulStrict(x, 10 * y, scale);
    MulAssoc(10, y, scale);
  }

  // The value is f * 2^e; the boundaries are half way to its neighbours, the lower one
  // nearer when the spacing changes at f * 2^e. Here both are scaled by 4 or 2.
  predicate Between(f: nat, e: int, closer: bool, exp10: int, n: nat, m: int)
    requires n > 0
  {
    var scale := if closer then 4 else 2;
    Inside(f * Gap(e, exp10) * scale, Den(e, exp10) * scale, Gap(e, exp10), scale / 2 * Gap(e, exp10),
           f % 2 == 0, f % 2 == 0, n, m)
  }

  // The upper boundary is below 10^(exp10 + 1); it may be equal for an odd significand.
  predicate BoundaryPrintable(f: nat, e: int, closer: bool, exp10: int)
  {
    var scale := if closer then 4 else 2;
    Bounded(f * Gap(e, exp10) * scale, Den(e, exp10) * scale, scale / 2 * Gap(e, exp10), f % 2 == 0)
  }

  // No decimal with fewer than length digits is in the rounding interval.
  ghost predicate NoneShorter(f: nat, e: int, closer: bool, exp10: int, length: nat)
  {
    var scale := if closer then 4 else 2;
    Minimal(f * Gap(e, exp10) * scale, Den(e, exp10) * scale, Gap(e, exp10), scale / 2 * Gap(e, exp10),
            f % 2 == 0, length)
  }

  // The lower boundary has fewer digits than everything above it that reads back as the value.
  ghost predicate BoundaryShortest(f: nat, e: int, closer: bool, exp10: int)
  {
    var scale := if closer then 4 else 2;
    LowerEndShortest(f * Gap(e, exp10) * scale, Den(e, exp10) * scale, Gap(e, exp10), scale / 2 * Gap(e, exp10))
  }

  // Of the decimals with as many digits that the comparison sees in the interval, none is nearer to
  // the value, and a tie goes to the even one.
  ghost predicate NearestSeen(f: nat, e: int, closer: bool, exp10: int, buf: seq<char>)
    requires buf != []
  {
    var scale, gap, even := if closer then 4 else 2, Gap(e, exp10), f % 2 == 0;
    var num, den := f * gap * scale, Den(e, exp10) * scale;
    forall m: int :: Inside(num, den, gap, scale / 2 * gap, even && SeesEquality(e, exp10), even, |buf|, m) ==>
      NoNearer(num, den, |buf|, Spelled(buf), m)
  }

  // The shortest result is inside the rounding interval, and no decimal with fewer digits is,
  // exactly unless the boundary of an even significand alone is shortest and is not seen.
  ghost predicate ShortestResult(f: nat, e: int, closer: bool, exp10: int, buf: seq<char>, exp10': int)
  {
    && 0 < |buf| && AllDigits(buf) && exp10' == exp10 - (|buf| - 1)
    && Between(f, e, closer, exp10, |buf|, Spelled(buf)) && NearestSeen(f, e, closer, exp10, buf)
    && (NoneShorter(f, e, closer, exp10, |buf|) <==>
        f % 2 == 1 || SeesEquality(e, exp10) || !BoundaryShortest(f, e, closer, exp10))
  }

  // The digits that the shortest mode prints.
  function ShortestDigits(f: nat, e: int, closer: bool, exp10: int): seq<char>
    requires BoundaryPrintable(f, e, closer, exp10)
  {
    var scale, gap := if closer then 4 else 2, Gap(e, exp10);
    Shortest(f * gap * scale, Den(e, exp10) * scale, gap, scale / 2 * gap, f % 2 == 0, SeesEquality(e, exp10))
  }

  lemma ShortestProperties(f: nat, e: int, closer: bool, exp10: int)
    requires BoundaryPrintable(f, e, closer, exp10)
    ensures var buf := ShortestDigits(f, e, closer, exp10);
      ShortestResult(f, e, closer, exp10, buf, exp10 - (|buf| - 1))
  {
    var sees := SeesEquality(e, exp10);
    var scale, gap, even := if closer then 4 else 2, Gap(e, exp10), f % 2 == 0;
    var num, den := f * gap * scale, Den(e, exp10) * scale;
    ShortestInside(num, den, gap, scale / 2 * gap, even, sees);
    ShortestExactly(num, den, gap, scale / 2 * gap, even, sees);
    ShortestIsNearest(f, e, closer, exp10);
  }

  lemma ShortestIsNearest(f: nat, e: int, closer: bool, exp10: int)
    requires BoundaryPrintable(f, e, closer, exp10)
    ensures ShortestDigits(f, e, closer, exp10) != [] &&
            NearestSeen(f, e, closer, exp10, ShortestDigits(f, e, closer, exp10))
  {
    var sees, buf := SeesEquality(e, exp10), ShortestDigits(f, e, closer, exp10);
    var scale, gap, even := if closer then 4 else 2, Gap(e, exp10), f % 2 == 0;
    var num, den := f * gap * scale, Den(e, exp10) * scale;
    ShortestInside(num, den, gap, scale / 2 * gap, even, sees);
    forall m: int | Inside(num, den, gap, scale / 2 * gap, even && sees, even, |buf|, m)
      ensures NoNearer(num, den, |buf|, Spelled(buf), m)
    {
      ShortestNearest(num, den, gap, scale / 2 * gap, even, sees, m);
    }
  }

  lemma SteadyStart(num: nat, en: nat, den: nat, ed: nat, lo: nat, f: nat, scale: nat)
    requires 0 < f && 0 < den && 0 < lo && 1 < scale && num == f * lo * scale && Divisible(num, en, den, ed)
    ensures Steady(num, en, den, ed, lo, en)
  {
    MulMono(1, f, lo);
    MulMono(2, scale, f * lo);
  }

  method FallbackShortest(f: nat, e: int, closer: bool, exp10: int) returns (buf: seq<char>, exp10': int)
    requires Printable(f, e, exp10) && BoundaryPrintable(f, e, closer, exp10)
    ensures buf == ShortestDigits(f, e, closer, exp10) && exp10' == exp10 - (|buf| - 1)
    ensures ShortestResult(f, e, closer, exp10, buf, exp10')
  {
    var shift := if closer then 2 else 1;
    ghost var scale := Pow(2, shift);
    ScaleAlgebra(f * scale, f, e, exp10, shift);
    var numerator, denominator, lower, store := Scale(f, e, shift, exp10);
    var upper := if store == null then lower else store;
    SteadyStart(numerator.Val(), numerator.exp, denominator.Val(), denominator.exp, lower.Val(), f, scale);
    buf := GenerateShortest(numerator, denominator, lower, upper, f % 2 == 0);
    ShortestProperties(f, e, closer, exp10);
    exp10' := exp10 - (|buf| - 1);
  }

  // fallback_format: a negative number of digits asks for the shortest representation.
  method FallbackFormat(f: nat, e: int, closer: bool, numDigits: int, exp10: int)
    returns (buf: seq<char>, exp10': int)
    requires Printable(f, e, exp10) && (numDigits < 0 ==> BoundaryPrintable(f, e, closer, exp10))
    ensures if numDigits < 0 then ShortestResult(f, e, closer, exp10, buf, exp10')
            else FixedResult(f, e, exp10, numDigits, buf, exp10')
  {
    if numDigits < 0 {
      buf, exp10' := FallbackShortest(f, e, closer, exp10);
    } else {
      buf, exp10' := FallbackFixed(f, e, closer, numDigits, exp10);
    }
  }

  // 3584 * 10^22 is the lower boundary of f * 2^32 for this even f, and its four digits would do;
  // the comparison does not see the equality, and more digits are printed.
  lemma NotShortest()
    ensures var f := 8344650268554688;
      && f % 2 == 0 && !SeesEquality(32, 25) && BoundaryPrintable(f, 32, false, 25)
      && Between(f, 32, false, 25, 4, 3584)
      && |ShortestDigits(f, 32, false, 25)| > 4
  {
    FourDigitBoundary();
    LongDigits();
  }

  lemma FourDigitBoundary()
    ensures Gap(32, 25) == 4294967296 && Den(32, 25) == 10000000000000000000000000
    ensures Inside(71680000000000004294967296, 20000000000000000000000000, 4294967296, 4294967296, true, true, 4, 3584)
  {
    PowTwo32();
    TenTo25();
    assert Pow(10, 0) == 1 == Pow(2, 0) && Pow(10, 3) == 1000;
  }

  lemma LongDigits()
    ensures Bounded(71680000000000004294967296, 20000000000000000000000000, 4294967296, true)
    ensures |Shortest(71680000000000004294967296, 20000000000000000000000000, 4294967296, 4294967296, true, false)| > 4
  {
    var den2 := 20000000000000000000000000;
    Longer(71680000000000004294967296, den2, 4294967296, 3, 11680000000000004294967296);
    Longer(116800000000000042949672960, den2, 42949672960, 5, 16800000000000042949672960);
    Longer(168000000000000429496729600, den2, 429496729600, 8, 8000000000000429496729600);
    Longer(80000000000004294967296000, den2, 4294967296000, 4, 4294967296000);
  }

  lemma TenTo25()
    ensures Pow(10, 25) == 10000000000000000000000000
  {
    assert Pow(10, 5) == 100000 by { assert Pow(10, 3) == 1000; }
    PowAdd(10, 5, 5);
    PowAdd(10, 10, 10);
    PowAdd(10, 20, 5);
  }

  lemma Longer(num: nat, den: nat, lo: nat, q: nat, r: nat)
    requires num == q * den + r && 0 < lo <= r && r + lo < den && q <= 9
    ensures Bounded(num, den, lo, true) && Bounded(10 * r, den, 10 * lo, true)
    ensures |Shortest(num, den, lo, lo, true, false)| == 1 + |Shortest(10 * r, den, 10 * lo, 10 * lo, true, false)| > 1
  {
    DivModUnique(num, den, q, r);
    MulMono(q, 9, den);
    FirstDigit(num, den, lo, lo, true, false);
    ShortestInside(10 * r, den, 10 * lo, 10 * lo, true, false);
  }
}
