/** Digit generation under an error bound: grisu_gen_digits with fixed_handler. */
module Grisu {
  import opened Arith
  import opened Decimal
  import opened CountDigits
  import Words

  const WORD: nat := 0x1_0000_0000_0000_0000

  datatype RoundDirection = Unknown | Up | Down

  datatype DigitsResult = More | Done | Error

  // Down and Up are safe for every number within error of the remainder; every intermediate
  // result is a 64-bit word.
  function GetRoundDirection(divisor: nat, remainder: nat, error: nat): (dir: RoundDirection)
    requires remainder < divisor < WORD && error < divisor && error < divisor - error
    ensures dir == Down <==> 2 * (remainder + error) <= divisor
    ensures dir == Up <==> 2 * (remainder - error) >= divisor && 2 * (remainder + error) > divisor
  {
    var rest: Words.U64 := divisor - remainder;
    if remainder <= rest && TwiceFits(divisor, remainder, error) then Down
    else if remainder >= error &&
            var low: Words.U64 := remainder - error; var high: Words.U64 := divisor - low; low >= high then Up
    else Unknown
  }

  // error * 2 <= divisor - remainder * 2, in words.
  predicate TwiceFits(divisor: nat, remainder: nat, error: nat)
    requires remainder <= divisor - remainder && divisor < WORD && error < divisor - error
  {
    var twice: Words.U64, double: Words.U64 := error * 2, remainder * 2;
    var left: Words.U64 := divisor - double;
    twice <= left
  }

  // The scaled value times 10^j when the digits reach j places behind the point.
  function Places(exp: int): nat
  {
    Pow(10, Max(-exp, 0))
  }

  // The weight of the last digit at exponent exp; one is 1.0 in fixed point.
  function Unit(exp: int, one: nat): nat
  {
    Pow(10, Max(exp, 0)) * one
  }

  // The digits so far and the remainder make up the scaled value exactly.
  predicate Conserved(w: nat, one: nat, exp: int, d: nat, r: nat)
  {
    w * Places(exp) == d * Unit(exp, one) + r && r < Unit(exp, one)
  }

  // m is a nearest multiple of the unit not just for w but for everything within one of it.
  predicate Nearest(w: nat, one: nat, exp: int, m: int)
  {
    2 * (Abs(w * Places(exp) - m * Unit(exp, one)) + Places(exp)) <= Unit(exp, one)
  }

  // The remainder at the last digit is so far from a half, and behind the point from nothing,
  // that the error cannot change the digits.
  predicate Clear(divisor: nat, remainder: nat, error: nat, integral: bool)
  {
    (integral || error < remainder) && (2 * (remainder + error) <= divisor || 2 * (remainder - error) >= divisor)
  }

  // What the digits down to exponent exp leave over.
  function Rest(w: nat, one: nat, exp: int): nat
    requires one > 0
  {
    NatProduct(w, Places(exp));
    MulMono(1, Pow(10, Max(exp, 0)), one);
    NatQuotient(w * Places(exp), Unit(exp, one));
    w * Places(exp) % Unit(exp, one)
  }

  predicate Decided(w: nat, one: nat, exp: int)
    requires one > 0
  {
    Clear(Unit(exp, one), Rest(w, one, exp), Places(exp), exp >= 0)
  }

  lemma ConservedRest(w: nat, one: nat, exp: int, d: nat, r: nat)
    requires one > 0 && Conserved(w, one, exp, d, r)
    ensures r == Rest(w, one, exp)
  {
    DivModUnique(w * Places(exp), Unit(exp, one), d, r);
  }

  lemma ConservedDecided(w: nat, one: nat, exp: int, d: nat, r: nat)
    requires one > 0 && Conserved(w, one, exp, d, r)
    ensures r == Rest(w, one, exp)
    ensures Decided(w, one, exp) <==> Clear(Unit(exp, one), r, Places(exp), exp >= 0)
  {
    ConservedRest(w, one, exp, d, r);
  }

  // Digits are decided exactly when some number is nearest for the whole error band, and behind
  // the point what is left over exceeds the error.
  lemma DecidedMeans(w: nat, one: nat, exp: int)
    requires one > 0
    ensures Decided(w, one, exp) <==>
            (exists m: int :: Nearest(w, one, exp, m)) && (exp < 0 ==> Places(exp) < Rest(w, one, exp))
  {
    var u, r := Unit(exp, one), Rest(w, one, exp);
    MulMono(1, Pow(10, Max(exp, 0)), one);
    NatProduct(w, Places(exp));
    NatQuotient(w * Places(exp), u);
    var d := w * Places(exp) / u;
    if Decided(w, one, exp) {
      if 2 * (r + Places(exp)) <= u { RoundedDown(w, one, exp, d, r); } else { RoundedUp(w, one, exp, d, r); }
    } else if exists m: int :: Nearest(w, one, exp, m) {
      var m: int :| Nearest(w, one, exp, m);
      NearestClear(w * Places(exp), u, Places(exp), d, r, m);
    }
  }

  lemma NearestClear(x: nat, u: nat, p: nat, d: nat, r: nat, m: int)
    requires x == d * u + r && r < u && 2 * (Abs(x - m * u) + p) <= u
    ensures 2 * (r + p) <= u || 2 * (r - p) >= u
  {
    assert (d + 1) * u == d * u + u;
    if m <= d { MulMono(m, d, u); } else { MulMono(d + 1, m, u); }
  }

  lemma RoundedDown(w: nat, one: nat, exp: int, d: nat, r: nat)
    requires Conserved(w, one, exp, d, r) && 2 * (r + Places(exp)) <= Unit(exp, one)
    ensures Nearest(w, one, exp, d)
  {
  }

  lemma RoundedUp(w: nat, one: nat, exp: int, d: nat, r: nat)
    requires Conserved(w, one, exp, d, r) && 2 * (r - Places(exp)) >= Unit(exp, one)
    ensures Nearest(w, one, exp, d + 1)
  {
    var u := Unit(exp, one);
    assert (d + 1) * u == d * u + u;
  }

  lemma IntegralScalar(w: nat, d: nat, p: nat, one: nat, integral: nat, fractional: nat, q: nat, i: nat)
    requires w == d * (10 * p * one) + (integral * one + fractional)
    requires integral == q * p + i && i < p && fractional < one
    ensures w == (10 * d + q) * (p * one) + (i * one + fractional) && i * one + fractional < p * one
  {
    MulAssoc(10 * p, one, d);
    MulAssoc(10, p * one, d);
    MulAssoc(10, p, one);
    MulAssoc(q, p, one);
    assert (q * p + i) * one == q * p * one + i * one;
    assert (10 * d + q) * (p * one) == 10 * d * (p * one) + q * (p * one);
    MulAssoc(10, d, p * one);
    MulMono(i + 1, p, one);
    assert (i + 1) * one == i * one + one;
  }

  // One digit of the integral part.
  lemma IntegralStep(w: nat, one: nat, exp: nat, d: nat, integral: nat, fractional: nat)
    requires 0 < exp && Conserved(w, one, exp, d, integral * one + fractional)
    requires integral < Pow(10, exp) && fractional < one
    ensures var p := Pow(10, exp - 1);
      && 0 <= integral / p <= 9 && 0 <= integral % p < p
      && Conserved(w, one, exp - 1, 10 * d + integral / p, integral % p * one + fractional)
  {
    var p := Pow(10, exp - 1);
    var q := integral / p;
    assert integral == q * p + integral % p;
    if q >= 10 { MulMono(10, q, p); }
    assert Pow(10, 0) == 1;
    IntegralScalar(w, d, p, one, integral, fractional, q, integral % p);
  }

  lemma FractionalScalar(w: nat, up: nat, d: nat, one: nat, fractional: nat, q: nat, r: nat)
    requires w * up == d * one + fractional && fractional * 10 == q * one + r
    ensures w * (10 * up) == (10 * d + q) * one + r
  {
    MulAssoc(10, up, w);
    MulAssoc(10, d, one);
    assert (10 * d + q) * one == 10 * d * one + q * one;
  }

  // One digit of the fractional part.
  lemma FractionalStep(w: nat, one: nat, exp: int, d: nat, fractional: nat)
    requires exp <= 0 < one && Conserved(w, one, exp, d, fractional)
    ensures 0 <= fractional * 10 / one <= 9 && 0 <= fractional * 10 % one < one
    ensures Conserved(w, one, exp - 1, 10 * d + fractional * 10 / one, fractional * 10 % one)
    ensures Places(exp - 1) == 10 * Places(exp)
  {
    assert Pow(10, 0) == 1;
    NatQuotient(fractional * 10, one);
    var q := fractional * 10 / one;
    if q >= 10 { MulMono(10, q, one); }
    FractionalScalar(w, Places(exp), d, one, fractional, q, fractional * 10 % one);
  }

  /** The fixed precision digit handler. */
  class FixedHandler {
    var buf: seq<char>
    var precision: int
    var exp10: int
    const fixed: bool

    constructor (precision: int, exp10: int, fixed: bool)
      ensures this.buf == [] && this.precision == precision && this.exp10 == exp10 && this.fixed == fixed
    {
      this.buf, this.precision, this.exp10, this.fixed := [], precision, exp10, fixed;
    }

    method OnStart(divisor: nat, remainder: nat, error: nat, exp: int) returns (result: DigitsResult)
      requires remainder < divisor < WORD && error < divisor && error < divisor - error
      modifies this
      ensures exp10 == old(exp10) && precision == if fixed then old(precision) + exp + exp10 else old(precision)
      ensures result == More <==> !fixed || precision > 0
      ensures result == Error <==> fixed && precision == 0 && GetRoundDirection(divisor, remainder, error) == Unknown
      ensures buf == if result != Done || precision < 0 then old(buf)
                     else old(buf) + [if GetRoundDirection(divisor, remainder, error) == Up then '1' else '0']
    {
      if !fixed { return More; }
      // The precision is relative to the decimal point.
      precision := precision + exp + exp10;
      if precision > 0 { return More; }
      if precision < 0 { return Done; }
      var dir := GetRoundDirection(divisor, remainder, error);
      if dir == Unknown { return Error; }
      buf := buf + [if dir == Up then '1' else '0'];
      return Done;
    }

    method OnDigit(digit: char, divisor: nat, remainder: nat, error: nat, integral: bool) returns (result: DigitsResult)
      requires AllDigits(buf) && IsDigit(digit)
      requires remainder < divisor < WORD && (integral ==> error == 1 && divisor > 2)
      modifies this
      ensures precision == old(precision) && AllDigits(buf)
      ensures result == More <==> (integral || error < remainder) && |old(buf)| + 1 < precision
      ensures result == Done <==> Clear(divisor, remainder, error, integral) && |old(buf)| + 1 >= precision
      ensures result == Done ==>
        (GetRoundDirection(divisor, remainder, error) == Down && Spells(buf, exp10 - old(exp10), old(buf) + [digit], 0)) ||
        (GetRoundDirection(divisor, remainder, error) == Up && Spells(buf, exp10 - old(exp10), old(buf) + [digit], 1))
      ensures result == Done && fixed ==> exp10 == old(exp10) && Grown(buf, |old(buf)| + 1)
      ensures result == Done && !fixed ==> |buf| == |old(buf)| + 1 && (exp10 != old(exp10) ==> buf[0] == '1')
      ensures result != Done ==> buf == old(buf) + [digit] && exp10 == old(exp10)
    {
      buf := buf + [digit];
      if !integral && error >= remainder { return Error; }
      if |buf| < precision { return More; }
      if !integral {
        // Twice the error must be below the divisor, and doubling it might not fit.
        if error >= divisor || error >= divisor - error { return Error; }
      }
      assert Pow(10, 0) == 1;
      var dir := GetRoundDirection(divisor, remainder, error);
      if dir != Up { return if dir == Down then Done else Error; }
      RoundUp();
      return Done;
    }

    // The end of on_digit: increases the last digit and propagates the carry.
    method RoundUp()
      requires buf != [] && AllDigits(buf)
      modifies this
      ensures precision == old(precision) && AllDigits(buf) && Spells(buf, exp10 - old(exp10), old(buf), 1)
      ensures if fixed then exp10 == old(exp10) && Grown(buf, |old(buf)|)
              else |buf| == |old(buf)| && (exp10 != old(exp10) ==> buf[0] == '1')
    {
      ghost var digits := buf;
      var i := |buf| - 1;
      RaiseLast(buf);
      buf := buf[i := Glyph(Face(buf[i]) + 1)];
      while i > 0 && buf[i] > '9'
        invariant 0 <= i && Raising(buf, digits, i)
        invariant exp10 == old(exp10) && precision == old(precision)
      {
        CarryStep(buf, i);
        buf := buf[i := '0'][i - 1 := Glyph(Face(buf[i - 1]) + 1)];
        i := i - 1;
      }
      CarryOut(buf, i);
      if buf[0] > '9' {
        buf := buf[0 := '1'];
        if fixed { buf := buf + ['0']; } else { exp10 := exp10 + 1; }
      }
      SpellsEither(buf, exp10 - old(exp10), digits, 1);
    }
  }

  // buf spells one more than digits, with a carry still at position i.
  predicate Raising(buf: seq<char>, digits: seq<char>, i: nat)
  {
    |buf| == |digits| && Carrying(buf, i) && Spelled(buf) == Spelled(digits) + 1
  }

  lemma SpellsEither(buf: seq<char>, carry: int, digits: seq<char>, increase: nat)
    requires (carry == 0 && Spelled(buf) == Spelled(digits) + increase) ||
             (carry == 1 && Spelled(buf) * 10 == Spelled(digits) + increase)
    ensures Spells(buf, carry, digits, increase)
  {
    assert Pow(10, 0) == 1 && Pow(10, 1) == 10;
  }

  // n digits, or one more when a carry has left the first one.
  predicate Grown(buf: seq<char>, n: nat)
  {
    |buf| == n || (|buf| == n + 1 && buf[0] == '1')
  }

  // The digits of a fixed format, whose precision after on_start is n: none, one or n of them.
  predicate Sized(buf: seq<char>, n: int)
  {
    if n < 0 then buf == [] else if n == 0 then |buf| == 1 else Grown(buf, n)
  }

  // buf, with carry more places, spells the digits plus increase.
  predicate Spells(buf: seq<char>, carry: int, digits: seq<char>, increase: nat)
  {
    0 <= carry <= 1 && Spelled(buf) * Pow(10, carry) == Spelled(digits) + increase
  }

  // What a finished run has printed: digits that are right for every number within one of w.
  // In fixed mode they end at the place asked for, otherwise there are as many as asked for.
  predicate Finished(w: nat, one: nat, kappa: nat, precision: int, exp10: int, fixed: bool,
                     buf: seq<char>, exp: int, exp10': int)
  {
    && AllDigits(buf)
    && if fixed then
         exp10' == exp10 && (buf == [] || exp == -(precision + exp10)) && Sized(buf, precision + kappa + exp10) &&
         Nearest(w, one, -(precision + exp10), Spelled(buf))
       else
         0 <= exp10' - exp10 <= 1 && exp == kappa - Max(precision, 1) && |buf| == Max(precision, 1) &&
         (exp10' != exp10 ==> buf[0] == '1') &&
         Nearest(w, one, exp, Spelled(buf) * Pow(10, exp10' - exp10))
  }

  // The state between two digits: exp is the exponent of the last digit.
  predicate Generating(w: nat, one: nat, kappa: nat, exp: int, buf: seq<char>, r: nat)
  {
    AllDigits(buf) && 0 <= Spelled(buf) && Conserved(w, one, exp, Spelled(buf), r) && exp == kappa - |buf|
  }

  // After a digit that on_digit has rounded.
  lemma DigitDone(w: nat, one: nat, kappa: nat, exp: int, r: nat, front: seq<char>, digit: char,
                  precision: int, exp10: int, fixed: bool, adjusted: int, buf: seq<char>, exp10': int, up: bool)
    requires Generating(w, one, kappa, exp, front + [digit], r) && AllDigits(buf)
    requires adjusted == if fixed then precision + kappa + exp10 else precision
    requires |front| + 1 >= adjusted && (front != [] ==> |front| < adjusted) && (fixed ==> 0 < adjusted)
    requires Spells(buf, exp10' - exp10, front + [digit], if up then 1 else 0)
    requires if fixed then exp10' == exp10 && Grown(buf, |front| + 1) else |buf| == |front| + 1 && (exp10' != exp10 ==> buf[0] == '1')
    requires if up then 2 * (r - Places(exp)) >= Unit(exp, one) else 2 * (r + Places(exp)) <= Unit(exp, one)
    ensures Finished(w, one, kappa, precision, exp10, fixed, buf, exp, exp10')
  {
    if up { RoundedUp(w, one, exp, Spelled(front + [digit]), r); } else {
      RoundedDown(w, one, exp, Spelled(front + [digit]), r);
    }
    assert Pow(10, 0) == 1;
  }

  // Finished by name, so that it is unfolded only where a lemma asks for it.
  predicate IsFinished(b: bool, w: nat, one: nat, kappa: nat, precision: int, exp10: int, fixed: bool,
                       buf: seq<char>, exp: int, exp10': int)
  {
    b == Finished(w, one, kappa, precision, exp10, fixed, buf, exp, exp10')
  }

  ghost predicate Settled(w: nat, one: nat, kappa: nat, precision: int, exp10: int, fixed: bool,
                          buf: seq<char>, exp: int, exp10': int)
  {
    forall b :: IsFinished(b, w, one, kappa, precision, exp10, fixed, buf, exp, exp10') ==> b
  }

  lemma SettledFinished(w: nat, one: nat, kappa: nat, precision: int, exp10: int, fixed: bool,
                        buf: seq<char>, exp: int, exp10': int)
    requires Settled(w, one, kappa, precision, exp10, fixed, buf, exp, exp10')
    ensures Finished(w, one, kappa, precision, exp10, fixed, buf, exp, exp10')
  {
    var b := Finished(w, one, kappa, precision, exp10, fixed, buf, exp, exp10');
    assert IsFinished(b, w, one, kappa, precision, exp10, fixed, buf, exp, exp10');
  }

  lemma DigitSettled(w: nat, one: nat, kappa: nat, exp: int, r: nat, front: seq<char>, digit: char,
                     precision: int, exp10: int, fixed: bool, adjusted: int, buf: seq<char>, exp10': int, up: bool)
    requires Generating(w, one, kappa, exp, front + [digit], r) && AllDigits(buf)
    requires adjusted == if fixed then precision + kappa + exp10 else precision
    requires |front| + 1 >= adjusted && (front != [] ==> |front| < adjusted) && (fixed ==> 0 < adjusted)
    requires Spells(buf, exp10' - exp10, front + [digit], if up then 1 else 0)
    requires if fixed then exp10' == exp10 && Grown(buf, |front| + 1) else |buf| == |front| + 1 && (exp10' != exp10 ==> buf[0] == '1')
    requires if up then 2 * (r - Places(exp)) >= Unit(exp, one) else 2 * (r + Places(exp)) <= Unit(exp, one)
    ensures Settled(w, one, kappa, precision, exp10, fixed, buf, exp, exp10')
  {
    DigitDone(w, one, kappa, exp, r, front, digit, precision, exp10, fixed, adjusted, buf, exp10', up);
  }

  predicate Scaled(f: nat, one: nat, kappa: nat)
  {
    && 0x1_0000_0000 <= one <= 0x1000_0000_0000_0000 && one <= f < WORD
    && kappa == NumDigits(f / one)
  }

  lemma ScaledBounds(f: nat, one: nat, kappa: nat)
    requires Scaled(f, one, kappa)
    ensures 0 < f / one < 0x1_0000_0000 && kappa <= 10 && 0 <= f % one < one
    ensures f / one < Pow(10, kappa) && f == f / one * one + f % one
    ensures one <= Pow(10, kappa - 1) * one <= f < Pow(10, kappa) * one
  {
    NatQuotient(f, one);
    var i := f / one;
    QuotientBound(f, one, i, f % one);
    DigitBound(i);
    WeightBound(f, one, i, f % one, Pow(10, kappa - 1), Pow(10, kappa));
  }

  lemma QuotientBound(f: nat, one: nat, i: nat, r: nat)
    requires 0x1_0000_0000 <= one <= f < WORD && f == i * one + r && r < one
    ensures 0 < i < 0x1_0000_0000
  {
    if i >= 0x1_0000_0000 { MulMono(0x1_0000_0000, i, one); }
    if i == 0 { MulMono(i, 0, one); }
  }

  lemma DigitBound(i: nat)
    requires 0 < i < 0x1_0000_0000
    ensures NumDigits(i) <= 10 && 0 < Pow(10, NumDigits(i) - 1) <= i < Pow(10, NumDigits(i))
  {
    NumDigitsBounds(i);
    TenDigits();
    if NumDigits(i) > 10 { PowMono(10, 10, NumDigits(i) - 1); }
  }

  lemma TenDigits()
    ensures Pow(10, 10) == 10_000_000_000
  {
    assert Pow(10, 5) == 100_000 by { assert Pow(10, 3) == 1000; }
    PowAdd(10, 5, 5);
  }

  lemma WeightBound(f: nat, one: nat, i: nat, r: nat, low: nat, high: nat)
    requires f == i * one + r && r < one && 0 < low <= i < high
    ensures one <= low * one <= f < high * one
  {
    MulMono(1, low, one);
    MulMono(low, i, one);
    MulMono(i + 1, high, one);
    assert (i + 1) * one == i * one + one;
  }

  lemma StartBounds(f: nat, one: nat, kappa: nat)
    requires Scaled(f, one, kappa)
    ensures var divisor := Pow(10, kappa - 1) * one;
      f / 10 < divisor < WORD && 20 < divisor && Pow(10, kappa) * one == 10 * divisor
  {
    ScaledBounds(f, one, kappa);
    MulAssoc(10, Pow(10, kappa - 1), one);
  }

  lemma NearestEnds(f: nat, one: nat, target: nat, m: int)
    requires 0 < target && 0 <= m <= 1
    requires if m == 0 then 2 * (f + 1) <= Pow(10, target) * one
             else f < Pow(10, target) * one <= 2 * (f - 1)
    ensures Nearest(f, one, target, m)
  {
    assert Pow(10, 0) == 1;
  }

  // Fixed notation whose precision ends at or before the first digit.
  lemma StartDone(f: nat, one: nat, kappa: nat, precision: int, exp10: int, buf: seq<char>)
    requires Scaled(f, one, kappa) && precision + kappa + exp10 <= 0
    requires var dir := GetRoundDirectionAtStart(f, one, kappa);
      if precision + kappa + exp10 < 0 then buf == [] else dir != Unknown && buf == [if dir == Up then '1' else '0']
    ensures Finished(f, one, kappa, precision, exp10, true, buf, kappa, exp10)
  {
    var target := -(precision + exp10);
    StartBounds(f, one, kappa);
    assert Pow(10, 0) == 1;
    ScaledBounds(f, one, kappa);
    if target == kappa {
      assert buf[..0] == [];
      NearestEnds(f, one, target, Spelled(buf));
    } else {
      PowStrict(10, kappa, target);
      MulMono(10 * Pow(10, kappa), Pow(10, target), one);
      MulAssoc(10, Pow(10, kappa), one);
      NearestEnds(f, one, target, 0);
    }
  }

  function GetRoundDirectionAtStart(f: nat, one: nat, kappa: nat): RoundDirection
    requires Scaled(f, one, kappa)
  {
    StartBounds(f, one, kappa);
    GetRoundDirection(Pow(10, kappa - 1) * one, f / 10, 10)
  }

  lemma GeneratingStart(f: nat, one: nat, kappa: nat, integral: nat, fractional: nat)
    requires f == integral * one + fractional && f < Pow(10, kappa) * one
    ensures Generating(f, one, kappa, kappa, [], integral * one + fractional)
  {
    ConservedStart(f, Pow(10, kappa) * one);
    assert Pow(10, 0) == 1;
  }

  lemma ConservedStart(x: nat, unit: nat)
    ensures x * 1 == 0 * unit + x
  {
  }

  // The fixed-point weights of the digits of the integral part fit in 64 bits.
  lemma WeightBounds(f: nat, one: nat, kappa: nat, exp: nat)
    requires Scaled(f, one, kappa) && exp < kappa
    ensures 2 < Pow(10, exp) * one < WORD && Unit(exp, one) == Pow(10, exp) * one && Places(exp) == 1
  {
    ScaledBounds(f, one, kappa);
    PowMono(10, exp, kappa - 1);
    MulMono(Pow(10, exp), Pow(10, kappa - 1), one);
    MulMono(1, Pow(10, exp), one);
  }

  lemma GeneratingIntegral(f: nat, one: nat, kappa: nat, exp: nat, buf: seq<char>, integral: nat, fractional: nat)
    requires 0 < exp && Generating(f, one, kappa, exp, buf, integral * one + fractional)
    requires integral < Pow(10, exp) && fractional < one
    ensures var p := Pow(10, exp - 1);
      && 0 <= integral / p <= 9 && 0 <= integral % p < p
      && Generating(f, one, kappa, exp - 1, buf + [Glyph(integral / p)], integral % p * one + fractional)
  {
    IntegralStep(f, one, exp, Spelled(buf), integral, fractional);
    SpelledSnoc(buf, Glyph(integral / Pow(10, exp - 1)));
  }

  lemma GeneratingFractional(f: nat, one: nat, kappa: nat, exp: int, buf: seq<char>, fractional: nat)
    requires exp <= 0 < one && Generating(f, one, kappa, exp, buf, fractional)
    ensures 0 <= fractional * 10 / one <= 9 && 0 <= fractional * 10 % one < one
    ensures Generating(f, one, kappa, exp - 1, buf + [Glyph(fractional * 10 / one)], fractional * 10 % one)
    ensures Places(exp - 1) == 10 * Places(exp) && Unit(exp, one) == Unit(exp - 1, one) == one
  {
    NatQuotient(fractional * 10, one);
    FractionalStep(f, one, exp, Spelled(buf), fractional);
    SpelledSnoc(buf, Glyph(fractional * 10 / one));
    assert Pow(10, 0) == 1;
  }

  // Whether the handler still wants digits; a negative adjusted precision never gets here.
  predicate Wanting(buf: seq<char>, adjusted: int, fixed: bool)
  {
    (buf != [] ==> |buf| < adjusted) && (fixed ==> 0 < adjusted)
  }

  predicate InDigits(f: nat, one: nat, kappa: nat, exp: int, buf: seq<char>, integral: nat, fractional: nat)
  {
    && exp <= kappa && fractional < one && integral < Pow(10, Max(exp, 0))
    && Generating(f, one, kappa, exp, buf, integral * one + fractional)
  }

  // The handler's precision after on_start.
  function Adjusted(precision: int, kappa: int, exp10: int, fixed: bool): int
  {
    if fixed then precision + kappa + exp10 else precision
  }

  // Hands a digit to the handler.
  method Emit(f: nat, one: nat, kappa: nat, handler: FixedHandler, ghost exp: int, digit: nat, weight: nat,
              remainder: nat, error: nat, integral: bool, ghost precision: int)
    returns (result: DigitsResult)
    requires digit <= 9 && Generating(f, one, kappa, exp, handler.buf + [Glyph(digit)], remainder)
    requires weight == Unit(exp, one) < WORD && error == Places(exp) && (integral ==> error == 1 && weight > 2)
    requires one > 0 && integral == (exp >= 0)
    requires AllDigits(handler.buf) && Wanting(handler.buf, handler.precision, handler.fixed)
    requires handler.precision == Adjusted(precision, kappa, handler.exp10, handler.fixed)
    modifies handler
    ensures handler.precision == old(handler.precision)
    ensures result != Done ==> handler.exp10 == old(handler.exp10) && handler.buf == old(handler.buf) + [Glyph(digit)]
    ensures result == More ==> (integral || error < remainder) && Wanting(handler.buf, handler.precision, handler.fixed)
    ensures result == More <==> |old(handler.buf)| + 1 < handler.precision && (exp < 0 ==> error < Rest(f, one, exp))
    ensures result == Done <==> |old(handler.buf)| + 1 >= handler.precision && Decided(f, one, exp)
    ensures result == Done ==>
      Settled(f, one, kappa, precision, old(handler.exp10), handler.fixed, handler.buf, exp, handler.exp10)
  {
    ConservedDecided(f, one, exp, Spelled(handler.buf + [Glyph(digit)]), remainder);
    ghost var adjusted, exp10, front := handler.precision, handler.exp10, handler.buf;
    result := handler.OnDigit(Glyph(digit), weight, remainder, error, integral);
    if result == Done {
      ghost var up := GetRoundDirection(weight, remainder, error) == Up;
      DigitSettled(f, one, kappa, exp, remainder, front, Glyph(digit), precision, exp10, handler.fixed, adjusted,
                handler.buf, handler.exp10, up);
    }
  }

  lemma IntegralFacts(f: nat, one: nat, kappa: nat, exp: nat, buf: seq<char>, integral: nat, fractional: nat,
                      digit: nat, integral': nat, weight: nat, remainder: nat)
    requires Scaled(f, one, kappa) && 0 < exp && InDigits(f, one, kappa, exp, buf, integral, fractional)
    requires digit == integral / Pow(10, exp - 1) && integral' == integral % Pow(10, exp - 1)
    requires weight == Pow(10, exp - 1) * one && remainder == integral' * one + fractional
    ensures digit <= 9 && InDigits(f, one, kappa, exp - 1, buf + [Glyph(digit)], integral', fractional)
    ensures Generating(f, one, kappa, exp - 1, buf + [Glyph(digit)], remainder)
    ensures 2 < weight == Unit(exp - 1, one) < WORD && Places(exp - 1) == 1
  {
    GeneratingIntegral(f, one, kappa, exp, buf, integral, fractional);
    WeightBounds(f, one, kappa, exp - 1);
  }

  // One digit of the integral part.
  method IntegralDigit(f: nat, one: nat, kappa: nat, handler: FixedHandler, exp: nat, integral: nat, fractional: nat,
                       ghost precision: int)
    returns (result: DigitsResult, integral': nat)
    requires Scaled(f, one, kappa) && 0 < exp && InDigits(f, one, kappa, exp, handler.buf, integral, fractional)
    requires Wanting(handler.buf, handler.precision, handler.fixed)
    requires handler.precision == Adjusted(precision, kappa, handler.exp10, handler.fixed)
    modifies handler
    ensures handler.precision == old(handler.precision)
    ensures result != Done ==> handler.exp10 == old(handler.exp10) && handler.buf != [] &&
                               InDigits(f, one, kappa, exp - 1, handler.buf, integral', fractional)
    ensures result == More ==> Wanting(handler.buf, handler.precision, handler.fixed)
    ensures result == More <==> |old(handler.buf)| + 1 < handler.precision
    ensures result == Done <==> |old(handler.buf)| + 1 >= handler.precision && Decided(f, one, exp - 1)
    ensures result == Done ==>
      Settled(f, one, kappa, precision, old(handler.exp10), handler.fixed, handler.buf, exp - 1, handler.exp10)
  {
    var divisor := Pow(10, exp - 1);
    NatQuotient(integral, divisor);
    var digit: nat := integral / divisor;
    integral' := integral % divisor;
    NatProduct(divisor, one);
    NatProduct(integral', one);
    var weight: nat, remainder: nat := divisor * one, integral' * one + fractional;
    IntegralFacts(f, one, kappa, exp, handler.buf, integral, fractional, digit, integral', weight, remainder);
    result := Emit(f, one, kappa, handler, exp - 1, digit, weight, remainder, 1, true, precision);
  }

  // The digits of the integral part, at most ten.
  method IntegralDigits(f: nat, one: nat, kappa: nat, handler: FixedHandler, ghost precision: int)
    returns (result: DigitsResult, exp: int)
    requires Scaled(f, one, kappa) && handler.buf == [] && Wanting([], handler.precision, handler.fixed)
    requires handler.precision == Adjusted(precision, kappa, handler.exp10, handler.fixed)
    modifies handler
    ensures handler.precision == old(handler.precision)
    ensures result != Done ==> handler.exp10 == old(handler.exp10) && exp == kappa - |handler.buf|
    ensures result == More ==>
      && exp == 0 && InDigits(f, one, kappa, 0, handler.buf, 0, f % one)
      && handler.buf != [] && Wanting(handler.buf, handler.precision, handler.fixed)
    ensures result == More <==> Max(handler.precision, 1) > kappa
    ensures result == Done <==> Max(handler.precision, 1) <= kappa && Decided(f, one, kappa - Max(handler.precision, 1))
    ensures result == Done ==>
      Settled(f, one, kappa, precision, old(handler.exp10), handler.fixed, handler.buf, exp, handler.exp10)
  {
    ghost var exp10 := handler.exp10;
    var integral: nat, fractional: nat := f / one, f % one;
    exp := kappa;
    ScaledBounds(f, one, kappa);
    GeneratingStart(f, one, kappa, integral, fractional);
    while true
      invariant 0 < exp && InDigits(f, one, kappa, exp, handler.buf, integral, fractional)
      invariant handler.precision == old(handler.precision) && handler.exp10 == exp10
      invariant Wanting(handler.buf, handler.precision, handler.fixed)
      decreases exp
    {
      result, integral := IntegralDigit(f, one, kappa, handler, exp, integral, fractional, precision);
      exp := exp - 1;
      if result != More { return; }
      if !(exp > 0) { break; }
    }
  }

  // One digit of the fractional part; the error has become one unit of its last place.
  method FractionalDigit(f: nat, one: nat, kappa: nat, handler: FixedHandler, exp: int, fractional: nat, error: nat,
                         ghost precision: int)
    returns (result: DigitsResult, fractional': nat)
    requires Scaled(f, one, kappa) && exp <= 0 && InDigits(f, one, kappa, exp, handler.buf, 0, fractional)
    requires handler.buf != [] && Wanting(handler.buf, handler.precision, handler.fixed)
    requires handler.precision == Adjusted(precision, kappa, handler.exp10, handler.fixed)
    requires error == Places(exp - 1)
    modifies handler
    ensures handler.precision == old(handler.precision)
    ensures result != Done ==> handler.exp10 == old(handler.exp10) && handler.buf != [] &&
                               InDigits(f, one, kappa, exp - 1, handler.buf, 0, fractional')
    ensures result == More ==> error < fractional' && Wanting(handler.buf, handler.precision, handler.fixed)
    ensures result == Error ==> Places(exp - 1) >= Rest(f, one, exp - 1) || |old(handler.buf)| + 1 >= handler.precision
    ensures result == Done <==> |old(handler.buf)| + 1 >= handler.precision && Decided(f, one, exp - 1)
    ensures result == Done ==>
      Settled(f, one, kappa, precision, old(handler.exp10), handler.fixed, handler.buf, exp - 1, handler.exp10)
  {
    GeneratingFractional(f, one, kappa, exp, handler.buf, fractional);
    assert fractional * 10 < WORD;
    var digit := fractional * 10 / one;
    fractional' := fractional * 10 % one;
    result := Emit(f, one, kappa, handler, exp - 1, digit, one, fractional', error, false, precision);
  }

  // When grisu_gen_digits finds the digits; adjusted is the precision after on_start.
  predicate Decides(w: nat, one: nat, kappa: nat, adjusted: int, fixed: bool)
    requires Scaled(w, one, kappa)
  {
    if fixed && adjusted <= 0 then adjusted < 0 || GetRoundDirectionAtStart(w, one, kappa) != Unknown
    else Decided(w, one, kappa - Max(adjusted, 1))
  }

  // Behind the point, a remainder that the error has overtaken stays overtaken.
  lemma {:induction false} Overtaken(w: nat, one: nat, exp: int, last: int)
    requires one > 0 && last <= exp < 0 && Rest(w, one, exp) <= Places(exp)
    ensures Rest(w, one, last) <= Places(last)
    decreases exp - last
  {
    if last < exp {
      NatProduct(w, Places(exp));
      assert Pow(10, 0) == 1;
      NatQuotient(w * Places(exp), one);
      FractionalStep(w, one, exp, w * Places(exp) / one, Rest(w, one, exp));
      var q := Rest(w, one, exp) * 10 / one;
      ConservedRest(w, one, exp - 1, 10 * (w * Places(exp) / one) + q, Rest(w, one, exp) * 10 % one);
      SmallRemainder(Rest(w, one, exp) * 10, one);
      Overtaken(w, one, exp - 1, last);
    }
  }

  lemma SmallRemainder(x: nat, one: nat)
    requires one > 0
    ensures 0 <= x % one <= x
  {
    NatQuotient(x, one);
    NatProduct(x / one, one);
  }

  // An error before the last digit is an undecided last digit.
  lemma NeverDecided(w: nat, one: nat, exp: int, last: int)
    requires one > 0 && last <= exp < 0 && Rest(w, one, exp) <= Places(exp)
    ensures !Decided(w, one, last)
  {
    Overtaken(w, one, exp, last);
  }

  // Generates the digits of the fractional part, until the error overtakes what is left.
  method FractionalDigits(f: nat, one: nat, kappa: nat, handler: FixedHandler, start: nat, ghost precision: int)
    returns (result: DigitsResult, exp: int)
    requires Scaled(f, one, kappa) && InDigits(f, one, kappa, 0, handler.buf, 0, start)
    requires handler.buf != [] && Wanting(handler.buf, handler.precision, handler.fixed)
    requires handler.precision == Adjusted(precision, kappa, handler.exp10, handler.fixed)
    modifies handler
    ensures result != More && handler.precision == old(handler.precision)
    ensures result == Done <==> Decided(f, one, kappa - handler.precision)
    ensures result == Done ==>
      Settled(f, one, kappa, precision, old(handler.exp10), handler.fixed, handler.buf, exp, handler.exp10)
    ensures result == Error ==> handler.exp10 == old(handler.exp10) && exp == kappa - |handler.buf|
  {
    ghost var exp10 := handler.exp10;
    var fractional, error := start, 1;
    exp := 0;
    while true
      invariant exp <= 0 && InDigits(f, one, kappa, exp, handler.buf, 0, fractional)
      invariant error == Places(exp) && error < one
      invariant handler.precision == old(handler.precision) && handler.exp10 == exp10
      invariant handler.buf != [] && Wanting(handler.buf, handler.precision, handler.fixed)
      decreases one - error
    {
      assert error * 10 < WORD;
      error := error * 10;
      ghost var size := |handler.buf|;
      result, fractional := FractionalDigit(f, one, kappa, handler, exp, fractional, error, precision);
      exp := exp - 1;
      if result == More { continue; }
      if result == Error && size + 1 < handler.precision { NeverDecided(f, one, exp, kappa - handler.precision); }
      return;
    }
  }

  // The digits of f * 2^e, which is right to within one unit of f.
  method GrisuGenDigits(f: nat, e: int, handler: FixedHandler) returns (result: DigitsResult, exp: int)
    requires -60 <= e <= -32 && Pow(2, -e) <= f < WORD && handler.buf == []
    modifies handler
    ensures result != More
    ensures var kappa := NumDigits(f / Pow(2, -e));
      && handler.precision == Adjusted(old(handler.precision), kappa, old(handler.exp10), handler.fixed)
      && Scaled(f, Pow(2, -e), kappa)
      && (result == Done <==> Decides(f, Pow(2, -e), kappa, handler.precision, handler.fixed))
      && (result == Done ==> Finished(f, Pow(2, -e), kappa, old(handler.precision), old(handler.exp10),
                                      handler.fixed, handler.buf, exp, handler.exp10))
      && (result == Error ==> handler.exp10 == old(handler.exp10) && exp == kappa - |handler.buf|)
      && (result == Error && handler.fixed ==> handler.precision >= 0)
  {
    ghost var precision, exp10 := handler.precision, handler.exp10;
    var one := Pow(2, -e);
    OneBounds(-e);
    var integral := f / one;
    var kappa := NumDigits(integral);
    exp := kappa;
    StartBounds(f, one, kappa);
    // A tenth of everything, because ten times the first weight need not fit in a word.
    result := handler.OnStart(Pow(10, kappa - 1) * one, f / 10, 10, exp);
    if result != More {
      if result == Done { StartDone(f, one, kappa, precision, exp10, handler.buf); }
      return;
    }
    result, exp := IntegralDigits(f, one, kappa, handler, precision);
    if result == More {
      result, exp := FractionalDigits(f, one, kappa, handler, f % one, precision);
    }
    if result == Done {
      SettledFinished(f, one, kappa, precision, exp10, handler.fixed, handler.buf, exp, handler.exp10);
    }
  }

  lemma OneBounds(s: nat)
    requires 32 <= s <= 60
    ensures 0x1_0000_0000 <= Pow(2, s) <= 0x1000_0000_0000_0000
  {
    PowTwo32();
    PowTwo64();
    PowMono(2, 32, s);
    PowMono(2, s, 60);
  }
}
